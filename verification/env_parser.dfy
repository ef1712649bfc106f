/**
 * The `.env` reader: each line is split with `strtok` on `=` and then on newline,
 * one pair of surrounding double quotes is removed from the value, and entries go
 * into a fixed table of 10 slots with keys cut to 31 and values to 63 characters.
 * Lookup returns the first entry whose key matches exactly.
 *
 * Lines arrive already split; opening the file is a parameter that may fail.
 */
module EnvParser {
  import opened Common

  const MaxEnvVars: nat := 10
  /** Sizes of the key and value buffers, each including its terminating NUL. */
  const MaxKeyLen: nat := 32
  const MaxValLen: nat := 64

  datatype Entry = Entry(key: string, value: string)

  // ------------------------------------------------------------------
  // strtok with a one-character delimiter set
  // ------------------------------------------------------------------

  /** A token found by `strtok`, and the text where the next call resumes. */
  datatype Token = Token(text: string, rest: string)

  /** Number of leading delimiters. */
  function SkipDelims(s: string, d: char): (n: nat)
    ensures n <= |s|
  {
    if |s| == 0 || s[0] != d then 0 else 1 + SkipDelims(s[1..], d)
  }

  /** Position of the first delimiter, or the length when there is none. */
  function FindDelim(s: string, d: char): (n: nat)
    ensures n <= |s|
  {
    if |s| == 0 || s[0] == d then 0 else 1 + FindDelim(s[1..], d)
  }

  /** `SkipDelims` stops at the first character that is not the delimiter. */
  lemma {:induction false} SkipDelimsSpec(s: string, d: char)
    ensures forall i :: 0 <= i < SkipDelims(s, d) ==> s[i] == d
    ensures SkipDelims(s, d) < |s| ==> s[SkipDelims(s, d)] != d
    decreases |s|
  {
    if |s| > 0 && s[0] == d {
      SkipDelimsSpec(s[1..], d);
    }
  }

  /** `FindDelim` stops at the first delimiter. */
  lemma {:induction false} FindDelimSpec(s: string, d: char)
    ensures forall i :: 0 <= i < FindDelim(s, d) ==> s[i] != d
    ensures FindDelim(s, d) < |s| ==> s[FindDelim(s, d)] == d
    decreases |s|
  {
    if |s| > 0 && s[0] != d {
      FindDelimSpec(s[1..], d);
    }
  }

  /** `strtok`: skip leading delimiters; no token if nothing is left; otherwise the
      token runs to the next delimiter, which is consumed, or to the end. */
  function Strtok(s: string, d: char): (r: Option<Token>)
    ensures r.None? <==> forall i :: 0 <= i < |s| ==> s[i] == d
    ensures r.Some? ==> |r.value.text| > 0 && d !in r.value.text
  {
    SkipDelimsSpec(s, d);
    var i := SkipDelims(s, d);
    if i == |s| then None
    else
      FindDelimSpec(s[i..], d);
      var j := i + FindDelim(s[i..], d);
      if j == |s| then Some(Token(s[i..], []))
      else Some(Token(s[i..j], s[j + 1..]))
  }

  /** A found token is the input with its leading delimiters dropped, cut at the
      consumed delimiter, or at the end in which case nothing remains. */
  lemma StrtokShape(s: string, d: char)
    requires Strtok(s, d).Some?
    ensures var t := Strtok(s, d).value; var lead := s[..SkipDelims(s, d)];
      (s == lead + t.text + [d] + t.rest) || (s == lead + t.text && t.rest == [])
  {
    var i := SkipDelims(s, d);
    var j := i + FindDelim(s[i..], d);
    var t := Strtok(s, d).value;
    FindDelimSpec(s[i..], d);
    if j == |s| {
      assert t.text == s[i..];
      assert s == s[..i] + s[i..];
    } else {
      assert t.text == s[i..j] && t.rest == s[j + 1..];
      assert s[j] == d;
      assert s == s[..i] + s[i..j] + [d] + s[j + 1..];
    }
  }

  // ------------------------------------------------------------------
  // One line
  // ------------------------------------------------------------------

  /** Key and raw value of a line, or nothing when either `strtok` call finds no
      token (no key, no `=` after it, or an empty value). */
  function SplitLine(line: string): (r: Option<Entry>)
    ensures r.Some? ==> |r.value.key| > 0 && '=' !in r.value.key
    ensures r.Some? ==> |r.value.value| > 0 && '\n' !in r.value.value
  {
    match Strtok(line, '=')
    case None => None
    case Some(k) =>
      match Strtok(k.rest, '\n')
      case None => None
      case Some(v) => Some(Entry(k.text, v.text))
  }

  /** Remove one pair of surrounding quotes. The test looks at the first and the
      last character, so a lone `"` counts as both and leaves the empty string. */
  function Unquote(v: string): (r: string)
    ensures |r| <= |v|
    ensures r == v || v == "\"" + r + "\"" || (v == "\"" && r == [])
  {
    if |v| > 0 && v[0] == '"' && v[|v| - 1] == '"' then
      if |v| == 1 then [] else v[1..|v| - 1]
    else v
  }

  /** `strncpy` into a buffer of `size` bytes whose last byte is then forced to NUL. */
  function Truncate(s: string, size: nat): (r: string)
    requires size > 0
    ensures r <= s && |r| <= size - 1
    ensures |s| < size ==> r == s
    ensures |s| >= size ==> |r| == size - 1
  {
    if |s| < size then s else s[..size - 1]
  }

  /** The entry a line contributes, if any, as stored in the table. */
  function ParseLine(line: string): (r: Option<Entry>)
    ensures r.Some? ==> |r.value.key| > 0 && |r.value.key| < MaxKeyLen && |r.value.value| < MaxValLen
    ensures r.Some? <==> SplitLine(line).Some?
    ensures r.Some? ==> r.value.key <= SplitLine(line).value.key
    ensures r.Some? ==> r.value.value <= Unquote(SplitLine(line).value.value)
  {
    match SplitLine(line)
    case None => None
    case Some(e) => Some(Entry(Truncate(e.key, MaxKeyLen), Truncate(Unquote(e.value), MaxValLen)))
  }

  // ------------------------------------------------------------------
  // The table
  // ------------------------------------------------------------------

  predicate Fits(e: Entry)
  {
    |e.key| < MaxKeyLen && |e.value| < MaxValLen
  }

  predicate WellFormed(table: seq<Entry>)
  {
    |table| <= MaxEnvVars && forall i :: 0 <= i < |table| ==> Fits(table[i])
  }

  /** What each line contributes, in file order. */
  function Candidates(lines: seq<string>): (cs: seq<Option<Entry>>)
    ensures |cs| == |lines|
    ensures forall i :: 0 <= i < |cs| ==> cs[i] == ParseLine(lines[i])
    ensures forall i :: 0 <= i < |cs| && cs[i].Some? ==> Fits(cs[i].value)
  {
    seq(|lines|, i requires 0 <= i < |lines| => ParseLine(lines[i]))
  }

  /** The reading loop over the lines' contributions: store while there is room;
      the first entry that finds the table full ends the loop. */
  function Fill(table: seq<Entry>, cs: seq<Option<Entry>>): (r: seq<Entry>)
    ensures table <= r
    ensures WellFormed(table) && (forall i :: 0 <= i < |cs| && cs[i].Some? ==> Fits(cs[i].value))
      ==> WellFormed(r)
    decreases |cs|
  {
    if |cs| == 0 then table
    else match cs[0]
      case None => Fill(table, cs[1..])
      case Some(e) =>
        if |table| < MaxEnvVars then Fill(table + [e], cs[1..])
        else table
  }

  /** Read lines into the table (which persists between calls). */
  function ParseLines(table: seq<Entry>, lines: seq<string>): (r: seq<Entry>)
    ensures table <= r
    ensures WellFormed(table) ==> WellFormed(r)
  {
    Fill(table, Candidates(lines))
  }

  /** The whole file; when the file system or the file cannot be opened nothing is
      read. */
  function ParseEnvFile(table: seq<Entry>, file: Option<seq<string>>): (r: seq<Entry>)
    ensures file.None? ==> r == table
    ensures table <= r
    ensures WellFormed(table) ==> WellFormed(r)
  {
    match file
    case None => table
    case Some(lines) => ParseLines(table, lines)
  }

  /** Reference: the present contributions, in order, with no capacity limit. */
  function Present(cs: seq<Option<Entry>>): seq<Entry>
    decreases |cs|
  {
    if |cs| == 0 then []
    else (match cs[0] case None => [] case Some(e) => [e]) + Present(cs[1..])
  }

  function Take<T>(s: seq<T>, n: nat): seq<T>
  {
    if n < |s| then s[..n] else s
  }

  lemma TakeCons<T>(x: T, s: seq<T>, n: nat)
    requires n > 0
    ensures Take([x] + s, n) == [x] + Take(s, n - 1)
  {
  }

  /** The loop stores exactly the first entries that fit, in order. */
  lemma {:induction false} FillTakesFirst(table: seq<Entry>, cs: seq<Option<Entry>>)
    requires |table| <= MaxEnvVars
    ensures Fill(table, cs) == table + Take(Present(cs), MaxEnvVars - |table|)
    decreases |cs|
  {
    var n := MaxEnvVars - |table|;
    if |cs| == 0 {
      assert table + [] == table;
    } else if cs[0].None? {
      assert Present(cs) == [] + Present(cs[1..]) == Present(cs[1..]);
      FillTakesFirst(table, cs[1..]);
    } else if |table| < MaxEnvVars {
      var e := cs[0].value;
      var rest := Present(cs[1..]);
      assert Present(cs) == [e] + rest;
      FillTakesFirst(table + [e], cs[1..]);
      TakeCons(e, rest, n);
      assert table + [e] + Take(rest, n - 1) == table + ([e] + Take(rest, n - 1));
    } else {
      assert Take(Present(cs), n) == [];
      assert table + [] == table;
    }
  }

  /** Parsing keeps the lines' entries in file order and stops once the table
      holds 10 of them. */
  lemma ParseLinesTakesFirstEntries(table: seq<Entry>, lines: seq<string>)
    requires |table| <= MaxEnvVars
    ensures ParseLines(table, lines) == table + Take(Present(Candidates(lines)), MaxEnvVars - |table|)
  {
    FillTakesFirst(table, Candidates(lines));
  }

  /** `get_env_value`: the value of the first entry whose key equals the query. */
  function Lookup(table: seq<Entry>, query: string): (r: Option<string>)
    ensures r.None? <==> forall i :: 0 <= i < |table| ==> table[i].key != query
    ensures r.Some? ==>
      exists i :: 0 <= i < |table| && table[i].key == query && table[i].value == r.value &&
        forall j :: 0 <= j < i ==> table[j].key != query
    decreases |table|
  {
    if |table| == 0 then None
    else if table[0].key == query then Some(table[0].value)
    else
      var r := Lookup(table[1..], query);
      assert forall i :: 1 <= i < |table| ==> table[1..][i - 1] == table[i];
      r
  }

  // ------------------------------------------------------------------
  // Properties of the line format
  // ------------------------------------------------------------------

  function Repeat(c: char, n: nat): (s: string)
    ensures |s| == n && forall i :: 0 <= i < n ==> s[i] == c
  {
    if n == 0 then [] else [c] + Repeat(c, n - 1)
  }

  /** `strtok` on delimiters, then a token, then the end or a delimiter gives that
      token and resumes after the delimiter. */
  lemma StrtokOf(s: string, pad: nat, tok: string, tail: string, d: char)
    requires s == Repeat(d, pad) + tok + tail
    requires |tok| > 0 && d !in tok
    requires |tail| > 0 ==> tail[0] == d
    ensures Strtok(s, d) == Some(Token(tok, if |tail| == 0 then [] else tail[1..]))
  {
    assert s == Repeat(d, pad) + (tok + tail);
    SkipExactly(Repeat(d, pad), tok + tail, d);
    assert s[pad..] == tok + tail;
    FindExactly(tok, tail, d);
    var j := pad + |tok|;
    assert s[pad..j] == tok;
    if |tail| > 0 {
      assert s[j + 1..] == tail[1..];
    } else {
      assert j == |s|;
      assert s[pad..] == tok;
    }
  }

  function Newline(newline: bool): string
  {
    if newline then "\n" else ""
  }

  /** A line as written in the file: `KEY=VALUE`, with or without the newline. */
  function FormatLine(key: string, value: string, newline: bool): string
  {
    key + ("=" + value + Newline(newline))
  }

  lemma StrtokUnpadded(s: string, tok: string, tail: string, d: char)
    requires s == tok + tail
    requires |tok| > 0 && d !in tok
    requires |tail| > 0 ==> tail[0] == d
    ensures Strtok(s, d) == Some(Token(tok, if |tail| == 0 then [] else tail[1..]))
  {
    assert Repeat(d, 0) == [];
    assert s == Repeat(d, 0) + tok + tail;
    StrtokOf(s, 0, tok, tail, d);
  }

  /** The key token of `=`-padding, a key, `=` and whatever follows. */
  lemma KeyToken(pad: nat, key: string, rest: string)
    requires |key| > 0 && '=' !in key
    ensures Strtok(Repeat('=', pad) + (key + ("=" + rest)), '=') == Some(Token(key, rest))
  {
    var tail := "=" + rest;
    var line := Repeat('=', pad) + (key + tail);
    assert line == Repeat('=', pad) + key + tail;
    StrtokOf(line, pad, key, tail, '=');
    assert tail[1..] == rest;
  }

  lemma KeySplit(pad: nat, key: string, value: string, newline: bool)
    requires |key| > 0 && '=' !in key
    ensures Strtok(Repeat('=', pad) + FormatLine(key, value, newline), '=')
      == Some(Token(key, value + Newline(newline)))
  {
    var rest := value + Newline(newline);
    assert FormatLine(key, value, newline) == key + ("=" + rest);
    KeyToken(pad, key, rest);
  }

  /** Writing a line (after any run of `=`) and splitting it gives back the key
      and the value; the value may itself contain `=`. */
  lemma LineRoundTrip(pad: nat, key: string, value: string, newline: bool)
    requires |key| > 0 && '=' !in key
    requires |value| > 0 && '\n' !in value
    ensures SplitLine(Repeat('=', pad) + FormatLine(key, value, newline)) == Some(Entry(key, value))
  {
    KeySplit(pad, key, value, newline);
    StrtokUnpadded(value + Newline(newline), value, Newline(newline), '\n');
    SplitLineOf(Repeat('=', pad) + FormatLine(key, value, newline), key, value + Newline(newline), value);
  }

  lemma SplitLineOf(line: string, key: string, rest: string, value: string)
    requires Strtok(line, '=') == Some(Token(key, rest))
    requires Strtok(rest, '\n') == Some(Token(value, []))
    ensures SplitLine(line) == Some(Entry(key, value))
  {
  }

  lemma {:induction false} SkipExactly(pre: string, post: string, d: char)
    requires forall i :: 0 <= i < |pre| ==> pre[i] == d
    requires |post| > 0 && post[0] != d
    ensures SkipDelims(pre + post, d) == |pre|
    decreases |pre|
  {
    if |pre| > 0 {
      assert (pre + post)[1..] == pre[1..] + post;
      SkipExactly(pre[1..], post, d);
    } else {
      assert pre + post == post;
    }
  }

  lemma {:induction false} FindExactly(pre: string, post: string, d: char)
    requires d !in pre
    requires |post| > 0 ==> post[0] == d
    ensures FindDelim(pre + post, d) == |pre|
    decreases |pre|
  {
    if |pre| > 0 {
      assert (pre + post)[1..] == pre[1..] + post;
      assert pre[0] != d;
      FindExactly(pre[1..], post, d);
    } else {
      assert pre + post == post;
    }
  }

  /** The entry stored for a written line: key and unquoted value, each cut to
      fit its buffer. */
  lemma ParseLineOf(key: string, value: string, newline: bool)
    requires |key| > 0 && '=' !in key
    requires |value| > 0 && '\n' !in value
    ensures ParseLine(FormatLine(key, value, newline))
      == Some(Entry(Truncate(key, MaxKeyLen), Truncate(Unquote(value), MaxValLen)))
  {
    LineRoundTrip(0, key, value, newline);
    assert Repeat('=', 0) + FormatLine(key, value, newline) == FormatLine(key, value, newline);
  }

  /** `KEY="..."` stores the text between the quotes, and `KEY="` (a lone quote,
      which is both first and last character) stores an empty value. */
  lemma QuotedValuesStored(key: string, v: string, newline: bool)
    requires |key| > 0 && '=' !in key && |key| < MaxKeyLen
    requires '\n' !in v && |v| < MaxValLen
    ensures ParseLine(FormatLine(key, "\"" + v + "\"", newline)) == Some(Entry(key, v))
    ensures ParseLine(FormatLine(key, "\"", newline)) == Some(Entry(key, ""))
  {
    var q := "\"" + v + "\"";
    assert '\n' !in q by {
      assert forall i :: 0 <= i < |q| ==> q[i] == '"' || q[i] == v[i - 1];
    }
    ParseLineOf(key, q, newline);
    UnquoteRoundTrip(v);
    ParseLineOf(key, "\"", newline);
  }

  /** A line whose value is empty, or that has no `=` at all, adds nothing. */
  lemma EmptyValueAddsNothing(key: string)
    requires |key| > 0 && '=' !in key
    ensures SplitLine(key + "=\n") == None
    ensures SplitLine(key + "=") == None
    ensures SplitLine(key) == None
  {
    FindExactly(key, "=\n", '=');
    FindExactly(key, "=", '=');
    FindExactly(key, "", '=');
    assert key + "" == key;
  }

  /** Quotes: a quoted value loses exactly one pair; an unquoted one is kept. */
  lemma UnquoteRoundTrip(v: string)
    ensures Unquote("\"" + v + "\"") == v
    ensures (|v| == 0 || v[0] != '"' || v[|v| - 1] != '"') ==> Unquote(v) == v
  {
    var q := "\"" + v + "\"";
    assert q[1..|q| - 1] == v;
  }

  /** Keys are stored cut to 31 characters, so a longer query is never found. */
  lemma LongQueryNeverFound(lines: seq<string>, query: string)
    requires |query| >= MaxKeyLen
    ensures Lookup(ParseLines([], lines), query) == None
  {
    var t := ParseLines([], lines);
    assert WellFormed(t);
  }
}
