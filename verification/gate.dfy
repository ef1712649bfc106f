/**
 * The emergency-stop gate of the MQTT command client. A global flag, set on STOP,
 * on disconnect and when the client is shut down, locks motor commands out; it is
 * cleared by START and by a fresh connection. The JSON library and the transport
 * are abstracted: events arrive already decoded.
 */
module Gate {
  import opened Common
  import opened Governor

  const MotorTopic: string := "wheelchair/command/motor"
  const EmergencyTopic: string := "wheelchair/command/emergency"

  /** A member of the decoded motor-command object: a JSON number (with the
      library's integer reading of it) or anything else, including absent. */
  datatype Field = Number(valueint: int) | NotNumber

  /** What the JSON library makes of a motor-command payload. */
  datatype MotorJson = Unparsable | Object(left: Field, right: Field)

  datatype Event =
    | Connected
    | Disconnected
      // a message; `json` is the library's decoding of `data`
    | Data(topic: string, data: string, json: MotorJson)
      // the application shuts the client down
    | AppStop

  datatype App = App(stopped: bool, client: bool, motors: State)

  /** Where a received message is dispatched. */
  datatype Handler = ToMotor | ToEmergency | Unexpected

  // ------------------------------------------------------------------
  // C string helpers
  // ------------------------------------------------------------------

  /** Byte `i` of a NUL-terminated string, reading the terminator past its end. */
  function CharAt(s: string, i: nat): char
  {
    if i < |s| then s[i] else '\0'
  }

  function Rest(s: string): string
  {
    if |s| == 0 then [] else s[1..]
  }

  /** `strncmp(buf, lit, n) == 0` for a buffer `buf` and a NUL-terminated `lit`. */
  predicate StrNEq(buf: string, lit: string, n: nat)
    decreases n
  {
    n == 0 ||
    (CharAt(buf, 0) == CharAt(lit, 0) &&
     (CharAt(buf, 0) == '\0' || StrNEq(Rest(buf), Rest(lit), n - 1)))
  }

  predicate NoNul(s: string)
  {
    forall i :: 0 <= i < |s| ==> s[i] != '\0'
  }

  /** On NUL-free strings, comparing the first |buf| bytes succeeds exactly when
      `buf` is a prefix of `lit`. */
  lemma {:induction false} StrNEqIsPrefix(buf: string, lit: string)
    requires NoNul(lit)
    ensures NoNul(buf) ==> (StrNEq(buf, lit, |buf|) <==> buf <= lit)
    decreases |buf|
  {
    if |buf| > 0 && NoNul(buf) {
      assert NoNul(Rest(buf)) by {
        forall i | 0 <= i < |Rest(buf)| ensures Rest(buf)[i] != '\0' {
          assert Rest(buf)[i] == buf[i + 1];
        }
      }
      assert NoNul(Rest(lit)) by {
        forall i | 0 <= i < |Rest(lit)| ensures Rest(lit)[i] != '\0' {
          assert Rest(lit)[i] == lit[i + 1];
        }
      }
      StrNEqIsPrefix(Rest(buf), Rest(lit));
      assert buf[0] != '\0';
      if |lit| > 0 {
        assert buf <= lit <==> buf[0] == lit[0] && buf[1..] <= lit[1..];
      }
    }
  }

  /** The text a C string reader sees: everything before the first NUL. */
  function CString(data: string): (c: string)
    ensures c <= data && NoNul(c)
    ensures |c| < |data| ==> data[|c|] == '\0'
  {
    if |data| == 0 || data[0] == '\0' then [] else [data[0]] + CString(data[1..])
  }

  // ------------------------------------------------------------------
  // Dispatch and handlers
  // ------------------------------------------------------------------

  /** Topics are compared over the received topic's length only, so any prefix of
      a subscribed topic (the empty topic included) is dispatched to it. */
  function Route(topic: string): (h: Handler)
    ensures NoNul(topic) ==> (h == ToMotor <==> topic <= MotorTopic)
    ensures NoNul(topic) ==> (h == ToEmergency <==> !(topic <= MotorTopic) && topic <= EmergencyTopic)
  {
    assert NoNul(MotorTopic) && NoNul(EmergencyTopic);
    StrNEqIsPrefix(topic, MotorTopic);
    StrNEqIsPrefix(topic, EmergencyTopic);
    if StrNEq(topic, MotorTopic, |topic|) then ToMotor
    else if StrNEq(topic, EmergencyTopic, |topic|) then ToEmergency
    else Unexpected
  }

  lemma RouteSubscribedTopics()
    ensures Route(MotorTopic) == ToMotor
    ensures Route(EmergencyTopic) == ToEmergency
    ensures Route("") == ToMotor
    ensures Route("wheelchair/state") == Unexpected
  {
    assert NoNul(MotorTopic);
    assert NoNul(EmergencyTopic);
    assert !(EmergencyTopic <= MotorTopic) by {
      assert EmergencyTopic[19] != MotorTopic[19];
    }
    var st := "wheelchair/state";
    assert NoNul(st);
    assert !(st <= MotorTopic) by { assert st[11] != MotorTopic[11]; }
    assert !(st <= EmergencyTopic) by { assert st[11] != EmergencyTopic[11]; }
  }

  /** A motor command reaches the governor only when the gate is open and both
      members are numbers; the values go through unmodified (clipping is the
      governor's job). */
  function HandleMotor(app: App, json: MotorJson, now: int): (app': App)
    ensures app'.stopped == app.stopped && app'.client == app.client
    ensures app.stopped ==> app' == app
    ensures !(json.Object? && json.left.Number? && json.right.Number?) ==> app' == app
    ensures !app.stopped && json.Object? && json.left.Number? && json.right.Number? ==>
      app'.motors == SetSpeeds(app.motors, json.left.valueint, json.right.valueint, now)
  {
    if app.stopped then app
    else match json
      case Unparsable => app
      case Object(l, r) =>
        if !l.Number? || !r.Number? then app
        else app.(motors := SetSpeeds(app.motors, l.valueint, r.valueint, now))
  }

  /** STOP latches the flag and brakes (once); START only unlatches the flag;
      anything else is ignored. The payload is read as a C string. */
  function HandleEmergency(app: App, data: string, now: int): (app': App)
    ensures app'.client == app.client
    ensures CString(data) == "STOP" ==> app'.stopped
    ensures CString(data) == "STOP" && !app.stopped ==> app'.motors == EStop(app.motors, now)
    ensures CString(data) == "STOP" && app.stopped ==> app' == app
    ensures CString(data) == "START" ==> !app'.stopped && app'.motors == app.motors
    ensures CString(data) != "STOP" && CString(data) != "START" ==> app' == app
  {
    var command := CString(data);
    if command == "STOP" then
      if !app.stopped then app.(stopped := true, motors := EStop(app.motors, now))
      else app
    else if command == "START" then
      if app.stopped then app.(stopped := false)
      else app
    else app
  }

  /** One event of the MQTT client. */
  function Step(app: App, ev: Event, now: int): (app': App)
    ensures ev.Connected? ==> app' == app.(stopped := false)
    ensures ev.Disconnected? ==> app'.stopped && app'.client == app.client && app'.motors == EStop(app.motors, now)
    ensures ev.Data? ==> app'.client == app.client
    ensures ev.Data? && Route(ev.topic) == ToMotor ==> app' == HandleMotor(app, ev.json, now)
    ensures ev.Data? && Route(ev.topic) == ToEmergency ==> app' == HandleEmergency(app, ev.data, now)
    ensures ev.Data? && Route(ev.topic) == Unexpected ==> app' == app
    ensures ev.AppStop? && app.client ==> app'.stopped && !app'.client && app'.motors == EStop(app.motors, now)
    ensures ev.AppStop? && !app.client ==> app' == app
    ensures app.stopped && !app'.stopped ==>
      ev.Connected? || (ev.Data? && CString(ev.data) == "START")
  {
    match ev
    case Connected => app.(stopped := false)
    case Disconnected => app.(stopped := true, motors := EStop(app.motors, now))
    case Data(topic, data, json) =>
      (match Route(topic)
       case ToMotor => HandleMotor(app, json, now)
       case ToEmergency => HandleEmergency(app, data, now)
       case Unexpected => app)
    case AppStop =>
      if app.client then app.(client := false, stopped := true, motors := EStop(app.motors, now))
      else app
  }

  /** What the state publisher sends on one wake-up: nothing when the client is
      gone or the gate is closed, otherwise the applied speeds. */
  function Publish(app: App, hasClient: bool): (r: Option<(int, int)>)
    ensures r.Some? <==> hasClient && !app.stopped
    ensures r.Some? ==> r.value == (app.motors.actualLeft, app.motors.actualRight)
  {
    if !hasClient || app.stopped then None else Some(GetSpeeds(app.motors))
  }

  // ------------------------------------------------------------------
  // Interleaving with the governor
  // ------------------------------------------------------------------

  /** Either an MQTT event or a governor timer tick, each atomic, with its time. */
  datatype Action = Mqtt(ev: Event, now: int) | TimerTick(now: int)

  function Apply(app: App, a: Action): App
  {
    match a
    case Mqtt(ev, now) => Step(app, ev, now)
    case TimerTick(now) => app.(motors := Tick(app.motors, now))
  }

  /** The gate's safety invariant: the governor is valid, and while the flag is
      set the wheels are at rest. */
  predicate Safe(app: App)
  {
    Valid(app.motors) && (app.stopped ==> AtRest(app.motors))
  }

  function Start(client: bool, now: int): (app: App)
    ensures Safe(app) && !app.stopped
  {
    App(false, client, Init(now))
  }

  lemma ApplyKeepsSafe(app: App, a: Action)
    requires Safe(app)
    ensures Safe(Apply(app, a))
  {
    match a
    case Mqtt(ev, now) =>
    case TimerTick(now) =>
      if app.stopped {
        TickKeepsRest(app.motors, now);
      }
  }

  function Run(app: App, actions: seq<Action>): App
    decreases |actions|
  {
    if |actions| == 0 then app else Run(Apply(app, actions[0]), actions[1..])
  }

  /** Under any interleaving of events and ticks the invariant holds: a latched
      stop keeps both wheels at rest with zero duty. */
  lemma {:induction false} RunKeepsSafe(app: App, actions: seq<Action>)
    requires Safe(app)
    ensures Safe(Run(app, actions))
    decreases |actions|
  {
    if |actions| > 0 {
      ApplyKeepsSafe(app, actions[0]);
      RunKeepsSafe(Apply(app, actions[0]), actions[1..]);
    }
  }

  /** A motor message while stopped changes nothing at all, whatever its payload
      and whichever topic routed it to the motor handler. */
  lemma StoppedIgnoresMotor(app: App, topic: string, data: string, json: MotorJson, now: int)
    requires app.stopped
    requires Route(topic) == ToMotor
    ensures Step(app, Data(topic, data, json), now) == app
  {
  }

  /** With the gate open, a motor message with two numbers on (a prefix of) the
      motor topic sets the governor's targets to the clipped values and stamps the
      command time; the applied speeds wait for the next tick. */
  lemma OpenGateForwards(app: App, topic: string, data: string, l: int, r: int, now: int)
    requires !app.stopped
    requires NoNul(topic) && topic <= MotorTopic
    ensures var app' := Step(app, Data(topic, data, Object(Number(l), Number(r))), now);
      && !app'.stopped && app'.client == app.client
      && app'.motors.targetLeft == Clamp(l) && app'.motors.targetRight == Clamp(r)
      && app'.motors.lastCmdUs == now
      && app'.motors.actualLeft == app.motors.actualLeft
      && app'.motors.actualRight == app.motors.actualRight
  {
  }
}
