/** What net/WebSocketHandler.hpp does with its input, as functions of the connection's state,
    and what RFC 6455 sections 5.2 to 5.5 promise about it. */
module WebSocket {
  import opened Basics
  import opened WebSocketFrames

  const CODE_CONTINUATION := 0
  const CODE_CLOSE := 8
  const CODE_PING := 9
  const CODE_PONG := 10

  const NORMAL_CLOSE := 1000
  const PROTOCOL_ERROR := 1002
  const POLICY_VIOLATION := 1008

  /** The key the source masks with. */
  const MASK_KEY: Mask := [0x81, 0x76, 0x81, 0x76]

  /** One call of handleMessage. */
  datatype Message = Message(fin: bool, code: nat, data: seq<Byte>)

  /** The handler's fields and its socket's; output is all that was ever put in the output
      buffer, which the kernel drains at its own pace. */
  datatype Conn = Conn(
    role: Role, inFragmentBlock: bool, shuttingDown: bool, connectionShut: bool, shutdownRequested: bool,
    payload: seq<Byte>, input: seq<Byte>, output: seq<Byte>, handled: seq<Message>)

  /** What does not change while frames are served.  The response function stands for the HTTP
      library: the size of the header that begins some input, if it accepts an upgrade. */
  datatype Role = Role(
    isClient: bool, isMasking: bool, manualDefrag: bool, upgraded: bool, socketClosed: bool,
    response: seq<Byte> -> Option<nat>)

  /** A client serves no frames before its upgrade. */
  predicate Ready(c: Conn) {
    c.role.isClient ==> c.role.upgraded
  }

  function SendKey(c: Conn): Option<Mask> {
    if c.role.isMasking then Some(MASK_KEY) else None
  }

  /** A whole frame goes out, except that nothing does when it is empty or the socket closed. */
  function Send(c: Conn, code: nat, data: seq<Byte>): Conn
    requires code < 16 && |data| < LENGTH_LIMIT
  {
    if data == [] || c.role.socketClosed then c
    else c.(output := c.output + Encode(Frame(true, code, SendKey(c), data)))
  }

  function SendClose(c: Conn, status: nat, reason: seq<Byte>): Conn
    requires status < 65536 && |reason| + 2 < LENGTH_LIMIT
  {
    Send(c.(shuttingDown := true), CODE_CLOSE, [status / 256, status % 256] + reason)
  }

  /** An unfinished closing handshake is not repeated; the input is dropped either way. */
  function Shutdown(c: Conn, status: nat, reason: seq<Byte>): Conn
    requires status < 65536 && |reason| + 2 < LENGTH_LIMIT
  {
    var told := if c.shuttingDown then c else SendClose(c, status, reason);
    told.(connectionShut := true, input := [], payload := [], inFragmentBlock := false, shuttingDown := false)
  }

  function SendPong(c: Conn, data: seq<Byte>): Conn
    requires |data| < LENGTH_LIMIT
  {
    if c.role.upgraded then Send(c, CODE_PONG, data) else c
  }

  function CloseStatus(data: seq<Byte>): nat {
    if |data| >= 2 then data[0] * 256 as int + data[1] else NORMAL_CLOSE
  }

  function CloseReason(data: seq<Byte>): (r: seq<Byte>)
    ensures |r| <= |data|
  {
    if |data| > 2 then data[2..] else []
  }

  /** A control frame, once it has left the input buffer. */
  function ReceiveControl(c: Conn, f: Frame): Conn
    requires f.Valid() && f.code >= CODE_CLOSE
  {
    if !f.fin || |f.payload| > 125 then Shutdown(c, PROTOCOL_ERROR, [])
    else if f.code == CODE_PONG then
      if c.role.isClient then Shutdown(c, POLICY_VIOLATION, []) else c
    else if f.code == CODE_PING then
      if c.role.isClient then SendPong(c, f.payload) else Shutdown(c, POLICY_VIOLATION, [])
    else if f.code == CODE_CLOSE then
      if c.shuttingDown then Shutdown(c, NORMAL_CLOSE, [])
      else Shutdown(c, CloseStatus(f.payload), CloseReason(f.payload))
    else Shutdown(c, PROTOCOL_ERROR, [])
  }

  /** A data frame, once it has left the input buffer; the flag asks for another look at it. */
  function ReceiveData(c: Conn, f: Frame): (Conn, bool)
    requires f.code < CODE_CLOSE
  {
    if c.inFragmentBlock != (f.code == CODE_CONTINUATION) then (Shutdown(c, PROTOCOL_ERROR, []), true)
    else
      var message := Message(f.fin, f.code, c.payload + f.payload);
      if f.fin || c.role.manualDefrag then
        (c.(handled := c.handled + [message], payload := [], inFragmentBlock := !f.fin), true)
      else
        (c.(payload := c.payload + f.payload, inFragmentBlock := true), false)
  }

  function Receive(c: Conn, f: Frame): (Conn, bool)
    requires f.Valid()
  {
    if f.mask.Some? && c.role.isClient then (Shutdown(c, PROTOCOL_ERROR, []), true)
    else if f.code >= CODE_CLOSE then (ReceiveControl(c, f), true)
    else ReceiveData(c, f)
  }

  /** One call of handleTCPStream.  A frame of 2 to the 63 bytes never fits in a buffer. */
  function Step(c: Conn): (r: (Conn, bool))
    ensures |r.0.input| <= |c.input|
    ensures r.1 ==> |r.0.input| < |c.input|
    ensures |r.0.input| == |c.input| ==> r.0 == c
  {
    match ParseFrame(c.input)
    case None => (c, false)
    case Some((f, size)) => if f.Valid() then Receive(c.(input := c.input[size..]), f) else (c, false)
  }

  /** Calls handleTCPStream until it returns false. */
  function Drain(c: Conn): (r: Conn)
    ensures |r.input| <= |c.input|
    ensures |r.input| == |c.input| ==> r == c
    decreases |c.input|
  {
    var (next, more) := Step(c);
    if more then Drain(next) else next
  }

  /** handleClientUpgrade: a client takes its input for the response to its upgrade, all of it
      that there is; without a good one whose header is complete it asks for a shutdown. */
  function Upgrade(c: Conn): (r: Conn)
    ensures |r.input| <= |c.input|
  {
    match c.role.response(c.input)
    case None => c.(shutdownRequested := true)
    case Some(size) =>
      if size == 0 then c.(shutdownRequested := true)
      else c.(role := c.role.(upgraded := true), input := if size < |c.input| then c.input[size..] else [])
  }

  /** handleIncomingMessage. */
  function HandleInput(c: Conn): (r: Conn)
    ensures |r.input| <= |c.input|
  {
    if c.role.isClient && !c.role.upgraded then Upgrade(c) else Drain(c)
  }

  /** The consume loop of handlePoll: calls handleIncomingMessage until it takes nothing. */
  function Consume(c: Conn): (r: Conn)
    decreases |c.input|
  {
    if c.input == [] then c
    else
      var next := HandleInput(c);
      if |next.input| == |c.input| then next else Consume(next)
  }

  /** Frames taken one at a time for as long as one is complete. */
  function Exhaust(c: Conn): Conn
    decreases |c.input|
  {
    var next := Step(c).0;
    if |next.input| == |c.input| then c else Exhaust(next)
  }

  lemma StepKeepsRole(c: Conn)
    ensures Step(c).0.role == c.role
  {
    hide Encode, ParseFrame;
  }

  lemma {:induction false} DrainKeepsRole(c: Conn)
    ensures Drain(c).role == c.role
    decreases |c.input|
  {
    hide Step;
    StepKeepsRole(c);
    if Step(c).1 {
      DrainKeepsRole(Step(c).0);
    }
  }

  lemma {:induction false} DrainThenExhaust(c: Conn)
    ensures Exhaust(Drain(c)) == Exhaust(c)
    decreases |c.input|
  {
    hide Receive, ParseFrame, Step;
    var (next, more) := Step(c);
    if more {
      DrainThenExhaust(next);
    }
  }

  /** The two loops of the source, one of which is left after every fragment that does not end
      a message, together take every complete frame. */
  lemma {:induction false} ConsumeIsExhaust(c: Conn)
    requires Ready(c)
    ensures Consume(c) == Exhaust(c)
    decreases |c.input|
  {
    hide Receive, ParseFrame, Drain, Exhaust;
    if c.input == [] {
      NothingIn(c);
    } else {
      var next := Drain(c);
      DrainKeepsRole(c);
      DrainThenExhaust(c);
      if |next.input| < |c.input| {
        ConsumeIsExhaust(next);
      } else {
        StuckStep(c);
      }
    }
  }

  lemma NothingIn(c: Conn)
    requires c.input == []
    ensures Exhaust(c) == c
  {
  }

  lemma StuckStep(c: Conn)
    requires Drain(c) == c
    ensures Exhaust(c) == c
  {
    hide Receive, ParseFrame;
  }

  /** A client that is not upgraded takes no frame before the response: without a good response
      nothing is taken, and after one the frames behind it are taken as by any other. */
  lemma ConsumeUpgrade(c: Conn)
    requires !Ready(c) && c.input != []
    ensures Consume(c) == if Ready(Upgrade(c)) then Exhaust(Upgrade(c)) else c.(shutdownRequested := true)
  {
    hide Step, Drain, Exhaust;
    if Ready(Upgrade(c)) {
      ConsumeIsExhaust(Upgrade(c));
      GoodResponse(c);
    }
  }

  /** A good response is taken out of the input, so that there is less of it. */
  lemma GoodResponse(c: Conn)
    requires !Ready(c) && Ready(Upgrade(c)) && c.input != []
    ensures |Upgrade(c).input| < |c.input|
  {
  }
}
