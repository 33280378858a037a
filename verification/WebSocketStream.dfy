/** Frames sent over a byte stream that is cut into reads anywhere: what is handled does not
    depend on the cuts, and is what was sent. */
module WebSocketStream {
  import opened Basics
  import opened WebSocketFrames
  import opened WebSocket

  // ----- legal traffic: RFC 6455 sections 5.4 and 5.5 -----

  /** What a peer may send: no masking towards a client, fragments of one message at a time,
      control frames whole and short, pings only from servers and pongs only from clients. */
  predicate Accepts(isClient: bool, inBlock: bool, f: Frame) {
    && f.Valid() && !(isClient && f.mask.Some?)
    && if f.code < CODE_CLOSE then inBlock == (f.code == CODE_CONTINUATION)
       else f.fin && |f.payload| <= 125 && f.code == if isClient then CODE_PING else CODE_PONG
  }

  function BlockAfter(inBlock: bool, f: Frame): bool {
    if f.code < CODE_CLOSE then !f.fin else inBlock
  }

  predicate Legal(isClient: bool, inBlock: bool, fs: seq<Frame>): (r: bool)
    ensures r ==> AllValid(fs)
    decreases |fs|
  {
    assert forall i :: 1 <= i < |fs| ==> fs[i] == fs[1..][i - 1];
    fs == [] || (Accepts(isClient, inBlock, fs[0]) && Legal(isClient, BlockAfter(inBlock, fs[0]), fs[1..]))
  }

  predicate AllValid(fs: seq<Frame>) {
    forall i :: 0 <= i < |fs| ==> fs[i].Valid()
  }

  function EncodeAll(fs: seq<Frame>): seq<Byte>
    requires AllValid(fs)
  {
    if fs == [] then [] else Encode(fs[0]) + EncodeAll(fs[1..])
  }

  function ReceiveAll(c: Conn, fs: seq<Frame>): Conn
    requires AllValid(fs)
    decreases |fs|
  {
    if fs == [] then c else ReceiveAll(Receive(c, fs[0]).0, fs[1..])
  }

  /** A legal frame is not answered by a shutdown: it adds to the block or is handled, or is
      a ping to answer, or a pong. */
  function Effect(c: Conn, f: Frame): Conn
    requires f.Valid()
  {
    if f.code >= CODE_CLOSE then (if f.code == CODE_PING then SendPong(c, f.payload) else c)
    else if f.fin || c.role.manualDefrag then
      c.(handled := c.handled + [Message(f.fin, f.code, c.payload + f.payload)], payload := [],
          inFragmentBlock := !f.fin)
    else
      c.(payload := c.payload + f.payload, inFragmentBlock := true)
  }

  lemma ReceiveAccepted(c: Conn, f: Frame)
    requires Accepts(c.role.isClient, c.inFragmentBlock, f)
    ensures Receive(c, f).0 == Effect(c, f)
  {
    hide Encode, Shutdown, SendPong;
  }

  lemma PongFrame(c: Conn, data: seq<Byte>, input: seq<Byte>)
    requires |data| < LENGTH_LIMIT
    ensures SendPong(c.(input := input), data) == SendPong(c, data).(input := input)
    ensures SendPong(c, data) == c.(output := SendPong(c, data).output)
  {
    hide Encode;
  }

  lemma EffectFrame(c: Conn, f: Frame, input: seq<Byte>)
    requires f.Valid()
    ensures var next := Effect(c, f);
            && next.input == c.input && next.role == c.role
            && next.inFragmentBlock == BlockAfter(c.inFragmentBlock, f)
            && Effect(c.(input := input), f) == next.(input := input)
  {
    hide SendPong;
    PongFrame(c, f.payload, input);
  }

  /** A frame at the start of the input is taken, and only the rest is left. */
  lemma StepFrame(c: Conn, f: Frame, rest: seq<Byte>)
    requires Accepts(c.role.isClient, c.inFragmentBlock, f) && c.input == Encode(f) + rest
    ensures Step(c).0 == Effect(c.(input := rest), f) && |Step(c).0.input| < |c.input|
  {
    hide Encode, Receive, ParseFrame, Effect;
    ParseEncode(f, rest);
    ReceiveAccepted(c.(input := rest), f);
    EffectFrame(c.(input := rest), f, rest);
    assert c.input[|Encode(f)|..] == rest;
  }

  lemma ExhaustFrame(c: Conn, f: Frame, rest: seq<Byte>)
    requires Accepts(c.role.isClient, c.inFragmentBlock, f) && c.input == Encode(f) + rest
    ensures Exhaust(c) == Exhaust(Effect(c, f).(input := rest))
  {
    hide Encode, Step, Effect;
    StepFrame(c, f, rest);
    EffectFrame(c, f, rest);
  }

  /** Whole legal frames at the start of the input are all handled, and what follows them
      stays in the buffer when it is not a frame. */
  lemma {:induction false} ExhaustFrames(c: Conn, fs: seq<Frame>, left: seq<Byte>)
    requires Legal(c.role.isClient, c.inFragmentBlock, fs)
    requires c.input == EncodeAll(fs) + left && ParseFrame(left).None?
    ensures Exhaust(c) == ReceiveAll(c.(input := []), fs).(input := left)
    decreases |fs|
  {
    hide Encode, ParseFrame, Effect, Accepts;
    if fs == [] {
      assert c.input == left;
    } else {
      hide Exhaust;
      var rest := EncodeAll(fs[1..]) + left;
      assert c.input == Encode(fs[0]) + rest;
      ExhaustFrame(c, fs[0], rest);
      EffectFrame(c, fs[0], rest);
      ExhaustFrames(Effect(c, fs[0]).(input := rest), fs[1..], left);
      EffectFrame(c, fs[0], []);
      ReceiveAccepted(c.(input := []), fs[0]);
    }
  }

  // ----- any way of cutting the stream into reads -----

  /** The number of frames that are complete in the first n bytes of the stream. */
  function Whole(fs: seq<Frame>, n: nat): (k: nat)
    requires AllValid(fs)
    ensures k <= |fs|
  {
    if fs == [] || n < |Encode(fs[0])| then 0 else 1 + Whole(fs[1..], n - |Encode(fs[0])|)
  }

  lemma {:induction false} EncodeSplit(fs: seq<Frame>, k: nat)
    requires AllValid(fs) && k <= |fs|
    ensures EncodeAll(fs) == EncodeAll(fs[..k]) + EncodeAll(fs[k..])
  {
    hide Encode;
    if k > 0 {
      EncodeSplit(fs[1..], k - 1);
      assert fs[..k][1..] == fs[1..][..k - 1] && fs[1..][k - 1..] == fs[k..];
    }
  }

  /** The bytes after the complete frames. */
  function Left(fs: seq<Frame>, bytes: seq<Byte>): (r: seq<Byte>)
    requires AllValid(fs)
    ensures |r| <= |bytes|
  {
    if fs == [] || |bytes| < |Encode(fs[0])| then bytes else Left(fs[1..], bytes[|Encode(fs[0])|..])
  }

  /** A prefix of a stream is its complete frames and a proper part of the next one. */
  lemma {:induction false} WholeFrames(fs: seq<Frame>, bytes: seq<Byte>)
    requires AllValid(fs) && bytes <= EncodeAll(fs)
    ensures var k := Whole(fs, |bytes|); var left := Left(fs, bytes);
            && bytes == EncodeAll(fs[..k]) + left && left <= EncodeAll(fs[k..])
            && ParseFrame(left).None? && Whole(fs[k..], |left|) == 0
  {
    hide Encode, ParseFrame;
    var k := Whole(fs, |bytes|);
    if fs == [] {
      NothingParsed();
    } else if |bytes| < |Encode(fs[0])| {
      PartOfFrame(fs, bytes);
    } else {
      hide EncodeAll;
      var rest := bytes[|Encode(fs[0])|..];
      DropFirst(bytes, fs);
      WholeFrames(fs[1..], rest);
      EncodeTake(fs, k);
      hide Left, Whole;
      Assoc(Encode(fs[0]), EncodeAll(fs[1..][..k - 1]), Left(fs[1..], rest));
    }
  }

  lemma {:induction false} PartOfFrame(fs: seq<Frame>, bytes: seq<Byte>)
    requires AllValid(fs) && bytes <= EncodeAll(fs) && fs != [] && |bytes| < |Encode(fs[0])|
    ensures fs[0..] == fs && EncodeAll(fs[..0]) == [] && ParseFrame(bytes).None?
  {
    hide Encode, ParseFrame;
    assert bytes == Encode(fs[0])[..|bytes|];
    ParsePartial(fs[0], |bytes|);
  }

  /** All of a stream is complete frames. */
  lemma {:induction false} WholeStream(fs: seq<Frame>)
    requires AllValid(fs)
    ensures Whole(fs, |EncodeAll(fs)|) == |fs| && Left(fs, EncodeAll(fs)) == []
  {
    hide Encode;
    if fs != [] {
      WholeStream(fs[1..]);
      assert EncodeAll(fs)[|Encode(fs[0])|..] == EncodeAll(fs[1..]);
    }
  }

  lemma EncodeTake(fs: seq<Frame>, k: nat)
    requires AllValid(fs) && 0 < k <= |fs|
    ensures EncodeAll(fs[..k]) == Encode(fs[0]) + EncodeAll(fs[1..][..k - 1])
    ensures fs[k..] == fs[1..][k - 1..]
  {
    hide Encode;
    assert fs[..k][0] == fs[0] && fs[..k][1..] == fs[1..][..k - 1];
  }

  lemma NothingParsed()
    ensures ParseFrame([]).None?
  {
  }

  lemma DropFirst(bytes: seq<Byte>, fs: seq<Frame>)
    requires fs != [] && AllValid(fs) && bytes <= EncodeAll(fs) && |bytes| >= |Encode(fs[0])|
    ensures var rest := bytes[|Encode(fs[0])|..];
            && bytes == Encode(fs[0]) + rest && rest <= EncodeAll(fs[1..])
  {
    hide Encode;
    var first := Encode(fs[0]);
    var whole := first + EncodeAll(fs[1..]);
    assert bytes == whole[..|bytes|];
    assert bytes[|first|..] == whole[|first|..][..|bytes| - |first|];
  }

  /** Complete frames can be counted off one part of the stream after the other. */
  lemma {:induction false} WholeMore(fs: seq<Frame>, bytes: seq<Byte>, more: seq<Byte>)
    requires AllValid(fs)
    ensures var k := Whole(fs, |bytes|); var rest := Left(fs, bytes) + more;
            && Whole(fs, |bytes + more|) == k + Whole(fs[k..], |rest|)
            && Left(fs, bytes + more) == Left(fs[k..], rest)
  {
    hide Encode;
    var k := Whole(fs, |bytes|);
    if k == 0 {
      assert fs[0..] == fs;
    } else {
      var n := |Encode(fs[0])|;
      WholeMore(fs[1..], bytes[n..], more);
      assert (bytes + more)[n..] == bytes[n..] + more;
      assert fs[k..] == fs[1..][k - 1..];
    }
  }

  lemma {:induction false} ReceiveSplit(c: Conn, fs: seq<Frame>, k: nat)
    requires Legal(c.role.isClient, c.inFragmentBlock, fs) && k <= |fs|
    ensures var mid := ReceiveAll(c, fs[..k]);
            && mid.role == c.role && mid.input == c.input
            && Legal(c.role.isClient, c.inFragmentBlock, fs[..k])
            && Legal(c.role.isClient, mid.inFragmentBlock, fs[k..])
            && ReceiveAll(c, fs) == ReceiveAll(mid, fs[k..])
    decreases |fs|
  {
    hide Accepts, Receive, Effect;
    if k == 0 {
      assert fs[0..] == fs;
    } else {
      ReceiveAccepted(c, fs[0]);
      EffectFrame(c, fs[0], c.input);
      ReceiveSplit(Effect(c, fs[0]), fs[1..], k - 1);
      assert fs[..k][0] == fs[0] && fs[..k][1..] == fs[1..][..k - 1] && fs[k..] == fs[1..][k - 1..];
    }
  }

  function Concat(arrivals: seq<seq<Byte>>): seq<Byte> {
    if arrivals == [] then [] else arrivals[0] + Concat(arrivals[1..])
  }

  /** One handlePoll with input after another. */
  function PollAll(c: Conn, arrivals: seq<seq<Byte>>): Conn
    decreases |arrivals|
  {
    if arrivals == [] then c else PollAll(Consume(c.(input := c.input + arrivals[0])), arrivals[1..])
  }

  lemma PrefixSplit(a: seq<Byte>, b: seq<Byte>, c: seq<Byte>)
    requires a + b <= a + c
    ensures b <= c
  {
    assert b == (a + b)[|a|..] && c == (a + c)[|a|..];
    forall i | 0 <= i < |b| ensures b[i] == c[i] {
      assert (a + b)[|a| + i] == (a + c)[|a| + i];
    }
  }

  /** The connection once some bytes of a stream have come in, if the frames that are
      complete by then are received whole and the rest of the bytes wait. */
  ghost function Expected(c: Conn, fs: seq<Frame>, bytes: seq<Byte>): Conn
    requires AllValid(fs)
  {
    ReceiveAll(c.(input := []), fs[..Whole(fs, |bytes|)]).(input := Left(fs, bytes))
  }

  /** Bytes that begin a stream, with legal frames wherever they are complete. */
  ghost predicate LegalPart(c: Conn, fs: seq<Frame>, bytes: seq<Byte>) {
    AllValid(fs) && bytes <= EncodeAll(fs) && Legal(c.role.isClient, c.inFragmentBlock, fs[..Whole(fs, |bytes|)])
  }

  lemma LegalParts(c: Conn, fs: seq<Frame>, bytes: seq<Byte>)
    requires Legal(c.role.isClient, c.inFragmentBlock, fs) && bytes <= EncodeAll(fs)
    ensures LegalPart(c, fs, bytes)
  {
    hide Legal, EncodeAll;
    ReceiveSplit(c, fs, Whole(fs, |bytes|));
  }

  lemma ExpectedMore(c: Conn, fs: seq<Frame>, bytes: seq<Byte>, more: seq<Byte>)
    requires LegalPart(c, fs, bytes + more)
    ensures var k := Whole(fs, |bytes|); var mid := Expected(c, fs, bytes);
            && mid.role == c.role && LegalPart(c, fs, bytes) && LegalPart(mid, fs[k..], mid.input + more)
            && Whole(fs[k..], |mid.input|) == 0
            && Expected(c, fs, bytes + more) == Expected(mid, fs[k..], mid.input + more)
  {
    hide ReceiveAll, Legal, EncodeAll, Whole, Left;
    assert bytes <= bytes + more;
    var k, n, left := Whole(fs, |bytes|), Whole(fs, |bytes + more|), Left(fs, bytes);
    WholeFrames(fs, bytes);
    EncodeSplit(fs, k);
    assert bytes + more == EncodeAll(fs[..k]) + (left + more);
    PrefixSplit(EncodeAll(fs[..k]), left + more, EncodeAll(fs[k..]));
    WholeMore(fs, bytes, more);
    ReceiveSplit(c.(input := []), fs[..n], k);
    assert fs[..n][..k] == fs[..k] && fs[..n][k..] == fs[k..][..n - k];
  }

  /** One read: the frames it completes are handled, the rest stays. */
  lemma OnePoll(c: Conn, fs: seq<Frame>)
    requires Ready(c) && LegalPart(c, fs, c.input)
    ensures Consume(c) == Expected(c, fs, c.input)
  {
    hide Consume, Exhaust, ReceiveAll, Legal, EncodeAll;
    WholeFrames(fs, c.input);
    var k := Whole(fs, |c.input|);
    ConsumeIsExhaust(c);
    ExhaustFrames(c, fs[..k], Left(fs, c.input));
  }

  /** However a stream is cut into reads, each read leaves the connection as if the frames
      complete so far had been received whole, with the bytes of the next one waiting: no part
      of a frame is ever taken early.  Only the complete frames need be legal. */
  lemma {:induction false} StreamedPart(c: Conn, fs: seq<Frame>, arrivals: seq<seq<Byte>>)
    requires Ready(c) && LegalPart(c, fs, c.input + Concat(arrivals)) && Whole(fs, |c.input|) == 0
    ensures PollAll(c, arrivals) == Expected(c, fs, c.input + Concat(arrivals))
    decreases |arrivals|
  {
    hide Consume, LegalPart, Whole, Expected;
    assert AllValid(fs) by { LegalIsValid(c, fs, c.input + Concat(arrivals)); }
    if arrivals == [] {
      assert c.input + [] == c.input;
      NothingMore(c, fs);
    } else {
      var input, more := c.input + arrivals[0], Concat(arrivals[1..]);
      assert c.input + Concat(arrivals) == input + more;
      var start := c.(input := input);
      SameLegalPart(c, fs, input, input + more);
      ExpectedMore(start, fs, input, more);
      OnePoll(start, fs);
      StreamedPart(Consume(start), fs[Whole(fs, |input|)..], arrivals[1..]);
      SameExpected(c, fs, input, input + more);
    }
  }

  lemma LegalIsValid(c: Conn, fs: seq<Frame>, bytes: seq<Byte>)
    requires LegalPart(c, fs, bytes)
    ensures AllValid(fs)
  {
  }

  lemma SameLegalPart(c: Conn, fs: seq<Frame>, input: seq<Byte>, bytes: seq<Byte>)
    requires LegalPart(c, fs, bytes)
    ensures LegalPart(c.(input := input), fs, bytes)
  {
    hide Legal, EncodeAll;
  }

  /** A legal stream in particular. */
  lemma Streamed(c: Conn, fs: seq<Frame>, arrivals: seq<seq<Byte>>)
    requires Ready(c) && Legal(c.role.isClient, c.inFragmentBlock, fs)
    requires c.input + Concat(arrivals) <= EncodeAll(fs) && Whole(fs, |c.input|) == 0
    ensures PollAll(c, arrivals) == Expected(c, fs, c.input + Concat(arrivals))
  {
    hide Legal, EncodeAll, LegalPart, Whole, Expected, PollAll;
    LegalParts(c, fs, c.input + Concat(arrivals));
    StreamedPart(c, fs, arrivals);
  }

  /** What is expected does not depend on the input recorded before. */
  lemma SameExpected(c: Conn, fs: seq<Frame>, input: seq<Byte>, bytes: seq<Byte>)
    requires AllValid(fs)
    ensures Expected(c.(input := input), fs, bytes) == Expected(c, fs, bytes)
  {
    hide ReceiveAll, EncodeAll;
  }

  lemma NothingMore(c: Conn, fs: seq<Frame>)
    requires AllValid(fs) && Whole(fs, |c.input|) == 0
    ensures Expected(c, fs, c.input) == c
  {
    assert fs[..0] == [];
  }

  /** In particular the whole stream leaves every frame received and the buffer empty. */
  lemma StreamReceived(c: Conn, fs: seq<Frame>, arrivals: seq<seq<Byte>>)
    requires Ready(c) && Legal(c.role.isClient, c.inFragmentBlock, fs)
    requires c.input == [] && Concat(arrivals) == EncodeAll(fs)
    ensures PollAll(c, arrivals) == ReceiveAll(c, fs)
  {
    hide ReceiveAll, Legal, PollAll, EncodeAll;
    var total := EncodeAll(fs);
    assert c.input + Concat(arrivals) == total;
    NothingWhole(fs);
    Streamed(c, fs, arrivals);
    WholeStream(fs);
    assert fs[..|fs|] == fs;
    ReceiveSplit(c, fs, |fs|);
  }

  lemma NothingWhole(fs: seq<Frame>)
    requires AllValid(fs)
    ensures Whole(fs, 0) == 0
  {
  }

  // ----- what a legal stream means: RFC 6455 sections 5.4 and 5.5 -----

  function DataFrames(fs: seq<Frame>): seq<Frame> {
    if fs == [] then [] else (if fs[0].code < CODE_CLOSE then [fs[0]] else []) + DataFrames(fs[1..])
  }

  /** The messages that data frames make up, after some payload already gathered: fragments are
      put together, unless that is left to the one who handles them. */
  function Messages(manual: bool, data: seq<Frame>, gathered: seq<Byte>): seq<Message> {
    if data == [] then []
    else
      var payload := gathered + data[0].payload;
      if data[0].fin || manual then [Message(data[0].fin, data[0].code, payload)] + Messages(manual, data[1..], [])
      else Messages(manual, data[1..], payload)
  }

  /** The frames that answer the pings among some frames: each non-empty one, byte for byte. */
  function Answers(role: Role, fs: seq<Frame>): (r: seq<Frame>)
    requires AllValid(fs)
    ensures AllValid(r)
  {
    if fs == [] then []
    else
      (if fs[0].code == CODE_PING && fs[0].payload != [] && role.upgraded && !role.socketClosed
       then [Frame(true, CODE_PONG, if role.isMasking then Some(MASK_KEY) else None, fs[0].payload)] else []) +
      Answers(role, fs[1..])
  }

  lemma EncodeCons(f: Frame, fs: seq<Frame>)
    requires f.Valid() && AllValid(fs)
    ensures AllValid([f] + fs) && EncodeAll([f] + fs) == Encode(f) + EncodeAll(fs)
  {
    hide Encode;
    assert ([f] + fs)[1..] == fs;
  }

  /** Control frames never disturb the messages, and only pings are answered. */
  lemma {:induction false} StreamMeaning(c: Conn, fs: seq<Frame>)
    requires Legal(c.role.isClient, c.inFragmentBlock, fs)
    ensures ReceiveAll(c, fs).handled == c.handled + Messages(c.role.manualDefrag, DataFrames(fs), c.payload)
    ensures ReceiveAll(c, fs).output == c.output + EncodeAll(Answers(c.role, fs))
    decreases |fs|
  {
    hide Encode, Receive, Legal, Accepts;
    if fs != [] {
      LegalRest(c, fs);
      ReceiveAccepted(c, fs[0]);
      var next := Effect(c, fs[0]);
      StreamMeaning(next, fs[1..]);
      HandledStep(c, fs);
      OutputStep(c, fs);
    }
  }

  lemma LegalRest(c: Conn, fs: seq<Frame>)
    requires Legal(c.role.isClient, c.inFragmentBlock, fs) && fs != []
    ensures Accepts(c.role.isClient, c.inFragmentBlock, fs[0])
    ensures var next := Effect(c, fs[0]);
            next.role == c.role && Legal(next.role.isClient, next.inFragmentBlock, fs[1..])
  {
    hide Effect, Accepts;
    EffectFrame(c, fs[0], []);
  }

  lemma HandledStep(c: Conn, fs: seq<Frame>)
    requires fs != [] && AllValid(fs)
    ensures var next := Effect(c, fs[0]); var manual := c.role.manualDefrag;
            next.handled + Messages(manual, DataFrames(fs[1..]), next.payload) ==
            c.handled + Messages(manual, DataFrames(fs), c.payload)
  {
    hide SendPong;
    var data, rest := DataFrames(fs), DataFrames(fs[1..]);
    if fs[0].code < CODE_CLOSE {
      hide DataFrames;
      assert data == [fs[0]] + rest && data[1..] == rest by {
        DataStep(fs);
      }
      var m, later := [Message(fs[0].fin, fs[0].code, c.payload + fs[0].payload)],
          Messages(c.role.manualDefrag, rest, []);
      assert (c.handled + m) + later == c.handled + (m + later);
    } else {
      assert data == rest;
      PongFrame(c, fs[0].payload, []);
    }
  }

  lemma DataStep(fs: seq<Frame>)
    requires fs != [] && fs[0].code < CODE_CLOSE
    ensures DataFrames(fs) == [fs[0]] + DataFrames(fs[1..])
  {
  }

  /** The frame that answers a ping, if one does. */
  lemma EffectOutput(c: Conn, f: Frame)
    requires f.Valid()
    ensures Effect(c, f).output ==
            if f.code == CODE_PING && f.payload != [] && c.role.upgraded && !c.role.socketClosed
            then c.output + Encode(Frame(true, CODE_PONG, SendKey(c), f.payload)) else c.output
  {
    hide Encode;
  }

  lemma OutputStep(c: Conn, fs: seq<Frame>)
    requires fs != [] && AllValid(fs)
    ensures Effect(c, fs[0]).output + EncodeAll(Answers(c.role, fs[1..])) == c.output + EncodeAll(Answers(c.role, fs))
  {
    var rest := Answers(c.role, fs[1..]);
    var f := Frame(true, CODE_PONG, SendKey(c), fs[0].payload);
    EffectOutput(c, fs[0]);
    hide Encode, EncodeAll, Effect;
    if fs[0].code == CODE_PING && fs[0].payload != [] && c.role.upgraded && !c.role.socketClosed {
      assert Answers(c.role, fs) == [f] + rest;
      EncodeCons(f, rest);
      Assoc(c.output, Encode(f), EncodeAll(rest));
    } else {
      assert Answers(c.role, fs) == rest;
    }
  }

  function Payloads(fs: seq<Frame>): seq<Byte> {
    if fs == [] then [] else fs[0].payload + Payloads(fs[1..])
  }

  lemma {:induction false} BlockMessage(data: seq<Frame>, gathered: seq<Byte>)
    requires data != [] && (forall i :: 0 <= i < |data| ==> (data[i].fin <==> i == |data| - 1))
    ensures Messages(false, data, gathered) == [Message(true, data[|data| - 1].code, gathered + Payloads(data))]
  {
    if |data| == 1 {
      assert data[1..] == [];
      assert data[0].payload + [] == data[0].payload;
    } else {
      BlockMessage(data[1..], gathered + data[0].payload);
      assert gathered + data[0].payload + Payloads(data[1..]) == gathered + Payloads(data);
    }
  }

  /** A message in fragments, with control frames anywhere between them, is handled once, as
      the fragments put together; it is reported under the code of its last fragment. */
  lemma FragmentedMessage(c: Conn, fs: seq<Frame>)
    requires Legal(c.role.isClient, false, fs) && !c.role.manualDefrag
    requires !c.inFragmentBlock && c.payload == []
    requires var data := DataFrames(fs);
             data != [] && forall i :: 0 <= i < |data| ==> (data[i].fin <==> i == |data| - 1)
    ensures var data := DataFrames(fs);
            ReceiveAll(c, fs).handled == c.handled + [Message(true, data[|data| - 1].code, Payloads(data))]
  {
    hide ReceiveAll, Legal, Messages, Payloads;
    StreamMeaning(c, fs);
    BlockMessage(DataFrames(fs), []);
    assert [] + Payloads(DataFrames(fs)) == Payloads(DataFrames(fs));
  }

  // ----- closing: RFC 6455 section 5.5.1 -----

  /** A connection after a close. */
  function Closed(c: Conn): Conn {
    c.(connectionShut := true, input := [], payload := [], inFragmentBlock := false, shuttingDown := false)
  }

  /** What answers a close: the very status and reason that it gave, or a normal close. */
  function CloseAnswer(data: seq<Byte>): (r: seq<Byte>)
    ensures 2 <= |r| && |r| <= |data| + 2
  {
    if |data| >= 2 then data else [NORMAL_CLOSE / 256, NORMAL_CLOSE % 256]
  }

  /** A connection that a close was received on: it is answered, unless a close was sent before. */
  function ClosedBy(c: Conn, close: Frame): Conn
    requires close.Valid() && |close.payload| <= 125
  {
    if c.shuttingDown || c.role.socketClosed then Closed(c)
    else Closed(c).(output := c.output + Encode(Frame(true, CODE_CLOSE, SendKey(c), CloseAnswer(close.payload))))
  }

  /** A close as a peer may send it. */
  predicate IsClose(isClient: bool, close: Frame) {
    close.Valid() && close.code == CODE_CLOSE && close.fin && |close.payload| <= 125 && !(isClient && close.mask.Some?)
  }

  lemma CloseReceived(c: Conn, close: Frame)
    requires IsClose(c.role.isClient, close)
    ensures Receive(c, close).0 == ClosedBy(c, close)
  {
    hide Encode;
    var data := close.payload;
    var status := CloseStatus(data);
    if |data| >= 2 {
      assert status / 256 == data[0] as int && status % 256 == data[1] as int;
      assert [data[0], data[1]] + CloseReason(data) == data;
    } else {
      assert [NORMAL_CLOSE / 256, NORMAL_CLOSE % 256] + [] == [NORMAL_CLOSE / 256, NORMAL_CLOSE % 256];
    }
  }

  /** Exhausting input that begins with a close is receiving it: nothing behind it is taken. */
  lemma ExhaustClose(c: Conn, close: Frame, rest: seq<Byte>)
    requires IsClose(c.role.isClient, close) && c.input == Encode(close) + rest
    ensures Exhaust(c) == Receive(c, close).0
  {
    CloseReceived(c, close);
    CloseReceived(c.(input := rest), close);
    hide Encode, Receive, ParseFrame, Exhaust;
    ParseEncode(close, rest);
    var next := Receive(c, close).0;
    assert next.input == [];
    assert Step(c).0 == next;
    NothingIn(next);
    ExhaustStep(c);
  }

  lemma ExhaustStep(c: Conn)
    requires |Step(c).0.input| < |c.input|
    ensures Exhaust(c) == Exhaust(Step(c).0)
  {
    hide Step;
  }

  /** A close frame behind legal frames is answered once, by its own status and reason, unless a
      close was sent before; what comes in behind it is dropped. */
  lemma {:induction false} CloseAnswered(c: Conn, fs: seq<Frame>, close: Frame, rest: seq<Byte>)
    requires Ready(c) && Legal(c.role.isClient, c.inFragmentBlock, fs)
    requires IsClose(c.role.isClient, close)
    requires c.input == EncodeAll(fs) + (Encode(close) + rest)
    ensures Consume(c) == ClosedBy(ReceiveAll(c, fs), close)
    decreases |fs|
  {
    hide Encode, Receive, Effect, Accepts, Exhaust, Consume, ClosedBy;
    ConsumeIsExhaust(c);
    if fs == [] {
      assert c.input == Encode(close) + rest;
      ExhaustClose(c, close, rest);
      CloseReceived(c, close);
    } else {
      var more := EncodeAll(fs[1..]) + (Encode(close) + rest);
      assert c.input == Encode(fs[0]) + more;
      ExhaustFrame(c, fs[0], more);
      EffectFrame(c, fs[0], more);
      ReceiveAccepted(c, fs[0]);
      var next := Effect(c, fs[0]).(input := more);
      ConsumeIsExhaust(next);
      CloseAnswered(next, fs[1..], close, rest);
      ReceiveInput(Effect(c, fs[0]), fs[1..], more);
      ClosedInput(ReceiveAll(c, fs), close, more);
    }
  }

  lemma {:induction false} PollSplit(c: Conn, before: seq<seq<Byte>>, after: seq<seq<Byte>>)
    ensures PollAll(c, before + after) == PollAll(PollAll(c, before), after)
    decreases |before|
  {
    hide Consume;
    if before == [] {
      assert before + after == after;
    } else {
      assert (before + after)[1..] == before[1..] + after;
      PollSplit(Consume(c.(input := c.input + before[0])), before[1..], after);
    }
  }

  lemma EncodeClose(fs: seq<Frame>, close: Frame)
    requires AllValid(fs) && close.Valid()
    ensures EncodeAll(fs + [close]) == EncodeAll(fs) + Encode(close)
  {
    hide Encode;
    EncodeSplit(fs + [close], |fs|);
    assert (fs + [close])[..|fs|] == fs && (fs + [close])[|fs|..] == [close];
    assert EncodeAll([close]) == Encode(close) + [];
  }

  /** Before all of a stream has come in, its last frame is not complete. */
  lemma {:induction false} LastIncomplete(fs: seq<Frame>, n: nat)
    requires AllValid(fs) && n < |EncodeAll(fs)|
    ensures fs != [] && Whole(fs, n) < |fs|
  {
    hide Encode;
    if n >= |Encode(fs[0])| {
      LastIncomplete(fs[1..], n - |Encode(fs[0])|);
    }
  }

  /** The reads in front of the one that completes a close. */
  lemma BeforeClose(c: Conn, fs: seq<Frame>, close: Frame, before: seq<seq<Byte>>)
    requires Ready(c) && Legal(c.role.isClient, c.inFragmentBlock, fs) && close.Valid() && c.input == []
    requires Concat(before) <= EncodeAll(fs + [close]) && |Concat(before)| < |EncodeAll(fs + [close])|
    ensures var gs := fs + [close]; var k := Whole(gs, |Concat(before)|);
            k <= |fs| && PollAll(c, before) == ReceiveAll(c, fs[..k]).(input := Left(gs, Concat(before)))
  {
    hide Legal, EncodeAll, Whole, PollAll, ReceiveAll;
    var gs := fs + [close];
    var k := Whole(gs, |Concat(before)|);
    LastIncomplete(gs, |Concat(before)|);
    assert gs[..k] == fs[..k];
    ReceiveSplit(c, fs, k);
    NothingWhole(gs);
    assert c.input + Concat(before) == Concat(before);
    StreamedPart(c, gs, before);
  }

  /** A close behind legal frames, however they are cut into reads: the read that completes it
      leaves it answered, whatever else is in that read.  The reads that follow find a handler
      without input, block or payload. */
  lemma ClosedStream(c: Conn, fs: seq<Frame>, close: Frame, before: seq<seq<Byte>>, last: seq<Byte>, rest: seq<Byte>,
                     later: seq<seq<Byte>>)
    requires Ready(c) && Legal(c.role.isClient, c.inFragmentBlock, fs) && IsClose(c.role.isClient, close)
             && c.input == []
    requires |Concat(before)| < |EncodeAll(fs + [close])|
    requires Concat(before) + last == EncodeAll(fs + [close]) + rest
    ensures PollAll(c, before + [last] + later) == PollAll(ClosedBy(ReceiveAll(c, fs), close), later)
  {
    hide Legal, EncodeAll, Whole, Left, PollAll, Encode, ReceiveAll, ClosedBy, Consume;
    var gs, bytes := fs + [close], Concat(before);
    var k, left := Whole(gs, |bytes|), Left(gs, bytes);
    PartOfSum(bytes, last, EncodeAll(gs), rest);
    BeforeClose(c, fs, close, before);
    LeftForClose(fs, close, bytes, last, rest);
    ReceiveSplit(c, fs, k);
    var mid := ReceiveAll(c, fs[..k]);
    var input := left + last;
    CloseAnswered(mid.(input := input), fs[k..], close, rest);
    ReceiveInput(mid, fs[k..], input);
    ClosedInput(ReceiveAll(c, fs), close, input);
    OneRead(mid.(input := left), last);
    PollSplit(c, before, [last]);
    PollSplit(c, before + [last], later);
  }

  lemma PartOfSum(a: seq<Byte>, b: seq<Byte>, c: seq<Byte>, d: seq<Byte>)
    requires a + b == c + d && |a| <= |c|
    ensures a <= c
  {
    forall i | 0 <= i < |a| ensures a[i] == c[i] {
      assert (a + b)[i] == (c + d)[i];
    }
  }

  lemma OneRead(c: Conn, arrival: seq<Byte>)
    ensures PollAll(c, [arrival]) == Consume(c.(input := c.input + arrival))
  {
    hide Consume;
  }

  lemma CutBeforeClose(fs: seq<Frame>, close: Frame, bytes: seq<Byte>)
    requires AllValid(fs) && close.Valid()
    requires bytes <= EncodeAll(fs + [close]) && |bytes| < |EncodeAll(fs + [close])|
    ensures var gs := fs + [close]; var k := Whole(gs, |bytes|);
            k <= |fs| && bytes == EncodeAll(fs[..k]) + Left(gs, bytes)
  {
    hide EncodeAll, Whole, Left;
    var gs := fs + [close];
    var k := Whole(gs, |bytes|);
    LastIncomplete(gs, |bytes|);
    WholeFrames(gs, bytes);
    assert gs[..k] == fs[..k];
  }

  /** What waits in front of the read that completes a close is completed to the frames left. */
  lemma LeftForClose(fs: seq<Frame>, close: Frame, bytes: seq<Byte>, last: seq<Byte>, rest: seq<Byte>)
    requires AllValid(fs) && close.Valid()
    requires bytes <= EncodeAll(fs + [close]) && |bytes| < |EncodeAll(fs + [close])|
    requires bytes + last == EncodeAll(fs + [close]) + rest
    ensures var gs := fs + [close]; var k := Whole(gs, |bytes|);
            k <= |fs| && Left(gs, bytes) + last == EncodeAll(fs[k..]) + (Encode(close) + rest)
  {
    hide EncodeAll, Whole, Left, Encode;
    CutBeforeClose(fs, close, bytes);
    EncodeClose(fs, close);
    var k := Whole(fs + [close], |bytes|);
    EncodeSplit(fs, k);
    Uncut(EncodeAll(fs[..k]), Left(fs + [close], bytes), last, EncodeAll(fs[k..]), Encode(close), rest);
  }

  lemma Uncut(a: seq<Byte>, left: seq<Byte>, last: seq<Byte>, b: seq<Byte>, close: seq<Byte>, rest: seq<Byte>)
    requires (a + left) + last == ((a + b) + close) + rest
    ensures left + last == b + (close + rest)
  {
    Assoc(a, left, last);
    Assoc(a, b, close);
    Assoc(a, b + close, rest);
    Assoc(b, close, rest);
    assert left + last == (a + (left + last))[|a|..];
    assert b + (close + rest) == (a + (b + (close + rest)))[|a|..];
  }

  /** What a close leaves: further legal frames are received as on a new connection. */
  lemma AfterClose(c: Conn, close: Frame, fs: seq<Frame>, later: seq<seq<Byte>>)
    requires Ready(c) && close.Valid() && |close.payload| <= 125
    requires Legal(c.role.isClient, false, fs) && Concat(later) == EncodeAll(fs)
    ensures PollAll(ClosedBy(c, close), later) == ReceiveAll(ClosedBy(c, close), fs)
  {
    hide Legal, EncodeAll, PollAll, Encode, ReceiveAll;
    StreamReceived(ClosedBy(c, close), fs, later);
  }

  lemma ClosedInput(c: Conn, close: Frame, input: seq<Byte>)
    requires close.Valid() && |close.payload| <= 125
    ensures ClosedBy(c.(input := input), close) == ClosedBy(c, close)
  {
    hide Encode;
  }

  /** What legal frames do has nothing to do with the input behind them. */
  lemma {:induction false} ReceiveInput(c: Conn, fs: seq<Frame>, input: seq<Byte>)
    requires Legal(c.role.isClient, c.inFragmentBlock, fs)
    ensures ReceiveAll(c.(input := input), fs) == ReceiveAll(c, fs).(input := input)
    decreases |fs|
  {
    hide Encode, Receive, Effect, Accepts;
    if fs != [] {
      ReceiveAccepted(c, fs[0]);
      ReceiveAccepted(c.(input := input), fs[0]);
      EffectFrame(c, fs[0], input);
      ReceiveInput(Effect(c, fs[0]), fs[1..], input);
    }
  }

  // ----- the upgrade of a client -----

  /** A client whose response comes in one read, with the beginning of a stream behind it or not,
      receives that stream as if it had been upgraded before. */
  lemma StreamAfterUpgrade(c: Conn, header: seq<Byte>, first: seq<Byte>, arrivals: seq<seq<Byte>>, fs: seq<Frame>)
    requires !Ready(c) && c.input == [] && header != [] && c.role.response(header + first) == Some(|header|)
    requires Legal(true, c.inFragmentBlock, fs) && Concat([first] + arrivals) == EncodeAll(fs)
    ensures PollAll(c, [header + first] + arrivals) == ReceiveAll(c.(role := c.role.(upgraded := true)), fs)
  {
    var up := c.(role := c.role.(upgraded := true));
    var start := c.(input := header + first);
    assert c.input + (header + first) == header + first;
    assert ([header + first] + arrivals)[1..] == arrivals && ([first] + arrivals)[1..] == arrivals;
    assert (header + first)[|header|..] == first;
    assert [] + first == first;
    assert Upgrade(start) == up.(input := first);
    hide Consume, Exhaust, ReceiveAll, Legal, EncodeAll, Upgrade;
    ConsumeUpgrade(start);
    ConsumeIsExhaust(up.(input := first));
    StreamReceived(up, fs, [first] + arrivals);
  }

  /** Outside a block of fragments nothing is gathered, and never with manual defragmentation. */
  predicate GatheredInBlock(c: Conn) {
    (!c.inFragmentBlock || c.role.manualDefrag) ==> c.payload == []
  }

  /** Whatever comes in, legal or not. */
  lemma StepKeepsGathered(c: Conn)
    requires GatheredInBlock(c)
    ensures GatheredInBlock(Step(c).0)
  {
    hide Encode, ParseFrame;
  }

  lemma {:induction false} DrainKeepsGathered(c: Conn)
    requires GatheredInBlock(c)
    ensures GatheredInBlock(Drain(c))
    decreases |c.input|
  {
    hide Step;
    StepKeepsGathered(c);
    if Step(c).1 {
      DrainKeepsGathered(Step(c).0);
    }
  }

  lemma {:induction false} ConsumeKeepsGathered(c: Conn)
    requires GatheredInBlock(c)
    ensures GatheredInBlock(Consume(c))
    decreases |c.input|
  {
    hide Drain;
    DrainKeepsGathered(c);
    if c.input != [] && |HandleInput(c).input| != |c.input| {
      ConsumeKeepsGathered(HandleInput(c));
    }
  }

  lemma {:induction false} PollsKeepGathered(c: Conn, arrivals: seq<seq<Byte>>)
    requires GatheredInBlock(c)
    ensures GatheredInBlock(PollAll(c, arrivals))
    decreases |arrivals|
  {
    hide Consume;
    if arrivals != [] {
      ConsumeKeepsGathered(c.(input := c.input + arrivals[0]));
      PollsKeepGathered(Consume(c.(input := c.input + arrivals[0])), arrivals[1..]);
    }
  }

  // ----- from one end to the other -----

  datatype Outgoing = Outgoing(code: nat, data: seq<Byte>)
  {
    predicate Valid() {
      0 < code < CODE_CLOSE && 0 < |data| < LENGTH_LIMIT
    }
  }

  predicate AllOutgoing(ms: seq<Outgoing>) {
    forall i :: 0 <= i < |ms| ==> ms[i].Valid()
  }

  function SendAll(c: Conn, ms: seq<Outgoing>): Conn
    requires AllOutgoing(ms)
    decreases |ms|
  {
    if ms == [] then c else SendAll(Send(c, ms[0].code, ms[0].data), ms[1..])
  }

  function SentFrames(key: Option<Mask>, ms: seq<Outgoing>): (fs: seq<Frame>)
    requires AllOutgoing(ms)
    ensures AllValid(fs)
    decreases |ms|
  {
    if ms == [] then [] else [Frame(true, ms[0].code, key, ms[0].data)] + SentFrames(key, ms[1..])
  }

  function Handled(ms: seq<Outgoing>): seq<Message> {
    if ms == [] then [] else [Message(true, ms[0].code, ms[0].data)] + Handled(ms[1..])
  }

  lemma {:induction false} SendAllFrames(c: Conn, ms: seq<Outgoing>)
    requires AllOutgoing(ms) && !c.role.socketClosed
    ensures SendAll(c, ms).output == c.output + EncodeAll(SentFrames(SendKey(c), ms))
    decreases |ms|
  {
    hide Encode;
    if ms != [] {
      var f := Frame(true, ms[0].code, SendKey(c), ms[0].data);
      SendAllFrames(Send(c, ms[0].code, ms[0].data), ms[1..]);
      EncodeCons(f, SentFrames(SendKey(c), ms[1..]));
    }
  }

  lemma {:induction false} SentAreLegal(isClient: bool, key: Option<Mask>, ms: seq<Outgoing>)
    requires AllOutgoing(ms) && !(isClient && key.Some?)
    ensures Legal(isClient, false, SentFrames(key, ms))
    decreases |ms|
  {
    if ms != [] {
      SentAreLegal(isClient, key, ms[1..]);
      assert SentFrames(key, ms)[1..] == SentFrames(key, ms[1..]);
    }
  }

  lemma {:induction false} SentAreHandled(c: Conn, key: Option<Mask>, ms: seq<Outgoing>)
    requires AllOutgoing(ms) && !(c.role.isClient && key.Some?) && !c.inFragmentBlock && c.payload == []
    ensures ReceiveAll(c, SentFrames(key, ms)) == c.(handled := c.handled + Handled(ms))
    decreases |ms|
  {
    hide Receive;
    if ms != [] {
      var f := Frame(true, ms[0].code, key, ms[0].data);
      OneHandled(c, f);
      SentAreHandled(Receive(c, f).0, key, ms[1..]);
      SentCons(c, key, ms);
    } else {
      assert c.handled + [] == c.handled;
    }
  }

  lemma {:induction false} SentCons(c: Conn, key: Option<Mask>, ms: seq<Outgoing>)
    requires AllOutgoing(ms) && ms != []
    ensures var fs := SentFrames(key, ms);
            && fs != [] && fs[0] == Frame(true, ms[0].code, key, ms[0].data) && fs[1..] == SentFrames(key, ms[1..])
    ensures c.handled + Handled(ms) == c.handled + [Message(true, ms[0].code, ms[0].data)] + Handled(ms[1..])
  {
  }

  lemma OneHandled(c: Conn, f: Frame)
    requires f.Valid() && f.fin && 0 < f.code < CODE_CLOSE && !(c.role.isClient && f.mask.Some?)
    requires !c.inFragmentBlock && c.payload == []
    ensures Receive(c, f).0 == c.(handled := c.handled + [Message(true, f.code, f.payload)])
  {
    assert c.payload + f.payload == f.payload;
  }

  /** Messages framed at one end and cut into reads anywhere are handled at the other end, in
      order and byte for byte; nothing else happens there, and no input is left. */
  lemma EndToEnd(sender: Conn, receiver: Conn, ms: seq<Outgoing>, arrivals: seq<seq<Byte>>)
    requires AllOutgoing(ms) && !sender.role.socketClosed && sender.output == []
    requires sender.role.isMasking ==> !receiver.role.isClient
    requires Ready(receiver) && !receiver.inFragmentBlock && receiver.payload == [] && receiver.input == []
    requires Concat(arrivals) == SendAll(sender, ms).output
    ensures PollAll(receiver, arrivals) == receiver.(handled := receiver.handled + Handled(ms))
  {
    hide PollAll, ReceiveAll, EncodeAll, Legal, SendAll, Handled;
    var fs := SentFrames(SendKey(sender), ms);
    SendAllFrames(sender, ms);
    assert sender.output + EncodeAll(fs) == EncodeAll(fs);
    SentAreLegal(receiver.role.isClient, SendKey(sender), ms);
    SentAreHandled(receiver, SendKey(sender), ms);
    StreamReceived(receiver, fs, arrivals);
  }

  /** A non-empty ping to a client comes back to the server as a pong with the same bytes. */
  lemma PingEchoed(client: Conn, ping: Frame)
    requires client.role.isClient && client.role.upgraded && !client.role.socketClosed
    requires Accepts(true, client.inFragmentBlock, ping) && ping.code == CODE_PING && ping.payload != []
    ensures var after := Receive(client, ping).0;
            && client.output <= after.output
            && var answer := after.output[|client.output|..];
               ParseFrame(answer) == Some((Frame(true, CODE_PONG, SendKey(client), ping.payload), |answer|))
  {
    hide Encode, ParseFrame;
    var pong := Frame(true, CODE_PONG, SendKey(client), ping.payload);
    ReceiveAccepted(client, ping);
    ParseEncode(pong, []);
    assert Encode(pong) + [] == Encode(pong);
    assert (client.output + Encode(pong))[|client.output|..] == Encode(pong);
  }
}
