/** The delay line of net/DelaySocket.cpp: two sockets, each of which reads bytes that the
    other writes on later.  The steps of the pair as functions, and what every run keeps. */
module DelayLine {
  import opened Basics

  datatype State = ReadWrite | EofFlushWrites | Closed

  /** A chunk without data is a queued close. */
  datatype Chunk = Chunk(sendTime: int, data: seq<Byte>)

  /** One of the twins: its fields, with all that was ever read from and written to its
      descriptor, and how many closes it has queued at the other one. */
  datatype Side = Side(state: State, hasDest: bool, chunks: seq<Chunk>,
                       received: seq<Byte>, written: seq<Byte>, closesQueued: nat)

  datatype ReadResult = Got(bytes: seq<Byte>) | EndOfFile | NothingYet | ReadFailed

  /** The descriptor takes up to so many bytes, or none for now, or fails. */
  datatype WriteResult = Takes(most: nat) | Full | WriteFailed

  /** What one call of handlePoll meets, with the times at which a chunk of data and a close
      queued during the call are to be sent.  Times are in nanoseconds. */
  datatype Event = Event(readable: bool, hangup: bool, now: int, dataTime: int, closeTime: int,
                         read: ReadResult, write: WriteResult)
  {
    predicate Valid() {
      read.Got? ==> read.bytes != []
    }
  }

  // ----- times -----

  const MILLISECOND := 1_000_000

  /** std::chrono::duration_cast to milliseconds, which drops what is behind the point. */
  function Milliseconds(duration: int): int {
    if duration >= 0 then duration / MILLISECOND else -((-duration) / MILLISECOND)
  }

  /** net/DelaySocket.cpp:166-167. */
  predicate Due(now: int, sendTime: int) {
    Milliseconds(now - sendTime) >= 0
  }

  // ----- one step -----

  function PushClose(other: Side, time: int): Side {
    other.(chunks := other.chunks + [Chunk(time, [])])
  }

  /** changeState(EofFlushWrites), where the source asserts both conditions. */
  function Flush(me: Side, other: Side, time: int): (Side, Side)
    requires me.state == ReadWrite && me.hasDest
  {
    (me.(state := EofFlushWrites, hasDest := false, closesQueued := me.closesQueued + 1), PushClose(other, time))
  }

  /** changeState(Closed). */
  function Shut(me: Side, other: Side, time: int): (Side, Side) {
    if me.hasDest && me.state == ReadWrite then
      (me.(state := Closed, hasDest := false, closesQueued := me.closesQueued + 1), PushClose(other, time))
    else (me.(state := Closed, hasDest := false), other)
  }

  /** Reading, net/DelaySocket.cpp:128-156; data needs a destination. */
  function ReadStep(me: Side, other: Side, e: Event): (Side, Side)
    requires me.state == ReadWrite ==> me.hasDest
  {
    if me.state != ReadWrite || !e.readable then (me, other)
    else match e.read
         case EndOfFile => Flush(me, other, e.closeTime)
         case Got(bytes) =>
           (me.(received := me.received + bytes), other.(chunks := other.chunks + [Chunk(e.dataTime, bytes)]))
         case NothingYet => (me, other)
         case ReadFailed => Shut(me, other, e.closeTime)
  }

  function WriteSome(me: Side, n: nat): Side
    requires me.chunks != [] && n <= |me.chunks[0].data|
  {
    var front := me.chunks[0];
    var rest := front.data[n..];
    me.(written := me.written + front.data[..n],
        chunks := if rest == [] then me.chunks[1..] else [front.(data := rest)] + me.chunks[1..])
  }

  /** Writing, net/DelaySocket.cpp:158-210. */
  function WriteStep(me: Side, other: Side, e: Event): (Side, Side) {
    if me.chunks == [] then (if me.state == EofFlushWrites then Shut(me, other, e.closeTime) else (me, other))
    else if !Due(e.now, me.chunks[0].sendTime) then (me, other)
    else if me.chunks[0].data == [] then Shut(me, other, e.closeTime)
    else match e.write
         case Takes(most) =>
           (WriteSome(me, if most <= |me.chunks[0].data| then most else |me.chunks[0].data|), other)
         case Full => (me, other)
         case WriteFailed => Shut(me, other, e.closeTime)
  }

  /** One call of handlePoll on one twin. */
  function Step(me: Side, other: Side, e: Event): (Side, Side)
    requires me.state == ReadWrite ==> me.hasDest
  {
    var (me1, other1) := ReadStep(me, other, e);
    var (me2, other2) := WriteStep(me1, other1, e);
    if e.hangup then Shut(me2, other2, e.closeTime) else (me2, other2)
  }

  // ----- what every step keeps -----

  function AllData(chunks: seq<Chunk>): seq<Byte> {
    if chunks == [] then [] else chunks[0].data + AllData(chunks[1..])
  }

  /** Only the last chunk of a queue can be a close, and the last one is if a close was queued. */
  ghost predicate CloseLast(chunks: seq<Chunk>, closes: nat) {
    && closes <= 1
    && (forall i :: 0 <= i < |chunks| - closes ==> chunks[i].data != [])
    && (closes == 1 ==> chunks != [] && chunks[|chunks| - 1].data == [])
  }

  /** One direction: what source has read is what sink has written and still holds, and source
      has queued its one close there as soon as it no longer reads. */
  ghost predicate Flows(source: Side, sink: Side) {
    && source.received == sink.written + AllData(sink.chunks)
    && CloseLast(sink.chunks, source.closesQueued)
    && (source.state == ReadWrite <==> source.hasDest)
    && (source.closesQueued == if source.state == ReadWrite then 0 else 1)
  }

  ghost predicate Inv(a: Side, b: Side) {
    Flows(a, b) && Flows(b, a)
  }

  const FRESH := Side(ReadWrite, true, [], [], [], 0)

  lemma FreshPair()
    ensures Inv(FRESH, FRESH)
  {
  }

  lemma {:induction false} AllDataAppend(chunks: seq<Chunk>, chunk: Chunk)
    ensures AllData(chunks + [chunk]) == AllData(chunks) + chunk.data
  {
    if chunks == [] {
      assert (chunks + [chunk])[1..] == [];
      assert chunk.data + [] == [] + chunk.data;
    } else {
      AllDataAppend(chunks[1..], chunk);
      assert (chunks + [chunk])[1..] == chunks[1..] + [chunk];
      assert chunks[0].data + (AllData(chunks[1..]) + chunk.data) ==
             (chunks[0].data + AllData(chunks[1..])) + chunk.data;
    }
  }

  lemma ShutKeeps(me: Side, other: Side, time: int)
    requires Inv(me, other)
    ensures Inv(Shut(me, other, time).0, Shut(me, other, time).1)
  {
    hide AllData;
    AllDataAppend(other.chunks, Chunk(time, []));
    assert AllData(other.chunks) + [] == AllData(other.chunks);
  }

  lemma ReadKeeps(me: Side, other: Side, e: Event)
    requires Inv(me, other) && e.Valid()
    ensures Inv(ReadStep(me, other, e).0, ReadStep(me, other, e).1)
  {
    hide AllData;
    ShutKeeps(me, other, e.closeTime);
    AllDataAppend(other.chunks, Chunk(e.closeTime, []));
    assert AllData(other.chunks) + [] == AllData(other.chunks);
    if e.read.Got? {
      AllDataAppend(other.chunks, Chunk(e.dataTime, e.read.bytes));
      assert other.written + AllData(other.chunks) + e.read.bytes ==
             other.written + (AllData(other.chunks) + e.read.bytes);
    }
  }

  lemma WriteSomeKeeps(me: Side, other: Side, n: nat)
    requires Inv(me, other) && me.chunks != [] && me.chunks[0].data != [] && n <= |me.chunks[0].data|
    ensures Inv(WriteSome(me, n), other)
  {
    var front, later := me.chunks[0], me.chunks[1..];
    var rest := front.data[n..];
    assert front.data == front.data[..n] + rest;
    assert me.written + (front.data + AllData(later)) == (me.written + front.data[..n]) + (rest + AllData(later));
    var chunks := WriteSome(me, n).chunks;
    if rest == [] {
      assert rest + AllData(later) == AllData(later);
    } else {
      assert chunks[1..] == later;
    }
  }

  lemma WriteKeeps(me: Side, other: Side, e: Event)
    requires Inv(me, other)
    ensures Inv(WriteStep(me, other, e).0, WriteStep(me, other, e).1)
  {
    hide WriteSome, Shut, AllData, CloseLast;
    ShutKeeps(me, other, e.closeTime);
    if me.chunks != [] && me.chunks[0].data != [] && e.write.Takes? {
      WriteSomeKeeps(me, other, if e.write.most <= |me.chunks[0].data| then e.write.most else |me.chunks[0].data|);
    }
  }

  lemma StepKeeps(me: Side, other: Side, e: Event)
    requires Inv(me, other) && e.Valid()
    ensures Inv(Step(me, other, e).0, Step(me, other, e).1)
  {
    hide ReadStep, WriteStep, Shut, CloseLast, AllData;
    ReadKeeps(me, other, e);
    var (me1, other1) := ReadStep(me, other, e);
    WriteKeeps(me1, other1, e);
    var (me2, other2) := WriteStep(me1, other1, e);
    ShutKeeps(me2, other2, e.closeTime);
  }

  // ----- every run of the pair -----

  /** Which twin is polled, and what it meets. */
  datatype Turn = Turn(first: bool, event: Event)

  ghost predicate AllValid(turns: seq<Turn>) {
    forall i :: 0 <= i < |turns| ==> turns[i].event.Valid()
  }

  function Poll(a: Side, b: Side, turn: Turn): (Side, Side)
    requires (a.state == ReadWrite ==> a.hasDest) && (b.state == ReadWrite ==> b.hasDest)
  {
    if turn.first then Step(a, b, turn.event)
    else var (b', a') := Step(b, a, turn.event); (a', b')
  }

  lemma PollKeeps(a: Side, b: Side, turn: Turn)
    requires Inv(a, b) && turn.event.Valid()
    ensures Inv(Poll(a, b, turn).0, Poll(a, b, turn).1)
  {
    hide Step, Flows;
    if turn.first {
      StepKeeps(a, b, turn.event);
    } else {
      StepKeeps(b, a, turn.event);
    }
  }

  /** The pair after some turns, in any interleaving. */
  ghost predicate Reaches(a: Side, b: Side, turns: seq<Turn>, a': Side, b': Side)
    decreases |turns|
  {
    if turns == [] then a == a' && b == b'
    else
      && (a.state == ReadWrite ==> a.hasDest) && (b.state == ReadWrite ==> b.hasDest)
      && turns[0].event.Valid()
      && Reaches(Poll(a, b, turns[0]).0, Poll(a, b, turns[0]).1, turns[1..], a', b')
  }

  lemma {:induction false} RunKeeps(a: Side, b: Side, turns: seq<Turn>, a': Side, b': Side)
    requires Inv(a, b) && Reaches(a, b, turns, a', b')
    ensures Inv(a', b')
    decreases |turns|
  {
    hide Poll, Flows;
    if turns != [] {
      PollKeeps(a, b, turns[0]);
      RunKeeps(Poll(a, b, turns[0]).0, Poll(a, b, turns[0]).1, turns[1..], a', b');
    }
  }

  lemma {:induction false} ReachesMore(a: Side, b: Side, turns: seq<Turn>, n: nat, a': Side, b': Side)
    requires n < |turns| && Inv(a', b') && turns[n].event.Valid() && Reaches(a, b, turns[..n], a', b')
    ensures Reaches(a, b, turns[..n + 1], Poll(a', b', turns[n]).0, Poll(a', b', turns[n]).1)
    decreases n
  {
    hide Poll;
    if n == 0 {
      assert turns[..1][1..] == [];
    } else {
      var (a1, b1) := Poll(a, b, turns[0]);
      assert turns[..n][1..] == turns[1..][..n - 1] && turns[..n + 1][1..] == turns[1..][..n];
      ReachesMore(a1, b1, turns[1..], n - 1, a', b');
    }
  }

  /** No run gets stuck on one of the source's assertions. */
  lemma {:induction false} RunExists(a: Side, b: Side, turns: seq<Turn>)
    requires Inv(a, b) && AllValid(turns)
    ensures exists a', b' :: Reaches(a, b, turns, a', b')
    decreases |turns|
  {
    if turns == [] {
      assert Reaches(a, b, turns, a, b);
    } else {
      var (a1, b1) := Poll(a, b, turns[0]);
      PollKeeps(a, b, turns[0]);
      assert forall i :: 0 <= i < |turns[1..]| ==> turns[1..][i] == turns[i + 1];
      RunExists(a1, b1, turns[1..]);
      var a', b' :| Reaches(a1, b1, turns[1..], a', b');
      assert Reaches(a, b, turns, a', b');
    }
  }

  /** Whatever the interleaving of reads, partial writes, delays and errors: each end writes a
      prefix of what the other read, and each twin queues at most one close. */
  lemma BytesInOrder(turns: seq<Turn>, a: Side, b: Side)
    requires Reaches(FRESH, FRESH, turns, a, b)
    ensures b.written <= a.received && a.written <= b.received
    ensures a.closesQueued <= 1 && b.closesQueued <= 1
  {
    hide Reaches, AllData;
    FreshPair();
    RunKeeps(FRESH, FRESH, turns, a, b);
  }

  /** A close is at the front of a queue only once everything the other twin ever reads has
      been written. */
  lemma CloseIsLast(turns: seq<Turn>, a: Side, b: Side)
    requires Reaches(FRESH, FRESH, turns, a, b)
    requires b.chunks != [] && b.chunks[0].data == []
    ensures |b.chunks| == 1 && b.written == a.received && a.state != ReadWrite
  {
    hide Reaches;
    FreshPair();
    RunKeeps(FRESH, FRESH, turns, a, b);
    assert AllData(b.chunks[1..]) == [];
    assert b.written + [] == b.written;
  }

  predicate Silent(before: Side, after: Side) {
    before.state != ReadWrite ==> after.state != ReadWrite && after.received == before.received
  }

  lemma ReadSilent(me: Side, other: Side, e: Event)
    requires me.state == ReadWrite ==> me.hasDest
    ensures Silent(me, ReadStep(me, other, e).0) && Silent(other, ReadStep(me, other, e).1)
  {
  }

  lemma WriteSilent(me: Side, other: Side, e: Event)
    ensures Silent(me, WriteStep(me, other, e).0) && Silent(other, WriteStep(me, other, e).1)
  {
  }

  lemma StepSilent(me: Side, other: Side, e: Event)
    requires me.state == ReadWrite ==> me.hasDest
    ensures Silent(me, Step(me, other, e).0) && Silent(other, Step(me, other, e).1)
  {
    hide ReadStep, WriteStep;
    ReadSilent(me, other, e);
    var (me1, other1) := ReadStep(me, other, e);
    WriteSilent(me1, other1, e);
  }

  /** A twin that no longer reads never does again. */
  lemma {:induction false} StaysSilent(a: Side, b: Side, turns: seq<Turn>, a': Side, b': Side)
    requires a.state != ReadWrite && Reaches(a, b, turns, a', b')
    ensures a'.state != ReadWrite && a'.received == a.received
    decreases |turns|
  {
    hide Step;
    if turns != [] {
      var (a1, b1) := Poll(a, b, turns[0]);
      if turns[0].first {
        StepSilent(a, b, turns[0].event);
      } else {
        StepSilent(b, a, turns[0].event);
      }
      StaysSilent(a1, b1, turns[1..], a', b');
    }
  }

  /** A twin that closes without an error has written all that the other has read so far. */
  lemma CleanClose(turns: seq<Turn>, a: Side, b: Side, e: Event)
    requires Reaches(FRESH, FRESH, turns, a, b) && e.Valid()
    requires a.state == ReadWrite ==> a.hasDest
    requires a.state != Closed && !e.hangup && !e.read.ReadFailed? && !e.write.WriteFailed?
    requires Step(a, b, e).0.state == Closed
    ensures Step(a, b, e).0.written == b.received
  {
    hide Reaches;
    FreshPair();
    RunKeeps(FRESH, FRESH, turns, a, b);
    if a.chunks == [] {
      assert a.written + [] == a.written;
    } else {
      assert a.chunks[0].data == [];
      assert AllData(a.chunks[1..]) == [];
    }
  }
}

/** net/DelaySocket.cpp in the source's own steps, on two sockets that hold each other. */
module DelaySockets {
  import opened Basics
  import opened DelayLine

  class DelaySocket {
    var state: State
    var dest: DelaySocket?
    var chunks: seq<Chunk>
    /** Everything read from and written to the descriptor, and the closes queued at dest. */
    ghost var received: seq<Byte>
    ghost var written: seq<Byte>
    ghost var closesQueued: nat

    ghost function View(): Side
      reads this
    {
      Side(state, dest != null, chunks, received, written, closesQueued)
    }

    constructor ()
      ensures state == ReadWrite && dest == null && chunks == [] && received == [] && written == [] && closesQueued == 0
    {
      state, dest, chunks, received, written, closesQueued := ReadWrite, null, [], [], [], 0;
    }

    /** net/DelaySocket.cpp:96-99. */
    method PushCloseChunk(sendTime: int)
      modifies this
      ensures View() == PushClose(old(View()), sendTime) && dest == old(dest)
    {
      chunks := chunks + [Chunk(sendTime, [])];
    }

    /** net/DelaySocket.cpp:101-123.  The source asserts what EofFlushWrites requires here. */
    method ChangeState(newState: State, twin: DelaySocket, closeTime: int)
      requires twin != this && (dest == null || dest == twin)
      requires newState != ReadWrite
      requires newState == EofFlushWrites ==> state == ReadWrite && dest != null
      modifies this, twin
      ensures (View(), twin.View()) ==
              if newState == Closed then Shut(old(View()), old(twin.View()), closeTime)
              else Flush(old(View()), old(twin.View()), closeTime)
      ensures dest == null && twin.dest == old(twin.dest)
    {
      match newState {
      case EofFlushWrites =>
        assert state == ReadWrite;
        assert dest != null;
        dest.PushCloseChunk(closeTime);
        closesQueued := closesQueued + 1;
        dest := null;
      case Closed =>
        if dest != null && state == ReadWrite {
          dest.PushCloseChunk(closeTime);
          closesQueued := closesQueued + 1;
        }
        dest := null;
      }
      state := newState;
    }

    /** net/DelaySocket.cpp:128-156. */
    method HandleRead(twin: DelaySocket, e: Event)
      requires twin != this && (dest == null || dest == twin) && (state == ReadWrite ==> dest != null)
      modifies this, twin
      ensures (View(), twin.View()) == ReadStep(old(View()), old(twin.View()), e)
      ensures (dest == null || dest == twin) && twin.dest == old(twin.dest)
    {
      if state == ReadWrite && e.readable {
        match e.read
        case EndOfFile =>
          ChangeState(EofFlushWrites, twin, e.closeTime);
        case Got(bytes) =>
          var chunk := Chunk(e.dataTime, bytes);
          received := received + bytes;
          assert dest != null;
          dest.chunks := dest.chunks + [chunk];
        case NothingYet =>
        case ReadFailed =>
          ChangeState(Closed, twin, e.closeTime);
      }
    }

    /** net/DelaySocket.cpp:158-210. */
    method HandleWrite(twin: DelaySocket, e: Event)
      requires twin != this && (dest == null || dest == twin)
      modifies this, twin
      ensures (View(), twin.View()) == WriteStep(old(View()), old(twin.View()), e)
      ensures (dest == null || dest == twin) && twin.dest == old(twin.dest)
    {
      if |chunks| == 0 {
        if state == EofFlushWrites {
          ChangeState(Closed, twin, e.closeTime);
        }
      } else {
        var chunk := chunks[0];
        if Milliseconds(e.now - chunk.sendTime) >= 0 {
          if |chunk.data| == 0 {
            ChangeState(Closed, twin, e.closeTime);
          } else {
            match e.write
            case Takes(most) =>
              var len := if most <= |chunk.data| then most else |chunk.data|;
              written := written + chunk.data[..len];
              chunk := chunk.(data := chunk.data[len..]);
              if |chunk.data| == 0 {
                chunks := chunks[1..];
              } else {
                chunks := [chunk] + chunks[1..];
              }
            case Full =>
            case WriteFailed =>
              ChangeState(Closed, twin, e.closeTime);
          }
        }
      }
    }

    /** net/DelaySocket.cpp:125-220; the result is whether the poll is to drop the socket. */
    method HandlePoll(twin: DelaySocket, e: Event) returns (setClosed: bool)
      requires twin != this && (dest == null || dest == twin) && (state == ReadWrite ==> dest != null)
      modifies this, twin
      ensures (View(), twin.View()) == Step(old(View()), old(twin.View()), e)
      ensures (dest == null || dest == twin) && twin.dest == old(twin.dest)
      ensures setClosed <==> state == Closed
    {
      hide ReadStep, WriteStep, Shut;
      HandleRead(twin, e);
      HandleWrite(twin, e);
      if e.hangup {
        ChangeState(Closed, twin, e.closeTime);
      }
      setClosed := state == Closed;
    }
  }

  /** Delay::create, net/DelaySocket.cpp:231-249, and any schedule of polls of the two. */
  method Create() returns (physical: DelaySocket, internalSide: DelaySocket)
    ensures fresh(physical) && fresh(internalSide) && physical != internalSide
    ensures physical.dest == internalSide && internalSide.dest == physical
    ensures physical.View() == FRESH && internalSide.View() == FRESH
  {
    physical := new DelaySocket();
    internalSide := new DelaySocket();
    physical.dest := internalSide;
    internalSide.dest := physical;
  }

  lemma NoTurns()
    ensures Reaches(FRESH, FRESH, [], FRESH, FRESH)
  {
  }

  method RunTurns(turns: seq<Turn>) returns (physical: DelaySocket, internalSide: DelaySocket)
    requires AllValid(turns)
    ensures Reaches(FRESH, FRESH, turns, physical.View(), internalSide.View())
    ensures Inv(physical.View(), internalSide.View())
    ensures internalSide.written <= physical.received && physical.written <= internalSide.received
  {
    hide Step, AllData, CloseLast, Reaches;
    physical, internalSide := Create();
    FreshPair();
    NoTurns();
    assert turns[..0] == [];
    for i := 0 to |turns|
      invariant fresh(physical) && fresh(internalSide) && physical != internalSide
      invariant physical.dest == null || physical.dest == internalSide
      invariant internalSide.dest == null || internalSide.dest == physical
      invariant Inv(physical.View(), internalSide.View())
      invariant Reaches(FRESH, FRESH, turns[..i], physical.View(), internalSide.View())
    {
      ghost var a, b := physical.View(), internalSide.View();
      ReachesMore(FRESH, FRESH, turns, i, a, b);
      var closed;
      if turns[i].first {
        StepKeeps(a, b, turns[i].event);
        closed := physical.HandlePoll(internalSide, turns[i].event);
      } else {
        StepKeeps(b, a, turns[i].event);
        closed := internalSide.HandlePoll(physical, turns[i].event);
      }
    }
    assert turns[..|turns|] == turns;
  }
}
