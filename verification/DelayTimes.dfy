/** When the delay line of net/DelaySocket.cpp writes: no byte less than the delay after it was
    read, but for a part of a millisecond, and every byte once it is due and there is room. */
module DelayTimes {
  import opened Basics
  import opened DelayLine

  // ----- when a chunk is due -----

  /** A chunk is due up to a millisecond early, because its lateness is cut to milliseconds. */
  lemma DueIff(now: int, sendTime: int)
    ensures Due(now, sendTime) <==> sendTime < now + MILLISECOND
  {
    var d := now - sendTime;
    if d < 0 {
      assert (-d) / MILLISECOND == 0 <==> -d < MILLISECOND;
    }
  }

  /** It is taken for due before its time. */
  lemma DueTooEarly(sendTime: int)
    ensures Due(sendTime - 1, sendTime)
  {
    DueIff(sendTime - 1, sendTime);
  }

  // ----- one poll -----

  /** Nothing closes a twin but what is queued for it. */
  predicate Quiet(e: Event) {
    !e.hangup && !e.read.ReadFailed? && !e.write.WriteFailed?
  }

  function Min(a: nat, b: nat): nat {
    if a < b then a else b
  }

  /** What reading does to the twin that reads, unless it fails. */
  lemma ReadsOnly(me: Side, other: Side, e: Event)
    requires (me.state == ReadWrite ==> me.hasDest) && !e.read.ReadFailed?
    ensures var r := ReadStep(me, other, e).0;
            && r.chunks == me.chunks && r.written == me.written && me.received <= r.received
            && (r.state == me.state || (me.state == ReadWrite && r.state == EofFlushWrites))
  {
  }

  /** A poll that meets a chunk that is due, and room for some bytes, writes them: as many of the
      chunk as there is room for, and no others. */
  lemma DueIsWritten(me: Side, other: Side, e: Event, most: nat)
    requires (me.state == ReadWrite ==> me.hasDest) && Quiet(e) && e.write == Takes(most) && most > 0
    requires me.chunks != [] && me.chunks[0].data != [] && me.chunks[0].sendTime < e.now + MILLISECOND
    ensures var after, front := Step(me, other, e).0, me.chunks[0];
            var n := Min(most, |front.data|);
            && after.written == me.written + front.data[..n]
            && after.chunks ==
               (if n < |front.data| then [Chunk(front.sendTime, front.data[n..])] else []) + me.chunks[1..]
            && (after.state == me.state || (me.state == ReadWrite && after.state == EofFlushWrites))
  {
    ReadsOnly(me, other, e);
    DueIff(e.now, me.chunks[0].sendTime);
    hide ReadStep, Due;
    var front := me.chunks[0];
    var n := Min(most, |front.data|);
    assert n == |front.data| ==> front.data[n..] == [];
    assert [] + me.chunks[1..] == me.chunks[1..];
  }

  /** A close that is due is acted on. */
  lemma DueCloses(me: Side, other: Side, e: Event)
    requires (me.state == ReadWrite ==> me.hasDest) && !e.read.ReadFailed?
    requires me.chunks != [] && me.chunks[0].data == [] && me.chunks[0].sendTime < e.now + MILLISECOND
    ensures var after := Step(me, other, e).0;
            after.state == Closed && after.written == me.written && after.chunks == me.chunks
  {
    ReadsOnly(me, other, e);
    DueIff(e.now, me.chunks[0].sendTime);
    hide ReadStep, Due;
  }

  /** So is the end of all writes. */
  lemma FlushedCloses(me: Side, other: Side, e: Event)
    requires me.state == EofFlushWrites && me.chunks == []
    ensures Step(me, other, e).0.state == Closed && Step(me, other, e).0.written == me.written
  {
  }

  /** Before its time a chunk is left alone, and nothing is written or closed for it. */
  lemma EarlyWaits(me: Side, other: Side, e: Event)
    requires (me.state == ReadWrite ==> me.hasDest) && !e.hangup && !e.read.ReadFailed?
    requires me.chunks != [] && me.chunks[0].sendTime >= e.now + MILLISECOND
    ensures var after := Step(me, other, e).0;
            && after.written == me.written && after.chunks == me.chunks
            && (after.state == me.state || (me.state == ReadWrite && after.state == EofFlushWrites))
  {
    ReadsOnly(me, other, e);
    DueIff(e.now, me.chunks[0].sendTime);
    hide ReadStep, Due;
  }

  // ----- the times of a run -----

  /** Of one twin: when each byte was read and written, and when a close was queued at the other. */
  datatype Log = Log(readAt: seq<int>, closedAt: seq<int>, wroteAt: seq<int>)

  /** Whatever is new has the time of the poll. */
  function More(times: seq<int>, count: nat, now: int): (r: seq<int>)
    ensures times <= r && |r| == if |times| < count then count else |times|
    ensures forall i :: |times| <= i < |r| ==> r[i] == now
  {
    if |times| < count then times + seq(count - |times|, _ => now) else times
  }

  function Logged(log: Log, me: Side, now: int): Log {
    Log(More(log.readAt, |me.received|, now), More(log.closedAt, me.closesQueued, now),
        More(log.wroteAt, |me.written|, now))
  }

  datatype Pair = Pair(a: Side, b: Side, aLog: Log, bLog: Log)

  const START := Pair(FRESH, FRESH, Log([], [], []), Log([], [], []))

  /** Twins that read have somewhere to put it. */
  predicate Ready(a: Side, b: Side) {
    (a.state == ReadWrite ==> a.hasDest) && (b.state == ReadWrite ==> b.hasDest)
  }

  function Polled(p: Pair, turn: Turn): Pair
    requires Ready(p.a, p.b)
  {
    var (a, b) := Poll(p.a, p.b, turn);
    Pair(a, b, if turn.first then Logged(p.aLog, a, turn.event.now) else p.aLog,
         if turn.first then p.bLog else Logged(p.bLog, b, turn.event.now))
  }

  /** The clock is read during the poll, so what is queued is to be sent the delay later than the
      poll began, or later still. */
  predicate Delayed(e: Event, delay: int) {
    e.Valid() && e.dataTime >= e.now + delay && e.closeTime >= e.now + delay
  }

  /** As Reaches, with the times and the delay. */
  ghost predicate Runs(p: Pair, turns: seq<Turn>, delay: int, q: Pair)
    decreases |turns|
  {
    if turns == [] then p == q
    else Ready(p.a, p.b) && Delayed(turns[0].event, delay) && Runs(Polled(p, turns[0]), turns[1..], delay, q)
  }

  lemma {:induction false} RunsReaches(p: Pair, turns: seq<Turn>, delay: int, q: Pair)
    requires Runs(p, turns, delay, q)
    ensures Reaches(p.a, p.b, turns, q.a, q.b)
    decreases |turns|
  {
    hide Poll;
    if turns != [] {
      RunsReaches(Polled(p, turns[0]), turns[1..], delay, q);
    }
  }

  /** What is queued is not to be sent before the delay is over. */
  ghost predicate Held(chunks: seq<Chunk>, readAt: seq<int>, closedAt: seq<int>, delay: int) {
    if chunks == [] then readAt == []
    else
      var n := |chunks[0].data|;
      && n <= |readAt| && (forall j :: 0 <= j < n ==> readAt[j] + delay <= chunks[0].sendTime)
      && (n == 0 ==> closedAt != [] && closedAt[0] + delay <= chunks[0].sendTime)
      && Held(chunks[1..], readAt[n..], closedAt, delay)
  }

  /** One direction: what is written was read long enough before, and the rest is held. */
  ghost predicate Timely(source: Side, sink: Side, from: Log, to: Log, delay: int) {
    && |from.readAt| == |source.received| && |from.closedAt| == source.closesQueued
    && |to.wroteAt| == |sink.written| <= |from.readAt|
    && (forall i :: 0 <= i < |sink.written| ==> from.readAt[i] + delay < to.wroteAt[i] + MILLISECOND)
    && Held(sink.chunks, from.readAt[|sink.written|..], from.closedAt, delay)
  }

  lemma {:induction false} HeldMore(chunks: seq<Chunk>, chunk: Chunk, readAt: seq<int>, more: seq<int>,
                                    closedAt: seq<int>, closed: seq<int>, delay: int)
    requires Held(chunks, readAt, closedAt, delay) && closedAt <= closed && |more| == |chunk.data|
    requires forall j :: 0 <= j < |more| ==> more[j] + delay <= chunk.sendTime
    requires more == [] ==> closed != [] && closed[0] + delay <= chunk.sendTime
    ensures Held(chunks + [chunk], readAt + more, closed, delay)
  {
    var all := chunks + [chunk];
    if chunks == [] {
      assert all[1..] == [] && (readAt + more)[|more|..] == [];
    } else {
      var n := |chunks[0].data|;
      assert all[1..] == chunks[1..] + [chunk] && (readAt + more)[n..] == readAt[n..] + more;
      HeldMore(chunks[1..], chunk, readAt[n..], more, closedAt, closed, delay);
    }
  }

  lemma HeldSent(chunks: seq<Chunk>, readAt: seq<int>, closedAt: seq<int>, delay: int, n: nat)
    requires chunks != [] && chunks[0].data != [] && n <= |chunks[0].data| && Held(chunks, readAt, closedAt, delay)
    ensures var rest := chunks[0].data[n..];
            n <= |readAt| &&
            Held(if rest == [] then chunks[1..] else [chunks[0].(data := rest)] + chunks[1..], readAt[n..], closedAt,
                 delay)
    ensures forall j :: 0 <= j < n ==> readAt[j] + delay <= chunks[0].sendTime
  {
    var rest := chunks[0].data[n..];
    if rest != [] {
      var left := [chunks[0].(data := rest)] + chunks[1..];
      assert left[1..] == chunks[1..] && readAt[n..][|rest|..] == readAt[|chunks[0].data|..];
    }
  }

  ghost predicate BothTimely(me: Side, other: Side, mine: Log, others: Log, delay: int) {
    Timely(me, other, mine, others, delay) && Timely(other, me, others, mine, delay)
  }

  /** A close is queued at the other twin. */
  lemma CloseTimely(me: Side, other: Side, mine: Log, others: Log, delay: int, now: int, time: int)
    requires Timely(me, other, mine, others, delay) && me.closesQueued == 0 && time >= now + delay
    ensures Timely(me.(closesQueued := 1), PushClose(other, time), mine.(closedAt := [now]), others, delay)
  {
    var readAt := mine.readAt[|other.written|..];
    HeldMore(other.chunks, Chunk(time, []), readAt, [], mine.closedAt, [now], delay);
    assert readAt + [] == readAt;
  }

  lemma LoggedClose(me: Side, mine: Log, now: int)
    requires me.closesQueued == |mine.closedAt| + 1 && |mine.closedAt| == 0
    requires |me.received| == |mine.readAt| && |me.written| == |mine.wroteAt|
    ensures Logged(mine, me, now) == mine.(closedAt := [now])
  {
    assert Logged(mine, me, now).closedAt == [now];
  }

  lemma LoggedSame(me: Side, mine: Log, now: int)
    requires me.closesQueued == |mine.closedAt| && |me.received| == |mine.readAt| && |me.written| == |mine.wroteAt|
    ensures Logged(mine, me, now) == mine
  {
  }

  lemma ShutTimely(me: Side, other: Side, mine: Log, others: Log, delay: int, now: int, time: int)
    requires Inv(me, other) && BothTimely(me, other, mine, others, delay) && time >= now + delay
    ensures var (me', other') := Shut(me, other, time); BothTimely(me', other', Logged(mine, me', now), others, delay)
  {
    var me' := Shut(me, other, time).0;
    if me.hasDest && me.state == ReadWrite {
      CloseTimely(me, other, mine, others, delay, now, time);
      LoggedClose(me', mine, now);
    } else {
      LoggedSame(me', mine, now);
    }
    hide Held, Logged;
  }

  lemma FlushTimely(me: Side, other: Side, mine: Log, others: Log, delay: int, now: int, time: int)
    requires Inv(me, other) && BothTimely(me, other, mine, others, delay) && time >= now + delay
    requires me.state == ReadWrite && me.hasDest
    ensures var (me', other') := Flush(me, other, time); BothTimely(me', other', Logged(mine, me', now), others, delay)
  {
    CloseTimely(me, other, mine, others, delay, now, time);
    LoggedClose(Flush(me, other, time).0, mine, now);
    hide Held, Logged;
  }

  /** Bytes that are read are queued at the other twin. */
  lemma GotTimely(me: Side, other: Side, mine: Log, others: Log, delay: int, now: int, time: int, bytes: seq<Byte>)
    requires BothTimely(me, other, mine, others, delay) && time >= now + delay && bytes != []
    ensures var me' := me.(received := me.received + bytes);
            BothTimely(me', other.(chunks := other.chunks + [Chunk(time, bytes)]), Logged(mine, me', now), others,
                       delay)
  {
    var readAt, more := mine.readAt[|other.written|..], seq(|bytes|, _ => now);
    var me' := me.(received := me.received + bytes);
    HeldMore(other.chunks, Chunk(time, bytes), readAt, more, mine.closedAt, mine.closedAt, delay);
    hide Held;
    assert Logged(mine, me', now) == mine.(readAt := mine.readAt + more);
    assert (mine.readAt + more)[|other.written|..] == readAt + more;
  }

  lemma ReadTimely(me: Side, other: Side, mine: Log, others: Log, delay: int, e: Event)
    requires Inv(me, other) && BothTimely(me, other, mine, others, delay) && Delayed(e, delay)
    ensures var (me', other') := ReadStep(me, other, e);
            BothTimely(me', other', Logged(mine, me', e.now), others, delay)
  {
    LoggedSame(me, mine, e.now);
    ShutTimely(me, other, mine, others, delay, e.now, e.closeTime);
    if me.state == ReadWrite {
      FlushTimely(me, other, mine, others, delay, e.now, e.closeTime);
    }
    if e.read.Got? {
      GotTimely(me, other, mine, others, delay, e.now, e.dataTime, e.read.bytes);
    }
    hide BothTimely, Logged, Flush, Shut;
  }

  lemma SentTimely(me: Side, other: Side, mine: Log, others: Log, delay: int, now: int, n: nat)
    requires BothTimely(me, other, mine, others, delay)
    requires me.chunks != [] && me.chunks[0].data != [] && n <= |me.chunks[0].data|
    requires me.chunks[0].sendTime < now + MILLISECOND
    ensures BothTimely(WriteSome(me, n), other, Logged(mine, WriteSome(me, n), now), others, delay)
  {
    var readAt := others.readAt[|me.written|..];
    HeldSent(me.chunks, readAt, others.closedAt, delay, n);
    hide Held;
    var after := WriteSome(me, n);
    var log := Logged(mine, after, now);
    assert |after.written| == |me.written| + n && log.readAt == mine.readAt && log.closedAt == mine.closedAt;
    assert others.readAt[|after.written|..] == readAt[n..];
    forall i | 0 <= i < |after.written| ensures others.readAt[i] + delay < log.wroteAt[i] + MILLISECOND {
      if i >= |me.written| {
        assert others.readAt[i] == readAt[i - |me.written|];
      }
    }
  }

  lemma WriteTimely(me: Side, other: Side, mine: Log, others: Log, delay: int, e: Event)
    requires Inv(me, other) && BothTimely(me, other, mine, others, delay) && Delayed(e, delay)
    ensures var (me', other') := WriteStep(me, other, e);
            BothTimely(me', other', Logged(mine, me', e.now), others, delay)
  {
    LoggedSame(me, mine, e.now);
    ShutTimely(me, other, mine, others, delay, e.now, e.closeTime);
    if me.chunks != [] && me.chunks[0].data != [] && e.write.Takes? {
      var n := if e.write.most <= |me.chunks[0].data| then e.write.most else |me.chunks[0].data|;
      DueIff(e.now, me.chunks[0].sendTime);
      if me.chunks[0].sendTime < e.now + MILLISECOND {
        SentTimely(me, other, mine, others, delay, e.now, n);
      }
    }
    hide BothTimely, Logged, Shut, WriteSome, Due;
  }

  /** Logged once is logged after each part of a poll. */
  lemma LoggedOnce(log: Log, before: Side, after: Side, now: int)
    requires |before.received| <= |after.received| && |before.written| <= |after.written|
    requires before.closesQueued <= after.closesQueued
    ensures Logged(Logged(log, before, now), after, now) == Logged(log, after, now)
  {
    MoreOnce(log.readAt, |before.received|, |after.received|, now);
    MoreOnce(log.closedAt, before.closesQueued, after.closesQueued, now);
    MoreOnce(log.wroteAt, |before.written|, |after.written|, now);
  }

  lemma MoreOnce(times: seq<int>, m: nat, n: nat, now: int)
    requires m <= n
    ensures More(More(times, m, now), n, now) == More(times, n, now)
  {
  }

  /** Nothing that was read, written or queued is taken back. */
  predicate Grows(before: Side, after: Side) {
    && |before.received| <= |after.received| && |before.written| <= |after.written|
    && before.closesQueued <= after.closesQueued
  }

  lemma PartsGrow(me: Side, other: Side, e: Event)
    requires me.state == ReadWrite ==> me.hasDest
    ensures Grows(me, ReadStep(me, other, e).0) && Grows(me, WriteStep(me, other, e).0)
    ensures Grows(me, Shut(me, other, e.closeTime).0)
  {
  }

  lemma StepTimely(me: Side, other: Side, mine: Log, others: Log, delay: int, e: Event)
    requires Inv(me, other) && BothTimely(me, other, mine, others, delay) && Delayed(e, delay)
    ensures var (me', other') := Step(me, other, e);
            BothTimely(me', other', Logged(mine, me', e.now), others, delay)
  {
    hide ReadStep, WriteStep, Shut, BothTimely, Logged, CloseLast, AllData;
    var (me1, other1) := ReadStep(me, other, e);
    PartsGrow(me, other, e);
    ReadKeeps(me, other, e);
    ReadTimely(me, other, mine, others, delay, e);
    var log1 := Logged(mine, me1, e.now);
    var (me2, other2) := WriteStep(me1, other1, e);
    PartsGrow(me1, other1, e);
    WriteKeeps(me1, other1, e);
    WriteTimely(me1, other1, log1, others, delay, e);
    LoggedOnce(mine, me1, me2, e.now);
    if e.hangup {
      var log2 := Logged(mine, me2, e.now);
      PartsGrow(me2, other2, e);
      ShutTimely(me2, other2, log2, others, delay, e.now, e.closeTime);
      LoggedOnce(mine, me2, Shut(me2, other2, e.closeTime).0, e.now);
    }
  }

  // ----- every run -----

  ghost predicate PairTimely(p: Pair, delay: int) {
    Inv(p.a, p.b) && BothTimely(p.a, p.b, p.aLog, p.bLog, delay)
  }

  lemma PollTimely(p: Pair, turn: Turn, delay: int)
    requires PairTimely(p, delay) && Ready(p.a, p.b) && Delayed(turn.event, delay)
    ensures PairTimely(Polled(p, turn), delay)
  {
    hide Step, Logged, Held, Flows;
    PollKeeps(p.a, p.b, turn);
    if turn.first {
      StepTimely(p.a, p.b, p.aLog, p.bLog, delay, turn.event);
    } else {
      StepTimely(p.b, p.a, p.bLog, p.aLog, delay, turn.event);
    }
    hide Timely;
  }

  lemma {:induction false} RunTimely(p: Pair, turns: seq<Turn>, delay: int, q: Pair)
    requires PairTimely(p, delay) && Runs(p, turns, delay, q)
    ensures PairTimely(q, delay)
    decreases |turns|
  {
    hide PairTimely, Polled;
    if turns != [] {
      PollTimely(p, turns[0], delay);
      RunTimely(Polled(p, turns[0]), turns[1..], delay, q);
    }
  }

  lemma StartTimely(delay: int)
    ensures PairTimely(START, delay)
  {
    FreshPair();
  }

  /** Over every run: each byte that one end has written is a byte that the other has read, and it
      was read at least the delay before, less a part of a millisecond. */
  lemma NeverEarly(turns: seq<Turn>, delay: int, p: Pair, i: nat)
    requires Runs(START, turns, delay, p)
    ensures i < |p.b.written| ==>
              && i < |p.a.received| && p.b.written[i] == p.a.received[i]
              && i < |p.aLog.readAt| && i < |p.bLog.wroteAt|
              && p.bLog.wroteAt[i] - p.aLog.readAt[i] > delay - MILLISECOND
    ensures i < |p.a.written| ==>
              && i < |p.b.received| && p.a.written[i] == p.b.received[i]
              && i < |p.bLog.readAt| && i < |p.aLog.wroteAt|
              && p.aLog.wroteAt[i] - p.bLog.readAt[i] > delay - MILLISECOND
  {
    StartTimely(delay);
    RunTimely(START, turns, delay, p);
    RunsReaches(START, turns, delay, p);
    BytesInOrder(turns, p.a, p.b);
    hide Runs, Reaches, Held, Inv;
  }

  /** And a close is acted on no sooner after the other twin has queued it: a twin that still has
      something in its queue closes only then, unless there is an error or a hangup. */
  lemma CloseNeverEarly(turns: seq<Turn>, delay: int, p: Pair, first: bool, e: Event)
    requires Runs(START, turns, delay, p) && Ready(p.a, p.b) && Quiet(e)
    requires var (me, other) := if first then (p.a, p.b) else (p.b, p.a);
             me.state != Closed && me.chunks != [] && Step(me, other, e).0.state == Closed
    ensures var closedAt := if first then p.bLog.closedAt else p.aLog.closedAt;
            closedAt != [] && e.now - closedAt[0] > delay - MILLISECOND
  {
    StartTimely(delay);
    RunTimely(START, turns, delay, p);
    hide Runs, Inv, Logged;
    if first {
      CloseHeld(p.a, p.b, p.aLog, p.bLog, delay, e);
    } else {
      CloseHeld(p.b, p.a, p.bLog, p.aLog, delay, e);
    }
  }

  lemma CloseHeld(me: Side, other: Side, mine: Log, others: Log, delay: int, e: Event)
    requires Timely(other, me, others, mine, delay) && (me.state == ReadWrite ==> me.hasDest) && Quiet(e)
    requires me.state != Closed && me.chunks != [] && Step(me, other, e).0.state == Closed
    ensures others.closedAt != [] && e.now - others.closedAt[0] > delay - MILLISECOND
  {
    ReadsOnly(me, other, e);
    DueIff(e.now, me.chunks[0].sendTime);
    hide ReadStep, Due;
    assert me.chunks[0].data == [] && me.chunks[0].sendTime < e.now + MILLISECOND;
  }

  /** The part of a millisecond is there: a byte can be written that much less than the delay
      after it was read. */
  lemma SentEarly(delay: int)
    ensures var read := Event(true, false, 0, delay, delay, Got([7]), Full);
            var write := Event(true, false, delay - 999_999, delay, delay, NothingYet, Takes(1));
            var p := Polled(START, Turn(true, read));
            && Polled(p, Turn(false, write)).b.written == [7]
            && Polled(p, Turn(false, write)).bLog.wroteAt == [delay - 999_999] && p.aLog.readAt == [0]
  {
    var read := Event(true, false, 0, delay, delay, Got([7]), Full);
    var p := Polled(START, Turn(true, read));
    assert p.b.chunks == [Chunk(delay, [7])] && p.aLog.readAt == [0];
    var write := Event(true, false, delay - 999_999, delay, delay, NothingYet, Takes(1));
    DueIsWritten(p.b, p.a, write, 1);
    hide Step;
  }

  // ----- what is queued gets out -----

  /** One twin polled again and again. */
  function PolledAll(me: Side, other: Side, es: seq<Event>): (Side, Side)
    requires Inv(me, other) && forall i :: 0 <= i < |es| ==> es[i].Valid()
    decreases |es|
  {
    if es == [] then (me, other)
    else
      StepKeeps(me, other, es[0]);
      PolledAll(Step(me, other, es[0]).0, Step(me, other, es[0]).1, es[1..])
  }

  ghost predicate AllDue(chunks: seq<Chunk>, now: int) {
    forall i :: 0 <= i < |chunks| ==> chunks[i].sendTime < now + MILLISECOND
  }

  /** Room for something, and no error. */
  predicate Writable(e: Event) {
    Quiet(e) && e.write.Takes? && e.write.most > 0
  }

  /** What a poll leaves alone. */
  lemma LeftAlone(me: Side, other: Side, e: Event)
    requires me.state == ReadWrite ==> me.hasDest
    ensures var (me', other') := Step(me, other, e);
            && other'.received == other.received && other'.closesQueued == other.closesQueued
            && (me.state == Closed ==> me'.state == Closed) && (me.chunks == [] ==> me'.chunks == [])
  {
  }

  function Sent(chunks: seq<Chunk>, n: nat): seq<Chunk>
    requires chunks != []
  {
    var front := chunks[0];
    (if n < |front.data| then [Chunk(front.sendTime, front.data[n..])] else []) + chunks[1..]
  }

  lemma FewerLeft(chunks: seq<Chunk>, n: nat, now: int)
    requires chunks != [] && 0 < n <= |chunks[0].data|
    ensures |AllData(Sent(chunks, n))| < |AllData(chunks)|
    ensures AllDue(chunks, now) ==> AllDue(Sent(chunks, n), now)
  {
    var rest := Sent(chunks, n);
    if n < |chunks[0].data| {
      assert rest[1..] == chunks[1..];
    } else {
      assert rest == chunks[1..];
    }
  }

  /** A poll of a twin all of whose chunks are due gets something out, if there is anything, and
      closes if nothing but a close is left. */
  lemma StepSends(me: Side, other: Side, e: Event, now: int)
    requires Inv(me, other) && Writable(e) && AllDue(me.chunks, e.now) && AllDue(me.chunks, now)
    ensures var after, left := Step(me, other, e).0, |AllData(me.chunks)|;
            && AllDue(after.chunks, now)
            && (if left == 0 then AllData(after.chunks) == [] else |AllData(after.chunks)| < left)
            && (left == 0 && other.closesQueued == 1 ==> after.state == Closed)
  {
    hide Step, Sent;
    LeftAlone(me, other, e);
    if me.chunks != [] {
      if me.chunks[0].data == [] {
        DueCloses(me, other, e);
        assert |me.chunks| == 1 && me.chunks[1..] == [];
      } else {
        DueIsWritten(me, other, e, e.write.most);
        var n := Min(e.write.most, |me.chunks[0].data|);
        SentIs(me.chunks, n);
        FewerLeft(me.chunks, n, now);
      }
    }
  }

  lemma SentIs(chunks: seq<Chunk>, n: nat)
    requires chunks != []
    ensures Sent(chunks, n) ==
            (if n < |chunks[0].data| then [Chunk(chunks[0].sendTime, chunks[0].data[n..])] else []) + chunks[1..]
  {
  }

  /** A twin is polled as many times as bytes are queued, once they are due, with room for at least
      one byte each time: then all that the other one read is written; and once more: then a
      queued close is acted on. */
  lemma {:induction false} Delivered(me: Side, other: Side, es: seq<Event>)
    requires Inv(me, other)
    requires forall i :: 0 <= i < |es| ==> es[i].Valid() && Writable(es[i]) && AllDue(me.chunks, es[i].now)
    ensures var after := PolledAll(me, other, es).0;
            && (|es| >= |AllData(me.chunks)| ==> after.written == other.received)
            && (|es| > |AllData(me.chunks)| && other.closesQueued == 1 ==> after.state == Closed)
    decreases |es|
  {
    hide Step, AllDue, Writable, CloseLast;
    if es == [] {
      assert me.written + [] == me.written;
    } else {
      var (me1, other1) := Step(me, other, es[0]);
      LeftAlone(me, other, es[0]);
      StepKeeps(me, other, es[0]);
      forall i | 0 <= i < |es[1..]|
        ensures es[1..][i].Valid() && Writable(es[1..][i]) && AllDue(me1.chunks, es[1..][i].now)
      {
        assert es[1..][i] == es[i + 1];
        StepSends(me, other, es[0], es[i + 1].now);
      }
      StepSends(me, other, es[0], es[0].now);
      Delivered(me1, other1, es[1..]);
      if me1.state == Closed {
        StaysClosed(me1, other1, es[1..]);
      }
    }
  }

  lemma {:induction false} StaysClosed(me: Side, other: Side, es: seq<Event>)
    requires Inv(me, other) && me.state == Closed && forall i :: 0 <= i < |es| ==> es[i].Valid()
    ensures PolledAll(me, other, es).0.state == Closed
    decreases |es|
  {
    hide Step, Flows;
    if es != [] {
      LeftAlone(me, other, es[0]);
      StepKeeps(me, other, es[0]);
      StaysClosed(Step(me, other, es[0]).0, Step(me, other, es[0]).1, es[1..]);
    }
  }
}
