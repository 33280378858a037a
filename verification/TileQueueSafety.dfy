/** The promises of the tile queue over whole runs: nothing waits forever, nothing overtakes,
    no update is outdated, and no damage is forgotten. */
module TileQueueSafety {
  import opened Tiles
  import opened InvalidationText
  import opened TileQueues
  import opened TileQueueRuns

  // ----- bounded waiting -----

  /** A step in which the message in a place, unless it is a tile request, leaves the queue: it is
      superseded, cancelled or handed out. */
  predicate Leaves(s: Scheduler, op: Op, k: nat)
    requires k < |s.queue|
  {
    match op
    case Put(m) => Supersedes(m, s.queue, k)
    case Cancel(versions, found) => s.queue[k] in found
    case Get => k == 0
    case _ => false
  }

  /** It does leave: it is nowhere in the queue afterwards, and a get hands out just it. */
  lemma LeavesIsGone(s: Scheduler, op: Op, k: nat)
    requires OnlyAt(s.queue, k) && !IsTile(s.queue[k]) && Leaves(s, op, k)
    requires op.Put? ==> op.message.stamp != s.queue[k].stamp
    ensures s.queue[k] !in QueueAfter(s, op)
    ensures op.Get? ==> Taken(s, op) == [s.queue[k]]
  {
    hide PutMessage, PutTiles, GetFrom, Filter;
    match op {
      case Put(m) => SupersededIsGone(s.queue, m, k);
      case Cancel(versions, found) =>
      case Get =>
        var l := GetMovesUp(s.queue, s.cursors, s.order, k);
        GetConserves(s.queue, s.cursors, s.order);
        CountedOnce(s.queue, k, GetFrom(s.queue, s.cursors, s.order).rest);
      case _ =>
    }
  }

  lemma CountedOnce(q: Queue, k: nat, rest: Queue)
    requires OnlyAt(q, k) && multiset(q) == multiset([q[k]]) + multiset(rest)
    ensures q[k] !in rest
  {
    var e := q[k];
    assert q == q[..k] + [e] + q[k + 1..];
    assert e !in q[..k] && e !in q[k + 1..];
    assert multiset(q)[e] == multiset(q[..k])[e] + 1 + multiset(q[k + 1..])[e];
    assert multiset(rest)[e] == 0;
  }

  /** One step brings a message nearer to the front, by one at least if it is a get. */
  lemma StepMovesUp(s: Scheduler, op: Op, k: nat) returns (l: nat)
    requires k < |s.queue| && !IsTile(s.queue[k]) && !Leaves(s, op, k)
    ensures l < |QueueAfter(s, op)| && QueueAfter(s, op)[l] == s.queue[k]
    ensures l + (if op.Get? then 1 else 0) <= k
  {
    hide PutMessage, PutTiles, GetFrom, Filter;
    match op {
      case Put(m) => l := PutMovesUp(s.queue, m, k);
      case PutCombined(stamp, c) => l := PutTilesMovesUp(s.queue, stamp, c.tiles, k);
      case Cancel(versions, found) => l := FilterIndex(s.queue, NotCancelled(versions, found), k);
      case Get => l := GetMovesUp(s.queue, s.cursors, s.order, k);
      case _ => l := k;
    }
  }

  lemma PrefixOfOps(ops: seq<Op>, n: nat)
    requires n < |ops|
    ensures ops[..n + 1][..n] == ops[..n] && ops[..n + 1][n] == ops[n]
    ensures QueueOf(ops[..n + 1]) == QueueAfter(After(ops[..n]), ops[n])
    ensures Gets(ops[..n + 1]) == Gets(ops[..n]) + if ops[n].Get? then 1 else 0
    ensures TakenBy(ops[..n + 1]) == TakenBy(ops[..n]) + Taken(After(ops[..n]), ops[n])
  {
    assert ops[..n + 1][..n] == ops[..n];
  }

  /** A message leaves the queue from a place in a step of a run. */
  ghost predicate LeavesAt(ops: seq<Op>, j: nat, at: nat, e: Message) {
    j < |ops| && at < |QueueOf(ops[..j])| && QueueOf(ops[..j])[at] == e && Leaves(After(ops[..j]), ops[j], at)
  }

  lemma NextMovesUp(ops: seq<Op>, i: nat, e: Message, k: nat) returns (left: bool, l: nat)
    requires i < |ops| && k < |QueueOf(ops[..i])| && QueueOf(ops[..i])[k] == e && !IsTile(e)
    ensures left ==> LeavesAt(ops, i, k, e)
    ensures !left ==> l < |QueueOf(ops[..i + 1])| && QueueOf(ops[..i + 1])[l] == e &&
                      l + Gets(ops[..i + 1]) <= k + Gets(ops[..i])
  {
    PrefixOfOps(ops, i);
    hide QueueOf, Gets, QueueAfter, Leaves, TakenBy;
    left, l := Leaves(After(ops[..i]), ops[i], k), 0;
    if !left {
      l := StepMovesUp(After(ops[..i]), ops[i], k);
    }
  }

  /** From a point of a run on, a message other than a tile has left by a step j, or it has moved
      up with every get. */
  lemma {:induction false} MovesUp(ops: seq<Op>, n: nat, now: nat, e: Message, k: nat)
    returns (left: bool, j: nat, at: nat)
    requires n <= now <= |ops| && k < |QueueOf(ops[..n])| && QueueOf(ops[..n])[k] == e && !IsTile(e)
    ensures left ==> n <= j < now && LeavesAt(ops, j, at, e) && at + Gets(ops[..j]) <= k + Gets(ops[..n])
    ensures !left ==>
              && at < |QueueOf(ops[..now])| && QueueOf(ops[..now])[at] == e
              && at + Gets(ops[..now]) <= k + Gets(ops[..n])
    decreases now
  {
    hide *;
    if now == n {
      left, j, at := false, now, k;
    } else {
      left, j, at := MovesUp(ops, n, now - 1, e, k);
      if !left {
        var l;
        left, l := NextMovesUp(ops, now - 1, e, at);
        j, at := now - 1, if left then at else l;
      }
    }
  }

  /** A message other than a tile that has k before it is handed out by the (k + 1)-th get at the
      latest, whatever is put in between, unless it is superseded or cancelled before that. */
  lemma BoundedWaiting(ops: seq<Op>, n: nat, k: nat) returns (j: nat, at: nat)
    requires n <= |ops| && k < |QueueOf(ops[..n])| && !IsTile(QueueOf(ops[..n])[k])
    requires Gets(ops) > k + Gets(ops[..n])
    ensures n <= j < |ops| && LeavesAt(ops, j, at, QueueOf(ops[..n])[k])
    ensures at + Gets(ops[..j]) <= k + Gets(ops[..n])
  {
    hide *;
    assert ops[..|ops|] == ops;
    var left;
    left, j, at := MovesUp(ops, n, |ops|, QueueOf(ops[..n])[k], k);
  }

  // ----- nothing overtakes -----

  /** Messages other than tiles are in the order in which they were put. */
  ghost predicate InOrder(q: Queue) {
    forall i, j :: 0 <= i < j < |q| && !IsTile(q[i]) && !IsTile(q[j]) ==> q[i].stamp < q[j].stamp
  }

  ghost predicate Before(a: Queue, b: Queue) {
    forall x, y :: x in a && y in b && !IsTile(x) && !IsTile(y) ==> x.stamp < y.stamp
  }

  lemma InOrderBoth(a: Queue, b: Queue)
    ensures InOrder(a + b) <==> InOrder(a) && InOrder(b) && Before(a, b)
  {
    if InOrder(a + b) {
      InOrderApart(a, b);
    }
    if InOrder(a) && InOrder(b) && Before(a, b) {
      forall i, j | 0 <= i < j < |a + b| && !IsTile((a + b)[i]) && !IsTile((a + b)[j])
        ensures (a + b)[i].stamp < (a + b)[j].stamp
      {
        assert i < |a| ==> (a + b)[i] == a[i] && a[i] in a;
        assert j >= |a| ==> (a + b)[j] == b[j - |a|] && b[j - |a|] in b;
      }
    }
  }

  lemma InOrderApart(a: Queue, b: Queue)
    requires InOrder(a + b)
    ensures InOrder(a) && InOrder(b) && Before(a, b)
  {
    forall i, j | 0 <= i < j < |a| && !IsTile(a[i]) && !IsTile(a[j]) ensures a[i].stamp < a[j].stamp {
      assert (a + b)[i] == a[i] && (a + b)[j] == a[j];
    }
    forall i, j | 0 <= i < j < |b| && !IsTile(b[i]) && !IsTile(b[j]) ensures b[i].stamp < b[j].stamp {
      assert (a + b)[|a| + i] == b[i] && (a + b)[|a| + j] == b[j];
    }
    forall x, y | x in a && y in b && !IsTile(x) && !IsTile(y) ensures x.stamp < y.stamp {
      var i :| 0 <= i < |a| && a[i] == x;
      var j :| 0 <= j < |b| && b[j] == y;
      assert (a + b)[i] == x && (a + b)[|a| + j] == y;
    }
  }

  /** Messages other than tiles all come from some queue. */
  ghost predicate From(after: Queue, q: Queue) {
    forall x :: x in after && !IsTile(x) ==> x in q
  }

  lemma {:induction false} FilterInOrder(q: Queue, keep: Message -> bool)
    requires InOrder(q)
    ensures InOrder(Filter(q, keep)) && From(Filter(q, keep), q)
  {
    if q != [] {
      var rest, last := q[..|q| - 1], q[|q| - 1];
      assert q == rest + [last];
      InOrderBoth(rest, [last]);
      FilterInOrder(rest, keep);
      InOrderBoth(Filter(rest, keep), [last]);
      assert Filter(rest, keep) + [] == Filter(rest, keep);
    }
  }

  lemma WithoutInOrder(q: Queue, k: nat)
    requires InOrder(q)
    ensures InOrder(Without(q, k)) && From(Without(q, k), q)
  {
    if k < |q| {
      WithoutParts(q, k);
    }
  }

  lemma {:induction false} MergeInOrder(q: Queue, target: string, a: Area, performed: bool)
    requires InOrder(q)
    ensures InOrder(Merge(q, target, a, performed).queue) && From(Merge(q, target, a, performed).queue, q)
    decreases |q|
  {
    if q != [] {
      assert q == [q[0]] + q[1..];
      InOrderBoth([q[0]], q[1..]);
      if Invalidates(q[0], target, a.part) && Covers(a, q[0].body.area) {
        MergeInOrder(q[1..], target, a, performed);
      } else if Invalidates(q[0], target, a.part) && CanJoin(a, q[0].body.area) {
        MergeInOrder(q[1..], target, Joined(a, q[0].body.area), true);
      } else {
        MergeInOrder(q[1..], target, a, performed);
        var rest := Merge(q[1..], target, a, performed).queue;
        assert Merge(q, target, a, performed).queue == [q[0]] + rest;
        hide Merge;
        InOrderBoth([q[0]], rest);
      }
    }
  }

  /** All messages in a queue, other than tiles, have smaller stamps. */
  ghost predicate Older(q: Queue, stamp: nat) {
    forall x :: x in q && !IsTile(x) ==> x.stamp < stamp
  }

  lemma AppendInOrder(q: Queue, m: Message)
    requires InOrder(q) && (!IsTile(m) ==> Older(q, m.stamp))
    ensures InOrder(q + [m])
  {
    InOrderBoth(q, [m]);
  }

  /** What a put leaves, apart from the message that it puts last. */
  lemma PutLeaves(q: Queue, m: Message) returns (rest: Queue, last: Message)
    requires InOrder(q)
    ensures PutMessage(q, m) == rest + [last] && InOrder(rest) && From(rest, q)
    ensures last.stamp == m.stamp && IsTile(last) == IsTile(m)
  {
    hide Filter, Merge, Without, InOrder, From;
    match m.body {
      case TileRequest(t) =>
        WithoutInOrder(q, FirstOf(q, DuplicateOf(t)));
        rest, last := RemoveFirst(q, DuplicateOf(t)), m;
      case Invalidation(target, a) =>
        MergeInOrder(q, target, a, false);
        var merged := Merge(q, target, a, false);
        rest, last := merged.queue, Message(m.stamp, Invalidation(target, merged.area));
      case Update(key) =>
        WithoutInOrder(q, FirstOf(q, AboutSame(key)));
        rest, last := RemoveFirst(q, AboutSame(key)), m;
      case Other =>
        rest, last := q, m;
        FromItself(q);
    }
  }

  lemma FromItself(q: Queue)
    ensures From(q, q)
  {
  }

  lemma {:induction false} PutTilesInOrder(q: Queue, stamp: nat, tiles: seq<Tile>)
    requires InOrder(q)
    ensures InOrder(PutTiles(q, stamp, tiles)) && From(PutTiles(q, stamp, tiles), q)
    decreases |tiles|
  {
    if tiles != [] {
      var before, m := PutTiles(q, stamp, tiles[..|tiles| - 1]), Message(stamp, TileRequest(tiles[|tiles| - 1]));
      PutTilesInOrder(q, stamp, tiles[..|tiles| - 1]);
      var rest, last := PutLeaves(before, m);
      assert PutTiles(q, stamp, tiles) == rest + [last];
      hide PutTiles, PutMessage;
      AppendInOrder(rest, last);
    }
  }

  /** What a get leaves comes after what it takes. */
  lemma GetInOrder(q: Queue, cursors: Cursors, order: seq<ViewId>)
    requires q != [] && Known(order, cursors) && InOrder(q)
    ensures var g := GetFrom(q, cursors, order); InOrder(g.taken + g.rest) && From(g.taken + g.rest, q)
  {
    hide Filter, Without, Priority, LeadingTiles, InOrder, IsFirstChoice;
    var g := GetFrom(q, cursors, order);
    if IsPlainTile(q[0]) {
      var p := GetPlain(q, cursors, order);
      hide GetFrom;
      WithoutInOrder(q, p);
      FilterInOrder(Without(q, p), StaysBehind(q[p].body.tile));
      FilterCombines(Without(q, p), q[p]);
      TilesFirst(q[p], Filter(Without(q, p), CombinesWith(q[p].body.tile)), g.rest);
    } else {
      assert q == [q[0]] + q[1..];
      InOrderBoth([q[0]], q[1..]);
      RotatedInOrder(q[1..]);
      BeforeRest(q[0], q[1..], g.rest);
    }
  }

  lemma BeforeRest(first: Message, q: Queue, rest: Queue)
    requires Before([first], q) && InOrder(rest) && InOrder([first]) && From(rest, q)
    ensures InOrder([first] + rest) && From([first] + rest, [first] + q)
  {
    InOrderBoth([first], rest);
  }

  lemma TilesFirst(first: Message, taken: Queue, rest: Queue)
    requires AllCombine(first, taken) && InOrder(rest)
    ensures InOrder(([first] + taken) + rest) && From(([first] + taken) + rest, rest)
  {
    var tiles := [first] + taken;
    forall i | 0 <= i < |tiles| ensures IsTile(tiles[i]) {
      assert i > 0 ==> Combines(first.body.tile, taken[i - 1]);
    }
    InOrderBoth(tiles, rest);
  }

  lemma RotatedInOrder(q: Queue)
    requires InOrder(q)
    ensures InOrder(Rotated(q)) && From(Rotated(q), q)
  {
    var r := LeadingPreviews(q);
    assert q == q[..r] + q[r..];
    InOrderBoth(q[..r], q[r..]);
    InOrderBoth(q[r..], q[..r]);
  }

  /** One step keeps the order of what was taken before, what it takes and what it leaves. */
  lemma StepInOrder(before: Queue, s: Scheduler, op: Op)
    requires InOrder(before + s.queue) && (op.Put? ==> Older(before + s.queue, op.message.stamp))
    ensures InOrder(before + Taken(s, op) + QueueAfter(s, op))
    ensures op.Put? ==> Taken(s, op) == [] && FromOr(QueueAfter(s, op), s.queue, op.message.stamp)
    ensures !op.Put? ==> From(Taken(s, op) + QueueAfter(s, op), s.queue)
  {
    hide GetFrom, PutMessage, PutTiles, Filter, InOrder, From;
    var q, taken, after := s.queue, Taken(s, op), QueueAfter(s, op);
    InOrderBoth(before, q);
    assert before + [] == before && [] + after == after;
    match op {
      case Put(m) =>
        var rest, last := PutLeaves(q, m);
        PutLast(before, q, rest, last);
        assert before + (rest + [last]) == before + taken + after;
      case PutCombined(stamp, c) =>
        PutTilesInOrder(q, stamp, c.tiles);
        FromInOrder(before, q, after);
      case Cancel(versions, found) =>
        FilterInOrder(q, NotCancelled(versions, found));
        FromInOrder(before, q, after);
      case Get =>
        if q != [] {
          GetInOrder(q, s.cursors, s.order);
          FromInOrder(before, q, taken + after);
          assert before + (taken + after) == before + taken + after;
        } else {
          FromItself(q);
        }
      case _ =>
        FromItself(q);
    }
  }

  lemma FromInOrder(before: Queue, q: Queue, after: Queue)
    requires InOrder(before) && InOrder(after) && Before(before, q) && From(after, q)
    ensures InOrder(before + after)
  {
    InOrderBoth(before, after);
  }

  /** As From, but for messages of one stamp. */
  ghost predicate FromOr(after: Queue, q: Queue, stamp: nat) {
    forall x :: x in after && !IsTile(x) ==> x in q || x.stamp == stamp
  }

  lemma PutLast(before: Queue, q: Queue, rest: Queue, last: Message)
    requires InOrder(before) && InOrder(rest) && Before(before, q) && From(rest, q) && Older(before + q, last.stamp)
    ensures InOrder(before + (rest + [last])) && FromOr(rest + [last], q, last.stamp)
  {
    hide InOrder;
    assert Older(before, last.stamp) && Older(rest, last.stamp) by {
      forall x | x in before ensures x in before + q {
      }
      forall x | x in q ensures x in before + q {
      }
    }
    AppendInOrder(rest, last);
    InOrderBoth(before, rest + [last]);
  }

  /** Each message other than a tile was put with its stamp. */
  ghost predicate WasPut(q: Queue, ops: seq<Op>) {
    forall m :: m in q && !IsTile(m) ==> PutWith(ops, m.stamp)
  }

  ghost predicate PutWith(ops: seq<Op>, stamp: nat) {
    exists j :: 0 <= j < |ops| && ops[j].Put? && ops[j].message.stamp == stamp
  }

  /** Puts are stamped in order. */
  ghost predicate Stamped(ops: seq<Op>) {
    forall i, j :: 0 <= i < j < |ops| && ops[i].Put? && ops[j].Put? ==> ops[i].message.stamp < ops[j].message.stamp
  }

  lemma PutBefore(q: Queue, ops: seq<Op>, op: Op)
    requires WasPut(q, ops) && Stamped(ops + [op]) && op.Put?
    ensures Older(q, op.message.stamp)
  {
    forall x | x in q && !IsTile(x) ensures x.stamp < op.message.stamp {
      assert PutWith(ops, x.stamp);
      var j :| 0 <= j < |ops| && ops[j].Put? && ops[j].message.stamp == x.stamp;
      assert (ops + [op])[j] == ops[j] && (ops + [op])[|ops|] == op;
    }
  }

  lemma WasPutMore(before: Queue, q: Queue, after: Queue, ops: seq<Op>, op: Op)
    requires WasPut(before + q, ops)
    requires if op.Put? then FromOr(after, q, op.message.stamp) else From(after, q)
    ensures WasPut(before + after, ops + [op])
  {
    forall m | m in before + after && !IsTile(m) ensures PutWith(ops + [op], m.stamp) {
      if m in before + q {
        assert PutWith(ops, m.stamp);
        var j :| 0 <= j < |ops| && ops[j].Put? && ops[j].message.stamp == m.stamp;
        assert (ops + [op])[j] == ops[j];
      } else {
        assert (ops + [op])[|ops|] == op;
      }
    }
  }

  lemma OvertakeStep(taken: Queue, s: Scheduler, ops: seq<Op>, op: Op)
    requires InOrder(taken + s.queue) && WasPut(taken + s.queue, ops) && Stamped(ops + [op])
    ensures InOrder(taken + Taken(s, op) + QueueAfter(s, op))
            && WasPut(taken + Taken(s, op) + QueueAfter(s, op), ops + [op])
  {
    hide *;
    var now, after := Taken(s, op), QueueAfter(s, op);
    if op.Put? {
      PutBefore(taken + s.queue, ops, op);
    }
    StepInOrder(taken, s, op);
    assert op.Put? ==> now + after == after;
    WasPutMore(taken, s.queue, now + after, ops, op);
    assert taken + (now + after) == taken + now + after;
  }

  lemma StampedBefore(ops: seq<Op>)
    requires ops != [] && Stamped(ops)
    ensures Stamped(ops[..|ops| - 1])
  {
  }

  /** Messages other than tiles are handed out in the order in which they are put, and those
      still in the queue wait in that order, whatever tiles are picked and previews moved. */
  lemma {:induction false} NothingOvertakes(ops: seq<Op>)
    requires Stamped(ops)
    ensures InOrder(TakenBy(ops) + QueueOf(ops)) && WasPut(TakenBy(ops) + QueueOf(ops), ops)
  {
    if ops != [] {
      var before, op := ops[..|ops| - 1], ops[|ops| - 1];
      assert ops == before + [op];
      StampedBefore(ops);
      NothingOvertakes(before);
      hide InOrder, WasPut, Stamped, Taken, QueueAfter;
      OvertakeStep(TakenBy(before), After(before), before, op);
    }
  }
}
