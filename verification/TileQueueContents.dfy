/** What the tile queue holds after any run: only the latest update about anything, and all
    damage that was not handed out. */
module TileQueueContents {
  import opened Basics
  import opened Tiles
  import opened TileText
  import opened InvalidationText
  import opened TileQueues
  import opened TileQueueRuns
  import opened TileQueueSafety

  // ----- updates -----

  lemma {:induction false} FilterCommutes(q: Queue, a: Message -> bool, b: Message -> bool)
    ensures Filter(Filter(q, a), b) == Filter(Filter(q, b), a)
  {
    if q != [] {
      var rest, last := q[..|q| - 1], q[|q| - 1];
      FilterCommutes(rest, a, b);
      assert q == rest + [last];
      hide Filter;
      FilterLast(rest, last, a, b);
      FilterLast(rest, last, b, a);
    }
  }

  lemma FilterLast(rest: Queue, last: Message, a: Message -> bool, b: Message -> bool)
    ensures Filter(Filter(rest + [last], a), b) ==
            Filter(Filter(rest, a), b) + if a(last) && b(last) then [last] else []
  {
    hide Filter;
    FilterBoth(rest, [last], a);
    FilterOne(last, a);
    if a(last) {
      FilterBoth(Filter(rest, a), [last], b);
      FilterOne(last, b);
    } else {
      assert Filter(rest, a) + [] == Filter(rest, a);
    }
  }

  /** At most one message, and if so a given one. */
  predicate AtMost(q: Queue, latest: Option<Message>) {
    q == [] || (latest.Some? && q == [latest.value])
  }

  lemma FilterAtMost(q: Queue, keep: Message -> bool, latest: Option<Message>)
    requires AtMost(q, latest)
    ensures AtMost(Filter(q, keep), latest)
  {
    if q != [] {
      FilterOne(latest.value, keep);
    }
  }

  lemma {:induction false} MergeFilter(q: Queue, target: string, a: Area, performed: bool, only: Message -> bool)
    requires forall m :: only(m) ==> !m.body.Invalidation?
    ensures Filter(Merge(q, target, a, performed).queue, only) == Filter(q, only)
    decreases |q|
  {
    if q != [] {
      var first, rest := q[0], q[1..];
      assert q == [first] + rest;
      FilterBoth([first], rest, only);
      FilterOne(first, only);
      assert only(first) ==> !first.body.Invalidation?;
      assert [] + Filter(rest, only) == Filter(rest, only);
      hide Filter;
      if Invalidates(first, target, a.part) && Covers(a, first.body.area) {
        MergeFilter(rest, target, a, performed, only);
      } else if Invalidates(first, target, a.part) && CanJoin(a, first.body.area) {
        MergeFilter(rest, target, Joined(a, first.body.area), true, only);
      } else {
        MergeFilter(rest, target, a, performed, only);
        FilterBoth([first], Merge(rest, target, a, performed).queue, only);
      }
    }
  }

  /** A put does nothing to the updates about something else. */
  lemma PutKeepsOthers(q: Queue, m: Message, key: Key)
    requires m.body != Update(key)
    ensures Filter(PutMessage(q, m), AboutSame(key)) == Filter(q, AboutSame(key))
  {
    var only := AboutSame(key);
    hide Filter, Merge, Without, SameRequest;
    match m.body {
      case TileRequest(t) =>
        FilterWithout(q, FirstOf(q, DuplicateOf(t)), only);
        NotAbout(RemoveFirst(q, DuplicateOf(t)), m, key);
      case Invalidation(target, a) =>
        MergeFilter(q, target, a, false, only);
        var merged := Merge(q, target, a, false);
        NotAbout(merged.queue, Message(m.stamp, Invalidation(target, merged.area)), key);
      case Update(other) =>
        FilterWithout(q, FirstOf(q, AboutSame(other)), only);
        NotAbout(RemoveFirst(q, AboutSame(other)), m, key);
      case Other =>
        NotAbout(q, m, key);
    }
  }

  lemma NotAbout(q: Queue, m: Message, key: Key)
    requires m.body != Update(key)
    ensures Filter(q + [m], AboutSame(key)) == Filter(q, AboutSame(key))
  {
    FilterBoth(q, [m], AboutSame(key));
    FilterOne(m, AboutSame(key));
    assert Filter(q, AboutSame(key)) + [] == Filter(q, AboutSame(key));
  }

  lemma PutReplaces(q: Queue, m: Message, key: Key, latest: Option<Message>)
    requires m.body == Update(key) && AtMost(Filter(q, AboutSame(key)), latest)
    ensures Filter(PutMessage(q, m), AboutSame(key)) == [m]
  {
    FilterRemoved(q, AboutSame(key));
    FilterBoth(RemoveFirst(q, AboutSame(key)), [m], AboutSame(key));
    FilterOne(m, AboutSame(key));
    hide Filter, FirstOf, Without;
    assert Filter(RemoveFirst(q, AboutSame(key)), AboutSame(key)) == [];
  }

  lemma {:induction false} PutTilesKeeps(q: Queue, stamp: nat, tiles: seq<Tile>, key: Key)
    ensures Filter(PutTiles(q, stamp, tiles), AboutSame(key)) == Filter(q, AboutSame(key))
    decreases |tiles|
  {
    if tiles != [] {
      PutTilesKeeps(q, stamp, tiles[..|tiles| - 1], key);
      PutKeepsOthers(PutTiles(q, stamp, tiles[..|tiles| - 1]), Message(stamp, TileRequest(tiles[|tiles| - 1])), key);
    }
  }

  /** The last update put about something. */
  function Latest(ops: seq<Op>, key: Key): Option<Message> {
    if ops == [] then None
    else
      var op := ops[|ops| - 1];
      if op.Put? && op.message.body == Update(key) then Some(op.message) else Latest(ops[..|ops| - 1], key)
  }

  lemma StepKeepsFresh(s: Scheduler, op: Op, key: Key, latest: Option<Message>)
    requires AtMost(Filter(s.queue, AboutSame(key)), latest)
    ensures AtMost(Filter(QueueAfter(s, op), AboutSame(key)),
                   if op.Put? && op.message.body == Update(key) then Some(op.message) else latest)
  {
    var q, only := s.queue, AboutSame(key);
    hide Filter, PutMessage, PutTiles, GetFrom;
    match op {
      case Put(m) =>
        if m.body == Update(key) {
          PutReplaces(q, m, key, latest);
        } else {
          PutKeepsOthers(q, m, key);
        }
      case PutCombined(stamp, c) =>
        PutTilesKeeps(q, stamp, c.tiles, key);
      case Cancel(versions, found) =>
        FilterCommutes(q, NotCancelled(versions, found), only);
        FilterAtMost(Filter(q, only), NotCancelled(versions, found), latest);
      case Get =>
        if q != [] {
          GetFilter(q, s.cursors, s.order, only);
        } else {
          NoneOf(only);
        }
      case _ =>
    }
  }

  lemma NoneOf(only: Message -> bool)
    ensures Filter([], only) == []
  {
  }

  /** After any run there is at most one update about anything in the queue, the last one put. */
  lemma {:induction false} UpdatesFresh(ops: seq<Op>, key: Key)
    ensures AtMost(Filter(QueueOf(ops), AboutSame(key)), Latest(ops, key))
  {
    if ops == [] {
      NoneOf(AboutSame(key));
    } else {
      var before := ops[..|ops| - 1];
      UpdatesFresh(before, key);
      hide Filter, QueueAfter, AtMost;
      StepKeepsFresh(After(before), ops[|ops| - 1], key, Latest(before, key));
    }
  }

  lemma FilterCounts(q: Queue, i: nat, j: nat, only: Message -> bool)
    requires i < j < |q| && only(q[i]) && only(q[j])
    ensures |Filter(q, only)| >= 2
  {
    hide Filter;
    FilterThree(q[..i], q[i], q[i + 1..], only);
    var l := FilterIndex(q[i + 1..], only, j - i - 1);
    assert q == q[..i] + [q[i]] + q[i + 1..];
  }

  /** The same, message by message. */
  lemma OnlyLatestUpdate(ops: seq<Op>, i: nat, j: nat)
    requires i < |QueueOf(ops)| && j < |QueueOf(ops)|
    requires QueueOf(ops)[i].body.Update? && QueueOf(ops)[j].body == QueueOf(ops)[i].body
    ensures i == j && Latest(ops, QueueOf(ops)[i].body.key) == Some(QueueOf(ops)[i])
  {
    var q, key := QueueOf(ops), QueueOf(ops)[i].body.key;
    UpdatesFresh(ops, key);
    hide QueueOf, Latest, Filter;
    var only := AboutSame(key);
    var l := FilterIndex(q, only, i);
    if i < j {
      FilterCounts(q, i, j, only);
    } else if j < i {
      FilterCounts(q, j, i, only);
    }
  }

  // ----- damage -----

  predicate InArea(a: Area, x: int, y: int) {
    a.x <= x < a.x + a.w && a.y <= y < a.y + a.h
  }

  /** A point of a part is in the rectangle of an invalidation for a target. */
  predicate Damages(m: Message, target: string, part: int, x: int, y: int) {
    Invalidates(m, target, part) && InArea(m.body.area, x, y)
  }

  ghost predicate Damaged(q: Queue, target: string, part: int, x: int, y: int) {
    exists i :: 0 <= i < |q| && Damages(q[i], target, part, x, y)
  }

  lemma DamagedBoth(a: Queue, b: Queue, target: string, part: int, x: int, y: int)
    ensures Damaged(a + b, target, part, x, y) <==> Damaged(a, target, part, x, y) || Damaged(b, target, part, x, y)
  {
    if Damaged(a, target, part, x, y) {
      var i :| 0 <= i < |a| && Damages(a[i], target, part, x, y);
      assert (a + b)[i] == a[i];
    }
    if Damaged(b, target, part, x, y) {
      var i :| 0 <= i < |b| && Damages(b[i], target, part, x, y);
      assert (a + b)[|a| + i] == b[i];
    }
  }

  /** The damage that invalidations do stays with those that are left and the rectangle that
      they are merged into, and no other damage is done for others or on other parts. */
  lemma {:induction false} MergeKeepsDamage(q: Queue, target: string, a: Area, performed: bool, t: string, part: int,
                                            x: int, y: int)
    ensures var merged := Merge(q, target, a, performed);
            && merged.area.part == a.part
            && (t == target && part == a.part ==>
                  (InArea(a, x, y) || Damaged(q, t, part, x, y) ==>
                     InArea(merged.area, x, y) || Damaged(merged.queue, t, part, x, y)))
            && (t != target || part != a.part ==> (Damaged(merged.queue, t, part, x, y) <==> Damaged(q, t, part, x, y)))
    decreases |q|
  {
    if q != [] {
      var first, rest := q[0], q[1..];
      assert q == [first] + rest;
      DamagedBoth([first], rest, t, part, x, y);
      assert Damaged([first], t, part, x, y) <==> Damages(first, t, part, x, y);
      if Invalidates(first, target, a.part) && Covers(a, first.body.area) {
        MergeKeepsDamage(rest, target, a, performed, t, part, x, y);
      } else if Invalidates(first, target, a.part) && CanJoin(a, first.body.area) {
        MergeKeepsDamage(rest, target, Joined(a, first.body.area), true, t, part, x, y);
      } else {
        MergeKeepsDamage(rest, target, a, performed, t, part, x, y);
        DamagedBoth([first], Merge(rest, target, a, performed).queue, t, part, x, y);
      }
    }
  }

  /** What the rectangle that was put covers is not left in the queue; what is gone is covered by
      the rectangle that is put instead, which covers the one that was put; and if none was joined,
      none that is left could have been. */
  lemma {:induction false} MergeCovers(q: Queue, target: string, put: Area, a: Area, performed: bool)
    requires Covers(a, put) && put.part == a.part && (!performed ==> a == put)
    ensures var merged := Merge(q, target, a, performed);
            && Covers(merged.area, a)
            && (forall m :: m in merged.queue && Invalidates(m, target, a.part) ==> !Covers(put, m.body.area))
            && (forall m :: m in q && m !in merged.queue ==>
                Invalidates(m, target, a.part) && Covers(merged.area, m.body.area))
            && (!merged.performed ==> forall m :: m in merged.queue && Invalidates(m, target, a.part) ==>
                !CanJoin(put, m.body.area))
    decreases |q|
  {
    if q != [] {
      var first, rest := q[0], q[1..];
      assert q == [first] + rest;
      if Invalidates(first, target, a.part) && Covers(a, first.body.area) {
        MergeCovers(rest, target, put, a, performed);
      } else if Invalidates(first, target, a.part) && CanJoin(a, first.body.area) {
        MergeCovers(rest, target, put, Joined(a, first.body.area), true);
        MergePerformed(rest, target, Joined(a, first.body.area));
      } else {
        MergeCovers(rest, target, put, a, performed);
        if performed {
          MergePerformed(rest, target, a);
        }
      }
    }
  }

  /** A merged rectangle is of reasonable size; one that was not merged is as it was put. */
  lemma {:induction false} MergedIsReasonable(q: Queue, target: string, a: Area, performed: bool)
    requires performed ==> a.w <= REASONABLE_SIZE_X && a.h <= REASONABLE_SIZE_Y
    ensures var merged := Merge(q, target, a, performed);
            && (merged.performed ==> merged.area.w <= REASONABLE_SIZE_X && merged.area.h <= REASONABLE_SIZE_Y)
            && (!merged.performed ==> merged.area == a)
    decreases |q|
  {
    if q != [] {
      MergedIsReasonable(q[1..], target, a, performed);
      if Invalidates(q[0], target, a.part) && CanJoin(a, q[0].body.area) {
        MergedIsReasonable(q[1..], target, Joined(a, q[0].body.area), true);
        MergePerformed(q[1..], target, Joined(a, q[0].body.area));
      }
    }
  }

  /** A message that invalidates everything is never rewritten, so that it need not have the
      words for it. */
  lemma {:induction false} EverythingIsNotMerged(q: Queue, target: string, part: int)
    ensures !Merge(q, target, Area(0, 0, INT_MAX, INT_MAX, part), false).performed
    decreases |q|
  {
    if q != [] {
      EverythingIsNotMerged(q[1..], target, part);
    }
  }

  lemma PutKeepsDamage(q: Queue, m: Message, target: string, part: int, x: int, y: int)
    requires Damaged(q, target, part, x, y) || Damages(m, target, part, x, y)
    ensures Damaged(PutMessage(q, m), target, part, x, y)
  {
    if m.body.Invalidation? {
      var merged := Merge(q, m.body.target, m.body.area, false);
      var last := Message(m.stamp, Invalidation(m.body.target, merged.area));
      MergeKeepsDamage(q, m.body.target, m.body.area, false, target, part, x, y);
      hide Merge;
      DamagedBoth(merged.queue, [last], target, part, x, y);
      assert [last][0] == last;
    } else {
      hide PutMessage;
      var k :| 0 <= k < |q| && Damages(q[k], target, part, x, y);
      var l := PutMovesUp(q, m, k);
    }
  }

  /** A step that cancels no invalidation. */
  predicate Spares(op: Op) {
    op.Cancel? ==> forall m :: m in op.found ==> !m.body.Invalidation?
  }

  lemma StepKeepsDamage(s: Scheduler, op: Op, target: string, part: int, x: int, y: int)
    requires Damaged(s.queue, target, part, x, y) && Spares(op)
    ensures Damaged(QueueAfter(s, op), target, part, x, y) || Damaged(Taken(s, op), target, part, x, y)
  {
    var k :| 0 <= k < |s.queue| && Damages(s.queue[k], target, part, x, y);
    hide PutMessage, PutTiles, Filter, GetFrom;
    if op.Put? {
      PutKeepsDamage(s.queue, op.message, target, part, x, y);
    } else if Leaves(s, op, k) {
      var l := GetMovesUp(s.queue, s.cursors, s.order, k);
      assert Taken(s, op)[0] == s.queue[k];
    } else {
      var l := StepMovesUp(s, op, k);
    }
  }

  /** A step of a run hands out damage. */
  ghost predicate DamageTaken(ops: seq<Op>, j: nat, target: string, part: int, x: int, y: int) {
    j < |ops| && Damaged(Taken(After(ops[..j]), ops[j]), target, part, x, y)
  }

  /** From the put of an invalidation on, every point of it is damaged in the queue, or was when
      something was handed out since. */
  lemma {:induction false} NothingForgotten(ops: seq<Op>, n: nat, now: nat, target: string, part: int, x: int, y: int)
    requires n < now <= |ops| && ops[n].Put? && Damages(ops[n].message, target, part, x, y)
    requires forall i :: n < i < now ==> Spares(ops[i])
    ensures Damaged(QueueOf(ops[..now]), target, part, x, y) ||
            exists j :: n < j < now && DamageTaken(ops, j, target, part, x, y)
    decreases now
  {
    hide QueueOf, Damaged, DamageTaken, Damages, Spares;
    if now == n + 1 {
      FreshDamage(ops, n, target, part, x, y);
    } else {
      NothingForgotten(ops, n, now - 1, target, part, x, y);
      if Damaged(QueueOf(ops[..now - 1]), target, part, x, y) {
        NextDamage(ops, now - 1, target, part, x, y);
      }
    }
  }

  lemma FreshDamage(ops: seq<Op>, n: nat, target: string, part: int, x: int, y: int)
    requires n < |ops| && ops[n].Put? && Damages(ops[n].message, target, part, x, y)
    ensures Damaged(QueueOf(ops[..n + 1]), target, part, x, y)
  {
    PrefixOfOps(ops, n);
    hide QueueOf, Damages;
    PutKeepsDamage(QueueOf(ops[..n]), ops[n].message, target, part, x, y);
  }

  lemma NextDamage(ops: seq<Op>, n: nat, target: string, part: int, x: int, y: int)
    requires n < |ops| && Damaged(QueueOf(ops[..n]), target, part, x, y) && Spares(ops[n])
    ensures Damaged(QueueOf(ops[..n + 1]), target, part, x, y) || DamageTaken(ops, n, target, part, x, y)
  {
    PrefixOfOps(ops, n);
    hide QueueOf, Damaged, Spares, QueueAfter, Taken, TakenBy, Gets;
    StepKeepsDamage(After(ops[..n]), ops[n], target, part, x, y);
  }
}
