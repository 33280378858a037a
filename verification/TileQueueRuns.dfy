/** What holds of the tile queue over whole runs of puts, gets and cursor moves. */
module TileQueueRuns {
  import opened Tiles
  import opened InvalidationText
  import opened TileQueues

  // ----- sequences with elements left out -----

  lemma {:induction false} FilterBoth(a: Queue, b: Queue, keep: Message -> bool)
    ensures Filter(a + b, keep) == Filter(a, keep) + Filter(b, keep)
  {
    if b == [] {
      assert a + b == a;
    } else {
      assert (a + b)[..|a + b| - 1] == a + b[..|b| - 1];
      FilterBoth(a, b[..|b| - 1], keep);
    }
  }

  /** Every message is in one of two parts that complement each other. */
  lemma {:induction false} FilterSplits(q: Queue, keep: Message -> bool, drop: Message -> bool)
    requires forall m :: keep(m) <==> !drop(m)
    ensures multiset(q) == multiset(Filter(q, keep)) + multiset(Filter(q, drop))
  {
    if q != [] {
      FilterSplits(q[..|q| - 1], keep, drop);
      assert q == q[..|q| - 1] + [q[|q| - 1]];
    }
  }

  /** Where a message that is kept gets to. */
  lemma {:induction false} FilterIndex(q: Queue, keep: Message -> bool, k: nat) returns (l: nat)
    requires k < |q| && keep(q[k])
    ensures l <= k && l < |Filter(q, keep)| && Filter(q, keep)[l] == q[k]
  {
    if k == |q| - 1 {
      l := |Filter(q[..k], keep)|;
    } else {
      l := FilterIndex(q[..|q| - 1], keep, k);
    }
  }

  lemma {:induction false} FilterTwice(q: Queue, keep: Message -> bool, only: Message -> bool)
    requires forall m :: only(m) ==> keep(m)
    ensures Filter(Filter(q, keep), only) == Filter(q, only)
  {
    if q != [] {
      var last := q[|q| - 1];
      assert only(last) ==> keep(last);
      FilterTwice(q[..|q| - 1], keep, only);
      assert !keep(last) ==> Filter(q, keep) == Filter(q[..|q| - 1], keep);
      if keep(last) {
        FilterBoth(Filter(q[..|q| - 1], keep), [last], only);
        FilterOne(last, only);
      }
    }
  }

  lemma FilterOne(m: Message, keep: Message -> bool)
    ensures Filter([m], keep) == if keep(m) then [m] else []
  {
    assert [m][..0] == [];
  }

  lemma {:induction false} FilterNone(q: Queue, keep: Message -> bool)
    requires forall i :: 0 <= i < |q| ==> !keep(q[i])
    ensures Filter(q, keep) == []
  {
    if q != [] {
      FilterNone(q[..|q| - 1], keep);
    }
  }

  lemma WithoutParts(q: Queue, k: nat)
    requires k < |q|
    ensures q == q[..k] + [q[k]] + q[k + 1..] && Without(q, k) == q[..k] + q[k + 1..]
  {
  }

  lemma FilterThree(a: Queue, m: Message, b: Queue, keep: Message -> bool)
    ensures Filter(a + [m] + b, keep) == Filter(a, keep) + (if keep(m) then [m] else []) + Filter(b, keep)
  {
    FilterBoth(a + [m], b, keep);
    FilterBoth(a, [m], keep);
    FilterOne(m, keep);
  }

  /** One message is taken out of those that are left out anyway. */
  lemma FilterWithout(q: Queue, k: nat, only: Message -> bool)
    requires k < |q| ==> !only(q[k])
    ensures Filter(Without(q, k), only) == Filter(q, only)
  {
    hide Filter;
    if k < |q| {
      WithoutParts(q, k);
      FilterBoth(q[..k], q[k + 1..], only);
      FilterThree(q[..k], q[k], q[k + 1..], only);
      assert Filter(q[..k], only) + [] == Filter(q[..k], only);
    }
  }

  /** The first of a kind is the first of all of that kind. */
  lemma FilterRemoved(q: Queue, p: Message -> bool)
    ensures Filter(RemoveFirst(q, p), p) == if Filter(q, p) == [] then [] else Filter(q, p)[1..]
  {
    hide Filter;
    var k := FirstOf(q, p);
    if k < |q| {
      WithoutParts(q, k);
      FilterNone(q[..k], p);
      FilterBoth(q[..k], q[k + 1..], p);
      FilterThree(q[..k], q[k], q[k + 1..], p);
    } else {
      FilterNone(q, p);
    }
  }

  // ----- what a get does -----

  lemma RotatedSame(q: Queue)
    ensures multiset(Rotated(q)) == multiset(q)
  {
    assert q == q[..LeadingPreviews(q)] + q[LeadingPreviews(q)..];
  }

  lemma WithoutSame(q: Queue, k: nat)
    requires k < |q|
    ensures multiset(q) == multiset([q[k]]) + multiset(Without(q, k))
  {
    WithoutParts(q, k);
  }

  /** The case of a plain tile in front. */
  lemma GetPlain(q: Queue, cursors: Cursors, order: seq<ViewId>) returns (p: nat)
    requires q != [] && Known(order, cursors) && IsPlainTile(q[0])
    ensures p < LeadingTiles(q) <= |q| && IsFirstChoice(q, LeadingTiles(q), cursors, order, p) && IsPlainTile(q[p])
    ensures GetFrom(q, cursors, order) ==
            Got([q[p]] + Filter(Without(q, p), CombinesWith(q[p].body.tile)),
                Filter(Without(q, p), StaysBehind(q[p].body.tile)))
  {
    hide Filter, Without, Priority;
    p := Choice(q, LeadingTiles(q), cursors, order);
  }

  /** No request is lost or made up: what is taken and what is left is what was there. */
  lemma GetConserves(q: Queue, cursors: Cursors, order: seq<ViewId>)
    requires q != [] && Known(order, cursors)
    ensures var g := GetFrom(q, cursors, order); multiset(q) == multiset(g.taken) + multiset(g.rest)
  {
    hide Filter, Priority, Known, IsFirstChoice, Rotated;
    if IsPlainTile(q[0]) {
      var p := GetPlain(q, cursors, order);
      hide GetFrom, LeadingTiles, Without;
      WithoutSame(q, p);
      SplitTiles(Without(q, p), q[p].body.tile);
    } else {
      assert q == [q[0]] + q[1..];
      RotatedSame(q[1..]);
    }
  }

  lemma SplitTiles(q: Queue, first: Tile)
    ensures multiset(q) == multiset(Filter(q, CombinesWith(first))) + multiset(Filter(q, StaysBehind(first)))
  {
    hide Filter, Combines;
    FilterSplits(q, CombinesWith(first), StaysBehind(first));
  }

  /** Asks for messages other than tiles only. */
  ghost predicate SkipsTiles(only: Message -> bool) {
    forall m :: only(m) ==> !IsTile(m)
  }

  ghost predicate AllCombine(first: Message, taken: Queue) {
    IsPlainTile(first) && forall i :: 0 <= i < |taken| ==> Combines(first.body.tile, taken[i])
  }

  lemma FilterCombines(q: Queue, first: Message)
    requires IsPlainTile(first)
    ensures AllCombine(first, Filter(q, CombinesWith(first.body.tile)))
    ensures forall m :: m in Filter(q, StaysBehind(first.body.tile)) ==> !Combines(first.body.tile, m)
  {
    hide Combines;
    var keep := CombinesWith(first.body.tile);
    var taken := Filter(q, keep);
    forall i | 0 <= i < |taken| ensures Combines(first.body.tile, taken[i]) {
      assert taken[i] in taken;
      assert keep(taken[i]);
    }
  }

  /** If a plain tile is in front, the first that is taken is the earliest of the highest priority
      among the leading ones; with it goes every plain tile that combines with it, and no other. */
  lemma GetTakes(q: Queue, cursors: Cursors, order: seq<ViewId>) returns (p: nat)
    requires q != [] && Known(order, cursors) && IsPlainTile(q[0])
    ensures p < |q| && IsFirstChoice(q, LeadingTiles(q), cursors, order, p)
    ensures GetFrom(q, cursors, order).taken[0] == q[p]
    ensures AllCombine(q[p], GetFrom(q, cursors, order).taken[1..])
    ensures forall m :: m in GetFrom(q, cursors, order).rest ==> !Combines(q[p].body.tile, m)
  {
    hide Filter, IsFirstChoice, Combines, Priority, Without, LeadingTiles, AllCombine;
    p := GetPlain(q, cursors, order);
    hide GetFrom;
    FilterCombines(Without(q, p), q[p]);
    var taken := Filter(Without(q, p), CombinesWith(q[p].body.tile));
    assert ([q[p]] + taken)[1..] == taken;
  }

  /** What is handed out breaks up into the very tiles that were taken, but for what a combined
      request does not carry. */
  lemma PayloadKeepsTiles(taken: Queue, payload: Payload)
    requires IsPayload(payload, taken) && AllCombine(taken[0], taken[1..])
    ensures match payload
            case Single(m) => taken == [m]
            case Combined(c) => WellCombined(c) && |c.tiles| == |taken| &&
                                forall i :: 0 <= i < |taken| ==>
                                    IsTile(taken[i]) && c.tiles[i] == Stripped(taken[i].body.tile)
  {
    if payload.Combined? {
      var tiles := seq(|taken|, i requires 0 <= i < |taken| && IsTile(taken[i]) => taken[i].body.tile);
      hide CanCombine;
      forall i | 0 < i < |tiles| ensures CanCombine(tiles[0], tiles[i]) {
        assert taken[1..][i - 1] == taken[i];
      }
      hide *;
      CreateKeepsTiles(tiles);
    }
  }

  /** Messages other than tiles are either what is taken, or are left as they were. */
  lemma GetFilter(q: Queue, cursors: Cursors, order: seq<ViewId>, only: Message -> bool)
    requires q != [] && Known(order, cursors) && SkipsTiles(only)
    ensures var g := GetFrom(q, cursors, order); Filter(q, only) == Filter(g.taken, only) + Filter(g.rest, only)
  {
    hide Filter, Priority, Known, IsFirstChoice, Rotated, SkipsTiles;
    if IsPlainTile(q[0]) {
      var p := GetPlain(q, cursors, order);
      hide GetFrom, Without, LeadingTiles;
      NoTilesIn(q, p, only);
      LeftBehind(Without(q, p), q[p], only);
    } else {
      FrontFilter(q, only);
      RotatedFilter(q[1..], only);
    }
  }

  lemma FrontFilter(q: Queue, only: Message -> bool)
    requires q != []
    ensures Filter(q, only) == Filter([q[0]], only) + Filter(q[1..], only)
  {
    assert q == [q[0]] + q[1..];
    FilterBoth([q[0]], q[1..], only);
  }

  lemma NoTilesIn(q: Queue, p: nat, only: Message -> bool)
    requires p < |q| && IsTile(q[p]) && SkipsTiles(only)
    ensures Filter(Without(q, p), only) == Filter(q, only)
  {
    hide Filter, Without;
    assert !only(q[p]);
    FilterWithout(q, p, only);
  }

  lemma LeftBehind(others: Queue, first: Message, only: Message -> bool)
    requires IsPlainTile(first) && SkipsTiles(only)
    ensures Filter([first] + Filter(others, CombinesWith(first.body.tile)), only) == []
    ensures Filter(Filter(others, StaysBehind(first.body.tile)), only) == Filter(others, only)
  {
    var taken := Filter(others, CombinesWith(first.body.tile));
    hide Filter, CanCombine;
    FilterTwice(others, StaysBehind(first.body.tile), only);
    var all := [first] + taken;
    forall i | 0 <= i < |all| ensures !only(all[i]) {
      assert i > 0 ==> all[i] in taken;
    }
    FilterNone(all, only);
  }

  lemma RotatedFilter(q: Queue, only: Message -> bool)
    requires SkipsTiles(only)
    ensures Filter(Rotated(q), only) == Filter(q, only)
  {
    var r := LeadingPreviews(q);
    hide Filter, LeadingPreviews;
    assert q == q[..r] + q[r..];
    FilterNone(q[..r], only);
    FilterBoth(q[..r], q[r..], only);
    FilterBoth(q[r..], q[..r], only);
    assert [] + Filter(q[r..], only) == Filter(q[r..], only) + [];
  }

  /** A get brings every message other than a tile nearer to the front, or hands it out. */
  lemma GetMovesUp(q: Queue, cursors: Cursors, order: seq<ViewId>, k: nat) returns (l: nat)
    requires k < |q| && Known(order, cursors) && !IsTile(q[k])
    ensures var g := GetFrom(q, cursors, order);
            if k == 0 then g.taken == [q[0]] else l < k && l < |g.rest| && g.rest[l] == q[k]
  {
    hide Filter, Priority, Choice, IsFirstChoice, Rotated, Without;
    l := 0;
    if k > 0 {
      if IsPlainTile(q[0]) {
        var p := GetPlain(q, cursors, order);
        l := PassedTiles(q, p, k);
        l := FilterIndex(Without(q, p), StaysBehind(q[p].body.tile), l);
      } else if IsPreview(q[0]) {
        l := RotatedIndex(q[1..], k - 1);
      } else {
        l := k - 1;
      }
    }
  }

  lemma PassedTiles(q: Queue, p: nat, k: nat) returns (l: nat)
    requires p < LeadingTiles(q) && k < |q| && !IsTile(q[k])
    ensures l < k && l < |Without(q, p)| && Without(q, p)[l] == q[k]
  {
    TileAhead(q, p, k);
    hide *;
    l := WithoutIndex(q, p, k);
  }

  lemma TileAhead(q: Queue, p: nat, k: nat)
    requires p < LeadingTiles(q) && k < |q| && !IsTile(q[k])
    ensures p < k
  {
  }

  lemma RotatedIndex(q: Queue, k: nat) returns (l: nat)
    requires k < |q| && !IsTile(q[k])
    ensures l <= k && l < |Rotated(q)| && Rotated(q)[l] == q[k]
  {
    l := k - LeadingPreviews(q);
  }

  /** After a preview comes the first message that is none, if there is one, and the previews that
      were in front of it are last, in their order. */
  lemma PreviewsYield(q: Queue, cursors: Cursors, order: seq<ViewId>, k: nat)
    requires k < |q| && Known(order, cursors) && !IsPreview(q[k]) && k > 0
    requires forall i :: 0 <= i < k ==> IsPreview(q[i])
    ensures GetFrom(q, cursors, order) == Got([q[0]], q[k..] + q[1..k])
  {
    LeadingAre(q[1..], k - 1);
    hide LeadingPreviews, Choice, Filter, LeadingTiles;
    assert q[1..][k - 1..] == q[k..] && q[1..][..k - 1] == q[1..k];
  }

  lemma LeadingAre(q: Queue, k: nat)
    requires k < |q| && !IsPreview(q[k]) && forall i :: 0 <= i < k ==> IsPreview(q[i])
    ensures LeadingPreviews(q) == k
  {
  }

  // ----- what a put does to the messages that wait -----

  /** The walk of an invalidation takes the message in a place out of the queue, because the
      rectangle as it has grown by then covers it or is joined with it. */
  predicate Absorbed(q: Queue, target: string, a: Area, k: nat)
    requires k < |q|
  {
    var gone := Invalidates(q[0], target, a.part) && (Covers(a, q[0].body.area) || CanJoin(a, q[0].body.area));
    if k == 0 then gone
    else Absorbed(q[1..], target, if gone && !Covers(a, q[0].body.area) then Joined(a, q[0].body.area) else a, k - 1)
  }

  /** The message in a place, unless it is a tile request, is superseded by one that is put. */
  predicate Supersedes(m: Message, q: Queue, k: nat)
    requires k < |q|
  {
    match m.body
    case Update(key) => FirstOf(q, AboutSame(key)) == k
    case Invalidation(target, a) => Absorbed(q, target, a, k)
    case _ => false
  }

  /** Only what the rectangle that is put instead covers is absorbed. */
  lemma {:induction false} AbsorbedIsCovered(q: Queue, target: string, a: Area, performed: bool, k: nat)
    requires k < |q|
    ensures Absorbed(q, target, a, k) ==>
              Invalidates(q[k], target, a.part) && Covers(Merge(q, target, a, performed).area, q[k].body.area)
    decreases |q|
  {
    MergeGrows(q, target, a, performed);
    if Invalidates(q[0], target, a.part) && Covers(a, q[0].body.area) {
      if k > 0 {
        AbsorbedIsCovered(q[1..], target, a, performed, k - 1);
      }
    } else if Invalidates(q[0], target, a.part) && CanJoin(a, q[0].body.area) {
      MergeGrows(q[1..], target, Joined(a, q[0].body.area), true);
      if k > 0 {
        AbsorbedIsCovered(q[1..], target, Joined(a, q[0].body.area), true, k - 1);
      }
    } else if k > 0 {
      AbsorbedIsCovered(q[1..], target, a, performed, k - 1);
    }
  }

  lemma {:induction false} MergeGrows(q: Queue, target: string, a: Area, performed: bool)
    ensures Covers(Merge(q, target, a, performed).area, a)
    decreases |q|
  {
    if q != [] {
      MergeGrows(q[1..], target, a, performed);
      if Invalidates(q[0], target, a.part) && CanJoin(a, q[0].body.area) {
        MergeGrows(q[1..], target, Joined(a, q[0].body.area), true);
      }
    }
  }

  lemma WithoutIndex(q: Queue, j: nat, k: nat) returns (l: nat)
    requires k < |q| && k != j
    ensures l == (if j < k then k - 1 else k) && l < |Without(q, j)| && Without(q, j)[l] == q[k]
  {
    l := if j < k then k - 1 else k;
  }

  lemma {:induction false} MergeIndex(q: Queue, target: string, a: Area, performed: bool, k: nat) returns (l: nat)
    requires k < |q| && !Absorbed(q, target, a, k)
    ensures l <= k && l < |Merge(q, target, a, performed).queue| && Merge(q, target, a, performed).queue[l] == q[k]
    decreases |q|
  {
    if Invalidates(q[0], target, a.part) && Covers(a, q[0].body.area) {
      l := MergeIndex(q[1..], target, a, performed, k - 1);
    } else if Invalidates(q[0], target, a.part) && CanJoin(a, q[0].body.area) {
      l := MergeIndex(q[1..], target, Joined(a, q[0].body.area), true, k - 1);
    } else if k == 0 {
      l := 0;
    } else {
      l := MergeIndex(q[1..], target, a, performed, k - 1);
      l := l + 1;
    }
  }

  /** A put moves no message other than a tile back, and removes it only if it supersedes it. */
  lemma PutMovesUp(q: Queue, m: Message, k: nat) returns (l: nat)
    requires k < |q| && !IsTile(q[k]) && !Supersedes(m, q, k)
    ensures l <= k && l < |PutMessage(q, m)| && PutMessage(q, m)[l] == q[k]
  {
    match m.body {
      case TileRequest(t) => l := WithoutIndex(q, FirstOf(q, DuplicateOf(t)), k);
      case Invalidation(target, a) => l := MergeIndex(q, target, a, false, k);
      case Update(key) => l := WithoutIndex(q, FirstOf(q, AboutSame(key)), k);
      case Other => l := k;
    }
  }

  /** A message that is nowhere else in the queue. */
  ghost predicate OnlyAt(q: Queue, k: nat) {
    k < |q| && forall i :: 0 <= i < |q| && i != k ==> q[i] != q[k]
  }

  lemma {:induction false} MergeSubset(q: Queue, target: string, a: Area, performed: bool)
    ensures forall m :: m in Merge(q, target, a, performed).queue ==> m in q
    decreases |q|
  {
    if q != [] {
      assert q == [q[0]] + q[1..];
      if Invalidates(q[0], target, a.part) && Covers(a, q[0].body.area) {
        MergeSubset(q[1..], target, a, performed);
      } else if Invalidates(q[0], target, a.part) && CanJoin(a, q[0].body.area) {
        MergeSubset(q[1..], target, Joined(a, q[0].body.area), true);
      } else {
        MergeSubset(q[1..], target, a, performed);
      }
    }
  }

  lemma {:induction false} AbsorbedIsGone(q: Queue, target: string, a: Area, performed: bool, k: nat)
    requires OnlyAt(q, k) && Absorbed(q, target, a, k)
    ensures q[k] !in Merge(q, target, a, performed).queue
    decreases |q|
  {
    var rest := q[1..];
    if k == 0 {
      MergeSubset(rest, target, a, performed);
      MergeSubset(rest, target, Joined(a, q[0].body.area), true);
    } else {
      assert rest[k - 1] == q[k];
      if Invalidates(q[0], target, a.part) && Covers(a, q[0].body.area) {
        AbsorbedIsGone(rest, target, a, performed, k - 1);
      } else if Invalidates(q[0], target, a.part) && CanJoin(a, q[0].body.area) {
        AbsorbedIsGone(rest, target, Joined(a, q[0].body.area), true, k - 1);
      } else {
        AbsorbedIsGone(rest, target, a, performed, k - 1);
      }
    }
  }

  /** What is superseded is no longer in the queue. */
  lemma SupersededIsGone(q: Queue, m: Message, k: nat)
    requires OnlyAt(q, k) && !IsTile(q[k]) && Supersedes(m, q, k) && m.stamp != q[k].stamp
    ensures q[k] !in PutMessage(q, m)
  {
    match m.body {
      case Invalidation(target, a) => AbsorbedIsGone(q, target, a, false, k);
      case Update(key) => WithoutParts(q, k);
      case _ =>
    }
  }

  lemma {:induction false} PutTilesMovesUp(q: Queue, stamp: nat, tiles: seq<Tile>, k: nat) returns (l: nat)
    requires k < |q| && !IsTile(q[k])
    ensures l <= k && l < |PutTiles(q, stamp, tiles)| && PutTiles(q, stamp, tiles)[l] == q[k]
    decreases |tiles|
  {
    if tiles == [] {
      l := k;
    } else {
      var rest, t := tiles[..|tiles| - 1], tiles[|tiles| - 1];
      var between := PutTilesMovesUp(q, stamp, rest, k);
      l := PutMovesUp(PutTiles(q, stamp, rest), Message(stamp, TileRequest(t)), between);
    }
  }

  // ----- runs -----

  datatype Op =
    | Put(message: Message)
    | PutCombined(stamp: nat, combined: TileCombined)
    | Cancel(versions: seq<string>, found: set<Message>)
    | Get
    | MoveCursor(view: ViewId, cursor: Cursor)
    | DropCursor(view: ViewId)

  datatype State = State(queue: Queue, cursors: Cursors, order: seq<ViewId>)

  type Scheduler = s: State | Known(s.order, s.cursors) witness State([], map[], [])

  /** Erasing a view cuts it out where it is, if it is there. */
  lemma {:induction false} UnseenCut(order: seq<ViewId>, v: ViewId) returns (i: nat)
    ensures i <= |order| && v !in order[..i] && (i < |order| ==> order[i] == v)
    ensures Unseen(order, v) == if i < |order| then order[..i] + order[i + 1..] else order
  {
    i := 0;
    while i < |order| && order[i] != v
      invariant i <= |order| && v !in order[..i]
    {
      i := i + 1;
    }
    UnseenAt(order, v, i);
  }

  lemma UnseenOnce(order: seq<ViewId>, v: ViewId)
    requires NoneTwice(order)
    ensures NoneTwice(Unseen(order, v)) && forall u :: u in Unseen(order, v) <==> u in order && u != v
  {
    var i := UnseenCut(order, v);
    hide Unseen;
    if i < |order| {
      assert order == order[..i] + [v] + order[i + 1..];
    }
  }

  /** What is taken by a get; nothing by anything else, or if there is nothing. */
  function Taken(s: Scheduler, op: Op): Queue {
    if op.Get? && s.queue != [] then GetFrom(s.queue, s.cursors, s.order).taken else []
  }

  function QueueAfter(s: Scheduler, op: Op): Queue {
    match op
    case Put(m) => PutMessage(s.queue, m)
    case PutCombined(stamp, c) => PutTiles(s.queue, stamp, c.tiles)
    case Cancel(versions, found) => CancelTiles(s.queue, versions, found)
    case Get => if s.queue != [] then GetFrom(s.queue, s.cursors, s.order).rest else []
    case _ => s.queue
  }

  function OrderAfter(order: seq<ViewId>, op: Op): seq<ViewId> {
    match op
    case MoveCursor(v, c) => Unseen(order, v) + [v]
    case DropCursor(v) => Unseen(order, v)
    case _ => order
  }

  function CursorsAfter(cursors: Cursors, op: Op): Cursors {
    match op
    case MoveCursor(v, c) => cursors[v := c]
    case DropCursor(v) => cursors - {v}
    case _ => cursors
  }

  /** The views ordered by their last cursor moves. */
  function OrderOf(ops: seq<Op>): seq<ViewId> {
    if ops == [] then [] else OrderAfter(OrderOf(ops[..|ops| - 1]), ops[|ops| - 1])
  }

  function CursorsOf(ops: seq<Op>): Cursors {
    if ops == [] then map[] else CursorsAfter(CursorsOf(ops[..|ops| - 1]), ops[|ops| - 1])
  }

  // ----- the order of the views -----

  /** Where in a run a view last moved its cursor; |ops| if it did not, or was dropped since. */
  function LastMove(ops: seq<Op>, v: ViewId): (r: nat)
    ensures r <= |ops|
    ensures r < |ops| ==> ops[r].MoveCursor? && ops[r].view == v
  {
    if ops == [] then 0
    else
      var n := |ops| - 1;
      if ops[n] == DropCursor(v) then |ops|
      else if ops[n].MoveCursor? && ops[n].view == v then n
      else
        var r := LastMove(ops[..n], v);
        if r == n then |ops| else r
  }

  predicate HasMoved(ops: seq<Op>, v: ViewId) {
    LastMove(ops, v) < |ops|
  }

  ghost predicate Ranked(ops: seq<Op>, order: seq<ViewId>) {
    forall i, j :: 0 <= i < j < |order| ==> LastMove(ops, order[i]) < LastMove(ops, order[j])
  }

  predicate CursorIs(ops: seq<Op>, cursors: Cursors, v: ViewId) {
    HasMoved(ops, v) && v in cursors && cursors[v] == ops[LastMove(ops, v)].cursor
  }

  /** The views are those that have a cursor, once each, in the order of their last moves, and
      their cursors are where they moved last. */
  ghost predicate InMoveOrder(ops: seq<Op>, order: seq<ViewId>, cursors: Cursors) {
    && NoneTwice(order) && Ranked(ops, order)
    && (forall v :: v in order <==> HasMoved(ops, v))
    && (forall v :: v in cursors <==> v in order)
    && (forall v :: v in order ==> CursorIs(ops, cursors, v))
  }

  lemma OneMoreOp(ops: seq<Op>, op: Op, v: ViewId)
    ensures LastMove(ops + [op], v) ==
            if op == DropCursor(v) then |ops| + 1
            else if op.MoveCursor? && op.view == v then |ops|
            else if HasMoved(ops, v) then LastMove(ops, v)
            else |ops| + 1
  {
    assert (ops + [op])[..|ops|] == ops;
  }

  lemma RankedCut(ops: seq<Op>, order: seq<ViewId>, v: ViewId)
    requires Ranked(ops, order)
    ensures Ranked(ops, Unseen(order, v))
  {
    var k := UnseenCut(order, v);
    hide LastMove, Unseen;
  }

  lemma RankedAfter(ops: seq<Op>, op: Op, order: seq<ViewId>)
    requires NoneTwice(order) && Ranked(ops, order) && forall v :: v in order ==> HasMoved(ops, v)
    ensures Ranked(ops + [op], OrderAfter(order, op))
  {
    hide LastMove, Ranked, HasMoved, NoneTwice;
    if op.MoveCursor? || op.DropCursor? {
      UnseenOnce(order, op.view);
      RankedCut(ops, order, op.view);
      hide Unseen;
      var rest := Unseen(order, op.view);
      RankedRest(ops, op, rest);
      if op.MoveCursor? {
        RankedLast(ops, op, rest);
      }
    } else {
      RankedRest(ops, op, order);
    }
  }

  /** Views that moved before stay as they were ranked. */
  lemma RankedRest(ops: seq<Op>, op: Op, rest: seq<ViewId>)
    requires Ranked(ops, rest) && (forall v :: v in rest ==> HasMoved(ops, v))
    requires op.MoveCursor? || op.DropCursor? ==> op.view !in rest
    ensures Ranked(ops + [op], rest)
    ensures forall i :: 0 <= i < |rest| ==> LastMove(ops + [op], rest[i]) == LastMove(ops, rest[i]) < |ops|
  {
    hide LastMove;
    forall i | 0 <= i < |rest| ensures LastMove(ops + [op], rest[i]) == LastMove(ops, rest[i]) < |ops| {
      assert rest[i] in rest;
      OneMoreOp(ops, op, rest[i]);
      assert HasMoved(ops, rest[i]);
    }
  }

  lemma RankedLast(ops: seq<Op>, op: Op, rest: seq<ViewId>)
    requires Ranked(ops + [op], rest) && op.MoveCursor?
    requires forall i :: 0 <= i < |rest| ==> LastMove(ops + [op], rest[i]) < |ops|
    ensures Ranked(ops + [op], rest + [op.view])
  {
    OneMoreOp(ops, op, op.view);
    hide LastMove;
  }

  /** Which views there are. */
  lemma ViewsAfter(ops: seq<Op>, op: Op, order: seq<ViewId>, cursors: Cursors, v: ViewId)
    requires InMoveOrder(ops, order, cursors)
    ensures v in OrderAfter(order, op) <==> HasMoved(ops + [op], v)
    ensures v in CursorsAfter(cursors, op) <==> v in OrderAfter(order, op)
    ensures v in OrderAfter(order, op) ==> CursorIs(ops + [op], CursorsAfter(cursors, op), v)
  {
    OneMoreOp(ops, op, v);
    hide LastMove, Ranked;
    if op.MoveCursor? || op.DropCursor? {
      UnseenOnce(order, op.view);
    }
    hide Unseen, NoneTwice;
    assert v in order ==> CursorIs(ops, cursors, v);
  }

  /** After any run, the views that a priority is looked up in are in the order of their last moves. */
  lemma {:induction false} ViewsInMoveOrder(ops: seq<Op>)
    ensures InMoveOrder(ops, OrderOf(ops), CursorsOf(ops))
  {
    if ops != [] {
      var n := |ops| - 1;
      var before, order, cursors, op := ops[..n], OrderOf(ops[..n]), CursorsOf(ops[..n]), ops[n];
      ViewsInMoveOrder(before);
      assert ops == before + [op];
      MoveOrderStep(before, op, order, cursors);
    }
  }

  lemma MoveOrderStep(ops: seq<Op>, op: Op, order: seq<ViewId>, cursors: Cursors)
    requires InMoveOrder(ops, order, cursors)
    ensures InMoveOrder(ops + [op], OrderAfter(order, op), CursorsAfter(cursors, op))
  {
    RankedAfter(ops, op, order);
    forall v {
      ViewsAfter(ops, op, order, cursors, v);
    }
    assert NoneTwice(OrderAfter(order, op)) by {
      if op.MoveCursor? || op.DropCursor? {
        UnseenOnce(order, op.view);
        if op.MoveCursor? {
          NoneTwiceMore(Unseen(order, op.view), op.view);
        }
      }
    }
    hide *;
    MoveOrderParts(ops + [op], OrderAfter(order, op), CursorsAfter(cursors, op));
  }

  lemma MoveOrderParts(ops: seq<Op>, order: seq<ViewId>, cursors: Cursors)
    requires NoneTwice(order) && Ranked(ops, order)
    requires forall v :: v in order <==> HasMoved(ops, v)
    requires forall v :: v in cursors <==> v in order
    requires forall v :: v in order ==> CursorIs(ops, cursors, v)
    ensures InMoveOrder(ops, order, cursors)
  {
  }

  // ----- whole runs -----

  lemma {:induction false} ViewsOf(ops: seq<Op>)
    ensures Known(OrderOf(ops), CursorsOf(ops))
  {
    ViewsInMoveOrder(ops);
    hide InMoveOrder, NoneTwice, Ranked;
    InMoveOrderKnown(ops);
  }

  lemma InMoveOrderKnown(ops: seq<Op>)
    requires InMoveOrder(ops, OrderOf(ops), CursorsOf(ops))
    ensures Known(OrderOf(ops), CursorsOf(ops))
  {
    ViewsKnown(OrderOf(ops), CursorsOf(ops));
  }

  /** The state after a run from an empty queue. */
  function After(ops: seq<Op>): Scheduler
    decreases ops, 1
  {
    ViewsOf(ops);
    State(QueueOf(ops), CursorsOf(ops), OrderOf(ops))
  }

  function QueueOf(ops: seq<Op>): Queue
    decreases ops, 0
  {
    if ops == [] then [] else QueueAfter(After(ops[..|ops| - 1]), ops[|ops| - 1])
  }

  /** What the gets of a run took, one after another. */
  function TakenBy(ops: seq<Op>): Queue {
    if ops == [] then [] else TakenBy(ops[..|ops| - 1]) + Taken(After(ops[..|ops| - 1]), ops[|ops| - 1])
  }

  function Gets(ops: seq<Op>): nat {
    if ops == [] then 0 else Gets(ops[..|ops| - 1]) + if ops[|ops| - 1].Get? then 1 else 0
  }

  /** One operation on the queue. */
  method Perform(queue: TileQueue, op: Op, ghost s: Scheduler) returns (ghost taken: Queue)
    requires queue.Valid() && s == State(queue.queue, queue.cursorPositions, queue.viewOrder)
    modifies queue
    ensures queue.Valid() && taken == Taken(s, op)
    ensures queue.queue == QueueAfter(s, op)
    ensures queue.cursorPositions == CursorsAfter(s.cursors, op) && queue.viewOrder == OrderAfter(s.order, op)
  {
    hide PutMessage, PutTiles, CancelTiles, GetFrom, Unseen, NoneTwice, IsPayload;
    taken := [];
    match op {
      case Put(m) => queue.Put(m);
      case PutCombined(stamp, c) => queue.PutCombined(stamp, c);
      case Cancel(versions, found) => queue.PutCancelTiles(versions, found);
      case Get =>
        if queue.queue != [] {
          var payload;
          payload, taken := queue.Get();
        }
      case MoveCursor(v, c) => queue.UpdateCursorPosition(v, c.part, c.x, c.y, c.width, c.height);
      case DropCursor(v) => queue.RemoveCursorPosition(v);
    }
  }

  /** Any run of the queue is the run that the theorems are about. */
  method RunAll(ops: seq<Op>) returns (queue: TileQueue, ghost taken: Queue)
    ensures queue.Valid() && fresh(queue)
    ensures queue.queue == QueueOf(ops) && taken == TakenBy(ops)
    ensures queue.cursorPositions == CursorsOf(ops) && queue.viewOrder == OrderOf(ops)
  {
    hide QueueAfter, Taken, CursorsAfter, OrderAfter, InMoveOrder, Known;
    queue := new TileQueue();
    taken := [];
    for n := 0 to |ops|
      invariant queue.Valid() && fresh(queue)
      invariant queue.queue == QueueOf(ops[..n]) && taken == TakenBy(ops[..n])
      invariant queue.cursorPositions == CursorsOf(ops[..n]) && queue.viewOrder == OrderOf(ops[..n])
    {
      assert ops[..n + 1][..n] == ops[..n];
      var now := Perform(queue, ops[n], After(ops[..n]));
      taken := taken + now;
    }
    assert ops[..|ops|] == ops;
  }
}
