/** The queue of messages to the kit, which is also what schedules the rendering of tiles:
    common/MessageQueue.cpp and common/MessageQueue.hpp. */
module TileQueues {
  import opened Basics
  import opened Tiles
  import opened TileText
  import opened InvalidationText

  // ----- messages -----

  /** What an update callback is about: a later one with the same key makes it obsolete. */
  datatype Key =
    | StateOf(target: string, command: string)
    | StatusOf(target: string, kind: nat)
    | ViewStatusOf(target: string, kind: nat, view: string)

  datatype Body =
    | TileRequest(tile: Tile)
    | Invalidation(target: string, area: Area)
    | Update(key: Key)
    | Other

  /** The stamp stands for the rest of a message, which is never looked at. */
  datatype Message = Message(stamp: nat, body: Body)

  type Queue = seq<Message>

  predicate IsTile(m: Message) {
    m.body.TileRequest?
  }

  /** A tile with an id, as they are requested for thumbnails. */
  predicate IsPreview(m: Message) {
    IsTile(m) && m.body.tile.id >= 0
  }

  predicate IsPlainTile(m: Message) {
    IsTile(m) && m.body.tile.id < 0
  }

  // ----- sequences with elements left out -----

  function Filter(q: Queue, keep: Message -> bool): (r: Queue)
    ensures |r| <= |q|
    ensures forall m :: m in r <==> m in q && keep(m)
  {
    if q == [] then [] else Filter(q[..|q| - 1], keep) + if keep(q[|q| - 1]) then [q[|q| - 1]] else []
  }

  function FirstOf(q: Queue, p: Message -> bool): (r: nat)
    ensures r <= |q| && (r < |q| ==> p(q[r])) && forall i :: 0 <= i < r ==> !p(q[i])
  {
    if q == [] || p(q[0]) then 0 else 1 + FirstOf(q[1..], p)
  }

  function Without(q: Queue, k: nat): Queue {
    if k < |q| then q[..k] + q[k + 1..] else q
  }

  /** The queue without the first message of a kind, if there is one. */
  function RemoveFirst(q: Queue, p: Message -> bool): Queue {
    Without(q, FirstOf(q, p))
  }

  lemma FirstIs(q: Queue, p: Message -> bool, k: nat)
    requires k <= |q| && (forall i :: 0 <= i < k ==> !p(q[i])) && (k < |q| ==> p(q[k]))
    ensures FirstOf(q, p) == k
  {
  }

  // ----- putting -----

  /** A rectangle wholly in another. */
  predicate Covers(a: Area, b: Area) {
    a.x <= b.x && b.x + b.w <= a.x + a.w && a.y <= b.y && b.y + b.h <= a.y + a.h
  }

  const REASONABLE_SIZE_X := 4 * 3840
  const REASONABLE_SIZE_Y := 2 * 3840

  function Min(a: int, b: int): int {
    if b < a then b else a
  }

  function Max(a: int, b: int): int {
    if a < b then b else a
  }

  function Joined(a: Area, b: Area): Area {
    var x, y := Min(a.x, b.x), Min(a.y, b.y);
    Area(x, y, Max(a.x + a.w, b.x + b.w) - x, Max(a.y + a.h, b.y + b.h) - y, a.part)
  }

  predicate CanJoin(a: Area, b: Area) {
    && RectanglesIntersect(a.x, a.y, a.w, a.h, b.x, b.y, b.w, b.h)
    && Joined(a, b).w <= REASONABLE_SIZE_X && Joined(a, b).h <= REASONABLE_SIZE_Y
  }

  predicate Invalidates(m: Message, target: string, part: int) {
    m.body.Invalidation? && m.body.target == target && m.body.area.part == part
  }

  datatype Merged = Merged(queue: Queue, area: Area, performed: bool)

  /** What an invalidation leaves of the queue, and what it grows to. */
  function Merge(q: Queue, target: string, a: Area, performed: bool): Merged {
    if q == [] then Merged([], a, performed)
    else if Invalidates(q[0], target, a.part) && Covers(a, q[0].body.area) then Merge(q[1..], target, a, performed)
    else if Invalidates(q[0], target, a.part) && CanJoin(a, q[0].body.area) then
      Merge(q[1..], target, Joined(a, q[0].body.area), true)
    else var rest := Merge(q[1..], target, a, performed); rest.(queue := [q[0]] + rest.queue)
  }

  /** What a tile request supersedes. */
  function DuplicateOf(t: Tile): Message -> bool {
    (m: Message) => IsTile(m) && SameRequest(t, m.body.tile)
  }

  /** What an update makes obsolete. */
  function AboutSame(key: Key): Message -> bool {
    (m: Message) => m.body == Update(key)
  }

  function PutTile(q: Queue, stamp: nat, t: Tile): Queue {
    RemoveFirst(q, DuplicateOf(t)) + [Message(stamp, TileRequest(t))]
  }

  function PutTiles(q: Queue, stamp: nat, tiles: seq<Tile>): Queue {
    if tiles == [] then q else PutTile(PutTiles(q, stamp, tiles[..|tiles| - 1]), stamp, tiles[|tiles| - 1])
  }

  function PutMessage(q: Queue, m: Message): Queue {
    match m.body
    case TileRequest(t) => PutTile(q, m.stamp, t)
    case Invalidation(target, a) =>
      var merged := Merge(q, target, a, false);
      merged.queue + [Message(m.stamp, Invalidation(target, merged.area))]
    case Update(key) => RemoveFirst(q, AboutSame(key)) + [m]
    case Other => q + [m]
  }

  /** What a canceltiles message leaves: found are the messages, other than tile requests, in
      whose text it finds one of the versions and no id. */
  predicate IsCancelled(m: Message, versions: seq<string>, found: set<Message>) {
    if IsTile(m) then Cancelled(Serialize(m.body.tile), versions) else m in found
  }

  function NotCancelled(versions: seq<string>, found: set<Message>): Message -> bool {
    (m: Message) => !IsCancelled(m, versions, found)
  }

  function CancelTiles(q: Queue, versions: seq<string>, found: set<Message>): Queue {
    Filter(q, NotCancelled(versions, found))
  }

  // ----- cursors -----

  type ViewId = int

  datatype Cursor = Cursor(part: int, x: int, y: int, width: int, height: int)

  type Cursors = map<ViewId, Cursor>

  predicate Known(order: seq<ViewId>, cursors: Cursors) {
    forall i :: 0 <= i < |order| ==> order[i] in cursors
  }

  predicate AtCursor(t: Tile, c: Cursor) {
    RectanglesIntersect(t.x, t.y, t.tileWidth, t.tileHeight, c.x, c.y, c.width, c.height)
  }

  /** The place of the latest of the first views that has its cursor at a tile, or -1. */
  function PriorityAmong(t: Tile, cursors: Cursors, order: seq<ViewId>, n: nat): (r: int)
    requires n <= |order| && Known(order, cursors)
    ensures -1 <= r < n
    ensures r >= 0 ==> AtCursor(t, cursors[order[r]])
    ensures forall i :: r < i < n ==> !AtCursor(t, cursors[order[i]])
  {
    if n == 0 then -1
    else if AtCursor(t, cursors[order[n - 1]]) then n - 1
    else PriorityAmong(t, cursors, order, n - 1)
  }

  function Priority(t: Tile, cursors: Cursors, order: seq<ViewId>): (r: int)
    requires Known(order, cursors)
    ensures -1 <= r < |order|
  {
    PriorityAmong(t, cursors, order, |order|)
  }

  // ----- getting -----

  function LeadingPreviews(q: Queue): (r: nat)
    ensures r <= |q| && forall i :: 0 <= i < r ==> IsPreview(q[i])
    ensures r < |q| ==> !IsPreview(q[r])
  {
    if q == [] || !IsPreview(q[0]) then 0 else 1 + LeadingPreviews(q[1..])
  }

  /** Previews at the front go to the back. */
  function Rotated(q: Queue): Queue {
    q[LeadingPreviews(q)..] + q[..LeadingPreviews(q)]
  }

  function LeadingTiles(q: Queue): (r: nat)
    ensures r <= |q| && forall i :: 0 <= i < r ==> IsPlainTile(q[i])
    ensures r < |q| ==> !IsPlainTile(q[r])
  {
    if q == [] || !IsPlainTile(q[0]) then 0 else 1 + LeadingTiles(q[1..])
  }

  /** The earliest of the first tiles that none of them surpasses. */
  ghost predicate IsFirstChoice(q: Queue, n: nat, cursors: Cursors, order: seq<ViewId>, p: nat)
    requires n <= LeadingTiles(q) && Known(order, cursors)
  {
    && p < n
    && (forall i :: 0 <= i < n ==> Priority(q[i].body.tile, cursors, order) <= Priority(q[p].body.tile, cursors, order))
    && (forall i :: 0 <= i < p ==> Priority(q[i].body.tile, cursors, order) < Priority(q[p].body.tile, cursors, order))
  }

  function Choice(q: Queue, n: nat, cursors: Cursors, order: seq<ViewId>): (p: nat)
    requires 0 < n <= LeadingTiles(q) && Known(order, cursors)
    ensures IsFirstChoice(q, n, cursors, order, p)
  {
    if n == 1 then 0
    else
      var p := Choice(q, n - 1, cursors, order);
      if Priority(q[n - 1].body.tile, cursors, order) > Priority(q[p].body.tile, cursors, order) then n - 1 else p
  }

  /** There is only one such tile. */
  lemma FirstChoiceIs(q: Queue, n: nat, cursors: Cursors, order: seq<ViewId>, p: nat)
    requires 0 < n <= LeadingTiles(q) && Known(order, cursors) && IsFirstChoice(q, n, cursors, order, p)
    ensures p == Choice(q, n, cursors, order)
  {
    var c := Choice(q, n, cursors, order);
    assert IsFirstChoice(q, n, cursors, order, c);
  }

  predicate Combines(first: Tile, m: Message) {
    IsPlainTile(m) && CanCombine(first, m.body.tile)
  }

  function CombinesWith(first: Tile): Message -> bool {
    (m: Message) => Combines(first, m)
  }

  function StaysBehind(first: Tile): Message -> bool {
    (m: Message) => !Combines(first, m)
  }

  datatype Got = Got(taken: Queue, rest: Queue)

  /** What is taken from a queue that is not empty, and what is left. */
  function GetFrom(q: Queue, cursors: Cursors, order: seq<ViewId>): (g: Got)
    requires q != [] && Known(order, cursors)
    ensures g.taken != []
  {
    if !IsPlainTile(q[0]) then Got([q[0]], if IsPreview(q[0]) then Rotated(q[1..]) else q[1..])
    else
      var p := Choice(q, LeadingTiles(q), cursors, order);
      var others := Without(q, p);
      var first := q[p].body.tile;
      Got([q[p]] + Filter(others, CombinesWith(first)), Filter(others, StaysBehind(first)))
  }

  /** What is handed out for the messages taken. */
  datatype Payload = Single(message: Message) | Combined(tiles: TileCombined)

  ghost predicate IsPayload(payload: Payload, taken: Queue) {
    taken != [] &&
    if |taken| == 1 then payload == Single(taken[0])
    else (forall i :: 0 <= i < |taken| ==> IsTile(taken[i])) &&
         payload ==
           Combined(Create(seq(|taken|, i requires 0 <= i < |taken| && IsTile(taken[i]) => taken[i].body.tile)))
  }

  // ----- the loops -----

  lemma FilterMore(q: Queue, i: nat, keep: Message -> bool)
    requires i < |q|
    ensures Filter(q[..i + 1], keep) == Filter(q[..i], keep) + if keep(q[i]) then [q[i]] else []
  {
    assert q[..i + 1][..i] == q[..i];
  }

  lemma FilterAll(q: Queue, keep: Message -> bool)
    ensures Filter(q[..|q|], keep) == Filter(q, keep)
  {
    assert q[..|q|] == q;
  }

  /** While messages are erased during a walk: those kept so far, and those still ahead. */
  ghost predicate Erasing(now: Queue, was: Queue, n: nat, i: nat, keep: Message -> bool) {
    n <= |was| && now == Filter(was[..n], keep) + was[n..] && i == |Filter(was[..n], keep)|
  }

  lemma ErasingStart(q: Queue, keep: Message -> bool)
    ensures Erasing(q, q, 0, 0, keep)
  {
    assert q[0..] == q && q[..0] == [];
  }

  lemma ErasingStep(now: Queue, was: Queue, n: nat, i: nat, keep: Message -> bool)
    requires Erasing(now, was, n, i, keep) && i < |now|
    ensures n < |was| && now[i] == was[n]
    ensures if keep(now[i]) then Erasing(now, was, n + 1, i + 1, keep)
            else Erasing(now[..i] + now[i + 1..], was, n + 1, i, keep)
  {
    FilterMore(was, n, keep);
    hide Filter;
    ghost var done, ahead := Filter(was[..n], keep), was[n..];
    assert ahead == [was[n]] + was[n + 1..];
    assert now[i] == ahead[0];
    if keep(now[i]) {
      assert now == (done + [was[n]]) + was[n + 1..];
    } else {
      assert now[..i] + now[i + 1..] == done + was[n + 1..];
    }
  }

  lemma ErasingEnd(now: Queue, was: Queue, n: nat, i: nat, keep: Message -> bool)
    requires Erasing(now, was, n, i, keep) && i >= |now|
    ensures n == |was| && now == Filter(was, keep)
  {
    FilterAll(was, keep);
  }

  /** While an invalidation is merged during a walk. */
  ghost predicate Merging(now: Queue, was: Queue, i: nat, target: string, first: Area, a: Area, performed: bool) {
    && i <= |now|
    && Merge(was, target, first, false) == Merged(now[..i] + Merge(now[i..], target, a, performed).queue,
                                                 Merge(now[i..], target, a, performed).area,
                                                 Merge(now[i..], target, a, performed).performed)
  }

  lemma MergingStart(q: Queue, target: string, a: Area)
    ensures Merging(q, q, 0, target, a, a, false)
  {
    assert q[0..] == q;
    assert q[..0] + Merge(q, target, a, false).queue == Merge(q, target, a, false).queue;
  }

  /** A message that stays. */
  lemma MergingKeep(now: Queue, was: Queue, i: nat, target: string, first: Area, a: Area, performed: bool)
    requires Merging(now, was, i, target, first, a, performed) && i < |now|
    requires Invalidates(now[i], target, a.part) ==> !Covers(a, now[i].body.area) && !CanJoin(a, now[i].body.area)
    ensures Merging(now, was, i + 1, target, first, a, performed)
  {
    assert now[i..][1..] == now[i + 1..] && now[i..][0] == now[i];
    ghost var rest := Merge(now[i + 1..], target, a, performed);
    assert Merge(now[i..], target, a, performed) == rest.(queue := [now[i]] + rest.queue);
    hide Merge;
    assert now[..i] + ([now[i]] + rest.queue) == now[..i + 1] + rest.queue;
  }

  /** A message that goes. */
  lemma MergingDrop(now: Queue, was: Queue, i: nat, target: string, first: Area, a: Area, performed: bool)
    requires Merging(now, was, i, target, first, a, performed) && i < |now| && Invalidates(now[i], target, a.part)
    requires Covers(a, now[i].body.area) || CanJoin(a, now[i].body.area)
    ensures if Covers(a, now[i].body.area) then Merging(now[..i] + now[i + 1..], was, i, target, first, a, performed)
            else Merging(now[..i] + now[i + 1..], was, i, target, first, Joined(a, now[i].body.area), true)
  {
    assert now[i..][1..] == now[i + 1..] && now[i..][0] == now[i];
    ghost var after := now[..i] + now[i + 1..];
    assert after[i..] == now[i + 1..] && after[..i] == now[..i];
  }

  lemma MergingEnd(now: Queue, was: Queue, i: nat, target: string, first: Area, a: Area, performed: bool)
    requires Merging(now, was, i, target, first, a, performed) && i >= |now|
    ensures Merge(was, target, first, false) == Merged(now, a, performed)
  {
    assert now[..i] == now && now[i..] == [];
    assert now + [] == now;
  }

  // ----- the queue -----

  ghost predicate NoneTwice(order: seq<ViewId>) {
    forall i, j :: 0 <= i < j < |order| ==> order[i] != order[j]
  }

  class TileQueue {
    var queue: Queue
    var cursorPositions: Cursors
    var viewOrder: seq<ViewId>

    ghost predicate Valid()
      reads this
    {
      NoneTwice(viewOrder) && forall v :: v in viewOrder <==> v in cursorPositions
    }

    constructor ()
      ensures Valid() && queue == [] && cursorPositions == map[] && viewOrder == []
    {
      queue, cursorPositions, viewOrder := [], map[], [];
    }

    /** common/MessageQueue.cpp:102-127. */
    method RemoveTileDuplicate(t: Tile)
      modifies this`queue
      ensures queue == RemoveFirst(old(queue), DuplicateOf(t))
    {
      var i := 0;
      while i < |queue|
        invariant i <= |queue| && queue == old(queue)
        invariant forall k :: 0 <= k < i ==> !DuplicateOf(t)(queue[k])
      {
        if IsTile(queue[i]) && SameRequest(t, queue[i].body.tile) {
          FirstIs(queue, DuplicateOf(t), i);
          queue := queue[..i] + queue[i + 1..];
          return;
        }
        i := i + 1;
      }
      FirstIs(queue, DuplicateOf(t), i);
    }

    /** common/MessageQueue.cpp:202-306: an invalidation is merged with those in the queue. */
    method MergeInvalidation(target: string, msg: Area) returns (result: Option<Area>)
      modifies this`queue
      ensures var merged := Merge(old(queue), target, msg, false);
              && queue == merged.queue
              && result == if merged.performed then Some(merged.area) else None
    {
      hide Merge, Merging;
      var performedMerge, a := false, msg;
      var i := 0;
      MergingStart(queue, target, msg);
      while i < |queue|
        invariant a.part == msg.part
        invariant Merging(queue, old(queue), i, target, msg, a, performedMerge)
        decreases |queue| - i
      {
        var it := queue[i];
        if !Invalidates(it, target, msg.part) {
          MergingKeep(queue, old(queue), i, target, msg, a, performedMerge);
          i := i + 1;
        } else if Covers(a, it.body.area) {
          MergingDrop(queue, old(queue), i, target, msg, a, performedMerge);
          queue := queue[..i] + queue[i + 1..];
        } else if CanJoin(a, it.body.area) {
          MergingDrop(queue, old(queue), i, target, msg, a, performedMerge);
          a, performedMerge := Joined(a, it.body.area), true;
          queue := queue[..i] + queue[i + 1..];
        } else {
          MergingKeep(queue, old(queue), i, target, msg, a, performedMerge);
          i := i + 1;
        }
      }
      MergingEnd(queue, old(queue), i, target, msg, a, performedMerge);
      result := if performedMerge then Some(a) else None;
    }

    /** common/MessageQueue.cpp:308-396: the first update about the same goes. */
    method RemoveObsolete(key: Key)
      modifies this`queue
      ensures queue == RemoveFirst(old(queue), AboutSame(key))
    {
      var i := 0;
      while i < |queue|
        invariant i <= |queue| && queue == old(queue)
        invariant forall k :: 0 <= k < i ==> !AboutSame(key)(queue[k])
      {
        if queue[i].body == Update(key) {
          FirstIs(queue, AboutSame(key), i);
          queue := queue[..i] + queue[i + 1..];
          return;
        }
        i := i + 1;
      }
      FirstIs(queue, AboutSame(key), i);
    }

    /** common/MessageQueue.cpp:76-99, for one message. */
    method Put(m: Message)
      modifies this`queue
      ensures queue == PutMessage(old(queue), m)
    {
      match m.body {
        case TileRequest(t) =>
          RemoveTileDuplicate(t);
          queue := queue + [m];
        case Invalidation(target, area) =>
          MergeKeepsUnperformed(queue, target, area);
          var newArea := MergeInvalidation(target, area);
          if newArea.None? {
            queue := queue + [m];
          } else {
            queue := queue + [Message(m.stamp, Invalidation(target, newArea.value))];
          }
        case Update(key) =>
          RemoveObsolete(key);
          queue := queue + [m];
        case Other =>
          queue := queue + [m];
      }
    }

    /** common/MessageQueue.cpp:61-75: a combined request is broken up. */
    method PutCombined(stamp: nat, c: TileCombined)
      modifies this`queue
      ensures queue == PutTiles(old(queue), stamp, c.tiles)
    {
      assert c.tiles[..0] == [];
      for i := 0 to |c.tiles|
        invariant queue == PutTiles(old(queue), stamp, c.tiles[..i])
      {
        assert c.tiles[..i + 1][..i] == c.tiles[..i];
        RemoveTileDuplicate(c.tiles[i]);
        queue := queue + [Message(stamp, TileRequest(c.tiles[i]))];
      }
      assert c.tiles[..|c.tiles|] == c.tiles;
    }

    /** common/MessageQueue.cpp:32-60. */
    method PutCancelTiles(versions: seq<string>, found: set<Message>)
      modifies this`queue
      ensures queue == CancelTiles(old(queue), versions, found)
    {
      hide Filter, Erasing;
      var keep := NotCancelled(versions, found);
      var i := 0;
      ghost var n := 0;
      ErasingStart(queue, keep);
      while i < |queue|
        invariant Erasing(queue, old(queue), n, i, keep)
        decreases |queue| - i
      {
        ErasingStep(queue, old(queue), n, i, keep);
        if IsCancelled(queue[i], versions, found) {
          queue := queue[..i] + queue[i + 1..];
        } else {
          i := i + 1;
        }
        n := n + 1;
      }
      ErasingEnd(queue, old(queue), n, i, keep);
    }

    /** common/MessageQueue.hpp:167-192. */
    method UpdateCursorPosition(viewId: ViewId, part: int, x: int, y: int, width: int, height: int)
      requires Valid()
      modifies this`cursorPositions, this`viewOrder
      ensures Valid()
      ensures cursorPositions == old(cursorPositions)[viewId := Cursor(part, x, y, width, height)]
      ensures viewOrder == Unseen(old(viewOrder), viewId) + [viewId]
    {
      cursorPositions := cursorPositions[viewId := Cursor(part, x, y, width, height)];
      EraseView(viewId);
      NoneTwiceMore(viewOrder, viewId);
      viewOrder := viewOrder + [viewId];
    }

    /** common/MessageQueue.hpp:194-205. */
    method RemoveCursorPosition(viewId: ViewId)
      requires Valid()
      modifies this`cursorPositions, this`viewOrder
      ensures Valid()
      ensures cursorPositions == old(cursorPositions) - {viewId}
      ensures viewOrder == Unseen(old(viewOrder), viewId)
    {
      EraseView(viewId);
      cursorPositions := cursorPositions - {viewId};
    }

    /** The std::find and erase of both. */
    method EraseView(viewId: ViewId)
      requires NoneTwice(viewOrder)
      modifies this`viewOrder
      ensures viewOrder == Unseen(old(viewOrder), viewId) && NoneTwice(viewOrder)
      ensures forall v :: v in viewOrder <==> v in old(viewOrder) && v != viewId
    {
      var i := 0;
      while i < |viewOrder| && viewOrder[i] != viewId
        invariant i <= |viewOrder| && viewId !in viewOrder[..i]
      {
        i := i + 1;
      }
      UnseenAt(viewOrder, viewId, i);
      UnseenLeft(viewOrder, viewId);
      hide Unseen;
      if i < |viewOrder| {
        viewOrder := viewOrder[..i] + viewOrder[i + 1..];
      }
    }

    /** common/MessageQueue.cpp:398-411. */
    method PriorityOf(tile: Tile) returns (r: int)
      requires Valid()
      ensures Known(viewOrder, cursorPositions) && r == Priority(tile, cursorPositions, viewOrder)
    {
      var i := |viewOrder| - 1;
      while i >= 0
        invariant -1 <= i < |viewOrder|
        invariant Priority(tile, cursorPositions, viewOrder) == PriorityAmong(tile, cursorPositions, viewOrder, i + 1)
      {
        var cursor := cursorPositions[viewOrder[i]];
        if RectanglesIntersect(tile.x, tile.y, tile.tileWidth, tile.tileHeight, cursor.x, cursor.y, cursor.width,
            cursor.height) {
          return i;
        }
        i := i - 1;
      }
      return -1;
    }

    /** common/MessageQueue.cpp:413-431. */
    method DeprioritizePreviews()
      modifies this`queue
      ensures queue == Rotated(old(queue))
    {
      ghost var was := queue;
      var i := 0;
      while i < |queue|
        invariant i <= |was| == |queue| && queue == was[i..] + was[..i]
        invariant i <= LeadingPreviews(was)
      {
        var front := queue[0];
        if !IsPreview(front) {
          return;
        }
        queue := queue[1..];
        queue := queue + [front];
        i := i + 1;
      }
    }

    /** common/MessageQueue.cpp:458-489: the search for the tile to begin with, which ends early
        at the highest priority there is. */
    method BestTile() returns (prioritized: nat)
      requires Valid() && queue != [] && IsPlainTile(queue[0])
      ensures Known(viewOrder, cursorPositions) && LeadingTiles(queue) > 0
      ensures prioritized == Choice(queue, LeadingTiles(queue), cursorPositions, viewOrder)
    {
      ViewsKnown(viewOrder, cursorPositions);
      hide Choice, PriorityAmong, Priority, Known, BestSoFar;
      prioritized := 0;
      var prioritySoFar := -1;
      var i := 0;
      BestOfNone(queue, cursorPositions, viewOrder);
      while i < |queue|
        invariant i <= LeadingTiles(queue)
        invariant BestSoFar(queue, i, cursorPositions, viewOrder, prioritized, prioritySoFar)
      {
        var it := queue[i];
        if !IsPlainTile(it) {
          break;
        }
        NextBest(queue, i, cursorPositions, viewOrder, prioritized, prioritySoFar);
        var p := PriorityOf(it.body.tile);
        if p > prioritySoFar {
          prioritySoFar := p;
          prioritized := i;
          if prioritySoFar == |viewOrder| - 1 {
            TopIsBest(queue, i + 1, cursorPositions, viewOrder, prioritized, prioritySoFar);
            return;
          }
        }
        i := i + 1;
      }
      assert i == LeadingTiles(queue) > 0;
      TopIsBest(queue, i, cursorPositions, viewOrder, prioritized, prioritySoFar);
    }

    /** common/MessageQueue.cpp:493-522: as many tiles as possible go with the first. */
    method CombineTiles(first: Message) returns (tiles: seq<Tile>, ghost taken: Queue)
      requires IsPlainTile(first)
      modifies this`queue
      ensures taken == [first] + Filter(old(queue), CombinesWith(first.body.tile))
      ensures queue == Filter(old(queue), StaysBehind(first.body.tile))
      ensures AreTiles(taken, tiles)
    {
      hide Filter, Erasing, CanCombine;
      var top := first.body.tile;
      tiles, taken := [top], [first];
      var i := 0;
      ghost var was, n := queue, 0;
      ErasingStart(queue, StaysBehind(top));
      NothingFiltered(was, CombinesWith(top), first);
      while i < |queue|
        invariant |tiles| > 0 && tiles[0] == top && AreTiles(taken, tiles)
        invariant Erasing(queue, was, n, i, StaysBehind(top)) && n <= |was|
        invariant taken == [first] + Filter(was[..n], CombinesWith(top))
        decreases |queue| - i
      {
        ErasingStep(queue, was, n, i, StaysBehind(top));
        TakenMore(was, n, CombinesWith(top), first);
        var it := queue[i];
        if IsPlainTile(it) && CanCombine(tiles[0], it.body.tile) {
          tiles, taken := tiles + [it.body.tile], taken + [it];
          queue := queue[..i] + queue[i + 1..];
        } else {
          i := i + 1;
        }
        n := n + 1;
      }
      ErasingEnd(queue, was, n, i, StaysBehind(top));
      FilterAll(was, CombinesWith(top));
    }

    /** common/MessageQueue.cpp:433-536. */
    method Get() returns (payload: Payload, ghost taken: Queue)
      requires Valid() && queue != []
      modifies this`queue
      ensures Valid() && Known(viewOrder, cursorPositions)
      ensures GetFrom(old(queue), cursorPositions, viewOrder) == Got(taken, queue)
      ensures IsPayload(payload, taken)
    {
      hide Choice, PriorityAmong, Priority, Filter, Rotated, LeadingTiles, AreTiles, NoneTwice, CanCombine;
      ViewsKnown(viewOrder, cursorPositions);
      var front := queue[0];
      if !IsPlainTile(front) {
        queue := queue[1..];
        if IsPreview(front) {
          DeprioritizePreviews();
        }
        return Single(front), [front];
      }
      var prioritized := BestTile();
      ChoiceInside(queue, cursorPositions, viewOrder);
      var first := queue[prioritized];
      queue := queue[..prioritized] + queue[prioritized + 1..];
      var tiles;
      tiles, taken := CombineTiles(first);
      if |tiles| == 1 {
        OneTaken(taken, tiles);
        return Single(first), taken;
      }
      SeveralTaken(taken, tiles);
      return Combined(Create(tiles)), taken;
    }
  }

  lemma ChoiceInside(q: Queue, cursors: Cursors, order: seq<ViewId>)
    requires q != [] && IsPlainTile(q[0]) && Known(order, cursors)
    ensures LeadingTiles(q) > 0 && Choice(q, LeadingTiles(q), cursors, order) < LeadingTiles(q) <= |q|
    ensures IsPlainTile(q[Choice(q, LeadingTiles(q), cursors, order)])
  {
  }

  ghost predicate AreTiles(taken: Queue, tiles: seq<Tile>) {
    |taken| == |tiles| && forall i :: 0 <= i < |taken| ==> IsTile(taken[i]) && taken[i].body.tile == tiles[i]
  }

  lemma OneTaken(taken: Queue, tiles: seq<Tile>)
    requires AreTiles(taken, tiles) && |tiles| == 1
    ensures IsPayload(Single(taken[0]), taken)
  {
  }

  lemma SeveralTaken(taken: Queue, tiles: seq<Tile>)
    requires AreTiles(taken, tiles) && taken != [] && |tiles| != 1
    ensures tiles != []
    ensures IsPayload(Combined(Create(tiles)), taken)
  {
    var same := seq(|taken|, i requires 0 <= i < |taken| && IsTile(taken[i]) => taken[i].body.tile);
    assert same == tiles;
  }

  lemma NothingFiltered(q: Queue, keep: Message -> bool, first: Message)
    ensures [first] == [first] + Filter(q[..0], keep)
  {
  }

  lemma TakenMore(q: Queue, n: nat, keep: Message -> bool, first: Message)
    requires n < |q|
    ensures [first] + Filter(q[..n + 1], keep) == ([first] + Filter(q[..n], keep)) + if keep(q[n]) then [q[n]] else []
  {
    FilterMore(q, n, keep);
  }

  lemma BestOfNone(q: Queue, cursors: Cursors, order: seq<ViewId>)
    requires Known(order, cursors)
    ensures BestSoFar(q, 0, cursors, order, 0, -1)
  {
  }

  lemma ViewsKnown(order: seq<ViewId>, cursors: Cursors)
    requires forall v :: v in order ==> v in cursors
    ensures Known(order, cursors)
  {
    forall i | 0 <= i < |order| ensures order[i] in cursors {
      var v := order[i];
      assert v in order;
    }
  }

  lemma NoneTwiceMore(order: seq<ViewId>, v: ViewId)
    requires NoneTwice(order) && v !in order
    ensures NoneTwice(order + [v])
  {
    forall i | 0 <= i < |order| ensures order[i] != v {
      assert order[i] in order;
    }
  }

  /** While the best of the leading tiles is looked for: the best of those seen, and its priority. */
  ghost predicate BestSoFar(q: Queue, i: nat, cursors: Cursors, order: seq<ViewId>, best: nat, priority: int)
    requires Known(order, cursors)
  {
    && i <= LeadingTiles(q)
    && if i == 0 then best == 0 && priority == -1
       else IsFirstChoice(q, i, cursors, order, best) && priority == Priority(q[best].body.tile, cursors, order)
  }

  lemma NextBest(q: Queue, i: nat, cursors: Cursors, order: seq<ViewId>, best: nat, priority: int)
    requires Known(order, cursors) && BestSoFar(q, i, cursors, order, best, priority) && i < |q| && IsPlainTile(q[i])
    ensures i < LeadingTiles(q)
    ensures var p := Priority(q[i].body.tile, cursors, order);
            if p > priority then BestSoFar(q, i + 1, cursors, order, i, p)
            else BestSoFar(q, i + 1, cursors, order, best, priority)
  {
    hide Priority, LeadingTiles, Known;
    assert i < LeadingTiles(q);
    var p := Priority(q[i].body.tile, cursors, order);
    if i == 0 {
      assert p >= -1;
    } else if p > priority {
      assert IsFirstChoice(q, i + 1, cursors, order, i);
    } else {
      assert IsFirstChoice(q, i + 1, cursors, order, best);
    }
  }

  /** The highest priority there is will not be surpassed. */
  lemma TopIsBest(q: Queue, i: nat, cursors: Cursors, order: seq<ViewId>, best: nat, priority: int)
    requires Known(order, cursors) && BestSoFar(q, i, cursors, order, best, priority) && i > 0
    requires priority == |order| - 1 || i == LeadingTiles(q)
    ensures best == Choice(q, LeadingTiles(q), cursors, order)
  {
    hide Priority, Choice;
    assert IsFirstChoice(q, LeadingTiles(q), cursors, order, best);
    FirstChoiceIs(q, LeadingTiles(q), cursors, order, best);
  }

  /** The views but one. */
  function Unseen(order: seq<ViewId>, v: ViewId): seq<ViewId> {
    if order == [] then []
    else if order[0] == v then order[1..]
    else [order[0]] + Unseen(order[1..], v)
  }

  lemma {:induction false} UnseenAt(order: seq<ViewId>, v: ViewId, i: nat)
    requires i <= |order| && v !in order[..i] && (i < |order| ==> order[i] == v)
    ensures Unseen(order, v) == if i < |order| then order[..i] + order[i + 1..] else order
    decreases |order|
  {
    if i > 0 {
      var first, rest := order[0], order[1..];
      assert first == order[..i][0] && rest[..i - 1] == order[..i][1..];
      UnseenAt(rest, v, i - 1);
      assert Unseen(order, v) == [first] + Unseen(rest, v);
      hide Unseen;
      CutBehindFirst(order, i);
    }
  }

  /** In an order that names no view twice, all views but one are left. */
  lemma {:induction false} UnseenLeft(order: seq<ViewId>, v: ViewId)
    requires NoneTwice(order)
    ensures NoneTwice(Unseen(order, v))
    ensures forall w :: w in Unseen(order, v) <==> w in order && w != v
  {
    if order != [] {
      var first, rest := order[0], order[1..];
      assert order == [first] + rest && first !in rest;
      UnseenLeft(rest, v);
      if first != v {
        assert Unseen(order, v) == [first] + Unseen(rest, v);
        NoneTwiceFirst(first, Unseen(rest, v));
      }
    }
  }

  lemma NoneTwiceFirst(first: ViewId, rest: seq<ViewId>)
    requires NoneTwice(rest) && first !in rest
    ensures NoneTwice([first] + rest)
  {
  }

  lemma CutBehindFirst(order: seq<ViewId>, i: nat)
    requires 0 < i <= |order|
    ensures order == [order[0]] + order[1..]
    ensures i < |order| ==> order[..i] + order[i + 1..] == [order[0]] + (order[1..][..i - 1] + order[1..][i..])
  {
  }

  /** Without a merge the rectangle stays as it is. */
  lemma {:induction false} MergeKeepsUnperformed(q: Queue, target: string, a: Area)
    ensures !Merge(q, target, a, false).performed ==> Merge(q, target, a, false).area == a
  {
    if q != [] {
      MergeKeepsUnperformed(q[1..], target, a);
      if Invalidates(q[0], target, a.part) && CanJoin(a, q[0].body.area) {
        MergePerformed(q[1..], target, Joined(a, q[0].body.area));
      }
    }
  }

  lemma {:induction false} MergePerformed(q: Queue, target: string, a: Area)
    ensures Merge(q, target, a, true).performed
  {
    if q != [] {
      MergePerformed(q[1..], target, a);
      if Invalidates(q[0], target, a.part) && CanJoin(a, q[0].body.area) {
        MergePerformed(q[1..], target, Joined(a, q[0].body.area));
      }
    }
  }
}
