/** How often a tile can be requested in the tile queue. */
module TileQueueRequests {
  import opened Basics
  import opened Tiles
  import opened TileText
  import opened InvalidationText
  import opened TileQueues
  import opened TileQueueRuns
  import opened TileQueueSafety
  import opened TileQueueContents

  /** Requests that differ at most in what stands behind the wire id. */
  function RequestFor(t: Tile): Message -> bool {
    (m: Message) => IsTile(m) && Fields(m.body.tile) == Fields(t)
  }

  /** The requests for tiles that a run puts, those of combined ones one by one. */
  function Requests(ops: seq<Op>): seq<Message> {
    if ops == [] then []
    else Requests(ops[..|ops| - 1]) + RequestsOf(ops[|ops| - 1])
  }

  function RequestsOf(op: Op): seq<Message> {
    match op
    case Put(m) => if IsTile(m) then [m] else []
    case PutCombined(stamp, c) => AllRequests(stamp, c.tiles)
    case _ => []
  }

  function AllRequests(stamp: nat, tiles: seq<Tile>): (r: seq<Message>)
    ensures |r| == |tiles| && forall i :: 0 <= i < |r| ==> r[i] == Message(stamp, TileRequest(tiles[i]))
  {
    if tiles == [] then []
    else AllRequests(stamp, tiles[..|tiles| - 1]) + [Message(stamp, TileRequest(tiles[|tiles| - 1]))]
  }

  /** The last of some requests that is for a tile. */
  function LastFor(requests: seq<Message>, t: Tile): Option<Message> {
    if requests == [] then None
    else if RequestFor(t)(requests[|requests| - 1]) then Some(requests[|requests| - 1])
    else LastFor(requests[..|requests| - 1], t)
  }

  /** No request is taken for another one, as when no wire id begins with the digits of another. */
  ghost predicate Distinguishable(tiles: set<Tile>) {
    forall x, y :: x in tiles && y in tiles && SameRequest(x, y) ==> Fields(x) == Fields(y)
  }

  /** Every request is for one of some tiles. */
  ghost predicate Among(q: Queue, tiles: set<Tile>) {
    forall m :: m in q && IsTile(m) ==> m.body.tile in tiles
  }

  /** At most one request for each tile, the last one put. */
  ghost predicate OnceEach(q: Queue, requests: seq<Message>) {
    forall t: Tile :: AtMost(Filter(q, RequestFor(t)), LastFor(requests, t))
  }

  lemma LastForMore(requests: seq<Message>, m: Message, t: Tile)
    ensures LastFor(requests + [m], t) == if RequestFor(t)(m) then Some(m) else LastFor(requests, t)
  {
    assert (requests + [m])[..|requests|] == requests;
  }

  lemma {:induction false} SameFirst(q: Queue, a: Message -> bool, b: Message -> bool)
    requires forall m :: m in q ==> a(m) == b(m)
    ensures FirstOf(q, a) == FirstOf(q, b)
  {
    if q != [] && !a(q[0]) {
      SameFirst(q[1..], a, b);
    }
  }

  /** Among distinguishable requests, those taken for a new one are those for the same tile. */
  lemma DuplicatesAre(q: Queue, tiles: set<Tile>, t: Tile)
    requires Among(q, tiles) && t in tiles && Distinguishable(tiles)
    ensures FirstOf(q, DuplicateOf(t)) == FirstOf(q, RequestFor(t))
  {
    forall x | x in q ensures DuplicateOf(t)(x) == RequestFor(t)(x) {
      hide Fields;
      if IsTile(x) {
        Alike(t, x.body.tile);
      }
    }
    SameFirst(q, DuplicateOf(t), RequestFor(t));
  }

  lemma Alike(t: Tile, u: Tile)
    ensures Fields(t) == Fields(u) ==> SameRequest(t, u)
  {
    assert Fields(t) == Fields(u) ==> t.wireId == Fields(t)[9] == Fields(u)[9] == u.wireId;
  }

  lemma WithoutAmong(q: Queue, k: nat, tiles: set<Tile>)
    requires Among(q, tiles)
    ensures Among(Without(q, k), tiles)
  {
    if k < |q| {
      WithoutParts(q, k);
    }
  }

  /** A request is put: it is the one for its tile, and those for other tiles stay. */
  lemma PutTileOnce(q: Queue, requests: seq<Message>, tiles: set<Tile>, m: Message)
    requires IsTile(m) && Among(q, tiles) && m.body.tile in tiles && Distinguishable(tiles) && OnceEach(q, requests)
    ensures Among(PutMessage(q, m), tiles) && OnceEach(PutMessage(q, m), requests + [m])
    ensures Filter(PutMessage(q, m), RequestFor(m.body.tile)) == [m]
    ensures forall u: Tile :: Fields(u) != Fields(m.body.tile) ==>
              Filter(PutMessage(q, m), RequestFor(u)) == Filter(q, RequestFor(u))
  {
    var t := m.body.tile;
    DuplicatesAre(q, tiles, t);
    hide Filter, FirstOf, Without, LastFor, Fields, Distinguishable;
    var rest := RemoveFirst(q, RequestFor(t));
    assert PutMessage(q, m) == rest + [m];
    WithoutAmong(q, FirstOf(q, RequestFor(t)), tiles);
    forall u: Tile
      ensures AtMost(Filter(rest + [m], RequestFor(u)), LastFor(requests + [m], u))
      ensures Filter(rest + [m], RequestFor(u)) == if Fields(u) == Fields(t) then [m] else Filter(q, RequestFor(u))
    {
      OneRequest(q, requests, m, u);
    }
  }

  lemma OneRequest(q: Queue, requests: seq<Message>, m: Message, u: Tile)
    requires IsTile(m) && AtMost(Filter(q, RequestFor(u)), LastFor(requests, u))
    ensures AtMost(Filter(RemoveFirst(q, RequestFor(m.body.tile)) + [m], RequestFor(u)), LastFor(requests + [m], u))
    ensures Filter(RemoveFirst(q, RequestFor(m.body.tile)) + [m], RequestFor(u)) ==
            if Fields(u) == Fields(m.body.tile) then [m] else Filter(q, RequestFor(u))
  {
    var t := m.body.tile;
    var rest := RemoveFirst(q, RequestFor(t));
    LastForMore(requests, m, u);
    hide Filter, FirstOf, Without, LastFor, Fields;
    FilterBoth(rest, [m], RequestFor(u));
    FilterOne(m, RequestFor(u));
    if Fields(t) == Fields(u) {
      SameKindOf(t, u);
      SameFirst(q, RequestFor(t), RequestFor(u));
      FilterRemoved(q, RequestFor(u));
      assert Filter(rest, RequestFor(u)) == [];
    } else {
      FilterWithout(q, FirstOf(q, RequestFor(t)), RequestFor(u));
      assert Filter(rest, RequestFor(u)) + [] == Filter(rest, RequestFor(u));
    }
  }

  lemma SameKindOf(t: Tile, u: Tile)
    requires Fields(t) == Fields(u)
    ensures forall m :: RequestFor(t)(m) == RequestFor(u)(m)
  {
    hide Fields;
  }

  lemma {:induction false} PutTilesOnce(q: Queue, requests: seq<Message>, tiles: set<Tile>, stamp: nat, put: seq<Tile>)
    requires Among(q, tiles) && OnceEach(q, requests) && Distinguishable(tiles) && forall t :: t in put ==> t in tiles
    ensures Among(PutTiles(q, stamp, put), tiles)
    ensures OnceEach(PutTiles(q, stamp, put), requests + AllRequests(stamp, put))
    decreases |put|
  {
    if put == [] {
      assert requests + [] == requests;
    } else {
      var first, m := put[..|put| - 1], Message(stamp, TileRequest(put[|put| - 1]));
      var before := requests + AllRequests(stamp, first);
      assert requests + AllRequests(stamp, put) == before + [m];
      assert PutTiles(q, stamp, put) == PutMessage(PutTiles(q, stamp, first), m);
      hide Distinguishable, Among, OnceEach, PutTiles, PutMessage, AllRequests;
      PutTilesOnce(q, requests, tiles, stamp, first);
      PutTileOnce(PutTiles(q, stamp, first), before, tiles, m);
    }
  }

  /** For each tile there are no requests but some of those that there were, perhaps in another order. */
  ghost predicate NoMore(after: Queue, q: Queue) {
    forall t: Tile :: multiset(Filter(after, RequestFor(t))) <= multiset(Filter(q, RequestFor(t)))
  }

  lemma NoMoreOnce(after: Queue, q: Queue, requests: seq<Message>, tiles: set<Tile>)
    requires NoMore(after, q) && Among(q, tiles) && OnceEach(q, requests)
    ensures Among(after, tiles) && OnceEach(after, requests)
  {
    hide Filter, LastFor, AtMost;
    forall m | m in after && IsTile(m) ensures m in q {
      assert m in multiset(Filter(after, RequestFor(m.body.tile)));
    }
    forall t: Tile ensures AtMost(Filter(after, RequestFor(t)), LastFor(requests, t)) {
      FewerAtMost(Filter(after, RequestFor(t)), Filter(q, RequestFor(t)), LastFor(requests, t));
    }
  }

  lemma FewerAtMost(fewer: Queue, q: Queue, latest: Option<Message>)
    requires multiset(fewer) <= multiset(q) && AtMost(q, latest)
    ensures AtMost(fewer, latest)
  {
    Fewer(fewer, q);
    if fewer != [] {
      assert fewer[0] in multiset(q);
    }
  }

  lemma Fewer(fewer: Queue, q: Queue)
    requires multiset(fewer) <= multiset(q)
    ensures |fewer| <= |q|
  {
    var more := multiset(q) - multiset(fewer);
    assert multiset(q) == multiset(fewer) + more;
    assert |multiset(q)| == |q| && |multiset(fewer)| == |fewer|;
    assert |multiset(fewer) + more| == |multiset(fewer)| + |more|;
  }

  lemma NoMoreThen(a: Queue, b: Queue, c: Queue)
    requires NoMore(a, b) && NoMore(b, c)
    ensures NoMore(a, c)
  {
    hide Filter;
    forall t: Tile ensures multiset(Filter(a, RequestFor(t))) <= multiset(Filter(c, RequestFor(t))) {
      assert multiset(Filter(a, RequestFor(t))) <= multiset(Filter(b, RequestFor(t)));
    }
  }

  lemma {:induction false} FilteredCount(q: Queue, keep: Message -> bool, m: Message)
    ensures multiset(Filter(q, keep))[m] == if keep(m) then multiset(q)[m] else 0
  {
    if q != [] {
      FilteredCount(q[..|q| - 1], keep, m);
      assert q == q[..|q| - 1] + [q[|q| - 1]];
    }
  }

  /** With no more messages there are no more requests. */
  lemma NoMoreOf(after: Queue, q: Queue)
    requires multiset(after) <= multiset(q)
    ensures NoMore(after, q)
  {
    hide Filter, RequestFor;
    forall t: Tile, m: Message
      ensures multiset(Filter(after, RequestFor(t)))[m] <= multiset(Filter(q, RequestFor(t)))[m]
    {
      FilteredCount(after, RequestFor(t), m);
      FilteredCount(q, RequestFor(t), m);
    }
  }

  lemma {:induction false} FilterKeepsSome(q: Queue, keep: Message -> bool)
    ensures multiset(Filter(q, keep)) <= multiset(q)
  {
    hide Filter;
    forall m: Message ensures multiset(Filter(q, keep))[m] <= multiset(q)[m] {
      FilteredCount(q, keep, m);
    }
  }

  lemma NoMoreWithout(q: Queue, k: nat)
    ensures NoMore(Without(q, k), q)
  {
    if k < |q| {
      WithoutSame(q, k);
    }
    hide Without, NoMore;
    NoMoreOf(Without(q, k), q);
  }

  /** A get leaves for each tile some of the requests that there were. */
  lemma NoMoreGot(q: Queue, cursors: Cursors, order: seq<ViewId>)
    requires q != [] && Known(order, cursors)
    ensures NoMore(GetFrom(q, cursors, order).rest, q)
    ensures forall t: Tile ::
              |Filter(GetFrom(q, cursors, order).rest, RequestFor(t))| <= |Filter(q, RequestFor(t))|
  {
    var rest := GetFrom(q, cursors, order).rest;
    GetConserves(q, cursors, order);
    hide GetFrom, Filter, Known, RequestFor;
    NoMoreOf(rest, q);
    forall t: Tile ensures |Filter(rest, RequestFor(t))| <= |Filter(q, RequestFor(t))| {
      Fewer(Filter(rest, RequestFor(t)), Filter(q, RequestFor(t)));
    }
  }

  lemma NoMoreMerged(q: Queue, target: string, a: Area)
    ensures NoMore(Merge(q, target, a, false).queue, q)
  {
    forall t: Tile ensures Filter(Merge(q, target, a, false).queue, RequestFor(t)) == Filter(q, RequestFor(t)) {
      MergeFilter(q, target, a, false, RequestFor(t));
    }
  }

  /** Another message behind a queue is no request. */
  lemma NoMoreBehind(q: Queue, m: Message)
    requires !IsTile(m)
    ensures NoMore(q + [m], q)
  {
    forall t: Tile ensures Filter(q + [m], RequestFor(t)) == Filter(q, RequestFor(t)) {
      FilterBoth(q, [m], RequestFor(t));
      FilterOne(m, RequestFor(t));
      assert Filter(q, RequestFor(t)) + [] == Filter(q, RequestFor(t));
    }
  }

  lemma NoMorePut(q: Queue, m: Message)
    requires !IsTile(m)
    ensures NoMore(PutMessage(q, m), q)
  {
    hide Filter, Merge, Without, NoMore;
    match m.body {
      case Invalidation(target, a) =>
        var merged := Merge(q, target, a, false);
        var last := Message(m.stamp, Invalidation(target, merged.area));
        NoMoreMerged(q, target, a);
        NoMoreBehind(merged.queue, last);
        NoMoreThen(merged.queue + [last], merged.queue, q);
      case Update(key) =>
        NoMoreWithout(q, FirstOf(q, AboutSame(key)));
        NoMoreBehind(RemoveFirst(q, AboutSame(key)), m);
        NoMoreThen(PutMessage(q, m), RemoveFirst(q, AboutSame(key)), q);
      case Other =>
        NoMoreBehind(q, m);
    }
  }

  lemma StepOnce(s: Scheduler, op: Op, requests: seq<Message>, tiles: set<Tile>)
    requires Among(s.queue, tiles) && OnceEach(s.queue, requests) && Distinguishable(tiles)
             && Among(RequestsOf(op), tiles)
    ensures Among(QueueAfter(s, op), tiles) && OnceEach(QueueAfter(s, op), requests + RequestsOf(op))
  {
    var q := s.queue;
    hide OnceEach, Distinguishable, NoMore, PutMessage, PutTiles, GetFrom, Filter, AllRequests;
    assert requests + [] == requests;
    match op {
      case Put(m) =>
        if IsTile(m) {
          assert m in RequestsOf(op);
          PutTileOnce(q, requests, tiles, m);
        } else {
          NoMorePut(q, m);
          NoMoreOnce(PutMessage(q, m), q, requests, tiles);
        }
      case PutCombined(stamp, c) =>
        TilesOf(stamp, c.tiles, tiles);
        PutTilesOnce(q, requests, tiles, stamp, c.tiles);
      case Cancel(versions, found) =>
        FilterKeepsSome(q, NotCancelled(versions, found));
        NoMoreOf(CancelTiles(q, versions, found), q);
        NoMoreOnce(CancelTiles(q, versions, found), q, requests, tiles);
      case Get =>
        if q != [] {
          NoMoreGot(q, s.cursors, s.order);
          NoMoreOnce(GetFrom(q, s.cursors, s.order).rest, q, requests, tiles);
        }
      case _ =>
    }
  }

  lemma TilesOf(stamp: nat, put: seq<Tile>, tiles: set<Tile>)
    requires Among(AllRequests(stamp, put), tiles)
    ensures forall t :: t in put ==> t in tiles
  {
    forall t | t in put ensures t in tiles {
      var i :| 0 <= i < |put| && put[i] == t;
      assert AllRequests(stamp, put)[i] in AllRequests(stamp, put);
    }
  }

  lemma AmongBoth(a: seq<Message>, b: seq<Message>, tiles: set<Tile>)
    requires Among(a + b, tiles)
    ensures Among(a, tiles) && Among(b, tiles)
  {
    forall m | m in a || m in b ensures m in a + b {
    }
  }

  /** In any run that requests only distinguishable tiles, each of them is in the queue at most
      once, by the last request for it. */
  lemma {:induction false} OnceInRun(ops: seq<Op>, tiles: set<Tile>)
    requires Distinguishable(tiles) && Among(Requests(ops), tiles)
    ensures Among(QueueOf(ops), tiles) && OnceEach(QueueOf(ops), Requests(ops))
  {
    if ops != [] {
      var before, op := ops[..|ops| - 1], ops[|ops| - 1];
      hide Among, OnceEach, Distinguishable, QueueAfter;
      AmongBoth(Requests(before), RequestsOf(op), tiles);
      OnceInRun(before, tiles);
      StepOnce(After(before), op, Requests(before), tiles);
    }
  }

  /** Tiles are in the queue at most once in every run that requests no others, by the last request
      for each, if and only if none of them is taken for another. */
  lemma OneRequestPerTile(tiles: set<Tile>)
    ensures Distinguishable(tiles) <==>
            forall ops :: Among(Requests(ops), tiles) ==> OnceEach(QueueOf(ops), Requests(ops))
  {
    hide Requests, QueueOf, OnceEach, Among, Fields, SameRequest;
    if Distinguishable(tiles) {
      forall ops | Among(Requests(ops), tiles) ensures OnceEach(QueueOf(ops), Requests(ops)) {
        OnceInRun(ops, tiles);
      }
    } else {
      var x, y :| x in tiles && y in tiles && SameRequest(x, y) && Fields(x) != Fields(y);
      var ops := Twice(x, y, 0, 0, 0, 0);
      RequestsTwice(x, y, tiles);
      NotOnce(x, y);
    }
  }

  /** Requests without wire ids can be told apart. */
  lemma NoWireIds(tiles: set<Tile>)
    requires forall t :: t in tiles ==> t.wireId == 0
    ensures Distinguishable(tiles)
  {
    forall x, y | x in tiles && y in tiles && SameRequest(x, y) ensures Fields(x) == Fields(y) {
      var a, b := Fields(x), Fields(y);
      assert a == a[..9] + [a[9]] && b == b[..9] + [b[9]];
    }
  }

  // ----- one put, exactly -----

  /** What is taken for a new request first is a request for its tile, if there is one. */
  predicate TakesRight(q: Queue, t: Tile) {
    FirstOf(q, RequestFor(t)) == |q| || FirstOf(q, DuplicateOf(t)) == FirstOf(q, RequestFor(t))
  }

  /** With at most one request for a tile in the queue, another one leaves it at one if and only if
      the first that is taken for it is for that tile. */
  lemma PutTileExactly(q: Queue, stamp: nat, t: Tile)
    requires |Filter(q, RequestFor(t))| <= 1
    ensures |Filter(PutTile(q, stamp, t), RequestFor(t))| == 1 <==> TakesRight(q, t)
  {
    var m := Request(stamp, t);
    var k, d := FirstOf(q, RequestFor(t)), FirstOf(q, DuplicateOf(t));
    FilterBoth(Without(q, d), [m], RequestFor(t));
    FilterOne(m, RequestFor(t));
    hide Filter, FirstOf, Without, Fields;
    if k == |q| {
      FilterNone(q, RequestFor(t));
      NoneLeft(q, d, RequestFor(t));
    } else if d == k {
      FilterRemoved(q, RequestFor(t));
    } else {
      OneLeft(q, t, d, k);
    }
  }

  lemma NoneLeft(q: Queue, d: nat, p: Message -> bool)
    requires Filter(q, p) == [] && forall i :: 0 <= i < |q| ==> !p(q[i])
    ensures Filter(Without(q, d), p) == []
  {
    FilterWithout(q, d, p);
  }

  lemma OneLeft(q: Queue, t: Tile, d: nat, k: nat)
    requires k == FirstOf(q, RequestFor(t)) < |q| && d == FirstOf(q, DuplicateOf(t)) != k
    ensures |Filter(Without(q, d), RequestFor(t))| >= 1
  {
    Alike(t, q[k].body.tile);
    assert d < k && !RequestFor(t)(q[d]);
    FilterWithout(q, d, RequestFor(t));
    var l := FilterIndex(q, RequestFor(t), k);
  }

  // ----- requests that are taken for others -----

  function Request(stamp: nat, t: Tile): Message {
    Message(stamp, TileRequest(t))
  }

  function Twice(x: Tile, y: Tile, a: nat, b: nat, c: nat, d: nat): seq<Op> {
    [Put(Request(a, x)), Put(Request(b, y)), Put(Request(c, x)), Put(Request(d, x))]
  }

  /** Of any two tiles of which one is taken for the other, one comes to be requested twice. */
  lemma RequestedTwice(x: Tile, y: Tile, a: nat, b: nat, c: nat, d: nat)
    requires SameRequest(x, y) && Fields(x) != Fields(y)
    ensures QueueOf(Twice(x, y, a, b, c, d)) == [Request(c, x), Request(d, x)]
  {
    TakenForOther(x, y, a, b, c, d);
    hide QueueOf, PutTile, Fields, SameRequest;
    var p, q, r, s := Put(Request(a, x)), Put(Request(b, y)), Put(Request(c, x)), Put(Request(d, x));
    FourPuts(p, q, r, s);
    QueueOfNone();
    QueueOfPuts([], Request(a, x));
    QueueOfPuts([p], Request(b, y));
    QueueOfPuts([p, q], Request(c, x));
    QueueOfPuts([p, q, r], Request(d, x));
  }

  lemma FourPuts(p: Op, q: Op, r: Op, s: Op)
    ensures [] + [p] == [p] && [p] + [q] == [p, q] && [p, q] + [r] == [p, q, r] && [p, q, r] + [s] == [p, q, r, s]
  {
  }

  lemma QueueOfNone()
    ensures QueueOf([]) == []
  {
  }

  lemma QueueOfPuts(ops: seq<Op>, m: Message)
    requires IsTile(m)
    ensures QueueOf(ops + [Put(m)]) == PutTile(QueueOf(ops), m.stamp, m.body.tile)
  {
    assert (ops + [Put(m)])[..|ops|] == ops;
  }

  lemma {:induction false} BeginningIsLess(b: nat, a: nat)
    requires BeginsWith(b, a)
    ensures a <= b
    decreases b
  {
    if a != b {
      BeginningIsLess(b / 10, a);
    }
  }

  /** Of two different tiles at most one is taken for the other. */
  lemma OneWayOnly(x: Tile, y: Tile)
    requires SameRequest(x, y) && Fields(x) != Fields(y)
    ensures !SameRequest(y, x) && SameRequest(x, x)
  {
    Alike(x, x);
    BeginningIsLess(y.wireId, x.wireId);
    assert Fields(x) == Fields(x)[..9] + [x.wireId] && Fields(y) == Fields(y)[..9] + [y.wireId];
    if SameRequest(y, x) {
      BeginningIsLess(x.wireId, y.wireId);
    }
  }

  lemma TakenForOther(x: Tile, y: Tile, a: nat, b: nat, c: nat, d: nat)
    requires SameRequest(x, y) && Fields(x) != Fields(y)
    ensures PutTile([], a, x) == [Request(a, x)]
    ensures PutTile([Request(a, x)], b, y) == [Request(a, x), Request(b, y)]
    ensures PutTile([Request(a, x), Request(b, y)], c, x) == [Request(b, y), Request(c, x)]
    ensures PutTile([Request(b, y), Request(c, x)], d, x) == [Request(c, x), Request(d, x)]
  {
    OneWayOnly(x, y);
    hide Fields, SameRequest;
    FirstIs([], DuplicateOf(x), 0);
    FirstIs([Request(a, x)], DuplicateOf(y), 1);
    FirstIs([Request(a, x), Request(b, y)], DuplicateOf(x), 0);
    FirstIs([Request(b, y), Request(c, x)], DuplicateOf(x), 0);
  }

  lemma RequestsTwice(x: Tile, y: Tile, tiles: set<Tile>)
    requires x in tiles && y in tiles
    ensures Among(Requests(Twice(x, y, 0, 0, 0, 0)), tiles)
  {
    var p, q, r := Put(Request(0, x)), Put(Request(0, y)), Put(Request(0, x));
    FourPuts(p, q, r, r);
    RequestsOfPuts([], Request(0, x), tiles);
    RequestsOfPuts([p], Request(0, y), tiles);
    RequestsOfPuts([p, q], Request(0, x), tiles);
    RequestsOfPuts([p, q, r], Request(0, x), tiles);
  }

  lemma RequestsOfPuts(ops: seq<Op>, m: Message, tiles: set<Tile>)
    requires IsTile(m) && m.body.tile in tiles && Among(Requests(ops), tiles)
    ensures Among(Requests(ops + [Put(m)]), tiles)
  {
    assert (ops + [Put(m)])[..|ops|] == ops;
  }

  lemma NotOnce(x: Tile, y: Tile)
    requires SameRequest(x, y) && Fields(x) != Fields(y)
    ensures var ops := Twice(x, y, 0, 0, 0, 0); !OnceEach(QueueOf(ops), Requests(ops))
  {
    var ops := Twice(x, y, 0, 0, 0, 0);
    RequestedTwice(x, y, 0, 0, 0, 0);
    hide QueueOf, Requests, Filter, Fields, SameRequest, LastFor;
    FilterCounts(QueueOf(ops), 0, 1, RequestFor(x));
    assert !AtMost(Filter(QueueOf(ops), RequestFor(x)), LastFor(Requests(ops), x));
  }

  // ----- no request is lost -----

  /** A step that puts a request for which one in the queue is taken. */
  ghost predicate Replaces(op: Op, t: Tile) {
    exists i :: 0 <= i < |RequestsOf(op)| && RequestFollows(RequestsOf(op)[i], t)
  }

  predicate RequestFollows(m: Message, t: Tile) {
    IsTile(m) && SameRequest(m.body.tile, t)
  }

  lemma WithoutKeeps(q: Queue, p: Message -> bool, e: Message)
    requires e in q && !p(e)
    ensures e in RemoveFirst(q, p)
  {
    var k := FirstOf(q, p);
    if k < |q| {
      WithoutParts(q, k);
    }
  }

  lemma {:induction false} PutTilesKeepOr(q: Queue, stamp: nat, put: seq<Tile>, e: Message)
    requires e in q && IsTile(e)
    ensures e in PutTiles(q, stamp, put) || exists i :: 0 <= i < |put| && SameRequest(put[i], e.body.tile)
    decreases |put|
  {
    if put != [] {
      var first, t := put[..|put| - 1], put[|put| - 1];
      hide SameRequest;
      PutTilesKeepOr(q, stamp, first, e);
      if !SameRequest(t, e.body.tile) && e in PutTiles(q, stamp, first) {
        WithoutKeeps(PutTiles(q, stamp, first), DuplicateOf(t), e);
      }
      if i :| 0 <= i < |first| && SameRequest(first[i], e.body.tile) {
        assert put[i] == first[i];
      }
    }
  }

  lemma {:induction false} MergeKeepsTile(q: Queue, target: string, a: Area, performed: bool, e: Message)
    requires e in q && IsTile(e)
    ensures e in Merge(q, target, a, performed).queue
    decreases |q|
  {
    assert q == [q[0]] + q[1..];
    if Invalidates(q[0], target, a.part) && Covers(a, q[0].body.area) {
      MergeKeepsTile(q[1..], target, a, performed, e);
    } else if Invalidates(q[0], target, a.part) && CanJoin(a, q[0].body.area) {
      MergeKeepsTile(q[1..], target, Joined(a, q[0].body.area), true, e);
    } else if e != q[0] {
      MergeKeepsTile(q[1..], target, a, performed, e);
    }
  }

  lemma PutKeepsRequest(q: Queue, m: Message, e: Message)
    requires e in q && IsTile(e)
    ensures e in PutMessage(q, m) || RequestFollows(m, e.body.tile)
  {
    hide SameRequest, FirstOf, Without;
    match m.body {
      case TileRequest(t) =>
        if !SameRequest(t, e.body.tile) {
          WithoutKeeps(q, DuplicateOf(t), e);
        }
      case Invalidation(target, a) => MergeKeepsTile(q, target, a, false, e);
      case Update(key) => WithoutKeeps(q, AboutSame(key), e);
      case Other =>
    }
  }

  /** No step loses a request: it stays, is handed out, or one that takes its place is put. */
  lemma StepKeepsRequest(s: Scheduler, op: Op, e: Message)
    requires e in s.queue && IsTile(e)
    ensures e in QueueAfter(s, op) || e in Taken(s, op) || Replaces(op, e.body.tile)
  {
    hide PutMessage, PutTiles, GetFrom, Filter, SameRequest;
    match op {
      case Put(m) =>
        PutKeepsRequest(s.queue, m, e);
        assert RequestFollows(m, e.body.tile) ==> RequestsOf(op)[0] == m;
      case PutCombined(stamp, c) =>
        PutTilesKeepOr(s.queue, stamp, c.tiles, e);
        if e !in PutTiles(s.queue, stamp, c.tiles) {
          var i :| 0 <= i < |c.tiles| && SameRequest(c.tiles[i], e.body.tile);
          assert RequestFollows(RequestsOf(op)[i], e.body.tile);
        }
      case Cancel(versions, found) =>
        TileNotCancelled(e.body.tile, versions);
      case Get =>
        GetConserves(s.queue, s.cursors, s.order);
        assert e in multiset(s.queue);
      case _ =>
    }
  }

  ghost predicate Served(ops: seq<Op>, j: nat, e: Message)
    requires IsTile(e)
  {
    j < |ops| && (e in Taken(After(ops[..j]), ops[j]) || Replaces(ops[j], e.body.tile))
  }

  /** In any run a request that is in the queue is there until it is handed out, or until a later
      one that takes its place is put. */
  lemma {:induction false} NoRequestLost(ops: seq<Op>, n: nat, now: nat, e: Message)
    requires n <= now <= |ops| && e in QueueOf(ops[..n]) && IsTile(e)
    ensures e in QueueOf(ops[..now]) || exists j :: n <= j < now && Served(ops, j, e)
    decreases now
  {
    hide QueueOf, Served;
    if now > n {
      NoRequestLost(ops, n, now - 1, e);
      if e in QueueOf(ops[..now - 1]) {
        ServedNext(ops, now - 1, e);
      }
    }
  }

  lemma ServedNext(ops: seq<Op>, j: nat, e: Message)
    requires j < |ops| && e in QueueOf(ops[..j]) && IsTile(e)
    ensures e in QueueOf(ops[..j + 1]) || Served(ops, j, e)
  {
    PrefixOfOps(ops, j);
    hide QueueOf, QueueAfter, Taken, TakenBy, Gets, Replaces;
    StepKeepsRequest(After(ops[..j]), ops[j], e);
  }

  /** A request is in the queue once it is put. */
  lemma RequestIsPut(ops: seq<Op>, n: nat)
    requires n < |ops| && ops[n].Put? && IsTile(ops[n].message)
    ensures ops[n].message in QueueOf(ops[..n + 1])
  {
    PrefixOfOps(ops, n);
    hide QueueOf, SameRequest;
  }
}
