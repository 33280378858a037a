/** Rendering several tiles in one go: Document::renderCombinedTiles of kit/Kit.cpp and
    common/Rectangle.hpp. */
module CombinedRendering {
  import opened Basics
  import opened Tiles
  import opened PngCaching

  // ----- rectangles -----

  datatype Rect = Rect(x1: int, y1: int, x2: int, y2: int)

  function Hull(a: Rect, b: Rect): Rect {
    Rect(if b.x1 < a.x1 then b.x1 else a.x1, if b.y1 < a.y1 then b.y1 else a.y1,
         if b.x2 > a.x2 then b.x2 else a.x2, if b.y2 > a.y2 then b.y2 else a.y2)
  }

  predicate Contains(a: Rect, b: Rect) {
    a.x1 <= b.x1 && a.y1 <= b.y1 && b.x2 <= a.x2 && b.y2 <= a.y2
  }

  /** common/Rectangle.hpp. */
  class Rectangle {
    var x1: int
    var y1: int
    var x2: int
    var y2: int

    function Value(): Rect
      reads this
    {
      Rect(x1, y1, x2, y2)
    }

    constructor (x: int, y: int, width: int, height: int)
      ensures Value() == Rect(x, y, x + width, y + height)
    {
      x1, y1, x2, y2 := x, y, x + width, y + height;
    }

    method Extend(rectangle: Rect)
      modifies this
      ensures Value() == Hull(old(Value()), rectangle)
    {
      if rectangle.x1 < x1 {
        x1 := rectangle.x1;
      }
      if rectangle.x2 > x2 {
        x2 := rectangle.x2;
      }
      if rectangle.y1 < y1 {
        y1 := rectangle.y1;
      }
      if rectangle.y2 > y2 {
        y2 := rectangle.y2;
      }
    }
  }

  // ----- the layout of a combined picture -----

  type Combined = c: TileCombined | WellCombined(c) && c.tiles != []
    witness TileCombined(0, 0, 1, 1, 1, 1, [SOME_TILE])

  function RectOf(c: Combined, i: nat): Rect
    requires i < |c.tiles|
  {
    Rect(c.tiles[i].x, c.tiles[i].y, c.tiles[i].x + c.tileWidth, c.tiles[i].y + c.tileHeight)
  }

  /** The least rectangle with the first tiles in it. */
  ghost predicate IsHull(area: Rect, c: Combined, n: nat)
    requires n <= |c.tiles|
  {
    && (forall i :: 0 <= i < n ==> Contains(area, RectOf(c, i)))
    && (exists i :: 0 <= i < n && RectOf(c, i).x1 == area.x1)
    && (exists i :: 0 <= i < n && RectOf(c, i).y1 == area.y1)
    && (exists i :: 0 <= i < n && RectOf(c, i).x2 == area.x2)
    && (exists i :: 0 <= i < n && RectOf(c, i).y2 == area.y2)
  }

  lemma HullOfOne(c: Combined)
    ensures IsHull(RectOf(c, 0), c, 1)
  {
    assert RectOf(c, 0) == RectOf(c, 0);
  }

  lemma HullMore(area: Rect, c: Combined, n: nat)
    requires n < |c.tiles| && IsHull(area, c, n)
    ensures IsHull(Hull(area, RectOf(c, n)), c, n + 1)
  {
    var a :| 0 <= a < n && RectOf(c, a).x1 == area.x1;
    var b :| 0 <= b < n && RectOf(c, b).y1 == area.y1;
    var d :| 0 <= d < n && RectOf(c, d).x2 == area.x2;
    var e :| 0 <= e < n && RectOf(c, e).y2 == area.y2;
    var hull := Hull(area, RectOf(c, n));
    assert RectOf(c, a).x1 == hull.x1 || RectOf(c, n).x1 == hull.x1;
    assert RectOf(c, b).y1 == hull.y1 || RectOf(c, n).y1 == hull.y1;
    assert RectOf(c, d).x2 == hull.x2 || RectOf(c, n).x2 == hull.x2;
    assert RectOf(c, e).y2 == hull.y2 || RectOf(c, n).y2 == hull.y2;
  }

  /** A part of the picture, in pixels. */
  datatype Window = Window(x: int, y: int, width: nat, height: nat)

  predicate InWindow(w: Window, px: int, py: int) {
    w.x <= px < w.x + w.width && w.y <= py < w.y + w.height
  }

  ghost predicate Disjoint(v: Window, w: Window) {
    forall px, py :: !(InWindow(v, px, py) && InWindow(w, px, py))
  }

  function PixmapWidth(c: Combined, area: Rect): int {
    (area.x2 - area.x1) / c.tileWidth * c.width
  }

  function PixmapHeight(c: Combined, area: Rect): int {
    (area.y2 - area.y1) / c.tileHeight * c.height
  }

  /** Where a rectangle goes in the picture of an area. */
  function WindowOf(c: Combined, area: Rect, rect: Rect): Window
  {
    Window(Place(rect.x1 - area.x1, c.tileWidth, c.width), Place(rect.y1 - area.y1, c.tileHeight, c.height),
           c.width, c.height)
  }

  function Place(distance: int, tile: nat, pixels: nat): int
    requires tile > 0
  {
    distance / tile * pixels
  }

  /** A tile that ends within some length has its pixels within those of the length. */
  lemma PlaceInside(distance: nat, length: nat, tile: nat, pixels: nat)
    requires tile > 0 && distance + tile <= length
    ensures 0 <= Place(distance, tile, pixels) <= length / tile * pixels - pixels
  {
    OneTileOn(distance, length, tile);
    var p: nat, q: nat := distance / tile, length / tile;
    TimesMonotone(p, q, pixels);
    assert p * pixels >= 0;
  }

  lemma OneTileOn(distance: nat, length: nat, tile: nat)
    requires tile > 0 && distance + tile <= length
    ensures distance / tile + 1 <= length / tile
  {
    var p, q := distance / tile, length / tile;
    assert p * tile <= distance && length < (q + 1) * tile;
    assert (p + 1) * tile <= length;
    assert p + 1 > q ==> (p - q) * tile >= 0;
  }

  lemma {:induction false} TimesMonotone(a: int, b: int, k: nat)
    requires a + 1 <= b
    ensures a * k + k <= b * k
    decreases b - a
  {
    OnceMore(b - 1, k);
    if a + 1 < b {
      TimesMonotone(a, b - 1, k);
    }
  }

  lemma OnceMore(b: int, k: nat)
    ensures (b + 1) * k == b * k + k
  {
  }

  /** Every tile's window lies inside the picture, whether or not the tiles are on a grid. */
  lemma WindowInside(c: Combined, area: Rect, i: nat)
    requires IsHull(area, c, |c.tiles|) && i < |c.tiles|
    ensures Contains(area, RectOf(c, i))
    ensures var w := WindowOf(c, area, RectOf(c, i));
            0 <= w.x && w.x + w.width <= PixmapWidth(c, area) && 0 <= w.y && w.y + w.height <= PixmapHeight(c, area)
  {
    var r := RectOf(c, i);
    PlaceInside(r.x1 - area.x1, area.x2 - area.x1, c.tileWidth, c.width);
    PlaceInside(r.y1 - area.y1, area.y2 - area.y1, c.tileHeight, c.height);
  }

  /** Two places are the same or a whole tile apart. */
  lemma PlacesApart(a: nat, b: nat, tile: nat, pixels: nat)
    requires tile > 0
    ensures a / tile == b / tile ==> Place(a, tile, pixels) == Place(b, tile, pixels)
    ensures a / tile < b / tile ==> Place(a, tile, pixels) + pixels <= Place(b, tile, pixels)
  {
    if a / tile < b / tile {
      TimesMonotone(a / tile, b / tile, pixels);
    }
  }

  predicate SameCell(c: Combined, area: Rect, i: nat, j: nat)
    requires i < |c.tiles| && j < |c.tiles|
  {
    && (c.tiles[i].x - area.x1) / c.tileWidth == (c.tiles[j].x - area.x1) / c.tileWidth
    && (c.tiles[i].y - area.y1) / c.tileHeight == (c.tiles[j].y - area.y1) / c.tileHeight
  }

  /** Two windows are one and the same or disjoint, as the tiles fall into one cell or not. */
  lemma WindowsSameOrDisjoint(c: Combined, area: Rect, i: nat, j: nat)
    requires IsHull(area, c, |c.tiles|) && i < |c.tiles| && j < |c.tiles|
    ensures Contains(area, RectOf(c, i)) && Contains(area, RectOf(c, j))
    ensures SameCell(c, area, i, j) ==> WindowOf(c, area, RectOf(c, i)) == WindowOf(c, area, RectOf(c, j))
    ensures !SameCell(c, area, i, j) ==> Disjoint(WindowOf(c, area, RectOf(c, i)), WindowOf(c, area, RectOf(c, j)))
  {
    var r, s := RectOf(c, i), RectOf(c, j);
    PlacesApart(r.x1 - area.x1, s.x1 - area.x1, c.tileWidth, c.width);
    PlacesApart(s.x1 - area.x1, r.x1 - area.x1, c.tileWidth, c.width);
    PlacesApart(r.y1 - area.y1, s.y1 - area.y1, c.tileHeight, c.height);
    PlacesApart(s.y1 - area.y1, r.y1 - area.y1, c.tileHeight, c.height);
  }

  // ----- tiles on a grid -----

  ghost predicate OnGrid(c: Combined) {
    forall i :: 0 <= i < |c.tiles| ==> c.tiles[i].x % c.tileWidth == 0 && c.tiles[i].y % c.tileHeight == 0
  }

  /** The area of tiles on a grid is a whole number of tiles wide and high, counted from a tile. */
  lemma GridArea(c: Combined, area: Rect)
    requires OnGrid(c) && IsHull(area, c, |c.tiles|)
    ensures area.x1 % c.tileWidth == 0 && area.y1 % c.tileHeight == 0
    ensures (area.x2 - area.x1) % c.tileWidth == 0 && (area.y2 - area.y1) % c.tileHeight == 0
    ensures area.x2 - area.x1 >= c.tileWidth && area.y2 - area.y1 >= c.tileHeight
  {
    assert Contains(area, RectOf(c, 0));
    var a :| 0 <= a < |c.tiles| && RectOf(c, a).x1 == area.x1;
    var b :| 0 <= b < |c.tiles| && RectOf(c, b).y1 == area.y1;
    var d :| 0 <= d < |c.tiles| && RectOf(c, d).x2 == area.x2;
    var e :| 0 <= e < |c.tiles| && RectOf(c, e).y2 == area.y2;
    Multiples(c.tiles[d].x, area.x1, c.tileWidth);
    Multiples(c.tiles[e].y, area.y1, c.tileHeight);
  }

  lemma Multiples(a: int, b: int, d: nat)
    requires d > 0 && a % d == 0 && b % d == 0
    ensures (a - b) % d == 0 && (a - b + d) % d == 0
    ensures (a - b) / d == a / d - b / d
  {
    assert a == a / d * d && b == b / d * d;
    assert a - b == (a / d - b / d) * d;
    MultipleOf(a / d - b / d, d);
    MultipleOf(a / d - b / d + 1, d);
    assert (a / d - b / d + 1) * d == a - b + d;
  }

  lemma MultipleOf(k: int, d: nat)
    requires d > 0
    ensures k * d % d == 0 && k * d / d == k
  {
    Uniquely(k * d / d, k * d % d, k, d);
  }

  lemma Uniquely(q: int, r: nat, k: int, d: nat)
    requires q * d + r == k * d && r < d
    ensures q == k && r == 0
  {
    if q < k {
      TimesMonotone(q, k, d);
    } else if k < q {
      TimesMonotone(k, q, d);
    }
  }

  /** On a grid, tiles at different places get disjoint windows. */
  lemma DistinctTilesDisjoint(c: Combined, area: Rect, i: nat, j: nat)
    requires OnGrid(c) && IsHull(area, c, |c.tiles|) && i < |c.tiles| && j < |c.tiles|
    ensures Contains(area, RectOf(c, i)) && Contains(area, RectOf(c, j))
    ensures (c.tiles[i].x, c.tiles[i].y) != (c.tiles[j].x, c.tiles[j].y) <==>
            Disjoint(WindowOf(c, area, RectOf(c, i)), WindowOf(c, area, RectOf(c, j)))
  {
    GridArea(c, area);
    WindowsSameOrDisjoint(c, area, i, j);
    Multiples(c.tiles[i].x, area.x1, c.tileWidth);
    Multiples(c.tiles[j].x, area.x1, c.tileWidth);
    Multiples(c.tiles[i].y, area.y1, c.tileHeight);
    Multiples(c.tiles[j].y, area.y1, c.tileHeight);
    if SameCell(c, area, i, j) {
      SameMultiple(c.tiles[i].x, c.tiles[j].x, c.tileWidth);
      SameMultiple(c.tiles[i].y, c.tiles[j].y, c.tileHeight);
      var w := WindowOf(c, area, RectOf(c, i));
      assert InWindow(w, w.x, w.y);
    }
  }

  lemma SameMultiple(a: int, b: int, d: nat)
    requires d > 0 && a % d == 0 && b % d == 0 && a / d == b / d
    ensures a == b
  {
    assert a == a / d * d && b == b / d * d;
  }

  // ----- what the windows show -----

  /** Pixel (px, py) of a picture of an area, where a page says what is to be seen at each point. */
  function Painted<Pixel>(page: (real, real) -> Pixel, area: Rect, width: nat, height: nat, px: int, py: int): Pixel
    requires width > 0 && height > 0
  {
    page(Along(area.x1, area.x2, width, px), Along(area.y1, area.y2, height, py))
  }

  function Along(from: int, to: int, pixels: nat, p: int): real
    requires pixels > 0
  {
    from as real + p as real * (to - from) as real / pixels as real
  }

  /** Pixels of a length of whole tiles are those of one tile, moved. */
  lemma AlongTiles(from: int, n: nat, tile: nat, pixels: nat, k: nat, d: nat)
    requires n > 0 && pixels > 0
    ensures n * pixels > 0
    ensures Along(from, from + n * tile, n * pixels, k * pixels + d) ==
            Along(from + k * tile, from + k * tile + tile, pixels, d)
  {
    assert n * pixels > 0;
    var rn, rt, rp, rk, rd := n as real, tile as real, pixels as real, k as real, d as real;
    assert (n * pixels) as real == rn * rp && (n * tile) as real == rn * rt && (k * pixels) as real == rk * rp
           && (k * tile) as real == rk * rt;
    Cancel(rk * rp + rd, rn, rt, rp);
    Distribute(rk, rp, rd, rt);
  }

  lemma Cancel(p: real, n: real, t: real, q: real)
    requires n > 0.0 && q > 0.0
    ensures n * q > 0.0 && p * (n * t) / (n * q) == p * t / q
  {
    var x := p * t / q;
    assert x * q == p * t;
    assert x * (n * q) == n * (x * q) == n * (p * t) == p * (n * t);
  }

  lemma Distribute(k: real, q: real, d: real, t: real)
    requires q > 0.0
    ensures (k * q + d) * t / q == k * t + d * t / q
  {
    var x := d * t / q;
    assert x * q == d * t;
    assert (k * t + x) * q == k * t * q + d * t == (k * q + d) * t;
  }

  /** On a grid, each tile's window shows what the tile shows when it is painted alone. */
  lemma WindowShowsTile<Pixel>(page: (real, real) -> Pixel, c: Combined, area: Rect, i: nat, px: nat, py: nat)
    requires OnGrid(c) && IsHull(area, c, |c.tiles|) && i < |c.tiles| && px < c.width && py < c.height
    ensures Contains(area, RectOf(c, i)) && PixmapWidth(c, area) > 0 && PixmapHeight(c, area) > 0
    ensures var w := WindowOf(c, area, RectOf(c, i));
            Painted(page, area, PixmapWidth(c, area), PixmapHeight(c, area), w.x + px, w.y + py) ==
            Painted(page, RectOf(c, i), c.width, c.height, px, py)
  {
    GridArea(c, area);
    var r := RectOf(c, i);
    assert Contains(area, r);
    Multiples(r.x1, area.x1, c.tileWidth);
    Multiples(r.y1, area.y1, c.tileHeight);
    WholeTiles(area.x1, area.x2, r.x1, c.tileWidth, c.width, px);
    WholeTiles(area.y1, area.y2, r.y1, c.tileHeight, c.height, py);
  }

  lemma WholeTiles(from: int, to: int, at: int, tile: nat, pixels: nat, p: nat)
    requires tile > 0 && pixels > 0 && from <= at && to - from >= tile && (to - from) % tile == 0
             && (at - from) % tile == 0
    ensures (to - from) / tile * pixels > 0
    ensures Along(from, to, (to - from) / tile * pixels, Place(at - from, tile, pixels) + p) ==
            Along(at, at + tile, pixels, p)
  {
    var n, k := (to - from) / tile, (at - from) / tile;
    assert n > 0;
    assert to - from == n * tile && at - from == k * tile;
    AlongTiles(from, n, tile, pixels, k, p);
  }

  // ----- which tiles are sent -----

  /** The client has the tile already: wire id and all. */
  predicate Skipped(t: Tile, hash: Hash, wid: WireId) {
    hash != 0 && t.oldWireId == wid
  }

  /** What happened to a tile: the hash of its window, its wire id and the picture that was appended. */
  datatype Outcome = Outcome(hash: Hash, wid: WireId, picture: seq<Byte>)

  /** The indices of the tiles that were not skipped. */
  function Kept(tiles: seq<Tile>, outcomes: seq<Outcome>): (r: seq<nat>)
    requires |outcomes| <= |tiles|
    ensures forall k :: 0 <= k < |r| ==>
              r[k] < |outcomes| && !Skipped(tiles[r[k]], outcomes[r[k]].hash, outcomes[r[k]].wid)
    ensures forall k, l :: 0 <= k < l < |r| ==> r[k] < r[l]
    ensures forall i :: 0 <= i < |outcomes| && !Skipped(tiles[i], outcomes[i].hash, outcomes[i].wid) ==> i in r
  {
    if outcomes == [] then []
    else
      var n := |outcomes| - 1;
      var before := Kept(tiles, outcomes[..n]);
      if Skipped(tiles[n], outcomes[n].hash, outcomes[n].wid) then before else before + [n]
  }

  /** A tile as it is described to the client. */
  function Described(t: Tile, o: Outcome): Tile {
    t.(wireId := o.wid, imgSize := |o.picture|)
  }

  /** What is sent: the tiles that were not skipped, described, each with its picture. */
  function Sent(tiles: seq<Tile>, outcomes: seq<Outcome>): (r: seq<(Tile, seq<Byte>)>)
    requires |outcomes| <= |tiles|
    ensures |r| == |Kept(tiles, outcomes)|
    ensures forall k :: 0 <= k < |r| ==>
              r[k] == (Described(tiles[Kept(tiles, outcomes)[k]], outcomes[Kept(tiles, outcomes)[k]]),
                       outcomes[Kept(tiles, outcomes)[k]].picture)
  {
    if outcomes == [] then []
    else
      var n := |outcomes| - 1;
      var before := Sent(tiles, outcomes[..n]);
      if Skipped(tiles[n], outcomes[n].hash, outcomes[n].wid) then before
      else before + [(Described(tiles[n], outcomes[n]), outcomes[n].picture)]
  }

  function Header(sent: seq<(Tile, seq<Byte>)>): (r: seq<Tile>)
    ensures |r| == |sent| && forall k :: 0 <= k < |r| ==> r[k] == sent[k].0
  {
    if sent == [] then [] else Header(sent[..|sent| - 1]) + [sent[|sent| - 1].0]
  }

  function Pictures(sent: seq<(Tile, seq<Byte>)>): seq<Byte> {
    if sent == [] then [] else Pictures(sent[..|sent| - 1]) + sent[|sent| - 1].1
  }

  /** Where the picture of a tile starts, going by the image sizes in the header. */
  function StartOf(header: seq<Tile>, k: nat): nat
    requires k <= |header|
  {
    if k == 0 then 0 else StartOf(header, k - 1) + header[k - 1].imgSize
  }

  lemma {:induction false} StartOfPrefix(header: seq<Tile>, last: Tile, k: nat)
    requires k <= |header|
    ensures StartOf(header, k) == StartOf(header + [last], k)
  {
    if k > 0 {
      StartOfPrefix(header, last, k - 1);
    }
  }

  ghost predicate Sized(sent: seq<(Tile, seq<Byte>)>) {
    forall k :: 0 <= k < |sent| ==> sent[k].0.imgSize == |sent[k].1|
  }

  lemma {:induction false} SizesTotal(sent: seq<(Tile, seq<Byte>)>)
    requires Sized(sent)
    ensures StartOf(Header(sent), |sent|) == |Pictures(sent)|
  {
    if sent != [] {
      SizesTotal(sent[..|sent| - 1]);
      StartOfPrefix(Header(sent[..|sent| - 1]), sent[|sent| - 1].0, |sent| - 1);
    }
  }

  lemma {:induction false} SizesCut(sent: seq<(Tile, seq<Byte>)>, k: nat)
    requires Sized(sent) && k < |sent|
    ensures StartOf(Header(sent), k) <= StartOf(Header(sent), k + 1) <= |Pictures(sent)|
    ensures Pictures(sent)[StartOf(Header(sent), k)..StartOf(Header(sent), k + 1)] == sent[k].1
  {
    var last := |sent| - 1;
    SizesTotal(sent);
    SizesTotal(sent[..last]);
    StartOfPrefix(Header(sent[..last]), sent[last].0, k);
    if k < last {
      SizesCut(sent[..last], k);
      StartOfPrefix(Header(sent[..last]), sent[last].0, k + 1);
    }
  }

  lemma SentIsSized(tiles: seq<Tile>, outcomes: seq<Outcome>)
    requires |outcomes| <= |tiles|
    ensures Sized(Sent(tiles, outcomes))
  {
  }

  /** The image sizes in the header cut what follows it into the pictures of the tiles that
      were not skipped, in order, with nothing left over. */
  lemma SizesPartition(tiles: seq<Tile>, outcomes: seq<Outcome>, k: nat)
    requires |outcomes| <= |tiles| && k < |Kept(tiles, outcomes)|
    ensures var sent := Sent(tiles, outcomes);
            var header, output := Header(sent), Pictures(sent);
            && StartOf(header, k) <= StartOf(header, k + 1) <= |output| == StartOf(header, |header|)
            && output[StartOf(header, k)..StartOf(header, k + 1)] == outcomes[Kept(tiles, outcomes)[k]].picture
  {
    var sent := Sent(tiles, outcomes);
    SentIsSized(tiles, outcomes);
    hide Header, Pictures, StartOf, Sent, Kept;
    SizesTotal(sent);
    SizesCut(sent, k);
  }

  // ----- renderCombinedTiles -----

  /** What a window of the painted picture hashes to, and what it encodes to if that works. */
  datatype Look = Look(hash: Hash, png: Option<seq<Byte>>)

  /** One hash, one picture; and the cache has seen no other. */
  ghost predicate Consistent(look: Window -> Look, content: map<Hash, seq<Byte>>) {
    && (forall v, w :: look(v).hash == look(w).hash != 0 && look(v).png.Some? && look(w).png.Some? ==>
        look(v).png == look(w).png)
    && (forall w :: look(w).hash in content && look(w).png.Some? ==> look(w).png.value == content[look(w).hash])
  }

  lemma ConsistentMore(look: Window -> Look, before: map<Hash, seq<Byte>>, content: map<Hash, seq<Byte>>, w: Window)
    requires Consistent(look, before) && 0 !in content
    requires forall h :: h in content ==> h in before || (h == look(w).hash && look(w).png.Some?)
    requires forall h :: h in before ==> h in content && content[h] == before[h]
    requires look(w).hash in content && look(w).png.Some? ==> content[look(w).hash] == look(w).png.value
    ensures Consistent(look, content)
  {
  }

  /** The outcomes are those of the windows of the tiles: hash, id issued for the hash, and picture. */
  ghost predicate Faithful(c: Combined, area: Rect, look: Window -> Look, outcomes: seq<Outcome>,
                           issued: set<(Hash, WireId)>, content: map<Hash, seq<Byte>>)
    requires |outcomes| <= |c.tiles|
  {
    forall i :: 0 <= i < |outcomes| ==>
      FaithfulOne(c.tiles[i], look(WindowOf(c, area, RectOf(c, i))), outcomes[i], issued, content)
  }

  ghost predicate FaithfulOne(t: Tile, look: Look, o: Outcome, issued: set<(Hash, WireId)>,
                              content: map<Hash, seq<Byte>>) {
    && o.hash == look.hash
    && (if o.hash == 0 then o.wid == 0 else (o.hash, o.wid) in issued)
    && (!Skipped(t, o.hash, o.wid) ==>
          if o.hash == 0 then look.png == Some(o.picture)
          else o.hash in content && content[o.hash] == o.picture && (look.png.Some? ==> look.png.value == o.picture))
  }

  lemma FaithfulMore(c: Combined, area: Rect, look: Window -> Look, outcomes: seq<Outcome>, o: Outcome,
                     was: set<(Hash, WireId)>, issued: set<(Hash, WireId)>,
                     before: map<Hash, seq<Byte>>, content: map<Hash, seq<Byte>>)
    requires |outcomes| < |c.tiles| && Faithful(c, area, look, outcomes, was, before)
    requires was <= issued && forall h :: h in before ==> h in content && content[h] == before[h]
    requires FaithfulOne(c.tiles[|outcomes|], look(WindowOf(c, area, RectOf(c, |outcomes|))), o, issued, content)
    ensures Faithful(c, area, look, outcomes + [o], issued, content)
  {
    forall i | 0 <= i < |outcomes| + 1
      ensures FaithfulOne(c.tiles[i], look(WindowOf(c, area, RectOf(c, i))), (outcomes + [o])[i], issued, content)
    {
      if i < |outcomes| {
        assert FaithfulOne(c.tiles[i], look(WindowOf(c, area, RectOf(c, i))), outcomes[i], was, before);
      }
    }
  }

  /** kit/Kit.cpp:930-949: the rectangles of the tiles and the area around them. */
  method LayOut(c: Combined) returns (renderArea: Rectangle, tileRecs: seq<Rect>)
    ensures fresh(renderArea) && IsHull(renderArea.Value(), c, |c.tiles|)
    ensures |tileRecs| == |c.tiles| && forall i :: 0 <= i < |tileRecs| ==> tileRecs[i] == RectOf(c, i)
  {
    hide IsHull;
    var first := c.tiles[0];
    renderArea := new Rectangle(first.x, first.y, c.tileWidth, c.tileHeight);
    tileRecs := [Rect(first.x, first.y, first.x + c.tileWidth, first.y + c.tileHeight)];
    HullOfOne(c);
    for i := 1 to |c.tiles|
      invariant fresh(renderArea) && IsHull(renderArea.Value(), c, i)
      invariant |tileRecs| == i && forall k :: 0 <= k < i ==> tileRecs[k] == RectOf(c, k)
    {
      HullMore(renderArea.Value(), c, i);
      var rectangle := Rect(c.tiles[i].x, c.tiles[i].y, c.tiles[i].x + c.tileWidth, c.tiles[i].y + c.tileHeight);
      renderArea.Extend(rectangle);
      tileRecs := tileRecs + [rectangle];
    }
  }

  /** The tiles while some are erased: those done and not skipped, described, and then all that
      are still to do; the next one to do is the one at the index. */
  ghost predicate Aligned(all: seq<Tile>, outcomes: seq<Outcome>, tiles: seq<Tile>, index: nat, output: seq<Byte>)
    requires |outcomes| <= |all|
  {
    var sent := Sent(all, outcomes);
    index == |sent| && tiles == Header(sent) + all[|outcomes|..] && output == Pictures(sent)
  }

  lemma AlignedStart(all: seq<Tile>)
    ensures Aligned(all, [], all, 0, [])
  {
    assert all[0..] == all;
  }

  lemma AlignedNext(all: seq<Tile>, outcomes: seq<Outcome>, tiles: seq<Tile>, index: nat, output: seq<Byte>)
    requires |outcomes| < |all| && Aligned(all, outcomes, tiles, index, output)
    ensures index < |tiles| && tiles[index] == all[|outcomes|]
  {
  }

  lemma AlignedSkip(all: seq<Tile>, outcomes: seq<Outcome>, tiles: seq<Tile>, index: nat, output: seq<Byte>, o: Outcome)
    requires |outcomes| < |all| && Aligned(all, outcomes, tiles, index, output) && index < |tiles|
    requires Skipped(all[|outcomes|], o.hash, o.wid)
    ensures Aligned(all, outcomes + [o], tiles[..index] + tiles[index + 1..], index, output)
  {
    hide Header, Pictures;
    assert (outcomes + [o])[..|outcomes|] == outcomes;
  }

  lemma AlignedSend(all: seq<Tile>, outcomes: seq<Outcome>, tiles: seq<Tile>, index: nat, output: seq<Byte>, o: Outcome)
    requires |outcomes| < |all| && Aligned(all, outcomes, tiles, index, output) && index < |tiles|
    requires !Skipped(all[|outcomes|], o.hash, o.wid)
    ensures Aligned(all, outcomes + [o], tiles[index := Described(tiles[index], o)], index + 1, output + o.picture)
  {
    var sent := Sent(all, outcomes);
    var d := Described(all[|outcomes|], o);
    SentMore(all, outcomes, o);
    SentOne(sent, d, o.picture);
    hide *;
    StepOn(Header(sent), all, |outcomes|, d);
    AlignedBy(all, outcomes + [o], tiles[index := d], index + 1, output + o.picture);
  }

  lemma StepOn<T>(done: seq<T>, all: seq<T>, n: nat, d: T)
    requires n < |all|
    ensures (done + all[n..])[|done| := d] == (done + [d]) + all[n + 1..]
  {
  }

  lemma AlignedBy(all: seq<Tile>, outcomes: seq<Outcome>, tiles: seq<Tile>, index: nat, output: seq<Byte>)
    requires |outcomes| <= |all| && index == |Sent(all, outcomes)|
    requires tiles == Header(Sent(all, outcomes)) + all[|outcomes|..] && output == Pictures(Sent(all, outcomes))
    ensures Aligned(all, outcomes, tiles, index, output)
  {
  }

  lemma SentMore(all: seq<Tile>, outcomes: seq<Outcome>, o: Outcome)
    requires |outcomes| < |all| && !Skipped(all[|outcomes|], o.hash, o.wid)
    ensures Sent(all, outcomes + [o]) == Sent(all, outcomes) + [(Described(all[|outcomes|], o), o.picture)]
  {
    assert (outcomes + [o])[..|outcomes|] == outcomes;
  }

  lemma SentOne(sent: seq<(Tile, seq<Byte>)>, t: Tile, picture: seq<Byte>)
    ensures Header(sent + [(t, picture)]) == Header(sent) + [t]
    ensures Pictures(sent + [(t, picture)]) == Pictures(sent) + picture
  {
    assert (sent + [(t, picture)])[..|sent|] == sent;
  }

  lemma AlignedEnd(all: seq<Tile>, outcomes: seq<Outcome>, tiles: seq<Tile>, index: nat, output: seq<Byte>)
    requires |outcomes| == |all| && Aligned(all, outcomes, tiles, index, output)
    ensures index == |Kept(all, outcomes)| && tiles == Header(Sent(all, outcomes))
            && output == Pictures(Sent(all, outcomes))
  {
  }

  lemma NothingYet(c: Combined, area: Rect, look: Window -> Look, issued: set<(Hash, WireId)>,
                   content: map<Hash, seq<Byte>>)
    ensures Faithful(c, area, look, [], issued, content)
  {
  }

  datatype Attempt = Unchanged | Encoded | Failed

  /** kit/Kit.cpp:1026-1049: one tile against what the client has, and through the encoder. */
  method EncodeTile(t: Tile, look: Window -> Look, w: Window, cache: PngCache, before: seq<Byte>)
    returns (attempt: Attempt, wireId: WireId, output: seq<Byte>, ghost picture: seq<Byte>)
    requires cache.Valid() && cache.nextId + 1 < WID_MODULUS && Consistent(look, cache.content)
    modifies cache
    ensures cache.Valid() && cache.nextId <= old(cache.nextId) + 1 && Consistent(look, cache.content)
    ensures old(cache.issued) <= cache.issued
    ensures forall h :: h in old(cache.content) ==> h in cache.content && cache.content[h] == old(cache.content)[h]
    ensures attempt == Unchanged <==> Skipped(t, look(w).hash, wireId)
    ensures attempt == Failed ==> look(w).png.None?
    ensures attempt != Failed ==>
              FaithfulOne(t, look(w), Outcome(look(w).hash, wireId, picture), cache.issued, cache.content)
    ensures output == before + picture && (attempt != Encoded ==> picture == [])
  {
    hide Injective, TotalSize, Consistent;
    var hash := look(w).hash;
    wireId := cache.HashToWireId(hash);
    output, picture := before, [];
    assert output == before + picture;
    if hash != 0 && t.oldWireId == wireId {
      return Unchanged, wireId, output, picture;
    }
    ghost var content := cache.content;
    ConsistentHere(look, content, w);
    var ok;
    ok, output := cache.EncodeSubBufferToPNG(hash, wireId, look(w).png, before);
    ConsistentMore(look, content, cache.content, w);
    if !ok {
      return Failed, wireId, output, picture;
    }
    picture := if hash != 0 then cache.content[hash] else look(w).png.value;
    return Encoded, wireId, output, picture;
  }

  lemma ConsistentHere(look: Window -> Look, content: map<Hash, seq<Byte>>, w: Window)
    requires Consistent(look, content)
    ensures look(w).hash in content && look(w).png.Some? ==> look(w).png.value == content[look(w).hash]
  {
  }

  /** kit/Kit.cpp:1008-1056: one turn of the loop. */
  method RenderTile(c: Combined, bounds: Rect, look: Window -> Look, cache: PngCache, tileRect: Rect,
                    tiles: seq<Tile>, tileIndex: nat, output: seq<Byte>, ghost outcomes: seq<Outcome>)
    returns (ok: bool, tilesAfter: seq<Tile>, indexAfter: nat, outputAfter: seq<Byte>,
        ghost outcomesAfter: seq<Outcome>)
    requires |outcomes| < |c.tiles| && tileRect == RectOf(c, |outcomes|)
    requires cache.Valid() && cache.nextId + 1 < WID_MODULUS && Consistent(look, cache.content)
    requires Aligned(c.tiles, outcomes, tiles, tileIndex, output)
    requires Faithful(c, bounds, look, outcomes, cache.issued, cache.content)
    modifies cache
    ensures cache.Valid() && cache.nextId <= old(cache.nextId) + 1 && Consistent(look, cache.content)
    ensures |outcomesAfter| == |outcomes| + if ok then 1 else 0
    ensures ok ==> Aligned(c.tiles, outcomesAfter, tilesAfter, indexAfter, outputAfter)
    ensures !ok ==> look(WindowOf(c, bounds, RectOf(c, |outcomes|))).png.None?
    ensures Faithful(c, bounds, look, outcomesAfter, cache.issued, cache.content)
  {
    hide *;
    AlignedNext(c.tiles, outcomes, tiles, tileIndex, output);
    var w := WindowOf(c, bounds, tileRect);
    ghost var issued, content := cache.issued, cache.content;
    var attempt, wireId, longer, picture := EncodeTile(tiles[tileIndex], look, w, cache, output);
    ghost var o := Outcome(look(w).hash, wireId, picture);
    if attempt == Failed {
      FaithfulStill(c, bounds, look, outcomes, issued, cache.issued, content, cache.content);
      return false, tiles, tileIndex, output, outcomes;
    }
    FaithfulMore(c, bounds, look, outcomes, o, issued, cache.issued, content, cache.content);
    outcomesAfter := outcomes + [o];
    if attempt == Unchanged {
      AlignedSkip(c.tiles, outcomes, tiles, tileIndex, output, o);
      return true, tiles[..tileIndex] + tiles[tileIndex + 1..], tileIndex, output, outcomesAfter;
    }
    AlignedSend(c.tiles, outcomes, tiles, tileIndex, output, o);
    var imgSize := |longer| - |output|;
    DescribedAs(tiles[tileIndex], o, wireId, imgSize);
    return true, tiles[tileIndex := tiles[tileIndex].(wireId := wireId, imgSize := imgSize)], tileIndex + 1, longer,
        outcomesAfter;
  }

  /** kit/Kit.cpp:925-1078. The response has a header for exactly the tiles that were not
      skipped, and their pictures; there is none if all were skipped or one did not encode. */
  method RenderCombinedTiles(c: Combined, look: Window -> Look, cache: PngCache)
    returns (response: Option<(seq<Tile>, seq<Byte>)>, ghost area: Rect, ghost outcomes: seq<Outcome>)
    requires cache.Valid() && cache.nextId + |c.tiles| < WID_MODULUS && Consistent(look, cache.content)
    modifies cache
    ensures cache.Valid()
    ensures IsHull(area, c, |c.tiles|)
    ensures |outcomes| <= |c.tiles| && Faithful(c, area, look, outcomes, cache.issued, cache.content)
    ensures response.Some? ==>
              && |outcomes| == |c.tiles| && Kept(c.tiles, outcomes) != []
              && response.value == (Header(Sent(c.tiles, outcomes)), Pictures(Sent(c.tiles, outcomes)))
    ensures response.None? ==>
              if |outcomes| == |c.tiles| then Kept(c.tiles, outcomes) == []
              else look(WindowOf(c, area, RectOf(c, |outcomes|))).png.None?
  {
    hide *;
    var renderArea, tileRecs := LayOut(c);
    var bounds := renderArea.Value();
    area := bounds;
    outcomes := [];
    var tiles: seq<Tile>, tileIndex, output := c.tiles, 0, [];
    AlignedStart(c.tiles);
    NothingYet(c, area, look, cache.issued, cache.content);
    for n := 0 to |tileRecs|
      invariant |outcomes| == n && cache.Valid() && cache.nextId + |c.tiles| - n < WID_MODULUS
      invariant Aligned(c.tiles, outcomes, tiles, tileIndex, output)
      invariant Faithful(c, area, look, outcomes, cache.issued, cache.content)
      invariant Consistent(look, cache.content)
    {
      var ok;
      ok, tiles, tileIndex, output, outcomes := RenderTile(c, bounds, look, cache, tileRecs[n], tiles, tileIndex,
          output, outcomes);
      if !ok {
        return None, area, outcomes;
      }
    }
    AlignedEnd(c.tiles, outcomes, tiles, tileIndex, output);
    response := if tileIndex == 0 then None else Some((tiles, output));
  }

  lemma DescribedAs(t: Tile, o: Outcome, wireId: WireId, imgSize: nat)
    requires o.wid == wireId && imgSize == |o.picture|
    ensures Described(t, o) == t.(wireId := wireId, imgSize := imgSize)
  {
  }

  lemma FaithfulStill(c: Combined, area: Rect, look: Window -> Look, outcomes: seq<Outcome>,
                      was: set<(Hash, WireId)>, issued: set<(Hash, WireId)>,
                      before: map<Hash, seq<Byte>>, content: map<Hash, seq<Byte>>)
    requires |outcomes| <= |c.tiles| && Faithful(c, area, look, outcomes, was, before)
    requires was <= issued && forall h :: h in before ==> h in content && content[h] == before[h]
    ensures Faithful(c, area, look, outcomes, issued, content)
  {
    forall i | 0 <= i < |outcomes|
      ensures FaithfulOne(c.tiles[i], look(WindowOf(c, area, RectOf(c, i))), outcomes[i], issued, content)
    {
      assert FaithfulOne(c.tiles[i], look(WindowOf(c, area, RectOf(c, i))), outcomes[i], was, before);
    }
  }

  /** A skipped tile is one whose wire id stood for this very hash: no other hash was issued it. */
  lemma SkippedIsUnchanged(c: Combined, area: Rect, look: Window -> Look, outcomes: seq<Outcome>,
                           issued: set<(Hash, WireId)>,
                           content: map<Hash, seq<Byte>>, i: nat, seen: Hash)
    requires |outcomes| <= |c.tiles| && Faithful(c, area, look, outcomes, issued, content) && Unambiguous(issued)
    requires i < |outcomes| && (seen, c.tiles[i].oldWireId) in issued
    ensures Skipped(c.tiles[i], outcomes[i].hash, outcomes[i].wid) ==>
            seen == look(WindowOf(c, area, RectOf(c, i))).hash
  {
    assert FaithfulOne(c.tiles[i], look(WindowOf(c, area, RectOf(c, i))), outcomes[i], issued, content);
  }
}
