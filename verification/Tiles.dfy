/** The tile descriptors of wsd/TileDesc.hpp. */
module Tiles {
  datatype TileDesc = TileDesc(
    nviewid: nat, part: nat, width: nat, height: nat, x: nat, y: nat, tileWidth: nat, tileHeight: nat,
    oldWireId: nat, wireId: nat, ver: int, id: int, imgSize: nat, broadcast: bool)

  const SOME_TILE := TileDesc(0, 0, 1, 1, 0, 0, 1, 1, 0, 0, -1, -1, 0, false)

  /** What the constructor does not refuse; an id below 0 stands for none. */
  type Tile = t: TileDesc | t.width > 0 && t.height > 0 && t.tileWidth > 0 && t.tileHeight > 0 && t.id >= -1
    witness SOME_TILE

  /** wsd/TileDesc.hpp:94-100: rectangles that merely touch do intersect. */
  predicate RectanglesIntersect(x1: int, y1: int, w1: int, h1: int, x2: int, y2: int, w2: int, h2: int) {
    x1 + w1 >= x2 && x1 <= x2 + w2 && y1 + h1 >= y2 && y1 <= y2 + h2
  }

  /** A point in a rectangle, its edges among them. */
  predicate Inside(px: int, py: int, x: int, y: int, w: int, h: int) {
    x <= px <= x + w && y <= py <= y + h
  }

  ghost predicate ShareAPoint(x1: int, y1: int, w1: int, h1: int, x2: int, y2: int, w2: int, h2: int) {
    exists px, py :: Inside(px, py, x1, y1, w1, h1) && Inside(px, py, x2, y2, w2, h2)
  }

  /** Rectangles share a point exactly if they are found to intersect and none has a negative size. */
  lemma IntersectIff(x1: int, y1: int, w1: int, h1: int, x2: int, y2: int, w2: int, h2: int)
    ensures ShareAPoint(x1, y1, w1, h1, x2, y2, w2, h2) <==>
              RectanglesIntersect(x1, y1, w1, h1, x2, y2, w2, h2) && w1 >= 0 && h1 >= 0 && w2 >= 0 && h2 >= 0
  {
    var px, py := if x1 < x2 then x2 else x1, if y1 < y2 then y2 else y1;
    if RectanglesIntersect(x1, y1, w1, h1, x2, y2, w2, h2) && w1 >= 0 && h1 >= 0 && w2 >= 0 && h2 >= 0 {
      assert Inside(px, py, x1, y1, w1, h1) && Inside(px, py, x2, y2, w2, h2);
    }
  }

  predicate SameKind(a: Tile, b: Tile) {
    && a.part == b.part && a.width == b.width && a.height == b.height
    && a.tileWidth == b.tileWidth && a.tileHeight == b.tileHeight && a.nviewid == b.nviewid
  }

  /** wsd/TileDesc.hpp:127-141. */
  predicate OnSameRow(a: Tile, b: Tile) {
    SameKind(a, b) && b.y + b.tileHeight >= a.y && b.y <= a.y + a.tileHeight
  }

  /** wsd/TileDesc.hpp:143-155. */
  predicate CanCombine(a: Tile, b: Tile) {
    OnSameRow(a, b) && -16 <= a.x / a.tileWidth - b.x / b.tileWidth <= 16
  }

  /** Where a tile begins, in widths of a tile. */
  predicate InColumn(t: Tile, c: nat) {
    c * t.tileWidth <= t.x < (c + 1) * t.tileWidth
  }

  lemma ColumnIs(t: Tile, c: nat)
    ensures InColumn(t, c) <==> c == t.x / t.tileWidth
  {
    var d, w := t.x / t.tileWidth, t.tileWidth;
    assert d * w <= t.x < (d + 1) * w;
    if c < d {
      Multiples(c + 1, d, w);
    } else if c > d {
      Multiples(d + 1, c, w);
    }
  }

  lemma Multiples(a: nat, b: nat, w: nat)
    requires a <= b
    ensures a * w <= b * w
  {
  }

  /** Some height that both tiles are at, their edges among them. */
  ghost predicate ShareAHeight(a: Tile, b: Tile) {
    exists py :: AtHeight(py, a) && AtHeight(py, b)
  }

  predicate AtHeight(py: int, t: Tile) {
    t.y <= py <= t.y + t.tileHeight
  }

  /** At most sixteen columns apart. */
  ghost predicate FewColumns(a: Tile, b: Tile) {
    exists c: nat, d: nat :: InColumn(a, c) && InColumn(b, d) && -16 <= c - d <= 16
  }

  predicate SameButPlace(a: Tile, b: Tile) {
    b == a.(x := b.x, y := b.y, oldWireId := b.oldWireId, wireId := b.wireId, ver := b.ver, id := b.id,
            imgSize := b.imgSize, broadcast := b.broadcast)
  }

  lemma OnSameRowIff(a: Tile, b: Tile)
    ensures OnSameRow(a, b) <==> SameButPlace(a, b) && ShareAHeight(a, b)
  {
    var py := if a.y < b.y then b.y else a.y;
    if OnSameRow(a, b) {
      assert AtHeight(py, a) && AtHeight(py, b);
    }
  }

  lemma FewColumnsIff(a: Tile, b: Tile)
    ensures FewColumns(a, b) <==> -16 <= a.x / a.tileWidth - b.x / b.tileWidth <= 16
  {
    ColumnIs(a, a.x / a.tileWidth);
    ColumnIs(b, b.x / b.tileWidth);
    hide InColumn;
    if FewColumns(a, b) {
      var c: nat, d: nat :| InColumn(a, c) && InColumn(b, d) && -16 <= c - d <= 16;
      ColumnIs(a, c);
      ColumnIs(b, d);
    }
  }

  /** Tiles of one kind are combined exactly if they are at one height and few columns apart. */
  lemma CombineIff(a: Tile, b: Tile)
    ensures CanCombine(a, b) <==> SameButPlace(a, b) && ShareAHeight(a, b) && FewColumns(a, b)
  {
    hide OnSameRow, SameButPlace, ShareAHeight, FewColumns;
    OnSameRowIff(a, b);
    FewColumnsIff(a, b);
  }

  /** Several tiles that share a view, a part and their sizes. */
  datatype TileCombined = TileCombined(
    nviewid: nat, part: nat, width: nat, height: nat, tileWidth: nat, tileHeight: nat, tiles: seq<Tile>)

  /** The tiles of a combined request are all of its own kind. */
  predicate WellCombined(c: TileCombined) {
    && c.width > 0 && c.height > 0 && c.tileWidth > 0 && c.tileHeight > 0
    && forall i :: 0 <= i < |c.tiles| ==>
         && c.tiles[i].nviewid == c.nviewid && c.tiles[i].part == c.part
         && c.tiles[i].width == c.width && c.tiles[i].height == c.height
         && c.tiles[i].tileWidth == c.tileWidth && c.tiles[i].tileHeight == c.tileHeight
  }

  /** What of a tile gets through a combined request: not the image size, the id or the broadcast mark. */
  function Stripped(t: Tile): Tile {
    t.(imgSize := 0, id := -1, broadcast := false)
  }

  /** wsd/TileDesc.hpp:513-534: the kind is that of the first tile. */
  function Create(tiles: seq<Tile>): TileCombined
    requires tiles != []
  {
    var f := tiles[0];
    TileCombined(f.nviewid, f.part, f.width, f.height, f.tileWidth, f.tileHeight,
                 seq(|tiles|, i requires 0 <= i < |tiles| =>
                   TileDesc(f.nviewid, f.part, f.width, f.height, tiles[i].x, tiles[i].y, f.tileWidth, f.tileHeight,
                            tiles[i].oldWireId, tiles[i].wireId, tiles[i].ver, -1, 0, false)))
  }

  /** Tiles that all combine with the first survive being combined, but for what is stripped. */
  lemma CreateKeepsTiles(tiles: seq<Tile>)
    requires tiles != [] && forall i :: 0 < i < |tiles| ==> CanCombine(tiles[0], tiles[i])
    ensures WellCombined(Create(tiles))
    ensures Create(tiles).tiles == seq(|tiles|, i requires 0 <= i < |tiles| => Stripped(tiles[i]))
  {
    forall i | 0 <= i < |tiles| ensures Create(tiles).tiles[i] == Stripped(tiles[i]) {
    }
  }
}
