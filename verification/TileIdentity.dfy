/** A tile rendered alone and the same tile in a combined picture: one hash and one wire id, so
    that a tile the client has from one of them is recognised in the other.  This puts together
    the painting, the hashing and the wire ids of kit/Kit.cpp. */
module TileIdentity {
  import opened Basics
  import opened Spooky
  import opened SpookyHashing
  import opened CombinedRendering
  import PngCaching

  /** The bytes of a pixel. */
  type Colour = p: seq<Byte8> | |p| == 4 witness [0, 0, 0, 0]

  predicate ShowsByte(pixmap: seq<Byte8>, page: (real, real) -> Colour, area: Rect, width: nat, height: nat,
                      px: nat, py: nat, b: nat)
    requires width > 0 && height > 0 && b < 4
  {
    && RowStart(px, py, width) + b < |pixmap|
    && pixmap[RowStart(px, py, width) + b] == Painted(page, area, width, height, px, py)[b]
  }

  /** A picture of an area of a page, byte for byte. */
  ghost predicate Shows(pixmap: seq<Byte8>, page: (real, real) -> Colour, area: Rect, width: nat, height: nat)
    requires width > 0 && height > 0
  {
    && |pixmap| == Bytes(height, width)
    && forall px: nat, py: nat, b: nat :: px < width && py < height && b < 4 ==>
         ShowsByte(pixmap, page, area, width, height, px, py, b)
  }

  lemma PixelOfRow(startX: nat, y: nat, width: nat, px: nat)
    ensures RowStart(startX, y, width) + px * 4 == RowStart(startX + px, y, width)
  {
  }

  /** A tile of a combined request that was painted alone, and the picture of them all. */
  ghost predicate PaintedBoth(page: (real, real) -> Colour, c: Combined, area: Rect, i: nat, alone: seq<Byte8>,
                              pixmap: seq<Byte8>) {
    && OnGrid(c) && IsHull(area, c, |c.tiles|) && i < |c.tiles|
    && Shows(alone, page, RectOf(c, i), c.width, c.height)
    && PixmapWidth(c, area) > 0 && PixmapHeight(c, area) > 0
    && Shows(pixmap, page, area, PixmapWidth(c, area), PixmapHeight(c, area))
  }

  /** Where the tile's window is in the picture of them all. */
  lemma WindowFits(page: (real, real) -> Colour, c: Combined, area: Rect, i: nat, alone: seq<Byte8>, pixmap: seq<Byte8>)
    requires PaintedBoth(page, c, area, i, alone, pixmap)
    ensures var w := WindowOf(c, area, RectOf(c, i));
            && 0 <= w.x && 0 <= w.y
            && w.x + c.width <= PixmapWidth(c, area) && w.y + c.height <= PixmapHeight(c, area)
            && |pixmap| == Bytes(PixmapHeight(c, area), PixmapWidth(c, area))
            && Bytes(w.y + c.height, PixmapWidth(c, area)) <= |pixmap|
            && |alone| == Bytes(c.height, c.width)
  {
    hide ShowsByte, Painted, PixmapWidth, PixmapHeight, IsHull, OnGrid;
    WindowInside(c, area, i);
    var w := WindowOf(c, area, RectOf(c, i));
    BytesGrow(w.y + c.height, PixmapHeight(c, area), PixmapWidth(c, area));
  }

  lemma SamePixel(page: (real, real) -> Colour, c: Combined, area: Rect, i: nat, alone: seq<Byte8>, pixmap: seq<Byte8>,
                  y: nat, x: nat)
    requires PaintedBoth(page, c, area, i, alone, pixmap) && y < c.height && x < c.width * 4
    ensures var w := WindowOf(c, area, RectOf(c, i));
            && 0 <= w.x && 0 <= w.y
            && SameByte(alone, pixmap, w.x, w.y, c.width, PixmapWidth(c, area), y, x)
  {
    WindowFits(page, c, area, i, alone, pixmap);
    var w := WindowOf(c, area, RectOf(c, i));
    var px, b := x / 4, x % 4;
    WindowShowsTile(page, c, area, i, px, y);
    hide PixmapWidth, PixmapHeight, RectOf, IsHull, OnGrid, Painted, WindowOf, Bytes;
    PixelOfRow(0, y, c.width, px);
    PixelOfRow(w.x, w.y + y, PixmapWidth(c, area), px);
    hide RowStart;
    assert ShowsByte(alone, page, RectOf(c, i), c.width, c.height, px, y, b);
    assert ShowsByte(pixmap, page, area, PixmapWidth(c, area), PixmapHeight(c, area), w.x + px, w.y + y, b);
  }

  /** The picture of the tile alone is what is cut out of the picture of them all. */
  lemma AloneIsCutOut(page: (real, real) -> Colour, c: Combined, area: Rect, i: nat, alone: seq<Byte8>,
                      pixmap: seq<Byte8>)
    requires PaintedBoth(page, c, area, i, alone, pixmap)
    ensures var w := WindowOf(c, area, RectOf(c, i));
            && 0 <= w.x && 0 <= w.y && w.x + c.width <= PixmapWidth(c, area)
            && Bytes(w.y + c.height, PixmapWidth(c, area)) <= |pixmap|
            && alone == CutOut(pixmap, w.x, w.y, c.width, c.height, PixmapWidth(c, area))
  {
    WindowFits(page, c, area, i, alone, pixmap);
    var w := WindowOf(c, area, RectOf(c, i));
    var pixmapWidth := PixmapWidth(c, area);
    forall y: nat, x: nat | y < c.height && x < c.width * 4
      ensures SameByte(alone, pixmap, w.x, w.y, c.width, pixmapWidth, y, x)
    {
      SamePixel(page, c, area, i, alone, pixmap, y, x);
    }
    hide PaintedBoth, SameByte, CutOut, Bytes;
    ShowsCutOut(alone, pixmap, w.x, w.y, c.width, c.height, pixmapWidth);
  }

  /** kit/Kit.cpp:891-892: the hash and the wire id of a tile rendered alone. */
  method AloneId(alone: seq<Byte8>, width: nat, height: nat, cache: PngCaching.PngCache)
    returns (hash: Word, wid: PngCaching.WireId)
    requires |alone| == Bytes(height, width) && cache.Valid()
    modifies cache
    ensures cache.Valid() && hash == Hash64(alone, PNG_SEED)
    ensures hash as nat != 0 ==> hash as nat in cache.hashToWid && cache.hashToWid[hash as nat] == wid
    ensures hash as nat == 0 ==> wid == 0
  {
    hide Hash64, Bytes;
    hash := HashBuffer(alone, width, height);
    assert alone[..|alone|] == alone;
    wid := cache.HashToWireId(hash as nat);
  }

  /** kit/Kit.cpp:1012-1029: the hash and the wire id of a tile in the picture of several.  The
      hash is that of the tile alone; the wire id is the one it had alone, while that is remembered. */
  method CombinedId(ghost page: (real, real) -> Colour, c: Combined, area: Rect, i: nat, ghost alone: seq<Byte8>,
                    pixmap: seq<Byte8>, cache: PngCaching.PngCache)
    returns (hash: Word, wid: PngCaching.WireId)
    requires PaintedBoth(page, c, area, i, alone, pixmap) && cache.Valid()
    modifies cache
    ensures cache.Valid() && hash == Hash64(alone, PNG_SEED)
    ensures hash as nat == 0 ==> wid == 0
    ensures hash as nat != 0 && hash as nat in old(cache.hashToWid) ==> wid == old(cache.hashToWid)[hash as nat]
  {
    WindowFits(page, c, area, i, alone, pixmap);
    AloneIsCutOut(page, c, area, i, alone, pixmap);
    var w := WindowOf(c, area, RectOf(c, i));
    hide Hash64, Bytes, CutOut, PaintedBoth, PixmapWidth, PixmapHeight, WindowOf, RectOf;
    hash := HashSubBuffer(pixmap, w.x, w.y, c.width, c.height, PixmapWidth(c, area), PixmapHeight(c, area));
    wid := cache.HashToWireId(hash as nat);
  }

  /** A tile rendered alone and then again among others: if nothing has changed on the page, a
      client that kept the wire id is not sent it again, unless the hash is 0. */
  method AloneThenCombined(ghost page: (real, real) -> Colour, c: Combined, area: Rect, i: nat, alone: seq<Byte8>,
                           pixmap: seq<Byte8>, cache: PngCaching.PngCache)
    returns (single: Word, aloneId: PngCaching.WireId, combined: Word, combinedId: PngCaching.WireId)
    requires PaintedBoth(page, c, area, i, alone, pixmap) && cache.Valid()
    modifies cache
    ensures single == combined && aloneId == combinedId
    ensures i < |c.tiles| && c.tiles[i].oldWireId == aloneId ==>
              (Skipped(c.tiles[i], combined as nat, combinedId) <==> combined as nat != 0)
  {
    WindowFits(page, c, area, i, alone, pixmap);
    hide Hash64, Bytes, PaintedBoth;
    single, aloneId := AloneId(alone, c.width, c.height, cache);
    combined, combinedId := CombinedId(page, c, area, i, alone, pixmap, cache);
  }
}
