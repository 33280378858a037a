/** What the tile queue makes of rectangles, in points: the tile that is rendered first shares one
    with a cursor, and only invalidations that share one are joined. */
module TileQueueGeometry {
  import opened Basics
  import opened Tiles
  import opened InvalidationText
  import opened TileQueues
  import opened TileQueueRuns

  // ----- tiles at cursors -----

  ghost predicate Touches(t: Tile, c: Cursor) {
    ShareAPoint(t.x, t.y, t.tileWidth, t.tileHeight, c.x, c.y, c.width, c.height)
  }

  predicate SizedCursors(cursors: Cursors) {
    forall v :: v in cursors ==> cursors[v].width >= 0 && cursors[v].height >= 0
  }

  lemma TouchesIff(t: Tile, cursors: Cursors, v: ViewId)
    requires v in cursors && SizedCursors(cursors)
    ensures Touches(t, cursors[v]) <==> AtCursor(t, cursors[v])
  {
    var c := cursors[v];
    IntersectIff(t.x, t.y, t.tileWidth, t.tileHeight, c.x, c.y, c.width, c.height);
    hide ShareAPoint;
  }

  /** The priority of a tile is the place of the latest view that has its cursor at some point of
      it, and -1 if there is none. */
  lemma PriorityIs(t: Tile, cursors: Cursors, order: seq<ViewId>, r: int)
    requires Known(order, cursors) && SizedCursors(cursors) && -1 <= r < |order|
    ensures r == Priority(t, cursors, order) <==>
              && (r >= 0 ==> Touches(t, cursors[order[r]]))
              && forall v :: r < v < |order| ==> !Touches(t, cursors[order[v]])
  {
    forall v | 0 <= v < |order| ensures Touches(t, cursors[order[v]]) <==> AtCursor(t, cursors[order[v]]) {
      TouchesIff(t, cursors, order[v]);
    }
    hide Touches, AtCursor;
  }

  /** What goes with a tile: those of its kind at a height of it and few columns away. */
  ghost predicate GoesWith(first: Tile, m: Message) {
    IsPlainTile(m) && SameButPlace(first, m.body.tile) && ShareAHeight(first, m.body.tile)
    && FewColumns(first, m.body.tile)
  }

  lemma CombinesIff(first: Tile, m: Message)
    ensures Combines(first, m) <==> GoesWith(first, m)
  {
    hide CanCombine, SameButPlace, ShareAHeight, FewColumns;
    if IsPlainTile(m) {
      CombineIff(first, m.body.tile);
    }
  }

  /** If a plain tile is in front, the view that decides is the latest one whose cursor is at a
      point of any leading tile, and the first such tile is taken; if there is no such view, the
      one in front is.  With it go the plain tiles of its kind that are near, and no others. */
  lemma GetTakesTouching(q: Queue, cursors: Cursors, order: seq<ViewId>) returns (p: nat, r: int)
    requires q != [] && Known(order, cursors) && SizedCursors(cursors) && IsPlainTile(q[0])
    ensures p < LeadingTiles(q) <= |q| && -1 <= r < |order|
    ensures forall i, v :: 0 <= i < LeadingTiles(q) && r < v < |order| ==> !Touches(q[i].body.tile, cursors[order[v]])
    ensures if r == -1 then p == 0
            else Touches(q[p].body.tile, cursors[order[r]]) &&
                 forall i :: 0 <= i < p ==> !Touches(q[i].body.tile, cursors[order[r]])
    ensures var g := GetFrom(q, cursors, order);
            && g.taken[0] == q[p]
            && (forall m :: m in g.taken[1..] ==> GoesWith(q[p].body.tile, m))
            && (forall m :: m in g.rest ==> !GoesWith(q[p].body.tile, m))
  {
    p := GetTakes(q, cursors, order);
    r := Priority(q[p].body.tile, cursors, order);
    forall m ensures Combines(q[p].body.tile, m) <==> GoesWith(q[p].body.tile, m) {
      CombinesIff(q[p].body.tile, m);
    }
    forall i | 0 <= i < LeadingTiles(q)
      ensures forall v :: r < v < |order| ==> !Touches(q[i].body.tile, cursors[order[v]])
      ensures i < p && r >= 0 ==> !Touches(q[i].body.tile, cursors[order[r]])
    {
      hide GetFrom, AllCombine, Combines, GoesWith;
      PriorityIs(q[i].body.tile, cursors, order, Priority(q[i].body.tile, cursors, order));
      hide Priority, Touches;
    }
    PriorityIs(q[p].body.tile, cursors, order, r);
    hide Priority, Touches, Combines, GoesWith, GetFrom;
  }

  // ----- invalidations -----

  predicate At(x: int, y: int, a: Area) {
    Inside(x, y, a.x, a.y, a.w, a.h)
  }

  predicate Sized(a: Area) {
    a.w >= 0 && a.h >= 0
  }

  ghost predicate Meets(a: Area, b: Area) {
    exists x, y :: At(x, y, a) && At(x, y, b)
  }

  ghost predicate Contains(a: Area, b: Area) {
    forall x, y :: At(x, y, b) ==> At(x, y, a)
  }

  lemma MeetsIff(a: Area, b: Area)
    requires Sized(a) && Sized(b)
    ensures Meets(a, b) <==> RectanglesIntersect(a.x, a.y, a.w, a.h, b.x, b.y, b.w, b.h)
  {
    IntersectIff(a.x, a.y, a.w, a.h, b.x, b.y, b.w, b.h);
    hide RectanglesIntersect, Inside;
    if ShareAPoint(a.x, a.y, a.w, a.h, b.x, b.y, b.w, b.h) {
      var x, y :| Inside(x, y, a.x, a.y, a.w, a.h) && Inside(x, y, b.x, b.y, b.w, b.h);
      assert At(x, y, a) && At(x, y, b);
    }
  }

  lemma ContainsIff(a: Area, b: Area)
    requires Sized(b)
    ensures Contains(a, b) <==> Covers(a, b)
  {
    if Contains(a, b) {
      assert At(b.x, b.y, b) && At(b.x + b.w, b.y + b.h, b);
    }
  }

  /** The least rectangle around two. */
  ghost predicate IsHull(hull: Area, a: Area, b: Area) {
    && Sized(hull) && hull.part == a.part && Contains(hull, a) && Contains(hull, b)
    && forall c :: Contains(c, a) && Contains(c, b) ==> Contains(c, hull)
  }

  lemma JoinedIsHull(a: Area, b: Area)
    requires Sized(a) && Sized(b)
    ensures IsHull(Joined(a, b), a, b)
  {
    var hull := Joined(a, b);
    ContainsIff(hull, a);
    ContainsIff(hull, b);
    forall c | Contains(c, a) && Contains(c, b) ensures Contains(c, hull) {
      ContainsIff(c, a);
      ContainsIff(c, b);
      ContainsIff(c, hull);
    }
  }

  predicate SizedQueue(q: Queue) {
    forall i :: 0 <= i < |q| && q[i].body.Invalidation? ==> Sized(q[i].body.area)
  }

  /** What the rectangle of an invalidation has grown to before the message in a place is looked at. */
  function Grown(q: Queue, target: string, a: Area, k: nat): Area
    requires k <= |q|
  {
    if k == 0 then a
    else
      var before := Grown(q, target, a, k - 1);
      if Invalidates(q[k - 1], target, a.part) && CanJoin(before, q[k - 1].body.area)
         && !Covers(before, q[k - 1].body.area)
      then Joined(before, q[k - 1].body.area) else before
  }

  lemma {:induction false} GrownSized(q: Queue, target: string, a: Area, k: nat)
    requires k <= |q| && SizedQueue(q) && Sized(a)
    ensures Sized(Grown(q, target, a, k)) && Grown(q, target, a, k).part == a.part
  {
    if k > 0 {
      GrownSized(q, target, a, k - 1);
    }
  }

  lemma {:induction false} GrownLater(q: Queue, target: string, a: Area, k: nat)
    requires 0 < k <= |q|
    ensures Grown(q, target, a, k) == Grown(q[1..], target, Grown(q, target, a, 1), k - 1)
  {
    if k > 1 {
      GrownLater(q, target, a, k - 1);
      assert q[1..][k - 2] == q[k - 1];
      assert Grown(q, target, a, 1).part == a.part;
      hide CanJoin, Covers;
    }
  }

  lemma {:induction false} AbsorbedGrown(q: Queue, target: string, a: Area, k: nat)
    requires k < |q|
    ensures var g := Grown(q, target, a, k);
            Absorbed(q, target, a, k) <==>
              Invalidates(q[k], target, a.part) && (Covers(g, q[k].body.area) || CanJoin(g, q[k].body.area))
    decreases k
  {
    if k > 0 {
      GrownLater(q, target, a, k);
      var first := Grown(q, target, a, 1);
      assert first.part == a.part && q[1..][k - 1] == q[k];
      AbsorbedGrown(q[1..], target, first, k - 1);
      hide CanJoin, Covers, Invalidates;
    }
  }

  /** An invalidation in the queue is absorbed exactly if it shares a point with the rectangle as it
      has grown by then, and is in it or small enough with it; the least rectangle around both is
      what is gone on with. */
  lemma AbsorbedIff(q: Queue, target: string, a: Area, k: nat)
    requires k < |q| && SizedQueue(q) && Sized(a)
    ensures Absorbed(q, target, a, k) <==>
              && Invalidates(q[k], target, a.part)
              && var g, b := Grown(q, target, a, k), q[k].body.area;
                 Meets(g, b) && (Contains(g, b) || (Joined(g, b).w <= 15360 && Joined(g, b).h <= 7680))
    ensures if Absorbed(q, target, a, k) then
              IsHull(Grown(q, target, a, k + 1), Grown(q, target, a, k), q[k].body.area)
            else Grown(q, target, a, k + 1) == Grown(q, target, a, k)
  {
    AbsorbedGrown(q, target, a, k);
    GrownSized(q, target, a, k);
    var g := Grown(q, target, a, k);
    if Invalidates(q[k], target, a.part) {
      OneStep(g, q[k].body.area);
    }
    hide Absorbed, Meets, Contains, Covers, CanJoin, IsHull, Joined;
  }

  lemma OneStep(g: Area, b: Area)
    requires Sized(g) && Sized(b)
    ensures Covers(g, b) || CanJoin(g, b) <==>
              Meets(g, b) && (Contains(g, b) || (Joined(g, b).w <= 15360 && Joined(g, b).h <= 7680))
    ensures IsHull(Joined(g, b), g, b) && (Covers(g, b) ==> IsHull(g, g, b))
  {
    MeetsIff(g, b);
    ContainsIff(g, b);
    JoinedIsHull(g, b);
    if Covers(g, b) {
      assert IsHull(g, g, b);
    }
    hide Meets, Contains, IsHull;
  }

  /** What is put in the end. */
  lemma {:induction false} MergedArea(q: Queue, target: string, a: Area, performed: bool)
    ensures Merge(q, target, a, performed).area == Grown(q, target, a, |q|)
    decreases |q|
  {
    if q != [] {
      GrownLater(q, target, a, |q|);
      var first := Grown(q, target, a, 1);
      assert first.part == a.part;
      MergedArea(q[1..], target, first, performed);
      MergedArea(q[1..], target, first, true);
      hide CanJoin, Covers, Invalidates;
    }
  }

  lemma {:induction false} MergeAlone(q: Queue, target: string, a: Area, performed: bool)
    ensures Merge(q, target, a, performed) == Merged(q, a, performed) <==>
              forall m :: m in q && Invalidates(m, target, a.part) ==>
                  !Covers(a, m.body.area) && !CanJoin(a, m.body.area)
    ensures |Merge(q, target, a, performed).queue| <= |q|
    decreases |q|
  {
    if q != [] {
      assert q == [q[0]] + q[1..];
      MergeAlone(q[1..], target, a, performed);
      if Invalidates(q[0], target, a.part) {
        MergeAlone(q[1..], target, Joined(a, q[0].body.area), true);
      }
      hide Covers, CanJoin;
    }
  }

  /** Nothing is merged exactly if no invalidation for the same target and part is in the rectangle
      that is put, or shares a point with it and is small enough with it. */
  lemma NothingMergedIff(q: Queue, target: string, a: Area)
    requires SizedQueue(q) && Sized(a)
    ensures Merge(q, target, a, false) == Merged(q, a, false) <==>
              forall m :: m in q && Invalidates(m, target, a.part) ==>
                  !Contains(a, m.body.area)
                  && (Meets(a, m.body.area) ==> Joined(a, m.body.area).w > 15360 || Joined(a, m.body.area).h > 7680)
  {
    MergeAlone(q, target, a, false);
    forall m | m in q && Invalidates(m, target, a.part)
      ensures Covers(a, m.body.area) || CanJoin(a, m.body.area) <==>
                Contains(a, m.body.area) ||
                (Meets(a, m.body.area) && Joined(a, m.body.area).w <= 15360 && Joined(a, m.body.area).h <= 7680)
    {
      OneStep(a, m.body.area);
      ContainsIff(a, m.body.area);
      MeetsIff(a, m.body.area);
    }
    hide Merge, Covers, CanJoin, Meets, Contains, Joined;
  }
}
