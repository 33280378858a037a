/** Tile requests as text: TileDesc::serialize, and what common/MessageQueue.cpp looks for in it. */
module TileText {
  import opened Text
  import opened Tiles

  const LABELS := ["nviewid", "part", "width", "height", "tileposx", "tileposy", "tilewidth", "tileheight",
                   "oldwid", "wid"]

  function Fields(t: Tile): (r: seq<nat>)
    ensures |r| == |LABELS|
  {
    [t.nviewid, t.part, t.width, t.height, t.x, t.y, t.tileWidth, t.tileHeight, t.oldWireId, t.wireId]
  }

  function FieldText(labels: seq<string>, values: seq<nat>): string
    requires |labels| == |values|
  {
    if labels == [] then "" else " " + labels[0] + "=" + Digits(values[0]) + FieldText(labels[1..], values[1..])
  }

  /** The request up to its version, which is what tells two requests apart. */
  function Head(t: Tile): string {
    "tile" + FieldText(LABELS, Fields(t))
  }

  function Tail(t: Tile): string {
    " ver=" + Decimal(t.ver) +
    (if t.id >= 0 then " id=" + Decimal(t.id) else "") +
    (if t.imgSize > 0 then " imgsize=" + Decimal(t.imgSize) else "") +
    (if t.broadcast then " broadcast=yes" else "")
  }

  /** wsd/TileDesc.hpp:159-193. */
  function Serialize(t: Tile): string {
    Head(t) + Tail(t)
  }

  // ----- duplicates -----

  /** The digits of the first number are where those of the second begin. */
  predicate BeginsWith(b: nat, a: nat) {
    a == b || (b >= 10 && BeginsWith(b / 10, a))
  }

  /** Requests that are taken for the same: all is equal but for the wire id, of which only the
      beginning is compared. */
  predicate SameRequest(request: Tile, queued: Tile) {
    && Fields(request)[..9] == Fields(queued)[..9]
    && BeginsWith(queued.wireId, request.wireId)
  }

  lemma {:induction false} DigitsPrefix(a: nat, b: nat)
    ensures Digits(a) <= Digits(b) <==> BeginsWith(b, a)
    decreases b
  {
    if a != b {
      DigitsDiffer(a, b);
      if b >= 10 {
        DigitsPrefix(a, b / 10);
        var rest := Digits(b / 10);
        assert Digits(b) == rest + [Digit(b % 10)];
        if Digits(a) <= Digits(b) {
          assert Digits(a) == Digits(b)[..|Digits(a)|];
          assert |Digits(a)| < |Digits(b)|;
          assert Digits(a) == rest[..|Digits(a)|];
        }
      } else {
        assert |Digits(b)| == 1;
      }
    }
  }

  /** Different numbers are written differently. */
  lemma DigitsDiffer(a: nat, b: nat)
    ensures Digits(a) == Digits(b) <==> a == b
  {
    DigitsRead(a, "");
    DigitsRead(b, "");
    hide Digits;
    assert Digits(a) + "" == Digits(a) && Digits(b) + "" == Digits(b);
  }

  /** What starts with no digit. */
  predicate NoDigitFirst(s: string) {
    s == [] || !IsDigit(s[0])
  }

  predicate AllDigits(s: string) {
    forall i :: 0 <= i < |s| ==> IsDigit(s[i])
  }

  lemma SameLength(p: string, x: string, q: string, y: string)
    requires p + x <= q + y && AllDigits(p) && AllDigits(q) && x != [] && NoDigitFirst(x) && NoDigitFirst(y)
    ensures |p| == |q|
  {
    assert forall i :: 0 <= i < |p + x| ==> (p + x)[i] == (q + y)[i];
    assert (p + x)[|p|] == x[0];
    assert y != [] ==> (q + y)[|q|] == y[0];
    forall i | 0 <= i < |q| ensures IsDigit((q + y)[i]) {
      assert (q + y)[i] == q[i];
    }
  }

  /** Numbers followed by something else are told apart with what follows. */
  lemma NumberThenRest(a: nat, x: string, b: nat, y: string)
    requires x != [] && NoDigitFirst(x) && NoDigitFirst(y)
    ensures Digits(a) + x <= Digits(b) + y <==> a == b && x <= y
  {
    DigitsDiffer(a, b);
    hide Digits;
    var p, q := Digits(a), Digits(b);
    if p + x <= q + y {
      SameLength(p, x, q, y);
      assert p == (p + x)[..|p|] == (q + y)[..|p|] == q;
      assert x == (p + x)[|p|..];
      assert x == (q + y)[|p|..|p| + |x|];
    }
    if a == b && x <= y {
      assert p + x == (q + y)[..|p + x|];
    }
  }

  lemma SamePrefix(p: string, x: string, y: string)
    ensures p + x <= p + y <==> x <= y
  {
    assert (p + y)[|p|..] == y && (p + x)[|p|..] == x;
    if p + x <= p + y {
      assert x == (p + x)[|p|..] == (p + y)[|p|..|p| + |x|] == y[..|x|];
    }
    if x <= y {
      assert p + x == (p + y)[..|p + x|];
    }
  }

  lemma FieldStarts(labels: seq<string>, values: seq<nat>, end: string)
    requires |labels| == |values|
    requires NoDigitFirst(end)
    ensures NoDigitFirst(FieldText(labels, values) + end)
  {
  }

  lemma OneField(name: string, a: nat, x: string, b: nat, y: string)
    requires x != [] && NoDigitFirst(x) && NoDigitFirst(y)
    ensures " " + name + "=" + Digits(a) + x <= " " + name + "=" + Digits(b) + y <==> a == b && x <= y
  {
    NumberThenRest(a, x, b, y);
    hide Digits;
    var p := " " + name + "=";
    assert p + Digits(a) + x == p + (Digits(a) + x);
    assert p + Digits(b) + y == p + (Digits(b) + y);
    SamePrefix(p, Digits(a) + x, Digits(b) + y);
  }

  lemma LastField(name: string, a: nat, b: nat, end: string)
    requires end != [] && NoDigitFirst(end)
    ensures " " + name + "=" + Digits(a) <= " " + name + "=" + Digits(b) + end <==> BeginsWith(b, a)
  {
    DigitsPrefix(a, b);
    hide Digits;
    var p := " " + name + "=";
    assert p + Digits(b) + end == p + (Digits(b) + end);
    SamePrefix(p, Digits(a), Digits(b) + end);
    var u, v := Digits(a), Digits(b);
    if u <= v + end {
      assert forall i :: 0 <= i < |u| ==> u[i] == (v + end)[i];
      assert (v + end)[|v|] == end[0];
      assert |u| <= |v|;
      assert u == (v + end)[..|u|] == v[..|u|];
    }
    if u <= v {
      assert u == v[..|u|] == (v + end)[..|u|];
    }
  }

  /** One list of fields is where another list, with something after it, begins just when all but
      the last fields are equal and the last begins as the other. */
  lemma {:induction false} FieldsPrefix(labels: seq<string>, a: seq<nat>, b: seq<nat>, end: string)
    requires |labels| == |a| == |b| > 0 && end != [] && NoDigitFirst(end)
    ensures FieldText(labels, a) <= FieldText(labels, b) + end <==>
            a[..|a| - 1] == b[..|b| - 1] && BeginsWith(b[|b| - 1], a[|a| - 1])
    decreases |a|
  {
    if |a| == 1 {
      assert FieldText(labels[1..], a[1..]) == "" && FieldText(labels[1..], b[1..]) == "";
      var x, y := " " + labels[0] + "=" + Digits(a[0]), " " + labels[0] + "=" + Digits(b[0]);
      assert FieldText(labels, a) == x && FieldText(labels, b) == y;
      LastField(labels[0], a[0], b[0], end);
    } else {
      var x, y := FieldText(labels[1..], a[1..]), FieldText(labels[1..], b[1..]);
      FieldsPrefix(labels[1..], a[1..], b[1..], end);
      FieldStarts(labels[1..], a[1..], "");
      FieldStarts(labels[1..], b[1..], end);
      assert x + "" == x && x != [];
      FirstField(labels, a, b, end, x, y);
      FirstApart(a, b);
    }
  }

  lemma FirstField(labels: seq<string>, a: seq<nat>, b: seq<nat>, end: string, x: string, y: string)
    requires |labels| == |a| == |b| > 0 && x != [] && NoDigitFirst(x) && NoDigitFirst(y + end)
    requires x == FieldText(labels[1..], a[1..]) && y == FieldText(labels[1..], b[1..])
    ensures FieldText(labels, a) <= FieldText(labels, b) + end <==> a[0] == b[0] && x <= y + end
  {
    OneField(labels[0], a[0], x, b[0], y + end);
    hide Digits;
    var p := " " + labels[0] + "=" + Digits(b[0]);
    assert p + y + end == p + (y + end);
  }

  lemma FirstApart(a: seq<nat>, b: seq<nat>)
    requires |a| == |b| > 1
    ensures a[..|a| - 1] == b[..|b| - 1] <==> a[0] == b[0] && a[1..][..|a| - 2] == b[1..][..|b| - 2]
  {
    var u, v := a[..|a| - 1], b[..|b| - 1];
    assert u == [a[0]] + a[1..][..|a| - 2] && v == [b[0]] + b[1..][..|b| - 2];
  }

  /** common/MessageQueue.cpp:102-127: the comparison of texts up to the version of the new
      request, exactly. */
  lemma SameText(request: Tile, queued: Tile)
    ensures Head(request) <= Serialize(queued) <==> SameRequest(request, queued)
  {
    var end := Tail(queued);
    assert end[0] == ' ';
    FieldsPrefix(LABELS, Fields(request), Fields(queued), end);
    hide FieldText, Fields, Tail;
    SamePrefix("tile", FieldText(LABELS, Fields(request)), FieldText(LABELS, Fields(queued)) + end);
    assert Serialize(queued) == "tile" + (FieldText(LABELS, Fields(queued)) + end);
    LastIsWireId(request);
    LastIsWireId(queued);
  }

  lemma LastIsWireId(t: Tile)
    ensures Fields(t)[9] == t.wireId
  {
  }

  // ----- cancelling -----

  predicate Finds(s: string, pattern: string) {
    exists i :: 0 <= i <= |s| && pattern <= s[i..]
  }

  /** common/MessageQueue.cpp:37-55: what a canceltiles message with some versions removes. */
  predicate Cancelled(text: string, versions: seq<string>) {
    !Finds(text, "id=") && exists v :: v in versions && Finds(text, "ver=" + v)
  }

  /** The test that is to spare previews finds "id=" in "nviewid=" already: no tile request that
      the server writes is ever cancelled. */
  lemma TileNotCancelled(t: Tile, versions: seq<string>)
    ensures !Cancelled(Serialize(t), versions)
  {
    HeadStarts(t);
    var text, more := Serialize(t), Head(t)[13..] + Tail(t);
    hide Head, Tail;
    assert text[10..] == Head(t)[10..] + Tail(t);
    assert "id=" == Head(t)[10..13] <= text[10..];
    FoundAt(text, "id=", 10);
  }

  lemma FoundAt(s: string, pattern: string, i: nat)
    requires i <= |s| && pattern <= s[i..]
    ensures Finds(s, pattern)
  {
  }

  lemma HeadStarts(t: Tile)
    ensures "tile nviewid=" <= Head(t)
  {
    var rest := FieldText(LABELS[1..], Fields(t)[1..]);
    assert Head(t) == "tile" + (" " + LABELS[0] + "=" + Digits(t.nviewid) + rest);
    hide *;
    assert LABELS[0] == "nviewid";
    assert Head(t) == "tile nviewid=" + (Digits(t.nviewid) + rest);
  }
}
