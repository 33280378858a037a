/** The tile delta encoder of kit/Delta.hpp and the decoder its unit test applies.

    A delta is the byte 'D' followed by operations: 'c' copies a run of whole rows of
    the previous bitmap, 'd' overwrites a run of pixels in one row.  The encoder lengthens
    a copy run by patching the count byte it wrote earlier, with signed-char arithmetic. */
module Delta {
  import opened Basics

  type Pixel = p: int | 0 <= p < 0x1_0000_0000

  /** The row checksum is never stored by the source, so it holds any value at all. */
  datatype BitmapRow = BitmapRow(crc: nat, pixels: seq<Pixel>)
  {
    predicate Identical(other: BitmapRow) {
      crc == other.crc && pixels == other.pixels
    }
  }

  datatype Bitmap = Bitmap(wid: nat, width: nat, height: nat, rows: seq<BitmapRow>)
  {
    predicate Valid() {
      && |rows| == height
      && forall y :: 0 <= y < height ==> |rows[y].pixels| == width
    }

    function Image(): (r: seq<seq<Pixel>>)
      requires Valid()
      ensures |r| == height && forall y :: 0 <= y < height ==> r[y] == rows[y].pixels
    {
      seq(height, y requires 0 <= y < height => rows[y].pixels)
    }
  }

  // ----- the wire format -----

  datatype AnyOp =
    | CopyRows(count: Byte, src: Byte, dest: Byte)
    | NewRun(row: Byte, col: Byte, pixels: seq<Pixel>)

  /** Operations that fit the format: the pixel count of a run is one byte. */
  type Op = op: AnyOp | op.NewRun? ==> |op.pixels| < 256 witness CopyRows(0, 0, 0)

  const CODE_DELTA: Byte := 68  // 'D'
  const CODE_COPY: Byte := 99   // 'c'
  const CODE_RUN: Byte := 100   // 'd'

  function PixelBytes(p: Pixel): (r: seq<Byte>)
    ensures |r| == 4
  {
    [p % 256, p / 256 % 256, p / 65536 % 256, p / 16777216]
  }

  function PixelFrom(b: seq<Byte>): Pixel
    requires |b| == 4
  {
    b[0] as int + 256 * (b[1] as int) + 65536 * (b[2] as int) + 16777216 * (b[3] as int)
  }

  lemma PixelRoundTrip(p: Pixel)
    ensures PixelFrom(PixelBytes(p)) == p
  {
    assert p / 256 / 256 == p / 65536 && p / 65536 / 256 == p / 16777216;
  }

  function PixelsBytes(ps: seq<Pixel>): (r: seq<Byte>)
    ensures |r| == 4 * |ps|
  {
    if ps == [] then [] else PixelBytes(ps[0]) + PixelsBytes(ps[1..])
  }

  function PixelsFrom(b: seq<Byte>): (r: seq<Pixel>)
    requires |b| % 4 == 0
    ensures 4 * |r| == |b|
  {
    if b == [] then [] else [PixelFrom(b[..4])] + PixelsFrom(b[4..])
  }

  lemma BytesRoundTrip(b: seq<Byte>)
    requires |b| == 4
    ensures PixelBytes(PixelFrom(b)) == b
  {
    var p := PixelFrom(b);
    assert p / 256 == b[1] as int + 256 * (b[2] as int) + 65536 * (b[3] as int);
    assert p / 65536 == b[2] as int + 256 * (b[3] as int);
    assert p / 16777216 == b[3] as int;
  }

  lemma {:induction false} PixelsRoundTrip(ps: seq<Pixel>)
    ensures PixelsFrom(PixelsBytes(ps)) == ps
  {
    if ps != [] {
      var first, rest := PixelBytes(ps[0]), PixelsBytes(ps[1..]);
      PixelRoundTrip(ps[0]);
      PixelsRoundTrip(ps[1..]);
      assert (first + rest)[..4] == first && (first + rest)[4..] == rest;
    }
  }

  function Serialize(op: Op): (r: seq<Byte>)
    ensures |r| >= 4
  {
    match op
    case CopyRows(count, src, dest) => [CODE_COPY, count, src, dest]
    case NewRun(row, col, pixels) => [CODE_RUN, row, col, |pixels|] + PixelsBytes(pixels)
  }

  function SerializeAll(ops: seq<Op>): seq<Byte>
  {
    if ops == [] then [] else Serialize(ops[0]) + SerializeAll(ops[1..])
  }

  lemma {:induction false} SerializeAppend(a: seq<Op>, b: seq<Op>)
    ensures SerializeAll(a + b) == SerializeAll(a) + SerializeAll(b)
  {
    if a == [] {
      assert a + b == b;
    } else {
      var t := a[1..];
      assert (a + b)[0] == a[0] && (a + b)[1..] == t + b;
      SerializeAppend(t, b);
      var x, y, z := Serialize(a[0]), SerializeAll(t), SerializeAll(b);
      assert x + (y + z) == (x + y) + z;
    }
  }

  /** Reads one operation off the wire, with its length; None when the bytes end early or
      the code is unknown. */
  function ParseOne(bytes: seq<Byte>): (r: Option<(Op, nat)>)
    ensures r.Some? ==> 4 <= r.value.1 <= |bytes|
  {
    if |bytes| < 4 then None
    else if bytes[0] == CODE_COPY then Some((CopyRows(bytes[1], bytes[2], bytes[3]), 4))
    else
      var end: int := 4 + 4 * (bytes[3] as int);
      if bytes[0] == CODE_RUN && |bytes| >= end then
        Some((NewRun(bytes[1], bytes[2], PixelsFrom(bytes[4..end])), end))
      else None
  }

  lemma ParseOneSerialized(op: Op, rest: seq<Byte>)
    ensures ParseOne(Serialize(op) + rest) == Some((op, |Serialize(op)|))
  {
    if op.NewRun? {
      var bytes := Serialize(op) + rest;
      PixelsRoundTrip(op.pixels);
      assert bytes[4..|Serialize(op)|] == PixelsBytes(op.pixels);
    }
  }

  function Parse(bytes: seq<Byte>): Option<seq<Op>> {
    if bytes == [] then Some([])
    else match ParseOne(bytes)
         case None => None
         case Some((op, n)) =>
           match Parse(bytes[n..])
           case None => None
           case Some(ops) => Some([op] + ops)
  }

  lemma {:induction false} ParseSerialize(ops: seq<Op>)
    ensures Parse(SerializeAll(ops)) == Some(ops)
  {
    if ops != [] {
      var first, rest := Serialize(ops[0]), SerializeAll(ops[1..]);
      ParseOneSerialized(ops[0], rest);
      ParseSerialize(ops[1..]);
      assert (first + rest)[|first|..] == rest;
      assert ops == [ops[0]] + ops[1..];
    }
  }

  // ----- applying a delta -----

  /** Row number k of a copy run that starts at src.  The unit test's decoder adds plainly;
      a decoder that keeps row numbers in one byte adds modulo 256. */
  function SourceRow(src: nat, k: nat, modular: bool): nat {
    if modular then (src + k) % 256 else src + k
  }

  predicate CanApply(prev: seq<seq<Pixel>>, img: seq<seq<Pixel>>, op: Op, modular: bool) {
    match op
    case CopyRows(count, src, dest) =>
      && dest + count <= |img|
      && forall k :: 0 <= k < count ==> SourceRow(src, k, modular) < |prev|
    case NewRun(row, col, pixels) =>
      row < |img| && col + |pixels| <= |img[row]|
  }

  function Apply(prev: seq<seq<Pixel>>, img: seq<seq<Pixel>>, op: Op, modular: bool): (r: seq<seq<Pixel>>)
    requires CanApply(prev, img, op, modular)
    ensures |r| == |img|
  {
    match op
    case CopyRows(count, src, dest) =>
      seq(|img|, y requires 0 <= y < |img| =>
        if dest <= y < dest + count then prev[SourceRow(src, y - dest, modular)] else img[y])
    case NewRun(row, col, pixels) =>
      img[row := img[row][..col] + pixels + img[row][col + |pixels|..]]
  }

  function ApplyAll(prev: seq<seq<Pixel>>, ops: seq<Op>, modular: bool): Option<seq<seq<Pixel>>> {
    if ops == [] then Some(prev)
    else
      var n := |ops| - 1;
      match ApplyAll(prev, ops[..n], modular)
      case None => None
      case Some(img) =>
        if CanApply(prev, img, ops[n], modular) then Some(Apply(prev, img, ops[n], modular)) else None
  }

  /** The decoder: None when the delta is malformed or leaves the bitmap. */
  function Decode(prev: seq<seq<Pixel>>, delta: seq<Byte>, modular: bool): Option<seq<seq<Pixel>>> {
    if delta == [] || delta[0] != CODE_DELTA then None
    else match Parse(delta[1..])
         case None => None
         case Some(ops) => ApplyAll(prev, ops, modular)
  }

  /** A run whose source rows pass row 255. */
  predicate Wraps(op: Op) {
    op.CopyRows? && op.src + op.count > 256
  }

  predicate AnyWraps(ops: seq<Op>) {
    ops != [] && (AnyWraps(ops[..|ops| - 1]) || Wraps(ops[|ops| - 1]))
  }

  lemma PlainStep(prev: seq<seq<Pixel>>, img: seq<seq<Pixel>>, op: Op)
    requires |prev| <= 256
    requires CanApply(prev, img, op, true)
    ensures CanApply(prev, img, op, false) <==> !Wraps(op)
    ensures !Wraps(op) ==> Apply(prev, img, op, false) == Apply(prev, img, op, true)
  {
    if Wraps(op) {
      assert SourceRow(op.src, op.count - 1, false) >= 256;
    } else if op.CopyRows? {
      assert forall k: nat :: k < op.count ==> SourceRow(op.src, k, false) == SourceRow(op.src, k, true);
      assert Apply(prev, img, op, false) == Apply(prev, img, op, true);
    }
  }

  /** On the deltas of full-height bitmaps the two decoders differ only on runs that wrap. */
  lemma {:induction false} PlainAgreesUnlessWrapped(prev: seq<seq<Pixel>>, ops: seq<Op>)
    requires |prev| <= 256
    requires ApplyAll(prev, ops, true).Some?
    ensures AnyWraps(ops) ==> ApplyAll(prev, ops, false) == None
    ensures !AnyWraps(ops) ==> ApplyAll(prev, ops, false) == ApplyAll(prev, ops, true)
  {
    if ops != [] {
      var n := |ops| - 1;
      PlainAgreesUnlessWrapped(prev, ops[..n]);
      PlainStep(prev, ApplyAll(prev, ops[..n], true).value, ops[n]);
    }
  }

  // ----- which source row each changed row takes -----

  function ScanRow(start: nat, k: nat, height: nat): (r: nat)
    requires height > 0
    ensures r < height
  {
    (start + k) % height
  }

  /** The scan order of the row hunt: rows start, start+1, ... wrapping at the height. */
  function FirstMatch(prev: seq<BitmapRow>, row: BitmapRow, start: nat, yn: nat): (r: Option<nat>)
    requires yn <= |prev|
    ensures r.Some? ==> r.value < |prev| && prev[r.value].Identical(row)
    decreases |prev| - yn
  {
    if yn == |prev| then None
    else if prev[ScanRow(start, yn, |prev|)].Identical(row) then Some(ScanRow(start, yn, |prev|))
    else FirstMatch(prev, row, start, yn + 1)
  }

  /** The source row picked for row y; the hunt starts at the displacement of the last pick. */
  function Pick(prev: seq<BitmapRow>, cur: seq<BitmapRow>, y: nat): (r: Option<nat>)
    requires |prev| == |cur| && y < |cur|
    ensures r.Some? ==> r.value < |prev| && prev[r.value].Identical(cur[y]) && r.value != y
    decreases y, 1
  {
    if prev[y].Identical(cur[y]) then None
    else
      var (row, src) := LastPick(prev, cur, y);
      FirstMatch(prev, cur[y], y - row + src, 0)
  }

  /** The latest row before y that was copied, with its source; (0, 0) when there is none. */
  function LastPick(prev: seq<BitmapRow>, cur: seq<BitmapRow>, y: nat): (r: (nat, nat))
    requires |prev| == |cur| && y <= |cur|
    ensures y > 0 ==> r.0 < y
    ensures y == 0 ==> r.0 == 0
    decreases y, 0
  {
    if y == 0 then (0, 0)
    else match Pick(prev, cur, y - 1)
         case Some(src) => (y - 1, src)
         case None => LastPick(prev, cur, y - 1)
  }

  /** Rows y-1 and y are copied from rows 255 and 0, and the run is not cut at row 128:
      the one situation in which the encoder lets a run step past row 255. */
  predicate StepsPastEnd(prev: seq<BitmapRow>, cur: seq<BitmapRow>, y: nat)
    requires |prev| == |cur|
  {
    0 < y < |cur| && y != 128 && Pick(prev, cur, y - 1) == Some(255) && Pick(prev, cur, y) == Some(0)
  }

  lemma AddModulus(a: nat, n: nat)
    requires n > 0
    ensures (a + n) % n == a % n
  {
    var q, r := a / n, a % n;
    assert a + n == (q + 1) * n + r by {
      assert a == q * n + r;
    }
    UniqueRemainder(a + n, q + 1, r, n);
  }

  lemma UniqueRemainder(a: int, q: int, r: int, n: nat)
    requires n > 0 && a == q * n + r && 0 <= r < n
    ensures a % n == r
  {
    var q', r' := a / n, a % n;
    assert a == q' * n + r';
    if q > q' {
      MulAtLeast(q - q', n);
    } else if q < q' {
      MulAtLeast(q' - q, n);
    }
  }

  lemma MulAtLeast(k: int, n: int)
    requires k >= 1 && n >= 0
    ensures k * n >= n
  {
  }

  /** The hunt depends on its starting row only modulo the height. */
  lemma {:induction false} FirstMatchModulo(prev: seq<BitmapRow>, row: BitmapRow, start: nat, yn: nat)
    requires yn <= |prev|
    ensures FirstMatch(prev, row, start + |prev|, yn) == FirstMatch(prev, row, start, yn)
    decreases |prev| - yn
  {
    if yn < |prev| {
      AddModulus(start + yn, |prev|);
      assert start + |prev| + yn == start + yn + |prev|;
      FirstMatchModulo(prev, row, start, yn + 1);
    }
  }

  // ----- the encoder -----

  /** The value of a byte read back as a signed char. */
  function SignedChar(b: Byte): int {
    if b < 128 then b else b as int - 256
  }

  const SIZE_T: int := 0x1_0000_0000_0000_0000

  /** The picture after rows below y have been brought up to date. */
  ghost function Done(prev: Bitmap, cur: Bitmap, y: nat): (r: seq<seq<Pixel>>)
    requires prev.Valid() && cur.Valid() && prev.height == cur.height && y <= cur.height
    ensures |r| == cur.height
  {
    cur.Image()[..y] + prev.Image()[y..]
  }

  ghost predicate SameSize(prev: Bitmap, cur: Bitmap) {
    && prev.Valid() && cur.Valid()
    && prev.width == cur.width <= 256 && prev.height == cur.height <= 256
  }

  ghost predicate StepsBefore(prev: Bitmap, cur: Bitmap, y: nat)
    requires SameSize(prev, cur)
  {
    exists k: nat :: k < y && StepsPastEnd(prev.rows, cur.rows, k)
  }

  /** What has been emitted before row y: the operations bring rows below y up to date, and
      step past row 255 exactly where the pair of bitmaps makes them. */
  ghost predicate Emitted(prev: Bitmap, cur: Bitmap, y: nat, ops: seq<Op>)
    requires SameSize(prev, cur) && y <= cur.height
  {
    && ApplyAll(prev.Image(), ops, true) == Some(Done(prev, cur, y))
    && (AnyWraps(ops) <==> StepsBefore(prev, cur, y))
  }

  /** The shape of every copy run: it never passes a sign change of either row number on
      the way up, so its count byte stays at most 128. */
  predicate RunShape(run: Op) {
    && run.CopyRows? && 1 <= run.count <= 128 && run.src != run.dest
    && SignedChar(run.src) + run.count - 1 <= 127
    && SignedChar(run.dest) + run.count - 1 <= 127
  }

  /** The test by which the source lengthens the last run: char sums, compared as ints. */
  predicate Extends(run: Op, m: Byte, y: Byte)
    requires run.CopyRows?
  {
    && SignedChar(run.src) + SignedChar(run.count) == SignedChar(m)
    && SignedChar(run.dest) + SignedChar(run.count) == SignedChar(y)
  }

  lemma ExtendsMeans(run: Op, m: Byte, y: Byte)
    requires RunShape(run) && run.dest + run.count <= y && Extends(run, m, y)
    ensures run.count < 128 && run.dest + run.count == y && (run.src + run.count) % 256 == m
    ensures RunShape(run.(count := run.count + 1))
    ensures run.src + run.count == 256 ==> y != 128
  {
  }

  lemma PastEndExtends(run: Op, y: Byte)
    requires RunShape(run) && run.dest + run.count == y && (run.src + run.count - 1) % 256 == 255 && y != 128
    ensures Extends(run, 0, y)
  {
  }

  /** The last copy run is ops[j] (none when j is negative); its count byte is at lastCopy. */
  ghost predicate RunState(prev: Bitmap, cur: Bitmap, y: nat, ops: seq<Op>, j: int, lastCopy: int, offset: nat)
    requires SameSize(prev, cur) && y <= cur.height
  {
    if j < 0 then
      lastCopy == 0 && offset == 0 && LastPick(prev.rows, cur.rows, y) == (0, 0)
    else
      && j < |ops| && RunShape(ops[j])
      && lastCopy == |SerializeAll(ops[..j])| + 1
      && RunEnds(prev, cur, y, ops[j], offset)
      && (ops[j].dest + ops[j].count == y ==> j == |ops| - 1)
  }

  ghost predicate RunEnds(prev: Bitmap, cur: Bitmap, y: nat, run: Op, offset: nat)
    requires SameSize(prev, cur) && y <= cur.height && RunShape(run)
  {
    && run.dest + run.count <= y
    && (run.src + run.count <= 256 || cur.height == 256)
    && LastPick(prev.rows, cur.rows, y).0 == run.dest + run.count - 1
    && LastPick(prev.rows, cur.rows, y).1 == (run.src + run.count - 1) % 256
    && offset == (run.src - run.dest) % SIZE_T
  }

  lemma SerializeSnoc(ops: seq<Op>, op: Op)
    ensures SerializeAll(ops + [op]) == SerializeAll(ops) + Serialize(op)
  {
    SerializeAppend(ops, [op]);
  }

  lemma ApplySnoc(prev: seq<seq<Pixel>>, ops: seq<Op>, op: Op, modular: bool)
    ensures ApplyAll(prev, ops + [op], modular) ==
            match ApplyAll(prev, ops, modular)
            case None => None
            case Some(img) => if CanApply(prev, img, op, modular) then Some(Apply(prev, img, op, modular)) else None
    ensures AnyWraps(ops + [op]) == (AnyWraps(ops) || Wraps(op))
  {
    assert (ops + [op])[..|ops|] == ops;
  }

  lemma DoneRow(prev: Bitmap, cur: Bitmap, y: nat)
    requires SameSize(prev, cur) && y < cur.height
    ensures Done(prev, cur, y)[y := cur.rows[y].pixels] == Done(prev, cur, y + 1)
  {
  }

  /** One more row on a copy run changes just that row of the result. */
  lemma LongerCopy(prev: seq<seq<Pixel>>, img: seq<seq<Pixel>>, run: Op, m: nat)
    requires run.CopyRows? && run.count < 255 && CanApply(prev, img, run, true)
    requires m == (run.src + run.count) % 256 && m < |prev| && run.dest + run.count < |img|
    ensures var longer := run.(count := run.count + 1);
            && CanApply(prev, img, longer, true)
            && Apply(prev, img, longer, true) == Apply(prev, img, run, true)[run.dest + run.count := prev[m]]
  {
    var longer := run.(count := run.count + 1);
    forall k: nat | k < longer.count ensures SourceRow(run.src, k, true) < |prev| {
      assert k < run.count || k == run.count;
    }
    assert CanApply(prev, img, longer, true);
    var a, b := Apply(prev, img, longer, true), Apply(prev, img, run, true)[run.dest + run.count := prev[m]];
    forall r | 0 <= r < |img| ensures a[r] == b[r] {
    }
  }

  lemma ExtendImage(prev: Bitmap, cur: Bitmap, y: nat, head: seq<Op>, run: Op, m: nat)
    requires SameSize(prev, cur) && y < cur.height
    requires run.CopyRows? && run.count < 128
    requires ApplyAll(prev.Image(), head + [run], true) == Some(Done(prev, cur, y))
    requires run.dest + run.count == y && (run.src + run.count) % 256 == m
    requires m < prev.height && prev.rows[m].Identical(cur.rows[y])
    ensures ApplyAll(prev.Image(), head + [run.(count := run.count + 1)], true) == Some(Done(prev, cur, y + 1))
  {
    ApplySnoc(prev.Image(), head, run, true);
    ApplySnoc(prev.Image(), head, run.(count := run.count + 1), true);
    var img := ApplyAll(prev.Image(), head, true).value;
    LongerCopy(prev.Image(), img, run, m);
    DoneRow(prev, cur, y);
  }

  lemma StepsNext(prev: Bitmap, cur: Bitmap, y: nat)
    requires SameSize(prev, cur)
    ensures StepsBefore(prev, cur, y + 1) <==> StepsBefore(prev, cur, y) || StepsPastEnd(prev.rows, cur.rows, y)
  {
    if StepsBefore(prev, cur, y) {
      var k: nat :| k < y && StepsPastEnd(prev.rows, cur.rows, k);
      assert k < y + 1;
    }
  }

  lemma PickedBefore(prev: seq<BitmapRow>, cur: seq<BitmapRow>, y: nat)
    requires |prev| == |cur| && 0 < y <= |cur| && LastPick(prev, cur, y).0 == y - 1
    ensures Pick(prev, cur, y - 1) == Some(LastPick(prev, cur, y).1) || LastPick(prev, cur, y) == (0, 0)
  {
    hide Pick;
  }

  /** A run that is lengthened wraps from now on exactly if this row is the one past the end. */
  lemma LongerWraps(prev: Bitmap, cur: Bitmap, y: nat, run: Op, offset: nat, m: nat)
    requires SameSize(prev, cur) && y < cur.height && RunShape(run) && RunEnds(prev, cur, y, run, offset)
    requires Pick(prev.rows, cur.rows, y) == Some(m) && Extends(run, m, y)
    ensures run.count < 128
    ensures Wraps(run.(count := run.count + 1)) <==> Wraps(run) || StepsPastEnd(prev.rows, cur.rows, y)
  {
    hide Pick, LastPick;
    ExtendsMeans(run, m, y);
    assert Pick(prev.rows, cur.rows, y - 1) == Some(((run.src + run.count - 1) % 256) as nat) by {
      PickedBefore(prev.rows, cur.rows, y);
    }
  }

  lemma PatchBytes(head: seq<Op>, run: Op)
    requires run.CopyRows? && run.count < 255
    ensures var longer := run.(count := run.count + 1); var at := |SerializeAll(head)| + 1;
            && at < |SerializeAll(head + [run])|
            && SerializeAll(head + [longer]) == SerializeAll(head + [run])[at := run.count + 1]
  {
    SerializeSnoc(head, run);
    SerializeSnoc(head, run.(count := run.count + 1));
  }

  lemma ExtendEmitted(prev: Bitmap, cur: Bitmap, y: nat, head: seq<Op>, run: Op, offset: nat, m: nat)
    requires SameSize(prev, cur) && y < cur.height && Emitted(prev, cur, y, head + [run])
    requires RunShape(run) && RunEnds(prev, cur, y, run, offset)
    requires Pick(prev.rows, cur.rows, y) == Some(m) && Extends(run, m, y)
    ensures run.count < 128 && Emitted(prev, cur, y + 1, head + [run.(count := run.count + 1)])
  {
    ExtendsMeans(run, m, y);
    var longer := run.(count := run.count + 1);
    ExtendImage(prev, cur, y, head, run, m);
    ApplySnoc(prev.Image(), head, run, true);
    ApplySnoc(prev.Image(), head, longer, true);
    LongerWraps(prev, cur, y, run, offset, m);
    StepsNext(prev, cur, y);
  }

  lemma ExtendEnds(prev: Bitmap, cur: Bitmap, y: nat, run: Op, offset: nat, m: nat)
    requires SameSize(prev, cur) && y < cur.height && RunShape(run) && RunEnds(prev, cur, y, run, offset)
    requires Pick(prev.rows, cur.rows, y) == Some(m) && Extends(run, m, y)
    ensures run.count < 128
    ensures var longer := run.(count := run.count + 1);
            RunShape(longer) && RunEnds(prev, cur, y + 1, longer, offset) && longer.dest + longer.count == y + 1
  {
    ExtendsMeans(run, m, y);
    NextPick(prev.rows, cur.rows, y, m);
    hide Extends, Pick, LastPick, RunShape;
    RowsOfRun(prev, cur, y, run, offset);
    LongerEnds(prev, cur, y, run, offset, m);
  }

  lemma LongerEnds(prev: Bitmap, cur: Bitmap, y: nat, run: Op, offset: nat, m: nat)
    requires SameSize(prev, cur) && y < cur.height && RunShape(run) && RunEnds(prev, cur, y, run, offset)
    requires LastPick(prev.rows, cur.rows, y + 1) == (y, m)
    requires run.dest + run.count == y && (run.src + run.count) % 256 == m
    requires run.src + run.count < 256 || cur.height == 256
    requires RunShape(run.(count := run.count + 1))
    ensures RunEnds(prev, cur, y + 1, run.(count := run.count + 1), offset)
  {
    hide LastPick, RunShape, SameSize;
  }

  /** A run that has come to the last row there can be is in a bitmap of that height. */
  lemma RowsOfRun(prev: Bitmap, cur: Bitmap, y: nat, run: Op, offset: nat)
    requires SameSize(prev, cur) && y <= cur.height && RunShape(run) && RunEnds(prev, cur, y, run, offset)
    requires run.dest + run.count == y
    ensures run.src + run.count < 256 || cur.height == 256
  {
    hide Pick, LastPick;
    if run.src + run.count == 256 {
      LastRowPicked(prev.rows, cur.rows, y);
    }
  }

  lemma LastRowPicked(prev: seq<BitmapRow>, cur: seq<BitmapRow>, y: nat)
    requires |prev| == |cur| && 0 < y <= |cur| && LastPick(prev, cur, y).0 == y - 1 && LastPick(prev, cur, y).1 == 255
    ensures |prev| >= 256
  {
    PickedBefore(prev, cur, y);
    hide Pick, LastPick;
  }

  lemma NextPick(prev: seq<BitmapRow>, cur: seq<BitmapRow>, y: nat, m: nat)
    requires |prev| == |cur| && y < |cur| && Pick(prev, cur, y) == Some(m)
    ensures LastPick(prev, cur, y + 1) == (y, m)
  {
    hide Pick;
  }

  lemma ExtendRun(prev: Bitmap, cur: Bitmap, y: nat, ops: seq<Op>, j: int, lastCopy: int, offset: nat, m: nat)
    returns (ops': seq<Op>)
    requires SameSize(prev, cur) && y < cur.height && Emitted(prev, cur, y, ops)
    requires RunState(prev, cur, y, ops, j, lastCopy, offset) && j >= 0
    requires Pick(prev.rows, cur.rows, y) == Some(m) && Extends(ops[j], m, y)
    ensures ops[j].count < 128
    ensures Emitted(prev, cur, y + 1, ops') && RunState(prev, cur, y + 1, ops', j, lastCopy, offset)
    ensures j == |ops| - 1 && ops' == ops[..j] + [ops[j].(count := ops[j].count + 1)]
  {
    hide LastPick, Pick, ApplyAll, AnyWraps, StepsBefore, SerializeAll;
    var head, run := ops[..j], ops[j];
    ExtendsMeans(run, m, y);
    assert ops == head + [run];
    ops' := head + [run.(count := run.count + 1)];
    assert ops'[..j] == head;
    ExtendEmitted(prev, cur, y, head, run, offset, m);
    ExtendEnds(prev, cur, y, run, offset, m);
  }

  lemma StartEmitted(prev: Bitmap, cur: Bitmap, y: nat, ops: seq<Op>, m: nat)
    requires SameSize(prev, cur) && y < cur.height && Emitted(prev, cur, y, ops)
    requires Pick(prev.rows, cur.rows, y) == Some(m) && !StepsPastEnd(prev.rows, cur.rows, y)
    ensures Emitted(prev, cur, y + 1, ops + [CopyRows(1, m, y)])
  {
    hide LastPick, Pick, FirstMatch, AnyWraps, StepsBefore, ApplyAll;
    var op := CopyRows(1, m, y);
    var img := Done(prev, cur, y);
    ApplySnoc(prev.Image(), ops, op, true);
    assert forall k: nat :: k < op.count ==> SourceRow(m, k, true) == m;
    DoneRow(prev, cur, y);
    assert Apply(prev.Image(), img, op, true) == img[y := cur.rows[y].pixels];
    StepsNext(prev, cur, y);
  }

  /** When no run is lengthened, this row is not the one past the end. */
  lemma NoStep(prev: Bitmap, cur: Bitmap, y: nat, ops: seq<Op>, j: int, lastCopy: int, offset: nat, m: nat)
    requires SameSize(prev, cur) && y < cur.height
    requires RunState(prev, cur, y, ops, j, lastCopy, offset)
    requires Pick(prev.rows, cur.rows, y) == Some(m) && (j < 0 || !Extends(ops[j], m, y))
    ensures !StepsPastEnd(prev.rows, cur.rows, y)
  {
    hide SerializeAll, Pick;
    if StepsPastEnd(prev.rows, cur.rows, y) {
      assert LastPick(prev.rows, cur.rows, y) == (y - 1, 255);
      PastEndExtends(ops[j], y);
    }
  }

  lemma StartRun(prev: Bitmap, cur: Bitmap, y: nat, ops: seq<Op>, j: int, lastCopy: int, offset: nat, m: nat)
    requires SameSize(prev, cur) && y < cur.height && Emitted(prev, cur, y, ops)
    requires RunState(prev, cur, y, ops, j, lastCopy, offset)
    requires Pick(prev.rows, cur.rows, y) == Some(m) && (j < 0 || !Extends(ops[j], m, y))
    ensures var ops' := ops + [CopyRows(1, m, y)];
            Emitted(prev, cur, y + 1, ops') &&
            RunState(prev, cur, y + 1, ops', |ops|, |SerializeAll(ops)| + 1, (m - y) % SIZE_T)
  {
    hide *;
    NoStep(prev, cur, y, ops, j, lastCopy, offset, m);
    StartEmitted(prev, cur, y, ops, m);
    StartState(prev, cur, y, ops, m);
  }

  lemma StartState(prev: Bitmap, cur: Bitmap, y: nat, ops: seq<Op>, m: nat)
    requires SameSize(prev, cur) && y < cur.height && Pick(prev.rows, cur.rows, y) == Some(m)
    ensures RunState(prev, cur, y + 1, ops + [CopyRows(1, m, y)], |ops|, |SerializeAll(ops)| + 1, (m - y) % SIZE_T)
  {
    hide SerializeAll, Pick;
    var ops' := ops + [CopyRows(1, m, y)];
    assert ops'[..|ops|] == ops && ops'[|ops|] == CopyRows(1, m, y);
    assert LastPick(prev.rows, cur.rows, y + 1) == (y, m);
  }

  /** Rows that are not copied leave the last run alone. */
  lemma RunKept(prev: Bitmap, cur: Bitmap, y: nat, ops: seq<Op>, ops': seq<Op>, j: int, lastCopy: int, offset: nat)
    requires SameSize(prev, cur) && y < cur.height && ops <= ops'
    requires RunState(prev, cur, y, ops, j, lastCopy, offset) && Pick(prev.rows, cur.rows, y).None?
    ensures RunState(prev, cur, y + 1, ops', j, lastCopy, offset)
  {
    if j >= 0 {
      assert ops'[..j] == ops[..j];
    }
  }

  /** The bytes of a delta appended to whatever was in the output before. */
  ghost function Wire(before: seq<Byte>, ops: seq<Op>): seq<Byte> {
    before + [CODE_DELTA] + SerializeAll(ops)
  }

  lemma ScanIndex(y: nat, offset: nat, yn: nat, start: nat, height: nat)
    requires 0 < height && yn < 256 && start + 256 < SIZE_T && (y + offset) % SIZE_T == start
    ensures (y + offset + yn) % SIZE_T % height == ScanRow(start, yn, height)
  {
    assert (y + offset + yn) % SIZE_T == start + yn;
  }

  /** kit/Delta.hpp:127-133, the hunt for an identical row of the previous bitmap. */
  method HuntRow(prev: seq<BitmapRow>, row: BitmapRow, y: nat, offset: nat, ghost start: nat) returns (r: Option<nat>)
    requires |prev| <= 256 && start + 256 < SIZE_T && (y + offset) % SIZE_T == start
    ensures r == FirstMatch(prev, row, start, 0)
  {
    hide ScanRow;
    var yn := 0;
    while yn < |prev|
      invariant 0 <= yn <= |prev|
      invariant FirstMatch(prev, row, start, 0) == FirstMatch(prev, row, start, yn)
    {
      var m := (y + offset + yn) % SIZE_T % |prev|;
      ScanIndex(y, offset, yn, start, |prev|);
      if prev[m].Identical(row) {
        return Some(m);
      }
      yn := yn + 1;
    }
    return None;
  }

  /** The picture while row y is being overwritten from the left. */
  ghost function Partial(prev: Bitmap, cur: Bitmap, y: nat, x: nat): seq<seq<Pixel>>
    requires SameSize(prev, cur) && y < cur.height && x <= cur.width
  {
    Done(prev, cur, y)[y := cur.rows[y].pixels[..x] + prev.rows[y].pixels[x..]]
  }

  lemma PartialEnds(prev: Bitmap, cur: Bitmap, y: nat)
    requires SameSize(prev, cur) && y < cur.height
    ensures Partial(prev, cur, y, 0) == Done(prev, cur, y)
    ensures Partial(prev, cur, y, cur.width) == Done(prev, cur, y + 1)
  {
    DoneRow(prev, cur, y);
    assert cur.rows[y].pixels[..cur.width] == cur.rows[y].pixels;
    assert cur.rows[y].pixels + prev.rows[y].pixels[cur.width..] == cur.rows[y].pixels;
    assert [] + prev.rows[y].pixels[0..] == prev.rows[y].pixels;
  }

  /** Skipping equal pixels changes nothing. */
  lemma PartialSame(prev: Bitmap, cur: Bitmap, y: nat, x: nat, same: nat)
    requires SameSize(prev, cur) && y < cur.height && x + same <= cur.width
    requires forall k :: x <= k < x + same ==> prev.rows[y].pixels[k] == cur.rows[y].pixels[k]
    ensures Partial(prev, cur, y, x + same) == Partial(prev, cur, y, x)
  {
    var c, p := cur.rows[y].pixels, prev.rows[y].pixels;
    assert c[..x + same] + p[x + same..] == c[..x] + p[x..];
  }

  lemma PartialRun(prev: Bitmap, cur: Bitmap, y: nat, x: nat, diff: nat)
    requires SameSize(prev, cur) && y < cur.height && x + diff <= cur.width && x < 256 && diff < 256
    ensures var op := NewRun(y, x, cur.rows[y].pixels[x..x + diff]);
            && CanApply(prev.Image(), Partial(prev, cur, y, x), op, true)
            && Apply(prev.Image(), Partial(prev, cur, y, x), op, true) == Partial(prev, cur, y, x + diff)
  {
    var c, p := cur.rows[y].pixels, prev.rows[y].pixels;
    var row := c[..x] + p[x..];
    assert row[..x] + c[x..x + diff] + row[x + diff..] == c[..x + diff] + p[x + diff..];
  }

  /** kit/Delta.hpp:166-178: how many pixels to skip from x on, and how many to write then.
      The second loop goes on over equal pixels once it has two. */
  method NextRun(prevRow: seq<Pixel>, curRow: seq<Pixel>, x: nat) returns (same: nat, diff: nat)
    requires x < |prevRow| == |curRow|
    ensures x + same + diff <= |curRow| && diff <= 254 && same + diff > 0
    ensures forall k :: x <= k < x + same ==> prevRow[k] == curRow[k]
    ensures x + same == |curRow| || prevRow[x + same] != curRow[x + same]
    ensures forall k :: x + same + 2 <= k < x + same + diff ==> prevRow[k] == curRow[k]
    ensures var end := x + same + diff;
            end == |curRow| || diff == 254 || (diff >= 2 && prevRow[end] != curRow[end])
  {
    same := 0;
    while same + x < |curRow| && prevRow[x + same] == curRow[x + same]
      invariant same <= |curRow| - x
      invariant forall k :: x <= k < x + same ==> prevRow[k] == curRow[k]
    {
      same := same + 1;
    }
    diff := 0;
    var start := x + same;
    while diff + start < |curRow| && (prevRow[start + diff] == curRow[start + diff] || diff < 2) && diff < 254
      invariant diff <= |curRow| - start && diff <= 254
      invariant forall k :: start + 2 <= k < start + diff ==> prevRow[k] == curRow[k]
    {
      diff := diff + 1;
    }
  }

  /** One more run of pixels on the wire brings a row up to date as far as it goes. */
  lemma OneMoreRun(prev: Bitmap, cur: Bitmap, y: nat, x: nat, diff: nat, prefix: seq<Byte>, ops: seq<Op>)
    requires SameSize(prev, cur) && y < cur.height && x + diff <= cur.width && x < 256 && diff < 256
    requires ApplyAll(prev.Image(), ops, true) == Some(Partial(prev, cur, y, x))
    ensures var pixels := cur.rows[y].pixels[x..x + diff]; var more := ops + [NewRun(y, x, pixels)];
            && Wire(prefix, more) == Wire(prefix, ops) + [CODE_RUN, y, x, diff] + PixelsBytes(pixels)
            && ApplyAll(prev.Image(), more, true) == Some(Partial(prev, cur, y, x + diff))
            && AnyWraps(more) == AnyWraps(ops)
  {
    hide ApplyAll, AnyWraps, Done, Partial, SerializeAll, Apply, CanApply, PixelsBytes, Wire;
    var op := NewRun(y, x, cur.rows[y].pixels[x..x + diff]);
    PartialRun(prev, cur, y, x, diff);
    ApplySnoc(prev.Image(), ops, op, true);
    WireSnoc(prefix, ops, op);
  }

  /** kit/Delta.hpp:160-191: row y is written as runs of pixels. */
  method DiffRow(prev: Bitmap, cur: Bitmap, y: nat, before: seq<Byte>, ghost prefix: seq<Byte>, ghost ops: seq<Op>,
                 ghost j: int, ghost rel: int, ghost offset: nat)
    returns (output: seq<Byte>, ghost ops': seq<Op>)
    requires SameSize(prev, cur) && y < cur.height && Emitted(prev, cur, y, ops)
    requires RunState(prev, cur, y, ops, j, rel, offset) && Pick(prev.rows, cur.rows, y).None?
    requires before == Wire(prefix, ops)
    ensures output == Wire(prefix, ops')
    ensures Emitted(prev, cur, y + 1, ops') && RunState(prev, cur, y + 1, ops', j, rel, offset)
  {
    hide RunState, Pick, StepsBefore, LastPick, ApplyAll, AnyWraps, Done, Partial, SerializeAll, Apply, CanApply,
        PixelsBytes, Wire;
    output, ops' := before, ops;
    var curRow, prevRow := cur.rows[y].pixels, prev.rows[y].pixels;
    var x := 0;
    PartialEnds(prev, cur, y);
    while x < prev.width
      invariant 0 <= x <= prev.width
      invariant output == Wire(prefix, ops') && ops <= ops'
      invariant ApplyAll(prev.Image(), ops', true) == Some(Partial(prev, cur, y, x))
      invariant AnyWraps(ops') == AnyWraps(ops)
      decreases prev.width - x
    {
      var same, diff := NextRun(prevRow, curRow, x);
      PartialSame(prev, cur, y, x, same);
      x := x + same;
      if diff > 0 {
        output := output + [CODE_RUN, y, x, diff];
        output := output + PixelsBytes(curRow[x..x + diff]);
        OneMoreRun(prev, cur, y, x, diff, prefix, ops');
        ops' := ops' + [NewRun(y, x, curRow[x..x + diff])];
        x := x + diff;
      }
    }
    PartialEnds(prev, cur, y);
    KeptEmitted(prev, cur, y, ops, ops');
    RunKept(prev, cur, y, ops, ops', j, rel, offset);
  }

  lemma WireSnoc(before: seq<Byte>, ops: seq<Op>, op: Op)
    ensures Wire(before, ops + [op]) == Wire(before, ops) + Serialize(op)
    ensures op.NewRun? ==>
              Wire(before, ops + [op]) ==
              Wire(before, ops) + [CODE_RUN, op.row, op.col, |op.pixels|] + PixelsBytes(op.pixels)
  {
    hide SerializeAll, PixelsBytes;
    SerializeSnoc(ops, op);
  }

  /** The hunt, started from the recorded offset, finds the row that Pick names. */
  lemma PickFrom(prev: seq<BitmapRow>, cur: seq<BitmapRow>, y: nat)
    requires |prev| == |cur| && y < |cur| && !prev[y].Identical(cur[y])
    ensures LastPick(prev, cur, y).0 <= y
    ensures Pick(prev, cur, y) ==
            FirstMatch(prev, cur[y], y - LastPick(prev, cur, y).0 + LastPick(prev, cur, y).1, 0)
  {
    hide FirstMatch, LastPick;
  }

  lemma OffsetAdded(y: nat, src: nat, dest: nat, offset: nat)
    requires y < 256 && src < 256 && dest <= y && offset == (src - dest) % SIZE_T
    ensures (y + offset) % SIZE_T == y - dest + src
  {
  }

  lemma HuntIsPick(prev: Bitmap, cur: Bitmap, y: nat, ops: seq<Op>, j: int, rel: int, offset: nat) returns (start: nat)
    requires SameSize(prev, cur) && y < cur.height && RunState(prev, cur, y, ops, j, rel, offset)
    requires !prev.rows[y].Identical(cur.rows[y])
    ensures start <= 1000 && (y + offset) % SIZE_T == start
    ensures FirstMatch(prev.rows, cur.rows[y], start, 0) == Pick(prev.rows, cur.rows, y)
  {
    hide FirstMatch, LastPick, Pick, SerializeAll;
    PickFrom(prev.rows, cur.rows, y);
    if j < 0 {
      start := y;
    } else {
      var run := ops[j];
      OffsetAdded(y, run.src, run.dest, offset);
      start := y - run.dest + run.src;
      if run.src + run.count > 256 {
        FirstMatchModulo(prev.rows, cur.rows[y], start - 256, 0);
      }
    }
  }

  /** Where the three bytes of run j are on the wire. */
  lemma RunBytes(before: seq<Byte>, ops: seq<Op>, j: nat)
    requires j < |ops| && ops[j].CopyRows?
    ensures var at := |before| + 1 + |SerializeAll(ops[..j])| + 1;
            && at + 2 < |Wire(before, ops)|
            && Wire(before, ops)[at] == ops[j].count
            && Wire(before, ops)[at + 1] == ops[j].src
            && Wire(before, ops)[at + 2] == ops[j].dest
  {
    hide SerializeAll;
    var head, tail := ops[..j], ops[j + 1..];
    SerializeAppend(head + [ops[j]], tail);
    assert ops == head + [ops[j]] + tail;
    SerializeSnoc(head, ops[j]);
  }

  lemma PatchWire(before: seq<Byte>, head: seq<Op>, run: Op)
    requires run.CopyRows? && run.count < 255
    ensures var at := |before| + 1 + |SerializeAll(head)| + 1;
            && at < |Wire(before, head + [run])|
            && Wire(before, head + [run.(count := run.count + 1)]) == Wire(before, head + [run])[at := run.count + 1]
  {
    hide SerializeAll;
    PatchBytes(head, run);
  }

  lemma KeptEmitted(prev: Bitmap, cur: Bitmap, y: nat, ops: seq<Op>, ops': seq<Op>)
    requires SameSize(prev, cur) && y < cur.height && Emitted(prev, cur, y, ops)
    requires Pick(prev.rows, cur.rows, y).None? && AnyWraps(ops') == AnyWraps(ops)
    requires ApplyAll(prev.Image(), ops', true) == Some(Done(prev, cur, y + 1))
    ensures Emitted(prev, cur, y + 1, ops')
  {
    hide ApplyAll, AnyWraps, Done, Pick;
    StepsNext(prev, cur, y);
  }

  lemma NothingEmitted(prev: Bitmap, cur: Bitmap, before: seq<Byte>)
    requires SameSize(prev, cur)
    ensures Emitted(prev, cur, 0, []) && RunState(prev, cur, 0, [], -1, 0, 0)
    ensures Wire(before, []) == before + [CODE_DELTA]
  {
    assert Done(prev, cur, 0) == prev.Image();
  }

  lemma UnchangedRow(prev: Bitmap, cur: Bitmap, y: nat, ops: seq<Op>, j: int, rel: int, offset: nat)
    requires SameSize(prev, cur) && y < cur.height && Emitted(prev, cur, y, ops)
    requires RunState(prev, cur, y, ops, j, rel, offset) && prev.rows[y].Identical(cur.rows[y])
    ensures Emitted(prev, cur, y + 1, ops) && RunState(prev, cur, y + 1, ops, j, rel, offset)
  {
    hide LastPick, ApplyAll, AnyWraps, SerializeAll, StepsBefore, RunState;
    DoneRow(prev, cur, y);
    assert Done(prev, cur, y + 1) == Done(prev, cur, y);
    KeptEmitted(prev, cur, y, ops, ops);
    RunKept(prev, cur, y, ops, ops, j, rel, offset);
  }

  /** kit/Delta.hpp:133-156: row y is row m of the previous bitmap; lengthen the last copy
      run by patching its count byte if the signed sums fit, else start a run. */
  method CopyRow(prev: Bitmap, cur: Bitmap, y: nat, m: nat, before: seq<Byte>, copyAt: nat, matchOffset: nat,
                 ghost prefix: seq<Byte>, ghost ops: seq<Op>, ghost j: int, ghost rel: int)
    returns (output: seq<Byte>, lastCopy: nat, lastMatchOffset: nat, ghost ops': seq<Op>, ghost j': int,
        ghost rel': int)
    requires SameSize(prev, cur) && y < cur.height && Emitted(prev, cur, y, ops)
    requires RunState(prev, cur, y, ops, j, rel, matchOffset) && Pick(prev.rows, cur.rows, y) == Some(m)
    requires before == Wire(prefix, ops) && copyAt == if j < 0 then 0 else |prefix| + 1 + rel
    ensures output == Wire(prefix, ops') && lastCopy == if j' < 0 then 0 else |prefix| + 1 + rel'
    ensures Emitted(prev, cur, y + 1, ops') && RunState(prev, cur, y + 1, ops', j', rel', lastMatchOffset)
  {
    hide LastPick, Pick, ApplyAll, AnyWraps, Done, SerializeAll, StepsBefore, RunEnds, Emitted;
    output, lastCopy, lastMatchOffset := before, copyAt, matchOffset;
    if lastCopy > 0 {
      RunBytes(prefix, ops, j);
      var cnt := SignedChar(output[lastCopy]);
      if SignedChar(output[lastCopy + 1]) + cnt == SignedChar(m)
          && SignedChar(output[lastCopy + 2]) + cnt == SignedChar(y) {
        j', rel' := j, rel;
        ops' := ExtendRun(prev, cur, y, ops, j, rel, matchOffset, m);
        PatchWire(prefix, ops[..j], ops[j]);
        assert ops == ops[..j] + [ops[j]];
        output := output[lastCopy := output[lastCopy] + 1];
        return;
      }
    }
    StartRun(prev, cur, y, ops, j, rel, matchOffset, m);
    lastMatchOffset := (m - y) % SIZE_T;
    output := output + [CODE_COPY];
    lastCopy := |output|;
    output := output + [1, m, y];
    ops', j', rel' := ops + [CopyRows(1, m, y)], |ops|, |SerializeAll(ops)| + 1;
    WireSnoc(prefix, ops, CopyRows(1, m, y));
  }

  /** kit/Delta.hpp:110-194: the marker and the loop over the rows. */
  method EncodeRows(prev: Bitmap, cur: Bitmap, before: seq<Byte>) returns (output: seq<Byte>, ghost ops: seq<Op>)
    requires SameSize(prev, cur)
    ensures Emitted(prev, cur, cur.height, ops) && output == Wire(before, ops)
  {
    hide Emitted, RunState, Wire, Pick, FirstMatch, LastPick;
    output := before + [CODE_DELTA];
    var lastMatchOffset, lastCopy := 0, 0;
    ghost var j: int, rel: int := -1, 0;
    ops := [];
    NothingEmitted(prev, cur, before);
    var y := 0;
    while y < prev.height
      invariant 0 <= y <= prev.height
      invariant Emitted(prev, cur, y, ops) && RunState(prev, cur, y, ops, j, rel, lastMatchOffset)
      invariant output == Wire(before, ops) && lastCopy == if j < 0 then 0 else |before| + 1 + rel
    {
      if prev.rows[y].Identical(cur.rows[y]) {
        UnchangedRow(prev, cur, y, ops, j, rel, lastMatchOffset);
      } else {
        ghost var start := HuntIsPick(prev, cur, y, ops, j, rel, lastMatchOffset);
        var found := HuntRow(prev.rows, cur.rows[y], y, lastMatchOffset, start);
        if found.Some? {
          output, lastCopy, lastMatchOffset, ops, j, rel :=
            CopyRow(prev, cur, y, found.value, output, lastCopy, lastMatchOffset, before, ops, j, rel);
        } else {
          output, ops := DiffRow(prev, cur, y, output, before, ops, j, rel, lastMatchOffset);
        }
      }
      y := y + 1;
    }
  }

  /** kit/Delta.hpp:97-196. */
  method MakeDelta(prev: Bitmap, cur: Bitmap, before: seq<Byte>) returns (ok: bool, output: seq<Byte>)
    requires prev.Valid() && cur.Valid() && prev.height <= 256 && prev.width <= 256
    ensures ok <==> prev.width == cur.width && prev.height == cur.height
    ensures !ok ==> output == before
    ensures ok ==> before <= output && Decode(prev.Image(), output[|before|..], true) == Some(cur.Image())
    ensures ok ==> Decode(prev.Image(), output[|before|..], false) ==
                   if exists y: nat :: StepsPastEnd(prev.rows, cur.rows, y) then None else Some(cur.Image())
    ensures ok && cur.height <= 255 ==> Decode(prev.Image(), output[|before|..], false) == Some(cur.Image())
  {
    if prev.width != cur.width || prev.height != cur.height {
      return false, before;
    }
    hide Emitted, Wire, Decode, Pick;
    ghost var ops;
    output, ops := EncodeRows(prev, cur, before);
    ok := true;
    RoundTrip(prev, cur, before, ops);
  }

  lemma RoundTrip(prev: Bitmap, cur: Bitmap, before: seq<Byte>, ops: seq<Op>)
    requires SameSize(prev, cur) && Emitted(prev, cur, cur.height, ops)
    ensures var delta := Wire(before, ops)[|before|..];
            && before <= Wire(before, ops)
            && Decode(prev.Image(), delta, true) == Some(cur.Image())
            && Decode(prev.Image(), delta, false) ==
               if exists y: nat :: StepsPastEnd(prev.rows, cur.rows, y) then None else Some(cur.Image())
  {
    hide SerializeAll, Parse, Pick, LastPick, ApplyAll, AnyWraps;
    var delta := Wire(before, ops)[|before|..];
    assert delta[1..] == SerializeAll(ops);
    ParseSerialize(ops);
    PlainAgreesUnlessWrapped(prev.Image(), ops);
    assert Done(prev, cur, cur.height) == cur.Image();
    assert forall y: nat :: StepsPastEnd(prev.rows, cur.rows, y) ==> y < cur.height;
  }

  // ----- a pair of bitmaps on which the unit test's decoder leaves the bitmap -----

  function OnePixel(p: Pixel): BitmapRow {
    BitmapRow(0, [p])
  }

  ghost function Ramp(): (r: seq<BitmapRow>)
    ensures |r| == 256 && forall y: nat :: y < 256 ==> r[y] == OnePixel(y)
  {
    seq(256, y requires 0 <= y < 256 => OnePixel(y))
  }

  /** The ramp with its first two rows replaced by rows 255 and 0. */
  ghost function Rolled(): seq<BitmapRow> {
    Ramp()[0 := OnePixel(255)][1 := OnePixel(0)]
  }

  lemma {:induction false} RampHunt(yn: nat)
    requires yn < 256
    ensures FirstMatch(Ramp(), OnePixel(255), 0, yn) == Some(255)
    decreases 256 - yn
  {
    assert ScanRow(0, yn, 256) == yn;
    if yn < 255 {
      assert OnePixel(yn).pixels[0] != OnePixel(255).pixels[0];
      RampHunt(yn + 1);
    }
  }

  /** At the full height of 256 a run can step from row 255 to row 0. */
  lemma RolledRampStepsPastEnd()
    ensures StepsPastEnd(Ramp(), Rolled(), 1)
  {
    hide FirstMatch, Ramp;
    var prev, cur := Ramp(), Rolled();
    assert OnePixel(0).pixels[0] != OnePixel(255).pixels[0] && OnePixel(1).pixels[0] != OnePixel(0).pixels[0];
    RampHunt(0);
    assert Pick(prev, cur, 0) == Some(255);
    assert LastPick(prev, cur, 1) == (0, 255);
    FirstRowMatches(prev, cur[1]);
    assert Pick(prev, cur, 1) == Some(0);
  }

  lemma FirstRowMatches(prev: seq<BitmapRow>, row: BitmapRow)
    requires |prev| == 256 && prev[0].Identical(row)
    ensures FirstMatch(prev, row, 256, 0) == Some(0)
  {
    assert ScanRow(256, 0, 256) == 0;
  }

  // ----- the generator and its store of recent bitmaps -----

  function PixelIndex(bufferWidth: nat, x: nat, y: nat): nat {
    (y * bufferWidth + x) * 4
  }

  lemma IndexInside(bufferWidth: nat, bufferHeight: nat, x: nat, y: nat)
    requires x < bufferWidth && y < bufferHeight
    ensures PixelIndex(bufferWidth, x, y) + 4 <= bufferWidth * bufferHeight * 4
  {
    assert (y + 1) * bufferWidth <= bufferHeight * bufferWidth;
  }

  ghost predicate IsWindow(b: Bitmap, pixmap: seq<Byte>, startX: nat, startY: nat, bufferWidth: nat, bufferHeight: nat)
    requires |pixmap| == bufferWidth * bufferHeight * 4
    requires startX + b.width <= bufferWidth && startY + b.height <= bufferHeight
  {
    && b.Valid()
    && forall y: nat, x: nat :: y < b.height && x < b.width ==>
         b.rows[y].pixels[x] == PixelAt(pixmap, bufferWidth, bufferHeight, startX + x, startY + y)
  }

  function PixelAt(pixmap: seq<Byte>, bufferWidth: nat, bufferHeight: nat, x: nat, y: nat): Pixel
    requires |pixmap| == bufferWidth * bufferHeight * 4 && x < bufferWidth && y < bufferHeight
  {
    IndexInside(bufferWidth, bufferHeight, x, y);
    var at := PixelIndex(bufferWidth, x, y);
    PixelFrom(pixmap[at..at + 4])
  }

  /** The bytes that a run writes for a pixel of a window are those of the picture at its place. */
  lemma WindowBytes(b: Bitmap, pixmap: seq<Byte>, startX: nat, startY: nat, bufferWidth: nat, bufferHeight: nat,
                    x: nat, y: nat, channel: nat)
    requires |pixmap| == bufferWidth * bufferHeight * 4
    requires startX + b.width <= bufferWidth && startY + b.height <= bufferHeight
    requires IsWindow(b, pixmap, startX, startY, bufferWidth, bufferHeight)
    requires x < b.width && y < b.height && channel < 4
    ensures 0 <= ((startY + y) * bufferWidth + startX + x) * 4 + channel < |pixmap|
    ensures PixelBytes(b.rows[y].pixels[x])[channel] ==
            pixmap[((startY + y) * bufferWidth + startX + x) * 4 + channel]
  {
    var at := PixelIndex(bufferWidth, startX + x, startY + y);
    IndexInside(bufferWidth, bufferHeight, startX + x, startY + y);
    BytesRoundTrip(pixmap[at..at + 4]);
    assert b.rows[y].pixels[x] == PixelAt(pixmap, bufferWidth, bufferHeight, startX + x, startY + y);
    hide PixelBytes, PixelFrom, IsWindow;
  }

  class DeltaGenerator {
    var entries: seq<Bitmap>

    ghost predicate Valid()
      reads this
    {
      && |entries| <= 7
      && forall i :: 0 <= i < |entries| ==> entries[i].Valid() && entries[i].width <= 256 && entries[i].height <= 256
    }

    constructor ()
      ensures Valid() && entries == []
    {
      entries := [];
    }

    /** kit/Delta.hpp:198-236. */
    static method DataToDeltaData(wid: nat, pixmap: seq<Byte>, startX: nat, startY: nat, width: nat, height: nat,
                                  bufferWidth: nat, bufferHeight: nat) returns (data: Bitmap)
      requires |pixmap| == bufferWidth * bufferHeight * 4
      requires startX + width <= bufferWidth && startY + height <= bufferHeight
      ensures data.wid == wid && data.width == width && data.height == height
      ensures IsWindow(data, pixmap, startX, startY, bufferWidth, bufferHeight)
    {
      var rows: seq<BitmapRow> := [];
      for y := 0 to height
        invariant |rows| == y
        invariant forall r: nat :: r < y ==> |rows[r].pixels| == width
        invariant forall r: nat, x: nat :: r < y && x < width ==>
          rows[r].pixels[x] == PixelAt(pixmap, bufferWidth, bufferHeight, startX + x, startY + r)
      {
        var crc: nat := *;
        var pixels: seq<Pixel> := [];
        for x := 0 to width
          invariant |pixels| == x
          invariant forall c: nat :: c < x ==>
                      pixels[c] == PixelAt(pixmap, bufferWidth, bufferHeight, startX + c, startY + y)
        {
          pixels := pixels + [PixelAt(pixmap, bufferWidth, bufferHeight, startX + x, startY + y)];
        }
        rows := rows + [BitmapRow(crc, pixels)];
      }
      data := Bitmap(wid, width, height, rows);
    }

    /** kit/Delta.hpp:247-271.  The new bitmap is kept, the oldest of more than six is
        dropped first, and a delta is made against the first kept bitmap of the old id. */
    method CreateDelta(pixmap: seq<Byte>, startX: nat, startY: nat, width: nat, height: nat,
                       bufferWidth: nat, bufferHeight: nat, before: seq<Byte>, wid: nat, oldWid: nat)
      returns (ok: bool, output: seq<Byte>)
      requires Valid()
      requires |pixmap| == bufferWidth * bufferHeight * 4 && width <= 256 && height <= 256
      requires startX + width <= bufferWidth && startY + height <= bufferHeight
      modifies this
      ensures Valid() && entries != []
      ensures entries[..|entries| - 1] == if |old(entries)| > 6 then old(entries)[1..] else old(entries)
      ensures var update := entries[|entries| - 1];
              && update.wid == wid && update.width == width && update.height == height
              && IsWindow(update, pixmap, startX, startY, bufferWidth, bufferHeight)
      ensures !ok ==> output == before
      ensures ok ==>
                exists i: nat ::
                  IsFirst(entries, i, oldWid) && IsDelta(entries[i], entries[|entries| - 1], before, output)
      ensures !ok ==> forall i: nat :: IsFirst(entries, i, oldWid) ==>
                entries[i].width != width || entries[i].height != height
    {
      if |entries| > 6 {
        entries := entries[1..];
      }
      var update := DataToDeltaData(wid, pixmap, startX, startY, width, height, bufferWidth, bufferHeight);
      entries := entries + [update];
      assert entries[|entries| - 1] == update;
      var i := 0;
      while i < |entries|
        invariant 0 <= i <= |entries|
        invariant forall k :: 0 <= k < i ==> entries[k].wid != oldWid
      {
        if oldWid == entries[i].wid {
          ok, output := MakeDelta(entries[i], update, before);
          assert IsFirst(entries, i, oldWid);
          return;
        }
        i := i + 1;
      }
      return false, before;
    }
  }

  ghost predicate IsDelta(prev: Bitmap, cur: Bitmap, before: seq<Byte>, output: seq<Byte>) {
    && prev.Valid() && cur.Valid() && before <= output
    && Decode(prev.Image(), output[|before|..], true) == Some(cur.Image())
  }

  predicate IsFirst(entries: seq<Bitmap>, i: nat, wid: nat) {
    i < |entries| && entries[i].wid == wid && forall k :: 0 <= k < i ==> entries[k].wid != wid
  }
}
