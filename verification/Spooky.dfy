/** The hash of common/SpookyV2.h and common/SpookyV2.cpp as functions of the message, on a
    little-endian machine. */
module Spooky {
  type Byte8 = bv8
  type Word = bv64

  /** By how much words are rotated. */
  type Turn = k: Word | k <= 64

  const BLOCK_SIZE := 96
  const BUF_SIZE := 192
  const SC_CONST: Word := 0xdeadbeefdeadbeef

  function Rot64(x: Word, k: Turn): Word
  {
    (x << k) | (x >> (64 - k))
  }

  function Sum(x: Word, y: Word): Word {
    x + y
  }

  function Xor(x: Word, y: Word): Word {
    x ^ y
  }

  // ----- what a line of mixing does to one word of a state -----

  /** A data word is added. */
  function Fed(s: seq<Word>, i: nat, w: Word): (r: seq<Word>)
    requires i < |s|
    ensures |r| == |s|
  {
    s[i := Sum(s[i], w)]
  }

  /** Another word is added. */
  function Added(s: seq<Word>, i: nat, j: nat): (r: seq<Word>)
    requires i < |s| && j < |s|
    ensures |r| == |s|
  {
    s[i := Sum(s[i], s[j])]
  }

  /** Another word is mixed in. */
  function Xored(s: seq<Word>, i: nat, j: nat): (r: seq<Word>)
    requires i < |s| && j < |s|
    ensures |r| == |s|
  {
    s[i := Xor(s[i], s[j])]
  }

  function Turned(s: seq<Word>, i: nat, k: Turn): (r: seq<Word>)
    requires i < |s|
    ensures |r| == |s|
  {
    s[i := Rot64(s[i], k)]
  }

  // ----- the twelve-word state of long messages -----

  type State = s: seq<Word> | |s| == 12 witness [0, 0, 0, 0, 0, 0, 0, 0, 0, 0, 0, 0]

  const MIX_SHIFTS: seq<Turn> := [11, 32, 43, 31, 17, 28, 39, 57, 55, 54, 22, 46]
  const END_SHIFTS: seq<Turn> := [54, 44, 15, 34, 21, 38, 33, 10, 13, 38, 53, 42]

  /** Line i of Mix: word i takes the data word and is rotated; three others follow it. */
  function MixLine(data: State, s: State, i: nat): State
    requires i < 12
  {
    var a := Fed(s, i, data[i]);
    var b := Xored(a, (i + 2) % 12, (i + 10) % 12);
    var c := Xored(b, (i + 11) % 12, i);
    Added(Turned(c, i, MIX_SHIFTS[i]), (i + 11) % 12, (i + 1) % 12)
  }

  function MixLines(data: State, s: State, n: nat): State
    requires n <= 12
  {
    if n == 0 then s else MixLine(data, MixLines(data, s, n - 1), n - 1)
  }

  function Mix(data: State, s: State): State {
    MixLines(data, s, 12)
  }

  /** Line j of EndPartial, counted from 1; the twelfth is that of word 0. */
  function EndLine(s: State, j: nat): State
    requires 1 <= j <= 12
  {
    var i := j % 12;
    var a := Added(s, (i + 10) % 12, i);
    Turned(Xored(a, (i + 1) % 12, (i + 10) % 12), i, END_SHIFTS[i])
  }

  function EndLines(s: State, n: nat): State
    requires n <= 12
  {
    if n == 0 then s else EndLine(EndLines(s, n - 1), n)
  }

  function EndPartial(s: State): State {
    EndLines(s, 12)
  }

  function AddAll(s: State, data: State): State {
    seq(12, i requires 0 <= i < 12 => Sum(s[i], data[i]))
  }

  function End(data: State, s: State): State {
    EndPartial(EndPartial(EndPartial(AddAll(s, data))))
  }

  // ----- the four-word state of short messages -----

  type Four = s: seq<Word> | |s| == 4 witness [0, 0, 0, 0]

  const SHORT_MIX_SHIFTS: seq<Turn> := [50, 52, 30, 41, 54, 48, 38, 37, 62, 34, 5, 36]
  const SHORT_END_SHIFTS: seq<Turn> := [15, 52, 26, 51, 28, 9, 47, 54, 32, 25, 63]

  /** Line r of ShortMix, from 0: word r + 2 (modulo 4) is rotated, the next one is added to
      it, and it is mixed into the one after that. */
  function ShortMixLine(s: Four, r: nat): Four
    requires r < 12
  {
    var i := (r + 2) % 4;
    Xored(Added(Turned(s, i, SHORT_MIX_SHIFTS[r]), i, (i + 1) % 4), (i + 2) % 4, i)
  }

  function ShortMixLines(s: Four, n: nat): Four
    requires n <= 12
  {
    if n == 0 then s else ShortMixLine(ShortMixLines(s, n - 1), n - 1)
  }

  /** Line r of ShortEnd, from 0: word r + 2 (modulo 4) is mixed into the next, rotated, and
      added there. */
  function ShortEndLine(s: Four, r: nat): Four
    requires r < 11
  {
    var i := (r + 2) % 4;
    Added(Turned(Xored(s, (i + 1) % 4, i), i, SHORT_END_SHIFTS[r]), (i + 1) % 4, i)
  }

  function ShortEndLines(s: Four, n: nat): Four
    requires n <= 11
  {
    if n == 0 then s else ShortEndLine(ShortEndLines(s, n - 1), n - 1)
  }

  function ShortMix(s: Four): Four {
    ShortMixLines(s, 12)
  }

  function ShortEnd(s: Four): Four {
    ShortEndLines(s, 11)
  }

  // ----- reading the message -----

  function Widen(b: Byte8): Word {
    b as Word
  }

  function Little32(a: Byte8, b: Byte8, c: Byte8, d: Byte8): Word {
    Widen(a) + (Widen(b) << 8) + (Widen(c) << 16) + (Widen(d) << 24)
  }

  function Little64(low: Word, high: Word): Word {
    low + (high << 32)
  }

  function Word32(m: seq<Byte8>, at: nat): Word
    requires at + 4 <= |m|
  {
    Little32(m[at], m[at + 1], m[at + 2], m[at + 3])
  }

  function Word64(m: seq<Byte8>, at: nat): Word
    requires at + 8 <= |m|
  {
    Little64(Word32(m, at), Word32(m, at + 4))
  }

  function Block(m: seq<Byte8>): State
    requires |m| == BLOCK_SIZE
  {
    seq(12, i requires 0 <= i < 12 => Word64(m, 8 * i))
  }

  /** The blocks of 32 bytes of a short message, and a half block if there is one. */
  function ShortBlocks(s: Four, m: seq<Byte8>): Four
    decreases |m|
  {
    if |m| < 16 then s
    else if |m| < 32 then HalfBlock(s, m)
    else ShortBlocks(WholeBlock(s, m), m[32..])
  }

  function HalfBlock(s: Four, m: seq<Byte8>): Four
    requires |m| >= 16
  {
    ShortMix(Fed(Fed(s, 2, Word64(m, 0)), 3, Word64(m, 8)))
  }

  function WholeBlock(s: Four, m: seq<Byte8>): Four
    requires |m| >= 32
  {
    Fed(Fed(HalfBlock(s, m), 0, Word64(m, 16)), 1, Word64(m, 24))
  }

  /** The first n of three words are added, the last one first. */
  function FirstAdded(x: Word, n: nat, p: Word, q: Word, r: Word): Word {
    var x1 := if n >= 3 then Sum(x, r) else x;
    var x2 := if n >= 2 then Sum(x1, q) else x1;
    if n >= 1 then Sum(x2, p) else x2
  }

  /** The first n of three bytes are added from bit 32 on. */
  function HighBytes(x: Word, n: nat, a: Byte8, b: Byte8, c: Byte8): Word {
    FirstAdded(x, n, Widen(a) << 32, Widen(b) << 40, Widen(c) << 48)
  }

  /** The same from bit 0 on. */
  function LowBytes(x: Word, n: nat, a: Byte8, b: Byte8, c: Byte8): Word {
    FirstAdded(x, n, Widen(a), Widen(b) << 8, Widen(c) << 16)
  }

  function ByteAt(m: seq<Byte8>, i: nat): Byte8 {
    if i < |m| then m[i] else 0
  }

  /** What the last 0 to 15 bytes and the length add to c and d. */
  function ShortTail(s: Four, m: seq<Byte8>, length: nat): Four
    requires |m| < 16 && length < 256
  {
    var n, c := |m|, s[2];
    var d := Sum(s[3], (length as Word) << 56);
    if n >= 12 then
      [s[0], s[1], Sum(c, Word64(m, 0)),
       Sum(HighBytes(d, n - 12, ByteAt(m, 12), ByteAt(m, 13), ByteAt(m, 14)), Word32(m, 8))]
    else if n >= 8 then
      [s[0], s[1], Sum(c, Word64(m, 0)), LowBytes(d, n - 8, ByteAt(m, 8), ByteAt(m, 9), ByteAt(m, 10))]
    else if n >= 4 then
      [s[0], s[1], Sum(HighBytes(c, n - 4, ByteAt(m, 4), ByteAt(m, 5), ByteAt(m, 6)), Word32(m, 0)), d]
    else if n >= 1 then
      [s[0], s[1], LowBytes(c, n, ByteAt(m, 0), ByteAt(m, 1), ByteAt(m, 2)), d]
    else
      [s[0], s[1], Sum(c, SC_CONST), Sum(d, SC_CONST)]
  }

  datatype Hash = Hash(hash1: Word, hash2: Word)

  /** common/SpookyV2.cpp:29-143. */
  function Short(m: seq<Byte8>, seed1: Word, seed2: Word): Hash
    requires |m| < BUF_SIZE
  {
    var s := ShortBlocks([seed1, seed2, SC_CONST, SC_CONST], m);
    var t := ShortEnd(ShortTail(s, m[|m| / 16 * 16..], |m|));
    Hash(t[0], t[1])
  }

  function InitialState(seed1: Word, seed2: Word): State {
    [seed1, seed2, SC_CONST, seed1, seed2, SC_CONST, seed1, seed2, SC_CONST, seed1, seed2, SC_CONST]
  }

  function MixBlocks(s: State, m: seq<Byte8>): State
    requires |m| % BLOCK_SIZE == 0
    decreases |m|
  {
    if m == [] then s else MixBlocks(Mix(Block(m[..BLOCK_SIZE]), s), m[BLOCK_SIZE..])
  }

  /** The last partial block: zeros behind it, and its length in the last byte. */
  function LastBlock(m: seq<Byte8>): (r: seq<Byte8>)
    requires |m| < BLOCK_SIZE
    ensures |r| == BLOCK_SIZE
  {
    m + seq(BLOCK_SIZE - 1 - |m|, _ => 0) + [|m| as Byte8]
  }

  function Finish(s: State, m: seq<Byte8>): Hash
    requires |m| < BLOCK_SIZE
  {
    var t := End(Block(LastBlock(m)), s);
    Hash(t[0], t[1])
  }

  /** common/SpookyV2.cpp:148-207: the hash of a whole message. */
  function Hash128(m: seq<Byte8>, seed1: Word, seed2: Word): Hash {
    if |m| < BUF_SIZE then Short(m, seed1, seed2)
    else
      var blocks := |m| / BLOCK_SIZE * BLOCK_SIZE;
      Finish(MixBlocks(InitialState(seed1, seed2), m[..blocks]), m[blocks..])
  }

  function Hash64(m: seq<Byte8>, seed: Word): Word {
    Hash128(m, seed, seed).hash1
  }

  lemma {:induction false} MixBlocksAppend(s: State, a: seq<Byte8>, b: seq<Byte8>)
    requires |a| % BLOCK_SIZE == 0 && |b| % BLOCK_SIZE == 0
    ensures MixBlocks(s, a + b) == MixBlocks(MixBlocks(s, a), b)
    decreases |a|
  {
    hide Mix, Block;
    if a == [] {
      assert a + b == b;
    } else {
      assert (a + b)[..BLOCK_SIZE] == a[..BLOCK_SIZE] && (a + b)[BLOCK_SIZE..] == a[BLOCK_SIZE..] + b;
      MixBlocksAppend(Mix(Block(a[..BLOCK_SIZE]), s), a[BLOCK_SIZE..], b);
    }
  }
}
