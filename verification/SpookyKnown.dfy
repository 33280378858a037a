/** Two hashes in bits, of a short message and of a long one.  A state is seen from the word that a
    line of mixing begins with, so that each line is one step. */
module SpookyKnown {
  import opened Spooky

  // ----- twelve words, seen from one of them -----

  datatype Twelve = Twelve(w0: Word, w1: Word, w2: Word, w3: Word, w4: Word, w5: Word, w6: Word, w7: Word, w8: Word,
                           w9: Word, w10: Word, w11: Word)

  function At(s: State, k: nat): Word {
    s[k % 12]
  }

  /** The words of a state from word i on, around to the one before it. */
  predicate From(s: State, i: nat, w: Twelve) {
    FirstFrom(s, i, w) && LastFrom(s, i, w)
  }

  predicate FirstFrom(s: State, i: nat, w: Twelve) {
    && At(s, i) == w.w0 && At(s, i + 1) == w.w1 && At(s, i + 2) == w.w2 && At(s, i + 3) == w.w3
    && At(s, i + 4) == w.w4 && At(s, i + 5) == w.w5
  }

  predicate LastFrom(s: State, i: nat, w: Twelve) {
    && At(s, i + 6) == w.w6 && At(s, i + 7) == w.w7 && At(s, i + 8) == w.w8 && At(s, i + 9) == w.w9
    && At(s, i + 10) == w.w10 && At(s, i + 11) == w.w11
  }

  lemma Around(s: State, i: nat, w: Twelve)
    ensures From(s, i + 12, w) == From(s, i, w)
  {
    assert forall k: nat :: At(s, k + 12) == At(s, k) by {
      forall k: nat ensures (k + 12) % 12 == k % 12 {
      }
    }
    hide At;
    assert At(s, i + 12 + 11) == At(s, i + 11 + 12);
  }

  function MixStep(w: Twelve, d: Word, k: Turn): Twelve
  {
    var a := Sum(w.w0, d);
    Twelve(w.w1, Xor(w.w2, w.w10), w.w3, w.w4, w.w5, w.w6, w.w7, w.w8, w.w9, w.w10,
           Sum(Xor(w.w11, a), w.w1), Rot64(a, k))
  }

  function MixSteps(w: Twelve, data: State, n: nat): Twelve
    requires n <= 12
  {
    if n == 0 then w else MixStep(MixSteps(w, data, n - 1), data[n - 1], MIX_SHIFTS[n - 1])
  }

  lemma MixFrame(data: State, s: State, i: nat, j: nat)
    requires i < 12 && 0 < j < 12 && j != 2 && j != 11
    ensures At(MixLine(data, s, i), i + j) == At(s, i + j)
  {
    hide Sum, Xor, Rot64, MIX_SHIFTS;
  }

  lemma MixWords(data: State, s: State, i: nat)
    requires i < 12
    ensures var t, a := MixLine(data, s, i), Sum(At(s, i), data[i]);
            && At(t, i + 12) == Rot64(a, MIX_SHIFTS[i]) && At(t, i + 2) == Xor(At(s, i + 2), At(s, i + 10))
            && At(t, i + 11) == Sum(Xor(At(s, i + 11), a), At(s, i + 1))
  {
    hide Sum, Xor, Rot64, MIX_SHIFTS;
  }

  /** The words that a line of Mix leaves alone. */
  lemma MixKept(data: State, s: State, i: nat, w: Twelve)
    requires i < 12 && From(s, i, w)
    ensures var t := MixLine(data, s, i);
            && At(t, i + 1) == w.w1 && At(t, i + 3) == w.w3 && At(t, i + 4) == w.w4 && At(t, i + 5) == w.w5
            && At(t, i + 6) == w.w6 && At(t, i + 7) == w.w7 && At(t, i + 8) == w.w8 && At(t, i + 9) == w.w9
            && At(t, i + 10) == w.w10
  {
    hide At, MixLine;
    MixFrame(data, s, i, 1);
    MixFrame(data, s, i, 3);
    MixFrame(data, s, i, 4);
    MixFrame(data, s, i, 5);
    MixFrame(data, s, i, 6);
    MixFrame(data, s, i, 7);
    MixFrame(data, s, i, 8);
    MixFrame(data, s, i, 9);
    MixFrame(data, s, i, 10);
  }

  lemma MixChanged(data: State, s: State, i: nat, w: Twelve)
    requires i < 12 && From(s, i, w)
    ensures var t, a := MixLine(data, s, i), Sum(w.w0, data[i]);
            && At(t, i + 12) == Rot64(a, MIX_SHIFTS[i]) && At(t, i + 2) == Xor(w.w2, w.w10)
            && At(t, i + 11) == Sum(Xor(w.w11, a), w.w1)
  {
    hide At, MixLine, Sum, Xor, Rot64, MIX_SHIFTS;
    MixWords(data, s, i);
  }

  /** A line of Mix is a step of the words from its own on. */
  lemma MixLineFrom(data: State, s: State, i: nat, w: Twelve)
    requires i < 12 && From(s, i, w)
    ensures From(MixLine(data, s, i), i + 1, MixStep(w, data[i], MIX_SHIFTS[i]))
  {
    MixKept(data, s, i, w);
    MixChanged(data, s, i, w);
    hide At, MixLine, Sum, Xor, Rot64, MIX_SHIFTS;
  }

  lemma {:induction false} MixLinesFrom(data: State, s: State, w: Twelve, n: nat)
    requires n <= 12 && From(s, 0, w)
    ensures From(MixLines(data, s, n), n, MixSteps(w, data, n))
  {
    hide From, MixLine, MixStep, MIX_SHIFTS;
    if n > 0 {
      MixLinesFrom(data, s, w, n - 1);
      MixLineFrom(data, MixLines(data, s, n - 1), n - 1, MixSteps(w, data, n - 1));
    }
  }

  lemma MixFrom(data: State, s: State, w: Twelve)
    requires From(s, 0, w)
    ensures From(Mix(data, s), 0, MixSteps(w, data, 12))
  {
    hide From, MixLines, MixSteps;
    MixLinesFrom(data, s, w, 12);
    Around(Mix(data, s), 0, MixSteps(w, data, 12));
  }

  function EndStep(w: Twelve, k: Turn): Twelve
  {
    var b := Sum(w.w10, w.w0);
    Twelve(Xor(w.w1, b), w.w2, w.w3, w.w4, w.w5, w.w6, w.w7, w.w8, w.w9, b, w.w11, Rot64(w.w0, k))
  }

  function EndSteps(w: Twelve, n: nat): Twelve
    requires n <= 12
  {
    if n == 0 then w else EndStep(EndSteps(w, n - 1), END_SHIFTS[n % 12])
  }

  lemma EndFrame(s: State, j: nat, k: nat)
    requires 1 <= j <= 12 && 1 < k < 12 && k != 10
    ensures At(EndLine(s, j), j + k) == At(s, j + k)
  {
    hide Sum, Xor, Rot64, END_SHIFTS;
  }

  lemma EndWords(s: State, j: nat)
    requires 1 <= j <= 12
    ensures var t, b := EndLine(s, j), Sum(At(s, j + 10), At(s, j));
            && At(t, j + 10) == b && At(t, j + 1) == Xor(At(s, j + 1), b)
            && At(t, j + 12) == Rot64(At(s, j), END_SHIFTS[j % 12])
  {
    hide Sum, Xor, Rot64, END_SHIFTS;
  }

  /** The words that a line of EndPartial leaves alone. */
  lemma EndKept(s: State, j: nat, w: Twelve)
    requires 1 <= j <= 12 && From(s, j, w)
    ensures var t := EndLine(s, j);
            && At(t, j + 2) == w.w2 && At(t, j + 3) == w.w3 && At(t, j + 4) == w.w4 && At(t, j + 5) == w.w5
            && At(t, j + 6) == w.w6 && At(t, j + 7) == w.w7 && At(t, j + 8) == w.w8 && At(t, j + 9) == w.w9
            && At(t, j + 11) == w.w11
  {
    hide At, EndLine;
    EndFrame(s, j, 2);
    EndFrame(s, j, 3);
    EndFrame(s, j, 4);
    EndFrame(s, j, 5);
    EndFrame(s, j, 6);
    EndFrame(s, j, 7);
    EndFrame(s, j, 8);
    EndFrame(s, j, 9);
    EndFrame(s, j, 11);
  }

  lemma EndChanged(s: State, j: nat, w: Twelve)
    requires 1 <= j <= 12 && From(s, j, w)
    ensures var t, b := EndLine(s, j), Sum(w.w10, w.w0);
            && At(t, j + 10) == b && At(t, j + 1) == Xor(w.w1, b) && At(t, j + 12) == Rot64(w.w0, END_SHIFTS[j % 12])
  {
    hide At, EndLine, Sum, Xor, Rot64, END_SHIFTS;
    EndWords(s, j);
  }

  lemma EndLineFrom(s: State, j: nat, w: Twelve)
    requires 1 <= j <= 12 && From(s, j, w)
    ensures From(EndLine(s, j), j + 1, EndStep(w, END_SHIFTS[j % 12]))
  {
    EndKept(s, j, w);
    EndChanged(s, j, w);
    hide At, EndLine, Sum, Xor, Rot64, END_SHIFTS;
  }

  lemma {:induction false} EndLinesFrom(s: State, w: Twelve, n: nat)
    requires n <= 12 && From(s, 1, w)
    ensures From(EndLines(s, n), n + 1, EndSteps(w, n))
  {
    hide From, EndLine, EndStep, END_SHIFTS;
    if n > 0 {
      EndLinesFrom(s, w, n - 1);
      EndLineFrom(EndLines(s, n - 1), n, EndSteps(w, n - 1));
    }
  }

  lemma EndFrom(s: State, w: Twelve)
    requires From(s, 1, w)
    ensures From(EndPartial(s), 1, EndSteps(w, 12))
  {
    hide From, EndLines, EndSteps;
    EndLinesFrom(s, w, 12);
    Around(EndPartial(s), 1, EndSteps(w, 12));
  }

  /** The rotation of a line of Mix. */
  predicate MixTurn(n: nat, k: Turn) {
    n < 12 && MIX_SHIFTS[n] == k
  }

  predicate EndTurn(n: nat, k: Turn) {
    n <= 12 && END_SHIFTS[n % 12] == k
  }

  /** The rotations of common/SpookyV2.h:139-150. */
  lemma MixTurns()
    ensures MixTurn(0, 11) && MixTurn(1, 32) && MixTurn(2, 43) && MixTurn(3, 31) && MixTurn(4, 17) && MixTurn(5, 28)
    ensures MixTurn(6, 39) && MixTurn(7, 57) && MixTurn(8, 55) && MixTurn(9, 54) && MixTurn(10, 22) && MixTurn(11, 46)
  {
  }

  /** Those of common/SpookyV2.h:174-185. */
  lemma EndTurns()
    ensures EndTurn(1, 44) && EndTurn(2, 15) && EndTurn(3, 34) && EndTurn(4, 21) && EndTurn(5, 38) && EndTurn(6, 33)
    ensures EndTurn(7, 10) && EndTurn(8, 13) && EndTurn(9, 38) && EndTurn(10, 53) && EndTurn(11, 42) && EndTurn(12, 54)
  {
  }

  lemma NoSteps(w: Twelve, data: State)
    ensures MixSteps(w, data, 0) == w && EndSteps(w, 0) == w
  {
  }

  lemma NextMix(w: Twelve, data: State, n: nat, d: Word, k: Turn, a: Twelve)
    requires MixTurn(n, k) && At(data, n) == d && MixSteps(w, data, n) == a
    ensures MixSteps(w, data, n + 1) == MixStep(a, d, k)
  {
    hide MixStep, MIX_SHIFTS;
  }

  lemma NextEnd(w: Twelve, n: nat, k: Turn, a: Twelve)
    requires n < 12 && EndTurn(n + 1, k) && EndSteps(w, n) == a
    ensures EndSteps(w, n + 1) == EndStep(a, k)
  {
    hide EndStep, END_SHIFTS;
  }

  // ----- the messages -----

  /** A message of the words 0x0706050403020100, 0x0706050403020101 and so on. */
  function Counted(n: nat): (r: seq<Byte8>)
    requires n <= 2048
    ensures |r| == n
  {
    seq(n, i requires 0 <= i < n => if i % 8 == 0 then (i / 8) as Byte8 else (i % 8) as Byte8)
  }

  function CountedWord(k: nat): Word
    requires k < 256
  {
    Little64(Little32(k as Byte8, 1, 2, 3), Little32(4, 5, 6, 7))
  }

  lemma EightPlaces(k: nat)
    ensures 8 * k / 8 == k && 8 * k % 8 == 0 && (8 * k + 1) % 8 == 1 && (8 * k + 2) % 8 == 2 && (8 * k + 3) % 8 == 3
    ensures (8 * k + 4) % 8 == 4 && (8 * k + 5) % 8 == 5 && (8 * k + 6) % 8 == 6 && (8 * k + 7) % 8 == 7
  {
  }

  lemma FirstBytes(n: nat, k: nat)
    requires 8 * k + 4 <= n <= 2048
    ensures var m := Counted(n);
            m[8 * k] == k as Byte8 && m[8 * k + 1] == 1 && m[8 * k + 2] == 2 && m[8 * k + 3] == 3
  {
    EightPlaces(k);
  }

  lemma LastBytes(n: nat, k: nat)
    requires 8 * k + 8 <= n <= 2048
    ensures var m := Counted(n);
            m[8 * k + 4] == 4 && m[8 * k + 5] == 5 && m[8 * k + 6] == 6 && m[8 * k + 7] == 7
  {
    EightPlaces(k);
  }

  lemma WordIs(n: nat, k: nat)
    requires 8 * k + 8 <= n <= 2048
    ensures Word64(Counted(n), 8 * k) == CountedWord(k)
  {
    FirstBytes(n, k);
    LastBytes(n, k);
    hide Counted, Little32, Little64;
  }

  lemma SliceWord(m: seq<Byte8>, from: nat, to: nat, at: nat)
    requires from + at + 8 <= to <= |m|
    ensures Word64(m[from..to], at) == Word64(m, from + at)
  {
    hide Little32, Little64;
  }

  lemma CountedBlock(n: nat, k: nat, i: nat)
    requires 8 * k + 96 <= n <= 2048 && i < 12
    ensures At(Block(Counted(n)[8 * k..8 * k + 96]), i) == CountedWord(k + i)
  {
    hide Counted, CountedWord, Word64, At, Block;
    SliceWord(Counted(n), 8 * k, 8 * k + 96, 8 * i);
    WordIs(n, k + i);
    WordOfBlock(Counted(n)[8 * k..8 * k + 96], i);
  }

  lemma WordOfBlock(b: seq<Byte8>, i: nat)
    requires |b| == BLOCK_SIZE && i < 12
    ensures At(Block(b), i) == Word64(b, 8 * i)
  {
    hide Word64;
  }

  // ----- 200 bytes -----

  const START :=
    Twelve(0x0, 0x0, 0xdeadbeefdeadbeef, 0x0, 0x0, 0xdeadbeefdeadbeef, 0x0, 0x0, 0xdeadbeefdeadbeef, 0x0, 0x0,
           0xdeadbeefdeadbeef)

  const FIRST_BLOCK :=
    Twelve(0x706050403020100, 0x706050403020101, 0x706050403020102, 0x706050403020103, 0x706050403020104,
           0x706050403020105, 0x706050403020106, 0x706050403020107, 0x706050403020108, 0x706050403020109,
           0x70605040302010a, 0x70605040302010b)

  const AFTER_FIRST :=
    Twelve(0x99449cdb855be00d, 0xe09183fc48bfc8fd, 0xb32a33ce70662027, 0xba9c9a79fd5e566, 0xab13601510151cfa,
           0xf7991e2b110d32e4, 0x1c7e377189843169, 0x9e7ada8e980c3fb5, 0x8c9f78d074ec2025, 0x20ccfd228ce6b219,
           0xecf8e4c159c94077, 0x605953b5d99a5229)

  const SECOND_BLOCK :=
    Twelve(0x70605040302010c, 0x70605040302010d, 0x70605040302010e, 0x70605040302010f, 0x706050403020110,
           0x706050403020111, 0x706050403020112, 0x706050403020113, 0x706050403020114, 0x706050403020115,
           0x706050403020116, 0x706050403020117)

  const AFTER_SECOND :=
    Twelve(0xc92ec98e24337998, 0x47d634788c178d1a, 0xf2976438ad217ee1, 0x746c485779dad21d, 0x433c657461b884dc,
           0x93bec5e2a6a26b3d, 0xf257f84b28c96d21, 0x54bd5447cde3f0f4, 0xdb4285dfea4b1ec0, 0x9ff3e1a25c6e0cb3,
           0x61b1f13ce5a35a50, 0xa37c3ec789c95699)

  const LAST_BLOCK :=
    Twelve(0x706050403020118, 0x0, 0x0, 0x0, 0x0, 0x0, 0x0, 0x0, 0x0, 0x0, 0x0, 0x800000000000000)

  const FED :=
    Twelve(0x47d634788c178d1a, 0xf2976438ad217ee1, 0x746c485779dad21d, 0x433c657461b884dc, 0x93bec5e2a6a26b3d,
           0xf257f84b28c96d21, 0x54bd5447cde3f0f4, 0xdb4285dfea4b1ec0, 0x9ff3e1a25c6e0cb3, 0x61b1f13ce5a35a50,
           0xab7c3ec789c95699, 0xd034ce9227357ab0)

  const ENDED_ONCE :=
    Twelve(0xb3f33307277d4330, 0xe91794103776d71e, 0x13607a71282b7599, 0xd7249bf4c86dc41e, 0xf8c8d891afe2b18e,
           0x254e8ec00818b3c2, 0x21fc3b788d4a697f, 0x8bf792f99ed2f7a0, 0x9655be283a8deca8, 0xad9461dc2e0811d0,
           0xc8504de29786e62c, 0x2a91eb1608b95ebd)

  const ENDED_TWICE :=
    Twelve(0x7a10b2cd0917df91, 0x6219e282a37baa6d, 0x7eeddfadbeb305dd, 0x24c7dcb9af16a9c2, 0x2b82e0a7d6ab4580,
           0xdccde9cffc054fb, 0x8b38653e3850ac67, 0xd4f7cdf14c9cd1c5, 0xfc2261ffd9f125ca, 0xfaa93770e520444c,
           0x63e266a2d13463ce, 0x4d50f1187c12375e)

  const ENDED :=
    Twelve(0x410d2f8e8092acc3, 0x52ff538cecccbc11, 0xa962486109c0c432, 0x82cd9d69799b31db, 0xa3f45cb5a138688a,
           0x6304b2d83701e74a, 0x7708302f1d67b2a7, 0xffc9a5148f71e5cb, 0xde6b5ca31ef2708f, 0xb0c265c7d7b7591d,
           0xf69a5088eaf1ed54, 0x7f4d42c69baee14)

  lemma CountedFirstFirst(n: nat)
    requires 96 <= n <= 2048
    ensures FirstFrom(Block(Counted(n)[0..96]), 0, FIRST_BLOCK)
  {
    hide Counted, At, Block;
    CountedBlock(n, 0, 0);
    CountedBlock(n, 0, 1);
    CountedBlock(n, 0, 2);
    CountedBlock(n, 0, 3);
    CountedBlock(n, 0, 4);
    CountedBlock(n, 0, 5);
  }

  lemma CountedFirstLast(n: nat)
    requires 96 <= n <= 2048
    ensures LastFrom(Block(Counted(n)[0..96]), 0, FIRST_BLOCK)
  {
    hide Counted, At, Block;
    CountedBlock(n, 0, 6);
    CountedBlock(n, 0, 7);
    CountedBlock(n, 0, 8);
    CountedBlock(n, 0, 9);
    CountedBlock(n, 0, 10);
    CountedBlock(n, 0, 11);
  }

  lemma CountedFirst(n: nat)
    requires 96 <= n <= 2048
    ensures From(Block(Counted(n)[0..96]), 0, FIRST_BLOCK)
  {
    hide Counted, Block, FirstFrom, LastFrom;
    CountedFirstFirst(n);
    CountedFirstLast(n);
  }

  lemma CountedSecondFirst(n: nat)
    requires 192 <= n <= 2048
    ensures FirstFrom(Block(Counted(n)[96..192]), 0, SECOND_BLOCK)
  {
    hide Counted, At, Block;
    CountedBlock(n, 12, 0);
    CountedBlock(n, 12, 1);
    CountedBlock(n, 12, 2);
    CountedBlock(n, 12, 3);
    CountedBlock(n, 12, 4);
    CountedBlock(n, 12, 5);
  }

  lemma CountedSecondLast(n: nat)
    requires 192 <= n <= 2048
    ensures LastFrom(Block(Counted(n)[96..192]), 0, SECOND_BLOCK)
  {
    hide Counted, At, Block;
    CountedBlock(n, 12, 6);
    CountedBlock(n, 12, 7);
    CountedBlock(n, 12, 8);
    CountedBlock(n, 12, 9);
    CountedBlock(n, 12, 10);
    CountedBlock(n, 12, 11);
  }

  lemma CountedSecond(n: nat)
    requires 192 <= n <= 2048
    ensures From(Block(Counted(n)[96..192]), 0, SECOND_BLOCK)
  {
    hide Counted, Block, FirstFrom, LastFrom;
    CountedSecondFirst(n);
    CountedSecondLast(n);
  }

  lemma FirstMixed(data: State)
    requires From(data, 0, FIRST_BLOCK)
    ensures MixSteps(START, data, 12) == AFTER_FIRST
  {
    hide MixSteps, MixTurn, At;
    MixTurns();
    NoSteps(START, data);
    var a1 := MixStep(START, FIRST_BLOCK.w0, 11);
    NextMix(START, data, 0, FIRST_BLOCK.w0, 11, START);
    var a2 := MixStep(a1, FIRST_BLOCK.w1, 32);
    NextMix(START, data, 1, FIRST_BLOCK.w1, 32, a1);
    var a3 := MixStep(a2, FIRST_BLOCK.w2, 43);
    NextMix(START, data, 2, FIRST_BLOCK.w2, 43, a2);
    var a4 := MixStep(a3, FIRST_BLOCK.w3, 31);
    NextMix(START, data, 3, FIRST_BLOCK.w3, 31, a3);
    var a5 := MixStep(a4, FIRST_BLOCK.w4, 17);
    NextMix(START, data, 4, FIRST_BLOCK.w4, 17, a4);
    var a6 := MixStep(a5, FIRST_BLOCK.w5, 28);
    NextMix(START, data, 5, FIRST_BLOCK.w5, 28, a5);
    var a7 := MixStep(a6, FIRST_BLOCK.w6, 39);
    NextMix(START, data, 6, FIRST_BLOCK.w6, 39, a6);
    var a8 := MixStep(a7, FIRST_BLOCK.w7, 57);
    NextMix(START, data, 7, FIRST_BLOCK.w7, 57, a7);
    var a9 := MixStep(a8, FIRST_BLOCK.w8, 55);
    NextMix(START, data, 8, FIRST_BLOCK.w8, 55, a8);
    var a10 := MixStep(a9, FIRST_BLOCK.w9, 54);
    NextMix(START, data, 9, FIRST_BLOCK.w9, 54, a9);
    var a11 := MixStep(a10, FIRST_BLOCK.w10, 22);
    NextMix(START, data, 10, FIRST_BLOCK.w10, 22, a10);
    var a12 := MixStep(a11, FIRST_BLOCK.w11, 46);
    NextMix(START, data, 11, FIRST_BLOCK.w11, 46, a11);
  }

  lemma SecondMixed(data: State)
    requires From(data, 0, SECOND_BLOCK)
    ensures MixSteps(AFTER_FIRST, data, 12) == AFTER_SECOND
  {
    hide MixSteps, MixTurn, At;
    MixTurns();
    NoSteps(AFTER_FIRST, data);
    var a1 := MixStep(AFTER_FIRST, SECOND_BLOCK.w0, 11);
    NextMix(AFTER_FIRST, data, 0, SECOND_BLOCK.w0, 11, AFTER_FIRST);
    var a2 := MixStep(a1, SECOND_BLOCK.w1, 32);
    NextMix(AFTER_FIRST, data, 1, SECOND_BLOCK.w1, 32, a1);
    var a3 := MixStep(a2, SECOND_BLOCK.w2, 43);
    NextMix(AFTER_FIRST, data, 2, SECOND_BLOCK.w2, 43, a2);
    var a4 := MixStep(a3, SECOND_BLOCK.w3, 31);
    NextMix(AFTER_FIRST, data, 3, SECOND_BLOCK.w3, 31, a3);
    var a5 := MixStep(a4, SECOND_BLOCK.w4, 17);
    NextMix(AFTER_FIRST, data, 4, SECOND_BLOCK.w4, 17, a4);
    var a6 := MixStep(a5, SECOND_BLOCK.w5, 28);
    NextMix(AFTER_FIRST, data, 5, SECOND_BLOCK.w5, 28, a5);
    var a7 := MixStep(a6, SECOND_BLOCK.w6, 39);
    NextMix(AFTER_FIRST, data, 6, SECOND_BLOCK.w6, 39, a6);
    var a8 := MixStep(a7, SECOND_BLOCK.w7, 57);
    NextMix(AFTER_FIRST, data, 7, SECOND_BLOCK.w7, 57, a7);
    var a9 := MixStep(a8, SECOND_BLOCK.w8, 55);
    NextMix(AFTER_FIRST, data, 8, SECOND_BLOCK.w8, 55, a8);
    var a10 := MixStep(a9, SECOND_BLOCK.w9, 54);
    NextMix(AFTER_FIRST, data, 9, SECOND_BLOCK.w9, 54, a9);
    var a11 := MixStep(a10, SECOND_BLOCK.w10, 22);
    NextMix(AFTER_FIRST, data, 10, SECOND_BLOCK.w10, 22, a10);
    var a12 := MixStep(a11, SECOND_BLOCK.w11, 46);
    NextMix(AFTER_FIRST, data, 11, SECOND_BLOCK.w11, 46, a11);
  }

  lemma EndedOnce(data: State)
    ensures EndSteps(FED, 12) == ENDED_ONCE
  {
    hide EndSteps, EndTurn;
    EndTurns();
    NoSteps(FED, data);
    var a1 := EndStep(FED, 44);
    NextEnd(FED, 0, 44, FED);
    var a2 := EndStep(a1, 15);
    NextEnd(FED, 1, 15, a1);
    var a3 := EndStep(a2, 34);
    NextEnd(FED, 2, 34, a2);
    var a4 := EndStep(a3, 21);
    NextEnd(FED, 3, 21, a3);
    var a5 := EndStep(a4, 38);
    NextEnd(FED, 4, 38, a4);
    var a6 := EndStep(a5, 33);
    NextEnd(FED, 5, 33, a5);
    var a7 := EndStep(a6, 10);
    NextEnd(FED, 6, 10, a6);
    var a8 := EndStep(a7, 13);
    NextEnd(FED, 7, 13, a7);
    var a9 := EndStep(a8, 38);
    NextEnd(FED, 8, 38, a8);
    var a10 := EndStep(a9, 53);
    NextEnd(FED, 9, 53, a9);
    var a11 := EndStep(a10, 42);
    NextEnd(FED, 10, 42, a10);
    var a12 := EndStep(a11, 54);
    NextEnd(FED, 11, 54, a11);
  }

  lemma EndedTwice(data: State)
    ensures EndSteps(ENDED_ONCE, 12) == ENDED_TWICE
  {
    hide EndSteps, EndTurn;
    EndTurns();
    NoSteps(ENDED_ONCE, data);
    var a1 := EndStep(ENDED_ONCE, 44);
    NextEnd(ENDED_ONCE, 0, 44, ENDED_ONCE);
    var a2 := EndStep(a1, 15);
    NextEnd(ENDED_ONCE, 1, 15, a1);
    var a3 := EndStep(a2, 34);
    NextEnd(ENDED_ONCE, 2, 34, a2);
    var a4 := EndStep(a3, 21);
    NextEnd(ENDED_ONCE, 3, 21, a3);
    var a5 := EndStep(a4, 38);
    NextEnd(ENDED_ONCE, 4, 38, a4);
    var a6 := EndStep(a5, 33);
    NextEnd(ENDED_ONCE, 5, 33, a5);
    var a7 := EndStep(a6, 10);
    NextEnd(ENDED_ONCE, 6, 10, a6);
    var a8 := EndStep(a7, 13);
    NextEnd(ENDED_ONCE, 7, 13, a7);
    var a9 := EndStep(a8, 38);
    NextEnd(ENDED_ONCE, 8, 38, a8);
    var a10 := EndStep(a9, 53);
    NextEnd(ENDED_ONCE, 9, 53, a9);
    var a11 := EndStep(a10, 42);
    NextEnd(ENDED_ONCE, 10, 42, a10);
    var a12 := EndStep(a11, 54);
    NextEnd(ENDED_ONCE, 11, 54, a11);
  }

  lemma EndedThrice(data: State)
    ensures EndSteps(ENDED_TWICE, 12) == ENDED
  {
    hide EndSteps, EndTurn;
    EndTurns();
    NoSteps(ENDED_TWICE, data);
    var a1 := EndStep(ENDED_TWICE, 44);
    NextEnd(ENDED_TWICE, 0, 44, ENDED_TWICE);
    var a2 := EndStep(a1, 15);
    NextEnd(ENDED_TWICE, 1, 15, a1);
    var a3 := EndStep(a2, 34);
    NextEnd(ENDED_TWICE, 2, 34, a2);
    var a4 := EndStep(a3, 21);
    NextEnd(ENDED_TWICE, 3, 21, a3);
    var a5 := EndStep(a4, 38);
    NextEnd(ENDED_TWICE, 4, 38, a4);
    var a6 := EndStep(a5, 33);
    NextEnd(ENDED_TWICE, 5, 33, a5);
    var a7 := EndStep(a6, 10);
    NextEnd(ENDED_TWICE, 6, 10, a6);
    var a8 := EndStep(a7, 13);
    NextEnd(ENDED_TWICE, 7, 13, a7);
    var a9 := EndStep(a8, 38);
    NextEnd(ENDED_TWICE, 8, 38, a8);
    var a10 := EndStep(a9, 53);
    NextEnd(ENDED_TWICE, 9, 53, a9);
    var a11 := EndStep(a10, 42);
    NextEnd(ENDED_TWICE, 10, 42, a10);
    var a12 := EndStep(a11, 54);
    NextEnd(ENDED_TWICE, 11, 54, a11);
  }

  lemma LastCounted(n: nat)
    requires n == 200
    ensures From(Block(LastBlock(Counted(n)[192..])), 0, LAST_BLOCK)
  {
    var m := Counted(n)[192..];
    FirstBytes(n, 24);
    LastBytes(n, 24);
    var b := LastBlock(m);
    hide Counted;
    assert b[0] == 24 && b[1] == 1 && b[2] == 2 && b[3] == 3 && b[4] == 4 && b[5] == 5 && b[6] == 6 && b[7] == 7;
    assert forall i :: 8 <= i < 95 ==> b[i] == 0;
    assert b[95] == 8;
    hide LastBlock;
    LastWords(b);
  }

  lemma LastWords(b: seq<Byte8>)
    requires |b| == BLOCK_SIZE && b[..8] == [24, 1, 2, 3, 4, 5, 6, 7] && b[95] == 8
    requires forall i :: 8 <= i < 95 ==> b[i] == 0
    ensures From(Block(b), 0, LAST_BLOCK)
  {
  }

  lemma StartIs()
    ensures From(InitialState(0, 0), 0, START)
  {
    var s := InitialState(0, 0);
    assert s[0] == 0 && s[1] == 0 && s[2] == SC_CONST && s[3] == 0 && s[4] == 0 && s[5] == SC_CONST;
    assert s[6] == 0 && s[7] == 0 && s[8] == SC_CONST && s[9] == 0 && s[10] == 0 && s[11] == SC_CONST;
    hide InitialState;
  }

  /** What is added to one of twelve words. */
  lemma AddedAt(s: State, data: State, k: nat)
    ensures At(AddAll(s, data), k) == Sum(At(s, k), At(data, k))
  {
    hide Sum;
  }

  lemma FedIs(s: State, data: State)
    requires From(s, 0, AFTER_SECOND) && From(data, 0, LAST_BLOCK)
    ensures From(AddAll(s, data), 1, FED)
  {
    hide At, AddAll;
    AddedAt(s, data, 0);
    AddedAt(s, data, 1);
    AddedAt(s, data, 2);
    AddedAt(s, data, 3);
    AddedAt(s, data, 4);
    AddedAt(s, data, 5);
    AddedAt(s, data, 6);
    AddedAt(s, data, 7);
    AddedAt(s, data, 8);
    AddedAt(s, data, 9);
    AddedAt(s, data, 10);
    AddedAt(s, data, 11);
    OnceAround(s);
    OnceAround(AddAll(s, data));
  }

  lemma OnceAround(s: State)
    ensures At(s, 12) == At(s, 0)
  {
  }

  lemma EndedIs(s: State)
    requires From(s, 1, FED)
    ensures From(EndPartial(EndPartial(EndPartial(s))), 1, ENDED)
  {
    hide From, EndPartial, EndSteps;
    EndFrom(s, FED);
    EndedOnce(s);
    EndFrom(EndPartial(s), ENDED_ONCE);
    EndedTwice(s);
    EndFrom(EndPartial(EndPartial(s)), ENDED_TWICE);
    EndedThrice(s);
  }

  lemma MixedIs(one: State, two: State, s: State)
    requires From(one, 0, FIRST_BLOCK) && From(two, 0, SECOND_BLOCK) && From(s, 0, START)
    ensures From(Mix(two, Mix(one, s)), 0, AFTER_SECOND)
  {
    hide From, Mix, MixSteps;
    MixFrom(one, s, START);
    FirstMixed(one);
    MixFrom(two, Mix(one, s), AFTER_FIRST);
    SecondMixed(two);
  }

  lemma OneBlockMixed(s: State, m: seq<Byte8>)
    requires |m| >= 96 && |m| % 96 == 0
    ensures MixBlocks(s, m) == MixBlocks(Mix(Block(m[..96]), s), m[96..])
  {
    hide Mix, Block;
  }

  lemma TwoBlocksMixed(s: State, m: seq<Byte8>)
    requires |m| == 192
    ensures MixBlocks(s, m) == Mix(Block(m[96..192]), Mix(Block(m[0..96]), s))
  {
    OneBlockMixed(s, m);
    OneBlockMixed(Mix(Block(m[..96]), s), m[96..]);
    assert m[..96] == m[0..96] && m[96..][..96] == m[96..192] && m[96..][96..] == [];
    hide Mix, Block;
  }

  /** The state in which a message of two blocks and a bit ends. */
  lemma LongIs(m: seq<Byte8>, seed1: Word, seed2: Word)
    requires |m| == 200
    ensures var h := Mix(Block(m[96..192]), Mix(Block(m[0..96]), InitialState(seed1, seed2)));
            var e := EndPartial(EndPartial(EndPartial(AddAll(h, Block(LastBlock(m[192..]))))));
            Hash128(m, seed1, seed2) == Hash(e[0], e[1])
  {
    hide Mix, EndPartial, AddAll, Block, LastBlock, InitialState, MixBlocks;
    assert m[..192][0..96] == m[0..96] && m[..192][96..192] == m[96..192];
    TwoBlocksMixed(InitialState(seed1, seed2), m[..192]);
  }

  /** The hash of 200 bytes, which is that of two blocks and eight bytes. */
  lemma KnownLong()
    ensures Hash128(Counted(200), 0, 0) == Hash(0x7f4d42c69baee14, 0x410d2f8e8092acc3)
  {
    hide Counted, Hash128, From, Mix, EndPartial, AddAll, Block, LastBlock, InitialState;
    hide START, FIRST_BLOCK, SECOND_BLOCK, AFTER_SECOND, LAST_BLOCK, FED, ENDED;
    var m := Counted(200);
    LongIs(m, 0, 0);
    StartIs();
    CountedFirst(200);
    CountedSecond(200);
    LastCounted(200);
    var s, one, two, last := InitialState(0, 0), Block(m[0..96]), Block(m[96..192]), Block(LastBlock(m[192..]));
    MixedIs(one, two, s);
    FedIs(Mix(two, Mix(one, s)), last);
    EndedIs(AddAll(Mix(two, Mix(one, s)), last));
    FirstTwo(EndPartial(EndPartial(EndPartial(AddAll(Mix(two, Mix(one, s)), last)))));
  }

  lemma FirstTwo(s: State)
    requires From(s, 1, ENDED)
    ensures s[0] == 0x7f4d42c69baee14 && s[1] == 0x410d2f8e8092acc3
  {
    OnceAround(s);
    assert At(s, 12) == ENDED.w11 && At(s, 1) == ENDED.w0;
  }

  // ----- four words, seen from one of them -----

  datatype Quad = Quad(w0: Word, w1: Word, w2: Word, w3: Word)

  function At4(s: Four, k: nat): Word {
    s[k % 4]
  }

  predicate From4(s: Four, i: nat, w: Quad) {
    At4(s, i) == w.w0 && At4(s, i + 1) == w.w1 && At4(s, i + 2) == w.w2 && At4(s, i + 3) == w.w3
  }

  lemma Around4(s: Four, i: nat, w: Quad)
    requires i >= 4
    ensures From4(s, i, w) <==> From4(s, i - 4, w)
  {
  }

  function ShortMixStep(w: Quad, k: Turn): Quad
  {
    var a := Sum(Rot64(w.w0, k), w.w1);
    Quad(w.w1, Xor(w.w2, a), w.w3, a)
  }

  function ShortMixSteps(w: Quad, n: nat): Quad
    requires n <= 12
  {
    if n == 0 then w else ShortMixStep(ShortMixSteps(w, n - 1), SHORT_MIX_SHIFTS[n - 1])
  }

  lemma ShortMixFrame(s: Four, r: nat)
    requires r < 12
    ensures var t := ShortMixLine(s, r); At4(t, r + 3) == At4(s, r + 3) && At4(t, r + 5) == At4(s, r + 5)
  {
    hide Sum, Xor, Rot64, SHORT_MIX_SHIFTS;
  }

  lemma ShortMixWords(s: Four, r: nat)
    requires r < 12
    ensures var t, a := ShortMixLine(s, r), Sum(Rot64(At4(s, r + 2), SHORT_MIX_SHIFTS[r]), At4(s, r + 3));
            At4(t, r + 6) == a && At4(t, r + 4) == Xor(At4(s, r + 4), a)
  {
    hide Sum, Xor, Rot64, SHORT_MIX_SHIFTS;
  }

  lemma ShortMixLineFrom(s: Four, r: nat, w: Quad)
    requires r < 12 && From4(s, r + 2, w)
    ensures From4(ShortMixLine(s, r), r + 3, ShortMixStep(w, SHORT_MIX_SHIFTS[r]))
  {
    ShortMixWords(s, r);
    ShortMixFrame(s, r);
    hide At4, ShortMixLine, Sum, Xor, Rot64, SHORT_MIX_SHIFTS;
  }

  lemma {:induction false} ShortMixLinesFrom(s: Four, w: Quad, n: nat)
    requires n <= 12 && From4(s, 2, w)
    ensures From4(ShortMixLines(s, n), n + 2, ShortMixSteps(w, n))
  {
    hide From4, ShortMixLine, ShortMixStep, SHORT_MIX_SHIFTS;
    if n > 0 {
      ShortMixLinesFrom(s, w, n - 1);
      ShortMixLineFrom(ShortMixLines(s, n - 1), n - 1, ShortMixSteps(w, n - 1));
    }
  }

  function ShortEndStep(w: Quad, k: Turn): Quad
  {
    var x := Rot64(w.w0, k);
    Quad(Sum(Xor(w.w1, w.w0), x), w.w2, w.w3, x)
  }

  function ShortEndSteps(w: Quad, n: nat): Quad
    requires n <= 11
  {
    if n == 0 then w else ShortEndStep(ShortEndSteps(w, n - 1), SHORT_END_SHIFTS[n - 1])
  }

  lemma ShortEndFrame(s: Four, r: nat)
    requires r < 11
    ensures var t := ShortEndLine(s, r); At4(t, r + 4) == At4(s, r + 4) && At4(t, r + 5) == At4(s, r + 5)
  {
    hide Sum, Xor, Rot64, SHORT_END_SHIFTS;
  }

  lemma ShortEndWords(s: Four, r: nat)
    requires r < 11
    ensures var t, x := ShortEndLine(s, r), Rot64(At4(s, r + 2), SHORT_END_SHIFTS[r]);
            At4(t, r + 6) == x && At4(t, r + 3) == Sum(Xor(At4(s, r + 3), At4(s, r + 2)), x)
  {
    hide Sum, Xor, Rot64, SHORT_END_SHIFTS;
  }

  lemma ShortEndLineFrom(s: Four, r: nat, w: Quad)
    requires r < 11 && From4(s, r + 2, w)
    ensures From4(ShortEndLine(s, r), r + 3, ShortEndStep(w, SHORT_END_SHIFTS[r]))
  {
    ShortEndWords(s, r);
    ShortEndFrame(s, r);
    hide At4, ShortEndLine, Sum, Xor, Rot64, SHORT_END_SHIFTS;
  }

  lemma {:induction false} ShortEndLinesFrom(s: Four, w: Quad, n: nat)
    requires n <= 11 && From4(s, 2, w)
    ensures From4(ShortEndLines(s, n), n + 2, ShortEndSteps(w, n))
  {
    hide From4, ShortEndLine, ShortEndStep, SHORT_END_SHIFTS;
    if n > 0 {
      ShortEndLinesFrom(s, w, n - 1);
      ShortEndLineFrom(ShortEndLines(s, n - 1), n - 1, ShortEndSteps(w, n - 1));
    }
  }

  predicate ShortMixTurn(n: nat, k: Turn) {
    n < 12 && SHORT_MIX_SHIFTS[n] == k
  }

  predicate ShortEndTurn(n: nat, k: Turn) {
    n < 11 && SHORT_END_SHIFTS[n] == k
  }

  /** The rotations of common/SpookyV2.h:222-233. */
  lemma ShortMixTurns()
    ensures ShortMixTurn(0, 50) && ShortMixTurn(1, 52) && ShortMixTurn(2, 30) && ShortMixTurn(3, 41)
    ensures ShortMixTurn(4, 54) && ShortMixTurn(5, 48) && ShortMixTurn(6, 38) && ShortMixTurn(7, 37)
    ensures ShortMixTurn(8, 62) && ShortMixTurn(9, 34) && ShortMixTurn(10, 5) && ShortMixTurn(11, 36)
  {
  }

  /** Those of common/SpookyV2.h:250-260. */
  lemma ShortEndTurns()
    ensures ShortEndTurn(0, 15) && ShortEndTurn(1, 52) && ShortEndTurn(2, 26) && ShortEndTurn(3, 51)
    ensures ShortEndTurn(4, 28) && ShortEndTurn(5, 9) && ShortEndTurn(6, 47) && ShortEndTurn(7, 54)
    ensures ShortEndTurn(8, 32) && ShortEndTurn(9, 25) && ShortEndTurn(10, 63)
  {
  }

  lemma NoShortSteps(w: Quad)
    ensures ShortMixSteps(w, 0) == w && ShortEndSteps(w, 0) == w
  {
  }

  lemma NextShortMix(w: Quad, n: nat, k: Turn, a: Quad)
    requires ShortMixTurn(n, k) && ShortMixSteps(w, n) == a
    ensures ShortMixSteps(w, n + 1) == ShortMixStep(a, k)
  {
    hide ShortMixStep, SHORT_MIX_SHIFTS;
  }

  lemma NextShortEnd(w: Quad, n: nat, k: Turn, a: Quad)
    requires ShortEndTurn(n, k) && ShortEndSteps(w, n) == a
    ensures ShortEndSteps(w, n + 1) == ShortEndStep(a, k)
  {
    hide ShortEndStep, SHORT_END_SHIFTS;
  }

  // ----- 47 bytes -----

  const SHORT_FED := Quad(0xe5b3c3f3e1afbfef, 0xe5b3c3f3e1afbff0, 0x0, 0x0)

  const SHORT_MIXED := Quad(0x5311c08d1350539, 0x14b7780ecded2892, 0xbab5890186c839cf, 0xf550d208332a9199)

  const SHORT_TAILED := Quad(0xc37210cd437063d, 0x43bd7d12d0ef2997, 0xc1bb8e0589ca3ad1, 0xfc56d70c362c929c)

  const SHORT_ENDED := Quad(0xf03328d6136a170d, 0x2a988c03f561d974, 0xe733544aa6a32db7, 0x211d6f4f93c83449)

  lemma ShortMixed()
    ensures ShortMixSteps(SHORT_FED, 12) == SHORT_MIXED
  {
    hide ShortMixSteps, ShortMixTurn;
    ShortMixTurns();
    NoShortSteps(SHORT_FED);
    var a1 := ShortMixStep(SHORT_FED, 50);
    NextShortMix(SHORT_FED, 0, 50, SHORT_FED);
    var a2 := ShortMixStep(a1, 52);
    NextShortMix(SHORT_FED, 1, 52, a1);
    var a3 := ShortMixStep(a2, 30);
    NextShortMix(SHORT_FED, 2, 30, a2);
    var a4 := ShortMixStep(a3, 41);
    NextShortMix(SHORT_FED, 3, 41, a3);
    var a5 := ShortMixStep(a4, 54);
    NextShortMix(SHORT_FED, 4, 54, a4);
    var a6 := ShortMixStep(a5, 48);
    NextShortMix(SHORT_FED, 5, 48, a5);
    var a7 := ShortMixStep(a6, 38);
    NextShortMix(SHORT_FED, 6, 38, a6);
    var a8 := ShortMixStep(a7, 37);
    NextShortMix(SHORT_FED, 7, 37, a7);
    var a9 := ShortMixStep(a8, 62);
    NextShortMix(SHORT_FED, 8, 62, a8);
    var a10 := ShortMixStep(a9, 34);
    NextShortMix(SHORT_FED, 9, 34, a9);
    var a11 := ShortMixStep(a10, 5);
    NextShortMix(SHORT_FED, 10, 5, a10);
    var a12 := ShortMixStep(a11, 36);
    NextShortMix(SHORT_FED, 11, 36, a11);
  }

  lemma ShortEnded()
    ensures ShortEndSteps(SHORT_TAILED, 11) == SHORT_ENDED
  {
    hide ShortEndSteps, ShortEndTurn;
    ShortEndTurns();
    NoShortSteps(SHORT_TAILED);
    var a1 := ShortEndStep(SHORT_TAILED, 15);
    NextShortEnd(SHORT_TAILED, 0, 15, SHORT_TAILED);
    var a2 := ShortEndStep(a1, 52);
    NextShortEnd(SHORT_TAILED, 1, 52, a1);
    var a3 := ShortEndStep(a2, 26);
    NextShortEnd(SHORT_TAILED, 2, 26, a2);
    var a4 := ShortEndStep(a3, 51);
    NextShortEnd(SHORT_TAILED, 3, 51, a3);
    var a5 := ShortEndStep(a4, 28);
    NextShortEnd(SHORT_TAILED, 4, 28, a4);
    var a6 := ShortEndStep(a5, 9);
    NextShortEnd(SHORT_TAILED, 5, 9, a5);
    var a7 := ShortEndStep(a6, 47);
    NextShortEnd(SHORT_TAILED, 6, 47, a6);
    var a8 := ShortEndStep(a7, 54);
    NextShortEnd(SHORT_TAILED, 7, 54, a7);
    var a9 := ShortEndStep(a8, 32);
    NextShortEnd(SHORT_TAILED, 8, 32, a8);
    var a10 := ShortEndStep(a9, 25);
    NextShortEnd(SHORT_TAILED, 9, 25, a9);
    var a11 := ShortEndStep(a10, 63);
    NextShortEnd(SHORT_TAILED, 10, 63, a10);
  }

  lemma ShortMixIs(s: Four)
    requires From4(s, 2, SHORT_FED)
    ensures From4(ShortMix(s), 2, SHORT_MIXED)
  {
    hide From4, ShortMixLines, ShortMixSteps;
    ShortMixLinesFrom(s, SHORT_FED, 12);
    ShortMixed();
    Around4(ShortMix(s), 14, SHORT_MIXED);
    Around4(ShortMix(s), 10, SHORT_MIXED);
    Around4(ShortMix(s), 6, SHORT_MIXED);
  }

  lemma ShortEndIs(s: Four)
    requires From4(s, 2, SHORT_TAILED)
    ensures From4(ShortEnd(s), 1, SHORT_ENDED)
  {
    hide From4, ShortEndLines, ShortEndSteps;
    ShortEndLinesFrom(s, SHORT_TAILED, 11);
    ShortEnded();
    Around4(ShortEnd(s), 13, SHORT_ENDED);
    Around4(ShortEnd(s), 9, SHORT_ENDED);
    Around4(ShortEnd(s), 5, SHORT_ENDED);
  }

  /** The words that a whole block feeds. */
  lemma ShortFed()
    ensures From4(Fed(Fed([0, 0, SC_CONST, SC_CONST], 2, CountedWord(0)), 3, CountedWord(1)), 2, SHORT_FED)
  {
  }

  lemma WholeBlockIs(m: seq<Byte8>)
    requires m == Counted(47)
    ensures var t := WholeBlock([0, 0, SC_CONST, SC_CONST], m);
            && t[0] == 0xc1bb8e0589ca3ad1 && t[1] == 0xfc56d70c362c929c
            && t[2] == 0x5311c08d1350539 && t[3] == 0x14b7780ecded2892
  {
    hide Counted, Word64, ShortMix, From4;
    var s: Four := [0, 0, SC_CONST, SC_CONST];
    WordIs(47, 0);
    WordIs(47, 1);
    WordIs(47, 2);
    WordIs(47, 3);
    ShortFed();
    ShortMixIs(Fed(Fed(s, 2, CountedWord(0)), 3, CountedWord(1)));
    BlockFed(HalfBlock(s, m));
  }

  lemma BlockFed(h: Four)
    requires From4(h, 2, SHORT_MIXED)
    ensures var t := Fed(Fed(h, 0, CountedWord(2)), 1, CountedWord(3));
            && t[0] == 0xc1bb8e0589ca3ad1 && t[1] == 0xfc56d70c362c929c
            && t[2] == 0x5311c08d1350539 && t[3] == 0x14b7780ecded2892
  {
  }

  lemma TailIs(t: Four, tail: seq<Byte8>)
    requires |tail| == 15 && Word64(tail, 0) == CountedWord(4) && Word32(tail, 8) == Little32(5, 1, 2, 3)
    requires tail[12] == 4 && tail[13] == 5 && tail[14] == 6
    ensures var r := ShortTail(t, tail, 47); var d := Sum(t[3], 0x2f00000000000000);
            && r[0] == t[0] && r[1] == t[1] && r[2] == Sum(t[2], CountedWord(4))
            && r[3] == Sum(HighBytes(d, 3, 4, 5, 6), Little32(5, 1, 2, 3))
  {
    assert (47 as Word) << 56 == 0x2f00000000000000;
    hide Sum, HighBytes, LowBytes, Word32, Word64, Little32, CountedWord;
  }

  lemma TailAdded(r: Four)
    requires r[0] == 0xc1bb8e0589ca3ad1 && r[1] == 0xfc56d70c362c929c
    requires r[2] == Sum(0x5311c08d1350539, CountedWord(4))
    requires r[3] == Sum(HighBytes(Sum(0x14b7780ecded2892, 0x2f00000000000000), 3, 4, 5, 6), Little32(5, 1, 2, 3))
    ensures From4(r, 2, SHORT_TAILED)
  {
  }

  lemma TailCounted(tail: seq<Byte8>)
    requires tail == Counted(47)[32..]
    ensures Word64(tail, 0) == CountedWord(4) && Word32(tail, 8) == Little32(5, 1, 2, 3)
    ensures tail[12] == 4 && tail[13] == 5 && tail[14] == 6
  {
    var m := Counted(47);
    WordIs(47, 4);
    FirstBytes(47, 5);
    EightPlaces(5);
    assert m[44] == 4 && m[45] == 5 && m[46] == 6;
    hide Counted, CountedWord, Little32;
    assert m[32..][0..15] == m[32..47] == tail;
    SliceWord(m, 32, 47, 0);
    hide Word64;
    assert tail[8] == m[40] && tail[9] == m[41] && tail[10] == m[42] && tail[11] == m[43];
    assert tail[12] == m[44] && tail[13] == m[45] && tail[14] == m[46];
  }

  /** The hash of 47 bytes, which is that of a whole block and a tail of fifteen. */
  lemma KnownShort()
    ensures Hash128(Counted(47), 0, 0) == Hash(0x211d6f4f93c83449, 0xf03328d6136a170d)
  {
    hide Counted, WholeBlock, ShortTail, ShortEnd, Word64, Word32, Little32, CountedWord, HighBytes, From4, Sum;
    var m, start: Four := Counted(47), [0, 0, SC_CONST, SC_CONST];
    WholeBlockIs(m);
    ShortIs(m, 0, 0);
    TailCounted(m[32..]);
    var t := WholeBlock(start, m);
    TailIs(t, m[32..]);
    TailAdded(ShortTail(t, m[32..], 47));
    ShortEndIs(ShortTail(t, m[32..], 47));
    EndedShort(ShortEnd(ShortTail(t, m[32..], 47)));
  }

  lemma ShortIs(m: seq<Byte8>, seed1: Word, seed2: Word)
    requires |m| == 47
    ensures var e := ShortEnd(ShortTail(WholeBlock([seed1, seed2, SC_CONST, SC_CONST], m), m[32..], 47));
            Hash128(m, seed1, seed2) == Hash(e[0], e[1])
  {
    hide WholeBlock, ShortTail, ShortEnd, HalfBlock;
    var start: Four := [seed1, seed2, SC_CONST, SC_CONST];
    assert ShortBlocks(start, m) == ShortBlocks(WholeBlock(start, m), m[32..]) == WholeBlock(start, m);
  }

  lemma EndedShort(e: Four)
    requires From4(e, 1, SHORT_ENDED)
    ensures e[0] == 0x211d6f4f93c83449 && e[1] == 0xf03328d6136a170d
  {
    assert At4(e, 4) == e[0] && At4(e, 1) == e[1];
  }
}
