/** What the mixing of SpookyHash V2 keeps: every line can be undone, so that states that differ
    stay apart, and a data word that differs makes them differ. */
module SpookyMixing {
  import opened Spooky

  // ----- words -----

  function Difference(x: Word, y: Word): Word {
    x - y
  }

  lemma PlusBack(x: Word, w: Word)
    ensures Difference(x + w, w) == x && Difference(w + x, w) == x
  {
  }

  lemma SumIs(x: Word, w: Word)
    ensures Sum(x, w) == x + w
  {
  }

  lemma SumBack(x: Word, w: Word)
    ensures Difference(Sum(x, w), w) == x && Difference(Sum(w, x), w) == x
  {
    hide Sum, Difference;
    PlusBack(x, w);
    SumIs(x, w);
    SumIs(w, x);
  }

  lemma SumApart(x: Word, y: Word, w: Word)
    requires x != y
    ensures Sum(x, w) != Sum(y, w) && Sum(w, x) != Sum(w, y)
  {
    hide Sum, Difference;
    SumBack(x, w);
    SumBack(y, w);
  }

  lemma PlusRegrouped(x: Word, p: Word, q: Word)
    ensures Sum(x + p, q) == Sum(x, p + q) && Sum(0, p) == p
  {
  }

  lemma SumAssoc(x: Word, p: Word, q: Word)
    ensures Sum(Sum(x, p), q) == Sum(x, Sum(p, q)) && Sum(0, p) == p
  {
    hide Sum;
    SumIs(x, p);
    SumIs(p, q);
    PlusRegrouped(x, p, q);
  }

  lemma XorApart(x: Word, y: Word, w: Word)
    requires x != y
    ensures Xor(x, w) != Xor(y, w)
  {
    XorBack(x, w);
    XorBack(y, w);
    hide Xor;
  }

  lemma XorBack(x: Word, w: Word)
    ensures Xor(Xor(x, w), w) == x
  {
  }

  lemma Turn5(x: Word) ensures Rot64(Rot64(x, 5), 59) == x {}
  lemma Turn9(x: Word) ensures Rot64(Rot64(x, 9), 55) == x {}
  lemma Turn10(x: Word) ensures Rot64(Rot64(x, 10), 54) == x {}
  lemma Turn11(x: Word) ensures Rot64(Rot64(x, 11), 53) == x {}
  lemma Turn13(x: Word) ensures Rot64(Rot64(x, 13), 51) == x {}
  lemma Turn15(x: Word) ensures Rot64(Rot64(x, 15), 49) == x {}
  lemma Turn17(x: Word) ensures Rot64(Rot64(x, 17), 47) == x {}
  lemma Turn21(x: Word) ensures Rot64(Rot64(x, 21), 43) == x {}
  lemma Turn22(x: Word) ensures Rot64(Rot64(x, 22), 42) == x {}
  lemma Turn25(x: Word) ensures Rot64(Rot64(x, 25), 39) == x {}
  lemma Turn26(x: Word) ensures Rot64(Rot64(x, 26), 38) == x {}
  lemma Turn28(x: Word) ensures Rot64(Rot64(x, 28), 36) == x {}
  lemma Turn30(x: Word) ensures Rot64(Rot64(x, 30), 34) == x {}
  lemma Turn31(x: Word) ensures Rot64(Rot64(x, 31), 33) == x {}
  lemma Turn32(x: Word) ensures Rot64(Rot64(x, 32), 32) == x {}
  lemma Turn33(x: Word) ensures Rot64(Rot64(x, 33), 31) == x {}
  lemma Turn34(x: Word) ensures Rot64(Rot64(x, 34), 30) == x {}
  lemma Turn36(x: Word) ensures Rot64(Rot64(x, 36), 28) == x {}
  lemma Turn37(x: Word) ensures Rot64(Rot64(x, 37), 27) == x {}
  lemma Turn38(x: Word) ensures Rot64(Rot64(x, 38), 26) == x {}
  lemma Turn39(x: Word) ensures Rot64(Rot64(x, 39), 25) == x {}
  lemma Turn41(x: Word) ensures Rot64(Rot64(x, 41), 23) == x {}
  lemma Turn42(x: Word) ensures Rot64(Rot64(x, 42), 22) == x {}
  lemma Turn43(x: Word) ensures Rot64(Rot64(x, 43), 21) == x {}
  lemma Turn44(x: Word) ensures Rot64(Rot64(x, 44), 20) == x {}
  lemma Turn46(x: Word) ensures Rot64(Rot64(x, 46), 18) == x {}
  lemma Turn47(x: Word) ensures Rot64(Rot64(x, 47), 17) == x {}
  lemma Turn48(x: Word) ensures Rot64(Rot64(x, 48), 16) == x {}
  lemma Turn50(x: Word) ensures Rot64(Rot64(x, 50), 14) == x {}
  lemma Turn51(x: Word) ensures Rot64(Rot64(x, 51), 13) == x {}
  lemma Turn52(x: Word) ensures Rot64(Rot64(x, 52), 12) == x {}
  lemma Turn53(x: Word) ensures Rot64(Rot64(x, 53), 11) == x {}
  lemma Turn54(x: Word) ensures Rot64(Rot64(x, 54), 10) == x {}
  lemma Turn55(x: Word) ensures Rot64(Rot64(x, 55), 9) == x {}
  lemma Turn57(x: Word) ensures Rot64(Rot64(x, 57), 7) == x {}
  lemma Turn62(x: Word) ensures Rot64(Rot64(x, 62), 2) == x {}
  lemma Turn63(x: Word) ensures Rot64(Rot64(x, 63), 1) == x {}

  /** Each rotation of the hash is undone by the rest of a full turn. */
  lemma TurnBack(x: Word, k: Turn)
    requires k in ROTATIONS
    ensures Rot64(Rot64(x, k), 64 - k) == x
  {
    hide Rot64;
    match k {
      case 5 => Turn5(x);
      case 9 => Turn9(x);
      case 10 => Turn10(x);
      case 11 => Turn11(x);
      case 13 => Turn13(x);
      case 15 => Turn15(x);
      case 17 => Turn17(x);
      case 21 => Turn21(x);
      case 22 => Turn22(x);
      case 25 => Turn25(x);
      case 26 => Turn26(x);
      case 28 => Turn28(x);
      case 30 => Turn30(x);
      case 31 => Turn31(x);
      case 32 => Turn32(x);
      case 33 => Turn33(x);
      case 34 => Turn34(x);
      case 36 => Turn36(x);
      case 37 => Turn37(x);
      case 38 => Turn38(x);
      case 39 => Turn39(x);
      case 41 => Turn41(x);
      case 42 => Turn42(x);
      case 43 => Turn43(x);
      case 44 => Turn44(x);
      case 46 => Turn46(x);
      case 47 => Turn47(x);
      case 48 => Turn48(x);
      case 50 => Turn50(x);
      case 51 => Turn51(x);
      case 52 => Turn52(x);
      case 53 => Turn53(x);
      case 54 => Turn54(x);
      case 55 => Turn55(x);
      case 57 => Turn57(x);
      case 62 => Turn62(x);
      case 63 => Turn63(x);
      case _ =>
    }
  }

  const ROTATIONS: set<Turn> :=
    {5, 9, 10, 11, 13, 15, 17, 21, 22, 25, 26, 28, 30, 31, 32, 33, 34, 36, 37, 38,
     39, 41, 42, 43, 44, 46, 47, 48, 50, 51, 52, 53, 54, 55, 57, 62, 63}

  lemma TurnApart(x: Word, y: Word, k: Turn)
    requires k in ROTATIONS && x != y
    ensures Rot64(x, k) != Rot64(y, k)
  {
    TurnBack(x, k);
    TurnBack(y, k);
    hide Rot64;
  }

  lemma ShiftsAreRotations()
    ensures forall i :: 0 <= i < 12 ==> MIX_SHIFTS[i] in ROTATIONS && END_SHIFTS[i] in ROTATIONS
    ensures forall i :: 0 <= i < 12 ==> SHORT_MIX_SHIFTS[i] in ROTATIONS
    ensures forall i :: 0 <= i < 11 ==> SHORT_END_SHIFTS[i] in ROTATIONS
  {
  }

  // ----- steps -----

  /** States that differ stay apart when one word of both is set, if they differ elsewhere or the
      words that are set differ. */
  lemma SetApart(s: seq<Word>, t: seq<Word>, i: nat, x: Word, y: Word)
    requires |s| == |t| && i < |s| && s != t
    requires (forall k :: 0 <= k < |s| && k != i ==> s[k] == t[k]) ==> x != y
    ensures s[i := x] != t[i := y]
  {
    if k :| 0 <= k < |s| && k != i && s[k] != t[k] {
      assert s[i := x][k] != t[i := y][k];
    } else {
      assert s[i := x][i] != t[i := y][i];
    }
  }

  lemma FedApart(s: seq<Word>, t: seq<Word>, i: nat, w: Word)
    requires |s| == |t| && i < |s| && s != t
    ensures Fed(s, i, w) != Fed(t, i, w)
  {
    if s[i] != t[i] {
      SumApart(s[i], t[i], w);
    }
    hide Sum;
    SetApart(s, t, i, Sum(s[i], w), Sum(t[i], w));
  }

  lemma FedOther(s: seq<Word>, i: nat, w: Word, v: Word)
    requires i < |s| && w != v
    ensures Fed(s, i, w) != Fed(s, i, v)
  {
    SumApart(w, v, s[i]);
    hide Sum;
    assert Fed(s, i, w)[i] != Fed(s, i, v)[i];
  }

  lemma AddedApart(s: seq<Word>, t: seq<Word>, i: nat, j: nat)
    requires |s| == |t| && i < |s| && j < |s| && i != j && s != t
    ensures Added(s, i, j) != Added(t, i, j)
  {
    if s[i] != t[i] {
      SumApart(s[i], t[i], s[j]);
    }
    hide Sum;
    SetApart(s, t, i, Sum(s[i], s[j]), Sum(t[i], t[j]));
  }

  lemma XoredApart(s: seq<Word>, t: seq<Word>, i: nat, j: nat)
    requires |s| == |t| && i < |s| && j < |s| && i != j && s != t
    ensures Xored(s, i, j) != Xored(t, i, j)
  {
    if s[i] != t[i] {
      XorApart(s[i], t[i], s[j]);
    }
    hide Xor;
    SetApart(s, t, i, Xor(s[i], s[j]), Xor(t[i], t[j]));
  }

  lemma TurnedApart(s: seq<Word>, t: seq<Word>, i: nat, k: Turn)
    requires |s| == |t| && i < |s| && k in ROTATIONS && s != t
    ensures Turned(s, i, k) != Turned(t, i, k)
  {
    hide ROTATIONS;
    TurnBack(s[i], k);
    if s[i] != t[i] {
      TurnApart(s[i], t[i], k);
    }
    hide Rot64;
    SetApart(s, t, i, Rot64(s[i], k), Rot64(t[i], k));
  }

  // ----- lines -----

  lemma MixLineApart(data: State, s: State, t: State, i: nat)
    requires i < 12 && s != t
    ensures MixLine(data, s, i) != MixLine(data, t, i)
  {
    FedApart(s, t, i, data[i]);
    RestApart(Fed(s, i, data[i]), Fed(t, i, data[i]), i);
    hide Fed, Xored, Turned, Added;
  }

  /** What a line of Mix does once it has its data. */
  lemma RestApart(s: State, t: State, i: nat)
    requires i < 12 && s != t
    ensures var p, q := (i + 2) % 12, (i + 11) % 12;
            Added(Turned(Xored(Xored(s, p, (i + 10) % 12), q, i), i, MIX_SHIFTS[i]), q, (i + 1) % 12) !=
            Added(Turned(Xored(Xored(t, p, (i + 10) % 12), q, i), i, MIX_SHIFTS[i]), q, (i + 1) % 12)
  {
    ShiftsAreRotations();
    hide Xored, Turned, Added, ROTATIONS;
    var p, q, r, u := (i + 2) % 12, (i + 11) % 12, (i + 10) % 12, (i + 1) % 12;
    XoredApart(s, t, p, r);
    XoredApart(Xored(s, p, r), Xored(t, p, r), q, i);
    var c, d := Xored(Xored(s, p, r), q, i), Xored(Xored(t, p, r), q, i);
    TurnedApart(c, d, i, MIX_SHIFTS[i]);
    AddedApart(Turned(c, i, MIX_SHIFTS[i]), Turned(d, i, MIX_SHIFTS[i]), q, u);
  }

  /** A data word that differs makes a line differ. */
  lemma MixLineOther(data: State, other: State, s: State, i: nat)
    requires i < 12 && data[i] != other[i]
    ensures MixLine(data, s, i) != MixLine(other, s, i)
  {
    FedOther(s, i, data[i], other[i]);
    RestApart(Fed(s, i, data[i]), Fed(s, i, other[i]), i);
    hide Fed, Xored, Turned, Added;
  }

  lemma EndLineApart(s: State, t: State, j: nat)
    requires 1 <= j <= 12 && s != t
    ensures EndLine(s, j) != EndLine(t, j)
  {
    ShiftsAreRotations();
    hide Xored, Turned, Added, ROTATIONS;
    var i := j % 12;
    var p, q := (i + 10) % 12, (i + 1) % 12;
    AddedApart(s, t, p, i);
    XoredApart(Added(s, p, i), Added(t, p, i), q, p);
    TurnedApart(Xored(Added(s, p, i), q, p), Xored(Added(t, p, i), q, p), i, END_SHIFTS[i]);
  }

  lemma ShortMixLineApart(s: Four, t: Four, r: nat)
    requires r < 12 && s != t
    ensures ShortMixLine(s, r) != ShortMixLine(t, r)
  {
    ShiftsAreRotations();
    hide Xored, Turned, Added, ROTATIONS;
    var i, k := (r + 2) % 4, SHORT_MIX_SHIFTS[r];
    var p, q := (i + 1) % 4, (i + 2) % 4;
    TurnedApart(s, t, i, k);
    AddedApart(Turned(s, i, k), Turned(t, i, k), i, p);
    XoredApart(Added(Turned(s, i, k), i, p), Added(Turned(t, i, k), i, p), q, i);
  }

  lemma ShortEndLineApart(s: Four, t: Four, r: nat)
    requires r < 11 && s != t
    ensures ShortEndLine(s, r) != ShortEndLine(t, r)
  {
    ShiftsAreRotations();
    hide Xored, Turned, Added, ROTATIONS;
    var i, k := (r + 2) % 4, SHORT_END_SHIFTS[r];
    var p := (i + 1) % 4;
    XoredApart(s, t, p, i);
    TurnedApart(Xored(s, p, i), Xored(t, p, i), i, k);
    AddedApart(Turned(Xored(s, p, i), i, k), Turned(Xored(t, p, i), i, k), p, i);
  }

  // ----- the mixing functions -----

  lemma {:induction false} MixLinesApart(data: State, s: State, t: State, n: nat)
    requires n <= 12 && s != t
    ensures MixLines(data, s, n) != MixLines(data, t, n)
  {
    hide MixLine;
    if n > 0 {
      MixLinesApart(data, s, t, n - 1);
      MixLineApart(data, MixLines(data, s, n - 1), MixLines(data, t, n - 1), n - 1);
    }
  }

  /** For any block, different states are mixed to different states. */
  lemma MixApart(data: State, s: State, t: State)
    requires s != t
    ensures Mix(data, s) != Mix(data, t)
  {
    hide MixLines;
    MixLinesApart(data, s, t, 12);
  }

  /** Blocks that differ in just one word. */
  ghost predicate OneWord(data: State, other: State, w: nat)
    requires w < 12
  {
    data[w] != other[w] && forall i :: 0 <= i < 12 && i != w ==> data[i] == other[i]
  }

  lemma {:induction false} MixLinesOther(data: State, other: State, s: State, w: nat, n: nat)
    requires w < 12 && n <= 12 && OneWord(data, other, w)
    ensures if n <= w then MixLines(data, s, n) == MixLines(other, s, n)
            else MixLines(data, s, n) != MixLines(other, s, n)
  {
    hide MixLine, OneWord;
    if n > 0 {
      MixLinesOther(data, other, s, w, n - 1);
      NextLineOther(data, other, MixLines(data, s, n - 1), MixLines(other, s, n - 1), w, n - 1);
    }
  }

  lemma NextLineOther(data: State, other: State, s: State, t: State, w: nat, i: nat)
    requires w < 12 && i < 12 && OneWord(data, other, w) && if i <= w then s == t else s != t
    ensures if i < w then MixLine(data, s, i) == MixLine(other, t, i) else MixLine(data, s, i) != MixLine(other, t, i)
  {
    hide MixLine;
    if i == w {
      MixLineOther(data, other, s, w);
    } else {
      assert data[i] == other[i];
      SameLine(data, other, t, i);
      if i > w {
        MixLineApart(data, s, t, i);
      }
    }
  }

  lemma SameLine(data: State, other: State, s: State, i: nat)
    requires i < 12 && data[i] == other[i]
    ensures MixLine(data, s, i) == MixLine(other, s, i)
  {
    hide Fed, Xored, Turned, Added;
  }

  /** For any state, blocks that differ in just one word are mixed to different states. */
  lemma MixOther(data: State, other: State, s: State, w: nat)
    requires w < 12 && OneWord(data, other, w)
    ensures Mix(data, s) != Mix(other, s)
  {
    hide MixLines, OneWord;
    MixLinesOther(data, other, s, w, 12);
  }

  lemma {:induction false} EndLinesApart(s: State, t: State, n: nat)
    requires n <= 12 && s != t
    ensures EndLines(s, n) != EndLines(t, n)
  {
    hide EndLine;
    if n > 0 {
      EndLinesApart(s, t, n - 1);
      EndLineApart(EndLines(s, n - 1), EndLines(t, n - 1), n);
    }
  }

  /** EndPartial keeps states apart. */
  lemma EndPartialApart(s: State, t: State)
    requires s != t
    ensures EndPartial(s) != EndPartial(t)
  {
    hide EndLines;
    EndLinesApart(s, t, 12);
  }

  lemma {:induction false} ShortMixLinesApart(s: Four, t: Four, n: nat)
    requires n <= 12 && s != t
    ensures ShortMixLines(s, n) != ShortMixLines(t, n)
  {
    hide ShortMixLine;
    if n > 0 {
      ShortMixLinesApart(s, t, n - 1);
      ShortMixLineApart(ShortMixLines(s, n - 1), ShortMixLines(t, n - 1), n - 1);
    }
  }

  lemma ShortMixApart(s: Four, t: Four)
    requires s != t
    ensures ShortMix(s) != ShortMix(t)
  {
    hide ShortMixLines;
    ShortMixLinesApart(s, t, 12);
  }

  lemma {:induction false} ShortEndLinesApart(s: Four, t: Four, n: nat)
    requires n <= 11 && s != t
    ensures ShortEndLines(s, n) != ShortEndLines(t, n)
  {
    hide ShortEndLine;
    if n > 0 {
      ShortEndLinesApart(s, t, n - 1);
      ShortEndLineApart(ShortEndLines(s, n - 1), ShortEndLines(t, n - 1), n - 1);
    }
  }

  lemma ShortEndApart(s: Four, t: Four)
    requires s != t
    ensures ShortEnd(s) != ShortEnd(t)
  {
    hide ShortEndLines;
    ShortEndLinesApart(s, t, 11);
  }
}
