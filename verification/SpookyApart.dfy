/** Messages that SpookyHash V2 keeps apart: of equal length and different in just one aligned word
    of eight bytes, they end in different states, of which the hash is the first two words. */
module SpookyApart {
  import opened Spooky
  import opened SpookyMixing

  // ----- bytes and words -----

  lemma Little32Same(a: Byte8, b: Byte8, c: Byte8, d: Byte8, a': Byte8, b': Byte8, c': Byte8, d': Byte8)
    requires Little32(a, b, c, d) == Little32(a', b', c', d')
    ensures a == a' && b == b' && c == c' && d == d'
  {
  }

  lemma Little32Small(a: Byte8, b: Byte8, c: Byte8, d: Byte8)
    ensures Little32(a, b, c, d) < 0x1_0000_0000
  {
  }

  lemma Little64Same(x: Word, y: Word, x': Word, y': Word)
    requires x < 0x1_0000_0000 && y < 0x1_0000_0000 && x' < 0x1_0000_0000 && y' < 0x1_0000_0000
    requires Little64(x, y) == Little64(x', y')
    ensures x == x' && y == y'
  {
  }

  lemma Word32Same(m: seq<Byte8>, n: seq<Byte8>, at: nat)
    requires at + 4 <= |m| && at + 4 <= |n|
    ensures Word32(m, at) == Word32(n, at) <==> m[at..at + 4] == n[at..at + 4]
    ensures Word32(m, at) < 0x1_0000_0000
  {
    hide Little32;
    Little32Small(m[at], m[at + 1], m[at + 2], m[at + 3]);
    if Word32(m, at) == Word32(n, at) {
      Little32Same(m[at], m[at + 1], m[at + 2], m[at + 3], n[at], n[at + 1], n[at + 2], n[at + 3]);
    }
    if m[at..at + 4] == n[at..at + 4] {
      SameAt(m, n, at, 4);
    }
  }

  lemma SameAt(m: seq<Byte8>, n: seq<Byte8>, at: nat, k: nat)
    requires at + k <= |m| && at + k <= |n| && m[at..at + k] == n[at..at + k]
    ensures forall i :: at <= i < at + k ==> m[i] == n[i]
  {
    forall i | at <= i < at + k ensures m[i] == n[i] {
      assert m[at..at + k][i - at] == n[at..at + k][i - at];
    }
  }

  /** A word says which eight bytes it was read from. */
  lemma Word64Same(m: seq<Byte8>, n: seq<Byte8>, at: nat)
    requires at + 8 <= |m| && at + 8 <= |n|
    ensures Word64(m, at) == Word64(n, at) <==> m[at..at + 8] == n[at..at + 8]
  {
    Word32Same(m, n, at);
    Word32Same(m, n, at + 4);
    Word32Same(n, m, at);
    Word32Same(n, m, at + 4);
    hide Word32, Little64;
    HalvesSame(m, n, at);
    if Word64(m, at) == Word64(n, at) {
      Little64Same(Word32(m, at), Word32(m, at + 4), Word32(n, at), Word32(n, at + 4));
    }
  }

  lemma HalvesSame(m: seq<Byte8>, n: seq<Byte8>, at: nat)
    requires at + 8 <= |m| && at + 8 <= |n|
    ensures m[at..at + 8] == n[at..at + 8] <==> m[at..at + 4] == n[at..at + 4] && m[at + 4..at + 8] == n[at + 4..at + 8]
  {
    assert m[at..at + 8] == m[at..at + 4] + m[at + 4..at + 8];
    assert n[at..at + 8] == n[at..at + 4] + n[at + 4..at + 8];
    assert m[at..at + 8][..4] == m[at..at + 4] && m[at..at + 8][4..] == m[at + 4..at + 8];
    assert n[at..at + 8][..4] == n[at..at + 4] && n[at..at + 8][4..] == n[at + 4..at + 8];
  }

  /** Different, but not outside some places. */
  ghost predicate Within(a: seq<Byte8>, b: seq<Byte8>, from: int, to: int) {
    |a| == |b| && a != b && forall i :: 0 <= i < |a| && !(from <= i < to) ==> a[i] == b[i]
  }

  /** A block says which bytes it was read from. */
  lemma BlockSame(a: seq<Byte8>, b: seq<Byte8>)
    requires |a| == |b| == BLOCK_SIZE && Block(a) == Block(b)
    ensures a == b
  {
    hide Word64;
    forall i | 0 <= i < BLOCK_SIZE ensures a[i] == b[i] {
      var w := i / 8;
      assert Block(a)[w] == Block(b)[w];
      Word64Same(a, b, 8 * w);
      SameAt(a, b, 8 * w, 8);
    }
  }

  lemma BlockOther(a: seq<Byte8>, b: seq<Byte8>, w: nat)
    requires |a| == |b| == BLOCK_SIZE && w < 12 && Within(a, b, 8 * w, 8 * w + 8)
    ensures OneWord(Block(a), Block(b), w)
  {
    hide Word64;
    forall i | 0 <= i < 12 && i != w ensures Block(a)[i] == Block(b)[i] {
      assert a[8 * i..8 * i + 8] == b[8 * i..8 * i + 8];
      Word64Same(a, b, 8 * i);
    }
    if Block(a)[w] == Block(b)[w] {
      assert Block(a) == Block(b);
      BlockSame(a, b);
    }
  }

  // ----- long messages -----

  lemma {:induction false} MixBlocksApart(s: State, t: State, m: seq<Byte8>)
    requires |m| % BLOCK_SIZE == 0 && s != t
    ensures MixBlocks(s, m) != MixBlocks(t, m)
    decreases |m|
  {
    hide Mix, Block;
    if m != [] {
      var data := Block(m[..BLOCK_SIZE]);
      MixApart(data, s, t);
      MixBlocksApart(Mix(data, s), Mix(data, t), m[BLOCK_SIZE..]);
    }
  }

  /** Whole blocks that differ in just one word are mixed to different states. */
  lemma {:induction false} MixBlocksOther(s: State, a: seq<Byte8>, b: seq<Byte8>, w: nat)
    requires |a| % BLOCK_SIZE == 0 && 8 * w < |a| && Within(a, b, 8 * w, 8 * w + 8)
    ensures MixBlocks(s, a) != MixBlocks(s, b)
    decreases |a|
  {
    hide Mix, Block;
    var x, y, p, q := a[..BLOCK_SIZE], b[..BLOCK_SIZE], a[BLOCK_SIZE..], b[BLOCK_SIZE..];
    SplitWithin(a, b, BLOCK_SIZE, 8 * w);
    if w < 12 {
      BlockOther(x, y, w);
      MixOther(Block(x), Block(y), s, w);
      MixBlocksApart(Mix(Block(x), s), Mix(Block(y), s), p);
    } else {
      MixBlocksOther(Mix(Block(x), s), p, q, w - 12);
    }
  }

  /** Two messages that differ in a word are cut where no word is cut. */
  lemma SplitWithin(a: seq<Byte8>, b: seq<Byte8>, n: nat, at: nat)
    requires n <= |a| && Within(a, b, at, at + 8) && n % 8 == 0 && at % 8 == 0
    ensures at < n ==> Within(a[..n], b[..n], at, at + 8) && a[n..] == b[n..]
    ensures at >= n ==> a[..n] == b[..n] && Within(a[n..], b[n..], at - n, at - n + 8)
  {
    assert a == a[..n] + a[n..] && b == b[..n] + b[n..];
    if at < n {
      assert a[n..] == b[n..];
    } else {
      assert a[..n] == b[..n];
    }
  }

  lemma EndApart(data: State, s: State, t: State)
    requires s != t
    ensures End(data, s) != End(data, t)
  {
    hide EndPartial, Sum;
    var k :| 0 <= k < 12 && s[k] != t[k];
    SumApart(s[k], t[k], data[k]);
    assert AddAll(s, data)[k] != AddAll(t, data)[k];
    ThreeEndsApart(AddAll(s, data), AddAll(t, data));
  }

  lemma EndOther(data: State, other: State, s: State)
    requires data != other
    ensures End(data, s) != End(other, s)
  {
    hide EndPartial, Sum;
    var k :| 0 <= k < 12 && data[k] != other[k];
    SumApart(data[k], other[k], s[k]);
    assert AddAll(s, data)[k] != AddAll(s, other)[k];
    ThreeEndsApart(AddAll(s, data), AddAll(s, other));
  }

  lemma ThreeEndsApart(s: State, t: State)
    requires s != t
    ensures EndPartial(EndPartial(EndPartial(s))) != EndPartial(EndPartial(EndPartial(t)))
  {
    hide EndPartial;
    EndPartialApart(s, t);
    EndPartialApart(EndPartial(s), EndPartial(t));
    EndPartialApart(EndPartial(EndPartial(s)), EndPartial(EndPartial(t)));
  }

  lemma LastBlockOther(a: seq<Byte8>, b: seq<Byte8>)
    requires |a| == |b| < BLOCK_SIZE && a != b
    ensures Block(LastBlock(a)) != Block(LastBlock(b))
  {
    hide Block;
    assert a == LastBlock(a)[..|a|] && b == LastBlock(b)[..|b|];
    assert LastBlock(a) != LastBlock(b);
    if Block(LastBlock(a)) == Block(LastBlock(b)) {
      BlockSame(LastBlock(a), LastBlock(b));
    }
  }

  function LongEnd(m: seq<Byte8>, seed1: Word, seed2: Word): State
    requires |m| >= BUF_SIZE
  {
    var n := |m| / BLOCK_SIZE * BLOCK_SIZE;
    End(Block(LastBlock(m[n..])), MixBlocks(InitialState(seed1, seed2), m[..n]))
  }

  function EndOfShort(m: seq<Byte8>, seed1: Word, seed2: Word): Four
    requires |m| < BUF_SIZE
  {
    ShortEnd(ShortTail(ShortBlocks([seed1, seed2, SC_CONST, SC_CONST], m), m[|m| / 16 * 16..], |m|))
  }

  /** The twelve words that a long message ends in, or the four that a short one does. */
  function EndWords(m: seq<Byte8>, seed1: Word, seed2: Word): (r: seq<Word>)
    ensures |r| >= 2
  {
    if |m| < BUF_SIZE then EndOfShort(m, seed1, seed2) else LongEnd(m, seed1, seed2)
  }

  /** The hash is the first two of them. */
  lemma HashOfEnd(m: seq<Byte8>, seed1: Word, seed2: Word)
    ensures var r := EndWords(m, seed1, seed2); Hash128(m, seed1, seed2) == Hash(r[0], r[1])
  {
    hide End, Block, LastBlock, MixBlocks, InitialState, ShortEnd, ShortTail, ShortBlocks;
  }

  lemma LongOther(a: seq<Byte8>, b: seq<Byte8>, w: nat, seed1: Word, seed2: Word)
    requires |a| >= BUF_SIZE && 8 * w < |a| && Within(a, b, 8 * w, 8 * w + 8)
    ensures EndWords(a, seed1, seed2) != EndWords(b, seed1, seed2)
  {
    hide End, Block, LastBlock, MixBlocks, InitialState;
    var n := |a| / BLOCK_SIZE * BLOCK_SIZE;
    var start := InitialState(seed1, seed2);
    SplitWithin(a, b, n, 8 * w);
    if 8 * w < n {
      MixBlocksOther(start, a[..n], b[..n], w);
      EndApart(Block(LastBlock(a[n..])), MixBlocks(start, a[..n]), MixBlocks(start, b[..n]));
    } else {
      LastBlockOther(a[n..], b[n..]);
      EndOther(Block(LastBlock(a[n..])), Block(LastBlock(b[n..])), MixBlocks(start, a[..n]));
    }
  }

  // ----- short messages -----

  lemma TwiceFedApart(s: Four, t: Four, i: nat, x: Word, j: nat, y: Word)
    requires i < 4 && j < 4 && s != t
    ensures Fed(Fed(s, i, x), j, y) != Fed(Fed(t, i, x), j, y)
  {
    hide Fed;
    FedApart(s, t, i, x);
    FedApart(Fed(s, i, x), Fed(t, i, x), j, y);
  }

  /** Two words are fed to two places: if one of them differs, so does the state. */
  lemma TwiceFedOther(s: Four, i: nat, x: Word, x': Word, j: nat, y: Word, y': Word)
    requires i < 4 && j < 4 && i != j && (x != x' || y != y')
    ensures Fed(Fed(s, i, x), j, y) != Fed(Fed(s, i, x'), j, y')
  {
    if x != x' {
      SumApart(x, x', s[i]);
    } else {
      SumApart(y, y', s[j]);
    }
    hide Sum;
    var a, b := Fed(Fed(s, i, x), j, y), Fed(Fed(s, i, x'), j, y');
    assert a[i] == Sum(s[i], x) && b[i] == Sum(s[i], x') && a[j] == Sum(s[j], y) && b[j] == Sum(s[j], y');
  }

  lemma HalfBlockApart(s: Four, t: Four, m: seq<Byte8>)
    requires |m| >= 16 && s != t
    ensures HalfBlock(s, m) != HalfBlock(t, m)
  {
    hide Fed, ShortMix, Word64;
    TwiceFedApart(s, t, 2, Word64(m, 0), 3, Word64(m, 8));
    ShortMixApart(Fed(Fed(s, 2, Word64(m, 0)), 3, Word64(m, 8)), Fed(Fed(t, 2, Word64(m, 0)), 3, Word64(m, 8)));
  }

  lemma SixteenOther(a: seq<Byte8>, b: seq<Byte8>, at: nat)
    requires at + 16 <= |a| && at + 16 <= |b| && a[at..at + 16] != b[at..at + 16]
    ensures Word64(a, at) != Word64(b, at) || Word64(a, at + 8) != Word64(b, at + 8)
  {
    Word64Same(a, b, at);
    Word64Same(a, b, at + 8);
    hide Word64;
    assert a[at..at + 16] == a[at..at + 8] + a[at + 8..at + 16];
    assert b[at..at + 16] == b[at..at + 8] + b[at + 8..at + 16];
  }

  lemma SixteenSame(a: seq<Byte8>, b: seq<Byte8>, at: nat)
    requires at + 16 <= |a| && at + 16 <= |b| && a[at..at + 16] == b[at..at + 16]
    ensures Word64(a, at) == Word64(b, at) && Word64(a, at + 8) == Word64(b, at + 8)
  {
    SameAt(a, b, at, 16);
    hide Word64;
    Word64Same(a, b, at);
    Word64Same(a, b, at + 8);
  }

  lemma HalfBlockOther(s: Four, a: seq<Byte8>, b: seq<Byte8>)
    requires |a| >= 16 && |b| >= 16 && a[..16] != b[..16]
    ensures HalfBlock(s, a) != HalfBlock(s, b)
  {
    hide Fed, ShortMix, Word64;
    assert a[0..16] == a[..16] && b[0..16] == b[..16];
    SixteenOther(a, b, 0);
    TwiceFedOther(s, 2, Word64(a, 0), Word64(b, 0), 3, Word64(a, 8), Word64(b, 8));
    ShortMixApart(Fed(Fed(s, 2, Word64(a, 0)), 3, Word64(a, 8)), Fed(Fed(s, 2, Word64(b, 0)), 3, Word64(b, 8)));
  }

  lemma HalfBlockSame(s: Four, a: seq<Byte8>, b: seq<Byte8>)
    requires |a| >= 16 && |b| >= 16 && a[..16] == b[..16]
    ensures HalfBlock(s, a) == HalfBlock(s, b)
  {
    hide Fed, ShortMix, Word64;
    assert a[0..16] == a[..16] && b[0..16] == b[..16];
    SixteenSame(a, b, 0);
  }

  lemma WholeBlockApart(s: Four, t: Four, m: seq<Byte8>)
    requires |m| >= 32 && s != t
    ensures WholeBlock(s, m) != WholeBlock(t, m)
  {
    hide Fed, HalfBlock, Word64;
    HalfBlockApart(s, t, m);
    TwiceFedApart(HalfBlock(s, m), HalfBlock(t, m), 0, Word64(m, 16), 1, Word64(m, 24));
  }

  lemma WholeBlockSame(s: Four, a: seq<Byte8>, b: seq<Byte8>)
    requires |a| >= 32 && |b| >= 32 && a[..32] == b[..32]
    ensures WholeBlock(s, a) == WholeBlock(s, b)
  {
    hide Fed, HalfBlock, Word64;
    assert a[..16] == a[..32][..16] && b[..16] == b[..32][..16];
    assert a[16..32] == a[..32][16..] && b[16..32] == b[..32][16..];
    HalfBlockSame(s, a, b);
    SixteenSame(a, b, 16);
  }

  lemma WholeBlockOther(s: Four, a: seq<Byte8>, b: seq<Byte8>)
    requires |a| >= 32 && |b| >= 32 && (a[..16] == b[..16] <==> a[16..32] != b[16..32])
    ensures WholeBlock(s, a) != WholeBlock(s, b)
  {
    hide Fed, HalfBlock, Word64;
    if a[..16] == b[..16] {
      HalfBlockSame(s, a, b);
      SixteenOther(a, b, 16);
      TwiceFedOther(HalfBlock(s, a), 0, Word64(a, 16), Word64(b, 16), 1, Word64(a, 24), Word64(b, 24));
    } else {
      HalfBlockOther(s, a, b);
      SixteenSame(a, b, 16);
      TwiceFedApart(HalfBlock(s, a), HalfBlock(s, b), 0, Word64(a, 16), 1, Word64(a, 24));
    }
  }

  lemma {:induction false} ShortBlocksApart(s: Four, t: Four, m: seq<Byte8>)
    requires s != t
    ensures ShortBlocks(s, m) != ShortBlocks(t, m)
    decreases |m|
  {
    hide HalfBlock, WholeBlock;
    if 16 <= |m| < 32 {
      HalfBlockApart(s, t, m);
    } else if |m| >= 32 {
      WholeBlockApart(s, t, m);
      ShortBlocksApart(WholeBlock(s, m), WholeBlock(t, m), m[32..]);
    }
  }

  /** What is behind the whole and half blocks is left to the tail. */
  lemma {:induction false} ShortBlocksSame(s: Four, a: seq<Byte8>, b: seq<Byte8>)
    requires |a| == |b| && a[..|a| / 16 * 16] == b[..|a| / 16 * 16]
    ensures ShortBlocks(s, a) == ShortBlocks(s, b)
    decreases |a|
  {
    hide HalfBlock, WholeBlock;
    var n := |a| / 16 * 16;
    if 16 <= |a| < 32 {
      assert n == 16;
      HalfBlockSame(s, a, b);
    } else if |a| >= 32 {
      assert a[..32] == a[..n][..32] && b[..32] == b[..n][..32];
      WholeBlockSame(s, a, b);
      assert a[32..][..n - 32] == a[..n][32..] && b[32..][..n - 32] == b[..n][32..];
      assert |a[32..]| / 16 * 16 == n - 32;
      ShortBlocksSame(WholeBlock(s, a), a[32..], b[32..]);
    }
  }

  lemma {:induction false} ShortBlocksOther(s: Four, a: seq<Byte8>, b: seq<Byte8>, w: nat)
    requires Within(a, b, 8 * w, 8 * w + 8) && 8 * w < |a| / 16 * 16
    ensures ShortBlocks(s, a) != ShortBlocks(s, b)
    decreases |a|
  {
    hide HalfBlock, WholeBlock;
    if |a| < 32 {
      assert a[..16] != b[..16] by {
        SplitWithin(a, b, 16, 8 * w);
      }
      HalfBlockOther(s, a, b);
    } else {
      SplitWithin(a, b, 32, 8 * w);
      if 8 * w < 32 {
        FirstOrSecond(a, b, w);
        WholeBlockOther(s, a, b);
        ShortBlocksApart(WholeBlock(s, a), WholeBlock(s, b), a[32..]);
      } else {
        WholeBlockSame(s, a, b);
        assert |a[32..]| / 16 * 16 == |a| / 16 * 16 - 32;
        ShortBlocksOther(WholeBlock(s, a), a[32..], b[32..], w - 4);
      }
    }
  }

  lemma FirstOrSecond(a: seq<Byte8>, b: seq<Byte8>, w: nat)
    requires Within(a, b, 8 * w, 8 * w + 8) && |a| >= 32 && 8 * w < 32
    ensures a[..16] == b[..16] <==> a[16..32] != b[16..32]
  {
    SplitWithin(a, b, 16, 8 * w);
    SplitWithin(a, b, 32, 8 * w);
    if w < 2 {
      assert a[16..32] == a[16..][..16] && b[16..32] == b[16..][..16];
    } else {
      SplitWithin(a[..32], b[..32], 16, 8 * w);
      assert a[16..32] == a[..32][16..] && b[16..32] == b[..32][16..];
    }
  }

  // ----- the tail of a short message -----

  /** Where words that are not added are 0, all three can be. */
  lemma ThreeAdded(x: Word, n: nat, p: Word, q: Word, r: Word)
    requires (n < 3 ==> r == 0) && (n < 2 ==> q == 0) && (n < 1 ==> p == 0)
    ensures FirstAdded(x, n, p, q, r) == Sum(Sum(Sum(x, r), q), p)
  {
    hide Sum;
    SumZero(x);
    SumZero(Sum(x, r));
    SumZero(Sum(Sum(x, r), q));
  }

  lemma SumZero(x: Word)
    ensures Sum(x, 0) == x
  {
  }

  lemma ThreeAddedApart(x: Word, y: Word, p: Word, q: Word, r: Word)
    requires x != y
    ensures Sum(Sum(Sum(x, r), q), p) != Sum(Sum(Sum(y, r), q), p)
  {
    hide Sum;
    SumApart(x, y, r);
    SumApart(Sum(x, r), Sum(y, r), q);
    SumApart(Sum(Sum(x, r), q), Sum(Sum(y, r), q), p);
  }

  /** The word that others are added to can be kept apart from what those add up to. */
  lemma ThreeAddedSum(x: Word, p: Word, q: Word, r: Word, w: Word)
    ensures Sum(Sum(Sum(Sum(x, r), q), p), w) == Sum(x, Sum(Sum(Sum(r, q), p), w))
  {
    hide Sum;
    SumAssoc(x, r, q);
    SumAssoc(x, Sum(r, q), p);
    SumAssoc(x, Sum(Sum(r, q), p), w);
  }

  lemma SumsAre(r: Word, q: Word, p: Word, w: Word)
    ensures Sum(r, q) == r + q && Sum(r + q, p) == r + q + p && Sum(r + q + p, w) == r + q + p + w
  {
  }

  function Total(r: Word, q: Word, p: Word, w: Word): Word {
    r + q + p + w
  }

  /** What words add up to, written out. */
  lemma SumOfFour(r: Word, q: Word, p: Word, w: Word)
    ensures Sum(Sum(Sum(r, q), p), w) == Total(r, q, p, w)
  {
    hide Sum;
    SumsAre(r, q, p, w);
  }

  lemma HighBits(a: Byte8, b: Byte8, c: Byte8, w: Word, a': Byte8, b': Byte8, c': Byte8, w': Word)
    requires w < 0x1_0000_0000 && w' < 0x1_0000_0000
    requires (Widen(c) << 48) + (Widen(b) << 40) + (Widen(a) << 32) + w ==
             (Widen(c') << 48) + (Widen(b') << 40) + (Widen(a') << 32) + w'
    ensures a == a' && b == b' && c == c' && w == w'
  {
  }

  lemma LowBits(a: Byte8, b: Byte8, c: Byte8, a': Byte8, b': Byte8, c': Byte8)
    requires (Widen(c) << 16) + (Widen(b) << 8) + Widen(a) + 0 == (Widen(c') << 16) + (Widen(b') << 8) + Widen(a') + 0
    ensures a == a' && b == b' && c == c'
  {
  }

  /** Bytes are absent where there are fewer than three. */
  predicate Absent(n: nat, a: Byte8, b: Byte8, c: Byte8) {
    (n < 3 ==> c == 0) && (n < 2 ==> b == 0) && (n < 1 ==> a == 0)
  }

  lemma HighBytesAre(x: Word, n: nat, a: Byte8, b: Byte8, c: Byte8)
    requires Absent(n, a, b, c)
    ensures HighBytes(x, n, a, b, c) == Sum(Sum(Sum(x, Widen(c) << 48), Widen(b) << 40), Widen(a) << 32)
  {
    hide Sum, FirstAdded;
    ThreeAdded(x, n, Widen(a) << 32, Widen(b) << 40, Widen(c) << 48);
  }

  lemma LowBytesAre(x: Word, n: nat, a: Byte8, b: Byte8, c: Byte8)
    requires Absent(n, a, b, c)
    ensures LowBytes(x, n, a, b, c) == Sum(Sum(Sum(x, Widen(c) << 16), Widen(b) << 8), Widen(a))
  {
    hide Sum, FirstAdded;
    ThreeAdded(x, n, Widen(a), Widen(b) << 8, Widen(c) << 16);
  }

  lemma HighBitsOther(a: Byte8, b: Byte8, c: Byte8, w: Word, a': Byte8, b': Byte8, c': Byte8, w': Word)
    requires w < 0x1_0000_0000 && w' < 0x1_0000_0000
    requires a != a' || b != b' || c != c' || w != w'
    ensures Total(Widen(c) << 48, Widen(b) << 40, Widen(a) << 32, w) !=
            Total(Widen(c') << 48, Widen(b') << 40, Widen(a') << 32, w')
  {
    if Total(Widen(c) << 48, Widen(b) << 40, Widen(a) << 32, w) ==
       Total(Widen(c') << 48, Widen(b') << 40, Widen(a') << 32, w') {
      HighBits(a, b, c, w, a', b', c', w');
    }
  }

  lemma HighSpread(x: Word, a: Byte8, b: Byte8, c: Byte8, w: Word, a': Byte8, b': Byte8, c': Byte8, w': Word)
    requires w < 0x1_0000_0000 && w' < 0x1_0000_0000
    requires a != a' || b != b' || c != c' || w != w'
    ensures Sum(Sum(Sum(Sum(x, Widen(c) << 48), Widen(b) << 40), Widen(a) << 32), w) !=
            Sum(Sum(Sum(Sum(x, Widen(c') << 48), Widen(b') << 40), Widen(a') << 32), w')
  {
    hide Sum, Widen, Total;
    HighBitsOther(a, b, c, w, a', b', c', w');
    SpreadOther(x, Widen(a) << 32, Widen(b) << 40, Widen(c) << 48, w,
                Widen(a') << 32, Widen(b') << 40, Widen(c') << 48, w');
  }

  /** Bytes and a word added to the same word. */
  lemma HighBytesOther(x: Word, n: nat, a: Byte8, b: Byte8, c: Byte8, w: Word,
                       a': Byte8, b': Byte8, c': Byte8, w': Word)
    requires Absent(n, a, b, c) && Absent(n, a', b', c') && w < 0x1_0000_0000 && w' < 0x1_0000_0000
    requires a != a' || b != b' || c != c' || w != w'
    ensures Sum(HighBytes(x, n, a, b, c), w) != Sum(HighBytes(x, n, a', b', c'), w')
  {
    hide Sum, HighBytes, Widen, Absent;
    HighBytesAre(x, n, a, b, c);
    HighBytesAre(x, n, a', b', c');
    HighSpread(x, a, b, c, w, a', b', c', w');
  }

  lemma SpreadOther(x: Word, p: Word, q: Word, r: Word, w: Word, p': Word, q': Word, r': Word, w': Word)
    requires Total(r, q, p, w) != Total(r', q', p', w')
    ensures Sum(Sum(Sum(Sum(x, r), q), p), w) != Sum(Sum(Sum(Sum(x, r'), q'), p'), w')
  {
    hide Sum, Total;
    ThreeAddedSum(x, p, q, r, w);
    ThreeAddedSum(x, p', q', r', w');
    SumOfFour(r, q, p, w);
    SumOfFour(r', q', p', w');
    SumApart(Sum(Sum(Sum(r, q), p), w), Sum(Sum(Sum(r', q'), p'), w'), x);
  }

  lemma LowBitsOther(a: Byte8, b: Byte8, c: Byte8, a': Byte8, b': Byte8, c': Byte8)
    requires a != a' || b != b' || c != c'
    ensures Total(Widen(c) << 16, Widen(b) << 8, Widen(a), 0) != Total(Widen(c') << 16, Widen(b') << 8, Widen(a'), 0)
  {
    if Total(Widen(c) << 16, Widen(b) << 8, Widen(a), 0) == Total(Widen(c') << 16, Widen(b') << 8, Widen(a'), 0) {
      LowBits(a, b, c, a', b', c');
    }
  }

  lemma LowBytesOther(x: Word, n: nat, a: Byte8, b: Byte8, c: Byte8, a': Byte8, b': Byte8, c': Byte8)
    requires Absent(n, a, b, c) && Absent(n, a', b', c') && (a != a' || b != b' || c != c')
    ensures LowBytes(x, n, a, b, c) != LowBytes(x, n, a', b', c')
  {
    hide Sum, LowBytes, Widen, Total, Absent;
    LowBytesAre(x, n, a, b, c);
    LowBytesAre(x, n, a', b', c');
    SumZero(LowBytes(x, n, a, b, c));
    SumZero(LowBytes(x, n, a', b', c'));
    LowBitsOther(a, b, c, a', b', c');
    SpreadOther(x, Widen(a), Widen(b) << 8, Widen(c) << 16, 0, Widen(a'), Widen(b') << 8, Widen(c') << 16, 0);
  }

  lemma HighBytesApart(x: Word, y: Word, n: nat, a: Byte8, b: Byte8, c: Byte8, w: Word)
    requires Absent(n, a, b, c) && x != y
    ensures Sum(HighBytes(x, n, a, b, c), w) != Sum(HighBytes(y, n, a, b, c), w)
  {
    HighBytesAre(x, n, a, b, c);
    HighBytesAre(y, n, a, b, c);
    hide Sum, HighBytes, Widen;
    ThreeAddedApart(x, y, Widen(a) << 32, Widen(b) << 40, Widen(c) << 48);
    SumApart(HighBytes(x, n, a, b, c), HighBytes(y, n, a, b, c), w);
  }

  lemma LowBytesApart(x: Word, y: Word, n: nat, a: Byte8, b: Byte8, c: Byte8)
    requires Absent(n, a, b, c) && x != y
    ensures LowBytes(x, n, a, b, c) != LowBytes(y, n, a, b, c)
  {
    LowBytesAre(x, n, a, b, c);
    LowBytesAre(y, n, a, b, c);
    hide Sum, LowBytes, Widen;
    ThreeAddedApart(x, y, Widen(a), Widen(b) << 8, Widen(c) << 16);
  }

  /** What the tail makes of the third word, and of the fourth with the length. */
  function TailC(c: Word, m: seq<Byte8>): Word
    requires |m| < 16
  {
    var n := |m|;
    if n >= 8 then Sum(c, Word64(m, 0))
    else if n >= 4 then Sum(HighBytes(c, n - 4, ByteAt(m, 4), ByteAt(m, 5), ByteAt(m, 6)), Word32(m, 0))
    else if n >= 1 then LowBytes(c, n, ByteAt(m, 0), ByteAt(m, 1), ByteAt(m, 2))
    else Sum(c, SC_CONST)
  }

  function TailD(d: Word, m: seq<Byte8>): Word
    requires |m| < 16
  {
    var n := |m|;
    if n >= 12 then Sum(HighBytes(d, n - 12, ByteAt(m, 12), ByteAt(m, 13), ByteAt(m, 14)), Word32(m, 8))
    else if n >= 8 then LowBytes(d, n - 8, ByteAt(m, 8), ByteAt(m, 9), ByteAt(m, 10))
    else if n >= 1 then d
    else Sum(d, SC_CONST)
  }

  lemma ShortTailIs(s: Four, m: seq<Byte8>, length: nat)
    requires |m| < 16 && length < 256
    ensures ShortTail(s, m, length) == [s[0], s[1], TailC(s[2], m), TailD(Sum(s[3], (length as Word) << 56), m)]
  {
    hide Sum, HighBytes, LowBytes, ByteAt, Word32, Word64;
  }

  lemma TailCApart(x: Word, y: Word, m: seq<Byte8>)
    requires |m| < 16 && x != y
    ensures TailC(x, m) != TailC(y, m)
  {
    hide Sum, HighBytes, LowBytes, Word32, Word64;
    var n := |m|;
    if n >= 8 {
      SumApart(x, y, Word64(m, 0));
    } else if n >= 4 {
      HighBytesApart(x, y, n - 4, ByteAt(m, 4), ByteAt(m, 5), ByteAt(m, 6), Word32(m, 0));
    } else if n >= 1 {
      LowBytesApart(x, y, n, ByteAt(m, 0), ByteAt(m, 1), ByteAt(m, 2));
    } else {
      SumApart(x, y, SC_CONST);
    }
  }

  lemma TailDApart(x: Word, y: Word, m: seq<Byte8>)
    requires |m| < 16 && x != y
    ensures TailD(x, m) != TailD(y, m)
  {
    hide Sum, HighBytes, LowBytes, Word32, Word64;
    var n := |m|;
    if n >= 12 {
      HighBytesApart(x, y, n - 12, ByteAt(m, 12), ByteAt(m, 13), ByteAt(m, 14), Word32(m, 8));
    } else if n >= 8 {
      LowBytesApart(x, y, n - 8, ByteAt(m, 8), ByteAt(m, 9), ByteAt(m, 10));
    } else if n == 0 {
      SumApart(x, y, SC_CONST);
    }
  }

  /** States that differ are kept apart by the same tail. */
  lemma ShortTailApart(s: Four, t: Four, m: seq<Byte8>, length: nat)
    requires |m| < 16 && length < 256 && s != t
    ensures ShortTail(s, m, length) != ShortTail(t, m, length)
  {
    hide Sum, TailC, TailD, ShortTail;
    var l := (length as Word) << 56;
    ShortTailIs(s, m, length);
    ShortTailIs(t, m, length);
    if s[2] != t[2] {
      TailCApart(s[2], t[2], m);
      assert ShortTail(s, m, length)[2] != ShortTail(t, m, length)[2];
    } else if s[3] != t[3] {
      SumApart(s[3], t[3], l);
      TailDApart(Sum(s[3], l), Sum(t[3], l), m);
      assert ShortTail(s, m, length)[3] != ShortTail(t, m, length)[3];
    } else {
      assert ShortTail(s, m, length)[0] == s[0] && ShortTail(t, m, length)[0] == t[0];
      assert ShortTail(s, m, length)[1] == s[1] && ShortTail(t, m, length)[1] == t[1];
    }
  }

  /** Tails that differ in the first eight bytes make the third word differ. */
  lemma TailCOther(x: Word, m: seq<Byte8>, n: seq<Byte8>, i: nat)
    requires |m| == |n| < 16 && i < 8 && i < |m| && m[i] != n[i]
    ensures TailC(x, m) != TailC(x, n)
  {
    hide Sum, HighBytes, LowBytes, Word64;
    if |m| >= 8 {
      FirstWordOther(x, m, n, i);
    } else if |m| >= 4 {
      WordOther(m, n, 0, i);
      hide Word32;
      HighBytesOther(x, |m| - 4, ByteAt(m, 4), ByteAt(m, 5), ByteAt(m, 6), Word32(m, 0),
                     ByteAt(n, 4), ByteAt(n, 5), ByteAt(n, 6), Word32(n, 0));
    } else {
      LowBytesOther(x, |m|, ByteAt(m, 0), ByteAt(m, 1), ByteAt(m, 2), ByteAt(n, 0), ByteAt(n, 1), ByteAt(n, 2));
    }
  }

  lemma FirstWordOther(x: Word, m: seq<Byte8>, n: seq<Byte8>, i: nat)
    requires 8 <= |m| == |n| && i < 8 && m[i] != n[i]
    ensures Sum(x, Word64(m, 0)) != Sum(x, Word64(n, 0))
  {
    hide Sum, Word64;
    assert m[0..8][i] != n[0..8][i];
    Word64Same(m, n, 0);
    SumApart(Word64(m, 0), Word64(n, 0), x);
  }

  lemma WordOther(m: seq<Byte8>, n: seq<Byte8>, at: nat, i: nat)
    requires at + 4 <= |m| == |n| && at <= i < at + 7 && i < |m| && m[i] != n[i]
    ensures Word32(m, at) != Word32(n, at) || ByteAt(m, at + 4) != ByteAt(n, at + 4)
            || ByteAt(m, at + 5) != ByteAt(n, at + 5) || ByteAt(m, at + 6) != ByteAt(n, at + 6)
    ensures Word32(m, at) < 0x1_0000_0000 && Word32(n, at) < 0x1_0000_0000
  {
    Word32Same(m, n, at);
    Word32Same(n, m, at);
    hide Word32;
    if i < at + 4 {
      assert m[at..at + 4][i - at] != n[at..at + 4][i - at];
    }
  }

  /** Those that differ behind make the fourth word differ. */
  lemma TailDOther(x: Word, m: seq<Byte8>, n: seq<Byte8>, i: nat)
    requires |m| == |n| < 16 && 8 <= i < |m| && m[i] != n[i]
    ensures TailD(x, m) != TailD(x, n)
  {
    hide Sum, HighBytes, LowBytes, Word64;
    if |m| >= 12 {
      WordOther(m, n, 8, i);
      hide Word32;
      HighBytesOther(x, |m| - 12, ByteAt(m, 12), ByteAt(m, 13), ByteAt(m, 14), Word32(m, 8),
                     ByteAt(n, 12), ByteAt(n, 13), ByteAt(n, 14), Word32(n, 8));
    } else {
      LowBytesOther(x, |m| - 8, ByteAt(m, 8), ByteAt(m, 9), ByteAt(m, 10), ByteAt(n, 8), ByteAt(n, 9), ByteAt(n, 10));
    }
  }

  /** Tails of equal length that differ make states differ. */
  lemma ShortTailOther(s: Four, m: seq<Byte8>, n: seq<Byte8>, length: nat)
    requires |m| == |n| < 16 && length < 256 && m != n
    ensures ShortTail(s, m, length) != ShortTail(s, n, length)
  {
    hide Sum, TailC, TailD, ShortTail;
    var d := Sum(s[3], (length as Word) << 56);
    ShortTailIs(s, m, length);
    ShortTailIs(s, n, length);
    var i :| 0 <= i < |m| && m[i] != n[i];
    if i < 8 {
      TailCOther(s[2], m, n, i);
      assert ShortTail(s, m, length)[2] != ShortTail(s, n, length)[2];
    } else {
      TailDOther(d, m, n, i);
      assert ShortTail(s, m, length)[3] != ShortTail(s, n, length)[3];
    }
  }

  lemma ShortOther(a: seq<Byte8>, b: seq<Byte8>, w: nat, seed1: Word, seed2: Word)
    requires |a| < BUF_SIZE && 8 * w < |a| && Within(a, b, 8 * w, 8 * w + 8)
    ensures EndWords(a, seed1, seed2) != EndWords(b, seed1, seed2)
  {
    hide ShortBlocks, ShortTail, ShortEnd;
    var start: Four := [seed1, seed2, SC_CONST, SC_CONST];
    var n := |a| / 16 * 16;
    SplitWithin(a, b, n, 8 * w);
    if 8 * w < n {
      ShortBlocksOther(start, a, b, w);
      ShortTailApart(ShortBlocks(start, a), ShortBlocks(start, b), a[n..], |a|);
    } else {
      ShortBlocksSame(start, a, b);
      ShortTailOther(ShortBlocks(start, a), a[n..], b[n..], |a|);
    }
    ShortEndApart(ShortTail(ShortBlocks(start, a), a[n..], |a|), ShortTail(ShortBlocks(start, b), b[n..], |b|));
  }

  /** Two messages of equal length, whatever it is, that differ in just one word end in different
      words, of which the hash is the first two. */
  lemma OneWordApart(a: seq<Byte8>, b: seq<Byte8>, w: nat, seed1: Word, seed2: Word)
    requires 8 * w < |a| && Within(a, b, 8 * w, 8 * w + 8)
    ensures EndWords(a, seed1, seed2) != EndWords(b, seed1, seed2)
  {
    hide EndWords;
    if |a| < BUF_SIZE {
      ShortOther(a, b, w, seed1, seed2);
    } else {
      LongOther(a, b, w, seed1, seed2);
    }
  }

  /** So do two pictures of four bytes a pixel that differ in just one pixel. */
  lemma OnePixelApart(a: seq<Byte8>, b: seq<Byte8>, p: nat, seed1: Word, seed2: Word)
    requires 4 * p < |a| && Within(a, b, 4 * p, 4 * p + 4)
    ensures EndWords(a, seed1, seed2) != EndWords(b, seed1, seed2)
  {
    hide EndWords;
    assert Within(a, b, 8 * (p / 2), 8 * (p / 2) + 8);
    OneWordApart(a, b, p / 2, seed1, seed2);
  }

  /** And so does any message under two different pairs of seeds. */
  lemma SeedsApart(m: seq<Byte8>, seed1: Word, seed2: Word, other1: Word, other2: Word)
    requires seed1 != other1 || seed2 != other2
    ensures EndWords(m, seed1, seed2) != EndWords(m, other1, other2)
  {
    hide ShortBlocks, ShortTail, ShortEnd, End, Block, LastBlock, MixBlocks;
    if |m| < BUF_SIZE {
      var s: Four, t: Four := [seed1, seed2, SC_CONST, SC_CONST], [other1, other2, SC_CONST, SC_CONST];
      assert s[0] != t[0] || s[1] != t[1];
      var tail := m[|m| / 16 * 16..];
      ShortBlocksApart(s, t, m);
      ShortTailApart(ShortBlocks(s, m), ShortBlocks(t, m), tail, |m|);
      ShortEndApart(ShortTail(ShortBlocks(s, m), tail, |m|), ShortTail(ShortBlocks(t, m), tail, |m|));
    } else {
      var s, t := InitialState(seed1, seed2), InitialState(other1, other2);
      assert s[0] != t[0] || s[1] != t[1];
      hide InitialState;
      var n := |m| / BLOCK_SIZE * BLOCK_SIZE;
      MixBlocksApart(s, t, m[..n]);
      EndApart(Block(LastBlock(m[n..])), MixBlocks(s, m[..n]), MixBlocks(t, m[..n]));
    }
  }
}
