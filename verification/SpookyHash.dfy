/** common/SpookyV2.cpp in the source's own steps: the one-shot hash, the streaming hash with
    its stash of up to two blocks, and the two hashes of common/Png.hpp. */
module SpookyHashing {
  import opened Spooky

  /** common/SpookyV2.cpp:29-143. */
  method ShortAtOnce(message: seq<Byte8>, seed1: Word, seed2: Word) returns (hash: Hash)
    requires |message| < BUF_SIZE
    ensures hash == Short(message, seed1, seed2)
  {
    hide WholeBlock, HalfBlock, ShortTail, ShortEnd, ShortBlocks, Short;
    var start: Four := [seed1, seed2, SC_CONST, SC_CONST];
    var h, u, remainder := start, message, |message| % 32;
    ghost var done := 0;
    if |message| > 15 {
      while |u| >= 32
        invariant done % 32 == 0 && done + |u| == |message| && u == message[done..]
        invariant ShortBlocks(start, message) == ShortBlocks(h, u)
      {
        BlocksUnfold(h, u);
        BehindMore(message, done, 32);
        h := WholeBlock(h, u);
        u := u[32..];
        done := done + 32;
      }
      if remainder >= 16 {
        BlocksUnfold(h, u);
        BehindMore(message, done, 16);
        h := HalfBlock(h, u);
        u := u[16..];
        remainder := remainder - 16;
        done := done + 16;
      } else {
        BlocksUnfold(h, u);
      }
    } else {
      BlocksUnfold(h, u);
    }
    ShortParts(message, seed1, seed2, h, done);
    h := ShortEnd(ShortTail(h, u, |message|));
    return Hash(h[0], h[1]);
  }

  lemma BlocksUnfold(s: Four, m: seq<Byte8>)
    ensures |m| < 16 ==> ShortBlocks(s, m) == s
    ensures 16 <= |m| < 32 ==> ShortBlocks(s, m) == HalfBlock(s, m)
    ensures |m| >= 32 ==> ShortBlocks(s, m) == ShortBlocks(WholeBlock(s, m), m[32..])
  {
    hide WholeBlock, HalfBlock;
  }

  lemma BehindMore(m: seq<Byte8>, done: nat, n: nat)
    requires done + n <= |m|
    ensures m[done..][n..] == m[done + n..]
  {
  }

  /** What is left behind the whole and half blocks is the tail of the short hash. */
  lemma ShortParts(m: seq<Byte8>, seed1: Word, seed2: Word, s: Four, done: nat)
    requires done <= |m| < BUF_SIZE && done % 16 == 0 && |m| - done < 16
    requires s == ShortBlocks([seed1, seed2, SC_CONST, SC_CONST], m)
    ensures var t := ShortEnd(ShortTail(s, m[done..], |m|)); Short(m, seed1, seed2) == Hash(t[0], t[1])
  {
    hide ShortTail, ShortEnd, ShortBlocks, ShortMix;
    WholeHalves(|m|, done);
  }

  lemma WholeHalves(n: nat, done: nat)
    requires done <= n && done % 16 == 0 && n - done < 16
    ensures done == n / 16 * 16
  {
    assert n / 16 == done / 16;
  }

  /** common/SpookyV2.cpp:148-207. */
  method HashAtOnce(message: seq<Byte8>, seed1: Word, seed2: Word) returns (hash: Hash)
    ensures hash == Hash128(message, seed1, seed2)
  {
    hide Mix, Block, Short, Finish;
    if |message| < BUF_SIZE {
      hash := ShortAtOnce(message, seed1, seed2);
      return;
    }
    var h := InitialState(seed1, seed2);
    var end := |message| / BLOCK_SIZE * BLOCK_SIZE;
    h := MixWhole(h, message[..end]);
    return Finish(h, message[end..]);
  }

  /** The loop over whole blocks, common/SpookyV2.cpp:181-185 and 284-288. */
  method MixWhole(s: State, blocks: seq<Byte8>) returns (h: State)
    requires |blocks| % BLOCK_SIZE == 0
    ensures h == MixBlocks(s, blocks)
  {
    hide Mix, Block;
    h := s;
    var u := 0;
    while u < |blocks|
      invariant 0 <= u <= |blocks| && u % BLOCK_SIZE == 0
      invariant MixBlocks(s, blocks) == MixBlocks(h, blocks[u..])
    {
      h := Mix(Block(blocks[u..u + BLOCK_SIZE]), h);
      assert blocks[u..][..BLOCK_SIZE] == blocks[u..u + BLOCK_SIZE];
      assert blocks[u..][BLOCK_SIZE..] == blocks[u + BLOCK_SIZE..];
      u := u + BLOCK_SIZE;
    }
  }

  /** A message is held as the mixed state of its first blocks and a stash of the rest; while
      it is short, the state is just the two seeds. */
  ghost predicate Represents(message: seq<Byte8>, seed1: Word, seed2: Word, state: State, stash: seq<Byte8>) {
    && |stash| <= |message|
    && var mixed := |message| - |stash|;
       && mixed % BLOCK_SIZE == 0
       && stash == message[mixed..]
       && if |message| < BUF_SIZE then mixed == 0 && state[0] == seed1 && state[1] == seed2
          else state == MixBlocks(InitialState(seed1, seed2), message[..mixed])
  }

  lemma RepresentsMore(message: seq<Byte8>, seed1: Word, seed2: Word, state: State, stash: seq<Byte8>,
                       fragment: seq<Byte8>)
    requires Represents(message, seed1, seed2, state, stash) && |stash| + |fragment| < BUF_SIZE
    ensures Represents(message + fragment, seed1, seed2, state, stash + fragment)
  {
    hide MixBlocks, InitialState;
    var mixed, total := |message| - |stash|, message + fragment;
    assert total[..mixed] == message[..mixed];
    assert total[mixed..] == stash + fragment;
  }

  lemma RepresentsMixed(message: seq<Byte8>, seed1: Word, seed2: Word, mixed: nat)
    requires mixed <= |message| && mixed % BLOCK_SIZE == 0 && |message| >= BUF_SIZE
    ensures Represents(message, seed1, seed2, MixBlocks(InitialState(seed1, seed2), message[..mixed]), message[mixed..])
  {
  }

  class SpookyHash {
    /** The bytes of m_data; the part behind the stash holds anything. */
    var data: array<Byte8>
    var state: State
    var length: nat
    var remainder: nat
    ghost var message: seq<Byte8>
    ghost var seed1: Word
    ghost var seed2: Word

    ghost predicate Valid()
      reads this, data
    {
      && data.Length == BUF_SIZE && remainder < BUF_SIZE && length == |message|
      && Represents(message, seed1, seed2, state, data[..remainder])
    }

    constructor (seed1: Word, seed2: Word)
      ensures Valid() && fresh(data) && message == [] && this.seed1 == seed1 && this.seed2 == seed2
    {
      data := new Byte8[BUF_SIZE];
      state := [seed1, seed2, 0, 0, 0, 0, 0, 0, 0, 0, 0, 0];
      length, remainder, message := 0, 0, [];
      this.seed1, this.seed2 := seed1, seed2;
    }

    /** common/SpookyV2.cpp:212-218; what the other words of the state and m_data held stays. */
    method Init(seed1: Word, seed2: Word)
      requires data.Length == BUF_SIZE
      modifies this
      ensures Valid() && data == old(data) && message == [] && this.seed1 == seed1 && this.seed2 == seed2
    {
      length := 0;
      remainder := 0;
      state := state[0 := seed1][1 := seed2];
      message, this.seed1, this.seed2 := [], seed1, seed2;
    }

    /** memcpy to m_data. */
    method Stash(at: nat, bytes: seq<Byte8>)
      requires at + |bytes| <= data.Length
      modifies data
      ensures data[..at] == old(data[..at]) && data[at..at + |bytes|] == bytes
      ensures data[at + |bytes|..] == old(data[at + |bytes|..])
    {
      for i := 0 to |bytes|
        invariant data[..at] == old(data[..at]) && data[at + |bytes|..] == old(data[at + |bytes|..])
        invariant data[at..at + i] == bytes[..i]
      {
        data[at + i] := bytes[i];
      }
    }

    /** common/SpookyV2.cpp:267-274: the stash is filled up and its two blocks are mixed in. */
    method MixStash(prefix: seq<Byte8>, s: State) returns (h: State)
      requires data.Length == BUF_SIZE && remainder + |prefix| == BUF_SIZE
      modifies data
      ensures h == MixBlocks(s, old(data[..remainder]) + prefix)
    {
      hide Mix, Block, MixBlocks;
      Stash(remainder, prefix);
      assert data[remainder..] == data[remainder..remainder + |prefix|];
      assert data[..] == data[..remainder] + data[remainder..];
      h := Mix(Block(data[..BLOCK_SIZE]), s);
      h := Mix(Block(data[BLOCK_SIZE..]), h);
      TwoBlocks(s, data[..]);
      assert data[..][..BLOCK_SIZE] == data[..BLOCK_SIZE] && data[..][BLOCK_SIZE..] == data[BLOCK_SIZE..];
    }

    /** common/SpookyV2.cpp:240-279: the state to go on from, with the stash mixed in, and how
        much of the fragment that has used up. */
    method Resume(fragment: seq<Byte8>) returns (h: State, u: nat)
      requires Valid() && |fragment| + remainder >= BUF_SIZE
      modifies data
      ensures u <= |fragment| && (|message| + u) % BLOCK_SIZE == 0
      ensures h == MixBlocks(InitialState(seed1, seed2), (message + fragment)[..|message| + u])
    {
      hide Mix, Block, MixBlocks;
      ghost var start := InitialState(seed1, seed2);
      ghost var total, before := message + fragment, |message| - remainder;
      h := if length < BUF_SIZE then InitialState(state[0], state[1]) else state;
      assert total[..before] == message[..before];
      assert h == MixBlocks(start, total[..before]) by {
        NothingMixed(start);
      }
      u := 0;
      if remainder != 0 {
        u := BUF_SIZE - remainder;
        StashIsNext(message, fragment, remainder, u);
        h := MixStash(fragment[..u], h);
        assert |message| + u == before + BUF_SIZE;
        JoinMixed(start, total, before, before + BUF_SIZE);
      }
    }

    /** common/SpookyV2.cpp:234-240: a fragment that fits is only stashed. */
    method StashFragment(fragment: seq<Byte8>)
      requires Valid() && |fragment| + remainder < BUF_SIZE
      modifies this, data
      ensures Valid() && data == old(data)
      ensures message == old(message) + fragment && seed1 == old(seed1) && seed2 == old(seed2)
    {
      hide Represents;
      var newLength := |fragment| + remainder;
      RepresentsMore(message, seed1, seed2, state, data[..remainder], fragment);
      Stash(remainder, fragment);
      assert data[..newLength] == data[..remainder] + data[remainder..newLength];
      length := |fragment| + length;
      remainder := newLength;
      message := message + fragment;
    }

    /** common/SpookyV2.cpp:242-315: the rest of a long fragment, from u on. */
    method MixRest(fragment: seq<Byte8>, s: State, u: nat)
      requires data.Length == BUF_SIZE && length == |message| && |message| + |fragment| >= BUF_SIZE
      requires u <= |fragment| && (|message| + u) % BLOCK_SIZE == 0
      requires s == MixBlocks(InitialState(seed1, seed2), (message + fragment)[..|message| + u])
      modifies this, data
      ensures Valid() && data == old(data)
      ensures message == old(message) + fragment && seed1 == old(seed1) && seed2 == old(seed2)
    {
      hide Mix, Block, MixBlocks, InitialState, Represents;
      var end := u + (|fragment| - u) / BLOCK_SIZE * BLOCK_SIZE;
      var h := MixWhole(s, fragment[u..end]);
      ghost var total, before := message + fragment, |message|;
      assert (before + end) % BLOCK_SIZE == 0;
      LaterPart(message, fragment, u, end);
      JoinMixed(InitialState(seed1, seed2), total, before + u, before + end);
      RepresentsMixed(total, seed1, seed2, before + end);
      length := |fragment| + length;
      remainder := |fragment| - end;
      Stash(0, fragment[end..]);
      state := h;
      message := total;
    }

    /** common/SpookyV2.cpp:222-315. */
    method Update(fragment: seq<Byte8>)
      requires Valid()
      modifies this, data
      ensures Valid() && data == old(data)
      ensures message == old(message) + fragment && seed1 == old(seed1) && seed2 == old(seed2)
    {
      if |fragment| + remainder < BUF_SIZE {
        StashFragment(fragment);
      } else {
        var h, u := Resume(fragment);
        MixRest(fragment, h, u);
      }
    }

    /** common/SpookyV2.cpp:356-361: zeros behind the last bytes, and their number at the end. */
    method Pad(at: nat, left: nat)
      requires data.Length == BUF_SIZE && left < BLOCK_SIZE && at + BLOCK_SIZE <= BUF_SIZE
      modifies data
      ensures data[..at + left] == old(data[..at + left])
      ensures data[at..at + BLOCK_SIZE] == LastBlock(old(data[at..at + left]))
    {
      ghost var last := data[at..at + left];
      for k := left to BLOCK_SIZE
        invariant data[..at + left] == old(data[..at + left])
        invariant forall i :: at + left <= i < at + k ==> data[i] == 0
      {
        data[at + k] := 0;
      }
      data[at + BLOCK_SIZE - 1] := left as Byte8;
      ghost var block := LastBlock(last);
      forall j | 0 <= j < BLOCK_SIZE ensures data[at + j] == block[j] {
        if j < left {
          assert data[..at + left][at + j] == old(data[..at + left])[at + j];
        }
      }
      assert data[at..at + BLOCK_SIZE] == block;
    }

    /** common/SpookyV2.cpp:320-370.  The buffer behind the stash is written over, which no
        later call reads. */
    method Final() returns (hash: Hash)
      requires Valid()
      modifies data
      ensures hash == Hash128(message, seed1, seed2)
      ensures Valid()
    {
      hide Mix, Block, End, Short, LastBlock, Represents;
      if length < BUF_SIZE {
        ShortStash(message, seed1, seed2, state, data[..remainder]);
        hash := ShortAtOnce(data[..length], state[0], state[1]);
        return;
      }
      FinishStash(message, seed1, seed2, state, data[..remainder]);
      var h, at, left := state, 0, remainder;
      if left >= BLOCK_SIZE {
        h := Mix(Block(data[..BLOCK_SIZE]), h);
        assert data[..BLOCK_SIZE] == data[..remainder][..BLOCK_SIZE];
        at := BLOCK_SIZE;
        left := left - BLOCK_SIZE;
      }
      assert data[at..at + left] == data[..remainder][at..];
      Pad(at, left);
      var t := End(Block(data[at..at + BLOCK_SIZE]), h);
      return Hash(t[0], t[1]);
    }
  }

  lemma ShortStash(message: seq<Byte8>, seed1: Word, seed2: Word, state: State, stash: seq<Byte8>)
    requires Represents(message, seed1, seed2, state, stash) && |message| < BUF_SIZE
    ensures stash == message && Hash128(message, seed1, seed2) == Short(stash, state[0], state[1])
  {
    hide Short;
  }

  /** A long message is finished from its mixed state: a whole block of the stash is mixed in
      and the rest of the stash is the last block. */
  lemma FinishStash(message: seq<Byte8>, seed1: Word, seed2: Word, state: State, stash: seq<Byte8>)
    requires Represents(message, seed1, seed2, state, stash) && |message| >= BUF_SIZE && |stash| < BUF_SIZE
    ensures |stash| < BLOCK_SIZE ==> Hash128(message, seed1, seed2) == Finish(state, stash)
    ensures |stash| >= BLOCK_SIZE ==>
              Hash128(message, seed1, seed2) == Finish(Mix(Block(stash[..BLOCK_SIZE]), state), stash[BLOCK_SIZE..])
  {
    hide Mix, Block, MixBlocks, InitialState, Finish;
    var mixed := |message| - |stash|;
    var blocks := |message| / BLOCK_SIZE * BLOCK_SIZE;
    if |stash| < BLOCK_SIZE {
      assert mixed == blocks;
    } else {
      assert mixed + BLOCK_SIZE == blocks;
      assert stash[..BLOCK_SIZE] == message[mixed..blocks] && stash[BLOCK_SIZE..] == message[blocks..];
      OneBlock(state, stash[..BLOCK_SIZE]);
      JoinMixed(InitialState(seed1, seed2), message, mixed, blocks);
    }
  }

  lemma OneBlock(s: State, m: seq<Byte8>)
    requires |m| == BLOCK_SIZE
    ensures MixBlocks(s, m) == Mix(Block(m), s)
  {
    hide Mix, Block;
    assert m[..BLOCK_SIZE] == m && m[BLOCK_SIZE..] == [];
    NothingMixed(Mix(Block(m), s));
  }

  lemma NothingMixed(s: State)
    ensures MixBlocks(s, []) == s
  {
  }

  lemma TwoBlocks(s: State, m: seq<Byte8>)
    requires |m| == BUF_SIZE
    ensures MixBlocks(s, m) == Mix(Block(m[BLOCK_SIZE..]), Mix(Block(m[..BLOCK_SIZE]), s))
  {
    hide Mix, Block;
    var rest := m[BLOCK_SIZE..];
    var t := Mix(Block(m[..BLOCK_SIZE]), s);
    assert MixBlocks(s, m) == MixBlocks(t, rest);
    assert rest[..BLOCK_SIZE] == rest && rest[BLOCK_SIZE..] == [];
    assert MixBlocks(t, rest) == MixBlocks(Mix(Block(rest), t), []);
  }

  lemma LaterPart(message: seq<Byte8>, fragment: seq<Byte8>, i: nat, j: nat)
    requires i <= j <= |fragment|
    ensures (message + fragment)[|message| + i..|message| + j] == fragment[i..j]
    ensures (message + fragment)[|message| + j..] == fragment[j..]
  {
  }

  lemma StashIsNext(message: seq<Byte8>, fragment: seq<Byte8>, stashed: nat, prefix: nat)
    requires stashed <= |message| && prefix <= |fragment|
    ensures message[|message| - stashed..] + fragment[..prefix] ==
            (message + fragment)[|message| - stashed..|message| + prefix]
  {
  }

  lemma JoinMixed(s: State, m: seq<Byte8>, i: nat, j: nat)
    requires i <= j <= |m| && i % BLOCK_SIZE == 0 && j % BLOCK_SIZE == 0
    ensures MixBlocks(MixBlocks(s, m[..i]), m[i..j]) == MixBlocks(s, m[..j])
  {
    hide MixBlocks;
    assert m[..j] == m[..i] + m[i..j];
    MixBlocksAppend(s, m[..i], m[i..j]);
  }

  function Concat(fragments: seq<seq<Byte8>>): seq<Byte8> {
    if fragments == [] then [] else Concat(fragments[..|fragments| - 1]) + fragments[|fragments| - 1]
  }

  lemma ConcatMore(fragments: seq<seq<Byte8>>, n: nat)
    requires n < |fragments|
    ensures Concat(fragments[..n + 1]) == Concat(fragments[..n]) + fragments[n]
  {
    assert fragments[..n + 1][..n] == fragments[..n];
  }

  /** Any cut of a message into fragments, with Final called after any of them: each of those
      calls gives the hash of what came before, and none changes a later one.  What the object
      hashed before it was initialized makes no difference. */
  method HashFragments(earlier: seq<seq<Byte8>>, seed0: Word, fragments: seq<seq<Byte8>>, peek: set<nat>, seed1: Word,
                       seed2: Word)
    returns (hash: Hash, peeked: map<nat, Hash>)
    ensures hash == Hash128(Concat(fragments), seed1, seed2)
    ensures forall i: nat :: i in peeked <==> i < |fragments| && i in peek
    ensures forall i: nat :: i in peeked && i < |fragments| ==>
            peeked[i] == Hash128(Concat(fragments[..i + 1]), seed1, seed2)
  {
    hide Hash128, Represents;
    var spooky := UsedBefore(earlier, seed0);
    spooky.Init(seed1, seed2);
    peeked := map[];
    for n := 0 to |fragments|
      invariant spooky.Valid() && fresh(spooky) && fresh(spooky.data)
      invariant spooky.seed1 == seed1 && spooky.seed2 == seed2 && spooky.message == Concat(fragments[..n])
      invariant forall i: nat :: i in peeked <==> i < n && i in peek
      invariant forall i: nat :: i in peeked && i < |fragments| ==>
                peeked[i] == Hash128(Concat(fragments[..i + 1]), seed1, seed2)
    {
      ConcatMore(fragments, n);
      spooky.Update(fragments[n]);
      if n in peek {
        var early := spooky.Final();
        peeked := peeked[n := early];
      }
    }
    assert fragments[..|fragments|] == fragments;
    hash := spooky.Final();
  }

  /** An object that has hashed something else. */
  method UsedBefore(fragments: seq<seq<Byte8>>, seed: Word) returns (spooky: SpookyHash)
    ensures fresh(spooky) && fresh(spooky.data) && spooky.Valid()
  {
    hide Hash128, Represents;
    spooky := new SpookyHash(seed, seed);
    for n := 0 to |fragments|
      invariant spooky.Valid() && fresh(spooky) && fresh(spooky.data)
    {
      spooky.Update(fragments[n]);
    }
  }

  // ----- common/Png.hpp -----

  const PNG_SEED: Word := 1073741789

  /** The size of some rows of a picture with 4 bytes to the pixel. */
  function Bytes(rows: nat, width: nat): nat {
    rows * width * 4
  }

  function RowStart(startX: nat, y: nat, bufferWidth: nat): nat {
    y * bufferWidth * 4 + startX * 4
  }

  lemma RowInside(startX: nat, y: nat, width: nat, rows: nat, bufferWidth: nat)
    requires startX + width <= bufferWidth && y < rows
    ensures RowStart(startX, y, bufferWidth) + width * 4 <= Bytes(rows, bufferWidth)
    ensures Bytes(y, bufferWidth) <= Bytes(y + 1, bufferWidth) <= Bytes(rows, bufferWidth)
  {
    assert (y + 1) * bufferWidth <= rows * bufferWidth;
  }

  /** The first rows of a window of a picture, one after another. */
  function CutOut(pixmap: seq<Byte8>, startX: nat, startY: nat, width: nat, rows: nat, bufferWidth: nat)
    : (r: seq<Byte8>)
    requires startX + width <= bufferWidth && Bytes(startY + rows, bufferWidth) <= |pixmap|
    ensures |r| == Bytes(rows, width)
    decreases rows
  {
    if rows == 0 then []
    else
      RowInside(startX, startY + rows - 1, width, startY + rows, bufferWidth);
      var at := RowStart(startX, startY + rows - 1, bufferWidth);
      CutOut(pixmap, startX, startY, width, rows - 1, bufferWidth) + pixmap[at..at + width * 4]
  }

  /** Where each byte of the cut-out comes from. */
  lemma {:induction false} CutOutByte(pixmap: seq<Byte8>, startX: nat, startY: nat, width: nat, rows: nat,
                                      bufferWidth: nat, y: nat, x: nat)
    requires startX + width <= bufferWidth && Bytes(startY + rows, bufferWidth) <= |pixmap|
    requires y < rows && x < width * 4
    ensures RowStart(0, y, width) + x < Bytes(rows, width)
    ensures RowStart(startX, startY + y, bufferWidth) + x < |pixmap|
    ensures CutOut(pixmap, startX, startY, width, rows, bufferWidth)[RowStart(0, y, width) + x] ==
            pixmap[RowStart(startX, startY + y, bufferWidth) + x]
    decreases rows
  {
    RowInside(0, y, width, rows, width);
    RowInside(startX, startY + y, width, startY + rows, bufferWidth);
    RowInside(startX, startY + rows - 1, width, startY + rows, bufferWidth);
    LastRow(pixmap, startX, startY, width, rows, bufferWidth);
    hide Bytes, CutOut;
    if y < rows - 1 {
      RowInside(0, y, width, rows - 1, width);
      hide RowStart;
      CutOutByte(pixmap, startX, startY, width, rows - 1, bufferWidth, y, x);
    }
  }

  lemma LastRow(pixmap: seq<Byte8>, startX: nat, startY: nat, width: nat, rows: nat, bufferWidth: nat)
    requires startX + width <= bufferWidth && Bytes(startY + rows, bufferWidth) <= |pixmap| && rows > 0
    ensures Bytes(startY + rows - 1, bufferWidth) <= |pixmap| && Bytes(rows - 1, width) == RowStart(0, rows - 1, width)
    ensures var at := RowStart(startX, startY + rows - 1, bufferWidth);
            at + width * 4 <= |pixmap| &&
            CutOut(pixmap, startX, startY, width, rows, bufferWidth) ==
            CutOut(pixmap, startX, startY, width, rows - 1, bufferWidth) + pixmap[at..at + width * 4]
  {
    RowInside(startX, startY + rows - 1, width, startY + rows, bufferWidth);
  }

  /** common/Png.hpp:223-227. */
  method HashBuffer(pixmap: seq<Byte8>, width: nat, height: nat) returns (hash: Word)
    requires Bytes(height, width) <= |pixmap|
    ensures hash == Hash64(pixmap[..Bytes(height, width)], PNG_SEED)
  {
    var both := HashAtOnce(pixmap[..width * height * 4], PNG_SEED, PNG_SEED);
    hash := both.hash1;
  }

  /** common/Png.hpp:229-249: the window hashed row by row is hashed as if it were cut out. */
  method HashSubBuffer(pixmap: seq<Byte8>, startX: nat, startY: nat, width: nat, height: nat, bufferWidth: nat,
                       bufferHeight: nat)
    returns (hash: Word)
    requires Bytes(bufferHeight, bufferWidth) <= |pixmap|
    requires width <= bufferWidth && height <= bufferHeight ==>
             startX + width <= bufferWidth && startY + height <= bufferHeight
    ensures bufferWidth < width || bufferHeight < height ==> hash == 0
    ensures width <= bufferWidth && height <= bufferHeight ==>
              Bytes(startY + height, bufferWidth) <= |pixmap| &&
              hash == Hash64(CutOut(pixmap, startX, startY, width, height, bufferWidth), PNG_SEED)
  {
    hide Hash128, Represents, Bytes, RowStart;
    if bufferWidth < width || bufferHeight < height {
      return 0;
    }
    BytesGrow(startY + height, bufferHeight, bufferWidth);
    BytesGrow(startY, startY + height, bufferWidth);
    var spooky := new SpookyHash(PNG_SEED, PNG_SEED);
    for y := 0 to height
      invariant Bytes(startY + y, bufferWidth) <= |pixmap|
      invariant spooky.Valid() && fresh(spooky) && fresh(spooky.data)
      invariant spooky.seed1 == PNG_SEED && spooky.seed2 == PNG_SEED
      invariant spooky.message == CutOut(pixmap, startX, startY, width, y, bufferWidth)
    {
      RowInside(startX, startY + y, width, startY + height, bufferWidth);
      var position := RowStart(startX, startY + y, bufferWidth);
      spooky.Update(pixmap[position..position + width * 4]);
    }
    var both := spooky.Final();
    hash := both.hash1;
  }

  lemma BytesGrow(rows: nat, allRows: nat, width: nat)
    requires rows <= allRows
    ensures Bytes(rows, width) <= Bytes(allRows, width)
  {
    assert rows * width <= allRows * width;
  }

  /** Byte i of a picture as a row and a place in it. */
  lemma {:induction false} ByteAt(i: nat, width: nat, height: nat) returns (y: nat, x: nat)
    requires i < Bytes(height, width)
    ensures y < height && x < width * 4 && RowStart(0, y, width) + x == i
    decreases height
  {
    assert height > 0 && Bytes(height, width) == Bytes(height - 1, width) + width * 4;
    if i < Bytes(height - 1, width) {
      y, x := ByteAt(i, width, height - 1);
    } else {
      y, x := height - 1, i - Bytes(height - 1, width);
    }
  }

  /** A byte of a picture is that of the window of another. */
  predicate SameByte(alone: seq<Byte8>, pixmap: seq<Byte8>, startX: nat, startY: nat, width: nat, bufferWidth: nat,
                     y: nat, x: nat) {
    && RowStart(0, y, width) + x < |alone| && RowStart(startX, startY + y, bufferWidth) + x < |pixmap|
    && alone[RowStart(0, y, width) + x] == pixmap[RowStart(startX, startY + y, bufferWidth) + x]
  }

  /** Every pixel of one picture is that of the window of another. */
  ghost predicate ShowsWindow(alone: seq<Byte8>, pixmap: seq<Byte8>, startX: nat, startY: nat, width: nat, height: nat,
                              bufferWidth: nat)
    requires startX + width <= bufferWidth && Bytes(startY + height, bufferWidth) <= |pixmap|
    requires |alone| == Bytes(height, width)
  {
    forall y: nat, x: nat :: y < height && x < width * 4 ==>
      SameByte(alone, pixmap, startX, startY, width, bufferWidth, y, x)
  }

  lemma ShowsCutOut(alone: seq<Byte8>, pixmap: seq<Byte8>, startX: nat, startY: nat, width: nat, height: nat,
                    bufferWidth: nat)
    requires startX + width <= bufferWidth && Bytes(startY + height, bufferWidth) <= |pixmap|
    requires |alone| == Bytes(height, width) && ShowsWindow(alone, pixmap, startX, startY, width, height, bufferWidth)
    ensures alone == CutOut(pixmap, startX, startY, width, height, bufferWidth)
  {
    var cut := CutOut(pixmap, startX, startY, width, height, bufferWidth);
    hide CutOut, RowStart, Bytes;
    forall i | 0 <= i < |alone| ensures alone[i] == cut[i] {
      var y, x := ByteAt(i, width, height);
      CutOutByte(pixmap, startX, startY, width, height, bufferWidth, y, x);
      assert SameByte(alone, pixmap, startX, startY, width, bufferWidth, y, x);
    }
  }

  /** A tile rendered alone and the same tile inside a combined picture hash to the same. */
  method HashAloneAndCombined(alone: seq<Byte8>, pixmap: seq<Byte8>, startX: nat, startY: nat, width: nat, height: nat,
                              bufferWidth: nat, bufferHeight: nat)
    returns (single: Word, combined: Word)
    requires |pixmap| == Bytes(bufferHeight, bufferWidth) && |alone| == Bytes(height, width)
    requires startX + width <= bufferWidth && startY + height <= bufferHeight
    requires Bytes(startY + height, bufferWidth) <= |pixmap|
    requires ShowsWindow(alone, pixmap, startX, startY, width, height, bufferWidth)
    ensures single == combined
  {
    hide Hash128, CutOut, RowStart, Bytes;
    single := HashBuffer(alone, width, height);
    combined := HashSubBuffer(pixmap, startX, startY, width, height, bufferWidth, bufferHeight);
    ShowsCutOut(alone, pixmap, startX, startY, width, height, bufferWidth);
    assert alone[..|alone|] == alone;
  }
}
