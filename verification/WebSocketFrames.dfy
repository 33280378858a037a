/** The frame layer of RFC 6455 section 5.2 as net/WebSocketHandler.hpp prints and parses it. */
module WebSocketFrames {
  import opened Basics

  // ----- masking: RFC 6455 section 5.3 -----

  function Pow2(bits: nat): nat {
    if bits == 0 then 1 else 2 * Pow2(bits - 1)
  }

  /** Exclusive or of the low bits of two numbers. */
  function Xor(a: nat, b: nat, bits: nat): (r: nat)
    ensures r < Pow2(bits)
  {
    if bits == 0 then 0 else (if a % 2 == b % 2 then 0 else 1) + 2 * Xor(a / 2, b / 2, bits - 1)
  }

  lemma {:induction false} XorTwice(a: nat, b: nat, bits: nat)
    requires a < Pow2(bits)
    ensures Xor(Xor(a, b, bits), b, bits) == a
  {
    if bits > 0 {
      var rest := Xor(a / 2, b / 2, bits - 1);
      var x := Xor(a, b, bits);
      assert x == (if a % 2 == b % 2 then 0 else 1) + 2 * rest;
      assert x / 2 == rest;
      XorTwice(a / 2, b / 2, bits - 1);
    }
  }

  /** Bit k of a number. */
  function Bit(n: nat, k: nat): (r: nat)
    ensures r < 2
  {
    if k == 0 then n % 2 else Bit(n / 2, k - 1)
  }

  lemma {:induction false} XorBit(a: nat, b: nat, bits: nat, k: nat)
    requires k < bits
    ensures Bit(Xor(a, b, bits), k) == 1 <==> Bit(a, k) != Bit(b, k)
  {
    var rest := Xor(a / 2, b / 2, bits - 1);
    assert Xor(a, b, bits) / 2 == rest;
    if k > 0 {
      XorBit(a / 2, b / 2, bits - 1, k - 1);
    } else {
      assert a % 2 < 2 && b % 2 < 2;
    }
  }

  /** A number is known by its bits. */
  lemma {:induction false} SameBits(a: nat, b: nat, bits: nat)
    requires a < Pow2(bits) && b < Pow2(bits) && forall k :: 0 <= k < bits ==> (Bit(a, k) == 1 <==> Bit(b, k) == 1)
    ensures a == b
  {
    if bits > 0 {
      forall k | 0 <= k < bits - 1 ensures Bit(a / 2, k) == 1 <==> Bit(b / 2, k) == 1 {
        assert Bit(a, k + 1) == Bit(a / 2, k) && Bit(b, k + 1) == Bit(b / 2, k);
      }
      SameBits(a / 2, b / 2, bits - 1);
      assert Bit(a, 0) == a % 2 && Bit(b, 0) == b % 2;
    }
  }

  lemma ByteIsEightBits()
    ensures Pow2(8) == 256
  {
    assert Pow2(2) == 4 && Pow2(4) == 16 && Pow2(6) == 64;
  }

  function XorByte(a: Byte, b: Byte): Byte {
    ByteIsEightBits();
    Xor(a, b, 8)
  }

  lemma XorByteTwice(a: Byte, b: Byte)
    ensures XorByte(XorByte(a, b), b) == a
  {
    ByteIsEightBits();
    XorTwice(a, b, 8);
  }

  type Mask = m: seq<Byte> | |m| == 4 witness [0, 0, 0, 0]

  function Masked(data: seq<Byte>, mask: Mask): (r: seq<Byte>)
    ensures |r| == |data|
    ensures forall i :: 0 <= i < |data| ==> r[i] == XorByte(data[i], mask[i % 4])
  {
    seq(|data|, i requires 0 <= i < |data| => XorByte(data[i], mask[i % 4]))
  }

  lemma MaskedTwice(data: seq<Byte>, mask: Mask)
    ensures Masked(Masked(data, mask), mask) == data
  {
    forall i | 0 <= i < |data| ensures Masked(Masked(data, mask), mask)[i] == data[i] {
      XorByteTwice(data[i], mask[i % 4]);
    }
  }

  /** Byte by byte the exclusive or of data and the bytes of a key in turn: a bit is 1 exactly
      where the two bits differ. */
  ghost predicate ExclusiveOr(out: seq<Byte>, data: seq<Byte>, mask: Mask) {
    |out| == |data| && forall i :: 0 <= i < |data| ==> DifferingBits(out[i], data[i], mask[i % 4])
  }

  ghost predicate DifferingBits(x: Byte, a: Byte, b: Byte) {
    forall k :: 0 <= k < 8 ==> (Bit(x, k) == 1 <==> Bit(a, k) != Bit(b, k))
  }

  /** There is just one byte of these bits. */
  lemma XorByteBits(x: Byte, a: Byte, b: Byte)
    ensures x == XorByte(a, b) <==> DifferingBits(x, a, b)
  {
    hide Bit, Xor;
    ByteIsEightBits();
    forall k | 0 <= k < 8 ensures Bit(XorByte(a, b), k) == 1 <==> Bit(a, k) != Bit(b, k) {
      XorBit(a, b, 8, k);
    }
    if DifferingBits(x, a, b) {
      SameBits(x, XorByte(a, b), 8);
    }
  }

  /** Masking is that exclusive or, and nothing else is. */
  lemma MaskedBits(out: seq<Byte>, data: seq<Byte>, mask: Mask)
    ensures out == Masked(data, mask) <==> ExclusiveOr(out, data, mask)
  {
    hide XorByte, DifferingBits;
    forall i | 0 <= i < |data| && i < |out|
      ensures out[i] == XorByte(data[i], mask[i % 4]) <==> DifferingBits(out[i], data[i], mask[i % 4])
    {
      XorByteBits(out[i], data[i], mask[i % 4]);
    }
  }

  /** A key of zeros leaves data as it is. */
  lemma ZeroKey(data: seq<Byte>)
    ensures Masked(data, [0, 0, 0, 0]) == data
  {
    hide XorByte, Masked;
    forall i | 0 <= i < |data| ensures DifferingBits(data[i], data[i], 0) {
      hide Bit;
      forall k | 0 <= k < 8 ensures Bit(data[i], k) == 1 <==> Bit(data[i], k) != Bit(0, k) {
        ZeroBit(k);
      }
    }
    MaskedBits(data, data, [0, 0, 0, 0]);
  }

  lemma {:induction false} ZeroBit(k: nat)
    ensures Bit(0, k) == 0
  {
    if k > 0 {
      ZeroBit(k - 1);
    }
  }

  // ----- lengths in network order -----

  function BigEndian(n: nat, bytes: nat): (r: seq<Byte>)
    ensures |r| == bytes
  {
    if bytes == 0 then [] else BigEndian(n / 256, bytes - 1) + [n % 256]
  }

  function FromBigEndian(b: seq<Byte>): nat {
    if b == [] then 0 else FromBigEndian(b[..|b| - 1]) * 256 + b[|b| - 1]
  }

  function Pow256(bytes: nat): nat {
    if bytes == 0 then 1 else 256 * Pow256(bytes - 1)
  }

  lemma {:induction false} BigEndianRoundTrip(n: nat, bytes: nat)
    requires n < Pow256(bytes)
    ensures FromBigEndian(BigEndian(n, bytes)) == n
  {
    if bytes > 0 {
      assert Pow256(bytes) == 256 * Pow256(bytes - 1);
      assert BigEndian(n, bytes) == BigEndian(n / 256, bytes - 1) + [n % 256];
      hide FromBigEndian, BigEndian, Pow256;
      LastDigit(n, Pow256(bytes - 1));
      BigEndianRoundTrip(n / 256, bytes - 1);
      FromBigEndianMore(BigEndian(n / 256, bytes - 1), n % 256);
    }
  }

  lemma LastDigit(n: nat, limit: nat)
    requires n < 256 * limit
    ensures n / 256 < limit && n == n / 256 * 256 + n % 256
  {
  }

  lemma FromBigEndianMore(b: seq<Byte>, last: Byte)
    ensures FromBigEndian(b + [last]) == FromBigEndian(b) * 256 + last
  {
    assert (b + [last])[..|b|] == b;
  }

  /** Lengths stay below 2 to the 63 (RFC 6455 section 5.2). */
  const LENGTH_LIMIT: nat := 0x8000_0000_0000_0000

  lemma LengthFits(n: nat)
    requires n < LENGTH_LIMIT
    ensures n < Pow256(8)
    ensures n <= 0xffff ==> n < Pow256(2)
  {
    assert Pow256(2) == 0x1_0000;
    assert Pow256(4) == 0x1_0000_0000;
    assert Pow256(6) == 0x1_0000_0000_0000;
  }

  // ----- frames -----

  datatype Frame = Frame(fin: bool, code: nat, mask: Option<Mask>, payload: seq<Byte>)
  {
    predicate Valid() {
      code < 16 && |payload| < LENGTH_LIMIT
    }
  }

  function LengthBytes(n: nat, flag: Byte): (r: seq<Byte>)
    requires n < LENGTH_LIMIT && (flag == 0 || flag == 128)
    ensures |r| >= 1
  {
    if n < 126 then [n + flag]
    else if n <= 0xffff then [126 + flag] + BigEndian(n, 2)
    else [127 + flag] + BigEndian(n, 8)
  }

  function Header(f: Frame): (r: seq<Byte>)
    requires f.Valid()
    ensures |r| >= 2
  {
    [(if f.fin then 128 else 0) + f.code] +
    LengthBytes(|f.payload|, if f.mask.Some? then 128 else 0) +
    (if f.mask.Some? then f.mask.value else [])
  }

  function Body(f: Frame): (r: seq<Byte>)
    ensures |r| == |f.payload|
  {
    if f.mask.Some? then Masked(f.payload, f.mask.value) else f.payload
  }

  function Encode(f: Frame): (r: seq<Byte>)
    requires f.Valid()
    ensures |r| >= 2
  {
    Header(f) + Body(f)
  }

  /** The payload length field: the length and the number of bytes up to its end, or None
      when the field is not complete. */
  function ParseLength(buf: seq<Byte>): (r: Option<(nat, nat)>)
    requires |buf| >= 2
    ensures r.Some? ==> 2 <= r.value.1 <= |buf|
  {
    var n := buf[1] % 128;
    if n == 126 then
      if |buf| < 4 then None else Some((FromBigEndian(buf[2..4]), 4))
    else if n == 127 then
      if |buf| < 10 then None else Some((FromBigEndian(buf[2..10]), 10))
    else Some((n, 2))
  }

  function MaskAt(buf: seq<Byte>, at: nat): Mask
    requires at + 4 <= |buf|
  {
    buf[at..at + 4]
  }

  /** The frame behind a length that ends somewhere in a buffer. */
  function FrameAt(buf: seq<Byte>, hasMask: bool, n: nat, lengthEnd: nat): (r: Option<(Frame, nat)>)
    requires 2 <= lengthEnd <= |buf|
    ensures r.Some? ==> 2 <= r.value.1 <= |buf|
  {
    var headerLen := if hasMask then lengthEnd + 4 else lengthEnd;
    if n + headerLen > |buf| then None
    else
      var body := buf[headerLen..headerLen + n];
      if hasMask then
        var mask := MaskAt(buf, lengthEnd);
        Some((Frame(buf[0] >= 128, buf[0] % 16, Some(mask), Masked(body, mask)), headerLen + n))
      else
        Some((Frame(buf[0] >= 128, buf[0] % 16, None, body), headerLen + n))
  }

  /** The first frame of a buffer and its size, or None when it is not complete. */
  function ParseFrame(buf: seq<Byte>): (r: Option<(Frame, nat)>)
    ensures r.Some? ==> 2 <= r.value.1 <= |buf|
  {
    if |buf| < 2 then None
    else match ParseLength(buf)
         case None => None
         case Some((n, lengthEnd)) => FrameAt(buf, buf[1] >= 128, n, lengthEnd)
  }

  lemma FieldAt(first: Byte, second: Byte, field: seq<Byte>, rest: seq<Byte>)
    ensures var buf := [first] + ([second] + field) + rest;
            |buf| >= 2 + |field| && buf[0] == first && buf[1] == second && buf[2..2 + |field|] == field
  {
  }

  lemma FieldParsed(first: Byte, second: Byte, field: seq<Byte>, rest: seq<Byte>)
    requires |field| == if second % 128 == 126 then 2 else if second % 128 == 127 then 8 else 0
    ensures var buf := [first] + ([second] + field) + rest;
            && buf[1] == second
            && ParseLength(buf) == Some((if field == [] then second % 128 else FromBigEndian(field), 2 + |field|))
  {
    hide FromBigEndian;
    FieldAt(first, second, field, rest);
  }

  lemma LengthRoundTrip(n: nat, flag: Byte, first: Byte, rest: seq<Byte>)
    requires n < LENGTH_LIMIT && (flag == 0 || flag == 128)
    ensures var buf := [first] + LengthBytes(n, flag) + rest;
            && (buf[1] >= 128 <==> flag == 128)
            && ParseLength(buf) == Some((n, 1 + |LengthBytes(n, flag)|))
  {
    hide BigEndian, FromBigEndian, Pow256, ParseLength;
    LengthFits(n);
    if n < 126 {
      assert [n + flag] + [] == [n + flag];
      FieldParsed(first, n + flag, [], rest);
    } else if n <= 0xffff {
      BigEndianRoundTrip(n, 2);
      FieldParsed(first, 126 + flag, BigEndian(n, 2), rest);
    } else {
      BigEndianRoundTrip(n, 8);
      FieldParsed(first, 127 + flag, BigEndian(n, 8), rest);
    }
  }

  /** The header up to and including the length, and the key. */
  function Prefix(f: Frame): seq<Byte>
    requires f.Valid()
  {
    [(if f.fin then 128 else 0) + f.code] + LengthBytes(|f.payload|, if f.mask.Some? then 128 else 0)
  }

  function Key(f: Frame): seq<Byte> {
    if f.mask.Some? then f.mask.value else []
  }

  lemma Pieces(f: Frame, rest: seq<Byte>)
    requires f.Valid()
    ensures var buf := Encode(f) + rest; var keyEnd := |Prefix(f)| + |Key(f)|;
            && buf == Prefix(f) + (Key(f) + Body(f) + rest)
            && |Encode(f)| == keyEnd + |f.payload|
            && buf[|Prefix(f)|..keyEnd] == Key(f)
            && buf[keyEnd..keyEnd + |f.payload|] == Body(f)
  {
    hide LengthBytes, Body;
    var buf := Encode(f) + rest;
    assert buf == Prefix(f) + (Key(f) + Body(f) + rest);
  }

  lemma FirstBytes(f: Frame, tail: seq<Byte>)
    requires f.Valid()
    ensures var buf := Prefix(f) + tail;
            && (buf[0] >= 128 <==> f.fin) && buf[0] % 16 == f.code
            && (buf[1] >= 128 <==> f.mask.Some?)
            && ParseLength(buf) == Some((|f.payload|, |Prefix(f)|))
  {
    hide LengthBytes, ParseLength;
    var flag: Byte := if f.mask.Some? then 128 else 0;
    LengthRoundTrip(|f.payload|, flag, (if f.fin then 128 else 0) + f.code, tail);
  }

  /** What is printed is read back, whatever follows it in the buffer. */
  lemma ParseEncode(f: Frame, rest: seq<Byte>)
    requires f.Valid()
    ensures ParseFrame(Encode(f) + rest) == Some((f, |Encode(f)|))
  {
    hide LengthBytes, ParseLength, FrameAt, Masked, Body, Encode, Prefix;
    FirstBytes(f, Key(f) + Body(f) + rest);
    Pieces(f, rest);
    BodyRoundTrip(f);
    FrameAtOf(Encode(f) + rest, f.mask, |f.payload|, |Prefix(f)|, |Prefix(f)| + |Key(f)|);
  }

  lemma ParsedByLength(buf: seq<Byte>)
    ensures |buf| < 2 ==> ParseFrame(buf) == None
    ensures |buf| >= 2 && ParseLength(buf).None? ==> ParseFrame(buf) == None
    ensures |buf| >= 2 && ParseLength(buf).Some? ==>
              var (n, lengthEnd) := ParseLength(buf).value;
              ParseFrame(buf) == FrameAt(buf, buf[1] >= 128, n, lengthEnd)
  {
    hide ParseLength, FrameAt;
  }

  lemma FrameAtFits(buf: seq<Byte>, hasMask: bool, n: nat, lengthEnd: nat)
    requires 2 <= lengthEnd <= |buf|
    ensures FrameAt(buf, hasMask, n, lengthEnd).Some? <==> n + (if hasMask then lengthEnd + 4 else lengthEnd) <= |buf|
  {
    hide Masked, MaskAt;
  }

  lemma FrameAtOf(buf: seq<Byte>, mask: Option<Mask>, n: nat, lengthEnd: nat, keyEnd: nat)
    requires 2 <= lengthEnd && keyEnd == (if mask.Some? then lengthEnd + 4 else lengthEnd) && keyEnd + n <= |buf|
    requires mask.Some? ==> mask.value == MaskAt(buf, lengthEnd)
    ensures var data := buf[keyEnd..keyEnd + n];
            var payload := if mask.Some? then Masked(data, mask.value) else data;
            FrameAt(buf, mask.Some?, n, lengthEnd) ==
            Some((Frame(buf[0] >= 128, buf[0] % 16, mask, payload), keyEnd + n))
  {
    hide Masked, MaskAt;
  }

  lemma BodyRoundTrip(f: Frame)
    ensures f.mask.Some? ==> Masked(Body(f), f.mask.value) == f.payload
    ensures f.mask.None? ==> Body(f) == f.payload
  {
    hide Masked;
    if f.mask.Some? {
      MaskedTwice(f.payload, f.mask.value);
    }
  }

  /** The payload that is read from any buffer, in its bits: what is in front of its end, under
      the key in front of that if there is one. */
  lemma PayloadRead(buf: seq<Byte>, f: Frame, size: nat)
    requires ParseFrame(buf) == Some((f, size))
    ensures |f.payload| + (if f.mask.Some? then 6 else 2) <= size <= |buf|
    ensures var data := buf[size - |f.payload|..size];
            if f.mask.Some? then
              && f.mask.value == buf[size - |f.payload| - 4..size - |f.payload|]
              && ExclusiveOr(f.payload, data, f.mask.value)
            else f.payload == data
  {
    hide ParseLength, Masked, ExclusiveOr;
    if f.mask.Some? {
      MaskedBits(f.payload, buf[size - |f.payload|..size], f.mask.value);
    }
  }

  /** A frame that is cut off anywhere is not taken for a frame. */
  lemma ParsePartial(f: Frame, cut: nat)
    requires f.Valid() && cut < |Encode(f)|
    ensures ParseFrame(Encode(f)[..cut]) == None
  {
    hide FromBigEndian, BigEndian, Body, Encode;
    if cut >= 2 {
      var whole := Prefix(f) + (Key(f) + Body(f) + []);
      Pieces(f, []);
      assert Encode(f) == whole;
      FirstBytes(f, Key(f) + Body(f) + []);
      var buf := whole[..cut];
      assert |buf| >= 4 ==> buf[2..4] == whole[2..4];
      assert |buf| >= 10 ==> buf[2..10] == whole[2..10];
      assert ParseLength(buf).Some? ==> ParseLength(buf) == ParseLength(whole);
    }
  }

  // ----- the sum of header and payload length in 64 bits -----

  const SIZE_RANGE: nat := 0x1_0000_0000_0000_0000

  /** The header the first bytes of a buffer announce. */
  function HeaderLength(buf: seq<Byte>): nat
    requires |buf| >= 2
  {
    (if buf[1] % 128 == 126 then 4 else if buf[1] % 128 == 127 then 10 else 2) + if buf[1] >= 128 then 4 else 0
  }

  /** The tests of net/WebSocketHandler.hpp:172-221 in the arithmetic of size_t. */
  predicate TakenAsComplete(buf: seq<Byte>) {
    |buf| >= 2 && ParseLength(buf).Some? && (ParseLength(buf).value.0 + HeaderLength(buf)) % SIZE_RANGE <= |buf|
  }

  /** A length of eight bytes so near to 2 to the 64 that the header takes it past it. */
  predicate WrapsAround(buf: seq<Byte>) {
    && |buf| >= 10 && buf[1] % 128 == 127
    && SIZE_RANGE <= FromBigEndian(buf[2..10]) + HeaderLength(buf) <= SIZE_RANGE + |buf|
  }

  lemma {:induction false} BelowPow256(b: seq<Byte>)
    ensures FromBigEndian(b) < Pow256(|b|)
  {
    if b != [] {
      BelowPow256(b[..|b| - 1]);
    }
  }

  lemma LengthBelow(buf: seq<Byte>)
    requires |buf| >= 2 && ParseLength(buf).Some?
    ensures ParseLength(buf).value.0 < if buf[1] % 128 == 127 then SIZE_RANGE else 0x1_0000
  {
    assert Pow256(2) == 0x1_0000 && Pow256(4) == 0x1_0000_0000 && Pow256(6) == 0x1_0000_0000_0000;
    assert Pow256(8) == SIZE_RANGE;
    var n := buf[1] % 128;
    if n == 126 {
      BelowPow256(buf[2..4]);
    } else if n == 127 {
      BelowPow256(buf[2..10]);
    }
  }

  lemma SumModulo(n: nat, header: nat)
    requires n < SIZE_RANGE && header <= 14
    ensures (n + header) % SIZE_RANGE == if n + header < SIZE_RANGE then n + header else n + header - SIZE_RANGE
  {
  }

  lemma CompleteBySum(buf: seq<Byte>)
    ensures ParseFrame(buf).Some? <==>
              |buf| >= 2 && ParseLength(buf).Some? && ParseLength(buf).value.0 + HeaderLength(buf) <= |buf|
  {
    hide FromBigEndian, Masked;
  }

  /** The code takes for complete the complete frames and those whose length wraps around. */
  lemma TakenAsCompleteIff(buf: seq<Byte>)
    requires |buf| < SIZE_RANGE
    ensures TakenAsComplete(buf) <==> ParseFrame(buf).Some? || WrapsAround(buf)
    ensures WrapsAround(buf) ==> ParseFrame(buf).None?
  {
    hide ParseFrame, FromBigEndian;
    CompleteBySum(buf);
    if |buf| >= 2 && ParseLength(buf).Some? {
      LengthBelow(buf);
      SumModulo(ParseLength(buf).value.0, HeaderLength(buf));
    }
  }

  /** No part of what begins with a printed frame wraps around. */
  lemma PrintedNeverWraps(f: Frame, rest: seq<Byte>, cut: nat)
    requires f.Valid() && cut <= |Encode(f) + rest|
    ensures !WrapsAround((Encode(f) + rest)[..cut])
  {
    hide LengthBytes, Body, Encode, Prefix, Key, FromBigEndian;
    FirstBytes(f, Key(f) + Body(f) + rest);
    Pieces(f, rest);
    var whole := Encode(f) + rest;
    var buf := whole[..cut];
    if |buf| >= 10 {
      assert buf[2..10] == whole[2..10] && buf[1] == whole[1];
    }
  }

  /** The longest length there is wraps around. */
  lemma LongestWrapsAround(first: Byte, rest: seq<Byte>)
    requires |rest| < LENGTH_LIMIT
    ensures var buf := [first, 127] + seq(8, _ => 255) + rest;
            TakenAsComplete(buf) && ParseFrame(buf).None?
  {
    var length: seq<Byte> := seq(8, _ => 255);
    var buf: seq<Byte> := [first, 127] + length + rest;
    assert buf[2..10] == length;
    Longest(length);
    assert Pow256(2) == 0x1_0000 && Pow256(4) == 0x1_0000_0000 && Pow256(6) == 0x1_0000_0000_0000;
    TakenAsCompleteIff(buf);
    hide FromBigEndian, Masked, ParseFrame, ParseLength, TakenAsComplete;
  }

  lemma {:induction false} Longest(b: seq<Byte>)
    requires forall i :: 0 <= i < |b| ==> b[i] == 255
    ensures FromBigEndian(b) == Pow256(|b|) - 1
  {
    if b != [] {
      Longest(b[..|b| - 1]);
    }
  }
}
