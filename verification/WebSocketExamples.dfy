/** The examples of RFC 6455 section 5.7, byte for byte. */
module WebSocketExamples {
  import opened Basics
  import opened WebSocketFrames
  import opened WebSocket
  import opened WebSocketStream

  const HELLO: seq<Byte> := [0x48, 0x65, 0x6c, 0x6c, 0x6f]
  const KEY: Mask := [0x37, 0xfa, 0x21, 0x3d]
  const MASKED_HELLO: seq<Byte> := [0x7f, 0x9f, 0x4d, 0x51, 0x58]

  lemma MaskedH()
    ensures XorByte(0x48, 0x37) == 0x7f
  {
    hide Pow2;
    assert Xor(4, 3, 4) == 7;
  }

  lemma MaskedE()
    ensures XorByte(0x65, 0xfa) == 0x9f
  {
    hide Pow2;
    assert Xor(6, 15, 4) == 9;
  }

  lemma MaskedFirstL()
    ensures XorByte(0x6c, 0x21) == 0x4d
  {
    hide Pow2;
    assert Xor(6, 2, 4) == 4;
  }

  lemma MaskedSecondL()
    ensures XorByte(0x6c, 0x3d) == 0x51
  {
    hide Pow2;
    assert Xor(6, 3, 4) == 5;
  }

  lemma MaskedO()
    ensures XorByte(0x6f, 0x37) == 0x58
  {
    hide Pow2;
    assert Xor(6, 3, 4) == 5;
  }

  lemma MaskedHello()
    ensures Masked(HELLO, KEY) == MASKED_HELLO
  {
    MaskedH();
    MaskedE();
    MaskedFirstL();
    MaskedSecondL();
    MaskedO();
    hide XorByte;
  }

  /** Whole messages, a ping and its answer. */
  lemma WholeExamples()
    ensures Encode(Frame(true, 1, None, HELLO)) == [0x81, 0x05] + HELLO
    ensures Encode(Frame(true, 1, Some(KEY), HELLO)) == [0x81, 0x85] + KEY + MASKED_HELLO
    ensures Encode(Frame(true, CODE_PING, None, HELLO)) == [0x89, 0x05] + HELLO
    ensures Encode(Frame(true, CODE_PONG, Some(KEY), HELLO)) == [0x8a, 0x85] + KEY + MASKED_HELLO
  {
    MaskedHello();
    hide Masked;
  }

  /** A message in two fragments. */
  lemma FragmentExamples()
    ensures Encode(Frame(false, 1, None, HELLO[..3])) == [0x01, 0x03, 0x48, 0x65, 0x6c]
    ensures Encode(Frame(true, CODE_CONTINUATION, None, HELLO[3..])) == [0x80, 0x02, 0x6c, 0x6f]
  {
  }

  lemma TwoBytes()
    ensures BigEndian(256, 2) == [1, 0]
  {
  }

  lemma EightBytes()
    ensures BigEndian(65536, 8) == [0, 0, 0, 0, 0, 1, 0, 0]
  {
    assert BigEndian(0, 3) == [0, 0, 0];
    assert BigEndian(0, 5) == [0, 0, 0, 0, 0];
    assert BigEndian(256, 7) == [0, 0, 0, 0, 0, 1, 0];
  }

  /** Lengths of two bytes and of eight. */
  lemma LongExamples(data: seq<Byte>)
    ensures |data| == 256 ==> Encode(Frame(true, 2, None, data)) == [0x82, 0x7e, 0x01, 0x00] + data
    ensures |data| == 65536 ==>
              Encode(Frame(true, 2, None, data)) == [0x82, 0x7f, 0x00, 0x00, 0x00, 0x00, 0x00, 0x01, 0x00, 0x00] + data
  {
    hide BigEndian;
    TwoBytes();
    EightBytes();
  }

  /** What a server handles when a browser's masked message comes in, cut into reads anywhere. */
  lemma HelloHandled(c: Conn, arrivals: seq<seq<Byte>>)
    requires !c.role.isClient && !c.inFragmentBlock && c.input == [] && c.payload == []
    requires Concat(arrivals) == [0x81, 0x85] + KEY + MASKED_HELLO
    ensures PollAll(c, arrivals).handled == c.handled + [Message(true, 1, HELLO)]
  {
    hide Encode, PollAll, Concat;
    var f := Frame(true, 1, Some(KEY), HELLO);
    WholeExamples();
    EncodeCons(f, []);
    assert [f] + [] == [f] && EncodeAll([]) == [] && Encode(f) + [] == Encode(f);
    StreamReceived(c, [f], arrivals);
    StreamMeaning(c, [f]);
    assert [f][1..] == [] && DataFrames([]) == [] && DataFrames([f]) == [f];
    assert [] + HELLO == HELLO;
    assert Messages(c.role.manualDefrag, [f], []) == [Message(true, 1, HELLO)];
  }
}
