/** net/WebSocketHandler.hpp with the buffers and the consume loop of net/Socket.hpp, in the
    source's own steps; every method is tied to the functions of module WebSocket. */
module WebSocketHandlers {
  import opened Basics
  import opened WebSocketFrames
  import opened WebSocket

  class StreamSocket {
    var inBuffer: seq<Byte>
    var outBuffer: seq<Byte>
    var closed: bool
    var webSocket: bool
    var connectionShut: bool
    var shutdownSignalled: bool

    constructor (webSocket: bool)
      ensures inBuffer == [] && outBuffer == [] && !closed && !connectionShut && !shutdownSignalled
      ensures this.webSocket == webSocket
    {
      inBuffer, outBuffer, closed, connectionShut, shutdownSignalled := [], [], false, false, false;
      this.webSocket := webSocket;
    }
  }

  lemma LongLengthBytes(n: nat)
    requires n < LENGTH_LIMIT
    ensures BigEndian(n, 8) ==
            [n / 0x100_0000_0000_0000 % 256, n / 0x1_0000_0000_0000 % 256,
             n / 0x100_0000_0000 % 256, n / 0x1_0000_0000 % 256,
             n / 0x100_0000 % 256, n / 0x1_0000 % 256, n / 0x100 % 256, n % 256]
  {
    var n1 := n / 256; var n2 := n1 / 256; var n3 := n2 / 256; var n4 := n3 / 256;
    var n5 := n4 / 256; var n6 := n5 / 256; var n7 := n6 / 256;
    assert n2 == n / 0x1_0000 && n3 == n / 0x100_0000 && n4 == n / 0x1_0000_0000;
    assert n5 == n / 0x100_0000_0000 && n6 == n / 0x1_0000_0000_0000 && n7 == n / 0x100_0000_0000_0000;
    BigEndianTail(n, 8);
    BigEndianTail(n1, 7);
    BigEndianTail(n2, 6);
    BigEndianTail(n3, 5);
    BigEndianTail(n4, 4);
    BigEndianTail(n5, 3);
    BigEndianTail(n6, 2);
    BigEndianTail(n7, 1);
  }

  lemma ShortLengthBytes(n: nat)
    ensures BigEndian(n, 2) == [n / 0x100 % 256, n % 256]
  {
    BigEndianTail(n, 2);
    BigEndianTail(n / 256, 1);
  }

  lemma BigEndianTail(n: nat, bytes: nat)
    requires bytes > 0
    ensures BigEndian(n, bytes) == BigEndian(n / 256, bytes - 1) + [n % 256]
  {
  }

  /** The two- and eight-byte length fields, read byte by byte. */
  function Length2(p: seq<Byte>): nat
    requires |p| >= 4
  {
    p[2] as int * 0x100 + p[3] as int
  }

  function Length8(p: seq<Byte>): nat
    requires |p| >= 10
  {
    p[9] as int + p[8] as int * 0x100 + p[7] as int * 0x1_0000 + p[6] as int * 0x100_0000 +
    p[5] as int * 0x1_0000_0000 + p[4] as int * 0x100_0000_0000 +
    p[3] as int * 0x1_0000_0000_0000 + p[2] as int * 0x100_0000_0000_0000
  }

  lemma FromBigEndianLast(p: seq<Byte>, i: nat, j: nat)
    requires i < j <= |p|
    ensures FromBigEndian(p[i..j]) == FromBigEndian(p[i..j - 1]) * 256 + p[j - 1]
  {
    assert p[i..j][..j - i - 1] == p[i..j - 1];
  }

  lemma LengthsRead(p: seq<Byte>)
    requires |p| >= 4
    ensures Length2(p) == FromBigEndian(p[2..4])
    ensures |p| >= 10 ==> Length8(p) == FromBigEndian(p[2..10])
  {
    hide FromBigEndian;
    NoBytes();
    FromBigEndianLast(p, 2, 3);
    FromBigEndianLast(p, 2, 4);
    if |p| >= 10 {
      FromBigEndianLast(p, 2, 5);
      FromBigEndianLast(p, 2, 6);
      FromBigEndianLast(p, 2, 7);
      FromBigEndianLast(p, 2, 8);
      FromBigEndianLast(p, 2, 9);
      FromBigEndianLast(p, 2, 10);
    }
    assert p[2..2] == [];
  }

  lemma NoBytes()
    ensures FromBigEndian([]) == 0
  {
  }

  lemma FrameBytes(before: seq<Byte>, f: Frame)
    requires f.Valid() && f.fin
    ensures var start := before + [128 + f.code] + LengthBytes(|f.payload|, if f.mask.Some? then 128 else 0);
            && (f.mask.Some? ==> before + Encode(f) == start + f.mask.value + Masked(f.payload, f.mask.value))
            && (f.mask.None? ==> before + Encode(f) == start + f.payload)
  {
    hide LengthBytes, Masked;
    var lengthBytes := LengthBytes(|f.payload|, if f.mask.Some? then 128 else 0);
    var start := [(128 + f.code) as Byte];
    if f.mask.Some? {
      Reassociate(before, start, lengthBytes, f.mask.value, Masked(f.payload, f.mask.value));
    } else {
      Reassociate(before, start, lengthBytes, [], f.payload);
      assert before + start + lengthBytes + [] == before + start + lengthBytes;
    }
  }

  lemma Reassociate(a: seq<Byte>, b: seq<Byte>, c: seq<Byte>, d: seq<Byte>, e: seq<Byte>)
    ensures a + (b + c + d + e) == a + b + c + d + e
  {
  }

  class WebSocketHandler {
    const socket: StreamSocket
    const isClient: bool
    const isMasking: bool
    const isManualDefrag: bool
    /** What the HTTP library makes of a response; see Role. */
    const response: seq<Byte> -> Option<nat>
    var wsPayload: seq<Byte>
    var shuttingDown: bool
    var inFragmentBlock: bool
    /** The calls of the virtual handleMessage. */
    var handled: seq<Message>

    ghost function View(): Conn
      reads this, socket
    {
      Conn(Role(isClient, isMasking, isManualDefrag, socket.webSocket, socket.closed, response),
           inFragmentBlock, shuttingDown, socket.connectionShut, socket.shutdownSignalled,
           wsPayload, socket.inBuffer, socket.outBuffer, handled)
    }

    constructor (socket: StreamSocket, isClient: bool, isMasking: bool, isManualDefrag: bool,
                 response: seq<Byte> -> Option<nat>)
      ensures this.socket == socket && this.isClient == isClient && this.isManualDefrag == isManualDefrag
      ensures this.response == response
      ensures this.isMasking == (isClient && isMasking)
      ensures wsPayload == [] && !inFragmentBlock && !shuttingDown && handled == []
    {
      this.socket, this.isClient, this.isManualDefrag, this.response := socket, isClient, isManualDefrag, response;
      this.isMasking := isClient && isMasking;
      wsPayload, inFragmentBlock, shuttingDown, handled := [], false, false, [];
    }

    /** net/WebSocketHandler.hpp:532-555. */
    static method PushLength(before: seq<Byte>, len: nat, maskFlag: Byte) returns (out: seq<Byte>)
      requires len < LENGTH_LIMIT && (maskFlag == 0 || maskFlag == 128)
      ensures out == before + LengthBytes(len, maskFlag)
    {
      hide BigEndian;
      out := before;
      if len < 126 {
        out := out + [len + maskFlag];
      } else if len <= 0xffff {
        out := out + [126 + maskFlag];
        out := out + [len / 0x100 % 256];
        out := out + [len % 256];
        ShortLengthBytes(len);
      } else {
        out := out + [127 + maskFlag];
        out := PushEightBytes(out, len);
      }
    }

    /** net/WebSocketHandler.hpp:546-553. */
    static method PushEightBytes(before: seq<Byte>, len: nat) returns (out: seq<Byte>)
      requires len < LENGTH_LIMIT
      ensures out == before + BigEndian(len, 8)
    {
      hide BigEndian;
      LongLengthBytes(len);
      ghost var field := BigEndian(len, 8);
      out := before;
      out := out + [len / 0x100_0000_0000_0000 % 256];
      out := out + [len / 0x1_0000_0000_0000 % 256];
      out := out + [len / 0x100_0000_0000 % 256];
      out := out + [len / 0x1_0000_0000 % 256];
      assert out == before + field[..4];
      out := out + [len / 0x100_0000 % 256];
      out := out + [len / 0x1_0000 % 256];
      out := out + [len / 0x100 % 256];
      out := out + [len % 256];
    }

    /** net/WebSocketHandler.hpp:569-570: what follows the key at mask is masked in place. */
    static method MaskInPlace(before: seq<Byte>, mask: nat, ghost head: seq<Byte>, ghost key: Mask,
                              ghost data: seq<Byte>)
      returns (out: seq<Byte>)
      requires before == head + key + data && mask == |head|
      ensures out == head + key + Masked(data, key)
      ensures ExclusiveOr(out[mask + 4..], data, key)
    {
      MaskedBits(Masked(data, key), data, key);
      hide ExclusiveOr;
      hide XorByte, Masked;
      ghost var goal := head + key + Masked(data, key);
      out := before;
      var i := 4;
      while i < |out| - mask
        invariant 4 <= i <= 4 + |data| && |out| == |goal|
        invariant forall k :: 0 <= k < mask + i ==> out[k] == goal[k]
        invariant forall k :: mask + i <= k < |out| ==> out[k] == before[k]
      {
        assert i % 4 == (i - 4) % 4;
        assert goal[mask + i % 4] == key[i % 4] && before[mask + i] == data[i - 4];
        assert goal[mask + i] == Masked(data, key)[i - 4];
        out := out[mask + i := XorByte(out[mask + i], out[mask + i % 4])];
        i := i + 1;
      }
    }

    /** net/WebSocketHandler.hpp:557-573: the key, the data, and the key over the data. */
    static method PushMasked(before: seq<Byte>, data: seq<Byte>) returns (out: seq<Byte>)
      ensures out == before + MASK_KEY + Masked(data, MASK_KEY)
      ensures ExclusiveOr(out[|before| + 4..], data, MASK_KEY)
    {
      hide XorByte, Masked, ExclusiveOr;
      out := before;
      var mask := |out|;
      out := out + [0x81];
      out := out + [0x76];
      out := out + [0x81];
      out := out + [0x76];
      assert out == before + MASK_KEY;
      out := out + data;
      out := MaskInPlace(out, mask, before, MASK_KEY, data);
    }

    /** net/WebSocketHandler.hpp:596-611. */
    static method ReadPayload(data: seq<Byte>, mask: Option<Mask>, before: seq<Byte>) returns (payload: seq<Byte>)
      ensures payload == before + if mask.Some? then Masked(data, mask.value) else data
      ensures mask.Some? ==> ExclusiveOr(payload[|before|..], data, mask.value)
    {
      if |data| == 0 {
        assert before + [] == before;
        return before;
      }
      if mask.Some? {
        var end := |before|;
        payload := before + seq(|data|, _ => 0);
        var i := 0;
        while i < |data|
          invariant 0 <= i <= |data| && |payload| == end + |data|
          invariant payload[..end] == before
          invariant forall k :: 0 <= k < i ==> payload[end + k] == XorByte(data[k], mask.value[k % 4])
        {
          payload := payload[end + i := XorByte(data[i], mask.value[i % 4])];
          i := i + 1;
        }
        assert payload == payload[..end] + payload[end..];
        assert payload[end..] == Masked(data, mask.value);
        MaskedBits(payload[end..], data, mask.value);
      } else {
        payload := before + data;
      }
    }

    /** net/WebSocketHandler.hpp:526-577. */
    static method PushFrame(before: seq<Byte>, data: seq<Byte>, code: nat, isMasking: bool) returns (out: seq<Byte>)
      requires code < 16 && |data| < LENGTH_LIMIT
      ensures out == before + Encode(Frame(true, code, if isMasking then Some(MASK_KEY) else None, data))
    {
      hide LengthBytes, Encode, Masked;
      FrameBytes(before, Frame(true, code, if isMasking then Some(MASK_KEY) else None, data));
      out := before + [128 + code];
      var maskFlag: Byte := if isMasking then 0x80 else 0;
      out := PushLength(out, |data|, maskFlag);
      if isMasking {
        out := PushMasked(out, data);
      } else {
        out := out + data;
      }
    }

    /** net/WebSocketHandler.hpp:514-590, with the final bit always set. */
    method SendFrame(data: seq<Byte>, code: nat) returns (written: int)
      requires code < 16 && |data| < LENGTH_LIMIT
      modifies socket
      ensures View() == Send(old(View()), code, data)
      ensures written == if data == [] then -1 else |socket.outBuffer| - |old(socket.outBuffer)|
    {
      hide Encode;
      if data == [] {
        return -1;
      }
      if socket.closed {
        return 0;
      }
      var out := PushFrame(socket.outBuffer, data, code, isMasking);
      written := |out| - |socket.outBuffer|;
      socket.outBuffer := out;
    }

    /** net/WebSocketHandler.hpp:120-144. */
    method SendCloseFrame(statusCode: nat, statusMessage: seq<Byte>)
      requires statusCode < 65536 && |statusMessage| + 2 < LENGTH_LIMIT
      modifies this, socket
      ensures View() == SendClose(old(View()), statusCode, statusMessage)
    {
      hide Encode;
      shuttingDown := true;
      assert statusCode / 256 % 256 == statusCode / 256;
      var buf := [statusCode / 256 % 256, statusCode % 256] + statusMessage;
      var n := SendFrame(buf, CODE_CLOSE);
    }

    /** net/WebSocketHandler.hpp:146-159. */
    method ShutdownConnection(statusCode: nat, statusMessage: seq<Byte>)
      requires statusCode < 65536 && |statusMessage| + 2 < LENGTH_LIMIT
      modifies this, socket
      ensures View() == Shutdown(old(View()), statusCode, statusMessage)
    {
      if !shuttingDown {
        SendCloseFrame(statusCode, statusMessage);
      }
      socket.connectionShut := true;
      socket.inBuffer := [];
      wsPayload := [];
      inFragmentBlock := false;
      shuttingDown := false;
    }

    /** net/WebSocketHandler.hpp:429-464, for a pong. */
    method Pong(data: seq<Byte>)
      requires |data| < LENGTH_LIMIT
      modifies this, socket
      ensures View() == SendPong(old(View()), data)
    {
      if !socket.webSocket {
        return;
      }
      var n := SendFrame(data, CODE_PONG);
    }

    /** net/WebSocketHandler.hpp:237-320: a complete control frame of the input buffer. */
    method HandleControl(fin: bool, code: nat, ctrlPayload: seq<Byte>)
      requires CODE_CLOSE <= code < 16 && |ctrlPayload| < LENGTH_LIMIT
      modifies this, socket
      ensures forall mask: Option<Mask> :: View() == ReceiveControl(old(View()), Frame(fin, code, mask, ctrlPayload))
    {
      if !fin {
        ShutdownConnection(PROTOCOL_ERROR, []);
        return;
      }
      if |ctrlPayload| > 125 {
        ShutdownConnection(PROTOCOL_ERROR, []);
        return;
      }
      if code == CODE_PONG {
        if isClient {
          ShutdownConnection(POLICY_VIOLATION, []);
        }
      } else if code == CODE_PING {
        if isClient {
          Pong(ctrlPayload);
        } else {
          ShutdownConnection(POLICY_VIOLATION, []);
        }
      } else if code == CODE_CLOSE {
        var message: seq<Byte>, statusCode: nat := [], NORMAL_CLOSE;
        if !shuttingDown {
          if |ctrlPayload| >= 2 {
            statusCode := ctrlPayload[0] as int * 256 + ctrlPayload[1];
            if |ctrlPayload| > 2 {
              message := ctrlPayload[2..];
            }
          }
        }
        ShutdownConnection(statusCode, message);
      } else {
        ShutdownConnection(PROTOCOL_ERROR, []);
      }
    }

    /** net/WebSocketHandler.hpp:184-211: the length field, if it is complete. */
    static method ReadLength(p: seq<Byte>) returns (complete: bool, headerLen: nat, payloadLen: nat)
      requires |p| >= 2
      ensures ParseLength(p) == if complete then Some((payloadLen, headerLen)) else None
    {
      hide FromBigEndian;
      complete, headerLen, payloadLen := false, 2, p[1] % 128;
      if payloadLen == 126 {
        if |p| < 2 + 2 {
          return;
        }
        payloadLen := Length2(p);
        headerLen := headerLen + 2;
        LengthsRead(p);
      } else if payloadLen == 127 {
        if |p| < 2 + 8 {
          return;
        }
        payloadLen := Length8(p);
        headerLen := headerLen + 8;
        LengthsRead(p);
      }
      complete := true;
    }

    /** net/WebSocketHandler.hpp:164-224: where the first frame of the buffer ends, if it is
        complete. */
    static method ReadHeader(p: seq<Byte>) returns (complete: bool, mask: Option<Mask>, headerLen: nat, payloadLen: nat)
      ensures complete <==> ParseFrame(p).Some?
      ensures complete ==> headerLen + payloadLen == ParseFrame(p).value.1
      ensures complete ==> |p| >= 2 && var data := p[headerLen..headerLen + payloadLen];
                ParseFrame(p).value.0 ==
                Frame(p[0] >= 128, p[0] % 16, mask, if mask.Some? then Masked(data, mask.value) else data)
    {
      hide ParseLength, ParseFrame, FrameAt, Masked, MaskAt;
      ParsedByLength(p);
      complete, mask, headerLen, payloadLen := false, None, 0, 0;
      var len := |p|;
      if len < 2 {
        return;
      }
      var hasMask := p[1] >= 128;
      var known;
      known, headerLen, payloadLen := ReadLength(p);
      if !known {
        return;
      }
      var maskAt := headerLen;
      if hasMask {
        headerLen := headerLen + 4;
      }
      FrameAtFits(p, hasMask, payloadLen, maskAt);
      if payloadLen + headerLen > len {
        return;
      }
      complete := true;
      if hasMask {
        mask := Some(MaskAt(p, maskAt));
      }
      FrameAtOf(p, mask, payloadLen, maskAt, headerLen);
    }

    /** net/WebSocketHandler.hpp:322-384: a complete data frame that ends at end. */
    method HandleData(fin: bool, code: nat, data: seq<Byte>, mask: Option<Mask>, end: nat) returns (more: bool)
      requires code < CODE_CLOSE && end <= |socket.inBuffer|
      modifies this, socket
      ensures var f := Frame(fin, code, mask, if mask.Some? then Masked(data, mask.value) else data);
              (View(), more) == ReceiveData(old(View()).(input := old(socket.inBuffer)[end..]), f)
    {
      hide Masked, SendClose;
      if inFragmentBlock {
        if code != CODE_CONTINUATION {
          ShutdownConnection(PROTOCOL_ERROR, []);
          ShutdownInput(old(View()), old(socket.inBuffer)[end..]);
          return true;
        }
      } else if code == CODE_CONTINUATION {
        ShutdownConnection(PROTOCOL_ERROR, []);
        ShutdownInput(old(View()), old(socket.inBuffer)[end..]);
        return true;
      }
      wsPayload := ReadPayload(data, mask, wsPayload);
      socket.inBuffer := socket.inBuffer[end..];
      if fin {
        handled := handled + [Message(fin, code, wsPayload)];
        inFragmentBlock := false;
      } else {
        if isManualDefrag {
          handled := handled + [Message(fin, code, wsPayload)];
          inFragmentBlock := true;
        } else {
          inFragmentBlock := true;
          return false;
        }
      }
      wsPayload := [];
      return true;
    }

    /** net/WebSocketHandler.hpp:226-384: a complete frame that ends at end. */
    method HandleFrame(fin: bool, code: nat, data: seq<Byte>, mask: Option<Mask>, end: nat) returns (more: bool)
      requires code < 16 && |data| < LENGTH_LIMIT && end <= |socket.inBuffer|
      modifies this, socket
      ensures var f := Frame(fin, code, mask, if mask.Some? then Masked(data, mask.value) else data);
              (View(), more) == Receive(old(View()).(input := old(socket.inBuffer)[end..]), f)
    {
      hide Masked, Shutdown, ReceiveControl, ReceiveData;
      if mask.Some? && isClient {
        ShutdownConnection(PROTOCOL_ERROR, []);
        ShutdownInput(old(View()), old(socket.inBuffer)[end..]);
        return true;
      }
      if code >= CODE_CLOSE {
        var ctrlPayload := ReadPayload(data, mask, []);
        NothingBefore(if mask.Some? then Masked(data, mask.value) else data);
        socket.inBuffer := socket.inBuffer[end..];
        HandleControl(fin, code, ctrlPayload);
        return true;
      }
      more := HandleData(fin, code, data, mask, end);
    }

    /** net/WebSocketHandler.hpp:161-385. */
    method HandleTCPStream() returns (more: bool)
      requires |socket.inBuffer| < LENGTH_LIMIT
      modifies this, socket
      ensures (View(), more) == Step(old(View()))
    {
      hide ParseFrame, Masked, Receive, Step;
      var p := socket.inBuffer;
      var complete, mask, headerLen, payloadLen := ReadHeader(p);
      if !complete {
        NothingToStep(View());
        return false;
      }
      StepReceives(View());
      more := HandleFrame(p[0] >= 128, p[0] % 16, p[headerLen..headerLen + payloadLen], mask, headerLen + payloadLen);
    }

    /** net/WebSocketHandler.hpp:682-744. */
    method HandleClientUpgrade()
      modifies socket
      ensures View() == Upgrade(old(View()))
    {
      var headerSize := response(socket.inBuffer);
      if headerSize.None? || headerSize.value == 0 {
        socket.shutdownSignalled := true;
        return;
      }
      socket.webSocket := true;
      var toErase := if headerSize.value < |socket.inBuffer| then headerSize.value else |socket.inBuffer|;
      socket.inBuffer := socket.inBuffer[toErase..];
    }

    /** net/WebSocketHandler.hpp:388-412. */
    method HandleIncomingMessage()
      requires |socket.inBuffer| < LENGTH_LIMIT
      modifies this, socket
      ensures View() == HandleInput(old(View()))
    {
      hide Step;
      if isClient && !socket.webSocket {
        HandleClientUpgrade();
        return;
      }
      var more := true;
      while more
        invariant |socket.inBuffer| < LENGTH_LIMIT
        invariant Drain(old(View())) == if more then Drain(View()) else View()
        decreases if more then |socket.inBuffer| + 1 else 0
      {
        more := HandleTCPStream();
      }
    }

    /** net/Socket.hpp:1014-1022: the bytes of one read arrive and are consumed. */
    method HandlePoll(arrival: seq<Byte>)
      requires |socket.inBuffer| + |arrival| < LENGTH_LIMIT
      modifies this, socket
      ensures View() == Consume(old(View()).(input := old(socket.inBuffer) + arrival))
    {
      hide HandleInput;
      socket.inBuffer := socket.inBuffer + arrival;
      ghost var start := View();
      var oldSize := 0;
      while |socket.inBuffer| != 0 && oldSize != |socket.inBuffer|
        invariant |socket.inBuffer| < LENGTH_LIMIT
        invariant Consume(start) == if oldSize == |socket.inBuffer| then View() else Consume(View())
        decreases |socket.inBuffer|, if oldSize != |socket.inBuffer| then 1 else 0
      {
        oldSize := |socket.inBuffer|;
        HandleIncomingMessage();
      }
    }
  }

  lemma NothingToStep(c: Conn)
    requires ParseFrame(c.input).None?
    ensures Step(c) == (c, false)
  {
    hide ParseFrame;
  }

  /** A step over a complete frame is its reception with the rest of the input. */
  lemma StepReceives(c: Conn)
    requires |c.input| < LENGTH_LIMIT && ParseFrame(c.input).Some?
    ensures var (f, size) := ParseFrame(c.input).value;
            f.Valid() && Step(c) == Receive(c.(input := c.input[size..]), f)
  {
    ParsedFits(c.input);
    hide ParseFrame, Receive;
  }

  lemma NothingBefore(data: seq<Byte>)
    ensures [] + data == data
  {
  }

  lemma ParsedFits(buf: seq<Byte>)
    ensures ParseFrame(buf).Some? ==> ParseFrame(buf).value.0.code < 16 && |ParseFrame(buf).value.0.payload| <= |buf|
  {
    hide ParseLength, Masked;
  }

  lemma ShutdownInput(c: Conn, input: seq<Byte>)
    ensures Shutdown(c.(input := input), PROTOCOL_ERROR, []) == Shutdown(c, PROTOCOL_ERROR, [])
  {
    hide Encode;
  }
}
