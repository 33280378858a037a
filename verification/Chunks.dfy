/** Chunked HTTP bodies (RFC 7230 section 4.1): net/Socket.cpp notes where the data of each
    chunk lies, and later moves it together in place. */
module Chunks {
  import opened Basics

  const CR: Byte := 13
  const LF: Byte := 10

  type Bytes = seq<Byte>

  // ----- hexadecimal sizes -----

  /** Util::hexDigitFromChar. */
  function HexDigit(b: Byte): (r: int)
    ensures -1 <= r < 16
  {
    if 48 <= b <= 57 then b as int - 48
    else if 97 <= b <= 102 then b as int - 97 + 10
    else if 65 <= b <= 70 then b as int - 65 + 10
    else -1
  }

  predicate IsSpace(b: Byte) {
    b == 32 || 9 <= b <= 13
  }

  predicate AllHex(s: Bytes) {
    forall i :: 0 <= i < |s| ==> HexDigit(s[i]) >= 0
  }

  function HexValue(s: Bytes): nat
    requires AllHex(s)
  {
    if s == [] then 0 else 16 * HexValue(s[..|s| - 1]) + HexDigit(s[|s| - 1])
  }

  /** 0 to 9 and a to f in ASCII. */
  const LOWER: seq<Byte> := [48, 49, 50, 51, 52, 53, 54, 55, 56, 57, 97, 98, 99, 100, 101, 102]

  /** 0 to 9 and A to F. */
  const UPPER: seq<Byte> := [48, 49, 50, 51, 52, 53, 54, 55, 56, 57, 65, 66, 67, 68, 69, 70]

  /** A number in hexadecimal, with the letters in either case. */
  function Hex(n: nat, upper: nat -> bool): (r: Bytes)
    ensures r != []
  {
    var digit := (if upper(n) then UPPER else LOWER)[n % 16];
    if n < 16 then [digit] else Hex(n / 16, upper) + [digit]
  }

  /** Digits in either case have their values, and no other byte is one. */
  lemma HexDigits()
    ensures forall d :: 0 <= d < 16 ==> HexDigit(LOWER[d]) == d && HexDigit(UPPER[d]) == d
    ensures forall b: Byte :: HexDigit(b) >= 0 ==> LOWER[HexDigit(b)] == b || UPPER[HexDigit(b)] == b
  {
  }

  /** A number that is written is read back. */
  lemma {:induction false} HexRead(n: nat, upper: nat -> bool)
    ensures AllHex(Hex(n, upper)) && HexValue(Hex(n, upper)) == n
  {
    HexDigits();
    hide HexDigit, LOWER, UPPER;
    var digits := Hex(n, upper);
    if n < 16 {
      assert digits[..0] == [];
    } else {
      HexRead(n / 16, upper);
      assert digits[..|digits| - 1] == Hex(n / 16, upper);
    }
  }

  // ----- encoded bodies -----

  /** A chunk as sent: the digits of its size, extensions, its data, and the two bytes that
      close it.  The source also lets white space stand in front of the size, which the
      standard does not. */
  datatype Chunk = Chunk(space: Bytes, size: Bytes, extension: Bytes, data: Bytes, close: Bytes)
  {
    ghost predicate Valid() {
      && (forall i :: 0 <= i < |space| ==> IsSpace(space[i]))
      && size != [] && AllHex(size) && HexValue(size) == |data|
      && LF !in extension
      && (extension != [] ==> HexDigit(extension[0]) < 0)
      && |close| == 2
    }

    predicate Closed() {
      close == [CR, LF]
    }

    function Line(): Bytes {
      space + size + extension + [CR, LF]
    }

    function Encode(): Bytes {
      Line() + data + close
    }
  }

  /** Any data is a chunk behind its size in hexadecimal. */
  lemma WrittenChunk(data: Bytes, upper: nat -> bool)
    ensures Chunk([], Hex(|data|, upper), [], data, [CR, LF]).Valid()
  {
    HexRead(|data|, upper);
    hide Hex, HexValue, AllHex;
  }

  ghost predicate ValidChunks(chunks: seq<Chunk>) {
    forall i :: 0 <= i < |chunks| ==> chunks[i].Valid() && chunks[i].data != []
  }

  function EncodeAll(chunks: seq<Chunk>): Bytes {
    if chunks == [] then [] else chunks[0].Encode() + EncodeAll(chunks[1..])
  }

  function AllData(chunks: seq<Chunk>): Bytes {
    if chunks == [] then [] else chunks[0].data + AllData(chunks[1..])
  }

  /** What follows the chunks received so far: nothing yet, the beginning of a chunk of which
      more than two bytes of data are missing, or the line of the last chunk and whatever is
      behind it. */
  datatype Ending = NotYet | CutShort(chunk: Chunk, received: nat) | Last(last: Chunk, rest: Bytes)
  {
    ghost predicate Valid() {
      match this
      case NotYet => true
      case CutShort(chunk, received) => chunk.Valid() && received + 2 < |chunk.data|
      case Last(last, rest) => last.Valid() && last.data == []
    }

    ghost function Encode(): Bytes
      requires Valid()
    {
      match this
      case NotYet => []
      case CutShort(chunk, received) => chunk.Line() + chunk.data[..received]
      case Last(last, rest) => last.Line() + rest
    }
  }

  /** The input buffer of a chunked message. */
  ghost function Buffer(header: Bytes, chunks: seq<Chunk>, ending: Ending): Bytes
    requires ending.Valid()
  {
    header + (EncodeAll(chunks) + ending.Encode())
  }

  ghost predicate AllClosed(chunks: seq<Chunk>) {
    forall i :: 0 <= i < |chunks| ==> chunks[i].Closed()
  }

  datatype Span = Span(offset: nat, length: nat)

  /** Where the data of the chunks lies when the first one starts at an offset. */
  function DataSpans(chunks: seq<Chunk>, at: nat): (r: seq<Span>)
    ensures |r| == |chunks|
  {
    if chunks == [] then []
    else [Span(at + |chunks[0].Line()|, |chunks[0].data|)] + DataSpans(chunks[1..], at + |chunks[0].Encode()|)
  }

  // ----- the parser -----

  predicate MarkerAt(buf: Bytes, i: nat) {
    i + 4 <= |buf| && buf[i] == CR && buf[i + 1] == LF && buf[i + 2] == CR && buf[i + 3] == LF
  }

  /** Two line ends, one after the other. */
  lemma MarkerIs(buf: Bytes, i: nat)
    ensures MarkerAt(buf, i) <==> i + 4 <= |buf| && buf[i..i + 4] == [13, 10, 13, 10]
  {
    if i + 4 <= |buf| {
      assert buf[i..i + 4] == [buf[i], buf[i + 1], buf[i + 2], buf[i + 3]];
    }
  }

  /** A header is up to and including the first blank line. */
  ghost predicate IsHeader(header: Bytes) {
    && |header| >= 4 && MarkerAt(header, |header| - 4)
    && forall i: nat :: i < |header| - 4 ==> !MarkerAt(header, i)
  }

  /** net/Socket.cpp:450-460: std::search for the blank line. */
  method FindHeaderEnd(buf: Bytes) returns (found: bool, end: nat)
    ensures found ==> 4 <= end <= |buf| && IsHeader(buf[..end])
    ensures !found ==> forall i: nat :: !MarkerAt(buf, i)
    ensures forall header :: IsHeader(header) && header <= buf ==> found && end == |header|
  {
    var i := 0;
    while i + 4 <= |buf|
      invariant forall k: nat :: k < i ==> !MarkerAt(buf, k)
    {
      if MarkerAt(buf, i) {
        found, end := true, i + 4;
        var head := buf[..end];
        assert MarkerAt(head, |head| - 4);
        assert forall k: nat :: MarkerAt(head, k) ==> MarkerAt(buf, k);
        forall header | IsHeader(header) && header <= buf ensures end == |header| {
          assert MarkerAt(buf, |header| - 4);
          if |header| > end {
            assert MarkerAt(header, i);
          }
        }
        return;
      }
      i := i + 1;
    }
    found, end := false, 0;
    forall header | IsHeader(header) && header <= buf ensures false {
      assert MarkerAt(buf, |header| - 4);
    }
  }

  lemma HexPrefix(s: Bytes, n: nat)
    requires AllHex(s) && n < |s|
    ensures AllHex(s[..n]) && AllHex(s[..n + 1])
    ensures HexValue(s[..n + 1]) == 16 * HexValue(s[..n]) + HexDigit(s[n])
  {
    assert s[..n + 1][..n] == s[..n];
  }

  /** Where the parts of the line in front of a chunk lie. */
  ghost predicate LineAt(buf: Bytes, start: nat, c: Chunk) {
    var sizeAt := start + |c.space|;
    var extensionAt := sizeAt + |c.size|;
    var end := extensionAt + |c.extension|;
    && end + 2 <= |buf|
    && (forall i :: start <= i < sizeAt ==> buf[i] == c.space[i - start])
    && (forall i :: sizeAt <= i < extensionAt ==> buf[i] == c.size[i - sizeAt])
    && (forall i :: extensionAt <= i < end ==> buf[i] == c.extension[i - extensionAt])
    && buf[end] == CR && buf[end + 1] == LF
  }

  lemma LineParts(buf: Bytes, start: nat, c: Chunk)
    requires start <= |buf| && c.Line() <= buf[start..]
    ensures LineAt(buf, start, c)
  {
    var line := c.Line();
    assert forall i :: start <= i < start + |line| ==> buf[i] == buf[start..][i - start] == line[i - start];
  }

  /** net/Socket.cpp:522-543: the line in front of a chunk. */
  method ReadSizeLine(buf: Bytes, start: nat, ghost c: Chunk) returns (chunkLen: nat, end: nat)
    requires c.Valid() && start <= |buf| && c.Line() <= buf[start..]
    ensures chunkLen == |c.data| && end == start + |c.Line()|
  {
    hide HexValue;
    LineParts(buf, start, c);
    ghost var sizeAt := start + |c.space|;
    ghost var extensionAt := sizeAt + |c.size|;
    ghost var lineEnd := extensionAt + |c.extension| + 1;
    var it := start;
    assert HexDigit(buf[sizeAt]) >= 0 by { assert buf[sizeAt] == c.size[0]; }
    while it < |buf| && IsSpace(buf[it])
      invariant start <= it <= sizeAt
    {
      it := it + 1;
    }
    assert it == sizeAt;
    chunkLen := 0;
    EmptyHex(c.size);
    assert HexDigit(buf[extensionAt]) < 0;
    while it < |buf|
      invariant sizeAt <= it <= extensionAt && AllHex(c.size[..it - sizeAt])
      invariant chunkLen == HexValue(c.size[..it - sizeAt])
    {
      var digit := HexDigit(buf[it]);
      if digit >= 0 {
        HexPrefix(c.size, it - sizeAt);
        chunkLen := chunkLen * 16 + digit;
      } else {
        break;
      }
      it := it + 1;
    }
    assert it == extensionAt;
    assert c.size[..|c.size|] == c.size;
    while it < |buf| && buf[it] != LF
      invariant extensionAt <= it <= lineEnd
    {
      it := it + 1;
    }
    assert it == lineEnd;
    if it != |buf| {
      it := it + 1;
    }
    end := it;
  }

  lemma EmptyHex(s: Bytes)
    ensures AllHex(s[..0]) && HexValue(s[..0]) == 0
  {
  }

  /** net/Socket.cpp:508-575.  The body is complete exactly when every chunk so far is closed
      by a line end and the last chunk has come; then the spans are the header and the data. */
  method ParseChunks(buf: Bytes, headerSize: nat, ghost header: Bytes, ghost chunks: seq<Chunk>, ghost ending: Ending)
    returns (complete: bool, messageSize: nat, spans: seq<Span>)
    requires ValidChunks(chunks) && ending.Valid()
    requires buf == Buffer(header, chunks, ending) && headerSize == |header|
    ensures complete <==> AllClosed(chunks) && ending.Last?
    ensures complete ==> messageSize == |buf| - |ending.rest|
    ensures complete ==> spans == [Span(0, headerSize)] + DataSpans(chunks, headerSize)
  {
    hide Chunk.Line, Chunk.Encode, EncodeAll, DataSpans, Ending.Encode, AllClosed, ValidChunks, Chunk.Closed;
    messageSize := headerSize;
    spans := [Span(0, headerSize)];
    var it := headerSize;
    ghost var todo := chunks;
    assert buf[it..] == EncodeAll(todo) + ending.Encode();
    while it < |buf|
      invariant it <= |buf| && ValidChunks(todo)
      invariant buf[it..] == EncodeAll(todo) + ending.Encode()
      invariant AllClosed(chunks) <==> AllClosed(todo)
      invariant [Span(0, headerSize)] + DataSpans(chunks, headerSize) == spans + DataSpans(todo, it)
      decreases |buf| - it
    {
      ghost var c := NextChunk(buf, it, todo, ending);
      NoneLeft(todo, it);
      var chunkLen, chunkOffset := ReadSizeLine(buf, it, c);
      var chunkAvailable := |buf| - chunkOffset;
      if chunkLen == 0 {
        messageSize := chunkOffset;
        return true, messageSize, spans;
      }
      if chunkLen > chunkAvailable + 2 {
        return false, messageSize, spans;
      }
      AfterChunk(buf, it, todo, ending);
      it := chunkOffset + chunkLen;
      ghost var after := DataSpans(todo[1..], it + 2);
      assert (spans + [Span(chunkOffset, chunkLen)]) + after == spans + ([Span(chunkOffset, chunkLen)] + after);
      spans := spans + [Span(chunkOffset, chunkLen)];
      if buf[it] != CR || buf[it + 1] != LF {
        return false, messageSize, spans;
      }
      it := it + 2;
      todo := todo[1..];
    }
    complete := false;
    NothingLeft(buf, todo, ending);
  }

  lemma NoneLeft(todo: seq<Chunk>, at: nat)
    ensures todo == [] ==> AllClosed(todo) && DataSpans(todo, at) == []
  {
  }

  lemma NothingLeft(buf: Bytes, todo: seq<Chunk>, ending: Ending)
    requires ValidChunks(todo) && ending.Valid() && buf[|buf|..] == EncodeAll(todo) + ending.Encode()
    ensures !ending.Last?
  {
    assert ending.Last? ==> |ending.last.Line()| > 0;
  }

  ghost function Upcoming(todo: seq<Chunk>, ending: Ending): Chunk
    requires todo != [] || !ending.NotYet?
  {
    if todo != [] then todo[0] else if ending.Last? then ending.last else ending.chunk
  }

  /** The line that comes next in the buffer, and how much is behind it. */
  lemma NextChunk(buf: Bytes, at: nat, todo: seq<Chunk>, ending: Ending) returns (c: Chunk)
    requires at < |buf| && ValidChunks(todo) && ending.Valid()
    requires buf[at..] == EncodeAll(todo) + ending.Encode()
    ensures todo != [] || !ending.NotYet?
    ensures c == Upcoming(todo, ending) && c.Valid() && c.Line() <= buf[at..]
    ensures c.data == [] <==> todo == [] && ending.Last?
    ensures c.data == [] ==> |ending.rest| == |buf| - at - |c.Line()|
    ensures todo != [] ==> at + |c.Line()| + |c.data| + 2 <= |buf|
    ensures todo == [] && ending.CutShort? ==> |c.data| > |buf| - at - |c.Line()| + 2
  {
    hide Chunk.Line;
    assert |buf[at..]| == |buf| - at;
    c := Upcoming(todo, ending);
  }

  /** After a chunk that is there in full. */
  lemma AfterChunk(buf: Bytes, at: nat, todo: seq<Chunk>, ending: Ending)
    requires at < |buf| && todo != [] && ValidChunks(todo) && ending.Valid()
    requires buf[at..] == EncodeAll(todo) + ending.Encode()
    ensures var c := todo[0]; var dataEnd := at + |c.Line()| + |c.data|;
            && dataEnd + 2 <= |buf|
            && buf[at + |c.Line()|..dataEnd] == c.data
            && (buf[dataEnd] == CR && buf[dataEnd + 1] == LF <==> c.Closed())
            && buf[dataEnd + 2..] == EncodeAll(todo[1..]) + ending.Encode()
            && ValidChunks(todo[1..])
            && (c.Closed() ==> (AllClosed(todo) <==> AllClosed(todo[1..])))
            && (!c.Closed() ==> !AllClosed(todo))
            && DataSpans(todo, at) == [Span(at + |c.Line()|, |c.data|)] + DataSpans(todo[1..], dataEnd + 2)
  {
    hide Chunk.Line, Ending.Encode, AllClosed, EncodeAll, DataSpans;
    var c := todo[0];
    var later := EncodeAll(todo[1..]) + ending.Encode();
    FirstChunk(todo, at);
    assert buf[at..] == (c.Line() + c.data + c.close + EncodeAll(todo[1..])) + ending.Encode();
    assert buf[at..] == c.Line() + c.data + c.close + later;
    Pieces(buf, at, c.Line(), c.data, c.close, later);
    RestClosed(todo);
  }

  lemma FirstChunk(todo: seq<Chunk>, at: nat)
    requires todo != [] && |todo[0].close| == 2
    ensures var c := todo[0];
            && EncodeAll(todo) == c.Line() + c.data + c.close + EncodeAll(todo[1..])
            && DataSpans(todo, at) == [Span(at + |c.Line()|, |c.data|)] +
                DataSpans(todo[1..], at + |c.Line()| + |c.data| + 2)
  {
    hide Chunk.Line;
  }

  lemma Pieces(buf: Bytes, at: nat, line: Bytes, data: Bytes, close: Bytes, later: Bytes)
    requires at <= |buf| && buf[at..] == line + data + close + later && |close| == 2
    ensures var dataEnd := at + |line| + |data|;
            && dataEnd + 2 <= |buf| && buf[at + |line|..dataEnd] == data
            && close == [buf[dataEnd], buf[dataEnd + 1]] && buf[dataEnd + 2..] == later
  {
    var here := buf[at..];
    var n := |line| + |data|;
    assert here[|line|..n] == data && here[n..n + 2] == close && here[n + 2..] == later;
    assert buf[at + n] == here[n] == close[0] && buf[at + n + 1] == here[n + 1] == close[1];
    assert buf[at + n + 2..] == here[n + 2..] && buf[at + |line|..at + n] == here[|line|..n];
  }

  lemma RestClosed(todo: seq<Chunk>)
    requires todo != [] && ValidChunks(todo)
    ensures ValidChunks(todo[1..])
    ensures AllClosed(todo) <==> todo[0].Closed() && AllClosed(todo[1..])
  {
    assert forall i :: 1 <= i < |todo| ==> todo[i] == todo[1..][i - 1];
  }

  // ----- compaction in place -----

  /** Spans inside the first bytes of the buffer, one behind the other. */
  ghost predicate Ordered(spans: seq<Span>, limit: nat) {
    && (forall i :: 0 <= i < |spans| ==> spans[i].offset + spans[i].length <= limit)
    && (forall i, j :: 0 <= i < j < |spans| ==> spans[i].offset + spans[i].length <= spans[j].offset)
  }

  ghost predicate Inside(spans: seq<Span>, limit: nat) {
    forall i :: 0 <= i < |spans| ==> spans[i].offset + spans[i].length <= limit
  }

  ghost predicate Behind(spans: seq<Span>, at: nat) {
    forall i :: 0 <= i < |spans| ==> at <= spans[i].offset
  }

  function Piece(buf: Bytes, span: Span): Bytes {
    if span.offset + span.length <= |buf| then buf[span.offset..span.offset + span.length] else []
  }

  /** The bytes of the spans, put together. */
  function Collated(buf: Bytes, spans: seq<Span>): Bytes {
    if spans == [] then [] else Collated(buf, spans[..|spans| - 1]) + Piece(buf, spans[|spans| - 1])
  }

  function TotalLength(spans: seq<Span>): nat {
    if spans == [] then 0 else TotalLength(spans[..|spans| - 1]) + spans[|spans| - 1].length
  }

  /** The spans in front of a span fit in front of it, so everything moves to the left. */
  lemma {:induction false} TotalBelow(spans: seq<Span>, limit: nat, k: nat)
    requires Ordered(spans, limit) && k <= |spans|
    ensures TotalLength(spans[..k]) <= if k < |spans| then spans[k].offset else limit
    ensures k < |spans| ==> TotalLength(spans[..k + 1]) <= spans[k].offset + spans[k].length
  {
    if k > 0 {
      TotalBelow(spans, limit, k - 1);
      assert spans[..k][..k - 1] == spans[..k - 1];
    }
    if k < |spans| {
      assert spans[..k + 1][..k] == spans[..k];
    }
  }

  /** memmove to the left, byte by byte. */
  method MoveLeft(buf: array<Byte>, dest: nat, src: nat, length: nat)
    requires dest <= src && src + length <= buf.Length
    modifies buf
    ensures buf[..dest] == old(buf[..dest])
    ensures buf[dest..dest + length] == old(buf[src..src + length])
    ensures buf[dest + length..] == old(buf[dest + length..])
  {
    for i := 0 to length
      invariant buf[..dest] == old(buf[..dest])
      invariant buf[dest..dest + i] == old(buf[src..src + i])
      invariant buf[dest + i..] == old(buf[dest + i..])
    {
      assert buf[src + i] == buf[dest + i..][src - dest] == old(buf[src + i]);
      buf[dest + i] := buf[src + i];
      assert buf[dest..dest + i + 1] == buf[dest..dest + i] + [buf[dest + i]];
      assert buf[dest + i + 1..] == old(buf[dest + i..])[1..];
    }
  }

  /** One span is moved behind what is there already; what is behind it is as it was. */
  method MoveSpan(buf: array<Byte>, dest: nat, span: Span, ghost was: Bytes)
    requires |was| == buf.Length && dest <= span.offset && span.offset + span.length <= buf.Length
    requires buf[dest..] == was[dest..]
    modifies buf
    ensures buf[..dest + span.length] == old(buf[..dest]) + was[span.offset..span.offset + span.length]
    ensures buf[dest + span.length..] == was[dest + span.length..]
  {
    ghost var before := buf[..];
    MoveLeft(buf, dest, span.offset, span.length);
    assert before[dest..] == was[dest..];
    Moved(before, buf[..], was, dest, span);
  }

  /** What is moved is what was there at first. */
  lemma Moved(before: Bytes, after: Bytes, was: Bytes, dest: nat, span: Span)
    requires |before| == |after| == |was| && dest <= span.offset && span.offset + span.length <= |was|
    requires before[dest..] == was[dest..] && after[..dest] == before[..dest]
    requires after[dest..dest + span.length] == before[span.offset..span.offset + span.length]
    requires after[dest + span.length..] == before[dest + span.length..]
    ensures after[..dest + span.length] == before[..dest] + was[span.offset..span.offset + span.length]
    ensures after[dest + span.length..] == was[dest + span.length..]
  {
    SameBehind(before, was, dest, span.offset);
    SameBehind(before, was, dest, dest + span.length);
    assert after[..dest + span.length] == after[..dest] + after[dest..dest + span.length];
    assert before[span.offset..span.offset + span.length] == before[span.offset..][..span.length];
  }

  lemma SameBehind(a: Bytes, b: Bytes, dest: nat, at: nat)
    requires |a| == |b| && dest <= at <= |a| && a[dest..] == b[dest..]
    ensures a[at..] == b[at..]
  {
    assert a[at..] == a[dest..][at - dest..] && b[at..] == b[dest..][at - dest..];
  }

  /** net/Socket.cpp:602-633.  The first newSize bytes are the buffer afterwards. */
  method CompactChunks(buf: array<Byte>, messageSize: nat, spans: seq<Span>)
    returns (moved: bool, newSize: nat, newMessageSize: nat)
    requires messageSize <= buf.Length && Ordered(spans, messageSize)
    modifies buf
    ensures moved <==> spans != []
    ensures !moved ==> buf[..] == old(buf[..]) && newSize == buf.Length && newMessageSize == messageSize
    ensures moved ==> newMessageSize == TotalLength(spans) && newSize <= buf.Length
    ensures moved ==> buf[..newSize] == Collated(old(buf[..]), spans) + old(buf[messageSize..])
  {
    moved := |spans| != 0;
    if !moved {
      return false, buf.Length, messageSize;
    }
    hide Collated, Ordered, TotalLength;
    ghost var was := buf[..];
    var newEnd := MoveSpans(buf, messageSize, spans, was);
    TotalBelow(spans, messageSize, |spans|);
    assert spans[..|spans|] == spans;
    var gap := messageSize - newEnd;
    newSize := buf.Length - gap;
    newMessageSize := messageSize - gap;
    var tail := Span(messageSize, buf.Length - messageSize);
    WholeTail(was, messageSize, tail.length);
    MoveSpan(buf, newEnd, tail, was);
  }

  lemma WholeTail(was: Bytes, from: nat, length: nat)
    requires from + length == |was|
    ensures was[from..from + length] == was[from..]
  {
  }

  /** net/Socket.cpp:611-617. */
  method MoveSpans(buf: array<Byte>, messageSize: nat, spans: seq<Span>, ghost was: Bytes) returns (dest: nat)
    requires was == buf[..] && messageSize <= buf.Length && Ordered(spans, messageSize)
    modifies buf
    ensures dest == TotalLength(spans) <= buf.Length
    ensures buf[..dest] == Collated(was, spans) && buf[dest..] == was[dest..]
  {
    hide Collated, TotalLength, Ordered, Piece;
    dest := 0;
    NothingCollated(was);
    for k := 0 to |spans|
      invariant dest == TotalLength(spans[..k]) <= messageSize
      invariant buf[..dest] == Collated(was, spans[..k])
      invariant buf[dest..] == was[dest..]
    {
      OneMoreSpan(was, spans, messageSize, k);
      MoveSpan(buf, dest, spans[k], was);
      dest := dest + spans[k].length;
    }
    assert spans[..|spans|] == spans;
  }

  lemma NothingCollated(buf: Bytes)
    ensures Collated(buf, []) == [] && TotalLength([]) == 0
  {
  }

  lemma OneMoreSpan(buf: Bytes, spans: seq<Span>, limit: nat, k: nat)
    requires Ordered(spans, limit) && k < |spans| && limit <= |buf|
    ensures TotalLength(spans[..k]) <= spans[k].offset && spans[k].offset + spans[k].length <= limit
    ensures TotalLength(spans[..k + 1]) == TotalLength(spans[..k]) + spans[k].length
    ensures Collated(buf, spans[..k + 1]) ==
            Collated(buf, spans[..k]) + buf[spans[k].offset..spans[k].offset + spans[k].length]
  {
    hide Ordered;
    TotalBelow(spans, limit, k);
    var upTo := spans[..k + 1];
    assert upTo[..k] == spans[..k] && upTo[k] == spans[k];
    SpanInside(spans, limit, k);
  }

  lemma SpanInside(spans: seq<Span>, limit: nat, k: nat)
    requires Ordered(spans, limit) && k < |spans|
    ensures spans[k].offset + spans[k].length <= limit
  {
  }

  // ----- parsing, then compaction -----

  lemma {:induction false} DataSpansOrdered(chunks: seq<Chunk>, at: nat)
    ensures Behind(DataSpans(chunks, at), at)
    ensures Ordered(DataSpans(chunks, at), at + |EncodeAll(chunks)|)
  {
    hide Chunk.Line, Ordered, Behind, Chunk.Encode;
    if chunks == [] {
      NothingOrdered(at);
    } else {
      var c, rest := chunks[0], chunks[1..];
      var next := at + |c.Encode()|;
      DataSpansOrdered(rest, next);
      EncodedLength(c);
      FirstSpan(Span(at + |c.Line()|, |c.data|), DataSpans(rest, next), at, next, next + |EncodeAll(rest)|);
    }
  }

  lemma NothingOrdered(limit: nat)
    ensures Behind([], limit) && Ordered([], limit)
  {
  }

  lemma EncodedLength(c: Chunk)
    ensures |c.Encode()| == |c.Line()| + |c.data| + |c.close|
  {
    hide Chunk.Line;
  }

  lemma FirstSpan(span: Span, rest: seq<Span>, at: nat, next: nat, limit: nat)
    requires Behind(rest, next) && Ordered(rest, limit)
    requires at <= span.offset && span.offset + span.length <= next <= limit && at <= next
    ensures Behind([span] + rest, at) && Ordered([span] + rest, limit)
  {
    var all := [span] + rest;
    forall i | 0 < i < |all| ensures all[i] == rest[i - 1] && next <= all[i].offset {
    }
  }

  lemma {:induction false} CollatedLength(buf: Bytes, spans: seq<Span>)
    requires Inside(spans, |buf|)
    ensures |Collated(buf, spans)| == TotalLength(spans)
  {
    if spans != [] {
      CollatedLength(buf, spans[..|spans| - 1]);
    }
  }

  lemma {:induction false} CollateCons(buf: Bytes, span: Span, spans: seq<Span>)
    ensures Collated(buf, [span] + spans) == Piece(buf, span) + Collated(buf, spans)
  {
    hide Piece;
    var all := [span] + spans;
    var first := Piece(buf, span);
    if spans == [] {
      assert all[..0] == [];
      assert Collated(buf, all) == [] + first;
    } else {
      var n := |spans| - 1;
      assert all[..|all| - 1] == [span] + spans[..n];
      CollateCons(buf, span, spans[..n]);
      assert (first + Collated(buf, spans[..n])) + Piece(buf, spans[n]) ==
             first + (Collated(buf, spans[..n]) + Piece(buf, spans[n]));
    }
  }

  /** The spans of the chunks collate to their data. */
  lemma {:induction false} CollateData(buf: Bytes, at: nat, todo: seq<Chunk>, ending: Ending)
    requires at <= |buf| && ValidChunks(todo) && ending.Valid()
    requires buf[at..] == EncodeAll(todo) + ending.Encode()
    ensures Collated(buf, DataSpans(todo, at)) == AllData(todo)
    decreases |todo|
  {
    hide Chunk.Line, Chunk.Encode, Ending.Encode, AllClosed, Collated, EncodeAll, ValidChunks, DataSpans;
    if todo == [] {
      NoSpans(buf, at);
    } else {
      hide AllData, Ending.Valid;
      assert AllData(todo) == todo[0].data + AllData(todo[1..]) by { MoreData(todo); }
      var c := todo[0];
      InBuffer(buf, at, todo, ending);
      AfterChunk(buf, at, todo, ending);
      var dataAt, next := at + |c.Line()|, at + |c.Line()| + |c.data| + 2;
      CollateData(buf, next, todo[1..], ending);
      CollateCons(buf, Span(dataAt, |c.data|), DataSpans(todo[1..], next));
    }
  }

  lemma MoreData(todo: seq<Chunk>)
    requires todo != []
    ensures AllData(todo) == todo[0].data + AllData(todo[1..])
  {
  }

  lemma NoSpans(buf: Bytes, at: nat)
    ensures Collated(buf, DataSpans([], at)) == AllData([])
  {
  }

  lemma InBuffer(buf: Bytes, at: nat, todo: seq<Chunk>, ending: Ending)
    requires at <= |buf| && todo != [] && ValidChunks(todo) && ending.Valid()
    requires buf[at..] == EncodeAll(todo) + ending.Encode()
    ensures at < |buf|
  {
    hide Ending.Encode;
    assert |buf[at..]| == |buf| - at;
  }

  /** The header's span in front of others that come after it. */
  lemma HeaderFirst(buf: Bytes, header: Bytes, spans: seq<Span>, data: Bytes, end: nat, limit: nat)
    requires Ordered(spans, end) && Behind(spans, |header|) && |header| <= end <= limit <= |buf|
    requires Piece(buf, Span(0, |header|)) == header && Collated(buf, spans) == data
    ensures var all := [Span(0, |header|)] + spans;
            && Ordered(all, limit)
            && Collated(buf, all) == header + data
            && TotalLength(all) == |header| + |data|
  {
    hide Collated, TotalLength, Piece;
    var all := [Span(0, |header|)] + spans;
    assert Ordered(all, limit);
    CollateCons(buf, Span(0, |header|), spans);
    assert Inside(all, |buf|);
    CollatedLength(buf, all);
  }

  /** A buffer that holds a complete message. */
  ghost predicate IsComplete(buf: Bytes, header: Bytes, chunks: seq<Chunk>, ending: Ending) {
    ValidChunks(chunks) && ending.Last? && ending.Valid() && buf == Buffer(header, chunks, ending)
  }

  lemma BufferParts(buf: Bytes, header: Bytes, chunks: seq<Chunk>, ending: Ending)
    requires ending.Last? && IsComplete(buf, header, chunks, ending)
    ensures |header| + |EncodeAll(chunks)| + |ending.rest| <= |buf|
    ensures header <= buf && Piece(buf, Span(0, |header|)) == header
    ensures buf[|header|..] == EncodeAll(chunks) + ending.Encode()
    ensures buf[|buf| - |ending.rest|..] == ending.rest
  {
    hide EncodeAll, Chunk.Line;
    assert buf == header + EncodeAll(chunks) + ending.last.Line() + ending.rest;
    assert buf[0..|header|] == header;
  }

  lemma CollateBody(buf: Bytes, header: Bytes, chunks: seq<Chunk>, ending: Ending)
    requires ending.Last? && IsComplete(buf, header, chunks, ending)
    ensures Collated(buf, DataSpans(chunks, |header|)) == AllData(chunks)
  {
    hide Buffer, Collated, DataSpans, AllData, EncodeAll, Ending.Encode;
    BufferParts(buf, header, chunks, ending);
    CollateData(buf, |header|, chunks, ending);
  }

  /** What the parser notes is in order, and collates to the header and all chunk data. */
  lemma SpansCollate(buf: Bytes, header: Bytes, chunks: seq<Chunk>, ending: Ending)
    requires ending.Last? && IsComplete(buf, header, chunks, ending)
    ensures var spans := [Span(0, |header|)] + DataSpans(chunks, |header|);
            && |ending.rest| <= |buf|
            && Ordered(spans, |buf| - |ending.rest|)
            && Collated(buf, spans) == header + AllData(chunks)
            && TotalLength(spans) == |header| + |AllData(chunks)|
  {
    hide *;
    assert |header| + |EncodeAll(chunks)| + |ending.rest| <= |buf| && Piece(buf, Span(0, |header|)) == header by {
      BufferParts(buf, header, chunks, ending);
    }
    assert Collated(buf, DataSpans(chunks, |header|)) == AllData(chunks) by {
      CollateBody(buf, header, chunks, ending);
    }
    DataSpansOrdered(chunks, |header|);
    HeaderFirst(buf, header, DataSpans(chunks, |header|), AllData(chunks), |header| + |EncodeAll(chunks)|,
        |buf| - |ending.rest|);
  }

  /** A chunked message in the buffer becomes its header and its data, moved together in
      place; what follows the last chunk's line stays behind it, and the message size is the
      size of the compacted message. */
  method ParseAndCompact(buf: array<Byte>, ghost header: Bytes, ghost chunks: seq<Chunk>, ghost last: Chunk,
                         ghost rest: Bytes)
    returns (newSize: nat, messageSize: nat)
    requires IsHeader(header) && ValidChunks(chunks) && AllClosed(chunks) && Last(last, rest).Valid()
    requires buf[..] == Buffer(header, chunks, Last(last, rest))
    modifies buf
    ensures newSize <= buf.Length && messageSize == |header| + |AllData(chunks)|
    ensures buf[..newSize] == header + AllData(chunks) + rest
  {
    hide EncodeAll, Chunk.Line, ValidChunks, AllClosed, DataSpans, IsHeader, Ordered, Collated, TotalLength, Buffer,
        AllData;
    ghost var ending := Last(last, rest);
    ghost var was := buf[..];
    SpansCollate(was, header, chunks, ending);
    BufferParts(was, header, chunks, ending);
    var found, headerSize := FindHeaderEnd(buf[..]);
    var complete, size, spans := ParseChunks(buf[..], headerSize, header, chunks, ending);
    var moved, n, m := CompactChunks(buf, size, spans);
    newSize, messageSize := n, m;
  }
}
