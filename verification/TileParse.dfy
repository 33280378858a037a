/** Reading tile requests: TileDesc::parse of wsd/TileDesc.hpp, which gives back what serialize
    has written. */
module TileParsing {
  import opened Basics
  import opened Text
  import opened Tiles
  import opened TileText
  import opened InvalidationText

  // ----- names and values -----

  /** A token with a name and something behind the equals sign. */
  predicate Named(token: string, name: string) {
    |token| > |name| + 1 && name <= token && token[|name|] == '='
  }

  function SkipSpaces(s: string): string {
    if s != [] && IsSpace(s[0]) then SkipSpaces(s[1..]) else s
  }

  /** Whether strtoul and std::stoi find a number. */
  predicate HasNumber(s: string) {
    var u := SkipSpaces(s);
    var v := if u != [] && (u[0] == '-' || u[0] == '+') then u[1..] else u;
    v != [] && IsDigit(v[0])
  }

  const UINT32_RANGE := 0x1_0000_0000

  /** common/Protocol.cpp:127-140: the value, if the token has the name, and whether it had a number. */
  function UInt32Of(token: string, name: string, before: nat): (nat, bool) {
    if Named(token, name) then
      var text := token[|name| + 1..];
      (Atoi(text) % UINT32_RANGE, HasNumber(text))
    else (before, false)
  }

  /** common/Protocol.hpp:53-71. */
  function IntegerPair(token: string): Option<(string, int)> {
    var name := BeforeEquals(token);
    if |name| < |token| && HasNumber(token[|name| + 1..]) then Some((name, Atoi(token[|name| + 1..]))) else None
  }

  datatype Found = Found(oldWireId: nat, wireId: nat, pairs: map<string, int>)

  const NOTHING_FOUND := Found(0, 0, map["ver" := -1, "imgsize" := 0, "id" := -1])

  /** One turn of the loop of wsd/TileDesc.hpp:209-223. */
  function FindMore(f: Found, token: string): Found {
    var (oldWireId, isOld) := UInt32Of(token, "oldwid", f.oldWireId);
    if isOld then f.(oldWireId := oldWireId)
    else
      var (wireId, isNew) := UInt32Of(token, "wid", f.wireId);
      var g := f.(oldWireId := oldWireId, wireId := wireId);
      if isNew then g
      else
        match IntegerPair(token)
        case None => g
        case Some((name, value)) => g.(pairs := f.pairs[name := value])
  }

  function FindAll(tokens: seq<string>): Found {
    if tokens == [] then NOTHING_FOUND else FindMore(FindAll(tokens[..|tokens| - 1]), tokens[|tokens| - 1])
  }

  /** common/Protocol.hpp:85-98, with common/Protocol.cpp:142-153: the first value of a name. */
  function StringOf(tokens: seq<string>, name: string): Option<string> {
    if tokens == [] then None
    else if |tokens[0]| >= |name| + 1 && name <= tokens[0] && tokens[0][|name|] == '=' then
      Some(tokens[0][|name| + 1..])
    else StringOf(tokens[1..], name)
  }

  function Value(f: Found, name: string): int {
    if name in f.pairs then f.pairs[name] else 0
  }

  /** The tile described, unless the constructor refuses it (wsd/TileDesc.hpp:31-58). */
  function Described(f: Found, broadcast: bool): Option<TileDesc> {
    var nviewid, part, width, height := Value(f, "nviewid"), Value(f, "part"), Value(f, "width"), Value(f, "height");
    var x, y := Value(f, "tileposx"), Value(f, "tileposy");
    var tileWidth, tileHeight := Value(f, "tilewidth"), Value(f, "tileheight");
    var imgSize := Value(f, "imgsize");
    if nviewid < 0 || part < 0 || width <= 0 || height <= 0 || x < 0 || y < 0 || tileWidth <= 0 || tileHeight <= 0
       || imgSize < 0
    then None
    else
      Some(TileDesc(nviewid, part, width, height, x, y, tileWidth, tileHeight, f.oldWireId, f.wireId,
                    Value(f, "ver"), Value(f, "id"), imgSize, broadcast))
  }

  function ParseOf(tokens: seq<string>): Option<TileDesc> {
    Described(FindAll(tokens), StringOf(tokens, "broadcast") == Some("yes"))
  }

  /** wsd/TileDesc.hpp:196-241. */
  method Parse(message: string) returns (tile: Option<TileDesc>)
    ensures tile == ParseOf(Words(FirstLine(message)))
  {
    hide Words, FirstLine, FindMore, Described, StringOf;
    var tokens := Tokenize(message);
    var f := NOTHING_FOUND;
    assert tokens[..0] == [];
    for i := 0 to |tokens|
      invariant f == FindAll(tokens[..i])
    {
      assert tokens[..i + 1][..i] == tokens[..i];
      f := FindMore(f, tokens[i]);
    }
    assert tokens[..|tokens|] == tokens;
    tile := Described(f, StringOf(tokens, "broadcast") == Some("yes"));
  }

  // ----- the tokens of a written request -----

  /** Words, each with a space in front. */
  function Led(words: seq<string>): string {
    if words == [] then "" else Led(words[..|words| - 1]) + " " + words[|words| - 1]
  }

  lemma {:induction false} LedBoth(a: seq<string>, b: seq<string>)
    ensures Led(a + b) == Led(a) + Led(b)
  {
    if b == [] {
      assert a + b == a && Led(a) + "" == Led(a);
    } else {
      var n := |b| - 1;
      assert (a + b)[..|a + b| - 1] == a + b[..n];
      LedBoth(a, b[..n]);
      hide *;
      LedLast(a + b[..n], b[n]);
      LedLast(b[..n], b[n]);
      assert a + b == (a + b[..n]) + [b[n]] && b == b[..n] + [b[n]];
      Assoc(Led(a), Led(b[..n]), " ");
      Assoc(Led(a), Led(b[..n]) + " ", b[n]);
    }
  }

  lemma LedLast(words: seq<string>, w: string)
    ensures Led(words + [w]) == Led(words) + " " + w
  {
    assert (words + [w])[..|words|] == words;
  }

  lemma {:induction false} LedWords(first: string, words: seq<string>)
    requires IsWord(first) && '\n' !in first && Clean(words)
    ensures Words(FirstLine(first + Led(words))) == [first] + words
  {
    LedLine(first, words);
    hide FirstLine, Words;
    OneLine(first + Led(words));
    if words == [] {
      WordsOfOne(first);
      assert first + "" == first && [first] + [] == [first];
    } else {
      var n := |words| - 1;
      var before := Led(words[..n]);
      assert Led(words) == before + " " + words[n];
      hide Led;
      LedWords(first, words[..n]);
      LedLine(first, words[..n]);
      OneLine(first + before);
      WordsAtSpace(first + before, words[n]);
      WordsOfOne(words[n]);
      Assoc(first, before + " ", words[n]);
      Assoc(first, before, " ");
      assert words == words[..n] + [words[n]];
      Assoc([first], words[..n], [words[n]]);
    }
  }

  lemma {:induction false} LedLine(first: string, words: seq<string>)
    requires '\n' !in first && Clean(words)
    ensures '\n' !in first + Led(words)
  {
    if words != [] {
      LedLine(first, words[..|words| - 1]);
    }
  }

  function Token(name: string, n: int): string {
    name + "=" + Decimal(n)
  }

  predicate IsName(s: string) {
    s != [] && '=' !in s && ' ' !in s && '\n' !in s
  }

  function FieldTokens(labels: seq<string>, values: seq<nat>): (r: seq<string>)
    requires |labels| == |values|
    ensures |r| == |labels| && forall i :: 0 <= i < |r| ==> r[i] == Token(labels[i], values[i])
  {
    if labels == [] then [] else [Token(labels[0], values[0])] + FieldTokens(labels[1..], values[1..])
  }

  lemma TokenText(name: string, digits: string)
    ensures " " + name + "=" + digits == " " + (name + "=" + digits)
  {
    Assoc(" " + name, "=", digits);
    Assoc(" ", name, "=" + digits);
    Assoc(name, "=", digits);
  }

  lemma FieldTextFirst(labels: seq<string>, values: seq<nat>)
    requires |labels| == |values| > 0
    ensures FieldText(labels, values) == (" " + Token(labels[0], values[0])) + FieldText(labels[1..], values[1..])
  {
    hide Digits;
    TokenText(labels[0], Digits(values[0]));
  }

  lemma {:induction false} FieldsLed(labels: seq<string>, values: seq<nat>)
    requires |labels| == |values|
    ensures FieldText(labels, values) == Led(FieldTokens(labels, values))
  {
    if labels != [] {
      FieldTextFirst(labels, values);
      var first, rest := Token(labels[0], values[0]), FieldTokens(labels[1..], values[1..]);
      assert FieldTokens(labels, values) == [first] + rest;
      FieldsLed(labels[1..], values[1..]);
      hide FieldText, Led, FieldTokens, Token;
      LedBoth([first], rest);
      LedOne(first);
    }
  }

  function TailTokens(t: Tile): seq<string> {
    [Token("ver", t.ver)] +
    (if t.id >= 0 then [Token("id", t.id)] else []) +
    (if t.imgSize > 0 then [Token("imgsize", t.imgSize)] else []) +
    (if t.broadcast then ["broadcast=yes"] else [])
  }

  lemma LedOne(w: string)
    ensures Led([w]) == " " + w
  {
    assert [w][..0] == [];
    assert "" + " " + w == " " + w;
  }

  lemma LedIf(there: bool, w: string)
    ensures Led(if there then [w] else []) == if there then " " + w else ""
  {
    LedOne(w);
  }

  lemma TailLed(t: Tile)
    ensures Tail(t) == Led(TailTokens(t))
  {
    var ver, id, size := Token("ver", t.ver), Token("id", t.id), Token("imgsize", t.imgSize);
    var b: seq<string> := if t.id >= 0 then [id] else [];
    var c: seq<string> := if t.imgSize > 0 then [size] else [];
    var d: seq<string> := if t.broadcast then ["broadcast=yes"] else [];
    assert TailTokens(t) == [ver] + b + c + d;
    TailIs(t);
    hide *;
    LedBoth([ver], b);
    LedBoth([ver] + b, c);
    LedBoth([ver] + b + c, d);
    LedOne(ver);
    LedIf(t.id >= 0, id);
    LedIf(t.imgSize > 0, size);
    LedIf(t.broadcast, "broadcast=yes");
  }

  lemma TailIs(t: Tile)
    ensures Tail(t) ==
            " " + Token("ver", t.ver) +
            (if t.id >= 0 then " " + Token("id", t.id) else "") +
            (if t.imgSize > 0 then " " + Token("imgsize", t.imgSize) else "") +
            (if t.broadcast then " " + "broadcast=yes" else "")
  {
    hide Decimal;
    TokenText("ver", Decimal(t.ver));
    TokenText("id", Decimal(t.id));
    TokenText("imgsize", Decimal(t.imgSize));
    assert " " + "ver" + "=" == " ver=" && " " + "id" + "=" == " id=" && " " + "imgsize" + "=" == " imgsize=";
    assert " " + "broadcast=yes" == " broadcast=yes";
  }

  /** The words of a written request. */
  function TokensOf(t: Tile): seq<string> {
    FieldTokens(LABELS, Fields(t)) + TailTokens(t)
  }

  lemma SerializeLed(t: Tile)
    ensures Serialize(t) == "tile" + Led(TokensOf(t))
  {
    FieldsLed(LABELS, Fields(t));
    TailLed(t);
    LedBoth(FieldTokens(LABELS, Fields(t)), TailTokens(t));
    hide Led, Tail, FieldText, FieldTokens, TailTokens, Fields;
    Assoc("tile", FieldText(LABELS, Fields(t)), Tail(t));
  }

  // ----- single tokens -----

  lemma DecimalIsNumber(n: int)
    ensures HasNumber(Decimal(n)) && Atoi(Decimal(n)) == n
    ensures ' ' !in Decimal(n) && '\n' !in Decimal(n)
  {
    DecimalRead(n, "");
    assert Decimal(n) + "" == Decimal(n);
    var digits := Digits(if n < 0 then -n else n);
    hide Digits, Atoi;
    assert forall i :: 0 <= i < |digits| ==> digits[i] != ' ' && digits[i] != '\n';
    if n < 0 {
      assert Decimal(n)[0] == '-' && Decimal(n)[1..] == digits;
    }
  }

  lemma {:induction false} BeforeEqualsIs(name: string, rest: string)
    requires '=' !in name
    ensures BeforeEquals(name + "=" + rest) == name
  {
    if name == [] {
      assert (name + "=" + rest)[0] == '=';
    } else {
      assert (name + "=" + rest)[1..] == name[1..] + "=" + rest;
      BeforeEqualsIs(name[1..], rest);
    }
  }

  /** A name is found only where it is the name. */
  lemma NameIs(token: string, name: string)
    requires '=' !in name && |token| > |name| && name <= token && token[|name|] == '='
    ensures BeforeEquals(token) == name
  {
    assert token == name + "=" + token[|name| + 1..];
    BeforeEqualsIs(name, token[|name| + 1..]);
  }

  lemma TokenRead(name: string, n: int)
    requires IsName(name)
    ensures BeforeEquals(Token(name, n)) == name && |name| + 1 < |Token(name, n)|
    ensures Token(name, n)[|name| + 1..] == Decimal(n) && Named(Token(name, n), name)
    ensures IsWord(Token(name, n)) && '\n' !in Token(name, n)
  {
    BeforeEqualsIs(name, Decimal(n));
    DecimalIsNumber(n);
    assert Decimal(n) != [];
    hide Decimal, HasNumber;
  }

  lemma OtherName(token: string, name: string)
    requires '=' !in name && BeforeEquals(token) != name
    ensures !Named(token, name)
    ensures !(|token| >= |name| + 1 && name <= token && token[|name|] == '=')
  {
    if |token| >= |name| + 1 && name <= token && token[|name|] == '=' {
      NameIs(token, name);
    }
  }

  lemma FindPair(f: Found, name: string, n: int)
    requires IsName(name) && name != "oldwid" && name != "wid"
    ensures FindMore(f, Token(name, n)) == f.(pairs := f.pairs[name := n])
  {
    TokenRead(name, n);
    DecimalIsNumber(n);
    OtherName(Token(name, n), "oldwid");
    OtherName(Token(name, n), "wid");
    hide Token, Decimal, HasNumber, Named, Atoi, BeforeEquals;
  }

  lemma FindOldId(f: Found, n: nat)
    requires n < UINT32_RANGE
    ensures FindMore(f, Token("oldwid", n)) == f.(oldWireId := n)
  {
    TokenRead("oldwid", n);
    DecimalIsNumber(n);
    hide Token, Decimal, HasNumber, Named, Atoi, BeforeEquals;
  }

  lemma FindId(f: Found, n: nat)
    requires n < UINT32_RANGE
    ensures FindMore(f, Token("wid", n)) == f.(wireId := n)
  {
    TokenRead("wid", n);
    DecimalIsNumber(n);
    OtherName(Token("wid", n), "oldwid");
    hide Token, Decimal, HasNumber, Named, Atoi, BeforeEquals;
  }

  /** A word that is no pair of a name and a number changes nothing. */
  lemma FindNoPair(f: Found, token: string)
    requires BeforeEquals(token) != "oldwid" && BeforeEquals(token) != "wid" && IntegerPair(token) == None
    ensures FindMore(f, token) == f
  {
    OtherName(token, "oldwid");
    OtherName(token, "wid");
    hide BeforeEquals, HasNumber, Named, IntegerPair;
  }

  lemma TileIsNoPair()
    ensures BeforeEquals("tile") == "tile" && IntegerPair("tile") == None
  {
    NoEquals("tile");
    hide BeforeEquals, HasNumber;
  }

  lemma NoNumber(s: string)
    requires s != [] && !IsSpace(s[0]) && !IsDigit(s[0]) && s[0] != '-' && s[0] != '+'
    ensures !HasNumber(s)
  {
    assert SkipSpaces(s) == s;
  }

  lemma NoPairOf(name: string, value: string)
    requires '=' !in name && !HasNumber(value)
    ensures BeforeEquals(name + "=" + value) == name && IntegerPair(name + "=" + value) == None
  {
    BeforeEqualsIs(name, value);
    hide BeforeEquals, HasNumber;
    assert (name + "=" + value)[|name| + 1..] == value;
  }

  lemma BroadcastIsNoPair()
    ensures BeforeEquals("broadcast=yes") == "broadcast" && IntegerPair("broadcast=yes") == None
  {
    NoNumber("yes");
    hide BeforeEquals, HasNumber, IntegerPair;
    NoPairOf("broadcast", "yes");
    assert "broadcast=yes" == "broadcast" + "=" + "yes";
  }

  lemma {:induction false} NoEquals(s: string)
    requires '=' !in s
    ensures BeforeEquals(s) == s
  {
    if s != [] {
      NoEquals(s[1..]);
    }
  }

  // ----- all tokens -----

  lemma FindAllMore(tokens: seq<string>, token: string)
    ensures FindAll(tokens + [token]) == FindMore(FindAll(tokens), token)
  {
    assert (tokens + [token])[..|tokens|] == tokens;
  }

  /** How a name is told from the others: by its length and its last character. */
  function Tag(name: string): (nat, char) {
    (|name|, if name == [] then ' ' else name[|name| - 1])
  }

  const TAGS: seq<(nat, char)> :=
    [(7, 'd'), (4, 't'), (5, 'h'), (6, 't'), (8, 'x'), (8, 'y'), (9, 'h'), (10, 't'), (6, 'd'), (3, 'd')]

  lemma TagsAre()
    ensures |LABELS| == |TAGS| && forall i :: 0 <= i < |LABELS| ==> Tag(LABELS[i]) == TAGS[i] && IsName(LABELS[i])
    ensures Tag("ver") == (3, 'r') && Tag("id") == (2, 'd') && Tag("imgsize") == (7, 'e')
    ensures Tag("broadcast") == (9, 't')
    ensures Tag("oldwid") == TAGS[8] && Tag("wid") == TAGS[9] && Tag("tile") == (4, 'e')
  {
  }

  lemma LabelsDiffer(i: nat, j: nat)
    requires i < j < |LABELS|
    ensures LABELS[i] != LABELS[j]
  {
    TagsAre();
    hide Tag;
    assert TAGS[i] != TAGS[j];
  }

  /** What is found in the first tokens of a written request, up to its wire ids. */
  function AfterFields(values: seq<nat>, n: nat): Found
    requires n <= 8 <= |values|
  {
    if n == 0 then NOTHING_FOUND
    else
      var f := AfterFields(values, n - 1);
      f.(pairs := f.pairs[LABELS[n - 1] := values[n - 1]])
  }

  lemma NotWireIds(i: nat)
    requires i < 8
    ensures |LABELS| == 10 && IsName(LABELS[i]) && LABELS[i] != "oldwid" && LABELS[i] != "wid"
  {
    LabelsDiffer(i, 8);
    LabelsDiffer(i, 9);
    TagsAre();
    hide Tag;
  }

  lemma {:induction false} FindFields(tokens: seq<string>, values: seq<nat>, n: nat)
    requires n <= 8 && |LABELS| == 10 == |values| && tokens == FieldTokens(LABELS, values)
    ensures FindAll(["tile"] + tokens[..n]) == AfterFields(values, n)
  {
    hide FindMore, FindAll, Token, LABELS, FieldTokens, NOTHING_FOUND;
    if n == 0 {
      NothingFoundYet();
      assert ["tile"] + tokens[..0] == ["tile"];
    } else {
      FindFields(tokens, values, n - 1);
      assert ["tile"] + tokens[..n] == (["tile"] + tokens[..n - 1]) + [tokens[n - 1]];
      FindAllMore(["tile"] + tokens[..n - 1], tokens[n - 1]);
      NotWireIds(n - 1);
      FindPair(AfterFields(values, n - 1), LABELS[n - 1], values[n - 1]);
    }
  }

  lemma NothingFoundYet()
    ensures FindAll(["tile"]) == NOTHING_FOUND
  {
    FindAllMore([], "tile");
    TileIsNoPair();
    FindNoPair(NOTHING_FOUND, "tile");
    hide FindMore;
    assert [] + ["tile"] == ["tile"];
  }

  lemma {:induction false} FieldsFound(values: seq<nat>, n: nat, i: nat)
    requires i < n <= 8 && |values| == |LABELS|
    ensures LABELS[i] in AfterFields(values, n).pairs && AfterFields(values, n).pairs[LABELS[i]] == values[i]
  {
    if i < n - 1 {
      FieldsFound(values, n - 1, i);
      LabelsDiffer(i, n - 1);
    }
  }

  lemma {:induction false} DefaultsStay(values: seq<nat>, n: nat)
    requires n <= 8 && |values| == |LABELS|
    ensures var f := AfterFields(values, n);
            && Value(f, "ver") == -1 && Value(f, "id") == -1 && Value(f, "imgsize") == 0
            && f.oldWireId == 0 && f.wireId == 0
  {
    if n > 0 {
      DefaultsStay(values, n - 1);
      TagsAre();
      hide Tag;
      assert TAGS[n - 1] != (3, 'r') && TAGS[n - 1] != (2, 'd') && TAGS[n - 1] != (7, 'e');
      assert LABELS[n - 1] != "ver" && LABELS[n - 1] != "id" && LABELS[n - 1] != "imgsize";
    }
  }

  lemma LabelsAre()
    ensures |LABELS| == 10
    ensures LABELS[0] == "nviewid" && LABELS[1] == "part" && LABELS[2] == "width" && LABELS[3] == "height"
    ensures LABELS[4] == "tileposx" && LABELS[5] == "tileposy" && LABELS[6] == "tilewidth" && LABELS[7] == "tileheight"
    ensures LABELS[8] == "oldwid" && LABELS[9] == "wid"
  {
  }

  /** With the wire ids. */
  lemma FindTen(tokens: seq<string>, values: seq<nat>)
    requires |LABELS| == 10 == |values| && tokens == FieldTokens(LABELS, values)
    requires values[8] < UINT32_RANGE && values[9] < UINT32_RANGE
    ensures FindAll(["tile"] + tokens) == AfterFields(values, 8).(oldWireId := values[8], wireId := values[9])
  {
    LabelsAre();
    hide FindMore, FindAll, Token, LABELS, FieldTokens, AfterFields;
    FindFields(tokens, values, 8);
    var f, all := AfterFields(values, 8), ["tile"] + tokens[..8];
    assert ["tile"] + tokens == all + [tokens[8]] + [tokens[9]];
    FindAllMore(all, tokens[8]);
    FindAllMore(all + [tokens[8]], tokens[9]);
    FindOldId(f, values[8]);
    FindId(f.(oldWireId := values[8]), values[9]);
  }

  /** What a request's optional end adds. */
  function AfterTail(f: Found, t: Tile): Found {
    var a := f.pairs["ver" := t.ver];
    var b := if t.id >= 0 then a["id" := t.id] else a;
    f.(pairs := if t.imgSize > 0 then b["imgsize" := t.imgSize] else b)
  }

  lemma TailNames()
    ensures IsName("ver") && IsName("id") && IsName("imgsize")
    ensures "ver" != "oldwid" && "ver" != "wid" && "id" != "oldwid" && "id" != "wid"
    ensures "imgsize" != "oldwid" && "imgsize" != "wid"
  {
    TagsAre();
    hide Tag;
  }

  lemma OptionalPair(before: seq<string>, there: bool, name: string, n: int)
    requires IsName(name) && name != "oldwid" && name != "wid"
    ensures var f := FindAll(before);
            FindAll(before + if there then [Token(name, n)] else []) ==
            if there then f.(pairs := f.pairs[name := n]) else f
  {
    hide FindMore, FindAll, Token;
    if there {
      FindAllMore(before, Token(name, n));
      FindPair(FindAll(before), name, n);
    } else {
      assert before + [] == before;
    }
  }

  lemma OptionalMark(before: seq<string>, there: bool)
    ensures FindAll(before + if there then ["broadcast=yes"] else []) == FindAll(before)
  {
    BroadcastIsNoPair();
    TailNames();
    hide FindMore, FindAll, BeforeEquals, IntegerPair;
    if there {
      FindAllMore(before, "broadcast=yes");
      FindNoPair(FindAll(before), "broadcast=yes");
    } else {
      assert before + [] == before;
    }
  }

  lemma FindTail(before: seq<string>, t: Tile)
    ensures FindAll(before + TailTokens(t)) == AfterTail(FindAll(before), t)
  {
    TailNames();
    TailGrouped(before, t);
    hide FindMore, FindAll, Token, TailTokens;
    OptionalPair(before, true, "ver", t.ver);
    var a := before + [Token("ver", t.ver)];
    OptionalPair(a, t.id >= 0, "id", t.id);
    var b := a + if t.id >= 0 then [Token("id", t.id)] else [];
    OptionalPair(b, t.imgSize > 0, "imgsize", t.imgSize);
    OptionalMark(b + if t.imgSize > 0 then [Token("imgsize", t.imgSize)] else [], t.broadcast);
  }

  lemma TailGrouped(before: seq<string>, t: Tile)
    ensures before + TailTokens(t) ==
            before + [Token("ver", t.ver)] + (if t.id >= 0 then [Token("id", t.id)] else []) +
            (if t.imgSize > 0 then [Token("imgsize", t.imgSize)] else []) +
            (if t.broadcast then ["broadcast=yes"] else [])
  {
    hide Token;
  }

  // ----- the broadcast mark -----

  /** No token of some has the name. */
  ghost predicate Nameless(tokens: seq<string>, name: string) {
    forall i :: 0 <= i < |tokens| ==> BeforeEquals(tokens[i]) != name
  }

  lemma {:induction false} StringSkips(tokens: seq<string>, more: seq<string>, name: string)
    requires '=' !in name && Nameless(tokens, name)
    ensures StringOf(tokens + more, name) == StringOf(more, name)
  {
    if tokens == [] {
      assert tokens + more == more;
    } else {
      assert BeforeEquals(tokens[0]) != name;
      OtherName(tokens[0], name);
      assert (tokens + more)[1..] == tokens[1..] + more;
      hide BeforeEquals;
      StringSkips(tokens[1..], more, name);
    }
  }

  lemma LabelIsNoMark(i: nat)
    requires i < |LABELS|
    ensures IsName(LABELS[i]) && LABELS[i] != "broadcast"
  {
    TagsAre();
    hide Tag;
    assert TAGS[i] != (9, 't');
  }

  lemma FieldsNameless(values: seq<nat>)
    requires |values| == |LABELS|
    ensures Nameless(FieldTokens(LABELS, values), "broadcast")
  {
    hide BeforeEquals, LABELS, Token;
    var tokens := FieldTokens(LABELS, values);
    forall i | 0 <= i < |tokens| ensures BeforeEquals(tokens[i]) != "broadcast" {
      LabelIsNoMark(i);
      TokenRead(LABELS[i], values[i]);
    }
  }

  lemma TailNameless(t: Tile)
    ensures StringOf(TailTokens(t), "broadcast") == if t.broadcast then Some("yes") else None
  {
    TailNames();
    TagsAre();
    TokenRead("ver", t.ver);
    TokenRead("id", t.id);
    TokenRead("imgsize", t.imgSize);
    hide BeforeEquals, Token, Tag;
    var numbers := [Token("ver", t.ver)] + (if t.id >= 0 then [Token("id", t.id)] else []) +
                   (if t.imgSize > 0 then [Token("imgsize", t.imgSize)] else []);
    var mark := if t.broadcast then ["broadcast=yes"] else [];
    assert Nameless(numbers, "broadcast");
    StringSkips(numbers, mark, "broadcast");
    assert TailTokens(t) == numbers + mark;
    MarkRead();
  }

  lemma MarkRead()
    ensures StringOf(["broadcast=yes"], "broadcast") == Some("yes") && StringOf([], "broadcast") == None
  {
    var name := "broadcast";
    var token := "broadcast=yes";
    assert token == name + "=" + "yes";
    assert name <= token && token[|name|] == '=' && token[|name| + 1..] == "yes";
  }

  lemma MarkFound(t: Tile)
    ensures StringOf(["tile"] + TokensOf(t), "broadcast") == if t.broadcast then Some("yes") else None
  {
    TileIsNoPair();
    FieldsNameless(Fields(t));
    TailNameless(t);
    hide BeforeEquals, FieldTokens, TailTokens, StringOf, Fields;
    var fields := FieldTokens(LABELS, Fields(t));
    StringSkips(fields, TailTokens(t), "broadcast");
    assert Nameless(["tile"], "broadcast");
    StringSkips(["tile"], TokensOf(t), "broadcast");
  }

  // ----- the round trip -----

  lemma WordClean(name: string, n: int)
    requires IsName(name)
    ensures IsWord(Token(name, n)) && '\n' !in Token(name, n)
  {
    TokenRead(name, n);
  }

  lemma FieldsClean(values: seq<nat>)
    requires |values| == |LABELS|
    ensures Clean(FieldTokens(LABELS, values))
  {
    hide LABELS, Token, IsName;
    var tokens := FieldTokens(LABELS, values);
    forall i | 0 <= i < |tokens| ensures IsWord(tokens[i]) && '\n' !in tokens[i] {
      LabelIsNoMark(i);
      WordClean(LABELS[i], values[i]);
    }
  }

  lemma TailClean(t: Tile)
    ensures Clean(TailTokens(t))
  {
    TailNames();
    WordClean("ver", t.ver);
    WordClean("id", t.id);
    WordClean("imgsize", t.imgSize);
    hide Token, IsName;
    assert IsWord("broadcast=yes") && '\n' !in "broadcast=yes";
  }

  lemma CleanBoth(a: seq<string>, b: seq<string>)
    requires Clean(a) && Clean(b)
    ensures Clean(a + b)
  {
  }

  /** The tokens of a written request are the words that were written. */
  lemma SerializedWords(t: Tile)
    ensures Words(FirstLine(Serialize(t))) == ["tile"] + TokensOf(t)
  {
    SerializeLed(t);
    FieldsClean(Fields(t));
    TailClean(t);
    hide FieldTokens, TailTokens, Serialize, Led, Words, FirstLine, Clean, Fields;
    CleanBoth(FieldTokens(LABELS, Fields(t)), TailTokens(t));
    LedWords("tile", TokensOf(t));
  }

  /** The values that are found under the names, the tail notwithstanding. */
  lemma TailKeeps(f: Found, t: Tile, i: nat)
    requires i < 8 && |LABELS| == 10
    ensures Value(AfterTail(f, t), LABELS[i]) == Value(f, LABELS[i])
  {
    TagsAre();
    hide Tag;
    assert TAGS[i] != (3, 'r') && TAGS[i] != (2, 'd') && TAGS[i] != (7, 'e');
    assert LABELS[i] != "ver" && LABELS[i] != "id" && LABELS[i] != "imgsize";
  }

  lemma TailFound(f: Found, t: Tile)
    requires Value(f, "id") == -1 && Value(f, "imgsize") == 0
    ensures var g := AfterTail(f, t);
            Value(g, "ver") == t.ver && Value(g, "id") == t.id && Value(g, "imgsize") == t.imgSize
  {
    TagsAre();
    hide Tag;
    assert "ver" != "id" && "ver" != "imgsize" && "id" != "imgsize";
  }

  /** What is found in a written request. */
  lemma FoundAgain(t: Tile)
    requires t.wireId < UINT32_RANGE && t.oldWireId < UINT32_RANGE
    ensures var f := FindAll(["tile"] + TokensOf(t));
            && |LABELS| == 10 && (forall i :: 0 <= i < 8 ==> Value(f, LABELS[i]) == Fields(t)[i])
            && Value(f, "ver") == t.ver && Value(f, "id") == t.id && Value(f, "imgsize") == t.imgSize
            && f.oldWireId == t.oldWireId && f.wireId == t.wireId
  {
    LabelsAre();
    var values := Fields(t);
    assert values[8] == t.oldWireId && values[9] == t.wireId;
    hide FieldTokens, TailTokens, FindAll, LABELS, Fields, NOTHING_FOUND;
    var fields := FieldTokens(LABELS, values);
    FindTen(fields, values);
    Assoc(["tile"], fields, TailTokens(t));
    FindTail(["tile"] + fields, t);
    DefaultsStay(values, 8);
    var f := FindAll(["tile"] + fields);
    assert f.pairs == AfterFields(values, 8).pairs;
    hide AfterFields;
    TailFound(f, t);
    forall i | 0 <= i < 8 ensures Value(AfterTail(f, t), LABELS[i]) == values[i] {
      FieldsFound(values, 8, i);
      TailKeeps(f, t, i);
    }
  }

  /** A request that was written is read back, whatever its fields and its optional ones; the wire
      ids are of 32 bits, as TileWireId is. */
  lemma ParseSerialize(t: Tile)
    requires t.wireId < UINT32_RANGE && t.oldWireId < UINT32_RANGE
    ensures ParseOf(Words(FirstLine(Serialize(t)))) == Some(t)
  {
    SerializedWords(t);
    MarkFound(t);
    FoundAgain(t);
    LabelsAre();
    FieldsAre(t);
    hide Words, FirstLine, Serialize, TokensOf, FindAll, StringOf, LABELS, Fields, Value;
    var f := FindAll(["tile"] + TokensOf(t));
    assert Value(f, LABELS[0]) == t.nviewid && Value(f, LABELS[1]) == t.part;
    assert Value(f, LABELS[2]) == t.width && Value(f, LABELS[3]) == t.height;
    assert Value(f, LABELS[4]) == t.x && Value(f, LABELS[5]) == t.y;
    assert Value(f, LABELS[6]) == t.tileWidth && Value(f, LABELS[7]) == t.tileHeight;
  }

  lemma FieldsAre(t: Tile)
    ensures var v := Fields(t);
            && v[0] == t.nviewid && v[1] == t.part && v[2] == t.width && v[3] == t.height
            && v[4] == t.x && v[5] == t.y && v[6] == t.tileWidth && v[7] == t.tileHeight
  {
  }

  /** Whatever is parsed has a size. */
  lemma ParsedHasSize(tokens: seq<string>)
    requires ParseOf(tokens).Some?
    ensures var t := ParseOf(tokens).value; t.width > 0 && t.height > 0 && t.tileWidth > 0 && t.tileHeight > 0
  {
    hide FindAll, StringOf;
  }

  // ----- previews -----

  lemma FieldsHaveNoId(values: seq<nat>)
    requires |values| == |LABELS|
    ensures Nameless(FieldTokens(LABELS, values), "id")
  {
    hide BeforeEquals, LABELS, Token;
    var tokens := FieldTokens(LABELS, values);
    forall i | 0 <= i < |tokens| ensures BeforeEquals(tokens[i]) != "id" {
      LabelIsNoId(i);
      TokenRead(LABELS[i], values[i]);
    }
  }

  lemma LabelIsNoId(i: nat)
    requires i < |LABELS|
    ensures IsName(LABELS[i]) && LABELS[i] != "id"
  {
    TagsAre();
    hide Tag;
    assert TAGS[i] != (2, 'd');
  }

  lemma SizeIsNoId(n: int)
    ensures BeforeEquals(Token("imgsize", n)) != "id"
  {
    TagsAre();
    TokenRead("imgsize", n);
    hide BeforeEquals, Token, Tag;
  }

  lemma MarkHasNoId()
    ensures BeforeEquals("broadcast=yes") != "id"
  {
    var mark := "broadcast=yes";
    assert mark[0] == 'b';
    assert BeforeEquals(mark)[0] == 'b';
  }

  /** The tokens behind the version and the id. */
  function LastTokens(t: Tile): seq<string> {
    (if t.imgSize > 0 then [Token("imgsize", t.imgSize)] else []) + (if t.broadcast then ["broadcast=yes"] else [])
  }

  lemma LastHaveNoId(t: Tile)
    ensures Nameless(LastTokens(t), "id")
  {
    SizeIsNoId(t.imgSize);
    MarkHasNoId();
    hide BeforeEquals, Token;
  }

  lemma TailParts(t: Tile)
    ensures TailTokens(t) ==
            [Token("ver", t.ver)] + ((if t.id >= 0 then [Token("id", t.id)] else []) + LastTokens(t))
  {
    hide Token;
  }

  lemma VersionIsNoId(t: Tile)
    ensures BeforeEquals(Token("ver", t.ver)) != "id" && '=' !in "id"
  {
    TagsAre();
    TokenRead("ver", t.ver);
    hide BeforeEquals, Token, Tag;
  }

  lemma IdInTail(t: Tile)
    ensures StringOf(TailTokens(t), "id") == if t.id >= 0 then Some(Decimal(t.id)) else None
  {
    VersionIsNoId(t);
    LastHaveNoId(t);
    TailParts(t);
    IdIsName();
    TokenRead("id", t.id);
    hide BeforeEquals, Token, TailTokens, LastTokens, StringOf, IsName;
    var ids := if t.id >= 0 then [Token("id", t.id)] else [];
    StringSkips([Token("ver", t.ver)], ids + LastTokens(t), "id");
    if t.id >= 0 {
      FirstFound(ids + LastTokens(t), "id", Decimal(t.id));
    } else {
      StringSkips(LastTokens(t), [], "id");
      assert ids + LastTokens(t) == LastTokens(t) + [];
      NoneFound("id");
    }
  }

  lemma IdIsName()
    ensures IsName("id")
  {
  }

  /** A request has an id in its text exactly if it is a preview, and it is the tile's. */
  lemma IdFound(t: Tile)
    ensures StringOf(Words(FirstLine(Serialize(t))), "id") == if t.id >= 0 then Some(Decimal(t.id)) else None
  {
    SerializedWords(t);
    TileIsNoId();
    FieldsHaveNoId(Fields(t));
    VersionIsNoId(t);
    IdInTail(t);
    hide Words, FirstLine, Serialize, BeforeEquals, FieldTokens, TailTokens, Fields, Token, StringOf;
    StringSkips(["tile"], TokensOf(t), "id");
    StringSkips(FieldTokens(LABELS, Fields(t)), TailTokens(t), "id");
  }

  lemma TileIsNoId()
    ensures Nameless(["tile"], "id")
  {
    TileIsNoPair();
    TagsAre();
    hide BeforeEquals, Tag;
  }

  lemma FirstFound(tokens: seq<string>, name: string, value: string)
    requires tokens != [] && Named(tokens[0], name) && tokens[0][|name| + 1..] == value
    ensures StringOf(tokens, name) == Some(value)
  {
  }

  lemma NoneFound(name: string)
    ensures StringOf([], name) == None
  {
  }
}
