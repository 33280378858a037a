/** The queue of common/MessageQueue.cpp as the texts that it holds, and the messages they are
    read as: putting texts does to the messages what TileQueues says. */
module TextQueues {
  import opened Basics
  import opened Text
  import opened InvalidationText
  import opened Tiles
  import opened TileText
  import opened TileQueues
  import opened TileQueueRuns
  import TileParsing

  // ----- what a text is read as -----

  function Tokens(text: string): seq<string> {
    Words(FirstLine(text))
  }

  /** common/MessageQueue.cpp:144-154. */
  function UnoCommand(command: string): string {
    if ".uno:" <= command then BeforeEquals(command) else ""
  }

  predicate ViewKind(kind: nat) {
    kind == 24 || kind == 26 || kind == 28
  }

  predicate StatusKind(kind: nat) {
    kind == 1 || kind == 5 || kind == 10 || kind == 13 || kind == 17 || ViewKind(kind)
  }

  /** The type of a callback, if only the latest of its type counts. */
  function KindOf(word: string): (r: Option<nat>)
    ensures r.Some? ==> StatusKind(r.value) && word == Decimal(r.value)
  {
    if word == Decimal(1) then Some(1)
    else if word == Decimal(5) then Some(5)
    else if word == Decimal(10) then Some(10)
    else if word == Decimal(13) then Some(13)
    else if word == Decimal(17) then Some(17)
    else if word == Decimal(24) then Some(24)
    else if word == Decimal(26) then Some(26)
    else if word == Decimal(28) then Some(28)
    else None
  }

  /** What the queue takes a message other than a tile request for; viewOf stands for the view
      that the JSON text in it names. */
  function BodyOf(text: string, viewOf: string -> string): Body {
    var tokens := Tokens(text);
    if |tokens| < 3 || tokens[0] != "callback" then Other
    else if tokens[2] == "0" then
      match ExtractRectangle(tokens)
      case None => Other
      case Some(area) => Invalidation(tokens[1], area)
    else if tokens[2] == "8" then
      if |tokens| < 4 || UnoCommand(tokens[3]) == "" then Other else Update(StateOf(tokens[1], UnoCommand(tokens[3])))
    else
      match KindOf(tokens[2])
      case None => Other
      case Some(kind) =>
        Update(if ViewKind(kind) then ViewStatusOf(tokens[1], kind, viewOf(text)) else StatusOf(tokens[1], kind))
  }

  /** A text as it is written by the kit and the server: it begins with its first word, only
      callbacks begin with that word, and an invalidation with a rectangle can be rewritten. */
  predicate AsWritten(text: string) {
    var tokens := Tokens(text);
    && tokens != [] && FirstWord(text) == tokens[0]
    && ("callback" <= tokens[0] ==> tokens[0] == "callback")
    && (|tokens| >= 8 && tokens[0] == "callback" && tokens[2] == "0" && tokens[3] != "EMPTY," ==> Rewritable(text))
  }

  /** A tile request, written out, or a message that is put as it is. */
  predicate ReadsAs(text: string, body: Body, viewOf: string -> string) {
    match body
    case TileRequest(t) => text == Serialize(t)
    case _ =>
      && AsWritten(text) && body == BodyOf(text, viewOf)
      && FirstWord(text) != "tile" && FirstWord(text) != "tilecombine" && FirstWord(text) != "canceltiles"
  }

  ghost predicate Reads(queue: seq<string>, values: Queue, viewOf: string -> string) {
    |queue| == |values| && forall i :: 0 <= i < |queue| ==> ReadsAs(queue[i], values[i].body, viewOf)
  }

  /** Messages whose text is never rewritten. */
  predicate StaysAsPut(m: Message) {
    m.body.Update? || m.body.Other?
  }

  /** They still have the text that their stamp stands for. */
  ghost predicate KeepsTexts(queue: seq<string>, values: Queue, textOf: nat -> string) {
    |queue| == |values| && forall i :: 0 <= i < |queue| && StaysAsPut(values[i]) ==> queue[i] == textOf(values[i].stamp)
  }

  function WithoutText(queue: seq<string>, k: nat): seq<string> {
    if k < |queue| then queue[..k] + queue[k + 1..] else queue
  }

  lemma ReadsWithout(queue: seq<string>, values: Queue, viewOf: string -> string, textOf: nat -> string, k: nat)
    requires Reads(queue, values, viewOf) && KeepsTexts(queue, values, textOf) && k < |queue|
    ensures Reads(WithoutText(queue, k), Without(values, k), viewOf)
    ensures KeepsTexts(WithoutText(queue, k), Without(values, k), textOf)
  {
    hide ReadsAs;
  }

  lemma ReadsMore(queue: seq<string>, values: Queue, viewOf: string -> string, textOf: nat -> string, text: string,
                  m: Message)
    requires Reads(queue, values, viewOf) && ReadsAs(text, m.body, viewOf)
    requires KeepsTexts(queue, values, textOf) && (StaysAsPut(m) ==> text == textOf(m.stamp))
    ensures Reads(queue + [text], values + [m], viewOf) && KeepsTexts(queue + [text], values + [m], textOf)
  {
    hide ReadsAs;
  }

  // ----- the first words of texts -----

  lemma {:induction false} FirstWordIs(w: string, rest: string)
    requires ' ' !in w && (rest == [] || rest[0] == ' ')
    ensures FirstWord(w + rest) == w
  {
    if w == [] {
      assert w + rest == rest;
    } else {
      assert (w + rest)[1..] == w[1..] + rest;
      FirstWordIs(w[1..], rest);
    }
  }

  /** A word and a space at the start of a text are its first token. */
  lemma FirstOfText(w: string, text: string)
    requires IsWord(w) && '\n' !in w && w + " " <= text
    ensures FirstWord(text) == w && Tokens(text) != [] && Tokens(text)[0] == w
  {
    var rest := text[|w| + 1..];
    assert text == (w + " ") + rest;
    Assoc(w, " ", rest);
    FirstWordIs(w, " " + rest);
    assert Spaced([w]) == w + " " by {
      assert (w + " ") + "" == w + " ";
    }
    hide Words, FirstLine, Spaced, FirstWord;
    SpacedRead([w], rest);
  }

  lemma TileStarts(t: Tile)
    ensures "tile " <= Serialize(t)
  {
    HeadStarts(t);
    hide Head, Tail;
    assert "tile " <= "tile nviewid=" <= Head(t) <= Head(t) + Tail(t);
  }

  lemma TileTokens(t: Tile)
    ensures FirstWord(Serialize(t)) == "tile" && Tokens(Serialize(t)) != [] && Tokens(Serialize(t))[0] == "tile"
  {
    TileStarts(t);
    hide Serialize, FirstWord, Tokens;
    assert "tile" + " " == "tile ";
    FirstOfText("tile", Serialize(t));
  }

  /** matchPrefix("callback", ...) of common/Protocol.hpp:199-203 finds the callbacks. */
  lemma CallbackPrefix(text: string)
    requires AsWritten(text)
    ensures "callback" <= text <==> Tokens(text)[0] == "callback"
  {
    var w := FirstWord(text);
    hide Words, FirstLine, FirstWord, Rewritable;
    var prefix := "callback";
    assert forall i :: 0 <= i < 8 ==> prefix[i] != ' ';
    assert prefix <= text ==> forall i :: 0 <= i < 8 ==> text[i] != ' ';
    if prefix <= text && |w| >= 8 {
      assert w[..8] == text[..8];
    }
  }

  // ----- tile requests -----

  /** Nothing in a text, at its end included, looks like the beginning of a version. */
  predicate NoVersion(s: string) {
    forall i :: 0 <= i < |s| && s[i] == ' ' ==> i + 1 < |s| && s[i + 1] != 'v'
  }

  predicate IsLabel(s: string) {
    s != [] && s[0] != 'v' && ' ' !in s
  }

  lemma NoVersionBoth(a: string, b: string)
    requires NoVersion(a) && NoVersion(b)
    ensures NoVersion(a + b)
  {
  }

  lemma OneFieldNoVersion(name: string, n: nat)
    requires IsLabel(name)
    ensures NoVersion(" " + name + "=" + Digits(n))
  {
    var digits := Digits(n);
    hide Digits;
    assert forall i :: 0 <= i < |digits| ==> digits[i] != ' ';
    var s := " " + name + "=" + digits;
    assert s[1] == name[0];
    assert forall i :: 1 <= i <= |name| ==> s[i] == name[i - 1];
  }

  lemma {:induction false} FieldsNoVersion(labels: seq<string>, values: seq<nat>)
    requires |labels| == |values| && forall i :: 0 <= i < |labels| ==> IsLabel(labels[i])
    ensures NoVersion(FieldText(labels, values))
  {
    if labels != [] {
      OneFieldNoVersion(labels[0], values[0]);
      FieldsNoVersion(labels[1..], values[1..]);
      hide Digits, NoVersion;
      NoVersionBoth(" " + labels[0] + "=" + Digits(values[0]), FieldText(labels[1..], values[1..]));
    }
  }

  lemma LabelsAreLabels()
    ensures forall i :: 0 <= i < |LABELS| ==> IsLabel(LABELS[i])
  {
  }

  lemma HeadNoVersion(t: Tile)
    ensures NoVersion(Head(t))
  {
    LabelsAreLabels();
    FieldsNoVersion(LABELS, Fields(t));
    assert NoVersion("tile");
    hide FieldText, Fields, NoVersion, IsLabel;
    NoVersionBoth("tile", FieldText(LABELS, Fields(t)));
  }

  lemma NoVersionAt(s: string, i: nat)
    requires i < |s| && !(s[i] == ' ' && i + 1 < |s| && s[i + 1] == 'v')
    ensures !(" ver" <= s[i..])
  {
    var rest := s[i..];
    assert rest[0] == s[i] && (|rest| > 1 ==> rest[1] == s[i + 1]);
  }

  lemma NoVersionAnywhere(s: string, i: nat)
    requires NoVersion(s) && i <= |s|
    ensures !(" ver" <= s[i..])
  {
    if i < |s| {
      NoVersionAt(s, i);
    }
  }

  /** The version of a written request is found where its head ends, and not before. */
  lemma VersionBehindHead(t: Tile)
    ensures |Head(t)| + 4 <= |Serialize(t)| && " ver" <= Serialize(t)[|Head(t)|..]
    ensures forall i :: 0 <= i < |Head(t)| ==> !(" ver" <= Serialize(t)[i..])
  {
    HeadNoVersion(t);
    TailStarts(t);
    var text, head := Serialize(t), Head(t);
    assert text[|head|..] == Tail(t);
    hide Head, Tail;
    forall i | 0 <= i < |head| ensures !(" ver" <= text[i..]) {
      assert text[i] == head[i] && (i + 1 < |head| ==> text[i + 1] == head[i + 1]);
      NoVersionAt(text, i);
    }
  }

  lemma TailStarts(t: Tile)
    ensures " ver" <= Tail(t)
  {
    hide Decimal;
  }

  /** The beginning of a request that is compared is less than all of any request. */
  lemma HeadIsLess(t: Tile, u: Tile)
    requires Head(t) <= Serialize(u)
    ensures |Head(t)| < |Serialize(u)|
  {
    VersionBehindHead(u);
    HeadNoVersion(t);
    var head, text, at := Head(t), Serialize(u), |Head(u)|;
    hide Head, Serialize, NoVersion;
    if at <= |head| {
      NoVersionAnywhere(head, at);
      assert |head| == |text| ==> head == text;
    }
  }

  /** common/MessageQueue.cpp:118-119: the comparison finds the duplicates among the texts. */
  lemma DuplicateText(t: Tile, text: string, m: Message, viewOf: string -> string)
    requires ReadsAs(text, m.body, viewOf)
    ensures |text| > |Head(t)| && Head(t) <= text <==> DuplicateOf(t)(m)
  {
    if IsTile(m) {
      SameText(t, m.body.tile);
      hide Head, Serialize;
      if Head(t) <= text {
        HeadIsLess(t, m.body.tile);
      }
    } else {
      HeadStarts(t);
      hide Head, AsWritten, BodyOf, FirstWord;
      if Head(t) <= text {
        assert "tile " <= "tile nviewid=" <= Head(t) <= text;
        assert "tile" + " " == "tile ";
        FirstOfText("tile", text);
      }
    }
  }

  /** The text of a request in the queue is parsed to that request. */
  lemma TileRead(text: string, t: Tile, viewOf: string -> string)
    requires ReadsAs(text, TileRequest(t), viewOf)
    requires t.wireId < TileParsing.UINT32_RANGE && t.oldWireId < TileParsing.UINT32_RANGE
    ensures TileParsing.ParseOf(Tokens(text)) == Some(t)
  {
    hide Serialize, TileParsing.ParseOf;
    TileParsing.ParseSerialize(t);
  }

  // ----- callbacks -----

  /** The text of a tile request is not taken for a callback. */
  lemma TileIsNoCallback(t: Tile)
    ensures Tokens(Serialize(t)) != [] && Tokens(Serialize(t))[0] != "callback" && !("callback" <= Serialize(t))
  {
    TileTokens(t);
    TileStarts(t);
    hide Serialize, Tokens, FirstWord;
    assert Serialize(t)[0] == 't';
  }

  /** An invalidation of a target, as the walk over the texts recognizes it. */
  predicate InvalidationTokens(tokens: seq<string>, target: string) {
    && |tokens| >= 3 && tokens[0] == "callback" && tokens[1] == target && tokens[2] == "0"
    && ExtractRectangle(tokens).Some?
  }

  lemma InvalidationRead(text: string, body: Body, viewOf: string -> string, target: string)
    requires ReadsAs(text, body, viewOf)
    ensures InvalidationTokens(Tokens(text), target) <==> body.Invalidation? && body.target == target
    ensures InvalidationTokens(Tokens(text), target) ==> ExtractRectangle(Tokens(text)) == Some(body.area)
  {
    hide Tokens, ExtractRectangle, AsWritten, FirstWord, Serialize, UnoCommand, KindOf;
    if body.TileRequest? {
      TileIsNoCallback(body.tile);
    }
  }

  /** A state of a command, likewise. */
  predicate StateTokens(tokens: seq<string>, target: string, command: string) {
    && |tokens| >= 4 && tokens[0] == "callback" && tokens[1] == target && tokens[2] == "8"
    && UnoCommand(tokens[3]) != "" && UnoCommand(tokens[3]) == command
  }

  lemma StateRead(text: string, body: Body, viewOf: string -> string, target: string, command: string)
    requires ReadsAs(text, body, viewOf) && command != ""
    ensures StateTokens(Tokens(text), target, command) <==> body == Update(StateOf(target, command))
  {
    hide Tokens, ExtractRectangle, AsWritten, FirstWord, Serialize, UnoCommand, KindOf;
    if body.TileRequest? {
      TileIsNoCallback(body.tile);
    }
  }

  // ----- the words of a state -----

  /** A word that gives the state of a command: its name, and a value behind an equals sign or none. */
  predicate Names(word: string, name: string) {
    var command := ".uno:" + name;
    command <= word && (|word| == |command| || word[|command|] == '=')
  }

  /** callback <target> 8 .uno:<name>=<value> */
  predicate StateText(text: string, target: string, name: string) {
    var tokens := Tokens(text);
    |tokens| >= 4 && tokens[0] == "callback" && tokens[1] == target && tokens[2] == "8" && Names(tokens[3], name)
  }

  lemma {:induction false} BeforeEqualsIs(word: string, start: string)
    requires '=' !in start
    ensures BeforeEquals(word) == start <==> start <= word && (|word| == |start| || word[|start|] == '=')
  {
    if start != [] && word != [] && word[0] == start[0] {
      assert word[0] != '=';
      BeforeEqualsIs(word[1..], start[1..]);
      assert start == [start[0]] + start[1..] && word == [word[0]] + word[1..];
    }
  }

  lemma NamesIff(word: string, name: string)
    requires '=' !in name
    ensures Names(word, name) <==> UnoCommand(word) == ".uno:" + name
  {
    var command := ".uno:" + name;
    assert '=' !in ".uno:";
    BeforeEqualsIs(word, command);
    assert ".uno:" <= command;
    hide BeforeEquals;
  }

  lemma NamesValue(name: string, value: string)
    ensures Names(".uno:" + name, name) && Names(".uno:" + name + "=" + value, name)
  {
    var command := ".uno:" + name;
    assert command + "=" + value == command + ("=" + value);
  }

  /** A word is about one command at most. */
  lemma OneName(word: string, name: string, other: string)
    requires '=' !in name && '=' !in other && Names(word, name) && Names(word, other)
    ensures name == other
  {
    NamesIff(word, name);
    NamesIff(word, other);
    assert name == (".uno:" + name)[5..] && other == (".uno:" + other)[5..];
    hide Names, UnoCommand;
  }

  /** A text that gives the state of a command is what the queue takes for that, and no other is. */
  lemma StateIff(text: string, body: Body, viewOf: string -> string, target: string, name: string)
    requires ReadsAs(text, body, viewOf) && '=' !in name
    ensures StateText(text, target, name) <==> body == Update(StateOf(target, ".uno:" + name))
  {
    StateRead(text, body, viewOf, target, ".uno:" + name);
    var tokens := Tokens(text);
    if |tokens| >= 4 {
      NamesIff(tokens[3], name);
    }
    hide ReadsAs, Tokens, Names, UnoCommand;
  }

  /** Where the first text is that gives the state of a command. */
  function FirstState(queue: seq<string>, target: string, name: string): (k: nat)
    ensures k <= |queue| && (k < |queue| ==> StateText(queue[k], target, name))
    ensures forall i :: 0 <= i < k ==> !StateText(queue[i], target, name)
  {
    if queue == [] || StateText(queue[0], target, name) then 0 else 1 + FirstState(queue[1..], target, name)
  }

  lemma FirstStateIs(queue: seq<string>, values: Queue, viewOf: string -> string, target: string, name: string)
    requires Reads(queue, values, viewOf) && '=' !in name
    ensures FirstOf(values, AboutSame(StateOf(target, ".uno:" + name))) == FirstState(queue, target, name)
  {
    var k, same := FirstState(queue, target, name), AboutSame(StateOf(target, ".uno:" + name));
    hide ReadsAs, StateText, FirstState, FirstOf;
    forall i | 0 <= i < |queue| ensures same(values[i]) <==> StateText(queue[i], target, name) {
      StateIff(queue[i], values[i].body, viewOf, target, name);
    }
    FirstIs(values, same, k);
  }

  /** The key of a callback of which only the latest of its type counts, for a view or not. */
  function StatusKey(target: string, kind: nat, view: string): Key {
    if ViewKind(kind) then ViewStatusOf(target, kind, view) else StatusOf(target, kind)
  }

  predicate StatusText(text: string, target: string, word: string, kind: nat, view: string, viewOf: string -> string) {
    && "callback" <= text && |Tokens(text)| >= 3 && Tokens(text)[1] == target && Tokens(text)[2] == word
    && (ViewKind(kind) ==> viewOf(text) == view)
  }

  lemma StatusRead(text: string, body: Body, viewOf: string -> string, target: string, word: string, kind: nat,
                   view: string)
    requires ReadsAs(text, body, viewOf) && word != "0" && word != "8" && KindOf(word) == Some(kind)
    ensures StatusText(text, target, word, kind, view, viewOf) <==> body == Update(StatusKey(target, kind, view))
  {
    hide Tokens, ExtractRectangle, FirstWord, Serialize, UnoCommand, KindOf;
    if body.TileRequest? {
      TileIsNoCallback(body.tile);
    } else {
      CallbackPrefix(text);
      hide AsWritten;
    }
  }

  /** What an invalidation that has grown is rewritten to: it is read as what it has grown to,
      and can be rewritten again. */
  lemma RewrittenReads(text: string, viewOf: string -> string, target: string, first: Area, a: Area)
    requires ReadsAs(text, Invalidation(target, first), viewOf) && a.part == first.part
    requires |Tokens(text)| >= 8 && Tokens(text)[3] != "EMPTY,"
    ensures Rewritten(text, a) != ""
    ensures ReadsAs(Rewritten(text, a), Invalidation(target, a), viewOf)
  {
    InvalidationRead(text, Invalidation(target, first), viewOf, target);
    var result := Rewritten(text, a);
    MergedReadsBack(text, a);
    MergedStaysRewritable(text, a);
    RewrittenStarts(text, a);
    assert a.(part := first.part) == a;
    hide Words, FirstLine, Rewritten, Rewritable, FirstWord, Atoi;
    SameFirst(Tokens(text), Tokens(result));
  }

  lemma RewrittenStarts(text: string, a: Area)
    requires |Words(FirstLine(text))| >= 8 && Rewritable(text)
    requires Words(FirstLine(text))[0] == "callback" && Words(FirstLine(text))[2] == "0"
    ensures Rewritten(text, a) != "" && FirstWord(Rewritten(text, a)) == "callback"
  {
    hide Rewritten, ExtractRectangle, FirstWord, Words, FirstLine, Rewritable;
    MergedReadsBack(text, a);
    MergedStaysRewritable(text, a);
    var result := Rewritten(text, a);
    SameFirst(Words(FirstLine(text)), Words(FirstLine(result)));
    RewritableStarts(result);
    FirstOfText("callback", result);
  }

  lemma SameFirst(a: seq<string>, b: seq<string>)
    requires |a| >= 8 && |b| == |a| && b[..3] == a[..3]
    ensures a[0] == b[0] && a[1] == b[1] && a[2] == b[2]
  {
    assert a[0] == a[..3][0] && a[1] == a[..3][1] && a[2] == a[..3][2];
  }

  lemma RewritableStarts(text: string)
    requires |Words(FirstLine(text))| >= 8 && Rewritable(text)
    ensures Words(FirstLine(text))[0] + " " <= text
  {
    hide Words, FirstLine;
    var tokens := Words(FirstLine(text));
    ThreeStart(tokens[0], tokens[1], tokens[2], text);
    assert tokens[..3] == [tokens[0], tokens[1], tokens[2]];
  }

  lemma ThreeStart(a: string, b: string, c: string, text: string)
    ensures Spaced([a, b, c]) <= text ==> a + " " <= text
  {
    SpacedThree(a, b, c);
    hide Spaced;
    assert a + " " + b + " " + c + " " == (a + " ") + (b + " " + c + " ");
  }

  /** A text that gives the state of a command is put in place of the first one that does. */
  lemma PutsState(queue: seq<string>, values: Queue, viewOf: string -> string, value: string, body: Body)
    requires Reads(queue, values, viewOf) && ReadsAs(value, body, viewOf)
    ensures forall target, name :: '=' !in name && StateText(value, target, name) ==>
              body.Update? && FirstOf(values, AboutSame(body.key)) == FirstState(queue, target, name)
  {
    hide Reads, ReadsAs, StateText, FirstState, FirstOf;
    forall target, name | '=' !in name && StateText(value, target, name)
      ensures body.Update? && FirstOf(values, AboutSame(body.key)) == FirstState(queue, target, name)
    {
      StateIff(value, body, viewOf, target, name);
      FirstStateIs(queue, values, viewOf, target, name);
    }
  }

  // ----- the queue of texts -----

  /** std::string::find. */
  method Find(s: string, pattern: string) returns (at: Option<nat>)
    ensures match at
            case Some(i) => i <= |s| && pattern <= s[i..] && forall k :: 0 <= k < i ==> !(pattern <= s[k..])
            case None => forall k :: 0 <= k <= |s| ==> !(pattern <= s[k..])
  {
    for i := 0 to |s| + 1
      invariant forall k :: 0 <= k < i ==> !(pattern <= s[k..])
    {
      if pattern <= s[i..] {
        return Some(i);
      }
    }
    return None;
  }

  class TextQueue {
    var queue: seq<string>
    const viewOf: string -> string
    /** The text that the stamp of a message stands for. */
    ghost const textOf: nat -> string
    /** What the texts are read as. */
    ghost var values: Queue

    ghost predicate Valid()
      reads this
    {
      Reads(queue, values, viewOf) && KeepsTexts(queue, values, textOf)
    }

    constructor (viewOf: string -> string, ghost textOf: nat -> string)
      ensures Valid() && values == [] && this.viewOf == viewOf && this.textOf == textOf
    {
      this.viewOf, this.textOf, queue, values := viewOf, textOf, [], [];
    }

    method Erase(i: nat)
      requires Valid() && i < |queue|
      modifies this
      ensures Valid() && values == Without(old(values), i) && queue == WithoutText(old(queue), i)
      ensures |queue| == |old(queue)| - 1
    {
      ReadsWithout(queue, values, viewOf, textOf, i);
      queue := queue[..i] + queue[i + 1..];
      values := values[..i] + values[i + 1..];
    }

    method Push(text: string, ghost m: Message)
      requires Valid() && ReadsAs(text, m.body, viewOf) && (StaysAsPut(m) ==> text == textOf(m.stamp))
      modifies this
      ensures Valid() && values == old(values) + [m] && queue == old(queue) + [text]
    {
      ReadsMore(queue, values, viewOf, textOf, text, m);
      queue := queue + [text];
      values := values + [m];
    }

    /** common/MessageQueue.cpp:102-127. */
    method RemoveTileDuplicate(tileMsg: string, ghost t: Tile)
      requires Valid() && tileMsg == Serialize(t)
      modifies this
      ensures Valid() && values == RemoveFirst(old(values), DuplicateOf(t))
    {
      hide Reads, KeepsTexts, ReadsAs, Serialize, Head;
      var newMsgPos := Find(tileMsg, " ver");
      HeadFound(t);
      assert newMsgPos == Some(|Head(t)|);
      var pos := if newMsgPos.Some? then newMsgPos.value else |tileMsg| - 1;
      var i := 0;
      while i < |queue|
        invariant i <= |queue| && Valid() && values == old(values)
        invariant forall k :: 0 <= k < i ==> k < |values| && !DuplicateOf(t)(values[k])
      {
        ReadsAt(queue, values, viewOf, i);
        DuplicateText(t, queue[i], values[i], viewOf);
        if |queue[i]| > pos && tileMsg[..pos] <= queue[i] {
          FirstIs(values, DuplicateOf(t), i);
          Erase(i);
          return;
        }
        i := i + 1;
      }
      SameSize(queue, values, viewOf);
      FirstIs(values, DuplicateOf(t), i);
    }

    /** common/MessageQueue.cpp:215-239: the rectangle of a text that invalidates for the target. */
    method QueuedRectangle(i: nat, target: string) returns (queued: Option<Area>)
      requires Valid() && i < |queue|
      ensures |values| == |queue|
      ensures queued ==
              if values[i].body.Invalidation? && values[i].body.target == target then Some(values[i].body.area)
              else None
    {
      hide Reads, KeepsTexts, ReadsAs, ExtractRectangle, Words, FirstLine;
      ReadsAt(queue, values, viewOf, i);
      InvalidationRead(queue[i], values[i].body, viewOf, target);
      var queuedTokens := Tokenize(queue[i]);
      if |queuedTokens| < 3 || queuedTokens[0] != "callback" || queuedTokens[1] != target || queuedTokens[2] != "0" {
        return None;
      }
      queued := ExtractRectangle(queuedTokens);
    }

    /** common/MessageQueue.cpp:202-306: the new text, or nothing when the message stays as it is. */
    method MergeInvalidation(callbackMsg: string, tokens: seq<string>, first: Area) returns (result: string)
      requires Valid() && tokens == Tokens(callbackMsg) && |tokens| >= 3 && ExtractRectangle(tokens) == Some(first)
      requires ReadsAs(callbackMsg, Invalidation(tokens[1], first), viewOf)
      modifies this
      ensures var merged := Merge(old(values), tokens[1], first, false);
              && Valid() && values == merged.queue && (!merged.performed ==> result == "")
              && (merged.performed ==>
                    result != "" && ReadsAs(result, Invalidation(tokens[1], merged.area), viewOf))
    {
      hide Merge, Merging, Reads, KeepsTexts, ReadsAs, Tokens, CanJoin, Covers, Joined;
      var performedMerge, a := false, first;
      var i := 0;
      SizeOfAll(tokens, first);
      MergingStart(values, tokens[1], first);
      while i < |queue|
        invariant Valid() && a.part == first.part
        invariant tokens[3] == "EMPTY," ==> a == first && !performedMerge
        invariant Merging(values, old(values), i, tokens[1], first, a, performedMerge)
        decreases |queue| - i
      {
        var queued := QueuedRectangle(i, tokens[1]);
        if queued == None || queued.value.part != a.part {
          MergingKeep(values, old(values), i, tokens[1], first, a, performedMerge);
          i := i + 1;
        } else if Covers(a, queued.value) {
          MergingDrop(values, old(values), i, tokens[1], first, a, performedMerge);
          Erase(i);
        } else if CanJoin(a, queued.value) {
          WideNeverJoins(a, queued.value);
          MergingDrop(values, old(values), i, tokens[1], first, a, performedMerge);
          JoinedPart(a, queued.value);
          a, performedMerge := Joined(a, queued.value), true;
          Erase(i);
        } else {
          MergingKeep(values, old(values), i, tokens[1], first, a, performedMerge);
          i := i + 1;
        }
      }
      SameSize(queue, values, viewOf);
      MergingEnd(values, old(values), i, tokens[1], first, a, performedMerge);
      if !performedMerge {
        return "";
      }
      RewrittenReads(callbackMsg, viewOf, tokens[1], first, a);
      TokensAre(callbackMsg);
      result := MergedMessage(callbackMsg, tokens, a);
    }

    /** common/MessageQueue.cpp:317-343: the first state of the same command goes. */
    method RemoveState(target: string, unoCommand: string)
      requires Valid() && unoCommand != ""
      modifies this
      ensures Valid() && values == RemoveFirst(old(values), AboutSame(StateOf(target, unoCommand)))
      ensures queue == WithoutText(old(queue), FirstOf(old(values), AboutSame(StateOf(target, unoCommand))))
    {
      hide Reads, KeepsTexts, ReadsAs, Words, FirstLine, UnoCommand;
      ghost var same := AboutSame(StateOf(target, unoCommand));
      var i := 0;
      while i < |queue|
        invariant i <= |queue| && Valid() && values == old(values) && queue == old(queue)
        invariant forall k :: 0 <= k < i ==> k < |values| && !same(values[k])
      {
        ReadsAt(queue, values, viewOf, i);
        StateRead(queue[i], values[i].body, viewOf, target, unoCommand);
        var queuedTokens := Tokenize(queue[i]);
        if |queuedTokens| >= 4
           && queuedTokens[0] == "callback" && queuedTokens[1] == target && queuedTokens[2] == "8"
        {
          var queuedUnoCommand := UnoCommand(queuedTokens[3]);
          if queuedUnoCommand != "" && unoCommand == queuedUnoCommand {
            FirstIs(values, same, i);
            Erase(i);
            return;
          }
        }
        i := i + 1;
      }
      SameSize(queue, values, viewOf);
      FirstIs(values, same, i);
    }

    /** common/MessageQueue.cpp:354-392: the first callback of the same type, and for the same view
        where it is about a view, goes. */
    method RemoveStatus(target: string, callbackType: string, kind: nat, viewId: string)
      requires Valid() && callbackType != "0" && callbackType != "8" && KindOf(callbackType) == Some(kind)
      modifies this
      ensures Valid() && values == RemoveFirst(old(values), AboutSame(StatusKey(target, kind, viewId)))
      ensures queue == WithoutText(old(queue), FirstOf(old(values), AboutSame(StatusKey(target, kind, viewId))))
    {
      hide Reads, KeepsTexts, ReadsAs, Words, FirstLine, KindOf, StatusKey;
      ghost var same := AboutSame(StatusKey(target, kind, viewId));
      var i := 0;
      while i < |queue|
        invariant i <= |queue| && Valid() && values == old(values) && queue == old(queue)
        invariant forall k :: 0 <= k < i ==> k < |values| && !same(values[k])
      {
        ReadsAt(queue, values, viewOf, i);
        StatusRead(queue[i], values[i].body, viewOf, target, callbackType, kind, viewId);
        if "callback" <= queue[i] {
          var queuedTokens := Tokenize(queue[i]);
          if |queuedTokens| >= 3 && queuedTokens[1] == target && queuedTokens[2] == callbackType {
            if !ViewKind(kind) || viewOf(queue[i]) == viewId {
              FirstIs(values, same, i);
              Erase(i);
              return;
            }
          }
        }
        i := i + 1;
      }
      SameSize(queue, values, viewOf);
      FirstIs(values, same, i);
    }

    /** common/MessageQueue.cpp:188-396: what a callback does to the queue, and the text that goes
        into the queue instead of its own, if there is one. */
    method RemoveCallbackDuplicate(callbackMsg: string, ghost m: Message) returns (newMsg: string, ghost last: Message)
      requires Valid() && ReadsAs(callbackMsg, m.body, viewOf) && FirstWord(callbackMsg) == "callback"
      modifies this
      ensures Valid() && values + [last] == PutMessage(old(values), m)
      ensures ReadsAs(if newMsg == "" then callbackMsg else newMsg, last.body, viewOf)
      ensures StaysAsPut(m) || StaysAsPut(last) ==> newMsg == "" && last == m
      ensures m.body.Update? ==> queue == WithoutText(old(queue), FirstOf(old(values), AboutSame(m.body.key)))
    {
      CallbackRead(callbackMsg, m.body, viewOf);
      hide Reads, KeepsTexts, WithoutText, FirstOf, ReadsAs, Words, FirstLine, ExtractRectangle, UnoCommand, KindOf;
      hide Merge, RemoveFirst, BodyOf;
      var tokens := Tokenize(callbackMsg);
      newMsg, last := "", m;
      if |tokens| < 3 {
        return;
      }
      var callbackType := tokens[2];
      if callbackType == "0" {
        var rectangle := ExtractRectangle(tokens);
        if rectangle == None {
          return;
        }
        MergeKeepsUnperformed(values, tokens[1], rectangle.value);
        last := Message(m.stamp, Invalidation(tokens[1], Merge(values, tokens[1], rectangle.value, false).area));
        newMsg := MergeInvalidation(callbackMsg, tokens, rectangle.value);
      } else if callbackType == "8" {
        if |tokens| < 4 {
          return;
        }
        var unoCommand := UnoCommand(tokens[3]);
        if unoCommand == "" {
          return;
        }
        RemoveState(tokens[1], unoCommand);
      } else {
        var kind := KindOf(callbackType);
        if kind.Some? {
          var viewId := if ViewKind(kind.value) then viewOf(callbackMsg) else "";
          RemoveStatus(tokens[1], callbackType, kind.value, viewId);
        }
      }
    }

    /** common/MessageQueue.cpp:28-99, for one message that is no combined request and no
        canceltiles. */
    method Put(value: string, ghost m: Message)
      requires Valid() && ReadsAs(value, m.body, viewOf) && (StaysAsPut(m) ==> value == textOf(m.stamp))
      modifies this
      ensures Valid() && values == PutMessage(old(values), m)
      ensures m.body.Update? ==>
                queue == WithoutText(old(queue), FirstOf(old(values), AboutSame(m.body.key))) + [value]
      ensures forall target, name :: '=' !in name && StateText(value, target, name) ==>
                queue == WithoutText(old(queue), FirstState(old(queue), target, name)) + [value]
    {
      PutsState(queue, values, viewOf, value, m.body);
      hide StateText, FirstState;
      hide KeepsTexts, WithoutText, FirstOf, Reads, ReadsAs, PutMessage, RemoveFirst, FirstWord;
      FirstWordOf(value, m.body, viewOf);
      var firstToken := FirstWord(value);
      if firstToken == "tile" {
        PutIsTile(values, m);
        RemoveTileDuplicate(value, m.body.tile);
        Push(value, m);
      } else if firstToken == "callback" {
        var newMsg, last := RemoveCallbackDuplicate(value, m);
        Push(if newMsg == "" then value else newMsg, last);
      } else {
        PutIsOther(values, value, m, viewOf);
        Push(value, m);
      }
    }

    /** common/MessageQueue.cpp:61-75: the tiles of a combined request are written out one by one. */
    method PutCombined(ghost stamp: nat, tiles: seq<Tile>)
      requires Valid()
      modifies this
      ensures Valid() && values == PutTiles(old(values), stamp, tiles)
    {
      hide Reads, KeepsTexts, Serialize, RemoveFirst;
      NoTiles(values, stamp);
      assert tiles[..0] == [];
      for i := 0 to |tiles|
        invariant Valid() && values == PutTiles(old(values), stamp, tiles[..i])
      {
        OneMoreTile(old(values), stamp, tiles, i);
        var newMsg := Serialize(tiles[i]);
        RemoveTileDuplicate(newMsg, tiles[i]);
        Push(newMsg, Message(stamp, TileRequest(tiles[i])));
      }
      assert tiles[..|tiles|] == tiles;
    }
  }

  lemma NoTiles(values: Queue, stamp: nat)
    ensures PutTiles(values, stamp, []) == values
  {
  }

  lemma OneMoreTile(values: Queue, stamp: nat, tiles: seq<Tile>, i: nat)
    requires i < |tiles|
    ensures PutTiles(values, stamp, tiles[..i + 1]) ==
            RemoveFirst(PutTiles(values, stamp, tiles[..i]), DuplicateOf(tiles[i])) +
                [Message(stamp, TileRequest(tiles[i]))]
  {
    hide RemoveFirst;
    assert tiles[..i + 1][..i] == tiles[..i];
  }

  // ----- runs -----

  /** A text as it is put: a message or a combined request, and what it is read as. */
  datatype Item = Single(text: string, message: Message) | Several(stamp: nat, combined: TileCombined)

  predicate ItemReads(item: Item, viewOf: string -> string, textOf: nat -> string) {
    item.Single? ==>
      ReadsAs(item.text, item.message.body, viewOf)
      && (StaysAsPut(item.message) ==> item.text == textOf(item.message.stamp))
  }

  function OpOf(item: Item): Op {
    match item
    case Single(_, m) => TileQueueRuns.Op.Put(m)
    case Several(stamp, c) => TileQueueRuns.Op.PutCombined(stamp, c)
  }

  function Ops(items: seq<Item>): (r: seq<Op>)
    ensures |r| == |items| && forall i :: 0 <= i < |r| ==> r[i] == OpOf(items[i])
  {
    seq(|items|, i requires 0 <= i < |items| => OpOf(items[i]))
  }

  lemma OneMoreItem(items: seq<Item>, n: nat)
    requires n < |items|
    ensures QueueOf(Ops(items[..n + 1])) ==
            match items[n]
            case Single(_, m) => PutMessage(QueueOf(Ops(items[..n])), m)
            case Several(stamp, c) => PutTiles(QueueOf(Ops(items[..n])), stamp, c.tiles)
  {
    hide PutMessage, PutTiles;
    var ops := Ops(items[..n + 1]);
    assert ops[..n] == Ops(items[..n]) && ops[n] == OpOf(items[n]);
  }

  /** Over any run of texts that are put, the texts in the queue are read as the messages that
      the queue of messages holds after the same run: what is proved of its runs holds of the texts. */
  method PutAll(items: seq<Item>, viewOf: string -> string, ghost textOf: nat -> string) returns (texts: TextQueue)
    requires forall i :: 0 <= i < |items| ==> ItemReads(items[i], viewOf, textOf)
    ensures fresh(texts) && texts.viewOf == viewOf && texts.Valid()
    ensures Reads(texts.queue, QueueOf(Ops(items)), viewOf) && KeepsTexts(texts.queue, QueueOf(Ops(items)), textOf)
  {
    hide Reads, KeepsTexts, ReadsAs, PutMessage, PutTiles, Ops;
    texts := new TextQueue(viewOf, textOf);
    NothingPut(items);
    for n := 0 to |items|
      invariant fresh(texts) && texts.viewOf == viewOf && texts.textOf == textOf && texts.Valid()
      invariant texts.values == QueueOf(Ops(items[..n]))
    {
      hide QueueOf;
      OneMoreItem(items, n);
      assert ItemReads(items[n], viewOf, textOf);
      match items[n] {
        case Single(text, m) => texts.Put(text, m);
        case Several(stamp, c) => texts.PutCombined(stamp, c.tiles);
      }
    }
    assert items[..|items|] == items;
  }

  lemma NothingPut(items: seq<Item>)
    ensures QueueOf(Ops(items[..0])) == []
  {
    assert Ops(items[..0]) == [];
  }

  lemma FirstWordOf(text: string, body: Body, viewOf: string -> string)
    requires ReadsAs(text, body, viewOf)
    ensures FirstWord(text) == "tile" <==> body.TileRequest?
    ensures body.TileRequest? ==> text == Serialize(body.tile)
  {
    hide Serialize, FirstWord, AsWritten;
    if body.TileRequest? {
      TileTokens(body.tile);
    }
  }

  lemma PutIsTile(values: Queue, m: Message)
    requires IsTile(m)
    ensures PutMessage(values, m) == RemoveFirst(values, DuplicateOf(m.body.tile)) + [m]
  {
    hide RemoveFirst;
  }

  lemma PutIsOther(values: Queue, text: string, m: Message, viewOf: string -> string)
    requires ReadsAs(text, m.body, viewOf) && !IsTile(m) && FirstWord(text) != "callback"
    ensures m.body.Other? && PutMessage(values, m) == values + [m]
  {
    hide Words, FirstLine, FirstWord, Rewritable;
  }

  /** What a callback is read as, by its tokens. */
  lemma CallbackRead(text: string, body: Body, viewOf: string -> string)
    requires ReadsAs(text, body, viewOf) && FirstWord(text) == "callback"
    ensures body == BodyOf(text, viewOf) && Tokens(text) != [] && Tokens(text)[0] == "callback"
  {
    hide Words, FirstLine, FirstWord, Rewritable, BodyOf, Serialize;
    if body.TileRequest? {
      TileTokens(body.tile);
    }
  }

  lemma TokensAre(text: string)
    ensures Tokens(text) == Words(FirstLine(text))
  {
  }

  /** An invalidation of everything has no rectangle that could be rewritten, but it is too wide
      to be joined with any. */
  lemma SizeOfAll(tokens: seq<string>, a: Area)
    requires ExtractRectangle(tokens) == Some(a)
    ensures |tokens| >= 5 && (tokens[3] == "EMPTY," ==> a.w > REASONABLE_SIZE_X)
    ensures tokens[3] != "EMPTY," ==> |tokens| >= 8
  {
  }

  lemma WideNeverJoins(a: Area, b: Area)
    ensures a.w > REASONABLE_SIZE_X ==> !CanJoin(a, b)
  {
  }

  lemma JoinedPart(a: Area, b: Area)
    ensures Joined(a, b).part == a.part
  {
  }

  lemma ReadsAt(queue: seq<string>, values: Queue, viewOf: string -> string, i: nat)
    requires Reads(queue, values, viewOf) && i < |queue|
    ensures |values| == |queue| && ReadsAs(queue[i], values[i].body, viewOf)
  {
  }

  lemma SameSize(queue: seq<string>, values: Queue, viewOf: string -> string)
    requires Reads(queue, values, viewOf)
    ensures |queue| == |values|
  {
  }

  /** What is compared of a request is its head. */
  lemma HeadFound(t: Tile)
    ensures |Head(t)| <= |Serialize(t)| && Serialize(t)[..|Head(t)|] == Head(t)
    ensures " ver" <= Serialize(t)[|Head(t)|..]
    ensures forall i :: 0 <= i < |Head(t)| ==> !(" ver" <= Serialize(t)[i..])
  {
    VersionBehindHead(t);
    hide Head, Tail;
  }
}
