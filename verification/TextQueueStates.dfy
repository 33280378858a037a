/** What the texts in the queue say of the state of commands and of other callbacks of which only
    the latest counts, in the words of the texts. */
module TextQueueStates {
  import opened Basics
  import opened Text
  import opened TileText
  import opened TileQueues
  import opened TileQueueRuns
  import opened TileQueueContents
  import opened TextQueues

  // ----- runs of puts -----

  lemma OnePut(q: Queue, m: Message, key: Key, latest: seq<Message>)
    requires Filter(q, AboutSame(key)) == latest && |latest| <= 1
    ensures Filter(PutMessage(q, m), AboutSame(key)) == if m.body == Update(key) then [m] else latest
  {
    hide Filter, PutMessage, AtMost;
    if m.body == Update(key) {
      PutOnly(q, m, key, latest);
    } else {
      PutKeepsOthers(q, m, key);
    }
  }

  lemma PutOnly(q: Queue, m: Message, key: Key, latest: seq<Message>)
    requires Filter(q, AboutSame(key)) == latest && |latest| <= 1 && m.body == Update(key)
    ensures Filter(PutMessage(q, m), AboutSame(key)) == [m]
  {
    hide Filter, PutMessage;
    PutReplaces(q, m, key, if latest == [] then None else Some(latest[0]));
  }

  /** Where the last item is whose message is an update about something. */
  function LastUpdate(items: seq<Item>, key: Key): (n: Option<nat>)
    ensures match n
            case None => forall i :: 0 <= i < |items| && items[i].Single? ==> items[i].message.body != Update(key)
            case Some(n) =>
              && n < |items| && items[n].Single? && items[n].message.body == Update(key)
              && forall i :: n < i < |items| && items[i].Single? ==> items[i].message.body != Update(key)
  {
    if items == [] then None
    else
      var last := |items| - 1;
      if items[last].Single? && items[last].message.body == Update(key) then Some(last)
      else LastUpdate(items[..last], key)
  }

  /** After any run of puts there is just one update about anything that was put, the last one. */
  lemma {:induction false} LastUpdateStays(items: seq<Item>, key: Key)
    ensures Filter(QueueOf(Ops(items)), AboutSame(key)) ==
            match LastUpdate(items, key)
            case None => []
            case Some(n) => [items[n].message]
  {
    hide Filter, PutMessage, PutTiles, QueueOf, Ops;
    if items == [] {
      NothingPut(items);
      assert items[..0] == items;
      NoneOf(AboutSame(key));
    } else {
      var n := |items| - 1;
      LastUpdateStays(items[..n], key);
      OneMoreItem(items, n);
      assert items[..n + 1] == items;
      match items[n] {
        case Single(_, m) =>
          OnePut(QueueOf(Ops(items[..n])), m, key, Filter(QueueOf(Ops(items[..n])), AboutSame(key)));
        case Several(stamp, c) =>
          PutTilesKeeps(QueueOf(Ops(items[..n])), stamp, c.tiles, key);
      }
    }
  }

  /** A queue that has just one message of a kind has it in just one place. */
  lemma OnlyPlace(q: Queue, only: Message -> bool, m: Message) returns (k: nat)
    requires Filter(q, only) == [m]
    ensures k < |q| && q[k] == m && forall i :: 0 <= i < |q| && i != k ==> !only(q[i])
  {
    assert m in Filter(q, only);
    k :| 0 <= k < |q| && q[k] == m;
    hide Filter;
    forall i | 0 <= i < |q| && i != k ensures !only(q[i]) {
      if only(q[i]) {
        FilterCounts(q, if i < k then i else k, if i < k then k else i, only);
      }
    }
  }

  // ----- the texts after a run -----

  /** Texts that are read as updates about something, and no others. */
  ghost predicate ReadAs(about: string -> bool, key: Key, viewOf: string -> string) {
    forall text, body :: ReadsAs(text, body, viewOf) ==> (about(text) <==> body == Update(key))
  }

  /** Where the last item is with a text of some kind. */
  function LastText(items: seq<Item>, about: string -> bool): (n: Option<nat>)
    ensures match n
            case None => forall i :: 0 <= i < |items| && items[i].Single? ==> !about(items[i].text)
            case Some(n) => n < |items| && items[n].Single? && about(items[n].text) &&
                            forall i :: n < i < |items| && items[i].Single? ==> !about(items[i].text)
  {
    if items == [] then None
    else
      var last := |items| - 1;
      if items[last].Single? && about(items[last].text) then Some(last) else LastText(items[..last], about)
  }

  /** There is one text of a kind in a queue if one was put, the last one, and none otherwise. */
  ghost predicate JustTheLast(queue: seq<string>, items: seq<Item>, about: string -> bool) {
    match LastText(items, about)
    case None => forall i :: 0 <= i < |queue| ==> !about(queue[i])
    case Some(n) => exists k :: 0 <= k < |queue| && OnlyText(queue, k, about) && queue[k] == items[n].text
  }

  ghost predicate OnlyText(queue: seq<string>, k: nat, about: string -> bool)
    requires k < |queue|
  {
    about(queue[k]) && forall i :: 0 <= i < |queue| && i != k ==> !about(queue[i])
  }

  lemma {:induction false} LastTextIs(items: seq<Item>, viewOf: string -> string, textOf: nat -> string,
                                      about: string -> bool, key: Key)
    requires ReadAs(about, key, viewOf) && forall i :: 0 <= i < |items| ==> ItemReads(items[i], viewOf, textOf)
    ensures LastText(items, about) == LastUpdate(items, key)
  {
    hide ReadsAs;
    forall i | 0 <= i < |items| && items[i].Single?
      ensures about(items[i].text) <==> items[i].message.body == Update(key)
    {
      assert ItemReads(items[i], viewOf, textOf);
    }
  }

  lemma NotAny(q: Queue, only: Message -> bool)
    requires Filter(q, only) == []
    ensures forall i :: 0 <= i < |q| ==> !only(q[i])
  {
    forall i | 0 <= i < |q| ensures !only(q[i]) {
      var m := q[i];
      assert m in q;
    }
  }

  lemma JustTheLastText(items: seq<Item>, queue: seq<string>, viewOf: string -> string, textOf: nat -> string,
                        about: string -> bool, key: Key)
    requires ReadAs(about, key, viewOf) && forall i :: 0 <= i < |items| ==> ItemReads(items[i], viewOf, textOf)
    requires Reads(queue, QueueOf(Ops(items)), viewOf) && KeepsTexts(queue, QueueOf(Ops(items)), textOf)
    ensures JustTheLast(queue, items, about)
  {
    hide ReadsAs, QueueOf, Ops, Filter;
    var values, only := QueueOf(Ops(items)), AboutSame(key);
    LastTextIs(items, viewOf, textOf, about, key);
    LastUpdateStays(items, key);
    forall i | 0 <= i < |queue| ensures about(queue[i]) <==> only(values[i]) {
      assert ReadsAs(queue[i], values[i].body, viewOf);
    }
    match LastUpdate(items, key) {
      case None =>
        NotAny(values, only);
      case Some(n) =>
        assert ItemReads(items[n], viewOf, textOf);
        var k := OnlyPlace(values, only, items[n].message);
        assert OnlyText(queue, k, about);
    }
  }

  /** Over any run of puts: of the texts that give the state of a command to a target, with a value
      or without, the queue has just the last one that was put. */
  lemma LatestState(items: seq<Item>, queue: seq<string>, viewOf: string -> string, textOf: nat -> string,
                    target: string, name: string)
    requires '=' !in name && forall i :: 0 <= i < |items| ==> ItemReads(items[i], viewOf, textOf)
    requires Reads(queue, QueueOf(Ops(items)), viewOf) && KeepsTexts(queue, QueueOf(Ops(items)), textOf)
    ensures JustTheLast(queue, items, text => StateText(text, target, name))
  {
    var about, key := text => StateText(text, target, name), StateOf(target, ".uno:" + name);
    hide StateText, ReadsAs, Reads, KeepsTexts, ItemReads, QueueOf, Ops, JustTheLast;
    forall text, body | ReadsAs(text, body, viewOf) ensures about(text) <==> body == Update(key) {
      StateIff(text, body, viewOf, target, name);
    }
    JustTheLastText(items, queue, viewOf, textOf, about, key);
  }

  // ----- the other callbacks of which only the latest counts -----

  /** callback <target> <word> */
  predicate CallbackText(text: string, target: string, word: string) {
    var tokens := Tokens(text);
    |tokens| >= 3 && tokens[0] == "callback" && tokens[1] == target && tokens[2] == word
  }

  /** Cursor, cursor visibility, indicator, document size and cell cursor. */
  predicate StatusWord(word: string) {
    word == "1" || word == "5" || word == "10" || word == "13" || word == "17"
  }

  /** Cursor, cell cursor and cursor visibility of a view. */
  predicate ViewWord(word: string) {
    word == "24" || word == "26" || word == "28"
  }

  lemma WrittenStatusWords()
    ensures Decimal(1) == "1" && Decimal(5) == "5" && Decimal(10) == "10" && Decimal(13) == "13" && Decimal(17) == "17"
  {
    assert Digits(1) == "1";
  }

  lemma WrittenViewWords()
    ensures Decimal(24) == "24" && Decimal(26) == "26" && Decimal(28) == "28"
  {
    assert Digits(2) == "2";
  }

  /** What kind of a callback a word stands for. */
  lemma KindOfWord(word: string) returns (kind: nat)
    ensures StatusWord(word) ==> KindOf(word) == Some(kind) && !ViewKind(kind)
    ensures ViewWord(word) ==> KindOf(word) == Some(kind) && ViewKind(kind)
    ensures !StatusWord(word) && !ViewWord(word) ==> KindOf(word) == None
    ensures StatusWord(word) || ViewWord(word) ==> word != "0" && word != "8"
  {
    WrittenStatusWords();
    WrittenViewWords();
    hide Decimal;
    kind := match KindOf(word) case Some(k) => k case None => 0;
  }

  lemma CallbackIff(text: string, body: Body, viewOf: string -> string, target: string, word: string, kind: nat,
                    view: string)
    requires ReadsAs(text, body, viewOf) && word != "0" && word != "8" && KindOf(word) == Some(kind)
    ensures CallbackText(text, target, word) && (ViewKind(kind) ==> viewOf(text) == view) <==>
              body == Update(StatusKey(target, kind, view))
  {
    StatusRead(text, body, viewOf, target, word, kind, view);
    if body.TileRequest? {
      TileIsNoCallback(body.tile);
      hide Tokens, Serialize, KindOf;
    } else {
      CallbackPrefix(text);
      WrittenTokens(text);
      hide AsWritten, Tokens, KindOf, BodyOf;
    }
  }

  lemma WrittenTokens(text: string)
    requires AsWritten(text)
    ensures Tokens(text) != []
  {
  }

  /** The same of the callbacks that are about no view. */
  lemma LatestStatus(items: seq<Item>, queue: seq<string>, viewOf: string -> string, textOf: nat -> string,
                     target: string, word: string)
    requires StatusWord(word) && forall i :: 0 <= i < |items| ==> ItemReads(items[i], viewOf, textOf)
    requires Reads(queue, QueueOf(Ops(items)), viewOf) && KeepsTexts(queue, QueueOf(Ops(items)), textOf)
    ensures JustTheLast(queue, items, text => CallbackText(text, target, word))
  {
    var kind := KindOfWord(word);
    var about, key := text => CallbackText(text, target, word), StatusKey(target, kind, "");
    hide CallbackText, StatusKey, KindOf, ReadsAs, Reads, KeepsTexts, ItemReads, QueueOf, Ops, JustTheLast;
    forall text, body | ReadsAs(text, body, viewOf) ensures about(text) <==> body == Update(key) {
      CallbackIff(text, body, viewOf, target, word, kind, "");
    }
    JustTheLastText(items, queue, viewOf, textOf, about, key);
  }

  /** And of those that are about one: one for each target and view. */
  lemma LatestViewStatus(items: seq<Item>, queue: seq<string>, viewOf: string -> string, textOf: nat -> string,
                         target: string, word: string, view: string)
    requires ViewWord(word) && forall i :: 0 <= i < |items| ==> ItemReads(items[i], viewOf, textOf)
    requires Reads(queue, QueueOf(Ops(items)), viewOf) && KeepsTexts(queue, QueueOf(Ops(items)), textOf)
    ensures JustTheLast(queue, items, text => CallbackText(text, target, word) && viewOf(text) == view)
  {
    var kind := KindOfWord(word);
    var about := text => CallbackText(text, target, word) && viewOf(text) == view;
    var key := StatusKey(target, kind, view);
    hide CallbackText, StatusKey, KindOf, ReadsAs, Reads, KeepsTexts, ItemReads, QueueOf, Ops, JustTheLast;
    forall text, body | ReadsAs(text, body, viewOf) ensures about(text) <==> body == Update(key) {
      CallbackIff(text, body, viewOf, target, word, kind, view);
    }
    JustTheLastText(items, queue, viewOf, textOf, about, key);
  }

  /** A callback of any other type supersedes nothing and is never superseded. */
  lemma OtherCallbacks(text: string, viewOf: string -> string)
    requires |Tokens(text)| >= 3 && Tokens(text)[2] != "0" && Tokens(text)[2] != "8"
    requires !StatusWord(Tokens(text)[2]) && !ViewWord(Tokens(text)[2])
    ensures BodyOf(text, viewOf) == Other
  {
    var kind := KindOfWord(Tokens(text)[2]);
    hide Tokens, KindOf, StatusWord, ViewWord;
  }
}
