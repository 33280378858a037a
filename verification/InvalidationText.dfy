/** How invalidation callbacks are read from their text and rewritten when they are merged, in
    common/MessageQueue.cpp. */
module InvalidationText {
  import opened Basics
  import opened Text

  const INT_MAX := 0x7fff_ffff

  /** A rectangle of a part of the document. */
  datatype Area = Area(x: int, y: int, w: int, h: int, part: int)

  /** common/MessageQueue.cpp:157-184. */
  function ExtractRectangle(tokens: seq<string>): Option<Area> {
    if |tokens| < 5 then None
    else if tokens[3] == "EMPTY," then Some(Area(0, 0, INT_MAX, INT_MAX, Atoi(tokens[4])))
    else if |tokens| < 8 then None
    else Some(Area(Atoi(tokens[3]), Atoi(tokens[4]), Atoi(tokens[5]), Atoi(tokens[6]), Atoi(tokens[7])))
  }

  /** The words of a rectangle, as they stand in a message. */
  function RectangleWords(a: Area): seq<string> {
    [Decimal(a.x) + ",", Decimal(a.y) + ",", Decimal(a.w) + ",", Decimal(a.h) + ","]
  }

  /** The words of an invalidation are read as the rectangle that is written in them, or as
      everything. */
  lemma WordsRead(words: seq<string>, a: Area)
    requires |words| == 3
    ensures ExtractRectangle(words + RectangleWords(a) + [Decimal(a.part)]) == Some(a)
    ensures ExtractRectangle(words + ["EMPTY,", Decimal(a.part)]) == Some(Area(0, 0, 0x7fff_ffff, 0x7fff_ffff, a.part))
  {
    CommaRead(a.x);
    CommaRead(a.y);
    CommaRead(a.w);
    CommaRead(a.h);
    DecimalRead(a.part, "");
    assert Decimal(a.part) + "" == Decimal(a.part);
    hide Decimal, Atoi;
    var tokens := words + RectangleWords(a) + [Decimal(a.part)];
    assert tokens[3] == Decimal(a.x) + "," && tokens[4] == Decimal(a.y) + ",";
    assert tokens[5] == Decimal(a.w) + "," && tokens[6] == Decimal(a.h) + "," && tokens[7] == Decimal(a.part);
  }

  lemma CommaRead(n: int)
    ensures Atoi(Decimal(n) + ",") == n && Decimal(n) + "," != "EMPTY,"
  {
    DecimalRead(n, ",");
    StartOfNumber(n);
    hide Decimal, Atoi;
    assert (Decimal(n) + ",")[0] == Decimal(n)[0];
  }

  lemma StartOfNumber(n: int)
    ensures Decimal(n) != [] && Decimal(n)[0] != 'E'
  {
    hide Digits;
  }

  lemma {:induction false} SpacedBoth(a: seq<string>, b: seq<string>)
    ensures Spaced(a + b) == Spaced(a) + Spaced(b)
  {
    if a == [] {
      assert a + b == b;
    } else {
      assert (a + b)[1..] == a[1..] + b;
      SpacedBoth(a[1..], b);
    }
  }

  lemma SpacedMore(words: seq<string>, w: string)
    ensures Spaced(words + [w]) == Spaced(words) + w + " "
  {
    SpacedBoth(words, [w]);
    assert Spaced([w]) == w + " " + "";
    assert Spaced(words) + (w + " ") == Spaced(words) + w + " ";
  }

  lemma SpacedThree(a: string, b: string, c: string)
    ensures Spaced([a, b, c]) == a + " " + b + " " + c + " "
  {
    SpacedMore([], a);
    assert "" + a == a && [] + [a] == [a];
    hide Spaced;
    SpacedMore([a], b);
    SpacedMore([a, b], c);
    assert [a] + [b] == [a, b] && [a, b] + [c] == [a, b, c];
  }

  lemma SpacedFour(a: string, b: string, c: string, d: string)
    ensures Spaced([a, b, c, d]) == a + " " + b + " " + c + " " + d + " "
  {
    hide Spaced;
    SpacedThree(a, b, c);
    SpacedMore([a, b, c], d);
    assert [a, b, c] + [d] == [a, b, c, d];
  }

  lemma SpacedLengths(a: string, b: string, c: string, d: string)
    ensures |Spaced([a, b, c])| == |a| + |b| + |c| + 3
    ensures |Spaced([a, b, c, d])| == |a| + |b| + |c| + |d| + 4
  {
    hide Spaced;
    SpacedThree(a, b, c);
    SpacedFour(a, b, c, d);
  }

  /** What is kept of a message before and behind a rectangle, going by the lengths of its words
      as if there were one space between any two. */
  function Kept(message: string): (string, string)
    requires |Words(FirstLine(message))| >= 8
  {
    var tokens := Words(FirstLine(message));
    TokensFit(FirstLine(message), 3);
    TokensFit(FirstLine(message), 7);
    (message[..|Spaced(tokens[..3])|], message[|Spaced(tokens[..7])|..])
  }

  function Rewritten(message: string, a: Area): string
    requires |Words(FirstLine(message))| >= 8
  {
    Kept(message).0 + Spaced(RectangleWords(a)) + Kept(message).1
  }

  /** common/MessageQueue.cpp:292-306: the merged rectangle put in place of the old one; the
      lengths never lead outside the message. */
  method MergedMessage(callbackMsg: string, tokens: seq<string>, a: Area) returns (result: string)
    requires tokens == Words(FirstLine(callbackMsg)) && |tokens| >= 8
    ensures result == Rewritten(callbackMsg, a)
  {
    hide Words, FirstLine, Spaced, Decimal;
    var pre := |tokens[0]| + |tokens[1]| + |tokens[2]| + 3;
    var post := pre + |tokens[3]| + |tokens[4]| + |tokens[5]| + |tokens[6]| + 4;
    Lengths(tokens);
    TokensFit(FirstLine(callbackMsg), 3);
    TokensFit(FirstLine(callbackMsg), 7);
    result := callbackMsg[..pre] +
      Decimal(a.x) + ", " +
      Decimal(a.y) + ", " +
      Decimal(a.w) + ", " +
      Decimal(a.h) + ", " + callbackMsg[post..];
    RectangleText(callbackMsg[..pre], a, callbackMsg[post..]);
  }

  lemma Lengths(tokens: seq<string>)
    requires |tokens| >= 7
    ensures |Spaced(tokens[..3])| == |tokens[0]| + |tokens[1]| + |tokens[2]| + 3
    ensures |Spaced(tokens[..7])| == |Spaced(tokens[..3])| + |tokens[3]| + |tokens[4]| + |tokens[5]| + |tokens[6]| + 4
  {
    var first, second := tokens[..3], tokens[3..7];
    SevenWords(tokens);
    SpacedBoth(first, second);
    hide *;
    SpacedLengths(tokens[0], tokens[1], tokens[2], tokens[0]);
    SpacedLengths(tokens[3], tokens[4], tokens[5], tokens[6]);
  }

  lemma SevenWords(tokens: seq<string>)
    requires |tokens| >= 7
    ensures tokens[..7] == tokens[..3] + tokens[3..7]
    ensures tokens[..3] == [tokens[0], tokens[1], tokens[2]]
    ensures tokens[3..7] == [tokens[3], tokens[4], tokens[5], tokens[6]]
  {
  }

  lemma RectangleText(head: string, a: Area, rest: string)
    ensures head + Decimal(a.x) + ", " + Decimal(a.y) + ", " + Decimal(a.w) + ", " + Decimal(a.h) + ", " + rest ==
            head + Spaced(RectangleWords(a)) + rest
  {
    hide Spaced, Decimal;
    var x, y, w, h := Decimal(a.x), Decimal(a.y), Decimal(a.w), Decimal(a.h);
    SpacedFour(x + ",", y + ",", w + ",", h + ",");
    FourCommas(x, y, w, h);
    Regrouped(head, x, y, w, h);
  }

  lemma Regrouped(head: string, x: string, y: string, w: string, h: string)
    ensures head + (x + ", " + y + ", " + w + ", " + h + ", ") == head + x + ", " + y + ", " + w + ", " + h + ", "
  {
  }

  lemma FourCommas(x: string, y: string, w: string, h: string)
    ensures (x + ",") + " " + (y + ",") + " " + (w + ",") + " " + (h + ",") + " " ==
            x + ", " + y + ", " + w + ", " + h + ", "
  {
  }

  // ----- reading the rewritten message -----

  lemma {:induction false} FirstLineAfter(a: string, b: string)
    requires '\n' !in a
    ensures FirstLine(a + b) == a + FirstLine(b)
  {
    if a == [] {
      assert a + b == b;
    } else {
      assert (a + b)[1..] == a[1..] + b;
      FirstLineAfter(a[1..], b);
    }
  }

  /** Neither spaces nor ends of lines. */
  predicate Clean(words: seq<string>) {
    forall i :: 0 <= i < |words| ==> IsWord(words[i]) && '\n' !in words[i]
  }

  lemma {:induction false} SpacedClean(words: seq<string>)
    requires Clean(words)
    ensures '\n' !in Spaced(words)
  {
    if words != [] {
      SpacedClean(words[1..]);
    }
  }

  lemma {:induction false} CutClean(line: string)
    requires '\n' !in line
    ensures forall i :: 0 <= i < |Cut(line).0| ==> '\n' !in Cut(line).0[i]
    ensures '\n' !in Cut(line).1
  {
    if line != [] {
      CutClean(line[..|line| - 1]);
    }
  }

  lemma WordsClean(line: string)
    requires '\n' !in line
    ensures Clean(Words(line))
  {
    CutClean(line);
    WordsAreWords(line);
  }

  lemma NumberClean(n: int)
    ensures IsWord(Decimal(n) + ",") && '\n' !in Decimal(n) + ","
  {
    var digits := Digits(if n < 0 then -n else n);
    hide Digits;
    assert forall i :: 0 <= i < |digits| ==> digits[i] != ' ' && digits[i] != '\n';
  }

  lemma RectangleWordsClean(a: Area)
    ensures Clean(RectangleWords(a))
  {
    NumberClean(a.x);
    NumberClean(a.y);
    NumberClean(a.w);
    NumberClean(a.h);
    hide Decimal;
  }

  /** Clean words spaced out in front of a text are its first words. */
  lemma SpacedRead(words: seq<string>, rest: string)
    requires Clean(words)
    ensures Words(FirstLine(Spaced(words) + rest)) == words + Words(FirstLine(rest))
  {
    hide Words, Spaced, FirstLine;
    SpacedClean(words);
    FirstLineAfter(Spaced(words), rest);
    SpacedWords(words, FirstLine(rest));
  }

  // ----- where the words of a line are -----

  /** The words of a line fit into it, with one space after each but the last. */
  lemma {:induction false} CutFits(line: string)
    ensures |Spaced(Cut(line).0)| + |Cut(line).1| <= |line|
    ensures |Spaced(Cut(line).0)| + |Cut(line).1| == |line| ==> line == Spaced(Cut(line).0) + Cut(line).1
  {
    if line != [] {
      var before, c := line[..|line| - 1], line[|line| - 1];
      assert line == before + [c];
      CutFits(before);
      var (words, open) := Cut(before);
      if c == ' ' && open != [] {
        SpacedMore(words, open);
      }
    }
  }

  lemma TokensFit(line: string, k: nat)
    requires k < |Words(line)|
    ensures |Spaced(Words(line)[..k])| <= |line|
  {
    var (words, open) := Cut(line);
    CutFits(line);
    assert Words(line)[..k] == words[..k];
    assert words == words[..k] + words[k..];
    SpacedBoth(words[..k], words[k..]);
  }

  /** The words that are over at some point of a line stay over. */
  lemma {:induction false} CutPrefix(line: string, n: nat)
    requires n <= |line|
    ensures Cut(line[..n]).0 <= Cut(line).0
    decreases |line|
  {
    if n < |line| {
      var before := line[..|line| - 1];
      CutPrefix(before, n);
      assert before[..n] == line[..n];
    } else {
      assert line[..n] == line;
    }
  }

  // ----- what a rewritten message is read as -----

  /** The condition on a message under which it can be rewritten: it begins with its first three
      words and one space after each, and its first seven words end where they would at the latest if
      there were one space between any two, so that at most one more is between the third and the
      seventh. */
  predicate Rewritable(message: string)
    requires |Words(FirstLine(message))| >= 8
  {
    var line := FirstLine(message);
    var tokens := Words(line);
    TokensFit(line, 7);
    Spaced(tokens[..3]) <= message && Words(line[..|Spaced(tokens[..7])|]) == tokens[..7]
  }

  /** A line cut in two between words, or beside one. */
  lemma WordsApart(p: string, s: string)
    requires Cut(p).1 == [] || s == [] || s[0] == ' '
    ensures Words(p + s) == Words(p) + Words(s)
  {
    if s == [] {
      assert p + s == p && Words(p) + [] == Words(p);
    } else if s[0] == ' ' {
      WordsThenSpace(p, s);
    } else if p == [] {
      assert p + s == s && [] + Words(s) == Words(s);
    } else {
      EndsOpenless(p);
      SpaceThenWords(p, s);
    }
  }

  lemma WordsThenSpace(p: string, s: string)
    requires s != [] && s[0] == ' '
    ensures Words(p + s) == Words(p) + Words(s)
  {
    assert s == [] + " " + s[1..] && p + s == p + " " + s[1..];
    WordsAtSpace([], s[1..]);
    assert Words([]) == [];
    hide Words;
    WordsAtSpace(p, s[1..]);
    assert [] + Words(s[1..]) == Words(s[1..]);
  }

  lemma SpaceThenWords(p: string, s: string)
    requires p != [] && p[|p| - 1] == ' '
    ensures Words(p + s) == Words(p) + Words(s)
  {
    var q := p[..|p| - 1];
    assert p == q + " " + [] && p + s == q + " " + s;
    WordsAtSpace(q, []);
    assert Words([]) == [];
    hide Words;
    WordsAtSpace(q, s);
    assert Words(q) + [] == Words(q);
  }

  lemma EndsOpenless(p: string)
    requires p != [] && Cut(p).1 == []
    ensures p[|p| - 1] == ' '
  {
  }

  /** The word at the start of a line. */
  function FirstWord(s: string): (w: string)
    ensures w <= s && ' ' !in w && (|w| < |s| ==> s[|w|] == ' ')
  {
    if s == [] || s[0] == ' ' then "" else [s[0]] + FirstWord(s[1..])
  }

  /** A line cut in two inside a word. */
  lemma WordsInside(p: string, s: string)
    requires Cut(p).1 != [] && s != [] && s[0] != ' '
    ensures var w := FirstWord(s); var rest := Words(s[|w|..]);
            && w != [] && Words(s) == [w] + rest
            && Words(p + s) == Cut(p).0 + [Cut(p).1 + w] + rest
  {
    var w := FirstWord(s);
    var t := s[|w|..];
    FirstWordThen(p, s);
    OpenGoesOn(p, w);
    OpenGoesOn([], w);
    hide *;
    WordsApart(w, t);
    WordsApart(p + w, t);
  }

  lemma FirstWordThen(p: string, s: string)
    requires s != [] && s[0] != ' '
    ensures var w := FirstWord(s); var t := s[|w|..];
            w != [] && s == w + t && p + s == (p + w) + t && [] + w == w && (t == [] || t[0] == ' ')
  {
    var w := FirstWord(s);
    hide FirstWord;
    assert s[|w|..] == [] || s[|w|..][0] == ' ';
    assert s == w + s[|w|..];
    Assoc(p, w, s[|w|..]);
    assert w != [];
  }

  lemma OpenGoesOn(p: string, w: string)
    requires ' ' !in w && w != []
    ensures Words(p + w) == Cut(p).0 + [Cut(p).1 + w]
    ensures p == [] ==> Cut(p) == ([], "")
  {
    CutWord(p, w);
  }

  /** What is kept behind is cut into the words after the seventh if and only if the first seven
      end where they should. */
  lemma TailWords(line: string)
    requires |Words(line)| >= 8
    ensures var tokens := Words(line); var n := |Spaced(tokens[..7])|;
            n <= |line| && (Words(line[n..]) == tokens[7..] <==> Words(line[..n]) == tokens[..7])
  {
    var tokens := Words(line);
    TokensFit(line, 7);
    var n := |Spaced(tokens[..7])|;
    var p, s := line[..n], line[n..];
    assert line == p + s;
    CutFits(p);
    var (words, open) := Cut(p);
    if open == [] || s == [] || s[0] == ' ' {
      WordsApart(p, s);
      hide Words, Cut, Spaced;
      SplitAtSeven(Words(p), Words(s), tokens);
    } else {
      WordsInside(p, s);
      var w := FirstWord(s);
      hide FirstWord, Cut, Spaced;
      CutInside(words, open, w, Words(s[|w|..]), tokens);
    }
  }

  lemma SplitAtSeven(a: seq<string>, b: seq<string>, tokens: seq<string>)
    requires a + b == tokens && |tokens| >= 8
    ensures b == tokens[7..] <==> a == tokens[..7]
  {
    if a == tokens[..7] {
      assert b == (a + b)[7..];
    }
    if b == tokens[7..] {
      assert a == (a + b)[..7];
    }
  }

  lemma CutInside(words: seq<string>, open: string, w: string, rest: seq<string>, tokens: seq<string>)
    requires |tokens| >= 8 && open != [] && w != [] && tokens == words + [open + w] + rest
    requires |Spaced(words)| + |open| <= |Spaced(tokens[..7])|
    ensures words + [open] != tokens[..7] && [w] + rest != tokens[7..]
  {
    assert tokens[|words|] == open + w;
    assert (words + [open])[|words|] == open;
    assert words == tokens[..|words|];
  }

  lemma KeptTail(message: string)
    requires |Words(FirstLine(message))| >= 8
    ensures |Spaced(Words(FirstLine(message))[..7])| <= |FirstLine(message)|
    ensures FirstLine(Kept(message).1) == FirstLine(message)[|Spaced(Words(FirstLine(message))[..7])|..]
  {
    hide Words, Spaced, FirstLine;
    var line := FirstLine(message);
    TokensFit(line, 7);
    LineFrom(message, |Spaced(Words(line)[..7])|);
  }

  lemma LineFrom(message: string, n: nat)
    requires n <= |FirstLine(message)|
    ensures FirstLine(message[n..]) == FirstLine(message)[n..]
  {
    hide FirstLine;
    var line := FirstLine(message);
    assert message[..n] == line[..n];
    assert message == line[..n] + message[n..];
    FirstLineAfter(line[..n], message[n..]);
    DropTaken(line[..n], FirstLine(message[n..]));
  }

  lemma DropTaken(a: string, b: string)
    ensures (a + b)[|a|..] == b
  {
  }

  /** A message with one space after each of its first seven words, as the kit writes them. */
  lemma SingleSpacedIsRewritable(message: string)
    requires |Words(FirstLine(message))| >= 8 && Spaced(Words(FirstLine(message))[..7]) <= message
    ensures Rewritable(message)
  {
    var tokens := Words(FirstLine(message));
    var rest := message[|Spaced(tokens[..7])|..];
    assert message == Spaced(tokens[..7]) + rest;
    WordsClean(FirstLine(message));
    SpacedRead(tokens[..7], rest);
    KeptTail(message);
    TailWords(FirstLine(message));
    SevenWords(tokens);
    SpacedBoth(tokens[..3], tokens[3..7]);
    hide Words, Spaced, FirstLine;
    PrefixOfPrefix(Spaced(tokens[..3]), Spaced(tokens[3..7]), message);
    assert tokens[7..] == Words(FirstLine(rest));
  }

  lemma PrefixOfPrefix(a: string, b: string, c: string)
    requires a + b <= c
    ensures a <= c
  {
    assert a == (a + b)[..|a|];
  }

  /** The words of the rewritten message, in terms of what is kept: the open word at the end of
      what is kept before goes on with the first number. */
  lemma RewrittenWords(message: string, a: Area)
    requires |Words(FirstLine(message))| >= 8
    ensures var (head, tail) := Kept(message);
            Words(FirstLine(Rewritten(message, a))) ==
            Cut(head).0 + [Cut(head).1 + RectangleWords(a)[0]] + RectangleWords(a)[1..] + Words(FirstLine(tail))
  {
    var (head, tail) := Kept(message);
    HeadInLine(message);
    RectangleWordsClean(a);
    SpacedClean(RectangleWords(a));
    hide FirstLine;
    var numbers := Spaced(RectangleWords(a));
    FirstLineAfter(head + numbers, tail);
    HeadWords(head, RectangleWords(a), FirstLine(tail));
  }

  lemma HeadInLine(message: string)
    requires |Words(FirstLine(message))| >= 8
    ensures '\n' !in Kept(message).0 && Kept(message).0 <= FirstLine(message)
  {
    TokensFit(FirstLine(message), 3);
    TokensFit(FirstLine(message), 7);
    hide Words, Spaced;
    var head := Kept(message).0;
    assert head == FirstLine(message)[..|head|];
  }

  lemma HeadWords(head: string, words: seq<string>, rest: string)
    requires words != [] && Clean(words)
    ensures Words(head + Spaced(words) + rest) == Cut(head).0 + [Cut(head).1 + words[0]] + words[1..] + Words(rest)
  {
    var first, more := words[0], Spaced(words[1..]) + rest;
    SpacedFront(head, words, rest);
    WordsAtSpace(head + first, more);
    CutMore(head, first);
    SpacedWords(words[1..], rest);
    hide *;
    Assoc(Cut(head).0 + [Cut(head).1 + first], words[1..], Words(rest));
  }

  lemma SpacedFront(head: string, words: seq<string>, rest: string)
    requires words != []
    ensures head + Spaced(words) + rest == (head + words[0]) + " " + (Spaced(words[1..]) + rest)
  {
    var w, r := words[0], Spaced(words[1..]);
    assert Spaced(words) == (w + " ") + r;
    hide *;
    Assoc(head, (w + " ") + r, rest);
    Assoc(w + " ", r, rest);
    Assoc(head, w + " ", r + rest);
    Assoc(head, w, " ");
  }

  /** A word goes on the open one. */
  lemma {:induction false} CutMore(head: string, word: string)
    requires IsWord(word)
    ensures Words(head + word) == Cut(head).0 + [Cut(head).1 + word]
  {
    CutWord(head, word);
  }

  lemma {:induction false} CutWord(head: string, word: string)
    requires ' ' !in word
    ensures Cut(head + word) == (Cut(head).0, Cut(head).1 + word)
    decreases |word|
  {
    if word == [] {
      assert head + word == head && Cut(head).1 + word == Cut(head).1;
    } else {
      var before := word[..|word| - 1];
      assert word == before + [word[|word| - 1]];
      assert (head + word)[..|head + word| - 1] == head + before;
      CutWord(head, before);
      assert Cut(head).1 + before + [word[|word| - 1]] == Cut(head).1 + word;
    }
  }

  /** How many words are over in what is kept before: three, if that is the first three words with
      one space after each, and fewer if not. */
  lemma HeadCounts(message: string)
    requires |Words(FirstLine(message))| >= 8
    ensures var tokens, words := Words(FirstLine(message)), Cut(Kept(message).0).0;
            && words <= tokens && |words| <= 3
            && (|words| == 3 <==> Spaced(tokens[..3]) <= message)
            && (|words| == 3 ==> Cut(Kept(message).0).1 == [])
  {
    var line := FirstLine(message);
    var tokens, head := Words(line), Kept(message).0;
    var (words, open) := Cut(head);
    HeadInLine(message);
    KeptLength(message);
    assert line[..|head|] == head;
    WordsAreWords(line);
    CutFits(head);
    CutPrefix(line, |head|);
    OverAreWords(line);
    hide Cut, Words, Spaced, FirstLine, Kept;
    ShorterHead(tokens, words, head, open);
    if Spaced(tokens[..3]) <= message {
      assert head == Spaced(tokens[..3]);
      SpacedCut(tokens[..3]);
    }
  }

  lemma KeptLength(message: string)
    requires |Words(FirstLine(message))| >= 8
    ensures |Kept(message).0| == |Spaced(Words(FirstLine(message))[..3])| && Kept(message).0 <= message
  {
    hide Cut, Words, Spaced, FirstLine;
    TokensFit(FirstLine(message), 3);
  }

  lemma OverAreWords(line: string)
    ensures Cut(line).0 <= Words(line)
  {
  }

  lemma ShorterHead(tokens: seq<string>, words: seq<string>, head: string, open: string)
    requires |tokens| >= 8 && words <= tokens && |head| == |Spaced(tokens[..3])| && |Spaced(words)| + |open| <= |head|
    requires |Spaced(words)| + |open| == |head| ==> head == Spaced(words) + open
    ensures |words| <= 3 && (|words| == 3 ==> open == [] && head == Spaced(tokens[..3]))
  {
    if |words| > 3 {
      MoreThanThree(tokens, words);
    } else if |words| == 3 {
      assert words == tokens[..3];
      assert Spaced(words) + [] == Spaced(words);
    }
  }

  lemma MoreThanThree(tokens: seq<string>, words: seq<string>)
    requires |words| > 3 && words <= tokens
    ensures |Spaced(words)| > |Spaced(tokens[..3])|
  {
    assert words == tokens[..3] + words[3..];
    SpacedBoth(tokens[..3], words[3..]);
    SpacedLonger(words[3..]);
  }

  lemma SpacedLonger(words: seq<string>)
    requires words != []
    ensures |Spaced(words)| > 0
  {
  }

  lemma {:induction false} SpacedCut(words: seq<string>)
    requires forall i :: 0 <= i < |words| ==> IsWord(words[i])
    ensures Cut(Spaced(words)) == (words, "")
  {
    if words != [] {
      var n := |words| - 1;
      var before, last := words[..n], words[n];
      assert words == before + [last];
      SpacedCut(before);
      hide Cut, Spaced;
      SpacedMore(before, last);
      CutWord(Spaced(before), last);
      assert "" + last == last;
      CutAtEnd(Spaced(before) + last);
    }
  }

  lemma CutAtEnd(line: string)
    requires Cut(line).1 != []
    ensures Cut(line + " ") == (Cut(line).0 + [Cut(line).1], "")
  {
    assert (line + " ")[..|line|] == line;
  }

  /** The rewritten message has the words of the old one but for the rectangle if and only if the
      message is rewritable. */
  lemma MergedWords(message: string, a: Area)
    requires var tokens := Words(FirstLine(message));
             |tokens| >= 8 && tokens[0] == "callback" && tokens[2] == "0"
    ensures var tokens := Words(FirstLine(message));
            Words(FirstLine(Rewritten(message, a))) == tokens[..3] + RectangleWords(a) + tokens[7..] <==>
                Rewritable(message)
  {
    var tokens := Words(FirstLine(message));
    var (head, tail) := Kept(message);
    RewrittenWords(message, a);
    HeadCounts(message);
    CommasLast(a);
    KeptTail(message);
    TailWords(FirstLine(message));
    hide Words, Spaced, FirstLine, Cut, RectangleWords, Rewritten, Kept;
    SameWords(tokens, Cut(head).0, Cut(head).1, RectangleWords(a), Words(FirstLine(tail)));
  }

  predicate EndsWithComma(s: string) {
    s != [] && s[|s| - 1] == ','
  }

  lemma CommasLast(a: Area)
    ensures var numbers := RectangleWords(a);
            |numbers| == 4 && forall i :: 0 <= i < 4 ==> EndsWithComma(numbers[i])
  {
  }

  lemma SameWords(tokens: seq<string>, words: seq<string>, open: string, numbers: seq<string>, rest: seq<string>)
    requires |tokens| >= 8 && tokens[0] == "callback" && tokens[2] == "0" && words <= tokens && |words| <= 3
    requires |numbers| == 4 && forall i :: 0 <= i < 4 ==> EndsWithComma(numbers[i])
    requires |words| == 3 ==> open == []
    ensures words + [open + numbers[0]] + numbers[1..] + rest == tokens[..3] + numbers + tokens[7..] <==>
            |words| == 3 && rest == tokens[7..]
  {
    var now, wanted := words + [open + numbers[0]] + numbers[1..] + rest, tokens[..3] + numbers + tokens[7..];
    assert EndsWithComma(open + numbers[0]);
    if |words| == 3 {
      assert words == tokens[..3] && open + numbers[0] == numbers[0];
      assert now == tokens[..3] + numbers + rest;
      assert now[7..] == rest && wanted[7..] == tokens[7..];
    } else if |words| == 2 {
      assert EndsWithComma(now[2]) && !EndsWithComma(wanted[2]);
    } else if |words| == 1 {
      assert now[2] == numbers[1] && !EndsWithComma(wanted[2]);
    } else {
      assert EndsWithComma(now[0]) && !EndsWithComma(wanted[0]);
    }
  }

  lemma WordRead(n: int)
    ensures Atoi(Decimal(n) + ",") == n
  {
    DecimalRead(n, ",");
  }

  lemma NumberIsNotEmpty(n: int)
    ensures Decimal(n) + "," != "EMPTY,"
  {
    assert (Decimal(n) + ",")[0] != 'E';
  }

  /** What the queue reads from a rewritten message is then the merged rectangle, on the part, for
      the target and of the type of the message that was rewritten. */
  lemma MergedReadsBack(message: string, a: Area)
    requires var tokens := Words(FirstLine(message));
             |tokens| >= 8 && tokens[0] == "callback" && tokens[2] == "0" && Rewritable(message)
    ensures var tokens, result := Words(FirstLine(message)), Words(FirstLine(Rewritten(message, a)));
            && |result| == |tokens| && result[..3] == tokens[..3]
            && ExtractRectangle(result) == Some(a.(part := Atoi(tokens[7])))
  {
    MergedWords(message, a);
    WordRead(a.x);
    WordRead(a.y);
    WordRead(a.w);
    WordRead(a.h);
    NumberIsNotEmpty(a.x);
    hide Words, Spaced, FirstLine, Atoi, Decimal, Rewritten, Rewritable;
    var tokens := Words(FirstLine(message));
    var result := tokens[..3] + RectangleWords(a) + tokens[7..];
    assert result[3] == Decimal(a.x) + "," && result[4] == Decimal(a.y) + "," && result[5] == Decimal(a.w) + ","
           && result[6] == Decimal(a.h) + ",";
    assert result[7] == tokens[7];
    assert result[..3] == tokens[..3];
  }

  /** And it can be rewritten again: the message is then as the kit writes it. */
  lemma MergedStaysRewritable(message: string, a: Area)
    requires var tokens := Words(FirstLine(message));
             |tokens| >= 8 && tokens[0] == "callback" && tokens[2] == "0" && Rewritable(message)
    ensures var result := Rewritten(message, a);
            |Words(FirstLine(result))| >= 8 && Rewritable(result)
  {
    var tokens, result := Words(FirstLine(message)), Rewritten(message, a);
    MergedWords(message, a);
    HeadCounts(message);
    SpacedBoth(tokens[..3], RectangleWords(a));
    var words := tokens[..3] + RectangleWords(a);
    assert |RectangleWords(a)| == 4;
    assert (words + tokens[7..])[..7] == words;
    assert Kept(message).0 == Spaced(tokens[..3]);
    hide Words, Spaced, FirstLine, RectangleWords, Kept;
    assert Spaced(words) <= result;
    SingleSpacedIsRewritable(result);
  }

  // ----- messages that are spaced otherwise -----

  /** The words of an invalidation with one space more after the fourth and the fifth, as in
      "callback all 0 1,  2,  3, 4, 5". */
  function Loose(tokens: seq<string>): string
    requires |tokens| == 8
  {
    Spaced(tokens[..4]) + (" " + (Spaced(tokens[4..5]) + (" " + (Spaced(tokens[5..7]) + tokens[7]))))
  }

  predicate IsInvalidation(tokens: seq<string>) {
    |tokens| == 8 && Clean(tokens) && tokens[0] == "callback" && tokens[2] == "0" && EndsWithComma(tokens[6])
  }

  lemma SpaceThen(rest: string)
    ensures Words(" " + rest) == Words(rest)
  {
    WordsAtSpace("", rest);
    assert Words("") == [];
    assert "" + " " + rest == " " + rest;
  }

  lemma {:induction false} OneLine(s: string)
    requires '\n' !in s
    ensures FirstLine(s) == s
  {
    assert s + "" == s;
    FirstLineAfter(s, "");
  }

  lemma LooseWords(tokens: seq<string>)
    requires IsInvalidation(tokens)
    ensures Words(Loose(tokens)) == tokens && FirstLine(Loose(tokens)) == Loose(tokens)
  {
    LooseClean(tokens);
    hide Words, Spaced, FirstLine;
    OneLine(Loose(tokens));
    var third := Spaced(tokens[5..7]) + tokens[7];
    var second := Spaced(tokens[4..5]) + (" " + third);
    WordsOfOne(tokens[7]);
    SpacedWords(tokens[5..7], tokens[7]);
    SpaceThen(third);
    SpacedWords(tokens[4..5], " " + third);
    SpaceThen(second);
    SpacedWords(tokens[..4], " " + second);
    assert tokens[..4] + (tokens[4..5] + (tokens[5..7] + [tokens[7]])) == tokens;
  }

  lemma LooseClean(tokens: seq<string>)
    requires IsInvalidation(tokens)
    ensures '\n' !in Loose(tokens)
  {
    hide Spaced;
    SpacedClean(tokens[..4]);
    SpacedClean(tokens[4..5]);
    SpacedClean(tokens[5..7]);
  }

  /** What is kept behind begins with the comma of the word before. */
  lemma LooseTail(tokens: seq<string>)
    requires IsInvalidation(tokens)
    ensures |Spaced(tokens[..7])| <= |Loose(tokens)|
    ensures Loose(tokens)[|Spaced(tokens[..7])|..] == Spaced([","]) + tokens[7]
  {
    var t := tokens[6];
    var u := t[..|t| - 1];
    assert t == u + ",";
    assert tokens[5..7] == tokens[5..6] + [t];
    assert tokens[..7] == tokens[..4] + (tokens[4..5] + tokens[5..7]);
    SpacedBoth(tokens[..4], tokens[4..5] + tokens[5..7]);
    SpacedBoth(tokens[4..5], tokens[5..7]);
    SpacedMore(tokens[5..6], t);
    assert Spaced([","]) == "," + " " + "";
    hide Spaced;
    var front := Spaced(tokens[..4]) + " " + Spaced(tokens[4..5]) + " " + Spaced(tokens[5..6]) + u;
    LooseEnd(Spaced(tokens[..4]), Spaced(tokens[4..5]), Spaced(tokens[5..6]), u, tokens[7]);
    assert |front| == |Spaced(tokens[..7])|;
    assert Loose(tokens) == front + (Spaced([","]) + tokens[7]);
  }

  lemma LooseEnd(a: string, b: string, c: string, u: string, last: string)
    ensures a + (" " + (b + (" " + (c + (u + ",") + " " + last)))) ==
            (a + " " + b + " " + c + u) + ("," + " " + "" + last)
  {
  }

  /** Spaced like this, the message cannot be rewritten: another word is read behind the rectangle, and
      the merged invalidation is taken for one of part 0 whatever its part was. */
  lemma LooseIsLost(tokens: seq<string>, a: Area)
    requires IsInvalidation(tokens)
    ensures Words(FirstLine(Loose(tokens))) == tokens && !Rewritable(Loose(tokens))
    ensures ExtractRectangle(Words(FirstLine(Rewritten(Loose(tokens), a)))) == Some(a.(part := 0))
  {
    var m := Loose(tokens);
    LooseWords(tokens);
    LooseRewritten(tokens, a);
    MergedWords(m, a);
    LostRead(tokens, a);
    hide Words, Spaced, FirstLine, Rewritten, Rewritable, ExtractRectangle;
    assert |tokens[..3] + RectangleWords(a) + [",", tokens[7]]| == 9;
    assert |tokens[..3] + RectangleWords(a) + tokens[7..]| == 8;
  }

  lemma LooseRewritten(tokens: seq<string>, a: Area)
    requires IsInvalidation(tokens) && Words(FirstLine(Loose(tokens))) == tokens
    ensures Words(FirstLine(Rewritten(Loose(tokens), a))) == tokens[..3] + RectangleWords(a) + [",", tokens[7]]
  {
    LooseTailWords(tokens);
    LooseHeadWords(tokens);
    RewrittenWords(Loose(tokens), a);
    CommasLast(a);
    hide *;
    HeadGoesOn(tokens[..3], RectangleWords(a), [",", tokens[7]]);
  }

  lemma HeadGoesOn(words: seq<string>, numbers: seq<string>, rest: seq<string>)
    requires numbers != []
    ensures words + ["" + numbers[0]] + numbers[1..] + rest == words + numbers + rest
  {
    assert "" + numbers[0] == numbers[0];
    assert [numbers[0]] + numbers[1..] == numbers;
  }

  lemma LooseTailWords(tokens: seq<string>)
    requires IsInvalidation(tokens) && Words(FirstLine(Loose(tokens))) == tokens
    ensures Words(FirstLine(Kept(Loose(tokens)).1)) == [",", tokens[7]]
  {
    LooseTail(tokens);
    LastTwo(tokens[7]);
    hide *;
    assert Kept(Loose(tokens)).1 == Loose(tokens)[|Spaced(tokens[..7])|..] by {
      KeptTailIs(Loose(tokens));
    }
  }

  lemma KeptTailIs(message: string)
    requires |Words(FirstLine(message))| >= 8
    ensures |Spaced(Words(FirstLine(message))[..7])| <= |message|
    ensures Kept(message).1 == message[|Spaced(Words(FirstLine(message))[..7])|..]
  {
    hide Words, Spaced, FirstLine;
    TokensFit(FirstLine(message), 7);
  }

  lemma LastTwo(last: string)
    requires IsWord(last) && '\n' !in last
    ensures Words(FirstLine(Spaced([","]) + last)) == [",", last]
  {
    OneLine(last);
    WordsOfOne(last);
    SpacedRead([","], last);
    hide *;
    assert [","] + [last] == [",", last];
  }

  lemma LooseHeadWords(tokens: seq<string>)
    requires IsInvalidation(tokens) && Words(FirstLine(Loose(tokens))) == tokens
    ensures Cut(Kept(Loose(tokens)).0) == (tokens[..3], "")
  {
    HeadCounts(Loose(tokens));
    LooseHead(tokens);
    hide Words, Spaced, FirstLine, Loose, Cut, Kept;
    var words := Cut(Kept(Loose(tokens)).0).0;
    assert words == tokens[..3];
  }

  lemma LooseHead(tokens: seq<string>)
    requires IsInvalidation(tokens)
    ensures Spaced(tokens[..3]) <= Loose(tokens)
  {
    assert tokens[..4] == tokens[..3] + [tokens[3]];
    SpacedMore(tokens[..3], tokens[3]);
  }

  lemma LostRead(tokens: seq<string>, a: Area)
    requires |tokens| == 8
    ensures ExtractRectangle(tokens[..3] + RectangleWords(a) + [",", tokens[7]]) == Some(a.(part := 0))
  {
    WordRead(a.x);
    WordRead(a.y);
    WordRead(a.w);
    WordRead(a.h);
    NumberIsNotEmpty(a.x);
    assert Atoi(",") == ReadDigits(",", 0) == 0;
    hide Atoi, Decimal;
    var result := tokens[..3] + RectangleWords(a) + [",", tokens[7]];
    assert result[3] == Decimal(a.x) + "," && result[4] == Decimal(a.y) + "," && result[5] == Decimal(a.w) + ",";
    assert result[6] == Decimal(a.h) + "," && result[7] == ",";
  }
}
