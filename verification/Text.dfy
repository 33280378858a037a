/** Protocol text: numbers, and the tokens of common/Protocol.hpp. */
module Text {
  import opened Basics

  // ----- numbers -----

  function Digit(n: nat): char
    requires n < 10
  {
    "0123456789"[n]
  }

  predicate IsDigit(c: char) {
    '0' <= c <= '9'
  }

  function Digits(n: nat): (r: string)
    ensures r != [] && forall i :: 0 <= i < |r| ==> IsDigit(r[i])
  {
    if n < 10 then [Digit(n)] else Digits(n / 10) + [Digit(n % 10)]
  }

  /** std::to_string. */
  function Decimal(n: int): string {
    if n < 0 then "-" + Digits(-n) else Digits(n)
  }

  function ReadDigits(s: string, before: nat): nat {
    if s == [] || !IsDigit(s[0]) then before
    else ReadDigits(s[1..], before * 10 + (s[0] as int - '0' as int))
  }

  predicate IsSpace(c: char) {
    c == ' ' || 9 <= c as int <= 13
  }

  /** std::atoi, on numbers that fit. */
  function Atoi(s: string): int {
    if s == [] then 0
    else if IsSpace(s[0]) then Atoi(s[1..])
    else if s[0] == '-' then 0 - ReadDigits(s[1..], 0)
    else if s[0] == '+' then ReadDigits(s[1..], 0)
    else ReadDigits(s, 0)
  }

  lemma {:induction false} DigitsRead(n: nat, rest: string)
    ensures ReadDigits(Digits(n) + rest, 0) == ReadDigits(rest, n)
    decreases n
  {
    if n < 10 {
      DigitRead(n, rest, 0);
    } else {
      var more := [Digit(n % 10)] + rest;
      assert Digits(n) + rest == Digits(n / 10) + more;
      DigitsRead(n / 10, more);
      hide *;
      DigitRead(n % 10, rest, n / 10);
    }
  }

  lemma DigitRead(d: nat, rest: string, before: nat)
    requires d < 10
    ensures ReadDigits([Digit(d)] + rest, before) == ReadDigits(rest, before * 10 + d)
  {
    assert ([Digit(d)] + rest)[1..] == rest;
  }

  /** A written number is read back, whatever but a digit follows it. */
  lemma DecimalRead(n: int, rest: string)
    requires rest == [] || !IsDigit(rest[0])
    ensures Atoi(Decimal(n) + rest) == n
  {
    NothingMore(rest, if n < 0 then -n else n);
    DigitsRead(if n < 0 then -n else n, rest);
    hide Digits, ReadDigits, Atoi;
    if n < 0 {
      SignRead(Digits(-n) + rest);
      Assoc("-", Digits(-n), rest);
    } else {
      StartsWithDigit(Digits(n), rest);
      PlainRead(Digits(n) + rest);
    }
  }

  lemma StartsWithDigit(digits: string, rest: string)
    requires digits != [] && IsDigit(digits[0])
    ensures digits + rest != [] && IsDigit((digits + rest)[0])
  {
  }

  lemma NothingMore(rest: string, n: nat)
    requires rest == [] || !IsDigit(rest[0])
    ensures ReadDigits(rest, n) == n
  {
  }

  lemma SignRead(s: string)
    ensures Atoi("-" + s) == 0 - ReadDigits(s, 0)
  {
    hide ReadDigits;
    assert ("-" + s)[1..] == s;
  }

  lemma PlainRead(s: string)
    requires s != [] && IsDigit(s[0])
    ensures Atoi(s) == ReadDigits(s, 0)
  {
    hide ReadDigits;
  }

  // ----- tokens -----

  /** A line cut at the spaces: the words that are over, and the one that may go on. */
  function Cut(line: string): (r: (seq<string>, string)) {
    if line == [] then ([], "")
    else
      var (words, open) := Cut(line[..|line| - 1]);
      var c := line[|line| - 1];
      if c != ' ' then (words, open + [c])
      else if open == [] then (words, "")
      else (words + [open], "")
  }

  function Words(line: string): seq<string> {
    var (words, open) := Cut(line);
    if open == [] then words else words + [open]
  }

  /** A word up to its first equals sign. */
  function BeforeEquals(s: string): (r: string)
    ensures r <= s && '=' !in r && (|r| < |s| ==> s[|r|] == '=')
  {
    if s == [] || s[0] == '=' then "" else [s[0]] + BeforeEquals(s[1..])
  }

  function FirstLine(s: string): (r: string)
    ensures r <= s && '\n' !in r
  {
    if s == [] || s[0] == '\n' then "" else [s[0]] + FirstLine(s[1..])
  }

  predicate IsWord(s: string) {
    s != [] && ' ' !in s
  }

  lemma {:induction false} CutOpen(w: string)
    requires ' ' !in w
    ensures Cut(w) == ([], w)
  {
    if w != [] {
      assert w == w[..|w| - 1] + [w[|w| - 1]];
      CutOpen(w[..|w| - 1]);
    }
  }

  /** A space is a cut. */
  lemma {:induction false} CutAtSpace(x: string, y: string)
    ensures Cut(x + " " + y) == (Words(x) + Cut(y).0, Cut(y).1)
  {
    var s := x + " " + y;
    if y == [] {
      assert s[..|s| - 1] == x && s[|s| - 1] == ' ';
      assert Words(x) + [] == Words(x);
    } else {
      assert s[..|s| - 1] == x + " " + y[..|y| - 1];
      CutAtSpace(x, y[..|y| - 1]);
      var (words, open) := Cut(y[..|y| - 1]);
      assert Words(x) + (words + [open]) == (Words(x) + words) + [open];
    }
  }

  lemma WordsOfOne(w: string)
    requires IsWord(w)
    ensures Words(w) == [w]
  {
    CutOpen(w);
  }

  lemma WordsAtSpace(x: string, y: string)
    ensures Words(x + " " + y) == Words(x) + Words(y)
  {
    CutAtSpace(x, y);
    var (words, open) := Cut(y);
    assert Words(x) + (words + [open]) == (Words(x) + words) + [open];
  }

  /** Words of a line are runs without spaces; written with a space after each they are cut again. */
  function Spaced(words: seq<string>): string {
    if words == [] then "" else words[0] + " " + Spaced(words[1..])
  }

  lemma {:induction false} SpacedWords(words: seq<string>, rest: string)
    requires forall i :: 0 <= i < |words| ==> IsWord(words[i])
    ensures Words(Spaced(words) + rest) == words + Words(rest)
  {
    if words == [] {
      assert Spaced(words) + rest == rest && words + Words(rest) == Words(rest);
    } else {
      var w, more := words[0], Spaced(words[1..]);
      assert Spaced(words) == (w + " ") + more;
      WordsOfOne(w);
      SpacedWords(words[1..], rest);
      hide Words, Spaced;
      Assoc(w + " ", more, rest);
      WordsAtSpace(w, more + rest);
      FirstAndRest(words, Words(rest));
    }
  }

  lemma FirstAndRest(words: seq<string>, rest: seq<string>)
    requires words != []
    ensures [words[0]] + (words[1..] + rest) == words + rest
  {
  }

  lemma {:induction false} CutAreWords(line: string)
    ensures forall i :: 0 <= i < |Cut(line).0| ==> IsWord(Cut(line).0[i])
    ensures ' ' !in Cut(line).1
  {
    if line != [] {
      CutAreWords(line[..|line| - 1]);
    }
  }

  lemma WordsAreWords(line: string)
    ensures forall i :: 0 <= i < |Words(line)| ==> IsWord(Words(line)[i])
  {
    CutAreWords(line);
  }

  /** common/Protocol.hpp:105-138: the words of the first line. */
  method Tokenize(data: string) returns (tokens: seq<string>)
    ensures tokens == Words(FirstLine(data))
  {
    tokens := [];
    if |data| == 0 {
      return;
    }
    var start, end, i := 0, 0, 0;
    while i < |data| && data[i] != '\n'
      invariant 0 <= start <= end == i <= |data|
      invariant '\n' !in data[..i]
      invariant Scanned(data, start, i, tokens)
    {
      ScanOne(data, start, i, tokens);
      if data[i] == ' ' {
        if start != end && data[start] != ' ' {
          tokens := tokens + [data[start..end]];
        }
        start := end;
      } else if data[start] == ' ' {
        start := start + 1;
      }
      i, end := i + 1, end + 1;
    }
    LineIs(data, i);
    if start != end && data[start] != ' ' && data[start] != '\n' {
      tokens := tokens + [data[start..end]];
    }
  }

  /** While a line is scanned: the open word starts at start, unless that is at a space. */
  ghost predicate Scanned(data: string, start: nat, i: nat, tokens: seq<string>)
    requires start <= i <= |data|
  {
    && Cut(data[..i]).0 == tokens
    && (if start < i && data[start] == ' ' then start + 1 == i && Cut(data[..i]).1 == ""
        else Cut(data[..i]).1 == data[start..i])
    && (start == i ==> i == 0)
  }

  lemma ScanOne(data: string, start: nat, i: nat, tokens: seq<string>)
    requires start <= i < |data| && data[i] != '\n' && Scanned(data, start, i, tokens)
    ensures data[i] == ' ' ==>
              Scanned(data, i, i + 1, if start != i && data[start] != ' ' then tokens + [data[start..i]] else tokens)
    ensures data[i] != ' ' ==> Scanned(data, if data[start] == ' ' then start + 1 else start, i + 1, tokens)
  {
    assert data[..i + 1][..i] == data[..i];
    assert data[start..i] + [data[i]] == data[start..i + 1];
  }

  lemma {:induction false} LineIs(data: string, n: nat)
    requires n <= |data| && '\n' !in data[..n] && (n == |data| || data[n] == '\n')
    ensures FirstLine(data) == data[..n]
    decreases n
  {
    if n > 0 {
      assert data[0] == data[..n][0];
      assert data[1..][..n - 1] == data[..n][1..];
      LineIs(data[1..], n - 1);
      assert [data[0]] + data[1..][..n - 1] == data[..n];
    }
  }
}
