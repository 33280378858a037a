/** The edit distance of common/JsonUtil.hpp: the matrix it fills holds the length of a
    shortest script of single-character edits. */
module Levenshtein {
  import opened Basics

  // ----- scripts of edits -----

  datatype Edit = Insert(at: nat, c: char) | Delete(at: nat) | Substitute(at: nat, c: char)
  {
    predicate Applies(s: string) {
      if Insert? then at <= |s| else at < |s|
    }

    function Apply(s: string): string
      requires Applies(s)
    {
      match this
      case Insert(at, c) => s[..at] + [c] + s[at..]
      case Delete(at) => s[..at] + s[at + 1..]
      case Substitute(at, c) => s[..at] + [c] + s[at + 1..]
    }

    /** The edit that takes it back. */
    function Undo(s: string): Edit
      requires Applies(s)
    {
      match this
      case Insert(at, c) => Delete(at)
      case Delete(at) => Insert(at, s[at])
      case Substitute(at, c) => Substitute(at, s[at])
    }
  }

  /** A script, applied edit by edit, turns s into t. */
  predicate Turns(s: string, script: seq<Edit>, t: string)
    decreases |script|
  {
    if script == [] then s == t
    else script[0].Applies(s) && Turns(script[0].Apply(s), script[1..], t)
  }

  ghost predicate IsShortest(n: nat, s: string, t: string) {
    && (exists script :: Turns(s, script, t) && |script| == n)
    && (forall script :: Turns(s, script, t) ==> |script| >= n)
  }

  // ----- the recurrence of the matrix -----

  function Min(a: nat, b: nat): nat {
    if a <= b then a else b
  }

  function Distance(s: string, t: string): nat
    decreases |s| + |t|
  {
    if s == [] then |t|
    else if t == [] then |s|
    else
      var s', t' := s[..|s| - 1], t[..|t| - 1];
      if s[|s| - 1] == t[|t| - 1] then Distance(s', t')
      else 1 + Min(Min(Distance(s, t'), Distance(s', t)), Distance(s', t'))
  }

  /** common/JsonUtil.hpp:44-75. */
  method GetLevenshteinDist(string1: string, string2: string) returns (dist: nat)
    ensures dist == Distance(string1, string2) && IsShortest(dist, string1, string2)
  {
    hide IsShortest;
    var matrix := new nat[|string1| + 1, |string2| + 1];
    for i := 0 to |string1| + 1
      invariant forall k: nat, l: nat :: k < i && l <= |string2| ==>
                matrix[k, l] == Distance(string1[..k], string2[..l])
    {
      for j := 0 to |string2| + 1
        invariant forall k: nat, l: nat :: k < i && l <= |string2| ==>
                  matrix[k, l] == Distance(string1[..k], string2[..l])
        invariant forall l: nat :: l < j ==> matrix[i, l] == Distance(string1[..i], string2[..l])
      {
        ghost var s, t := string1[..i], string2[..j];
        if i == 0 {
          matrix[i, j] := j;
        } else if j == 0 {
          matrix[i, j] := i;
        } else {
          assert s[..i - 1] == string1[..i - 1] && t[..j - 1] == string2[..j - 1];
          if string1[i - 1] == string2[j - 1] {
            matrix[i, j] := matrix[i - 1, j - 1];
          } else {
            matrix[i, j] := 1 + Min(Min(matrix[i, j - 1], matrix[i - 1, j]), matrix[i - 1, j - 1]);
          }
        }
      }
    }
    DistanceIsShortest(string1, string2);
    assert string1[..|string1|] == string1 && string2[..|string2|] == string2;
    dist := matrix[|string1|, |string2|];
  }

  // ----- no script is shorter -----

  lemma {:induction false} LengthsDiffer(s: string, t: string)
    ensures |s| - |t| <= Distance(s, t) && |t| - |s| <= Distance(s, t)
    decreases |s| + |t|
  {
    if s != [] && t != [] {
      LengthsDiffer(s[..|s| - 1], t[..|t| - 1]);
      LengthsDiffer(s, t[..|t| - 1]);
      LengthsDiffer(s[..|s| - 1], t);
    }
  }

  /** One more character at the end changes the distance by at most one. */
  lemma {:induction false} OneMore(s: string, c: char, t: string)
    ensures Distance(s + [c], t) <= Distance(s, t) + 1
    ensures Distance(s, t) <= Distance(s + [c], t) + 1
    decreases |s| + |t|
  {
    var u := s + [c];
    assert u[..|u| - 1] == s;
    LengthsDiffer(u, t);
    if t != [] {
      var t' := t[..|t| - 1];
      OneMore(s, c, t');
      OneMoreRight(s, t', t[|t| - 1]);
      assert t' + [t[|t| - 1]] == t;
    }
  }

  lemma {:induction false} OneMoreRight(s: string, t: string, c: char)
    ensures Distance(s, t + [c]) <= Distance(s, t) + 1
    ensures Distance(s, t) <= Distance(s, t + [c]) + 1
    decreases |s| + |t|
  {
    var u := t + [c];
    assert u[..|u| - 1] == t;
    LengthsDiffer(s, u);
    if s != [] {
      var s' := s[..|s| - 1];
      OneMoreRight(s', t, c);
      OneMore(s', s[|s| - 1], t);
      assert s' + [s[|s| - 1]] == s;
    }
  }

  /** One edit anywhere brings a string nearer by at most one. */
  lemma {:induction false} OneEditNearer(s: string, e: Edit, t: string)
    requires e.Applies(s)
    ensures Distance(s, t) <= Distance(e.Apply(s), t) + 1
    decreases |s| + |t|
  {
    var r := e.Apply(s);
    LengthsDiffer(r, t);
    if e.at >= |s| - 1 && !(e.Insert? && e.at < |s|) {
      EditAtEnd(s, e, t);
    } else if t != [] {
      var s', t' := s[..|s| - 1], t[..|t| - 1];
      EditInside(s, e);
      OneEditNearer(s', e, t');
      OneEditNearer(s', e, t);
      OneEditNearer(s, e, t');
    }
  }

  lemma EditInside(s: string, e: Edit)
    requires e.Applies(s) && (e.at < |s| - 1 || (e.Insert? && e.at < |s|))
    ensures var s' := s[..|s| - 1]; var r := e.Apply(s);
            && e.Applies(s') && r != [] && r[|r| - 1] == s[|s| - 1] && r[..|r| - 1] == e.Apply(s')
  {
  }

  lemma EditAtEnd(s: string, e: Edit, t: string)
    requires e.Applies(s) && e.at >= |s| - 1 && !(e.Insert? && e.at < |s|)
    ensures Distance(s, t) <= Distance(e.Apply(s), t) + 1
  {
    hide Distance;
    match e
    case Insert(at, c) =>
      assert e.Apply(s) == s + [c];
      OneMore(s, c, t);
    case Delete(at) =>
      var s' := s[..|s| - 1];
      assert e.Apply(s) == s' && s == s' + [s[|s| - 1]];
      OneMore(s', s[|s| - 1], t);
    case Substitute(at, c) =>
      var s' := s[..|s| - 1];
      assert e.Apply(s) == s' + [c] && s == s' + [s[|s| - 1]];
      LastReplaced(s', s[|s| - 1], c, t);
  }

  lemma {:induction false} LastReplaced(s: string, a: char, b: char, t: string)
    ensures Distance(s + [a], t) <= Distance(s + [b], t) + 1
    decreases |t|
  {
    var x, y := s + [a], s + [b];
    assert x[..|x| - 1] == s && y[..|y| - 1] == s;
    if t != [] {
      var t' := t[..|t| - 1];
      var d := t[|t| - 1];
      assert t' + [d] == t;
      LastReplaced(s, a, b, t');
      OneMoreRight(s, t', d);
      OneMore(s, a, t');
    }
  }

  lemma {:induction false} SelfDistance(s: string)
    ensures Distance(s, s) == 0
  {
    if s != [] {
      SelfDistance(s[..|s| - 1]);
    }
  }

  lemma {:induction false} NoShorterScript(s: string, script: seq<Edit>, t: string)
    requires Turns(s, script, t)
    ensures |script| >= Distance(s, t)
    decreases |script|
  {
    hide Distance;
    if script == [] {
      SelfDistance(s);
    } else {
      OneEditNearer(s, script[0], t);
      NoShorterScript(script[0].Apply(s), script[1..], t);
    }
  }

  // ----- some script is as short -----

  lemma ApplyPrefix(s: string, e: Edit, tail: string)
    requires e.Applies(s)
    ensures e.Applies(s + tail) && e.Apply(s + tail) == e.Apply(s) + tail
  {
    CutBefore(s, tail, e.at);
    match e {
      case Insert(at, c) => Assoc(s[..at] + [c], s[at..], tail);
      case Delete(at) =>
        CutBefore(s, tail, at + 1);
        Assoc(s[..at], s[at + 1..], tail);
      case Substitute(at, c) =>
        CutBefore(s, tail, at + 1);
        Assoc(s[..at] + [c], s[at + 1..], tail);
    }
  }

  lemma CutBefore(s: string, tail: string, at: nat)
    requires at <= |s|
    ensures (s + tail)[..at] == s[..at] && (s + tail)[at..] == s[at..] + tail
  {
  }

  /** A script still works when both strings have something behind them. */
  lemma {:induction false} TurnsPrefix(s: string, script: seq<Edit>, t: string, tail: string)
    requires Turns(s, script, t)
    ensures Turns(s + tail, script, t + tail)
    decreases |script|
  {
    if script != [] {
      var e := script[0];
      ApplyPrefix(s, e, tail);
      TurnsPrefix(e.Apply(s), script[1..], t, tail);
    }
  }

  lemma {:induction false} TurnsThen(s: string, first: seq<Edit>, t: string, second: seq<Edit>, u: string)
    requires Turns(s, first, t) && Turns(t, second, u)
    ensures Turns(s, first + second, u)
    decreases |first|
  {
    if first == [] {
      assert first + second == second;
    } else {
      TurnsThen(first[0].Apply(s), first[1..], t, second, u);
      assert (first + second)[1..] == first[1..] + second;
    }
  }

  lemma {:induction false} ShortestScript(s: string, t: string) returns (script: seq<Edit>)
    ensures Turns(s, script, t) && |script| == Distance(s, t)
    decreases |s| + |t|
  {
    if s == [] && t == [] {
      script := [];
    } else if s != [] && t != [] && s[|s| - 1] == t[|t| - 1] {
      script := ScriptBeforeLast(s, t);
    } else {
      script := ScriptWithLastEdit(s, t);
    }
  }

  /** When the last characters agree, the script leaves them alone. */
  lemma {:induction false} ScriptBeforeLast(s: string, t: string) returns (script: seq<Edit>)
    requires s != [] && t != [] && s[|s| - 1] == t[|t| - 1]
    ensures Turns(s, script, t) && |script| == Distance(s, t)
    decreases |s| + |t|, 0
  {
    hide Turns;
    var s', t', last := s[..|s| - 1], t[..|t| - 1], [s[|s| - 1]];
    script := ShortestScript(s', t');
    TurnsPrefix(s', script, t', last);
    assert s' + last == s && t' + last == t;
  }

  /** When the last characters differ, the script ends by making the last one of t. */
  lemma {:induction false} ScriptWithLastEdit(s: string, t: string) returns (script: seq<Edit>)
    requires s != [] || t != []
    requires s != [] && t != [] ==> s[|s| - 1] != t[|t| - 1]
    ensures Turns(s, script, t) && |script| == Distance(s, t)
    decreases |s| + |t|, 0
  {
    hide Turns;
    if t != [] && (s == [] || Distance(s, t) == 1 + Distance(s, t[..|t| - 1])) {
      var t' := t[..|t| - 1];
      script := ShortestScript(s, t');
      script := InsertLast(s, script, t', t[|t| - 1]);
      assert t' + [t[|t| - 1]] == t;
    } else if t == [] || Distance(s, t) == 1 + Distance(s[..|s| - 1], t) {
      var s' := s[..|s| - 1];
      script := ShortestScript(s', t);
      script := DeleteLast(s', script, t, s[|s| - 1]);
      assert s' + [s[|s| - 1]] == s;
    } else {
      var s', t' := s[..|s| - 1], t[..|t| - 1];
      script := ShortestScript(s', t');
      script := SubstituteLast(s', script, t', s[|s| - 1], t[|t| - 1]);
      assert s' + [s[|s| - 1]] == s && t' + [t[|t| - 1]] == t;
    }
  }

  lemma InsertLast(s: string, script: seq<Edit>, t: string, c: char) returns (longer: seq<Edit>)
    requires Turns(s, script, t)
    ensures Turns(s, longer, t + [c]) && |longer| == |script| + 1
  {
    hide Turns;
    var e := Insert(|t|, c);
    assert e.Apply(t) == t + [c];
    LastEdit(s, script, t, e, t + [c]);
    longer := script + [e];
  }

  lemma DeleteLast(s: string, script: seq<Edit>, t: string, a: char) returns (longer: seq<Edit>)
    requires Turns(s, script, t)
    ensures Turns(s + [a], longer, t) && |longer| == |script| + 1
  {
    hide Turns;
    var e := Delete(|t|);
    TurnsPrefix(s, script, t, [a]);
    assert e.Apply(t + [a]) == t;
    LastEdit(s + [a], script, t + [a], e, t);
    longer := script + [e];
  }

  lemma SubstituteLast(s: string, script: seq<Edit>, t: string, a: char, c: char) returns (longer: seq<Edit>)
    requires Turns(s, script, t)
    ensures Turns(s + [a], longer, t + [c]) && |longer| == |script| + 1
  {
    hide Turns;
    var e := Substitute(|t|, c);
    TurnsPrefix(s, script, t, [a]);
    assert e.Apply(t + [a]) == t + [c];
    LastEdit(s + [a], script, t + [a], e, t + [c]);
    longer := script + [e];
  }

  lemma LastEdit(s: string, script: seq<Edit>, t: string, e: Edit, u: string)
    requires Turns(s, script, t) && e.Applies(t) && e.Apply(t) == u
    ensures Turns(s, script + [e], u)
  {
    assert Turns(t, [e], u);
    TurnsThen(s, script, t, [e], u);
  }

  // ----- what the result means -----

  lemma DistanceIsShortest(s: string, t: string)
    ensures IsShortest(Distance(s, t), s, t)
  {
    hide Distance;
    var script := ShortestScript(s, t);
    forall other | Turns(s, other, t) ensures |other| >= Distance(s, t) {
      NoShorterScript(s, other, t);
    }
  }

  lemma UndoTakesBack(s: string, e: Edit)
    requires e.Applies(s)
    ensures e.Undo(s).Applies(e.Apply(s)) && e.Undo(s).Apply(e.Apply(s)) == s
  {
  }

  /** One edit anywhere changes the distance by at most one, up or down. */
  lemma OneEdit(s: string, e: Edit, t: string)
    requires e.Applies(s)
    ensures Distance(s, t) - 1 <= Distance(e.Apply(s), t) <= Distance(s, t) + 1
  {
    hide Distance;
    OneEditNearer(s, e, t);
    UndoTakesBack(s, e);
    OneEditNearer(e.Apply(s), e.Undo(s), t);
  }

  /** A script run backwards, edit by edit. */
  lemma {:induction false} ScriptBack(s: string, script: seq<Edit>, t: string) returns (back: seq<Edit>)
    requires Turns(s, script, t)
    ensures Turns(t, back, s) && |back| == |script|
    decreases |script|
  {
    if script == [] {
      back := [];
    } else {
      var e := script[0];
      back := ScriptBack(e.Apply(s), script[1..], t);
      UndoTakesBack(s, e);
      LastEdit(t, back, e.Apply(s), e.Undo(s), s);
      back := back + [e.Undo(s)];
    }
  }

  lemma {:induction false} DistanceSymmetric(s: string, t: string)
    ensures Distance(s, t) == Distance(t, s)
  {
    hide Distance;
    var there := ShortestScript(s, t);
    var back := ScriptBack(s, there, t);
    NoShorterScript(t, back, s);
    var there' := ShortestScript(t, s);
    var back' := ScriptBack(t, there', s);
    NoShorterScript(s, back', t);
  }

  lemma {:induction false} DistanceZeroIffEqual(s: string, t: string)
    ensures Distance(s, t) == 0 <==> s == t
  {
    hide Distance;
    var script := ShortestScript(s, t);
    SelfDistance(s);
  }

  lemma DistanceTriangle(s: string, t: string, u: string)
    ensures Distance(s, u) <= Distance(s, t) + Distance(t, u)
  {
    hide Distance;
    var first := ShortestScript(s, t);
    var second := ShortestScript(t, u);
    TurnsThen(s, first, t, second, u);
    NoShorterScript(s, first + second, u);
  }
}
