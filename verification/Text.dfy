/** Searching, cutting and joining strings, as the standard string class does. */
module Texts {

  /** The first place from `i` on that holds one of the characters, or the end of the string. */
  function First(s: string, cs: set<char>, i: nat): (k: nat)
    requires i <= |s|
    ensures i <= k <= |s| && (forall j :: i <= j < k ==> s[j] !in cs) && (k < |s| ==> s[k] in cs)
    decreases |s| - i
  {
    if i == |s| || s[i] in cs then i else First(s, cs, i + 1)
  }

  /** The last place no later than `i` that holds the character, or -1. */
  function Last(s: string, c: char, i: nat): (k: int)
    ensures -1 <= k <= i && k < |s| && (forall j :: k < j <= i && j < |s| ==> s[j] != c) && (k >= 0 ==> s[k] == c)
    decreases i
  {
    if i < |s| && s[i] == c then i else if i == 0 then -1 else Last(s, c, i - 1)
  }

  /** The first place is the only one with nothing before it. */
  lemma FirstIs(s: string, cs: set<char>, i: nat, k: nat)
    requires i <= k <= |s| && (forall j :: i <= j < k ==> s[j] !in cs) && (k < |s| ==> s[k] in cs)
    ensures First(s, cs, i) == k
  {
  }

  lemma LastIs(s: string, c: char, i: nat, k: int)
    requires -1 <= k <= i && k < |s| && (forall j :: k < j <= i && j < |s| ==> s[j] != c) && (k >= 0 ==> s[k] == c)
    ensures Last(s, c, i) == k
  {
  }

  predicate Free(s: string, cs: set<char>) {
    forall c <- s :: c !in cs
  }

  /** One pass of a scanner: the text up to the first of the characters begins with the next one. */
  lemma FirstStep(s: string, cs: set<char>, i: nat)
    requires i < |s|
    ensures s[i] in cs ==> First(s, cs, i) == i
    ensures s[i] !in cs ==> First(s, cs, i) == First(s, cs, i + 1) && s[i..First(s, cs, i)] == [s[i]] + s[i + 1..First(s, cs, i + 1)]
  {
  }

  // ----- Cutting and joining -----

  /** The parts of the string between the occurrences of `c`. */
  function Split(s: string, c: char): (parts: seq<string>)
    ensures parts != []
  {
    if s == [] then [""] else Preceded(s[0], Split(s[1..], c), c)
  }

  /** The parts once one more character is put in front. */
  function Preceded(x: char, parts: seq<string>, c: char): (r: seq<string>)
    requires parts != []
    ensures r != []
  {
    if x == c then [""] + parts else [[x] + parts[0]] + parts[1..]
  }

  function Join(parts: seq<string>, c: char): string
    requires parts != []
  {
    if |parts| == 1 then parts[0] else parts[0] + [c] + Join(parts[1..], c)
  }

  ghost predicate AllFree(parts: seq<string>, cs: set<char>) {
    forall i :: 0 <= i < |parts| ==> Free(parts[i], cs)
  }

  /** Splitting undoes joining. */
  lemma {:induction false} SplitJoin(parts: seq<string>, c: char)
    requires parts != [] && AllFree(parts, {c})
    ensures Split(Join(parts, c), c) == parts
    decreases |parts|, |if parts == [] then "" else parts[0]|
  {
    var s := Join(parts, c);
    if parts[0] == "" {
      if |parts| == 1 {
        assert parts == [""];
      } else {
        SplitJoin(parts[1..], c);
        assert s[0] == c && s[1..] == Join(parts[1..], c);
        assert parts == [""] + parts[1..];
      }
    } else {
      var shorter := [parts[0][1..]] + parts[1..];
      assert shorter[1..] == parts[1..];
      assert s[0] == parts[0][0] && parts[0][0] in parts[0];
      assert s[1..] == Join(shorter, c) by {
        assert |parts| > 1 ==> parts[0] + [c] + Join(parts[1..], c) == [parts[0][0]] + (parts[0][1..] + [c] + Join(parts[1..], c));
      }
      assert forall x :: x in shorter[0] ==> x in parts[0];
      SplitJoin(shorter, c);
      assert parts[0] == [parts[0][0]] + shorter[0];
      assert parts == [parts[0]] + shorter[1..];
    }
  }

  /** Joining undoes splitting. */
  lemma {:induction false} JoinSplit(s: string, c: char)
    ensures Join(Split(s, c), c) == s
  {
    if s != [] {
      JoinSplit(s[1..], c);
      var rest := Split(s[1..], c);
      if s[0] == c {
        assert ([""] + rest)[1..] == rest;
      } else {
        assert ([[s[0]] + rest[0]] + rest[1..])[1..] == rest[1..];
      }
    }
  }

  /** The parts once one more character is read: it ends the last part, or is added to it. */
  function Extended(parts: seq<string>, x: char, c: char): seq<string>
    requires parts != []
  {
    var n := |parts| - 1;
    if x == c then parts + [""] else parts[n := parts[n] + [x]]
  }

  lemma PrecededExtended(x: char, parts: seq<string>, y: char, c: char)
    requires parts != []
    ensures Preceded(x, Extended(parts, y, c), c) == Extended(Preceded(x, parts, c), y, c)
  {
    var n := |parts| - 1;
    if y != c && n == 0 {
      assert [x] + (parts[0] + [y]) == ([x] + parts[0]) + [y];
    } else if y != c {
      assert parts[n := parts[n] + [y]][1..] == parts[1..][n - 1 := parts[n] + [y]];
    } else {
      assert (parts + [""])[1..] == parts[1..] + [""];
    }
  }

  lemma {:induction false} SplitAppend(s: string, x: char, c: char)
    ensures Split(s + [x], c) == Extended(Split(s, c), x, c)
  {
    if s == [] {
      assert s + [x] == [x] && [x][1..] == [] && [x] + "" == "" + [x];
      assert Split([x], c) == Preceded(x, [""], c);
    } else {
      SplitAppend(s[1..], x, c);
      assert (s + [x])[1..] == s[1..] + [x];
      PrecededExtended(s[0], Split(s[1..], c), x, c);
    }
  }

  function Count(s: string, c: char): nat {
    if s == [] then 0 else Count(s[..|s| - 1], c) + if s[|s| - 1] == c then 1 else 0
  }

  /** There is one part more than there are separators. */
  lemma {:induction false} SplitSize(s: string, c: char)
    ensures |Split(s, c)| == Count(s, c) + 1
  {
    if s != [] {
      SplitSize(s[..|s| - 1], c);
      SplitAppend(s[..|s| - 1], s[|s| - 1], c);
      assert s == s[..|s| - 1] + [s[|s| - 1]];
    }
  }

  // ----- Case -----

  function ToLower(c: char): char {
    if 'A' <= c <= 'Z' then c - 'A' + 'a' else c
  }

  function Lower(s: string): (t: string)
    ensures |t| == |s| && forall i :: 0 <= i < |s| ==> t[i] == ToLower(s[i])
  {
    seq(|s|, i requires 0 <= i < |s| => ToLower(s[i]))
  }

  const CAPITALS: set<char> := set i | 0 <= i < 26 :: UPPER[i]
  const UPPER: string := "ABCDEFGHIJKLMNOPQRSTUVWXYZ"
  const LOWER: string := "abcdefghijklmnopqrstuvwxyz"

  /** Each capital becomes the letter at its place in the alphabet, and no other character changes. */
  lemma LettersLowered()
    ensures forall i :: 0 <= i < 26 ==> ToLower(UPPER[i]) == LOWER[i]
    ensures forall c :: c !in UPPER ==> ToLower(c) == c
  {
  }

  lemma LowerFree(s: string)
    ensures Free(Lower(s), CAPITALS)
  {
  }

  lemma {:induction false} SplitFree(s: string, c: char, cs: set<char>)
    requires Free(s, cs)
    ensures AllFree(Split(s, c), cs)
  {
    if s != [] {
      SplitFree(s[1..], c, cs);
    }
  }

  predicate IsLower(s: string) {
    Lower(s) == s
  }
}
