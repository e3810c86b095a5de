/** Facts about sequences and sets that the verifier has to be told. */
module Sequences {

  lemma Associative<T>(a: seq<T>, b: seq<T>, c: seq<T>)
    ensures a + b + c == a + (b + c)
  {
  }

  /** A piece of a concatenation, by its place. */
  lemma Middle<T>(a: seq<T>, b: seq<T>, c: seq<T>)
    ensures (a + b + c)[|a|..|a| + |b|] == b
    ensures forall i {:trigger (a + b + c)[i]} :: |a| <= i < |a| + |b| ==> (a + b + c)[i] == b[i - |a|] && b[i - |a|] in b
    ensures forall i {:trigger (a + b + c)[i]} :: 0 <= i < |a| ==> (a + b + c)[i] == a[i] && a[i] in a
  {
  }

  ghost predicate Distinct<T>(s: seq<T>) {
    forall i, j :: 0 <= i < j < |s| ==> s[i] != s[j]
  }

  ghost function Elements<T>(s: seq<T>): set<T> {
    set x | x in s
  }

  lemma {:induction false} DistinctSize<T>(s: seq<T>)
    requires Distinct(s)
    ensures |Elements(s)| == |s|
  {
    if s != [] {
      var init, last := s[..|s| - 1], s[|s| - 1];
      DistinctSize(init);
      assert last !in Elements(init);
      assert s == init + [last];
      assert Elements(s) == Elements(init) + {last};
    }
  }

  lemma SmallerSubset<T>(a: set<T>, b: set<T>)
    requires a <= b
    ensures |a| <= |b|
  {
    assert b == a + (b - a);
  }

  lemma {:induction false} DistinctMeansOnce<T>(s: seq<T>)
    requires Distinct(s)
    ensures forall x :: multiset(s)[x] <= 1
  {
    if s != [] {
      var init, last := s[..|s| - 1], s[|s| - 1];
      DistinctMeansOnce(init);
      assert s == init + [last] && last !in init;
    }
  }

  /** Rearranging a sequence leaves its elements different. */
  lemma Rearranged<T>(s: seq<T>, r: seq<T>)
    requires Distinct(s) && multiset(r) == multiset(s)
    ensures Distinct(r) && forall x :: x in r <==> x in s
  {
    DistinctMeansOnce(s);
    forall i, j | 0 <= i < j < |r| ensures r[i] != r[j] {
      assert r == r[..j] + r[j..] && r[..j][i] == r[i] && r[j..][0] == r[j];
      assert multiset(r[..j])[r[i]] > 0 && multiset(r[j..])[r[j]] > 0 && multiset(r)[r[j]] <= 1;
    }
    forall x ensures x in r <==> x in s {
      assert x in r <==> x in multiset(r);
    }
  }
}
