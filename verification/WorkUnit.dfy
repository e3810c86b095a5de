/** A crawler's work unit: a vector of URL pointers kept in order of address (sched/Crawler.cpp). */
module WorkUnits {

  ghost predicate Sorted(s: seq<nat>) {
    forall i, j :: 0 <= i < j < |s| ==> s[i] < s[j]
  }

  /** The first position whose element is not less than `x`, as std::lower_bound finds it by bisection. */
  method LowerBound(s: seq<nat>, x: nat) returns (i: nat)
    requires Sorted(s)
    ensures i <= |s| && (forall k :: 0 <= k < i ==> s[k] < x) && (forall k :: i <= k < |s| ==> x <= s[k])
  {
    var first, count := 0, |s|;
    while count > 0
      invariant 0 <= first && 0 <= count && first + count <= |s|
      invariant forall k :: 0 <= k < first ==> s[k] < x
      invariant forall k :: first + count <= k < |s| ==> x <= s[k]
    {
      var step := count / 2;
      if s[first + step] < x {
        first, count := first + step + 1, count - step - 1;
      } else {
        count := step;
      }
    }
    i := first;
  }

  /** Where an element of a sorted vector is found, it is found once. */
  lemma InsertKeepsSorted(s: seq<nat>, x: nat, i: nat)
    requires Sorted(s) && x !in s && i <= |s|
    requires (forall k :: 0 <= k < i ==> s[k] < x) && (forall k :: i <= k < |s| ==> x <= s[k])
    ensures var t := s[..i] + [x] + s[i..]; Sorted(t) && forall y :: y in t <==> y == x || y in s
  {
    var t := s[..i] + [x] + s[i..];
    forall k | i <= k < |s| ensures x < s[k] {
      assert s[k] in s;
    }
    forall y | y in s ensures y in t {
      var k :| 0 <= k < |s| && s[k] == y;
      assert t[if k < i then k else k + 1] == y;
    }
    assert t[i] == x;
  }

  /** The search for an element that is there stops at it, and erasing it leaves the others. */
  lemma EraseKeepsSorted(s: seq<nat>, x: nat, i: nat)
    requires Sorted(s) && x in s && i <= |s|
    requires (forall k :: 0 <= k < i ==> s[k] < x) && (forall k :: i <= k < |s| ==> x <= s[k])
    ensures i < |s| && s[i] == x
    ensures var t := s[..i] + s[i + 1..]; Sorted(t) && forall y :: y in t <==> y != x && y in s
  {
    var j :| 0 <= j < |s| && s[j] == x;
    assert i <= j;
    assert s[i] <= s[j];
    assert i == j;
    var t := s[..i] + s[i + 1..];
    forall y | y != x && y in s ensures y in t {
      var k :| 0 <= k < |s| && s[k] == y;
      assert t[if k < i then k else k - 1] == y;
    }
  }
}
