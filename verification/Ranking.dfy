/**
  The order in which crawlers are served (RankCrawler in sched/Crawler.cpp), and what serving one of
  them achieves. `C` stands for crawlers.
 */
module Ranking {
  import opened Sequences

  /** The crawlers in the queue, how much each has, and how much each may have. */
  datatype Shift<!C> = Shift(online: set<C>, loads: map<C, nat>, room: map<C, nat>)

  ghost predicate Valid<C>(s: Shift<C>) {
    s.loads.Keys == s.room.Keys && s.online <= s.loads.Keys && forall c :: c in s.loads ==> s.loads[c] <= s.room[c]
  }

  /** Crawler `l` comes after `r`: it has more to do, or is offline while `r` is online. */
  predicate RankedBelow<C(==)>(s: Shift<C>, l: C, r: C)
    requires l in s.loads && r in s.loads
  {
    if l in s.online && r in s.online then s.loads[l] > s.loads[r]
    else l !in s.online && r in s.online
  }

  /** The rank is a strict weak order, as a priority queue demands. */
  lemma RankIsStrictWeakOrder<C>(s: Shift<C>, a: C, b: C, c: C)
    requires a in s.loads && b in s.loads && c in s.loads
    ensures !RankedBelow(s, a, a)
    ensures RankedBelow(s, a, b) && RankedBelow(s, b, c) ==> RankedBelow(s, a, c)
    ensures !RankedBelow(s, a, b) && !RankedBelow(s, b, c) ==> !RankedBelow(s, a, c)
  {
  }

  /** What the top of a priority queue promises: it is ranked below none. */
  ghost predicate IsTop<C>(s: Shift<C>, c: C) {
    c in s.loads && forall d :: d in s.loads ==> !RankedBelow(s, c, d)
  }

  ghost predicate Full<C>(s: Shift<C>, c: C)
    requires c in s.loads && c in s.room
  {
    s.loads[c] == s.room[c]
  }

  /** The crawlers that are online and could take on more. */
  ghost function Waiting<C>(s: Shift<C>): set<C>
    requires Valid(s)
  {
    set c | c in s.online && !Full(s, c)
  }

  /** No online crawler, once full, still ranks above one that waits. */
  ghost predicate Unblocked<C>(s: Shift<C>)
    requires Valid(s)
  {
    forall c, d :: c in Waiting(s) && d in s.online ==> s.loads[c] < s.room[d]
  }

  /** Crawlers of one capacity never block each other. */
  lemma SameCapacityUnblocked<C>(s: Shift<C>)
    requires Valid(s) && forall c, d :: c in s.room && d in s.room ==> s.room[c] == s.room[d]
    ensures Unblocked(s)
  {
  }

  /** One crawler is served: only its load grows, and when online it is full or the tree exhausted. */
  ghost predicate Served<C>(s: Shift<C>, s': Shift<C>, c: C, exhausted: bool)
    requires Valid(s) && Valid(s')
  {
    && c in s.loads && s' == s.(loads := s'.loads) && s'.loads == s.loads[c := s'.loads[c]]
    && s'.loads[c] >= s.loads[c] && (c !in s.online ==> s'.loads[c] == s.loads[c])
    && (c in s.online ==> Full(s', c) || exhausted)
  }

  /** A crawler with more to do than another online crawler can ever have is never the top. */
  lemma BlockedIsNeverTop<C>(s: Shift<C>, c: C, d: C)
    requires Valid(s) && c in s.online && d in s.online && s.room[d] < s.loads[c]
    ensures !IsTop(s, c)
  {
    assert RankedBelow(s, c, d);
  }

  /** The sum of the loads of the crawlers listed. */
  ghost function Total<C>(loads: map<C, nat>, cs: seq<C>): nat
    requires forall c <- cs :: c in loads
  {
    if cs == [] then 0 else Total(loads, cs[..|cs| - 1]) + loads[cs[|cs| - 1]]
  }

  lemma {:induction false} TotalAfterServing<C>(loads: map<C, nat>, cs: seq<C>, c: C, x: nat)
    requires (forall d <- cs :: d in loads) && (forall i, j :: 0 <= i < j < |cs| ==> cs[i] != cs[j]) && c in loads
    ensures Total(loads[c := x], cs) == if c in cs then Total(loads, cs) - loads[c] + x else Total(loads, cs)
  {
    if cs != [] {
      var init, last := cs[..|cs| - 1], cs[|cs| - 1];
      TotalAfterServing(loads, init, c, x);
      assert c in cs <==> c in init || c == last;
    }
  }

  /** Loads that have not shrunk and add up to no more are the same. */
  lemma {:induction false} SameTotal<C>(a: map<C, nat>, b: map<C, nat>, cs: seq<C>)
    requires forall c <- cs :: c in a && c in b && a[c] <= b[c]
    ensures Total(a, cs) <= Total(b, cs) && (Total(a, cs) == Total(b, cs) ==> forall c <- cs :: a[c] == b[c])
  {
    if cs != [] {
      SameTotal(a, b, cs[..|cs| - 1]);
    }
  }

  /** Only the load of `c` grew, by `l`. */
  ghost predicate Grew<C>(s: Shift<C>, s': Shift<C>, c: C, l: nat) {
    c in s.loads && s' == s.(loads := s.loads[c := s.loads[c] + l])
  }

  /** Since the run began pages were added to the loads, `k` in all. */
  ghost predicate Progress<C>(s0: Shift<C>, s: Shift<C>, cs: seq<C>, k: nat) {
    && Valid(s0) && Valid(s) && s == s0.(loads := s.loads)
    && Distinct(cs) && (forall c <- cs :: c in s.loads) && (forall c <- s.loads :: c in cs)
    && (forall c <- s.loads :: s0.loads[c] <= s.loads[c])
    && Total(s.loads, cs) == Total(s0.loads, cs) + k
  }

  lemma ProgressStep<C>(s0: Shift<C>, s: Shift<C>, s': Shift<C>, cs: seq<C>, k: nat, c: C, l: nat)
    requires Progress(s0, s, cs, k) && Grew(s, s', c, l) && Valid(s')
    ensures Progress(s0, s', cs, k + l)
  {
    hide Total;
    TotalAfterServing(s.loads, cs, c, s.loads[c] + l);
  }

  /** `deferred` lists once each crawler that took on more; it is full by now unless the tree is exhausted. */
  ghost predicate Deferred<C>(s0: Shift<C>, s: Shift<C>, deferred: seq<C>, exhausted: bool)
    requires Valid(s) && s.loads.Keys == s0.loads.Keys
  {
    && Distinct(deferred) && (forall c <- deferred :: c in s.online && s0.loads[c] < s.loads[c])
    && (forall c <- s.loads :: s.loads[c] != s0.loads[c] ==> c in deferred)
    && (exhausted || forall c <- deferred :: Full(s, c))
  }

  lemma DeferredStep<C>(s0: Shift<C>, s: Shift<C>, s': Shift<C>, deferred: seq<C>, exhausted: bool, exhausted': bool, c: C, l: nat)
    requires Valid(s) && Valid(s') && s.loads.Keys == s0.loads.Keys && forall d <- s.loads :: s0.loads[d] <= s.loads[d]
    requires Deferred(s0, s, deferred, exhausted) && Grew(s, s', c, l)
    requires if c in s.online then exhausted' || Full(s', c) else l == 0
    requires exhausted ==> exhausted' && l == 0
    ensures Deferred(s0, s', if l > 0 then deferred + [c] else deferred, exhausted')
  {
    if c in deferred {
      assert s'.loads == s.loads;
    }
  }

  /** Crawler `c` is given all it can take. */
  ghost function Fill<C>(s: Shift<C>, c: C): (s': Shift<C>)
    requires Valid(s) && c in s.loads
    ensures Valid(s') && Served(s, s', c, false)
  {
    s.(loads := s.loads[c := if c in s.online then s.room[c] else s.loads[c]])
  }
}
