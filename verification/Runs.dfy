/** Scheduling runs: the queue is served as many times as it has crawlers (run in sched/Scheduler.cpp). */
module Runs {
  import opened Sequences
  import opened Ranking
  import opened Queues

  /** No online crawler, once full, ranks above a waiting one that is not in front. */
  ghost predicate UnblockedBehind<C>(s: Shift<C>, front: C)
    requires Valid(s)
  {
    forall c, d :: c in Waiting(s) && c != front && d in s.online ==> s.loads[c] < s.room[d]
  }

  /** Nobody behind the front waits, or else all behind it is in order and nobody there is blocked. */
  ghost predicate Conserving<C>(s: Shift<C>, q: seq<C>)
    requires Valid(s) && Known(s, q)
  {
    q == [] || Waiting(s) <= {q[0]} || (OrderedFrom(s, q, 1) && UnblockedBehind(s, q[0]))
  }

  /** The rounds to go are enough for all that wait. */
  ghost predicate OnCourse<C>(s: Shift<C>, q: seq<C>, rounds: int)
    requires Valid(s) && Known(s, q) && q != []
  {
    || Waiting(s) == {}
    || (rounds > 0 && Waiting(s) <= {q[0]})
    || (OrderedFrom(s, q, 1) && UnblockedBehind(s, q[0]) && |Waiting(s) - {q[0]}| < rounds)
  }

  lemma ConservingIsOnCourse<C>(s: Shift<C>, q: seq<C>)
    requires Valid(s) && IsQueue(s, q) && q != []
    ensures OnCourse(s, q, |q|) <==> Conserving(s, q)
  {
    DistinctSize(q);
    assert Elements(q) == s.loads.Keys;
    SmallerSubset(Waiting(s) - {q[0]}, Elements(q) - {q[0]});
  }

  /** The front is served and put back. */
  lemma OnCourseStep<C>(s: Shift<C>, s': Shift<C>, q: seq<C>, q': seq<C>, rounds: int)
    requires Valid(s) && Valid(s') && IsQueue(s, q) && q != [] && Served(s, s', q[0], false)
    requires MayFollow(s', q, q') && OnCourse(s, q, rounds)
    ensures q' != [] && OnCourse(s', q', rounds - 1)
  {
    hide RankedBelow, IsTop, OrderedFrom, Unblocked, UnblockedBehind;
    assert q[0] in q';
    FrontServed(s, s', q);
    if !(Waiting(s) <= {q[0]}) {
      FrontIsTop(s', q');
      WaitingIsFirst(s', q'[0]);
      InOrderBehind(s', q');
    }
  }

  /** Serving the front changes nothing behind it; it waits no longer. */
  lemma FrontServed<C>(s: Shift<C>, s': Shift<C>, q: seq<C>)
    requires Valid(s) && Valid(s') && IsQueue(s, q) && q != [] && Served(s, s', q[0], false)
    ensures IsQueue(s', q) && (OrderedFrom(s, q, 1) <==> OrderedFrom(s', q, 1))
    ensures Waiting(s') == Waiting(s) - {q[0]} && (UnblockedBehind(s, q[0]) <==> Unblocked(s'))
  {
    assert forall i :: 0 < i < |q| ==> q[i] != q[0];
    assert Waiting(s') == Waiting(s) - {q[0]};
  }

  lemma InOrderBehind<C>(s: Shift<C>, q: seq<C>)
    requires Valid(s) && Known(s, q) && q != []
    ensures Ordered(s, q) ==> OrderedFrom(s, q, 1)
    ensures Unblocked(s) ==> UnblockedBehind(s, q[0])
  {
  }

  /** Unless someone is blocked the top is one that waits, while anyone does. */
  lemma WaitingIsFirst<C>(s: Shift<C>, t: C)
    requires Valid(s) && Unblocked(s) && IsTop(s, t)
    ensures Waiting(s) != {} ==> t in Waiting(s) && |Waiting(s) - {t}| == |Waiting(s)| - 1
  {
    if x :| x in Waiting(s) {
      assert !RankedBelow(s, t, x);
    }
  }

  // ----- The accounts of a run -----

  /** No crawler behind the front that ranks below what another can ever have is given anything. */
  ghost predicate NoneToBlocked<C>(s0: Shift<C>, s: Shift<C>, front: C)
    requires Valid(s0) && s == s0.(loads := s.loads) && s.loads.Keys == s0.loads.Keys
  {
    forall c, d :: c in s.online && c != front && d in s.online && s.room[d] < s0.loads[c] ==> s.loads[c] == s0.loads[c]
  }

  /** All that is known of a run so far, with `rounds` still to go. */
  ghost predicate Running<C>(s0: Shift<C>, q0: seq<C>, s: Shift<C>, q: seq<C>, k: nat, deferred: seq<C>, exhausted: bool, rounds: int) {
    && Progress(s0, s, q0, k) && Deferred(s0, s, deferred, exhausted) && q0 != [] && IsQueue(s, q) && q != []
    && (OrderedFrom(s0, q0, 1) ==>
          NoneToBlocked(s0, s, q0[0]) && if rounds < |q0| then Ordered(s, q) else s == s0 && q == q0)
    && (Conserving(s0, q0) ==> exhausted || OnCourse(s, q, rounds))
  }

  lemma RunStarts<C>(s: Shift<C>, q: seq<C>, exhausted: bool)
    requires Valid(s) && IsQueue(s, q) && q != []
    ensures Running(s, q, s, q, 0, [], exhausted, |q|)
  {
    ConservingIsOnCourse(s, q);
  }

  /** The front is given `l` pages, all it can take unless there are no more, and is put back. */
  lemma RunGoesOn<C>(s0: Shift<C>, q0: seq<C>, s: Shift<C>, q: seq<C>, s': Shift<C>, q': seq<C>, k: nat, k': nat,
                     deferred: seq<C>, deferred': seq<C>, exhausted: bool, exhausted': bool, l: nat, rounds: int, rounds': int)
    requires Running(s0, q0, s, q, k, deferred, exhausted, rounds) && rounds <= |q0|
    requires Grew(s, s', q[0], l) && Valid(s') && MayFollow(s', q, q')
    requires if q[0] in s.online then exhausted' || Full(s', q[0]) else l == 0
    requires exhausted ==> exhausted' && l == 0
    requires k' == k + l && rounds' == rounds - 1 && deferred' == if l > 0 then deferred + [q[0]] else deferred
    ensures Running(s0, q0, s', q', k', deferred', exhausted', rounds')
  {
    hide RankedBelow, OrderedFrom, OnCourse, Conserving, NoneToBlocked, Total, Deferred, Waiting;
    ProgressStep(s0, s, s', q0, k, q[0], l);
    DeferredStep(s0, s, s', deferred, exhausted, exhausted', q[0], l);
    assert q[0] in q';
    if OrderedFrom(s0, q0, 1) {
      OrderStep(s0, q0, s, q, s', l, rounds);
    }
    if Conserving(s0, q0) && !exhausted' {
      assert s'.loads == s.loads[q[0] := s'.loads[q[0]]];
      OnCourseStep(s, s', q, q', rounds);
    }
  }

  lemma OrderStep<C>(s0: Shift<C>, q0: seq<C>, s: Shift<C>, q: seq<C>, s': Shift<C>, l: nat, rounds: int)
    requires Valid(s0) && Valid(s) && Valid(s') && s == s0.(loads := s.loads) && s.loads.Keys == s0.loads.Keys
    requires IsQueue(s0, q0) && q0 != [] && IsQueue(s, q) && q != [] && OrderedFrom(s0, q0, 1)
    requires NoneToBlocked(s0, s, q0[0]) && if rounds < |q0| then Ordered(s, q) else s == s0 && q == q0
    requires Grew(s, s', q[0], l) && (q[0] !in s.online ==> l == 0)
    ensures OrderedFrom(s', q, 1) && NoneToBlocked(s0, s', q0[0])
  {
    if rounds < |q0| {
      FrontIsTop(s, q);
    }
    forall c, d | c in s.online && c != q0[0] && d in s.online && s.room[d] < s0.loads[c] ensures s'.loads[c] == s0.loads[c] {
      if c == q[0] {
        BlockedIsNeverTop(s, c, d);
      }
    }
  }

  /**
    What a run comes to: pages given, crawlers deferred, and the queue. The order it needs behind the
    front it restores; while it has that, it passes over blocked crawlers only.
   */
  ghost predicate Ran<C>(s0: Shift<C>, q0: seq<C>, s: Shift<C>, q: seq<C>, k: nat, deferred: seq<C>, exhausted: bool) {
    && Progress(s0, s, q0, k) && Deferred(s0, s, deferred, exhausted) && IsQueue(s, q)
    && (q0 != [] && OrderedFrom(s0, q0, 1) ==> NoneToBlocked(s0, s, q0[0]) && Ordered(s, q))
    && (Conserving(s0, q0) ==> exhausted || Waiting(s) == {})
  }

  lemma RunEnds<C>(s0: Shift<C>, q0: seq<C>, s: Shift<C>, q: seq<C>, k: nat, deferred: seq<C>, exhausted: bool)
    ensures Running(s0, q0, s, q, k, deferred, exhausted, 0) ==> Ran(s0, q0, s, q, k, deferred, exhausted)
  {
  }

  lemma NobodyToServe<C>(s: Shift<C>, exhausted: bool)
    requires Valid(s) && IsQueue(s, [])
    ensures Ran(s, [], s, [], 0, [], exhausted)
  {
    assert Waiting(s) == {};
  }

  /** A run that gives nothing leaves all loads as they were. */
  lemma NothingGiven<C>(s0: Shift<C>, q0: seq<C>, s: Shift<C>, q: seq<C>, deferred: seq<C>, exhausted: bool)
    requires Ran(s0, q0, s, q, 0, deferred, exhausted)
    ensures s == s0 && (Conserving(s0, q0) && Waiting(s0) != {} ==> exhausted)
  {
    SameTotal(s0.loads, s.loads, q0);
    assert s.loads == s0.loads;
  }

  // ----- Whole runs, while the tree has pages to give -----

  /** The queue as it is in each round: its front is served, and then put back as the order demands. */
  ghost predicate IsRun<C>(s: Shift<C>, queues: seq<seq<C>>)
    requires Valid(s)
    decreases |queues|
  {
    queues == [] ||
    (IsQueue(s, queues[0]) && queues[0] != [] &&
     var s' := Fill(s, queues[0][0]);
     (|queues| > 1 ==> MayFollow(s', queues[0], queues[1])) && IsRun(s', queues[1..]))
  }

  ghost function AfterRun<C>(s: Shift<C>, queues: seq<seq<C>>): (s': Shift<C>)
    requires Valid(s) && IsRun(s, queues)
    ensures Valid(s')
    decreases |queues|
  {
    if queues == [] then s else AfterRun(Fill(s, queues[0][0]), queues[1..])
  }

  lemma {:induction false} RunOnCourse<C>(s: Shift<C>, queues: seq<seq<C>>)
    requires Valid(s) && IsRun(s, queues) && queues != [] && OnCourse(s, queues[0], |queues|)
    ensures Waiting(AfterRun(s, queues)) == {}
    decreases |queues|
  {
    hide RankedBelow, OrderedFrom, UnblockedBehind, Waiting, Served, MayFollow;
    var q := queues[0];
    var s' := Fill(s, q[0]);
    FrontServed(s, s', q);
    if |queues| > 1 {
      OnCourseStep(s, s', q, queues[1], |queues|);
      RunOnCourse(s', queues[1..]);
    } else {
      SmallSet(Waiting(s) - {q[0]});
      assert AfterRun(s', []) == s';
    }
  }

  lemma SmallSet<T>(a: set<T>)
    ensures |a| < 1 ==> a == {}
  {
  }

  /** When the order is lost the front may be served again and again. */
  lemma {:induction false} StuckRun<C>(s: Shift<C>, q: seq<C>, c: C, n: nat) returns (queues: seq<seq<C>>)
    requires Valid(s) && IsQueue(s, q) && q != [] && !OrderedFrom(s, q, 1) && c in Waiting(s) && c != q[0]
    ensures |queues| == n && (n > 0 ==> queues[0] == q) && IsRun(s, queues) && c in Waiting(AfterRun(s, queues))
    decreases n
  {
    if n == 0 {
      return [];
    }
    var s' := Fill(s, q[0]);
    assert !OrderedFrom(s', q, 1) by {
      assert forall i :: 0 < i < |q| ==> q[i] != q[0];
    }
    var rest := StuckRun(s', q, c, n - 1);
    queues := [q] + rest;
    assert queues[1..] == rest;
  }

  /** Some crawler of a non-empty set ranks below none of it. */
  lemma FirstOf<C>(s: Shift<C>, cs: set<C>) returns (t: C)
    requires cs != {} && cs <= s.loads.Keys
    ensures t in cs && forall d :: d in cs ==> !RankedBelow(s, t, d)
  {
    t :| t in cs;
    if cs != {t} {
      var x := t;
      assert cs - {x} != {};
      var y := FirstOf(s, cs - {x});
      t := if RankedBelow(s, y, x) then x else y;
      forall d | d in cs ensures !RankedBelow(s, t, d) {
        RankIsStrictWeakOrder(s, x, y, d);
        RankIsStrictWeakOrder(s, y, x, y);
      }
    }
  }

  /** The crawlers from the first in rank to the last. */
  lemma {:induction false} Arranged<C>(s: Shift<C>, cs: set<C>) returns (q: seq<C>)
    requires cs <= s.loads.Keys
    ensures Distinct(q) && (forall c :: c in q <==> c in cs)
    ensures forall i, j :: 0 <= i < j < |q| ==> !RankedBelow(s, q[i], q[j])
    decreases cs
  {
    if cs == {} {
      return [];
    }
    var t := FirstOf(s, cs);
    var rest := Arranged(s, cs - {t});
    q := [t] + rest;
  }

  lemma ArrangedBehind<C>(s: Shift<C>, t: C) returns (q: seq<C>)
    requires IsTop(s, t)
    ensures IsQueue(s, q) && Ordered(s, q) && q != [] && q[0] == t
  {
    var rest := Arranged(s, s.loads.Keys - {t});
    q := [t] + rest;
    hide RankedBelow;
    forall i, j | 0 <= i < j < |q| ensures !RankedBelow(s, q[i], q[j]) {
      assert q[j] in s.loads;
      assert i > 0 ==> q[i] == rest[i - 1] && q[j] == rest[j - 1];
    }
  }

  /** Of the online crawlers but one, who has no less to do than another, the least loaded ranks below none. */
  lemma TopButOne<C>(s: Shift<C>, c: C, d: C) returns (t: C)
    requires Valid(s) && c in s.online && d in s.online && d != c && s.loads[d] <= s.loads[c]
    ensures IsTop(s, t) && t != c
  {
    assert d in s.online - {c};
    t := FirstOf(s, s.online - {c});
  }

  /** A crawler behind the front that a full one blocks may be passed over for ever, in ordered queues. */
  lemma {:induction false} StarvingRun<C>(s: Shift<C>, q: seq<C>, c: C, d: C, n: nat) returns (queues: seq<seq<C>>)
    requires Valid(s) && IsQueue(s, q) && q != [] && c in Waiting(s) && c != q[0]
    requires d in s.online && s.room[d] <= s.loads[c]
    ensures |queues| == n && (n > 0 ==> queues[0] == q) && IsRun(s, queues) && c in Waiting(AfterRun(s, queues))
    decreases n
  {
    if n == 0 {
      return [];
    }
    var s' := Fill(s, q[0]);
    var t := TopButOne(s', c, d);
    var q' := ArrangedBehind(s', t);
    var rest := StarvingRun(s', q', c, d, n - 1);
    queues := [q] + rest;
    assert queues[1..] == rest;
  }

  /**
    Every run, of as many rounds as there are crawlers, leaves no online crawler waiting exactly when
    nobody behind the front waits, or all behind it is in order and nobody there is blocked.
   */
  lemma WorkConservingIff<C(!new)>(s: Shift<C>, q: seq<C>)
    requires Valid(s) && IsQueue(s, q) && q != []
    ensures Conserving(s, q) <==>
            forall queues: seq<seq<C>> :: |queues| == |q| && queues[0] == q && IsRun(s, queues) ==> Waiting(AfterRun(s, queues)) == {}
  {
    hide RankedBelow, IsRun, AfterRun, OrderedFrom;
    if Conserving(s, q) {
      ConservingIsOnCourse(s, q);
      forall queues: seq<seq<C>> | |queues| == |q| && queues[0] == q && IsRun(s, queues) ensures Waiting(AfterRun(s, queues)) == {} {
        RunOnCourse(s, queues);
      }
    } else if !OrderedFrom(s, q, 1) {
      var c :| c in Waiting(s) && c != q[0];
      var queues := StuckRun(s, q, c, |q|);
    } else {
      var c, d :| c in Waiting(s) && c != q[0] && d in s.online && s.room[d] <= s.loads[c];
      var queues := StarvingRun(s, q, c, d, |q|);
    }
  }

  // ----- The heap at work -----

  /** The rounds of a run with the heap. */
  ghost function HeapRun<C>(s: Shift<C>, q: seq<C>, n: nat): (queues: seq<seq<C>>)
    requires Valid(s) && Known(s, q) && q != []
    ensures |queues| == n && (n > 0 ==> queues[0] == q)
    decreases n
  {
    if n == 0 then [] else
      var s' := Fill(s, q[0]);
      [q] + HeapRun(s', Requeued(s', q), n - 1)
  }

  lemma {:induction false} HeapRunIsRun<C>(s: Shift<C>, q: seq<C>, n: nat)
    requires Valid(s) && IsQueue(s, q) && q != []
    ensures IsRun(s, HeapRun(s, q, n))
    decreases n
  {
    hide RankedBelow, OrderedFrom, Requeued, Served;
    if n > 0 {
      var s' := Fill(s, q[0]);
      RequeuedFollows(s', q);
      HeapRunIsRun(s', Requeued(s', q), n - 1);
      assert HeapRun(s, q, n)[1..] == HeapRun(s', Requeued(s', q), n - 1);
    }
  }

  // ----- An input on which the order is lost -----

  ghost function Crew(): (cs: set<nat>)
    ensures forall c: nat :: c in cs <==> c < 5
  {
    {0, 1, 2, 3, 4}
  }

  /** Five crawlers with room for 32 pages each, all online. */
  ghost function Five(loads: seq<nat>): (s: Shift<nat>)
    ensures Valid(s) && s.loads.Keys == s.room.Keys == s.online == Crew()
  {
    Shift(Crew(), map c | c in Crew() :: if c < |loads| && loads[c] <= 32 then loads[c] else 32, map c | c in Crew() :: 32)
  }

  /** Where the front of five goes, when the last one stays at the bottom. */
  lemma RequeuedFive<C>(s: Shift<C>, t: C, a: C, b: C, c: C, d: C)
    requires Known(s, [t, a, b, c, d])
    ensures !RankedBelow(s, b, a) && !RankedBelow(s, b, d) && !RankedBelow(s, a, t) ==>
              Requeued(s, [t, a, b, c, d]) == [b, a, d, c, t]
    ensures RankedBelow(s, b, a) && !RankedBelow(s, c, d) && !RankedBelow(s, c, t) ==>
              Requeued(s, [t, a, b, c, d]) == [a, c, b, d, t]
  {
    hide RankedBelow;
    var q := [t, a, b, c];
    assert [t, a, b, c, d][..4] == q;
    if RankedBelow(s, b, a) {
      assert Child(s, q, 0) == 1;
      var u := [a, a, b, c];
      assert q[0 := a] == u && u[1 := c] == [a, c, b, c];
      assert Child(s, u, 1) == 3;
      assert Sink(s, [a, c, b, c], 3) == ([a, c, b, c], 3);
      assert Sink(s, u, 1) == ([a, c, b, c], 3);
      assert Sink(s, q, 0) == ([a, c, b, c], 3);
    } else {
      assert Child(s, q, 0) == 2;
      assert q[0 := b] == [b, a, b, c];
      assert Sink(s, [b, a, b, c], 2) == ([b, a, b, c], 2);
      assert Sink(s, q, 0) == ([b, a, b, c], 2);
    }
  }

  /** A round among the five: the front, unless it is full, is filled. */
  ghost predicate Round(loads: seq<nat>, q: seq<nat>, loads': seq<nat>, q': seq<nat>) {
    && q != [] && q[0] < 5 && Known(Five(loads'), q)
    && Fill(Five(loads), q[0]) == Five(loads') && Requeued(Five(loads'), q) == q'
  }

  lemma RoundOfFive(loads: seq<nat>, t: nat, a: nat, b: nat, c: nat, d: nat)
    requires |loads| == 5 && (forall c :: 0 <= c < 5 ==> loads[c] <= 32) && t < 5 && a < 5 && b < 5 && c < 5 && d < 5
    ensures var loads' := loads[t := 32];
            && (loads'[b] <= loads'[a] && loads'[b] <= loads'[d] && loads'[a] <= loads'[t] ==>
                  Round(loads, [t, a, b, c, d], loads', [b, a, d, c, t]))
            && (loads'[b] > loads'[a] && loads'[c] <= loads'[d] && loads'[c] <= loads'[t] ==>
                  Round(loads, [t, a, b, c, d], loads', [a, c, b, d, t]))
  {
    hide Crew, Requeued;
    var loads' := loads[t := 32];
    assert Fill(Five(loads), t) == Five(loads');
    RequeuedFive(Five(loads'), t, a, b, c, d);
  }

  /** The loads of five crawlers before anything is scheduled, after a run with plenty of pages, and after one page is taken back. */
  const NOTHING: seq<nat> := [0, 0, 0, 0, 0]
  const EVERYTHING: seq<nat> := [32, 32, 32, 32, 32]
  const ONE_LESS: seq<nat> := [32, 32, 32, 32, 31]

  lemma FiveInQueue(loads: seq<nat>)
    ensures IsQueue(Five(loads), [0, 1, 2, 3, 4]) && IsQueue(Five(loads), [0, 2, 1, 4, 3])
  {
    hide Crew;
    assert forall c :: c in Five(loads).loads <==> c == 0 || c == 1 || c == 2 || c == 3 || c == 4;
  }

  /** One round more of a run. */
  lemma NextRound(loads: seq<nat>, q: seq<nat>, loads': seq<nat>, q': seq<nat>, n: nat, m: nat)
    requires Round(loads, q, loads', q') && IsQueue(Five(loads), q) && m == n + 1
    ensures IsQueue(Five(loads'), q') && HeapRun(Five(loads), q, m)[1..] == HeapRun(Five(loads'), q', n)
    ensures IsRun(Five(loads), HeapRun(Five(loads), q, m)) && IsRun(Five(loads'), HeapRun(Five(loads'), q', n))
    ensures AfterRun(Five(loads), HeapRun(Five(loads), q, m)) == AfterRun(Five(loads'), HeapRun(Five(loads'), q', n))
  {
    hide RankedBelow, OrderedFrom, Requeued, Five;
    RequeuedFollows(Five(loads'), q);
    HeapRunIsRun(Five(loads), q, m);
    HeapRunIsRun(Five(loads'), q', n);
    assert HeapRun(Five(loads), q, m)[1..] == HeapRun(Five(loads'), q', n);
  }

  /** A run fills all five; this is where it leaves them in the queue. */
  lemma FirstRun(n: nat)
    ensures IsQueue(Five(NOTHING), [0, 1, 2, 3, 4]) && IsQueue(Five(EVERYTHING), [0, 2, 1, 4, 3])
    ensures HeapRun(Five(NOTHING), [0, 1, 2, 3, 4], n + 5)[5..] == HeapRun(Five(EVERYTHING), [0, 2, 1, 4, 3], n)
    ensures IsRun(Five(NOTHING), HeapRun(Five(NOTHING), [0, 1, 2, 3, 4], n + 5)) && IsRun(Five(EVERYTHING), HeapRun(Five(EVERYTHING), [0, 2, 1, 4, 3], n))
    ensures AfterRun(Five(NOTHING), HeapRun(Five(NOTHING), [0, 1, 2, 3, 4], n + 5)) ==
            AfterRun(Five(EVERYTHING), HeapRun(Five(EVERYTHING), [0, 2, 1, 4, 3], n))
  {
    hide Round, HeapRun, AfterRun, IsRun, IsQueue, Known, Five, Crew;
    var l1, l2, l3, l4 := [32, 0, 0, 0, 0], [32, 0, 32, 0, 0], [32, 0, 32, 0, 32], [32, 32, 32, 0, 32];
    assert NOTHING[0 := 32] == l1 && l1[2 := 32] == l2 && l2[4 := 32] == l3 && l3[1 := 32] == l4 && l4[3 := 32] == EVERYTHING;
    FiveInQueue(NOTHING);
    FiveInQueue(EVERYTHING);
    RoundOfFive(NOTHING, 0, 1, 2, 3, 4);
    NextRound(NOTHING, [0, 1, 2, 3, 4], l1, [2, 1, 4, 3, 0], n + 4, n + 5);
    RoundOfFive(l1, 2, 1, 4, 3, 0);
    NextRound(l1, [2, 1, 4, 3, 0], l2, [4, 1, 0, 3, 2], n + 3, n + 4);
    RoundOfFive(l2, 4, 1, 0, 3, 2);
    NextRound(l2, [4, 1, 0, 3, 2], l3, [1, 3, 0, 2, 4], n + 2, n + 3);
    RoundOfFive(l3, 1, 3, 0, 2, 4);
    NextRound(l3, [1, 3, 0, 2, 4], l4, [3, 2, 0, 4, 1], n + 1, n + 2);
    RoundOfFive(l4, 3, 2, 0, 4, 1);
    NextRound(l4, [3, 2, 0, 4, 1], EVERYTHING, [0, 2, 1, 4, 3], n, n + 1);
  }

  lemma NoRounds<C>(s: Shift<C>, q: seq<C>)
    requires Valid(s)
    ensures IsQueue(s, q) && q != [] ==> IsRun(s, HeapRun(s, q, 0)) && AfterRun(s, HeapRun(s, q, 0)) == s
  {
  }

  lemma RoundsOfFullOnes()
    ensures Round(ONE_LESS, [0, 2, 1, 4, 3], ONE_LESS, [1, 2, 3, 4, 0])
    ensures Round(ONE_LESS, [1, 2, 3, 4, 0], ONE_LESS, [3, 2, 0, 4, 1])
    ensures Round(ONE_LESS, [3, 2, 0, 4, 1], ONE_LESS, [0, 2, 1, 4, 3])
  {
    hide Round;
    assert ONE_LESS[0 := 32] == ONE_LESS && ONE_LESS[1 := 32] == ONE_LESS && ONE_LESS[3 := 32] == ONE_LESS;
    RoundOfFive(ONE_LESS, 0, 2, 1, 4, 3);
    RoundOfFive(ONE_LESS, 1, 2, 3, 4, 0);
    RoundOfFive(ONE_LESS, 3, 2, 0, 4, 1);
  }

  /** Once a page of the fifth is taken back the fronts are full ones for ever: it is never served again. */
  lemma {:induction false} FifthStarves(n: nat)
    ensures IsQueue(Five(ONE_LESS), [0, 2, 1, 4, 3])
    ensures IsRun(Five(ONE_LESS), HeapRun(Five(ONE_LESS), [0, 2, 1, 4, 3], n))
    ensures AfterRun(Five(ONE_LESS), HeapRun(Five(ONE_LESS), [0, 2, 1, 4, 3], n)) == Five(ONE_LESS)
    decreases n
  {
    hide Round, IsQueue, IsRun, AfterRun, HeapRun, Five, Requeued, Ordered, RankedBelow, Known, Crew;
    FiveInQueue(ONE_LESS);
    HeapRunIsRun(Five(ONE_LESS), [0, 2, 1, 4, 3], n);
    RoundsOfFullOnes();
    NoRounds(Five(ONE_LESS), [0, 2, 1, 4, 3]);
    NoRounds(Five(ONE_LESS), [1, 2, 3, 4, 0]);
    NoRounds(Five(ONE_LESS), [3, 2, 0, 4, 1]);
    if n > 0 {
      NextRound(ONE_LESS, [0, 2, 1, 4, 3], ONE_LESS, [1, 2, 3, 4, 0], n - 1, n);
    }
    if n > 1 {
      NextRound(ONE_LESS, [1, 2, 3, 4, 0], ONE_LESS, [3, 2, 0, 4, 1], n - 2, n - 1);
    }
    if n > 2 {
      NextRound(ONE_LESS, [3, 2, 0, 4, 1], ONE_LESS, [0, 2, 1, 4, 3], n - 3, n - 2);
      FifthStarves(n - 3);
    }
  }

  /** Taking back one page of the fifth crawler blocks nobody, and loses the order. */
  lemma OrderLost()
    ensures var q := [0, 2, 1, 4, 3]; var s, s' := Five(EVERYTHING), Five(ONE_LESS);
            && IsQueue(s, q) && Ordered(s, q) && s' == s.(loads := s.loads[4 := 31])
            && IsQueue(s', q) && Unblocked(s') && !OrderedFrom(s', q, 1) && !Conserving(s', q)
  {
    hide Crew, IsQueue;
    FiveInQueue(EVERYTHING);
    FiveInQueue(ONE_LESS);
    var q := [0, 2, 1, 4, 3];
    assert RankedBelow(Five(ONE_LESS), q[Parent(3)], q[3]);
    assert 4 in Waiting(Five(ONE_LESS));
  }

  lemma AllFilled()
    ensures var s, q := Five(NOTHING), [0, 1, 2, 3, 4];
            && IsQueue(s, q) && Ordered(s, q) && IsRun(s, HeapRun(s, q, 5))
            && AfterRun(s, HeapRun(s, q, 5)) == Five(EVERYTHING) && HeapRun(s, q, 6)[5] == [0, 2, 1, 4, 3]
  {
    hide HeapRun, AfterRun, IsRun, IsQueue, Known, Crew;
    FirstRun(0);
    NoRounds(Five(EVERYTHING), [0, 2, 1, 4, 3]);
    FirstRun(1);
    assert HeapRun(Five(NOTHING), [0, 1, 2, 3, 4], 6)[5] == HeapRun(Five(NOTHING), [0, 1, 2, 3, 4], 6)[5..][0];
  }

  /** With nobody blocked, but the order lost, the fifth crawler waits in all runs to come. */
  lemma LostOrderStarves(n: nat)
    ensures var s, q := Five(ONE_LESS), [0, 2, 1, 4, 3];
            && IsQueue(s, q) && IsRun(s, HeapRun(s, q, n)) && 4 in Waiting(AfterRun(s, HeapRun(s, q, n)))
  {
    hide Crew, HeapRun, AfterRun, IsRun, IsQueue, Known;
    FifthStarves(n);
    assert 4 in Waiting(Five(ONE_LESS));
  }
}
