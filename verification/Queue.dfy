/**
  The queue of crawlers: a binary heap, as the standard library keeps it for a priority queue
  (crawlers in sched/Scheduler.hpp). The rank of a crawler may change while it is queued.
 */
module Queues {
  import opened Sequences
  import opened Ranking

  function Parent(i: nat): (p: nat)
    requires i > 0
    ensures p < i
  {
    (i - 1) / 2
  }

  predicate Known<C>(s: Shift<C>, q: seq<C>) {
    forall c <- q :: c in s.loads
  }

  /** The queue holds each crawler once. */
  ghost predicate IsQueue<C>(s: Shift<C>, q: seq<C>): (yes: bool)
    ensures yes ==> Known(s, q)
  {
    Distinct(q) && (forall c <- q :: c in s.loads) && (forall c <- s.loads :: c in q)
  }

  /** From place `from` on, no crawler ranks below one whose parent it is. */
  ghost predicate OrderedFrom<C>(s: Shift<C>, q: seq<C>, from: nat)
    requires Known(s, q)
  {
    forall i :: 0 < i < |q| && Parent(i) >= from ==> !RankedBelow(s, q[Parent(i)], q[i])
  }

  ghost predicate Ordered<C>(s: Shift<C>, q: seq<C>)
    requires Known(s, q)
  {
    OrderedFrom(s, q, 0)
  }

  /** Nobody in an ordered queue ranks above the one in front. */
  lemma {:induction false} FrontRanksFirst<C>(s: Shift<C>, q: seq<C>, i: nat)
    requires Known(s, q) && Ordered(s, q) && i < |q|
    ensures !RankedBelow(s, q[0], q[i])
    decreases i
  {
    if i > 0 {
      FrontRanksFirst(s, q, Parent(i));
      RankIsStrictWeakOrder(s, q[0], q[Parent(i)], q[i]);
    }
  }

  lemma FrontIsTop<C>(s: Shift<C>, q: seq<C>)
    requires IsQueue(s, q) && q != [] && Ordered(s, q)
    ensures IsTop(s, q[0])
  {
    forall d | d in s.loads ensures !RankedBelow(s, q[0], d) {
      var i :| 0 <= i < |q| && q[i] == d;
      FrontRanksFirst(s, q, i);
    }
  }

  // ----- The heap -----

  /** Puts `c` where the hole is, or above: those it ranks above come down. */
  function SiftUp<C>(s: Shift<C>, q: seq<C>, hole: nat, c: C): (r: seq<C>)
    requires Known(s, q) && c in s.loads && hole < |q|
    ensures |r| == |q| && Known(s, r)
    decreases hole
  {
    if hole > 0 && RankedBelow(s, q[Parent(hole)], c) then SiftUp(s, q[hole := q[Parent(hole)]], Parent(hole), c)
    else q[hole := c]
  }

  /** The child to come up into the hole: the left one only if the right one ranks below it. */
  function Child<C>(s: Shift<C>, q: seq<C>, hole: nat): (k: nat)
    requires Known(s, q) && 2 * hole + 1 < |q|
    ensures hole < k < |q| && Parent(k) == hole
  {
    var left, right := 2 * hole + 1, 2 * hole + 2;
    if right == |q| || RankedBelow(s, q[right], q[left]) then left else right
  }

  /** Lets the hole sink to the bottom, one child after the other coming up. */
  function Sink<C>(s: Shift<C>, q: seq<C>, hole: nat): (r: (seq<C>, nat))
    requires Known(s, q) && hole < |q|
    ensures |r.0| == |q| && r.1 < |q| && Known(s, r.0)
    decreases |q| - hole
  {
    if 2 * hole + 1 < |q| then Sink(s, q[hole := q[Child(s, q, hole)]], Child(s, q, hole)) else (q, hole)
  }

  /** Takes the front crawler out; the last one finds its place from the hole at the bottom. */
  function Popped<C>(s: Shift<C>, q: seq<C>): (r: seq<C>)
    requires Known(s, q) && q != []
    ensures |r| == |q| - 1 && Known(s, r)
  {
    var n := |q| - 1;
    if n == 0 then [] else
      var (r, hole) := Sink(s, q[..n], 0);
      SiftUp(s, r, hole, q[n])
  }

  function Pushed<C>(s: Shift<C>, q: seq<C>, c: C): (r: seq<C>)
    requires Known(s, q) && c in s.loads
    ensures |r| == |q| + 1 && Known(s, r)
  {
    SiftUp(s, q + [c], |q|, c)
  }

  /** The front crawler is taken out and put back, which finds it a new place. */
  function Requeued<C>(s: Shift<C>, q: seq<C>): (r: seq<C>)
    requires Known(s, q) && q != []
    ensures |r| == |q| && Known(s, r)
  {
    Pushed(s, Popped(s, q), q[0])
  }

  // ----- What it keeps -----

  /** Ordered but for the hole, past which its parent is in order with its children. */
  ghost predicate OrderedBut<C>(s: Shift<C>, q: seq<C>, hole: nat)
    requires Known(s, q)
  {
    && (forall i :: 0 < i < |q| && i != hole && Parent(i) != hole ==> !RankedBelow(s, q[Parent(i)], q[i]))
    && (forall i :: 0 < hole < i < |q| && Parent(i) == hole ==> !RankedBelow(s, q[Parent(hole)], q[i]))
  }

  lemma {:induction false} SinkKeeps<C>(s: Shift<C>, q: seq<C>, hole: nat)
    requires Known(s, q) && hole < |q|
    ensures var (r, h) := Sink(s, q, hole); 2 * h + 1 >= |q| && (OrderedBut(s, q, hole) ==> OrderedBut(s, r, h))
    ensures var (r, h) := Sink(s, q, hole); multiset(r) - multiset{r[h]} == multiset(q) - multiset{q[hole]}
    decreases |q| - hole
  {
    if 2 * hole + 1 < |q| {
      var k := Child(s, q, hole);
      var u := q[hole := q[k]];
      if OrderedBut(s, q, hole) {
        SinkStep(s, q, hole);
      }
      SinkKeeps(s, u, k);
    }
  }

  lemma SinkStep<C>(s: Shift<C>, q: seq<C>, hole: nat)
    requires Known(s, q) && 2 * hole + 1 < |q| && OrderedBut(s, q, hole)
    ensures var k := Child(s, q, hole); OrderedBut(s, q[hole := q[k]], k)
  {
    var k := Child(s, q, hole);
    var u := q[hole := q[k]];
    ChildRanksFirst(s, q, hole);
    hide RankedBelow, Child;
    forall i | 0 < i < |u| && i != k && Parent(i) != k ensures !RankedBelow(s, u[Parent(i)], u[i]) {
      assert i != hole ==> u[i] == q[i];
    }
    forall i | 0 < k < i < |u| && Parent(i) == k ensures !RankedBelow(s, u[Parent(k)], u[i]) {
      assert u[i] == q[i];
    }
  }

  lemma ChildRanksFirst<C>(s: Shift<C>, q: seq<C>, hole: nat)
    requires Known(s, q) && 2 * hole + 1 < |q|
    ensures forall i :: 0 < i < |q| && Parent(i) == hole ==> !RankedBelow(s, q[Child(s, q, hole)], q[i])
  {
    forall i | 0 < i < |q| && Parent(i) == hole ensures !RankedBelow(s, q[Child(s, q, hole)], q[i]) {
      assert i == 2 * hole + 1 || i == 2 * hole + 2;
      RankIsStrictWeakOrder(s, q[i], q[Child(s, q, hole)], q[i]);
    }
  }

  lemma SiftStep<C>(s: Shift<C>, q: seq<C>, hole: nat, c: C)
    requires Known(s, q) && c in s.loads && 0 < hole < |q| && RankedBelow(s, q[Parent(hole)], c) && OrderedBut(s, q, hole)
    requires forall i :: 0 < i < |q| && Parent(i) == hole ==> !RankedBelow(s, c, q[i])
    ensures var p := Parent(hole); var u := q[hole := q[p]];
            OrderedBut(s, u, p) && forall i :: 0 < i < |u| && Parent(i) == p ==> !RankedBelow(s, c, u[i])
  {
    var p := Parent(hole);
    var u := q[hole := q[p]];
    forall i | 0 < i < |u| && Parent(i) == p ensures !RankedBelow(s, c, u[i]) {
      RankIsStrictWeakOrder(s, q[p], c, u[i]);
      RankIsStrictWeakOrder(s, c, q[p], c);
    }
    forall i | 0 < p < i < |u| && Parent(i) == p ensures !RankedBelow(s, u[Parent(p)], u[i]) {
      RankIsStrictWeakOrder(s, q[Parent(p)], q[p], q[i]);
    }
  }

  /** What comes to stand in the hole, or above it, is in order with all around it. */
  lemma {:induction false} SiftUpKeeps<C>(s: Shift<C>, q: seq<C>, hole: nat, c: C)
    requires Known(s, q) && c in s.loads && hole < |q|
    ensures multiset(SiftUp(s, q, hole, c)) == multiset(q[hole := c])
    ensures OrderedBut(s, q, hole) && (forall i :: 0 < i < |q| && Parent(i) == hole ==> !RankedBelow(s, c, q[i])) ==>
              Ordered(s, SiftUp(s, q, hole, c))
    decreases hole
  {
    if hole > 0 && RankedBelow(s, q[Parent(hole)], c) {
      var p := Parent(hole);
      var u := q[hole := q[p]];
      if OrderedBut(s, q, hole) && forall i :: 0 < i < |q| && Parent(i) == hole ==> !RankedBelow(s, c, q[i]) {
        SiftStep(s, q, hole, c);
      }
      SiftUpKeeps(s, u, p, c);
    }
  }

  /** Taking out the front of a queue that is ordered behind it leaves an ordered queue. */
  lemma PoppedKeeps<C>(s: Shift<C>, q: seq<C>)
    requires Known(s, q) && q != []
    ensures multiset(Popped(s, q)) + multiset{q[0]} == multiset(q)
    ensures OrderedFrom(s, q, 1) ==> Ordered(s, Popped(s, q))
  {
    var n := |q| - 1;
    assert q == q[..n] + [q[n]];
    if n > 0 {
      var (r, hole) := Sink(s, q[..n], 0);
      SinkKeeps(s, q[..n], 0);
      SiftUpKeeps(s, r, hole, q[n]);
    }
  }

  /** Putting a crawler into an ordered queue leaves it ordered. */
  lemma PushedKeeps<C>(s: Shift<C>, q: seq<C>, c: C)
    requires Known(s, q) && c in s.loads
    ensures multiset(Pushed(s, q, c)) == multiset(q) + multiset{c}
    ensures Ordered(s, q) ==> Ordered(s, Pushed(s, q, c))
  {
    assert (q + [c])[|q| := c] == q + [c];
    SiftUpKeeps(s, q + [c], |q|, c);
  }

  /** What may become of a queue when its front is put back: all is in order, if all behind the front was. */
  ghost predicate MayFollow<C>(s: Shift<C>, q: seq<C>, q': seq<C>)
    requires Known(s, q)
  {
    IsQueue(s, q') && (OrderedFrom(s, q, 1) ==> Ordered(s, q'))
  }

  lemma RequeuedFollows<C>(s: Shift<C>, q: seq<C>)
    requires IsQueue(s, q) && q != []
    ensures MayFollow(s, q, Requeued(s, q))
  {
    PoppedKeeps(s, q);
    PushedKeeps(s, Popped(s, q), q[0]);
    Rearranged(q, Requeued(s, q));
  }

  /** A crawler that comes to rank higher leaves the queue ordered exactly when its parent does not rank below it. */
  lemma RisingKeepsOrder<C>(s: Shift<C>, s': Shift<C>, q: seq<C>, i: nat)
    requires Known(s, q) && Known(s', q) && Distinct(q) && i < |q| && Ordered(s, q)
    requires forall x, y :: x in q && y in q && x != q[i] && y != q[i] ==> (RankedBelow(s', x, y) <==> RankedBelow(s, x, y))
    requires forall x :: x in q && RankedBelow(s', q[i], x) ==> RankedBelow(s, q[i], x)
    ensures Ordered(s', q) <==> i == 0 || !RankedBelow(s', q[Parent(i)], q[i])
    ensures OrderedFrom(s', q, 1) <==> i < 3 || !RankedBelow(s', q[Parent(i)], q[i])
  {
    hide RankedBelow;
    forall j | 0 < j < |q| && j != i ensures !RankedBelow(s', q[Parent(j)], q[j]) {
      assert !RankedBelow(s, q[Parent(j)], q[j]);
    }
  }

  /** Crawler `c` has one page less to do. */
  ghost function Lightened<C>(s: Shift<C>, c: C): Shift<C>
    requires c in s.loads && s.loads[c] > 0
  {
    s.(loads := s.loads[c := s.loads[c] - 1])
  }

  /** A page taken back leaves the queue in order exactly when the crawler's parent still does not rank below it. */
  lemma TakingBackKeepsOrder<C>(s: Shift<C>, q: seq<C>, i: nat)
    requires IsQueue(s, q) && i < |q| && Ordered(s, q) && s.loads[q[i]] > 0
    ensures var s' := Lightened(s, q[i]);
            && (Ordered(s', q) <==> i == 0 || !RankedBelow(s', q[Parent(i)], q[i]))
            && (OrderedFrom(s', q, 1) <==> i < 3 || !RankedBelow(s', q[Parent(i)], q[i]))
  {
    RisingKeepsOrder(s, Lightened(s, q[i]), q, i);
  }

  /** So does a crawler that comes online: it was offline when it was put into the queue. */
  lemma ComingOnlineKeepsOrder<C>(s: Shift<C>, q: seq<C>, i: nat)
    requires IsQueue(s, q) && i < |q| && Ordered(s, q)
    ensures var s' := s.(online := s.online + {q[i]});
            && (Ordered(s', q) <==> i == 0 || !RankedBelow(s', q[Parent(i)], q[i]))
            && (OrderedFrom(s', q, 1) <==> i < 3 || !RankedBelow(s', q[Parent(i)], q[i]))
  {
    if q[i] in s.online {
      assert s.online + {q[i]} == s.online;
    }
    RisingKeepsOrder(s, s.(online := s.online + {q[i]}), q, i);
  }
}
