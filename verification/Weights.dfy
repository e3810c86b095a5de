/**
  Incremental weights (sched/Node.cpp): one change is passed up its branch as a difference, and
  every inner node keeps the sum over its children. Weights are taken over the reals.
 */
module Weights {
  import opened Wrappers
  import opened Traversal

  ghost function Sum<N>(w: map<N, real>, cs: seq<N>): real
    requires forall c <- cs :: c in w
  {
    if cs == [] then 0.0 else Sum(w, cs[..|cs| - 1]) + w[cs[|cs| - 1]]
  }

  /** Node `n` carries the sum over its children less `off`. */
  ghost predicate Carries<N, C>(t: map<N, Cell<N, C>>, w: map<N, real>, n: N, off: real)
    requires n in t && n in w
  {
    (forall c <- t[n].children :: c in w) && w[n] + off == Sum(w, t[n].children)
  }

  /** Every inner node below the root carries the sum over its children, but `except`, which lacks `off`. */
  ghost predicate BalancedBut<N, C>(t: map<N, Cell<N, C>>, w: map<N, real>, root: N, except: N, off: real) {
    && t.Keys == w.Keys
    && forall n {:trigger t[n].children} :: n in t && n != root && t[n].children != [] ==>
         Carries(t, w, n, if n == except then off else 0.0)
  }

  ghost predicate Balanced<N, C>(t: map<N, Cell<N, C>>, w: map<N, real>, root: N) {
    BalancedBut(t, w, root, root, 0.0)
  }

  ghost predicate NonNegative<N>(w: map<N, real>) {
    forall n {:trigger w[n]} :: n in w ==> w[n] >= 0.0
  }

  // ----- The simple form: the sum over all leaves below a node -----

  ghost function LeafSum<N, C>(t: map<N, Cell<N, C>>, w: map<N, real>, root: N, height: nat, n: N): real
    requires Links(t, root) && NoDeeper(t, height) && t.Keys == w.Keys && n in t
    decreases height - t[n].depth, 0
  {
    if t[n].children == [] then w[n] else
      ChildrenHaveParent(t, root, n);
      LeafSums(t, w, root, height, t[n].children, t[n].depth + 1)
  }

  ghost function LeafSums<N, C>(t: map<N, Cell<N, C>>, w: map<N, real>, root: N, height: nat, cs: seq<N>, depth: int): real
    requires Links(t, root) && NoDeeper(t, height) && t.Keys == w.Keys
    requires forall c <- cs :: c in t && t[c].depth == depth
    decreases height - depth, |cs|
  {
    if cs == [] then 0.0 else
      var k := |cs| - 1;
      LeafSums(t, w, root, height, cs[..k], depth) + LeafSum(t, w, root, height, cs[k])
  }

  /** The fast form agrees with the simple one, on every node below the root. */
  lemma {:induction false} BalancedMeansLeafSums<N, C>(t: map<N, Cell<N, C>>, w: map<N, real>, root: N, height: nat, n: N)
    requires Links(t, root) && NoDeeper(t, height) && Balanced(t, w, root) && n in t && n != root
    ensures w[n] == LeafSum(t, w, root, height, n)
    decreases height - t[n].depth, 0
  {
    if t[n].children != [] {
      ChildrenHaveParent(t, root, n);
      assert Carries(t, w, n, 0.0);
      ChildrenLeafSums(t, w, root, height, t[n].children, t[n].depth + 1);
    }
  }

  lemma {:induction false} ChildrenLeafSums<N, C>(t: map<N, Cell<N, C>>, w: map<N, real>, root: N, height: nat, cs: seq<N>, depth: int)
    requires Links(t, root) && NoDeeper(t, height) && Balanced(t, w, root)
    requires forall c <- cs :: c in t && c != root && t[c].depth == depth
    ensures Sum(w, cs) == LeafSums(t, w, root, height, cs, depth)
    decreases height - depth, |cs|
  {
    if cs != [] {
      var k := |cs| - 1;
      ChildrenLeafSums(t, w, root, height, cs[..k], depth);
      BalancedMeansLeafSums(t, w, root, height, cs[k]);
    }
  }

  /** Only the weights of the leaves count. */
  lemma {:induction false} LeavesDecide<N, C>(t: map<N, Cell<N, C>>, w: map<N, real>, v: map<N, real>, root: N, height: nat, n: N)
    requires Links(t, root) && NoDeeper(t, height) && t.Keys == w.Keys == v.Keys && n in t && n != root
    requires forall m {:trigger t[m].children} :: m in t && m != root && t[m].children == [] ==> w[m] == v[m]
    ensures LeafSum(t, w, root, height, n) == LeafSum(t, v, root, height, n)
    decreases height - t[n].depth, 0
  {
    if t[n].children != [] {
      ChildrenHaveParent(t, root, n);
      LeavesDecideAll(t, w, v, root, height, t[n].children, t[n].depth + 1);
    }
  }

  lemma {:induction false} LeavesDecideAll<N, C>(t: map<N, Cell<N, C>>, w: map<N, real>, v: map<N, real>, root: N, height: nat, cs: seq<N>, depth: int)
    requires Links(t, root) && NoDeeper(t, height) && t.Keys == w.Keys == v.Keys
    requires forall c <- cs :: c in t && c != root && t[c].depth == depth
    requires forall m {:trigger t[m].children} :: m in t && m != root && t[m].children == [] ==> w[m] == v[m]
    ensures LeafSums(t, w, root, height, cs, depth) == LeafSums(t, v, root, height, cs, depth)
    decreases height - depth, |cs|
  {
    if cs != [] {
      var k := |cs| - 1;
      LeavesDecideAll(t, w, v, root, height, cs[..k], depth);
      LeavesDecide(t, w, v, root, height, cs[k]);
    }
  }

  // ----- One step up the branch -----

  lemma {:induction false} SumUnchanged<N>(w: map<N, real>, v: map<N, real>, cs: seq<N>)
    requires forall c <- cs :: c in w && c in v && w[c] == v[c]
    ensures Sum(w, cs) == Sum(v, cs)
  {
    if cs != [] {
      SumUnchanged(w, v, cs[..|cs| - 1]);
    }
  }

  /** Changing one of the summands changes the sum by as much. */
  lemma {:induction false} SumOneChanged<N>(w: map<N, real>, cs: seq<N>, i: nat, x: real)
    requires i < |cs| && forall c <- cs :: c in w
    requires forall j :: 0 <= j < |cs| && j != i ==> cs[j] != cs[i]
    ensures Sum(w[cs[i] := x], cs) == Sum(w, cs) - w[cs[i]] + x
  {
    var k := |cs| - 1;
    var v := w[cs[i] := x];
    if i == k {
      SumUnchanged(w, v, cs[..k]);
    } else {
      SumOneChanged(w, cs[..k], i, x);
    }
  }

  /** Changing the weight of `n` puts only its parent out of balance, and by the difference. */
  lemma ChangePutsParentOff<N, C>(t: map<N, Cell<N, C>>, w: map<N, real>, root: N, n: N, x: real)
    requires Links(t, root) && n in t && n != root && HasParent(t, n) && t.Keys == w.Keys
    requires t[n].children != [] ==> BalancedBut(t, w, root, n, x - w[n])
    requires t[n].children == [] ==> Balanced(t, w, root)
    ensures BalancedBut(t, w[n := x], root, t[n].parent.value, x - w[n])
  {
    var v, p := w[n := x], t[n].parent.value;
    forall m | m in t && m != root && t[m].children != []
      ensures Carries(t, v, m, if m == p then x - w[n] else 0.0)
    {
      assert Carries(t, w, m, if m == n then x - w[n] else 0.0);
      if m == p {
        var i :| 0 <= i < |t[p].children| && t[p].children[i] == n;
        SiblingsApart(t, root, p);
        SumOneChanged(w, t[p].children, i, x);
      } else {
        ChildrenHaveParent(t, root, m);
        SumUnchanged(w, v, t[m].children);
      }
    }
  }

  /** The weight of a page changes: its parent is off by the difference. */
  lemma LeafChange<N, C>(t: map<N, Cell<N, C>>, w: map<N, real>, root: N, n: N, x: real)
    requires n in t && n in w
    ensures Shape(t, root) && Balanced(t, w, root) && t[n].page.Some? ==>
              t[n].parent.Some? && BalancedBut(t, w[n := x], root, t[n].parent.value, x - w[n])
  {
    if Shape(t, root) && Balanced(t, w, root) && t[n].page.Some? {
      assert n != root && t[n].parent.Some? && HasParent(t, n);
      ChangePutsParentOff(t, w, root, n, x);
    }
  }

  /** A node that lacks `off` takes it in: now its parent is off by as much. */
  lemma InnerChange<N, C>(t: map<N, Cell<N, C>>, w: map<N, real>, root: N, p: N, off: real)
    requires p in t && p in w
    ensures Shape(t, root) && BalancedBut(t, w, root, p, off) && t[p].children != [] && p != root ==>
              t[p].parent.Some? && BalancedBut(t, w[p := w[p] + off], root, t[p].parent.value, off)
  {
    if Shape(t, root) && BalancedBut(t, w, root, p, off) && t[p].children != [] && p != root {
      assert t[p].parent.Some? && HasParent(t, p);
      ChangePutsParentOff(t, w, root, p, w[p] + off);
    }
  }

  /** What carries the sum over its children, less `off`, is not negative once it has taken `off` in. */
  lemma {:induction false} SumNotNegative<N>(w: map<N, real>, cs: seq<N>)
    requires forall c <- cs :: c in w && w[c] >= 0.0
    ensures Sum(w, cs) >= 0.0
  {
    if cs != [] {
      SumNotNegative(w, cs[..|cs| - 1]);
    }
  }

  lemma InnerNotNegative<N, C>(t: map<N, Cell<N, C>>, w: map<N, real>, root: N, p: N, off: real)
    requires p in t && p in w
    ensures BalancedBut(t, w, root, p, off) && t[p].children != [] && p != root && NonNegative(w) ==> w[p] + off >= 0.0
  {
    if BalancedBut(t, w, root, p, off) && t[p].children != [] && p != root && NonNegative(w) {
      assert Carries(t, w, p, off);
      SumNotNegative(w, t[p].children);
    }
  }

  lemma SiblingsApart<N, C>(t: map<N, Cell<N, C>>, root: N, p: N)
    requires Links(t, root) && p in t
    ensures forall i, j :: 0 <= i < j < |t[p].children| ==> t[p].children[i] != t[p].children[j]
    ensures p !in t[p].children
  {
    ChildrenHaveParent(t, root, p);
    forall i, j | 0 <= i < j < |t[p].children| ensures t[p].children[i] != t[p].children[j] {
      assert IsChild(t, p, i) && IsChild(t, p, j);
    }
  }

  /** When the parent is not out of balance, or is the root, the tree is balanced. */
  lemma OffByNothing<N, C>(t: map<N, Cell<N, C>>, w: map<N, real>, root: N, p: N, off: real)
    requires BalancedBut(t, w, root, p, off) && (p == root || off == 0.0)
    ensures Balanced(t, w, root)
  {
    forall n | n in t && n != root && t[n].children != [] ensures Carries(t, w, n, 0.0) {
      assert Carries(t, w, n, if n == p then off else 0.0);
    }
  }

  /** The balance is not about colours and pages. */
  lemma BalanceIgnoresPages<N, C>(t: map<N, Cell<N, C>>, u: map<N, Cell<N, C>>, w: map<N, real>, root: N)
    ensures SameLinks(t, u) && Balanced(t, w, root) ==> Balanced(u, w, root)
  {
    if SameLinks(t, u) && Balanced(t, w, root) {
      forall n | n in u && n != root && u[n].children != [] ensures Carries(u, w, n, 0.0) {
        assert Carries(t, w, n, 0.0);
      }
    }
  }
}
