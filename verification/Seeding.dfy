/** What scheduling a URL that is not in the tree yet does to the colours and to the weights. */
module Seeding {
  import opened Wrappers
  import opened Traversal
  import opened Tries
  import opened Weights

  // ----- Colours -----

  /** A new child is Green, so it unsettles a Red parent and nothing else. */
  lemma AddChildSettled<N, C>(t: map<N, Cell<N, C>>, root: N, p: N, n: N, v: string)
    requires Links(t, root) && p in t && n !in t
    ensures Settled(AddChild(t, p, n, v)) <==> Settled(t) && t[p].colour != Red
  {
    var u := AddChild(t, p, n, v);
    if t[p].colour == Red {
      assert u[p].children[|t[p].children|] == n;
      assert u[p].colour == Red && !SettledAt(u, p);
    } else {
      forall m | m in t && m != p ensures SettledAt(t, m) <==> SettledAt(u, m) {
        ChildrenHaveParent(t, root, m);
      }
      assert Settled(u) ==> forall m {:trigger t[m].colour} :: m in t && t[m].colour == Red ==> u[m].colour == Red;
      assert Settled(t) ==> forall m {:trigger u[m].colour} :: m in u && u[m].colour == Red ==> t[m].colour == Red;
    }
  }

  lemma {:induction false} AddPathSettled<N, C>(t: map<N, Cell<N, C>>, root: N, p: N, ns: seq<N>, vs: seq<string>)
    requires Links(t, root) && p in t && |ns| == |vs| && New(t, ns) && ns != []
    ensures var u := AddPath(t, p, ns, vs);
            && u[Tip(p, ns)].colour == Green && u[Tip(p, ns)].page.None?
            && (Settled(u) <==> Settled(t) && t[p].colour != Red)
    decreases |ns|
  {
    hide Settled, Links;
    var k := |ns| - 1;
    AddPathLinks(t, root, p, ns[..k], vs[..k]);
    AddChildSettled(AddPath(t, p, ns[..k], vs[..k]), root, Tip(p, ns[..k]), ns[k], vs[k]);
    if k > 0 {
      AddPathSettled(t, root, p, ns[..k], vs[..k]);
    }
  }

  /** A page for a node that is not Red changes nothing. */
  ghost function GivePage<N, C>(t: map<N, Cell<N, C>>, n: N, url: nat): (u: map<N, Cell<N, C>>)
    requires n in t
    ensures u.Keys == t.Keys
  {
    t[n := t[n].(page := Some(Page(url, None)))]
  }

  lemma GivePageSettled<N, C>(t: map<N, Cell<N, C>>, n: N, url: nat)
    requires n in t && t[n].colour != Red && t[n].page.None?
    ensures Settled(GivePage(t, n, url)) <==> Settled(t)
  {
    var u := GivePage(t, n, url);
    forall m | m in t && t[m].colour == Red ensures SettledAt(t, m) <==> SettledAt(u, m) {
      assert t[m] == u[m];
    }
    if Settled(u) {
      forall m | m in t && t[m].colour == Red ensures SettledAt(t, m) {
        assert u[m].colour == Red;
      }
    }
    if Settled(t) {
      forall m | m in u && u[m].colour == Red ensures SettledAt(u, m) {
        assert t[m].colour == Red;
      }
    }
  }

  /** In a settled tree a node that is not Red, and no page, has no Red node above it. */
  lemma {:induction false} NotRedMeansOpen<N, C>(t: map<N, Cell<N, C>>, root: N, n: N)
    requires Links(t, root) && PagesOnLeaves(t, root) && Settled(t) && n in t && t[n].colour != Red && t[n].page.None?
    ensures Open(t, root, n)
    decreases t[n].depth
  {
    if n != root {
      assert t[n].parent.Some? && HasParent(t, n);
      var p := t[n].parent.value;
      assert t[p].page.None?;
      assert t[p].colour == Red ==> SettledAt(t, p);
      NotRedMeansOpen(t, root, p);
    }
  }

  /** The nodes on the way to an open node are not Red. */
  lemma {:induction false} OpenMeansPathNotRed<N, C>(t: map<N, Cell<N, C>>, root: N, n: N, m: N)
    requires Links(t, root) && Siblings(t, root) && n in t && m in t && Open(t, root, n)
    requires Spell(t, root, m) <= Spell(t, root, n)
    ensures t[m].colour != Red
    decreases t[n].depth
  {
    if Spell(t, root, m) == Spell(t, root, n) {
      SpellUnique(t, root, m, n);
    } else {
      assert n != root && t[n].parent.Some? && HasParent(t, n);
      OpenMeansPathNotRed(t, root, t[n].parent.value, m);
    }
  }

  /** No node on the way that exists already is Red. */
  ghost predicate PathNotRed<N, C>(t: map<N, Cell<N, C>>, root: N, path: seq<string>)
    requires Links(t, root)
  {
    forall m {:trigger t[m].colour} :: m in t && Spell(t, root, m) <= path ==> t[m].colour != Red
  }

  /**
    A new page keeps "Red means assigned below" exactly when no node on its path is Red: schedule
    does not clean the branch it extends.
   */
  lemma SeedingSettled<N, C>(t: map<N, Cell<N, C>>, u: map<N, Cell<N, C>>, root: N, path: seq<string>, at: N, ns: seq<N>, url: nat)
    requires Links(t, root) && Siblings(t, root) && PagesOnLeaves(t, root) && Settled(t)
    requires Grown(t, u, root, path, at, ns) && ns != [] && t[at].page.None?
    ensures Tip(at, ns) in u && (Settled(GivePage(u, Tip(at, ns), url)) <==> PathNotRed(t, root, path))
  {
    var d := t[at].depth;
    AddPathSettled(t, root, at, ns, path[d..]);
    GivePageSettled(u, Tip(at, ns), url);
    assert Spell(t, root, at) <= path;
    if t[at].colour != Red {
      NotRedMeansOpen(t, root, at);
      forall m | m in t && Spell(t, root, m) <= path ensures t[m].colour != Red {
        PrefixesAbove(t, u, root, path, at, ns, m);
        OpenMeansPathNotRed(t, root, at, m);
      }
    }
  }

  /** The node the chain hangs from spells the longest prefix there was. */
  lemma PrefixesAbove<N, C>(t: map<N, Cell<N, C>>, u: map<N, Cell<N, C>>, root: N, path: seq<string>, at: N, ns: seq<N>, m: N)
    requires Links(t, root) && Siblings(t, root) && Grown(t, u, root, path, at, ns) && ns != []
    requires m in t && Spell(t, root, m) <= path
    ensures Spell(t, root, m) <= Spell(t, root, at)
  {
    var d := t[at].depth;
    if t[m].depth > d {
      PrefixSpelt(t, root, m, path[..d + 1]);
      NextStepMissing(t, u, root, path, at, ns);
    }
  }

  // ----- Shape -----

  /** Pages sit on leaves, and every leaf but `n` has one. */
  ghost predicate ShapeBut<N, C>(t: map<N, Cell<N, C>>, root: N, n: N) {
    && PagesOnLeaves(t, root)
    && forall m {:trigger t[m].page} :: m in t && m != root && m != n && t[m].children == [] ==> t[m].page.Some?
  }

  lemma {:induction false} AddPathShape<N, C>(t: map<N, Cell<N, C>>, root: N, p: N, ns: seq<N>, vs: seq<string>)
    requires p in t && |ns| == |vs| && New(t, ns) && root in t && ShapeBut(t, root, p) && t[p].page.None?
    ensures ShapeBut(AddPath(t, p, ns, vs), root, Tip(p, ns)) && AddPath(t, p, ns, vs)[Tip(p, ns)].page.None?
    decreases |ns|
  {
    if ns != [] {
      AddPathShape(t, root, p, ns[..|ns| - 1], vs[..|ns| - 1]);
    }
  }

  /** With its page in place the tree has its shape again. */
  lemma SeedingShape<N, C>(t: map<N, Cell<N, C>>, u: map<N, Cell<N, C>>, root: N, path: seq<string>, at: N, ns: seq<N>, url: nat)
    requires Shape(t, root) && Siblings(t, root) && Grown(t, u, root, path, at, ns) && ns != [] && t[at].page.None?
    ensures Tip(at, ns) in u && u[Tip(at, ns)].page.None? && Shape(GivePage(u, Tip(at, ns), url), root)
  {
    var d, n := t[at].depth, Tip(at, ns);
    AddPathLinks(t, root, at, ns, path[d..]);
    AddPathShape(t, root, at, ns, path[d..]);
    var v := GivePage(u, n, url);
    GivePageLinks(u, root, n, url);
    assert n != root && v[n].children == [];
  }

  lemma GivePageLinks<N, C>(t: map<N, Cell<N, C>>, root: N, n: N, url: nat)
    requires Links(t, root) && n in t
    ensures Links(GivePage(t, n, url), root)
  {
    var u := GivePage(t, n, url);
    forall m | m in u && m != root ensures HasParent(u, m) {
      assert t[m].parent == u[m].parent && HasParent(t, m);
    }
    forall m, i | m in u && 0 <= i < |u[m].children| ensures IsChild(u, m, i) {
      var c := t[m].children[i];
      assert IsChild(t, m, i);
    }
  }

  // ----- Weights -----

  /** New nodes start with no weight. */
  ghost function Weightless<N>(w: map<N, real>, ns: seq<N>): map<N, real> {
    w + map n | n in ns :: 0.0
  }

  lemma AddChildBalanced<N, C>(t: map<N, Cell<N, C>>, w: map<N, real>, root: N, p: N, n: N, v: string)
    requires Links(t, root) && Balanced(t, w, root) && p in t && n !in t
    requires t[p].children == [] && p != root ==> w[p] == 0.0
    ensures Balanced(AddChild(t, p, n, v), w[n := 0.0], root)
  {
    var u, x := AddChild(t, p, n, v), w[n := 0.0];
    forall m | m in u && m != root && u[m].children != [] ensures Carries(u, x, m, 0.0) {
      ChildrenHaveParent(t, root, m);
      SumUnchanged(w, x, t[m].children);
      if t[m].children != [] {
        assert Carries(t, w, m, 0.0);
      }
      if m == p {
        assert u[p].children[..|t[p].children|] == t[p].children;
      }
    }
  }

  lemma WeightlessAppend<N>(w: map<N, real>, ns: seq<N>)
    requires ns != []
    ensures Weightless(w, ns) == Weightless(w, ns[..|ns| - 1])[ns[|ns| - 1] := 0.0]
    ensures ns[|ns| - 1] in Weightless(w, ns) && Weightless(w, ns)[ns[|ns| - 1]] == 0.0
  {
    var k := |ns| - 1;
    assert forall n :: n in ns <==> n in ns[..k] || n == ns[k];
  }

  /** A chain without weight leaves the sums as they were. */
  lemma {:induction false} AddPathBalanced<N, C>(t: map<N, Cell<N, C>>, w: map<N, real>, root: N, p: N, ns: seq<N>, vs: seq<string>)
    requires Links(t, root) && Balanced(t, w, root) && p in t && |ns| == |vs| && New(t, ns)
    requires t[p].children == [] ==> p == root
    ensures Balanced(AddPath(t, p, ns, vs), Weightless(w, ns), root)
    decreases |ns|
  {
    if ns == [] {
      assert Weightless(w, ns) == w;
    } else {
      var k := |ns| - 1;
      AddPathLinks(t, root, p, ns[..k], vs[..k]);
      AddPathBalanced(t, w, root, p, ns[..k], vs[..k]);
      AddChildBalanced(AddPath(t, p, ns[..k], vs[..k]), Weightless(w, ns[..k]), root, Tip(p, ns[..k]), ns[k], vs[k]);
      WeightlessAppend(w, ns);
    }
  }

  // ----- Scheduling a URL -----

  /** The path does not lead through a page, nor end at a node that has other nodes below it. */
  ghost predicate Fits<N, C>(t: map<N, Cell<N, C>>, root: N, path: seq<string>)
    requires Links(t, root)
  {
    && path != []
    && (forall m {:trigger t[m].page} :: m in t && t[m].page.Some? && Spell(t, root, m) <= path ==> Spell(t, root, m) == path)
    && (forall m {:trigger t[m].page} :: m in t && Spell(t, root, m) == path ==> t[m].page.Some?)
  }

  /** The tree after scheduling: as it was, or with a chain of new nodes the last of which has the page. */
  ghost predicate Scheduled<N, C>(t: map<N, Cell<N, C>>, v: map<N, Cell<N, C>>, root: N, path: seq<string>, at: N, ns: seq<N>, url: nat)
    requires Links(t, root)
  {
    && at in t && New(t, ns) && |path| == t[at].depth + |ns|
    && var u := AddPath(t, at, ns, path[t[at].depth..]);
       Grown(t, u, root, path, at, ns) && v == if ns == [] then t else GivePage(u, Tip(at, ns), url)
  }

  /** The path ends at a page that was there, or else the chain hangs from a node without one. */
  lemma FitsAt<N, C>(t: map<N, Cell<N, C>>, u: map<N, Cell<N, C>>, root: N, path: seq<string>, at: N, ns: seq<N>)
    requires Links(t, root) && Fits(t, root, path) && Grown(t, u, root, path, at, ns)
    ensures if ns == [] then t[at].page.Some? && Spell(t, root, at) == path && u == t else t[at].page.None?
  {
  }

  lemma GivePageSiblings<N, C>(t: map<N, Cell<N, C>>, root: N, n: N, url: nat)
    requires Links(t, root) && Siblings(t, root) && n in t
    ensures Links(GivePage(t, n, url), root) && Siblings(GivePage(t, n, url), root)
  {
    var u := GivePage(t, n, url);
    GivePageLinks(t, root, n, url);
    assert forall c {:trigger u[c]} :: c in u ==> u[c].value == t[c].value && u[c].children == t[c].children;
    forall m | m in u ensures DifferentValues(u, u[m].children) {
      assert DifferentValues(t, t[m].children);
    }
  }

  lemma GivePageBalanced<N, C>(t: map<N, Cell<N, C>>, w: map<N, real>, root: N, n: N, url: nat)
    requires Balanced(t, w, root) && n in t
    ensures Balanced(GivePage(t, n, url), w, root)
  {
    var u := GivePage(t, n, url);
    forall m | m in u && m != root && u[m].children != [] ensures Carries(u, w, m, 0.0) {
      assert Carries(t, w, m, 0.0);
    }
  }

  lemma {:induction false} GivePageSpell<N, C>(t: map<N, Cell<N, C>>, root: N, n: N, url: nat, m: N)
    requires Links(t, root) && n in t && Links(GivePage(t, n, url), root) && m in t
    ensures Spell(GivePage(t, n, url), root, m) == Spell(t, root, m)
    decreases t[m].depth
  {
    if m != root {
      assert t[m].parent.Some? && HasParent(t, m);
      GivePageSpell(t, root, n, url, t[m].parent.value);
    }
  }

  lemma GivePageSpelt<N, C(!new)>(t: map<N, Cell<N, C>>, root: N, n: N, url: nat)
    requires Links(t, root) && n in t
    ensures var v := GivePage(t, n, url);
            Links(v, root) && Spell(v, root, n) == Spell(t, root, n) && forall s :: Spelt(v, root, s) <==> Spelt(t, root, s)
  {
    var v := GivePage(t, n, url);
    GivePageLinks(t, root, n, url);
    forall m | m in t ensures Spell(v, root, m) == Spell(t, root, m) {
      GivePageSpell(t, root, n, url, m);
    }
    hide Links, Spell;
    forall s ensures Spelt(v, root, s) <==> Spelt(t, root, s) {
      if Spelt(t, root, s) {
        var m :| m in t && Spell(t, root, m) == s;
        assert m in v && Spell(v, root, m) == s;
      }
    }
  }

  /** The node found or made spells the path, and in addition to what was spelt just its prefixes are. */
  lemma ScheduledSpells<N, C(!new)>(t: map<N, Cell<N, C>>, v: map<N, Cell<N, C>>, root: N, path: seq<string>, at: N, ns: seq<N>, url: nat)
    requires Links(t, root) && Siblings(t, root) && Scheduled(t, v, root, path, at, ns, url)
    ensures Links(v, root) && Tip(at, ns) in v && Spell(v, root, Tip(at, ns)) == path
    ensures ns == [] <==> Spelt(t, root, path)
    ensures forall s :: Spelt(v, root, s) <==> Spelt(t, root, s) || s <= path
  {
    var u := AddPath(t, at, ns, path[t[at].depth..]);
    InsertionSpellsPath(t, u, root, path, at, ns);
    InsertionAddsPrefixes(t, u, root, path, at, ns);
    hide Links, Spell, Spelt, AddPath, Siblings;
    if ns != [] {
      GivePageSpelt(u, root, Tip(at, ns), url);
    }
  }

  /** A settled tree stays settled exactly when the path was there already, or no node on it is Red. */
  lemma ScheduledSettled<N, C>(t: map<N, Cell<N, C>>, v: map<N, Cell<N, C>>, root: N, path: seq<string>, at: N, ns: seq<N>, url: nat)
    requires Links(t, root) && Siblings(t, root) && PagesOnLeaves(t, root) && Settled(t) && Fits(t, root, path)
    requires Scheduled(t, v, root, path, at, ns, url)
    ensures Settled(v) <==> Spelt(t, root, path) || PathNotRed(t, root, path)
  {
    var u := AddPath(t, at, ns, path[t[at].depth..]);
    InsertionAddsPrefixes(t, u, root, path, at, ns);
    FitsAt(t, u, root, path, at, ns);
    if ns != [] {
      SeedingSettled(t, u, root, path, at, ns, url);
    }
  }

  /** Under a Red root every new page is hidden: the root stays Red, so that no run assigns the page. */
  lemma RedRootHidesNewPages<N, C>(t: map<N, Cell<N, C>>, v: map<N, Cell<N, C>>, root: N, path: seq<string>, at: N, ns: seq<N>, url: nat)
    requires Shape(t, root) && Siblings(t, root) && Settled(t) && t[root].colour == Red && Fits(t, root, path)
    requires Scheduled(t, v, root, path, at, ns, url) && !Spelt(t, root, path)
    ensures Shape(v, root) && Tip(at, ns) in v && v[Tip(at, ns)].page == Some(Page(url, None)) && v[root].colour == Red && !Settled(v)
  {
    var u := AddPath(t, at, ns, path[t[at].depth..]);
    InsertionAddsPrefixes(t, u, root, path, at, ns);
    FitsAt(t, u, root, path, at, ns);
    SeedingShape(t, u, root, path, at, ns, url);
    SeedingSettled(t, u, root, path, at, ns, url);
    GrownExtends(t, u, root, path, at, ns);
    assert Spell(t, root, root) == [];
  }
}
