/** The URL tree as a trie: what its nodes spell, and what inserting a child changes. */
module Tries {
  import opened Wrappers
  import opened Traversal

  /** The values on the way from the root to `n`. */
  ghost function Spell<N, C>(t: map<N, Cell<N, C>>, root: N, n: N): (s: seq<string>)
    requires Links(t, root) && n in t
    ensures |s| == t[n].depth
    decreases t[n].depth
  {
    if n == root then [] else
      assert t[n].parent.Some? && HasParent(t, n);
      Spell(t, root, t[n].parent.value) + [t[n].value]
  }

  /** No two children of a node have the same value. */
  ghost predicate Siblings<N, C>(t: map<N, Cell<N, C>>, root: N)
    requires Links(t, root)
  {
    forall n {:trigger t[n].children} :: n in t ==> DifferentValues(t, t[n].children)
  }

  ghost predicate DifferentValues<N, C>(t: map<N, Cell<N, C>>, cs: seq<N>) {
    forall i, j :: 0 <= i < j < |cs| ==> cs[i] in t && cs[j] in t && t[cs[i]].value != t[cs[j]].value
  }

  /** At most one node spells a given path. */
  lemma {:induction false} SpellUnique<N, C>(t: map<N, Cell<N, C>>, root: N, n: N, m: N)
    requires Links(t, root) && Siblings(t, root) && n in t && m in t
    requires Spell(t, root, n) == Spell(t, root, m)
    ensures n == m
    decreases t[n].depth
  {
    if n != root && m != root {
      assert t[n].parent.Some? && HasParent(t, n) && t[m].parent.Some? && HasParent(t, m);
      var p, q := t[n].parent.value, t[m].parent.value;
      var s, r := Spell(t, root, p), Spell(t, root, q);
      assert s == (s + [t[n].value])[..|s|] && r == (r + [t[m].value])[..|r|];
      SpellUnique(t, root, p, q);
      var i :| 0 <= i < |t[p].children| && t[p].children[i] == n;
      var j :| 0 <= j < |t[p].children| && t[p].children[j] == m;
      assert DifferentValues(t, t[p].children);
      assert (s + [t[n].value])[|s|] == (r + [t[m].value])[|r|];
    }
  }

  /** The tree after node `n` with value `v` has been appended to the children of `p`. */
  ghost function AddChild<N, C>(t: map<N, Cell<N, C>>, p: N, n: N, v: string): (u: map<N, Cell<N, C>>)
    requires p in t && n !in t
    ensures u.Keys == t.Keys + {n}
  {
    t[p := t[p].(children := t[p].children + [n])]
     [n := Cell(v, Some(p), [], t[p].depth + 1, |t[p].children|, Green, None)]
  }

  lemma AddChildLinks<N, C>(t: map<N, Cell<N, C>>, root: N, p: N, n: N, v: string)
    requires Links(t, root) && p in t && n !in t
    ensures Links(AddChild(t, p, n, v), root)
  {
    var u := AddChild(t, p, n, v);
    forall m | m in u && m != root ensures HasParent(u, m) {
      if m == n {
        assert u[p].children[|t[p].children|] == n;
      } else {
        assert t[m].parent.Some? && HasParent(t, m);
        if t[m].parent == Some(p) {
          var i :| 0 <= i < |t[p].children| && t[p].children[i] == m;
          assert u[p].children[i] == m;
        }
      }
    }
    forall m, i | m in u && 0 <= i < |u[m].children| ensures IsChild(u, m, i) {
      if m != n && !(m == p && i == |t[p].children|) {
        assert u[m].children[i] == t[m].children[i] && IsChild(t, m, i);
      }
    }
  }

  lemma AddChildSiblings<N, C>(t: map<N, Cell<N, C>>, root: N, p: N, n: N, v: string)
    requires Links(t, root) && Siblings(t, root) && p in t && n !in t
    requires forall c <- t[p].children :: c in t ==> t[c].value != v
    ensures Links(AddChild(t, p, n, v), root) && Siblings(AddChild(t, p, n, v), root)
  {
    var u := AddChild(t, p, n, v);
    AddChildLinks(t, root, p, n, v);
    forall m | m in u ensures DifferentValues(u, u[m].children) {
      if m != n {
        assert DifferentValues(t, t[m].children);
        forall i | 0 <= i < |t[m].children| ensures t[m].children[i] in t {
          assert IsChild(t, m, i);
        }
      }
    }
  }

  /** The nodes that were there spell what they did, and the new one a step more than its parent. */
  lemma {:induction false} AddChildSpell<N, C>(t: map<N, Cell<N, C>>, root: N, p: N, n: N, v: string, m: N)
    requires Links(t, root) && p in t && n !in t && m in t && Links(AddChild(t, p, n, v), root)
    ensures Spell(AddChild(t, p, n, v), root, m) == Spell(t, root, m)
    decreases t[m].depth
  {
    if m != root {
      assert t[m].parent.Some? && HasParent(t, m);
      AddChildSpell(t, root, p, n, v, t[m].parent.value);
    }
  }

  ghost predicate Spelt<N, C>(t: map<N, Cell<N, C>>, root: N, s: seq<string>)
    requires Links(t, root)
  {
    exists n :: n in t && Spell(t, root, n) == s
  }

  /** One path more is spelt, that of the new node. */
  lemma AddChildSpelt<N, C>(t: map<N, Cell<N, C>>, root: N, p: N, n: N, v: string)
    requires Links(t, root) && p in t && n !in t && Links(AddChild(t, p, n, v), root)
    ensures var u := AddChild(t, p, n, v);
            && Spell(u, root, n) == Spell(t, root, p) + [v]
            && forall s :: Spelt(u, root, s) <==> Spelt(t, root, s) || s == Spell(t, root, p) + [v]
  {
    var u := AddChild(t, p, n, v);
    forall m | m in t ensures Spell(u, root, m) == Spell(t, root, m) {
      AddChildSpell(t, root, p, n, v, m);
    }
    assert u[n].parent == Some(p) && n != root;
  }

  // ----- A path of new nodes -----

  function Tip<N>(p: N, ns: seq<N>): N {
    if ns == [] then p else ns[|ns| - 1]
  }

  ghost predicate New<N, C>(t: map<N, Cell<N, C>>, ns: seq<N>) {
    (forall n <- ns :: n !in t) && forall i, j :: 0 <= i < j < |ns| ==> ns[i] != ns[j]
  }

  /** The tree after a chain of new nodes `ns` with values `vs` has been hung below `p`. */
  ghost function AddPath<N, C>(t: map<N, Cell<N, C>>, p: N, ns: seq<N>, vs: seq<string>): (u: map<N, Cell<N, C>>)
    requires p in t && |ns| == |vs| && New(t, ns)
    ensures u.Keys == t.Keys + (set n | n in ns)
    decreases |ns|
  {
    if ns == [] then t else
      var k := |ns| - 1;
      var u := AddPath(t, p, ns[..k], vs[..k]);
      AddChild(u, Tip(p, ns[..k]), ns[k], vs[k])
  }

  lemma AddPathAppend<N, C>(t: map<N, Cell<N, C>>, p: N, ns: seq<N>, vs: seq<string>, n: N, v: string)
    requires p in t && |ns| == |vs| && New(t, ns) && n !in AddPath(t, p, ns, vs)
    ensures New(t, ns + [n])
    ensures AddPath(t, p, ns + [n], vs + [v]) == AddChild(AddPath(t, p, ns, vs), Tip(p, ns), n, v)
  {
    assert (ns + [n])[..|ns|] == ns && (vs + [v])[..|vs|] == vs;
  }

  lemma {:induction false} AddPathLinks<N, C>(t: map<N, Cell<N, C>>, root: N, p: N, ns: seq<N>, vs: seq<string>)
    requires Links(t, root) && p in t && |ns| == |vs| && New(t, ns)
    ensures Links(AddPath(t, p, ns, vs), root)
    ensures ns != [] ==> AddPath(t, p, ns, vs)[Tip(p, ns)].children == []
    decreases |ns|
  {
    hide Links;
    if ns != [] {
      var k := |ns| - 1;
      AddPathLinks(t, root, p, ns[..k], vs[..k]);
      AddChildLinks(AddPath(t, p, ns[..k], vs[..k]), root, Tip(p, ns[..k]), ns[k], vs[k]);
    }
  }

  /** A path below a node without a child named as its first step leaves siblings different. */
  lemma {:induction false} AddPathSiblings<N, C>(t: map<N, Cell<N, C>>, root: N, p: N, ns: seq<N>, vs: seq<string>)
    requires Links(t, root) && Siblings(t, root) && p in t && |ns| == |vs| && New(t, ns)
    requires vs != [] ==> forall c <- t[p].children :: c in t ==> t[c].value != vs[0]
    ensures Links(AddPath(t, p, ns, vs), root) && Siblings(AddPath(t, p, ns, vs), root)
    decreases |ns|
  {
    AddPathLinks(t, root, p, ns, vs);
    if ns != [] {
      var k := |ns| - 1;
      AddPathLinks(t, root, p, ns[..k], vs[..k]);
      AddPathSiblings(t, root, p, ns[..k], vs[..k]);
      AddChildSiblings(AddPath(t, p, ns[..k], vs[..k]), root, Tip(p, ns[..k]), ns[k], vs[k]);
    }
  }

  lemma PrefixOfLonger<T>(s: seq<T>, front: seq<T>, x: T)
    ensures s <= front + [x] <==> s <= front || s == front + [x]
  {
    if s <= front + [x] && |s| <= |front| {
      assert s == (front + [x])[..|s|] == front[..|s|];
    }
  }

  lemma TakeOneMore<T>(s: seq<T>, i: nat)
    requires i < |s|
    ensures s[..i + 1] == s[..i] + [s[i]]
  {
  }

  lemma TakeDrop<T>(s: seq<T>, i: nat)
    requires i <= |s|
    ensures s[..i] + s[i..] == s
  {
  }

  lemma AppendLast<T>(a: seq<T>, b: seq<T>)
    requires b != []
    ensures a + b == a + b[..|b| - 1] + [b[|b| - 1]]
  {
    assert b == b[..|b| - 1] + [b[|b| - 1]];
  }

  /** Just the prefixes of the path of the last node are spelt in addition. */
  lemma {:induction false} AddPathSpelt<N, C>(t: map<N, Cell<N, C>>, root: N, p: N, ns: seq<N>, vs: seq<string>)
    requires Links(t, root) && p in t && |ns| == |vs| && New(t, ns)
    requires Links(AddPath(t, p, ns, vs), root)
    ensures var u := AddPath(t, p, ns, vs); var path := Spell(t, root, p) + vs;
            && Spell(u, root, Tip(p, ns)) == path
            && forall s :: Spelt(u, root, s) <==> Spelt(t, root, s) || (|path| - |vs| < |s| && s <= path)
    decreases |ns|
  {
    var above := Spell(t, root, p);
    if ns == [] {
      assert above + vs == above;
    } else {
      var k := |ns| - 1;
      AddPathLinks(t, root, p, ns[..k], vs[..k]);
      AddPathSpelt(t, root, p, ns[..k], vs[..k]);
      AddChildSpelt(AddPath(t, p, ns[..k], vs[..k]), root, Tip(p, ns[..k]), ns[k], vs[k]);
      hide Links, Spelt, Spell, AddChild;
      AppendLast(above, vs);
      forall s
        ensures Spelt(AddPath(t, p, ns, vs), root, s) <==> Spelt(t, root, s) || (|above| < |s| && s <= above + vs)
      {
        PrefixOfLonger(s, above + vs[..k], vs[k]);
      }
    }
  }

  /** Every prefix of what a node spells is spelt, by a node it lies below. */
  lemma {:induction false} PrefixSpelt<N, C>(t: map<N, Cell<N, C>>, root: N, n: N, s: seq<string>)
    requires Links(t, root) && n in t && s <= Spell(t, root, n)
    ensures Spelt(t, root, s)
    decreases t[n].depth
  {
    if s != Spell(t, root, n) {
      assert t[n].parent.Some? && HasParent(t, n);
      PrefixSpelt(t, root, t[n].parent.value, s);
    }
  }

  /**
    `u` is `t` with the nodes missing on `path` added: they form a chain `ns` below `at`, whose
    own path is the longest prefix `t` spells.
   */
  ghost predicate Grown<N, C>(t: map<N, Cell<N, C>>, u: map<N, Cell<N, C>>, root: N, path: seq<string>, at: N, ns: seq<N>)
    requires Links(t, root)
  {
    && at in t && New(t, ns) && |path| == t[at].depth + |ns|
    && Spell(t, root, at) == path[..t[at].depth]
    && (ns != [] ==> forall c <- t[at].children :: c in t ==> t[c].value != path[t[at].depth])
    && u == AddPath(t, at, ns, path[t[at].depth..])
  }

  lemma GrownStart<N, C>(t: map<N, Cell<N, C>>, root: N)
    requires Links(t, root)
    ensures Grown(t, t, root, [], root, [])
  {
  }

  /** The next step of the path leads to a node that was there. */
  lemma GrownDown<N, C>(t: map<N, Cell<N, C>>, u: map<N, Cell<N, C>>, root: N, path: seq<string>, at: N, ns: seq<N>, c: N)
    requires Links(t, root) && Grown(t, u, root, path, at, ns)
    requires Tip(at, ns) in u && c in u[Tip(at, ns)].children && c in u
    ensures ns == [] && c in t && Grown(t, t, root, path + [u[c].value], c, []) && u == t
  {
    AddPathLinks(t, root, at, ns, path[t[at].depth..]);
    var i :| 0 <= i < |t[at].children| && t[at].children[i] == c;
    assert IsChild(t, at, i);
  }

  /** The next step is missing, and a node is added for it. */
  lemma GrownAppend<N, C>(t: map<N, Cell<N, C>>, u: map<N, Cell<N, C>>, root: N, path: seq<string>, at: N, ns: seq<N>, n: N, v: string)
    requires Links(t, root) && Grown(t, u, root, path, at, ns)
    requires n !in u && Tip(at, ns) in u && forall c <- u[Tip(at, ns)].children :: c in u ==> u[c].value != v
    ensures Grown(t, AddChild(u, Tip(at, ns), n, v), root, path + [v], at, ns + [n])
  {
    var d := t[at].depth;
    AddPathAppend(t, at, ns, path[d..], n, v);
    assert (path + [v])[d..] == path[d..] + [v] && (path + [v])[..d] == path[..d];
  }

  // ----- What insertion achieves -----

  /** The step after the node the chain hangs from was missing. */
  lemma NextStepMissing<N, C>(t: map<N, Cell<N, C>>, u: map<N, Cell<N, C>>, root: N, path: seq<string>, at: N, ns: seq<N>)
    requires Links(t, root) && Siblings(t, root) && Grown(t, u, root, path, at, ns) && ns != []
    ensures !Spelt(t, root, path[..t[at].depth + 1])
  {
    var d := t[at].depth;
    if Spelt(t, root, path[..d + 1]) {
      var m :| m in t && Spell(t, root, m) == path[..d + 1];
      assert t[m].parent.Some? && HasParent(t, m);
      var p := t[m].parent.value;
      assert Spell(t, root, p) == path[..d + 1][..d] == path[..d] && t[m].value == path[..d + 1][d] == path[d];
      SpellUnique(t, root, p, at);
    }
  }

  /** A path that `t` spells needs no new node. */
  lemma SpeltNeedsNoNode<N, C>(t: map<N, Cell<N, C>>, u: map<N, Cell<N, C>>, root: N, path: seq<string>, at: N, ns: seq<N>)
    requires Links(t, root) && Siblings(t, root) && Grown(t, u, root, path, at, ns) && Spelt(t, root, path)
    ensures ns == []
  {
    if ns != [] {
      var n :| n in t && Spell(t, root, n) == path;
      PrefixSpelt(t, root, n, path[..t[at].depth + 1]);
      NextStepMissing(t, u, root, path, at, ns);
    }
  }

  lemma ShortPrefixSpelt<N, C>(t: map<N, Cell<N, C>>, root: N, path: seq<string>, at: N, s: seq<string>)
    requires Links(t, root) && at in t && t[at].depth <= |path| && Spell(t, root, at) == path[..t[at].depth]
    requires s <= path && |s| <= t[at].depth
    ensures Spelt(t, root, s)
  {
    assert s == path[..|s|] == path[..t[at].depth][..|s|];
    PrefixSpelt(t, root, at, s);
  }

  /** After insertion the node returned spells the path. */
  lemma InsertionSpellsPath<N, C>(t: map<N, Cell<N, C>>, u: map<N, Cell<N, C>>, root: N, path: seq<string>, at: N, ns: seq<N>)
    requires Links(t, root) && Siblings(t, root) && Grown(t, u, root, path, at, ns)
    ensures Links(u, root) && Siblings(u, root) && Tip(at, ns) in u && Spell(u, root, Tip(at, ns)) == path
    ensures forall s :: Spelt(u, root, s) <==> Spelt(t, root, s) || (t[at].depth < |s| && s <= path)
  {
    var d := t[at].depth;
    AddPathSiblings(t, root, at, ns, path[d..]);
    AddPathSpelt(t, root, at, ns, path[d..]);
    TakeDrop(path, d);
  }

  /** Exactly the prefixes of the path are spelt in addition; a path already spelt adds nothing. */
  lemma InsertionAddsPrefixes<N, C>(t: map<N, Cell<N, C>>, u: map<N, Cell<N, C>>, root: N, path: seq<string>, at: N, ns: seq<N>)
    requires Links(t, root) && Siblings(t, root) && Grown(t, u, root, path, at, ns)
    ensures Links(u, root) && forall s :: Spelt(u, root, s) <==> Spelt(t, root, s) || s <= path
    ensures if Spelt(t, root, path) then ns == [] && u == t else ns != []
  {
    var d := t[at].depth;
    InsertionSpellsPath(t, u, root, path, at, ns);
    assert ns == [] ==> path[..d] == path;
    if Spelt(t, root, path) {
      SpeltNeedsNoNode(t, u, root, path, at, ns);
    }
    forall s | s <= path && |s| <= d ensures Spelt(t, root, s) {
      ShortPrefixSpelt(t, root, path, at, s);
    }
  }

  /** The prefixes of the paths in `inserted`. */
  ghost predicate InClosure(inserted: set<seq<string>>, s: seq<string>) {
    s == [] || exists w :: w in inserted && s <= w
  }

  /** The nodes spell the prefixes of the paths inserted, and nothing else. */
  ghost predicate SpellsClosure<N, C>(t: map<N, Cell<N, C>>, root: N, inserted: set<seq<string>>): (yes: bool)
    ensures yes ==> Links(t, root)
  {
    Links(t, root) && forall s :: Spelt(t, root, s) <==> InClosure(inserted, s)
  }

  lemma OneMoreInClosure(inserted: set<seq<string>>, path: seq<string>)
    ensures forall s :: InClosure(inserted + {path}, s) <==> InClosure(inserted, s) || s <= path
  {
    forall s ensures InClosure(inserted + {path}, s) <==> InClosure(inserted, s) || s <= path {
      assert path in inserted + {path} && forall w :: w in inserted ==> w in inserted + {path};
    }
  }

  /** Inserting one more path keeps it so. */
  lemma InsertionKeepsClosure<N, C>(t: map<N, Cell<N, C>>, u: map<N, Cell<N, C>>, root: N, path: seq<string>, at: N, ns: seq<N>,
                                    inserted: set<seq<string>>)
    ensures SpellsClosure(t, root, inserted) && Siblings(t, root) && Grown(t, u, root, path, at, ns) ==> SpellsClosure(u, root, inserted + {path})
  {
    hide Links, Siblings, Grown, Spelt, InClosure;
    if SpellsClosure(t, root, inserted) && Siblings(t, root) && Grown(t, u, root, path, at, ns) {
      InsertionAddsPrefixes(t, u, root, path, at, ns);
      OneMoreInClosure(inserted, path);
    }
  }

  /** The two trees differ in colours and pages only. */
  ghost predicate SameNodes<N, C>(t: map<N, Cell<N, C>>, u: map<N, Cell<N, C>>) {
    && t.Keys == u.Keys
    && forall n {:trigger u[n]} {:trigger t[n]} :: n in t ==> u[n] == t[n].(colour := u[n].colour, page := u[n].page)
  }

  lemma SameNodesLinks<N, C>(t: map<N, Cell<N, C>>, u: map<N, Cell<N, C>>, root: N)
    requires Links(t, root) && SameNodes(t, u)
    ensures Links(u, root)
  {
    forall n | n in u && n != root ensures HasParent(u, n) {
      assert t[n].parent == u[n].parent && HasParent(t, n);
    }
    forall n, i | n in u && 0 <= i < |u[n].children| ensures IsChild(u, n, i) {
      var c := t[n].children[i];
      assert IsChild(t, n, i);
    }
  }

  lemma {:induction false} SameNodesSpell<N, C>(t: map<N, Cell<N, C>>, u: map<N, Cell<N, C>>, root: N, n: N)
    requires Links(t, root) && SameNodes(t, u) && Links(u, root) && n in t
    ensures Spell(u, root, n) == Spell(t, root, n)
    decreases t[n].depth
  {
    if n != root {
      assert t[n].parent.Some? && HasParent(t, n);
      SameNodesSpell(t, u, root, t[n].parent.value);
    }
  }

  lemma SameNodesKeepClosure<N, C>(t: map<N, Cell<N, C>>, u: map<N, Cell<N, C>>, root: N, inserted: set<seq<string>>)
    ensures SpellsClosure(t, root, inserted) && SameNodes(t, u) ==> SpellsClosure(u, root, inserted)
  {
    if SpellsClosure(t, root, inserted) && SameNodes(t, u) {
      SameNodesLinks(t, u, root);
      SameNodesSpelt(t, u, root);
    }
  }

  lemma SameNodesSpelt<N, C>(t: map<N, Cell<N, C>>, u: map<N, Cell<N, C>>, root: N)
    requires Links(t, root) && SameNodes(t, u) && Links(u, root)
    ensures forall s :: Spelt(u, root, s) <==> Spelt(t, root, s)
  {
    forall n | n in t ensures Spell(u, root, n) == Spell(t, root, n) {
      SameNodesSpell(t, u, root, n);
    }
    forall s ensures Spelt(u, root, s) <==> Spelt(t, root, s) {
      if Spelt(t, root, s) {
        var n :| n in t && Spell(t, root, n) == s;
        assert n in u && Spell(u, root, n) == s;
      }
    }
  }

  /** The root alone spells nothing but the empty path. */
  lemma RootSpellsClosure<N, C>(t: map<N, Cell<N, C>>, root: N)
    requires Links(t, root) && t.Keys == {root}
    ensures SpellsClosure(t, root, {})
  {
    assert Spell(t, root, root) == [];
    assert forall n :: n in t <==> n in {root};
  }

  /** What was in the tree stays, with at most more children; what is new has no page. */
  ghost predicate Extends<N, C>(t: map<N, Cell<N, C>>, u: map<N, Cell<N, C>>) {
    && t.Keys <= u.Keys
    && (forall m {:trigger u[m]} :: m in t ==> u[m] == t[m].(children := u[m].children) && t[m].children <= u[m].children)
    && (forall m {:trigger u[m]} :: m in u && m !in t ==> u[m].page.None?)
  }

  lemma {:induction false} AddPathExtends<N, C>(t: map<N, Cell<N, C>>, p: N, ns: seq<N>, vs: seq<string>)
    requires p in t && |ns| == |vs| && New(t, ns)
    ensures Extends(t, AddPath(t, p, ns, vs))
    decreases |ns|
  {
    if ns != [] {
      AddPathExtends(t, p, ns[..|ns| - 1], vs[..|ns| - 1]);
    }
  }

  lemma GrownExtends<N, C>(t: map<N, Cell<N, C>>, u: map<N, Cell<N, C>>, root: N, path: seq<string>, at: N, ns: seq<N>)
    requires Links(t, root)
    ensures Grown(t, u, root, path, at, ns) ==> Extends(t, u) && u.Keys == t.Keys + (set n | n in ns) && forall n <- ns :: n !in t
  {
    if Grown(t, u, root, path, at, ns) {
      AddPathExtends(t, at, ns, path[t[at].depth..]);
    }
  }
}
