/** What the scheduler keeps, as a property of its tree and work units as values. */
module Schedules {
  import opened Wrappers
  import opened Traversal
  import opened Tries
  import opened Weights
  import opened Seeding
  import opened Assignments
  import WorkUnits

  /** The tree is well formed, and its pages agree with the work units. */
  ghost predicate Consistent<N, C>(t: map<N, Cell<N, C>>, root: N, height: nat, units: map<C, seq<nat>>) {
    Shape(t, root) && Siblings(t, root) && NoDeeper(t, height) && Agreed(t, units)
  }

  /** The colours after the traversal has stopped at a leaf, or has exhausted the tree. */
  ghost predicate Stopped<N, C>(t: map<N, Cell<N, C>>, root: N, leaf: Option<N>) {
    && Shape(t, root)
    && match leaf
       case None => t[root].colour == Red
       case Some(n) =>
         && n in t && t[n].Free() && t[n].colour == Red && HasParent(t, n) && Open(t, root, t[n].parent.value)
  }

  lemma SiblingsIgnoreColour<N, C>(t: map<N, Cell<N, C>>, u: map<N, Cell<N, C>>, root: N)
    requires Links(t, root) && Siblings(t, root) && SameLinks(t, u) && Links(u, root)
    ensures Siblings(u, root)
  {
    forall n | n in u ensures DifferentValues(u, u[n].children) {
      assert DifferentValues(t, t[n].children);
    }
  }

  /** Repainting leaves all of it as it was. */
  lemma RepaintConsistent<N, C>(t: map<N, Cell<N, C>>, u: map<N, Cell<N, C>>, root: N, height: nat, units: map<C, seq<nat>>)
    requires Consistent(t, root, height, units) && SameButColour(t, u)
    ensures Consistent(u, root, height, units) && TakenNodes(u) == TakenNodes(t) && SameLinks(t, u)
  {
    ShapeIgnoresColour(t, u, root);
    SiblingsIgnoreColour(t, u, root);
    AgreementIsAboutPages(t, u, units);
  }

  /** The page of `n` has been handed out: the tree is settled, and the traversal may go on from the parent. */
  ghost predicate Handed<N, C>(t: map<N, Cell<N, C>>, u: map<N, Cell<N, C>>, root: N, n: N) {
    && Links(u, root) && n in u && n != root && HasParent(u, n) && Open(u, root, u[n].parent.value) && Astray(u) <= Astray(t) - {n}
    && n !in TakenNodes(t) && TakenNodes(u) == TakenNodes(t) + {n} && NonRed(u) == NonRed(t) && SameLinks(t, u)
  }

  lemma AssignHands<N, C>(t: map<N, Cell<N, C>>, root: N, n: N, c: C)
    requires Shape(t, root) && Siblings(t, root) && Stopped(t, root, Some(n))
    ensures var u := Assign(t, n, c); Shape(u, root) && Siblings(u, root) && Handed(t, u, root, n)
  {
    var u := Assign(t, n, c);
    AssignSettles(t, root, n, c);
    AssignTakesOne(t, n, c);
    hide TakenNodes, NonRed, Astray;
    SiblingsIgnoreColour(t, u, root);
    OpenAbove(t, u, root, t[n].parent.value);
  }

  /** Assigning the leaf the traversal stopped at keeps it, settles the tree, and adds one assigned page. */
  lemma AssignConsistent<N, C>(t: map<N, Cell<N, C>>, root: N, height: nat, units: map<C, seq<nat>>, n: N, c: C, unit: seq<nat>)
    requires Consistent(t, root, height, units) && Stopped(t, root, Some(n)) && c in units
    requires (forall u: nat :: u in unit <==> u == t[n].page.value.url || u in units[c]) && WorkUnits.Sorted(unit)
    ensures var u := Assign(t, n, c);
            Consistent(u, root, height, units[c := unit]) && Handed(t, u, root, n)
  {
    hide Agreed, Handed, Shape, Siblings;
    AssignHands(t, root, n, c);
    AssignAgrees(t, units, n, c, unit);
  }

  /** Since `t`, `k` pages more have been assigned, and no node more hides anything. */
  ghost predicate Claimed<N, C>(t: map<N, Cell<N, C>>, u: map<N, Cell<N, C>>, k: int) {
    TakenNodes(t) <= TakenNodes(u) && |TakenNodes(u)| == |TakenNodes(t)| + k && Astray(u) <= Astray(t) && SameLinks(t, u)
  }

  /** A traversal has found the page of `leaf`, or none: at most that one is astray. */
  ghost predicate Found<N, C>(t: map<N, Cell<N, C>>, u: map<N, Cell<N, C>>, leaf: Option<N>) {
    && TakenNodes(u) == TakenNodes(t) && NonRed(u) < NonRed(t) && SameLinks(t, u)
    && Astray(u) <= Astray(t) + (if leaf.None? then {} else {leaf.value})
  }

  lemma SameLinksThen<N, C>(t: map<N, Cell<N, C>>, u: map<N, Cell<N, C>>, v: map<N, Cell<N, C>>)
    ensures SameLinks(t, u) && SameLinks(u, v) ==> SameLinks(t, v)
  {
  }

  lemma FoundNone<N, C>(t: map<N, Cell<N, C>>, u: map<N, Cell<N, C>>)
    ensures Found(t, u, None) ==> Claimed(t, u, 0) && NonRed(u) < NonRed(t)
  {
  }

  lemma FoundAndHanded<N, C>(t: map<N, Cell<N, C>>, u: map<N, Cell<N, C>>, v: map<N, Cell<N, C>>, root: N, n: N)
    ensures Found(t, u, Some(n)) && Handed(u, v, root, n) ==> Claimed(t, v, 1) && NonRed(v) < NonRed(t)
  {
    hide SameLinks, TakenNodes, Astray, NonRed, Open;
    SameLinksThen(t, u, v);
  }

  lemma ClaimedThen<N, C>(t: map<N, Cell<N, C>>, u: map<N, Cell<N, C>>, v: map<N, Cell<N, C>>, k: int, l: int, m: int)
    ensures Claimed(t, u, k) && Claimed(u, v, l) && m == k + l ==> Claimed(t, v, m)
  {
    hide SameLinks, TakenNodes, Astray;
    SameLinksThen(t, u, v);
  }

  lemma ClaimedNothing<N, C>(t: map<N, Cell<N, C>>)
    ensures Claimed(t, t, 0)
  {
  }

  /** With the root alone there is no page to claim. */
  lemma NoPageToClaim<N, C>(t: map<N, Cell<N, C>>, u: map<N, Cell<N, C>>, root: N, k: int)
    requires Shape(t, root) && t.Keys == {root} && Claimed(t, u, k)
    ensures k == 0
  {
    assert t[root].page.None?;
    assert TakenNodes(u) == {} && TakenNodes(t) == {};
  }

  /** Where no page was claimed, free pages stay free. */
  lemma FreeUnlessClaimed<N, C>(t: map<N, Cell<N, C>>, u: map<N, Cell<N, C>>, n: N)
    requires n in t && n in u
    ensures t[n].Free() && Claimed(t, u, 0) ==> u[n].Free()
  {
    if Claimed(t, u, 0) {
      assert TakenNodes(u) == TakenNodes(t) + (TakenNodes(u) - TakenNodes(t));
      assert n in TakenNodes(u) <==> n in TakenNodes(t);
    }
  }

  // ----- A page has been crawled -----

  /** The page of `n` is taken back from crawler `c`. */
  lemma UnassignConsistent<N, C>(t: map<N, Cell<N, C>>, root: N, height: nat, units: map<C, seq<nat>>, n: N, c: C, unit: seq<nat>)
    requires n in t && t[n].page.Some?
    ensures && Consistent(t, root, height, units) && t[n].page.value.crawler == Some(c)
            && WorkUnits.Sorted(unit) && (forall u: nat :: u in unit <==> u != t[n].page.value.url && c in units && u in units[c])
            ==> Consistent(Unassign(t, n), root, height, units[c := unit])
  {
    hide Agreed;
    if && Consistent(t, root, height, units) && t[n].page.value.crawler == Some(c)
       && WorkUnits.Sorted(unit) && (forall u: nat :: u in unit <==> u != t[n].page.value.url && c in units && u in units[c]) {
      UnassignAgrees(t, units, n, c, unit);
      UnassignUnsettlesBranch(t, root, n);
      SiblingsIgnoreColour(t, Unassign(t, n), root);
    }
  }

  lemma UnassignSameLinks<N, C>(t: map<N, Cell<N, C>>, n: N)
    requires n in t && t[n].page.Some?
    ensures SameLinks(t, Unassign(t, n))
  {
  }

  lemma CleanedConsistent<N, C>(t: map<N, Cell<N, C>>, u: map<N, Cell<N, C>>, root: N, height: nat, units: map<C, seq<nat>>, n: N)
    requires Shape(t, root) && n in t
    ensures Cleaned(t, u, root, n) && Consistent(t, root, height, units) ==> Consistent(u, root, height, units)
    ensures Cleaned(t, u, root, n) ==> SameLinks(t, u)
  {
    if Cleaned(t, u, root, n) && Consistent(t, root, height, units) {
      RepaintConsistent(t, u, root, height, units);
    }
  }

  /** The page of `n` waits for a crawler again, within reach of a traversal; the others stay as they were. */
  ghost predicate Returned<N, C>(t: map<N, Cell<N, C>>, v: map<N, Cell<N, C>>, root: N, n: N) {
    && SameLinks(t, v) && Links(v, root) && n in v && v[n].Free() && Open(v, root, n)
    && TakenNodes(v) == TakenNodes(t) - {n} && Astray(v) <= Astray(t)
  }

  /** Once its branch is cleaned the page may be found again, and no node more hides anything. */
  lemma FreedAndCleaned<N, C>(t: map<N, Cell<N, C>>, v: map<N, Cell<N, C>>, root: N, n: N)
    requires n in t && t[n].page.Some? && Shape(Unassign(t, n), root)
    ensures Shape(t, root) && Cleaned(Unassign(t, n), v, root, n) ==> Returned(t, v, root, n) && Shape(v, root)
  {
    var u := Unassign(t, n);
    if Shape(t, root) && Cleaned(u, v, root, n) {
      UnassignUnsettlesBranch(t, root, n);
      CleaningSettles(u, v, root, n);
      OnePageLess(t, v, n);
      hide Astray, TakenNodes, Shape, Open, Cleaned;
    }
  }

  lemma OnePageLess<N, C>(t: map<N, Cell<N, C>>, v: map<N, Cell<N, C>>, n: N)
    requires n in t && t[n].page.Some? && SameButColour(Unassign(t, n), v)
    ensures SameLinks(t, v) && TakenNodes(v) == TakenNodes(t) - {n} && v[n].Free()
  {
    var u := Unassign(t, n);
    forall m | m in t ensures v[m].Taken() <==> t[m].Taken() && m != n {
      assert v[m].page == u[m].page;
    }
  }

  // ----- A URL is scheduled -----

  /** The address of the new page's URL is that of no other URL. */
  ghost predicate NewUrl<N, C>(t: map<N, Cell<N, C>>, units: map<C, seq<nat>>, url: nat) {
    && (forall m {:trigger t[m].page} :: m in t && t[m].page.Some? ==> t[m].page.value.url != url)
    && (forall c {:trigger units[c]} :: c in units ==> url !in units[c])
  }

  /** A new page at the end of the new chain: the tree is well formed, and agrees with the work units. */
  lemma SeedConsistent<N, C>(t: map<N, Cell<N, C>>, u: map<N, Cell<N, C>>, root: N, height: nat, height': nat, units: map<C, seq<nat>>,
                             path: seq<string>, at: N, ns: seq<N>, url: nat)
    requires Consistent(t, root, height, units) && Fits(t, root, path) && Grown(t, u, root, path, at, ns) && ns != []
    requires Links(u, root) && Siblings(u, root) && NoDeeper(u, height') && NewUrl(t, units, url)
    ensures Tip(at, ns) in u && Consistent(GivePage(u, Tip(at, ns), url), root, height', units)
  {
    FitsAt(t, u, root, path, at, ns);
    SeedingShape(t, u, root, path, at, ns, url);
    GivePageSiblings(u, root, Tip(at, ns), url);
    SeedAgrees(t, u, root, units, path, at, ns, url);
  }

  lemma SeedAgrees<N, C>(t: map<N, Cell<N, C>>, u: map<N, Cell<N, C>>, root: N, units: map<C, seq<nat>>,
                         path: seq<string>, at: N, ns: seq<N>, url: nat)
    requires Links(t, root) && Agreed(t, units) && Grown(t, u, root, path, at, ns) && NewUrl(t, units, url)
    requires Tip(at, ns) in u && u[Tip(at, ns)].page.None?
    ensures Agreed(GivePage(u, Tip(at, ns), url), units)
  {
    GrownExtends(t, u, root, path, at, ns);
    AgreementIsAboutPages(t, u, units);
    GivePageAgrees(u, units, Tip(at, ns), url);
  }

  lemma SeedBalanced<N, C>(t: map<N, Cell<N, C>>, u: map<N, Cell<N, C>>, w: map<N, real>, root: N,
                           path: seq<string>, at: N, ns: seq<N>, url: nat)
    requires Shape(t, root) && Balanced(t, w, root) && Fits(t, root, path) && Grown(t, u, root, path, at, ns) && ns != []
    ensures Tip(at, ns) in u && Balanced(GivePage(u, Tip(at, ns), url), Weightless(w, ns), root)
  {
    FitsAt(t, u, root, path, at, ns);
    AddPathBalanced(t, w, root, at, ns, path[t[at].depth..]);
    GivePageBalanced(u, Weightless(w, ns), root, Tip(at, ns), url);
  }

  /** What is known of the tree `u` that a path has been inserted into, before any page is given. */
  ghost predicate Growing<N, C>(t: map<N, Cell<N, C>>, u: map<N, Cell<N, C>>, w: map<N, real>, root: N, height: nat, height': nat,
                                units: map<C, seq<nat>>, path: seq<string>, at: N, ns: seq<N>, url: nat) {
    && Consistent(t, root, height, units) && Balanced(t, w, root) && Fits(t, root, path) && NewUrl(t, units, url)
    && Grown(t, u, root, path, at, ns) && Links(u, root) && Siblings(u, root) && NoDeeper(u, height')
  }

  lemma NewPageSeeded<N, C>(t: map<N, Cell<N, C>>, u: map<N, Cell<N, C>>, w: map<N, real>, root: N, height: nat, height': nat,
                            units: map<C, seq<nat>>, path: seq<string>, at: N, ns: seq<N>, url: nat)
    requires Tip(at, ns) in u && ns != []
    ensures Growing(t, u, w, root, height, height', units, path, at, ns, url) ==>
              var v := GivePage(u, Tip(at, ns), url);
              && Consistent(v, root, height', units) && Balanced(v, Weightless(w, ns), root)
              && Links(t, root) && Scheduled(t, v, root, path, at, ns, url)
  {
    if Growing(t, u, w, root, height, height', units, path, at, ns, url) {
      SeedConsistent(t, u, root, height, height', units, path, at, ns, url);
      SeedBalanced(t, u, w, root, path, at, ns, url);
    }
  }

  lemma OldPageFound<N, C>(t: map<N, Cell<N, C>>, u: map<N, Cell<N, C>>, w: map<N, real>, root: N, height: nat, height': nat,
                           units: map<C, seq<nat>>, path: seq<string>, at: N, url: nat)
    ensures Growing(t, u, w, root, height, height', units, path, at, [], url) ==>
              && u == t && at in t && t[at].page.Some? && Weightless(w, []) == w
              && Consistent(u, root, height', units) && Balanced(u, w, root) && Scheduled(t, u, root, path, at, [], url)
  {
    if Growing(t, u, w, root, height, height', units, path, at, [], url) {
      FitsAt(t, u, root, path, at, []);
      assert Weightless(w, []) == w;
    }
  }

  lemma JoiningConsistent<N, C>(t: map<N, Cell<N, C>>, root: N, height: nat, units: map<C, seq<nat>>, c: C)
    ensures Consistent(t, root, height, units) && c !in units ==> Consistent(t, root, height, units[c := []])
  {
    JoiningAgrees(t, units, c);
  }

  /** The tree to begin with: the root alone. */
  lemma RootAlone<N, C>(root: N, cell: Cell<N, C>, w: real)
    requires cell.parent == None && cell.children == [] && cell.depth == 0 && cell.page == None && cell.colour == Green
    ensures var t := map[root := cell];
            Consistent(t, root, 0, map[]) && Settled(t) && Balanced(t, map[root := w], root)
  {
  }
}
