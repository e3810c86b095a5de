/**
  Which pages the traversal finds (traverse_branch and fill_crawler of sched/Scheduler.cpp), and which
  crawlers get them.
 */
module Searches {
  import opened Wrappers
  import opened Traversal
  import opened Schedules
  import opened Ranking
  import opened Queues

  // ----- One search -----

  /** No candidate beside `m` is heavier, and none behind it is as heavy. */
  ghost predicate Preferred<N, C>(u: map<N, Cell<N, C>>, ws: map<N, real>, m: N)
    requires m in u
  {
    forall c {:trigger u[c].parent} :: c in u && c != m && u[c].parent == u[m].parent && Candidate(u, c) ==>
      c in ws && m in ws && ws[c] <= ws[m] && (u[c].index > u[m].index ==> ws[c] < ws[m])
  }

  /** From the cursor `n` the best way was taken down to `leaf`, wherever it leaves the branch of `n`. */
  ghost predicate BestFrom<N, C>(u: map<N, Cell<N, C>>, ws: map<N, real>, root: N, n: N, leaf: N)
    requires Links(u, root) && n in u && leaf in u
  {
    forall m {:trigger Below(u, root, m, leaf)} :: m in u && Below(u, root, m, leaf) && !Below(u, root, m, n) ==> Preferred(u, ws, m)
  }

  /** The leaf is that of the cursor, or the search of the parent has found it. */
  lemma BestFromParent<N, C>(u: map<N, Cell<N, C>>, ws: map<N, real>, root: N, n: N, leaf: N)
    requires Links(u, root) && n in u && leaf in u
    ensures leaf == n ==> BestFrom(u, ws, root, n, leaf)
    ensures n != root ==> HasParent(u, n) && (BestFrom(u, ws, root, u[n].parent.value, leaf) ==> BestFrom(u, ws, root, n, leaf))
  {
    assert n != root ==> u[n].parent.Some?;
  }

  /** The search has gone on from the heaviest candidate `best` among the children, as they were in `t`. */
  lemma BestFromChild<N, C>(t: map<N, Cell<N, C>>, u: map<N, Cell<N, C>>, ws: map<N, real>, root: N, n: N, best: N, leaf: N)
    requires Links(t, root) && Links(u, root) && SameButColour(t, u) && NonRed(u) <= NonRed(t)
    requires n in t && leaf in t && Heaviest(t, ws, t[n].children, best) && best in t
    ensures BestFrom(u, ws, root, best, leaf) ==> BestFrom(u, ws, root, n, leaf)
  {
    ChildrenHaveParent(u, root, n);
    assert u[best].parent == Some(n) && best != root;
    if BestFrom(u, ws, root, best, leaf) {
      forall m | m in u && Below(u, root, m, leaf) && !Below(u, root, m, n) ensures Preferred(u, ws, m) {
        if Below(u, root, m, best) {
          HeaviestPreferred(t, u, ws, root, n, best);
        }
      }
    }
  }

  lemma HeaviestPreferred<N, C>(t: map<N, Cell<N, C>>, u: map<N, Cell<N, C>>, ws: map<N, real>, root: N, n: N, best: N)
    requires Links(t, root) && Links(u, root) && SameButColour(t, u) && NonRed(u) <= NonRed(t)
    requires n in t && Heaviest(t, ws, t[n].children, best) && best in t && u[best].parent == Some(n)
    ensures Preferred(u, ws, best)
  {
    var cs := t[n].children;
    var b :| 0 <= b < |cs| && cs[b] == best && Wins(t, ws, cs, b);
    assert IsChild(t, n, b);
    forall c | c in u && c != best && u[c].parent == Some(n) && Candidate(u, c)
      ensures c in ws && best in ws && ws[c] <= ws[best] && (u[c].index > u[best].index ==> ws[c] < ws[best])
    {
      assert c in NonRed(u) && t[c].parent == Some(n) && HasParent(t, c);
      var j :| 0 <= j < |cs| && cs[j] == c;
      assert IsChild(t, n, j) && Candidate(t, cs[j]);
    }
  }

  /**
    A search from `n` has ended: with the best page from there, or with the root Red. Colours have changed, fewer
    nodes are not Red, and at most the page found is astray that was not before.
   */
  ghost predicate Traversed<N, C>(t: map<N, Cell<N, C>>, u: map<N, Cell<N, C>>, ws: map<N, real>, root: N, n: N, leaf: Option<N>) {
    && SameButColour(t, u) && NonRed(u) < NonRed(t) && Stopped(u, root, leaf)
    && Astray(u) <= Astray(t) + (if leaf.None? then {} else {leaf.value})
    && (leaf.Some? ==> n in u && BestFrom(u, ws, root, n, leaf.value))
  }

  /** The search goes on from `p`: the heaviest candidate among the children of `n`, or its parent. */
  ghost predicate Moved<N, C>(t: map<N, Cell<N, C>>, u: map<N, Cell<N, C>>, ws: map<N, real>, root: N, n: N, p: N) {
    && Shape(t, root) && Shape(u, root) && SameButColour(t, u) && NonRed(u) <= NonRed(t) && Astray(u) <= Astray(t)
    && n in t && p in t && (Heaviest(t, ws, t[n].children, p) || t[n].parent == Some(p))
  }

  lemma MovedThenTraversed<N, C>(t: map<N, Cell<N, C>>, u: map<N, Cell<N, C>>, v: map<N, Cell<N, C>>, ws: map<N, real>, root: N, n: N, p: N,
                                 leaf: Option<N>)
    ensures Moved(t, u, ws, root, n, p) && Traversed(u, v, ws, root, p, leaf) ==> Traversed(t, v, ws, root, n, leaf)
  {
    hide Astray, NonRed, Heaviest, BestFrom, Shape;
    if Moved(t, u, ws, root, n, p) && Traversed(u, v, ws, root, p, leaf) {
      SameColourThen(t, u, v);
      ShapeIsLinks(t, root);
      ShapeIsLinks(v, root);
      if leaf.Some? {
        StillBest(t, v, ws, root, n, p, leaf.value);
      }
    }
  }

  lemma SameColourThen<N, C>(t: map<N, Cell<N, C>>, u: map<N, Cell<N, C>>, v: map<N, Cell<N, C>>)
    ensures SameButColour(t, u) && SameButColour(u, v) ==> SameButColour(t, v)
  {
  }

  lemma ShapeIsLinks<N, C>(t: map<N, Cell<N, C>>, root: N)
    ensures Shape(t, root) ==> Links(t, root)
  {
  }

  /** What was best from where the search went on is best from `n`. */
  lemma StillBest<N, C>(t: map<N, Cell<N, C>>, v: map<N, Cell<N, C>>, ws: map<N, real>, root: N, n: N, p: N, leaf: N)
    requires Links(t, root) && Links(v, root) && SameButColour(t, v) && NonRed(v) <= NonRed(t) && n in t && p in t && leaf in t
    requires Heaviest(t, ws, t[n].children, p) || t[n].parent == Some(p)
    ensures BestFrom(v, ws, root, p, leaf) ==> BestFrom(v, ws, root, n, leaf)
  {
    if Heaviest(t, ws, t[n].children, p) {
      BestFromChild(t, v, ws, root, n, p, leaf);
    } else {
      BestFromParent(v, ws, root, n, leaf);
    }
  }

  /** A search leaves all but colours as it was. */
  lemma TraversedConsistent<N, C>(t: map<N, Cell<N, C>>, u: map<N, Cell<N, C>>, ws: map<N, real>, root: N, height: nat, units: map<C, seq<nat>>,
                                  n: N, leaf: Option<N>)
    ensures Consistent(t, root, height, units) && Traversed(t, u, ws, root, n, leaf) ==>
              Consistent(u, root, height, units) && Stopped(u, root, leaf) && Found(t, u, leaf)
  {
    hide NonRed, Stopped, Consistent, TakenNodes, SameButColour, Astray, BestFrom;
    if Consistent(t, root, height, units) && Traversed(t, u, ws, root, n, leaf) {
      RepaintConsistent(t, u, root, height, units);
    }
  }

  /** The search may go on from `n`. */
  ghost predicate Searchable<N, C>(t: map<N, Cell<N, C>>, root: N, height: nat, n: N) {
    Shape(t, root) && NoDeeper(t, height) && n in t && Open(t, root, n)
  }

  /** A candidate was found: the search goes down. */
  lemma GoesDown<N, C>(t: map<N, Cell<N, C>>, ws: map<N, real>, root: N, height: nat, n: N, best: N)
    requires Searchable(t, root, height, n) && Heaviest(t, ws, t[n].children, best)
    ensures var u := Looked(t, t[n].children);
            && Searchable(u, root, height, best) && Moved(t, u, ws, root, n, best)
            && NonRed(u) == NonRed(t) && u[best].depth > t[n].depth
  {
    hide NonRed, Astray;
    StepDown(t, root, n, best);
  }

  /** No candidate was found: the search ends at `n` if that is a page that waits, or at the root, and goes up otherwise. */
  lemma GoesUp<N, C>(t: map<N, Cell<N, C>>, ws: map<N, real>, root: N, height: nat, n: N)
    requires Searchable(t, root, height, n) && forall c <- t[n].children :: !Candidate(t, c)
    ensures var u := Paint(Looked(t, t[n].children), n, Red);
            if t[n].Free() then Traversed(t, u, ws, root, n, Some(n))
            else if t[n].parent.None? then Traversed(t, u, ws, root, n, None)
            else var p := t[n].parent.value; Searchable(u, root, height, p) && Moved(t, u, ws, root, n, p) && NonRed(u) < NonRed(t)
  {
    hide NonRed, Astray, BestFrom, Looked;
    StepUp(t, root, n);
    assert n != root ==> HasParent(t, n);
    BestFromParent(Paint(Looked(t, t[n].children), n, Red), ws, root, n, n);
  }

  // ----- What a crawler gets -----

  /** A page handed out: the tree when the search for it began, the cursor, and the tree and the leaf when it ended. */
  datatype Pick<!N, !C> = Pick(before: map<N, Cell<N, C>>, from: N, found: map<N, Cell<N, C>>, leaf: N)

  /** The search found the best page there was from the cursor, and it waited for a crawler. */
  ghost predicate Searched<N, C>(p: Pick<N, C>, ws: map<N, real>, root: N): (yes: bool)
    ensures yes ==> p.leaf in p.found && p.found[p.leaf].Free() && p.found[p.leaf].parent.Some?
  {
    && SameButColour(p.before, p.found) && NonRed(p.found) < NonRed(p.before) && p.from in p.before
    && Stopped(p.found, root, Some(p.leaf)) && BestFrom(p.found, ws, root, p.from, p.leaf)
  }

  /**
    Crawler `c` was given pages, and the tree is now `u`: each search began where the one before had ended, at the
    parent of the page it found, and nothing else has changed.
   */
  ghost predicate Filled<N, C>(t: map<N, Cell<N, C>>, u: map<N, Cell<N, C>>, ws: map<N, real>, root: N, c: C, from: N, picks: seq<Pick<N, C>>, at: N)
    decreases |picks|
  {
    if picks == [] then u == t && at == from else
      var k := |picks| - 1; var p := picks[k];
      && Filled(t, p.before, ws, root, c, from, picks[..k], p.from) && Searched(p, ws, root)
      && u == Assign(p.found, p.leaf, c) && at == p.found[p.leaf].parent.value
  }

  lemma FilledNothing<N, C>(t: map<N, Cell<N, C>>, ws: map<N, real>, root: N, c: C, from: N)
    ensures Filled(t, t, ws, root, c, from, [], from)
  {
  }

  /** The page that the search found has been handed out. */
  lemma FilledOne<N, C>(t: map<N, Cell<N, C>>, u: map<N, Cell<N, C>>, v: map<N, Cell<N, C>>, ws: map<N, real>, root: N, c: C, n: N, leaf: N, at: N)
    ensures leaf in u && Traversed(t, u, ws, root, n, Some(leaf)) && u[leaf].page.Some? && v == Assign(u, leaf, c) && u[leaf].parent == Some(at)
            ==> Filled(t, v, ws, root, c, n, [Pick(t, n, u, leaf)], at)
  {
    if leaf in u && Traversed(t, u, ws, root, n, Some(leaf)) {
      assert Searched(Pick(t, n, u, leaf), ws, root);
      FilledNothing(t, ws, root, c, n);
      assert [Pick(t, n, u, leaf)][..0] == [];
    }
  }

  lemma FilledOneMore<N, C>(t: map<N, Cell<N, C>>, u: map<N, Cell<N, C>>, v: map<N, Cell<N, C>>, ws: map<N, real>, root: N, c: C, from: N,
                            picks: seq<Pick<N, C>>, n: N, p: Pick<N, C>, at: N)
    ensures Filled(t, u, ws, root, c, from, picks, n) && Filled(u, v, ws, root, c, n, [p], at) ==> Filled(t, v, ws, root, c, from, picks + [p], at)
  {
    hide Searched, Assign;
    assert (picks + [p])[..|picks|] == picks && (picks + [p])[|picks|] == p && [p][..0] == [];
    if Filled(u, v, ws, root, c, n, [p], at) {
      assert Filled(u, p.before, ws, root, c, n, [], p.from);
    }
  }

  /** The crawler gets no more, with the cursor at `at`: it is full, and the cursor goes up once more, or a last search has found nothing. */
  ghost predicate Ended<N, C>(view: map<N, Cell<N, C>>, u: map<N, Cell<N, C>>, ws: map<N, real>, root: N, at: N, full: bool, next: Option<N>) {
    (full && u == view && at in view && next == view[at].parent) || Traversed(view, u, ws, root, at, None)
  }

  lemma EndedSearching<N, C>(view: map<N, Cell<N, C>>, u: map<N, Cell<N, C>>, ws: map<N, real>, root: N, at: N, full: bool, next: Option<N>)
    ensures Traversed(view, u, ws, root, at, None) ==> Ended(view, u, ws, root, at, full, next)
  {
  }

  /** What one crawler gets when it is served: its pages, and the tree and the cursor after the last of them. */
  datatype Share<!N, !C> = Share(picks: seq<Pick<N, C>>, view: map<N, Cell<N, C>>, at: N)

  /** All of filling a crawler, which is full afterwards or not; under a Red root nothing is done. */
  ghost predicate Shared<N, C>(t: map<N, Cell<N, C>>, u: map<N, Cell<N, C>>, ws: map<N, real>, root: N, c: C, from: N, share: Share<N, C>,
                               full: bool, next: Option<N>) {
    && Filled(t, share.view, ws, root, c, from, share.picks, share.at)
    && if root in t && t[root].colour == Red then share.picks == [] && u == t
       else Ended(share.view, u, ws, root, share.at, full, next)
  }

  lemma SharedNothing<N, C>(t: map<N, Cell<N, C>>, ws: map<N, real>, root: N, c: C, from: N, full: bool, next: Option<N>)
    ensures Filled(t, t, ws, root, c, from, [], from)
    ensures root in t && t[root].colour == Red ==> Shared(t, t, ws, root, c, from, Share([], t, from), full, next)
  {
  }

  lemma SharedEnds<N, C>(t: map<N, Cell<N, C>>, u: map<N, Cell<N, C>>, v: map<N, Cell<N, C>>, ws: map<N, real>, root: N, c: C, from: N,
                         share: Share<N, C>, full: bool, next: Option<N>)
    requires u == share.view && root in t && t[root].colour != Red
    ensures Filled(t, u, ws, root, c, from, share.picks, share.at) && Ended(u, v, ws, root, share.at, full, next) ==>
              Shared(t, v, ws, root, c, from, share, full, next)
  {
  }

  // ----- A run -----

  /** The state of a run between two rounds. */
  datatype Moment<!N, !C> = Moment(tree: map<N, Cell<N, C>>, cursor: Option<N>, shift: Shift<C>, queue: seq<C>)

  /** One round: the front crawler gets its share, unless it is offline, and is put back into the queue. */
  ghost predicate Turn<N, C>(m: Moment<N, C>, n: Moment<N, C>, ws: map<N, real>, root: N, share: Share<N, C>) {
    && m.queue != [] && Known(n.shift, m.queue) && n.queue == Requeued(n.shift, m.queue)
    && var c := m.queue[0];
       && Grew(m.shift, n.shift, c, |share.picks|) && c in n.shift.room
       && if c !in m.shift.online then share.picks == [] && n.tree == m.tree && n.cursor == m.cursor
          else Shared(m.tree, n.tree, ws, root, c, if m.cursor.None? then root else m.cursor.value, share, Full(n.shift, c), n.cursor)
  }

  /** The rounds of a run, one after the other. */
  ghost predicate Course<N, C>(m: Moment<N, C>, n: Moment<N, C>, ws: map<N, real>, root: N, moments: seq<Moment<N, C>>, shares: seq<Share<N, C>>) {
    && |moments| == |shares| + 1 && moments[0] == m && moments[|shares|] == n
    && forall i :: 0 <= i < |shares| ==> Turn(moments[i], moments[i + 1], ws, root, shares[i])
  }

  lemma CourseBegins<N, C>(m: Moment<N, C>, ws: map<N, real>, root: N)
    ensures Course(m, m, ws, root, [m], [])
  {
  }

  lemma CourseGoesOn<N, C>(m: Moment<N, C>, n: Moment<N, C>, o: Moment<N, C>, ws: map<N, real>, root: N, moments: seq<Moment<N, C>>,
                           shares: seq<Share<N, C>>, share: Share<N, C>)
    ensures Course(m, n, ws, root, moments, shares) && Turn(n, o, ws, root, share) ==> Course(m, o, ws, root, moments + [o], shares + [share])
  {
    hide Turn;
  }

  // ----- What a run hands out -----

  ghost function Leaves<N, C>(picks: seq<Pick<N, C>>): set<N> {
    set p | p in picks :: p.leaf
  }

  /** The pages of `given` have been given to `c`, no page has been taken back, and links are as they were. */
  ghost predicate Gives<N, C>(t: map<N, Cell<N, C>>, u: map<N, Cell<N, C>>, c: C, given: set<N>) {
    && t.Keys == u.Keys && given <= t.Keys
    && forall n {:trigger u[n].page} :: n in t ==>
         if n in given then t[n].Free() && u[n].page == Some(Page(t[n].page.value.url, Some(c))) else u[n].page == t[n].page
  }

  /** What a crawler was given are the pages its searches found, each of them the best from its cursor. */
  lemma {:induction false} FilledGives<N, C>(t: map<N, Cell<N, C>>, u: map<N, Cell<N, C>>, ws: map<N, real>, root: N, c: C, from: N,
                                             picks: seq<Pick<N, C>>, at: N)
    requires Filled(t, u, ws, root, c, from, picks, at)
    ensures Gives(t, u, c, Leaves(picks)) && forall p <- picks :: Searched(p, ws, root)
    decreases |picks|
  {
    hide Searched;
    if picks != [] {
      var k := |picks| - 1;
      FilledGives(t, picks[k].before, ws, root, c, from, picks[..k], picks[k].from);
      GivesOneMore(t, u, ws, root, c, picks[..k], picks[k]);
      assert picks == picks[..k] + [picks[k]];
    }
  }

  lemma GivesOneMore<N, C>(t: map<N, Cell<N, C>>, u: map<N, Cell<N, C>>, ws: map<N, real>, root: N, c: C, picks: seq<Pick<N, C>>, p: Pick<N, C>)
    requires Gives(t, p.before, c, Leaves(picks)) && Searched(p, ws, root) && u == Assign(p.found, p.leaf, c)
    ensures Gives(t, u, c, Leaves(picks + [p]))
  {
    assert Leaves(picks + [p]) == Leaves(picks) + {p.leaf};
    assert p.before[p.leaf].page == p.found[p.leaf].page;
  }

  lemma SharedGives<N, C>(t: map<N, Cell<N, C>>, u: map<N, Cell<N, C>>, ws: map<N, real>, root: N, c: C, from: N, share: Share<N, C>,
                          full: bool, next: Option<N>)
    requires Shared(t, u, ws, root, c, from, share, full, next)
    ensures Gives(t, u, c, Leaves(share.picks)) && forall p <- share.picks :: Searched(p, ws, root)
  {
    hide Searched, Filled;
    FilledGives(t, share.view, ws, root, c, from, share.picks, share.at);
  }

  /** In a round the front crawler alone is given pages. */
  lemma TurnGives<N, C>(m: Moment<N, C>, n: Moment<N, C>, ws: map<N, real>, root: N, share: Share<N, C>)
    requires Turn(m, n, ws, root, share)
    ensures Gives(m.tree, n.tree, m.queue[0], Leaves(share.picks)) && forall p <- share.picks :: Searched(p, ws, root)
  {
    hide Searched, Shared;
    var c := m.queue[0];
    if c in m.shift.online {
      SharedGives(m.tree, n.tree, ws, root, c, if m.cursor.None? then root else m.cursor.value, share, Full(n.shift, c), n.cursor);
    }
  }

  /** The leaves whose pages the shares give away. */
  ghost function Given<N, C>(shares: seq<Share<N, C>>): set<N> {
    if shares == [] then {} else Given(shares[..|shares| - 1]) + Leaves(shares[|shares| - 1].picks)
  }

  /**
    A run gives exactly the pages its searches found, each to the crawler in front when it was found, each of them
    the best there was from the cursor; all other pages are as they were.
   */
  lemma {:induction false} CourseGives<N, C>(m: Moment<N, C>, n: Moment<N, C>, ws: map<N, real>, root: N, moments: seq<Moment<N, C>>,
                                             shares: seq<Share<N, C>>)
    requires Course(m, n, ws, root, moments, shares)
    ensures m.tree.Keys == n.tree.Keys && Given(shares) <= m.tree.Keys
    ensures forall x {:trigger n.tree[x].page} :: x in Given(shares) ==> m.tree[x].Free() && n.tree[x].Taken()
    ensures forall x {:trigger n.tree[x].page} :: x in m.tree && x !in Given(shares) ==> n.tree[x].page == m.tree[x].page
    ensures forall i, p :: 0 <= i < |shares| && p in shares[i].picks ==>
              && Searched(p, ws, root) && p.leaf in m.tree && m.tree[p.leaf].Free() && moments[i].queue != []
              && n.tree[p.leaf].page == Some(Page(m.tree[p.leaf].page.value.url, Some(moments[i].queue[0])))
    decreases |shares|
  {
    hide Searched, Turn;
    if shares != [] {
      var k := |shares| - 1;
      CourseGives(m, moments[k], ws, root, moments[..k + 1], shares[..k]);
      assert Turn(moments[k], moments[k + 1], ws, root, shares[k]);
      TurnGives(moments[k], n, ws, root, shares[k]);
      TurnHasFront(moments[k], n, ws, root, shares[k]);
      var v := moments[k].tree;
      forall x | x in m.tree
        ensures x in Given(shares) ==> m.tree[x].Free() && n.tree[x].Taken()
        ensures x !in Given(shares) ==> n.tree[x].page == m.tree[x].page
      {
        assert v[x].page == m.tree[x].page || v[x].Taken();
        assert n.tree[x].page == v[x].page || x in Leaves(shares[k].picks);
      }
      forall i, p | 0 <= i < |shares| && p in shares[i].picks
        ensures Searched(p, ws, root) && p.leaf in m.tree && m.tree[p.leaf].Free() && moments[i].queue != []
        ensures n.tree[p.leaf].page == Some(Page(m.tree[p.leaf].page.value.url, Some(moments[i].queue[0])))
      {
        if i == k {
          assert p.leaf in Leaves(shares[k].picks) && v[p.leaf].Free() && n.tree[p.leaf].Taken();
          assert v[p.leaf].page == m.tree[p.leaf].page || v[p.leaf].Taken();
        } else {
          assert shares[..k][i] == shares[i] && moments[..k + 1][i] == moments[i];
          assert v[p.leaf].Taken() && n.tree[p.leaf].page == v[p.leaf].page;
        }
      }
    }
  }

  lemma TurnHasFront<N, C>(m: Moment<N, C>, n: Moment<N, C>, ws: map<N, real>, root: N, share: Share<N, C>)
    requires Turn(m, n, ws, root, share)
    ensures m.queue != []
  {
  }
}
