/** The scheduler: it gives the pages of the URL tree to the crawlers (sched/Scheduler.cpp). */
module Schedulers {
  import opened Sequences
  import opened Wrappers
  import opened WorkUnits
  import opened Formulas
  import opened Traversal
  import opened Tries
  import opened Assignments
  import opened Weights
  import opened Seeding
  import opened Schedules
  import opened Ranking
  import opened Queues
  import opened Runs
  import opened Searches
  import opened Nodes
  import opened UrlTrees

  class Scheduler {
    const tree: Tree
    const normalise: (real, real) -> real
    var pageTable: map<nat, Node>
    var crawlers: seq<Crawler>  // the priority queue, a heap

    constructor (normalise: (real, real) -> real)
      ensures Steady() && Settled(View()) && crawlers == [] && pageTable == map[] && fresh(tree)
      ensures this.normalise == normalise && tree.nodes == {tree.root} && fresh(tree.root) && tree.inserted == {}
      ensures tree.root.page == null && tree.root.children == []
    {
      this.normalise, pageTable, crawlers := normalise, map[], [];
      var t := NewTree();
      tree := t;
      new;
      hide Steady, Settled, Blank;
      Beginning();
    }

    static method NewTree() returns (t: Tree)
      ensures fresh(t) && fresh(t.root) && t.nodes == {t.root} && t.height == 0 && t.inserted == {}
      ensures t.root.parent == null && t.root.children == [] && t.root.visitState == Green && t.root.pathIdx == -1 && Blank(t.root)
    {
      var root := new Node("ROOT");
      t := new Tree(root);
    }

    /** The tree with the root alone, and nothing else. */
    lemma Beginning()
      requires crawlers == [] && pageTable == map[] && tree.nodes == {tree.root} && tree.height == 0 && tree.inserted == {}
      requires tree.root.parent == null && tree.root.children == [] && tree.root.visitState == Green && tree.root.pathIdx == -1 && Blank(tree.root)
      ensures Steady() && Settled(View())
    {
      hide Consistent, Settled, Balanced;
      RootAlone<Node, Crawler>(tree.root, tree.root.Seen(), tree.root.current);
      BeginningAsValues();
      SoundMeans();
      RootSpellsClosure(View(), tree.root);
    }

    lemma BeginningAsValues()
      requires crawlers == [] && tree.nodes == {tree.root}
      ensures View() == map[tree.root := tree.root.Seen()] && Weights() == map[tree.root := tree.root.current] && WorkUnits() == map[]
    {
    }

    /** A crawler that joins with nothing to do is put into the queue. */
    method RegisterCrawler(c: Crawler)
      requires Steady() && c !in crawlers && c.workUnit == []
      modifies this`crawlers
      ensures Steady() && Team() == old(Team()) + {c} && multiset(crawlers) == multiset(old(crawlers)) + multiset{c}
      ensures Known(State(), crawlers) && (old(Known(State(), crawlers) && Ordered(State(), crawlers)) ==> Ordered(State(), crawlers))
    {
      hide Consistent, TabledAmong, Balanced, Light, Priced, Ordered, Standing, Cells, SpellsClosure;
      ghost var us, team := WorkUnits(), Team();
      assert forall d :: d in team ==> |d.workUnit| <= d.MaxUnitSize();
      Push(c);
      assert WorkUnits() == us[c := []];
      assert UnitsFit() by {
        assert forall d <- crawlers :: d in Team();
      }
      JoiningConsistent(View(), tree.root, tree.height, us, c);
    }

    method Push(c: Crawler)
      requires QueuedOnce() && c !in crawlers
      modifies this`crawlers
      ensures QueuedOnce() && Team() == old(Team()) + {c} && View() == old(View())
      ensures multiset(crawlers) == multiset(old(crawlers)) + multiset{c}
      ensures Known(State(), crawlers) && (old(Known(State(), crawlers) && Ordered(State(), crawlers)) ==> Ordered(State(), crawlers))
    {
      hide Cells, Pushed, Standing, Ordered;
      var s, q := Standing(crawlers + [c]), crawlers;
      JoinedStanding(q, c);
      var r := Pushed(s, q, c);
      PushedKeeps(s, q, c);
      assert multiset(q + [c]) == multiset(r);
      Rearranged(q + [c], r);
      SameStanding(q + [c], r);
      crawlers := r;
    }

    /** Those queued rank among each other as before. */
    static lemma JoinedStanding(q: seq<Crawler>, c: Crawler)
      ensures Known(Standing(q), q) && Known(Standing(q + [c]), q) && c in Standing(q + [c]).loads && Known(Standing(q + [c]), q + [c])
      ensures Ordered(Standing(q), q) ==> Ordered(Standing(q + [c]), q)
    {
    }

    ghost function View(): (t: map<Node, Cell<Node, Crawler>>)
      reads tree`nodes, tree.nodes`parent, tree.nodes`children, tree.nodes`visitState
      reads tree.nodes`pathIdx, tree.nodes`childIdx, tree.nodes`page, (set n <- tree.nodes :: n.page)`crawler
      ensures t.Keys == tree.nodes
    {
      tree.View()
    }

    /** The nodes spell the prefixes of the paths inserted, and nothing else. */
    ghost predicate Spelling()
      reads tree`nodes, tree`inserted, tree.nodes`parent, tree.nodes`children, tree.nodes`visitState
      reads tree.nodes`pathIdx, tree.nodes`childIdx, tree.nodes`page, (set n <- tree.nodes :: n.page)`crawler
    {
      SpellsClosure(View(), tree.root, tree.inserted)
    }

    /** It is not about colours and pages. */
    lemma StillSpelling(t: map<Node, Cell<Node, Crawler>>)
      ensures SpellsClosure(t, tree.root, tree.inserted) && SameLinks(t, View()) ==> Spelling()
    {
      SameNodesKeepClosure(t, View(), tree.root, tree.inserted);
    }

    static ghost function PagesOf(nodes: set<Node>): set<PageData>
      reads nodes`page
    {
      set n | n in nodes && n.page != null :: n.page
    }

    ghost function Pages(): set<PageData>
      reads tree`nodes, tree.nodes`page
    {
      PagesOf(tree.nodes)
    }

    /** The weights the nodes are compared by. */
    ghost function Scale(): (w: map<Node, real>)
      reads tree`nodes, tree.nodes`current, tree.nodes`minimum, tree.nodes`children
      ensures w.Keys == tree.nodes
    {
      WeightsOf(tree.nodes, normalise)
    }

    /** One step of the search among the children: marks the child and weighs it against the best so far. */
    method ConsiderChild(c: Node, best: Node?) returns (chosen: Node?)
      requires c in tree.nodes && (best != null ==> best in tree.nodes)
      modifies c`visitState
      ensures View() == Looked(old(View()), [c]) && Scale() == old(Scale())
      ensures chosen == if Candidate(old(View()), c) && (best == null || Scale()[best] <= Scale()[c]) then c else best
    {
      hide Looked, Candidate, Cells;
      ghost var ws := Scale();
      var candidate := Visit(tree.nodes, c);
      assert Scale() == ws;
      chosen := if candidate then c.WeighAgainst(best, normalise) else best;
      assert Scale()[c] == c.Weight(normalise) && (best != null ==> Scale()[best] == best.Weight(normalise));
    }

    static function Maybe(n: Node?): Option<Node> {
      if n == null then None else Some(n as Node)
    }

    /** Marks all children and finds the heaviest candidate. */
    method WeighChildren(p: Node) returns (best: Node?)
      requires p in tree.nodes && forall c <- p.children :: c in tree.nodes
      modifies tree.nodes`visitState
      ensures View() == Looked(old(View()), p.children)
      ensures if best != null then Heaviest(old(View()), Scale(), p.children, best)
              else forall j :: 0 <= j < |p.children| ==> !Candidate(old(View()), p.children[j])
    {
      hide Looked, Candidate, Heaviest, Cells, WeightsOf;
      ghost var t, ws, cs := View(), Scale(), p.children;
      best := null;
      LookedNone(t);
      assert cs[..0] == [];
      var i := 0;
      while i < |p.children|
        invariant 0 <= i <= |cs| && Scale() == ws && View() == Looked(t, cs[..i])
        invariant best != null ==> best in tree.nodes
        invariant if best != null then Heaviest(t, ws, cs[..i], best) else forall j :: 0 <= j < i ==> !Candidate(t, cs[j])
      {
        ghost var was := best;
        best := ConsiderChild(p.children[i], best);
        LookedOneMore(t, cs, i);
        HeaviestOneMore(t, ws, cs, i, Maybe(was), Maybe(best));
        i := i + 1;
      }
      assert cs[..i] == cs;
    }

    /** Searches the children for the heaviest candidate; when there is none the node turns Red. */
    method SelectBestChild(p: Node) returns (best: Node?)
      requires p in tree.nodes && Links(View(), tree.root)
      modifies tree.nodes`visitState, tree.nodes`visited
      ensures best != null ==>
                && View() == Looked(old(View()), p.children)
                && Heaviest(old(View()), Scale(), p.children, best)
      ensures best == null ==>
                && View() == Paint(Looked(old(View()), p.children), p, Red)
                && forall c <- p.children :: !Candidate(old(View()), c)
    {
      ghost var t := View();
      ValuesAgree(tree.nodes, p);
      ChildrenHaveParent(t, tree.root, p);
      best := WeighChildren(p);
      if best == null {
        MarkRed(tree.nodes, p);
      }
    }

    /** What the traversal needs and keeps: it may start at node `n`. */
    ghost predicate Traversable(n: Node)
      reads tree`nodes, tree`height, tree.nodes`parent, tree.nodes`children, tree.nodes`visitState
      reads tree.nodes`pathIdx, tree.nodes`childIdx, tree.nodes`page, (set n <- tree.nodes :: n.page)`crawler
    {
      Searchable(View(), tree.root, tree.height, n)
    }

    /**
      One step of the search from `n`: down to the best child, or up where there is none. It ends at a page that
      no crawler has, or at the root.
     */
    method Move(n: Node) returns (leaf: Node?, next: Node?)
      requires Traversable(n)
      modifies tree.nodes`visitState, tree.nodes`visited
      ensures Scale() == old(Scale()) && (next == null ==> Traversed(old(View()), View(), Scale(), tree.root, n, Maybe(leaf)))
      ensures next != null ==> Traversable(next) && Moved(old(View()), View(), Scale(), tree.root, n, next)
      ensures next != null ==>
                || NonRed(View()) < NonRed(old(View()))
                || (NonRed(View()) == NonRed(old(View())) && View()[next].depth > old(View())[n].depth)
    {
      hide NonRed, Cells, WeightsOf, Traversed, Moved, Looked, Paint, Heaviest, Candidate, Shape, Open;
      ghost var t := View();
      CellSeen(tree.nodes, n);
      ShapeIsLinks(t, tree.root);
      leaf := null;
      next := SelectBestChild(n);
      if next == null {
        GoesUp(t, Scale(), tree.root, tree.height, n);
        if n.Eligible() {
          leaf := n;
        } else {
          next := n.parent;
        }
      } else {
        GoesDown(t, Scale(), tree.root, tree.height, n, next);
      }
    }

    /**
      Goes down to the best child and backtracks where there is none, until it meets a page no
      crawler has, or has returned to the root. Each step makes fewer nodes not Red, or goes deeper.
     */
    method TraverseBranch(n: Node) returns (leaf: Node?)
      requires Traversable(n)
      modifies tree.nodes`visitState, tree.nodes`visited
      ensures Scale() == old(Scale()) && Traversed(old(View()), View(), Scale(), tree.root, n, Maybe(leaf))
      decreases NonRed(View()), tree.height - View()[n].depth
    {
      hide NonRed, Cells, WeightsOf, Traversed, Moved;
      ghost var t := View();
      var p;
      leaf, p := Move(n);
      if p != null {
        ghost var u := View();
        leaf := TraverseBranch(p);
        MovedThenTraversed(t, u, View(), Scale(), tree.root, n, p, Maybe(leaf));
      }
    }

    // ----- Filling work units -----

    function Team(): set<Crawler>
      reads this`crawlers
    {
      set c | c in crawlers
    }

    ghost function WorkUnits(): (u: map<Crawler, seq<nat>>)
      reads this`crawlers, Team()`workUnit
      ensures u.Keys == Team()
    {
      Units(Team())
    }

    /** Tree, pages and work units are well formed and agree, and no work unit is too large. */
    ghost predicate Sound()
      reads tree`nodes, tree`height, tree.nodes`parent, tree.nodes`children, tree.nodes`visitState
      reads tree.nodes`pathIdx, tree.nodes`childIdx, tree.nodes`page, (set n <- tree.nodes :: n.page)`crawler
      reads this`crawlers, Team()`workUnit, this`pageTable
    {
      Consistent(View(), tree.root, tree.height, WorkUnits()) && UnitsFit() && Tabled()
    }

    ghost predicate Tabled()
      reads this`pageTable, tree`nodes, tree.nodes`page, (set n <- tree.nodes :: n.page)`crawler
    {
      TabledAmong(tree.nodes)
    }

    /** Page ids differ, and the page table leads from the id of each assigned page to its node. */
    ghost predicate TabledAmong(nodes: set<Node>)
      reads this`pageTable, nodes`page, (set n <- nodes :: n.page)`crawler
    {
      && (forall n, m :: n in nodes && m in nodes && n != m && n.page != null && m.page != null ==> n.page.id != m.page.id)
      && (forall n <- nodes :: n.page != null && n.page.crawler != null ==> n.page.id in pageTable && pageTable[n.page.id] == n)
      && (forall id <- pageTable :: pageTable[id] in nodes && pageTable[id].page != null && pageTable[id].page.id == id)
    }

    ghost predicate UnitsFit()
      reads this`crawlers, Team()`workUnit
    {
      forall c <- crawlers :: |c.workUnit| <= c.MaxUnitSize()
    }

    /** The leaf has a page of its own, which no work unit holds. */
    lemma LeafMayBeAssigned(leaf: Node)
      requires Sound() && Stopped(View(), tree.root, Some(leaf))
      ensures leaf in tree.nodes && leaf.page != null && leaf.page.crawler == null
      ensures forall m <- tree.nodes :: m != leaf ==> m.page != leaf.page
      ensures forall c <- crawlers :: leaf.page.url !in c.workUnit && c.Valid()
      ensures View()[leaf].page == Some(leaf.page.Kept())
    {
      var t := View();
      assert t[leaf] == leaf.Seen();
      forall m | m in tree.nodes && m != leaf ensures m.page != leaf.page {
        assert t[m] == m.Seen() && t[m].page.Some? ==> t[m].page.value.url != t[leaf].page.value.url;
      }
      forall c | c in crawlers ensures leaf.page.url !in c.workUnit && c.Valid() {
        assert WorkUnits()[c] == c.workUnit;
      }
    }

    /** Gives the page of the leaf to crawler `c`, and says so in terms of the values. */
    method Give(leaf: Node, c: Crawler)
      requires leaf in tree.nodes && leaf.page != null && leaf.page.crawler == null && forall m <- tree.nodes :: m != leaf ==> m.page != leaf.page
      requires c in crawlers && c.Valid() && !c.Full() && leaf.page.url !in c.workUnit && UnitsFit()
      requires Tabled() && leaf.page.id in pageTable
      modifies {leaf.page}`crawler, c`workUnit
      ensures View() == Assign(old(View()), leaf, c) && WorkUnits() == old(WorkUnits())[c := c.workUnit] && UnitsFit() && Tabled()
      ensures |c.workUnit| == old(|c.workUnit|) + 1 && Sorted(c.workUnit)
      ensures forall u: nat :: u in c.workUnit <==> u == leaf.page.url || u in old(c.workUnit)
    {
      hide Cells, Units;
      GivePageTo(tree.nodes, Team(), leaf, c);
    }

    /** Assigns the leaf the traversal stopped at to crawler `c`. */
    method AssignLeaf(leaf: Node, c: Crawler)
      requires Sound() && Stopped(View(), tree.root, Some(leaf)) && c in crawlers && !c.Full()
      requires leaf in tree.nodes && leaf.page != null && leaf.page.id in pageTable
      modifies {leaf.page}`crawler, c`workUnit
      ensures Sound() && View() == Assign(old(View()), leaf, c) && |c.workUnit| == old(|c.workUnit|) + 1
      ensures Handed(old(View()), View(), tree.root, leaf)
    {
      LeafMayBeAssigned(leaf);
      hide Consistent, Stopped, Handed, Assign, UnitsFit, Tabled;
      ghost var t, units := View(), WorkUnits();
      Give(leaf, c);
      AssignConsistent(t, tree.root, tree.height, units, leaf, c, c.workUnit);
    }

    /** The cursor from which the next crawler's share may be sought: null stands for the root. */
    ghost predicate Resumable(n: Node?)
      reads tree`nodes, tree`height, tree.nodes`parent, tree.nodes`children, tree.nodes`visitState
      reads tree.nodes`pathIdx, tree.nodes`childIdx, tree.nodes`page, (set n <- tree.nodes :: n.page)`crawler
    {
      && tree.root in tree.nodes
      && (n == null || n == tree.root || (n in tree.nodes && n.children != []))
      && (tree.root.visitState == Red || Traversable(if n == null then tree.root else n))
    }

    /** Where the cursor goes after a round of the loop: up, or back to the root. */
    function Next(n: Node?): Node?
      reads tree, {n}`parent
    {
      if n == null then tree.root else n.parent
    }

    lemma NextIsResumable(n: Node)
      requires Sound() && Traversable(n)
      ensures Resumable(Next(n))
    {
      var t := View();
      assert t[n] == n.Seen() && t[tree.root] == tree.root.Seen();
      if n != tree.root {
        assert t[n].parent.Some? && HasParent(t, n);
        assert t[n.parent] == n.parent.Seen();
      }
      RootIsOpen(t, tree.root, n);
    }

    /** The scheduler can fill a crawler, going on from the cursor `n`. */
    ghost predicate Ready(n: Node?)
      reads tree`nodes, tree`height, tree.nodes`parent, tree.nodes`children, tree.nodes`visitState
      reads tree.nodes`pathIdx, tree.nodes`childIdx, tree.nodes`page, (set n <- tree.nodes :: n.page)`crawler
      reads this`crawlers, Team()`workUnit, this`pageTable
    {
      Sound() && Resumable(n)
    }

    /** Searches from `n`; all but colours stays as it was. */
    method FindPage(n: Node) returns (leaf: Node?)
      requires Sound() && Traversable(n)
      modifies tree.nodes`visitState, tree.nodes`visited
      ensures Sound() && Stopped(View(), tree.root, Maybe(leaf)) && Found(old(View()), View(), Maybe(leaf))
      ensures Scale() == old(Scale()) && Traversed(old(View()), View(), Scale(), tree.root, n, Maybe(leaf))
    {
      hide Stopped, Consistent, Traversed, Found, Cells, Units, WeightsOf;
      ghost var t, us := View(), WorkUnits();
      leaf := TraverseBranch(n);
      assert WorkUnits() == us;
      TraversedConsistent(t, View(), Scale(), tree.root, tree.height, us, n, Maybe(leaf));
    }

    /** The traversal may go on from the parent of a page just handed out. */
    lemma CursorAfter(t: map<Node, Cell<Node, Crawler>>, leaf: Node)
      requires leaf in tree.nodes
      ensures Sound() && Handed(t, View(), tree.root, leaf) ==>
                leaf.parent != null && Ready(leaf.parent) && Traversable(leaf.parent)
    {
      assert View()[leaf] == leaf.Seen();
      if leaf.parent in tree.nodes {
        assert View()[leaf.parent] == leaf.parent.Seen();
      }
    }

    method CacheLeaf(leaf: Node)
      requires leaf in tree.nodes && leaf.page != null
      modifies this`pageTable
      ensures pageTable == old(pageTable)[leaf.page.id := leaf]
      ensures View() == old(View()) && (old(Sound()) ==> Sound())
    {
      hide Consistent;
      pageTable := pageTable[leaf.page.id := leaf];
    }

    /** Caches the leaf the traversal stopped at and assigns it to crawler `c`. */
    method HandOut(leaf: Node, c: Crawler)
      requires Sound() && Stopped(View(), tree.root, Some(leaf)) && c in crawlers && !c.Full()
      requires leaf in tree.nodes && leaf.page != null
      modifies this`pageTable, {leaf.page}`crawler, c`workUnit
      ensures leaf.parent != null && Ready(leaf.parent) && Traversable(leaf.parent)
      ensures Handed(old(View()), View(), tree.root, leaf) && |c.workUnit| == old(|c.workUnit|) + 1
      ensures old(View())[leaf].page.Some? && View() == Assign(old(View()), leaf, c)
    {
      hide Sound, Stopped, Handed, Ready, Traversable, Assign;
      ghost var t := View();
      CacheLeaf(leaf);
      AssignLeaf(leaf, c);
      CursorAfter(t, leaf);
    }

    /** The traversal stops at a page, or when the root is Red. */
    lemma WhereStopped(leaf: Node?)
      ensures Sound() && Stopped(View(), tree.root, Maybe(leaf)) ==>
                if leaf == null then Ready(tree.root) && tree.root.visitState == Red else leaf in tree.nodes && leaf.page != null
    {
      if Sound() && Stopped(View(), tree.root, Maybe(leaf)) {
        assert View()[tree.root] == tree.root.Seen();
        if leaf != null {
          LeafMayBeAssigned(leaf);
        }
      }
    }

    /** Finds the best page that waits for a crawler, from cursor `n`, and hands it to `c`. */
    method FillOne(n: Node, c: Crawler) returns (exhausted: bool, next: Node?, more: nat, ghost p: Pick<Node, Crawler>)
      requires Sound() && Traversable(n) && c in crawlers && !c.Full()
      modifies tree.nodes`visitState, tree.nodes`visited, this`pageTable, (set m <- tree.nodes :: m.page)`crawler, c`workUnit
      ensures Ready(next) && NonRed(View()) < NonRed(old(View()))
      ensures if exhausted then tree.root.visitState == Red else next != null && Traversable(next)
      ensures |c.workUnit| == old(|c.workUnit|) + more && Claimed(old(View()), View(), more)
      ensures Scale() == old(Scale()) && more == (if exhausted then 0 else 1)
      ensures if exhausted then Traversed(old(View()), View(), Scale(), tree.root, n, None)
              else Filled(old(View()), View(), Scale(), tree.root, c, n, [p], next)
    {
      hide Sound, Ready, Traversable, Stopped, Found, Handed, Claimed, NonRed, Traversed, Filled, Assign, WeightsOf, Cells;
      ghost var t := View();
      var leaf := FindPage(n);
      ghost var u := View();
      p := Pick(t, n, u, n);
      WhereStopped(leaf);
      exhausted, next, more := leaf == null, Next(leaf), 0;
      if leaf == null {
        FoundNone(t, u);
      } else {
        CellSeen(tree.nodes, leaf);
        HandOut(leaf, c);
        next, more := Next(leaf), 1;
        FoundAndHanded(t, u, View(), tree.root, leaf);
        p := Pick(t, n, u, leaf);
        FilledOne(t, u, View(), Scale(), tree.root, c, n, leaf, next);
      }
    }

    /** One round of the loop of fill_crawler. */
    method FillRound(n: Node?, c: Crawler) returns (exhausted: bool, next: Node?, more: nat, ghost p: Pick<Node, Crawler>)
      requires Ready(n) && n != null && Traversable(n) && c in crawlers
      modifies tree.nodes`visitState, tree.nodes`visited, this`pageTable, (set m <- tree.nodes :: m.page)`crawler, c`workUnit
      ensures Ready(next) && (NonRed(View()) < NonRed(old(View())) || (exhausted && NonRed(View()) == NonRed(old(View()))))
      ensures if exhausted then c.Full() || tree.root.visitState == Red else next != null && Traversable(next)
      ensures |c.workUnit| == old(|c.workUnit|) + more && Claimed(old(View()), View(), more)
      ensures Scale() == old(Scale()) && more == (if exhausted then 0 else 1)
      ensures if exhausted then Ended(old(View()), View(), Scale(), tree.root, n, c.Full(), Maybe(next))
              else Filled(old(View()), View(), Scale(), tree.root, c, n, [p], next)
    {
      p := Pick(View(), tree.root, View(), tree.root);
      exhausted := n == null || c.Full();
      if exhausted {
        NextIsResumable(n);
        ClaimedNothing(View());
        next, more := Next(n), 0;
        EndedFull(n);
      } else {
        hide *;
        ghost var t := View();
        exhausted, next, more, p := FillOne(n, c);
        EndedSearching(t, View(), Scale(), tree.root, n, c.Full(), Maybe(next));
      }
    }

    lemma EndedFull(n: Node)
      requires n in tree.nodes
      ensures Traversable(n) ==> Ended(View(), View(), Scale(), tree.root, n, true, Maybe(n.parent))
    {
    }

    /**
      Assigns pages to `c`, starting from the cursor `n0`, until `c` is full or the tree is exhausted.
      The cursor is handed on to the next crawler.
     */
    method FillCrawler(c: Crawler, n0: Node?) returns (count: nat, n: Node?, ghost share: Share<Node, Crawler>)
      requires Ready(n0) && c in crawlers
      modifies tree.nodes`visitState, tree.nodes`visited, this`pageTable, (set m <- tree.nodes :: m.page)`crawler, c`workUnit
      ensures Ready(n) && (c.Full() || tree.root.visitState == Red)
      ensures old(tree.root.visitState) == Red ==> count == 0 && tree.root.visitState == Red
      ensures |c.workUnit| == old(|c.workUnit|) + count && Claimed(old(View()), View(), count)
      ensures Scale() == old(Scale()) && |share.picks| == count
      ensures Shared(old(View()), View(), Scale(), tree.root, c, Start(n0), share, c.Full(), Maybe(n))
    {
      hide *;
      ghost var t, ws := View(), Scale();
      ClaimedNothing(t);
      var exhausted := tree.root.visitState == Red;
      n := if n0 == null then tree.root else n0;
      count := 0;
      StartOfFill(n0, n);
      ghost var start := Start(n0);
      share := Share([], t, start);
      SharedNothing(t, ws, tree.root, c, start, c.Full(), Maybe(n));
      while !exhausted
        invariant Ready(n) && (old(tree.root.visitState) == Red ==> exhausted && count == 0 && tree.root.visitState == Red)
        invariant if exhausted then c.Full() || tree.root.visitState == Red else n != null && Traversable(n)
        invariant |c.workUnit| == old(|c.workUnit|) + count && Claimed(t, View(), count)
        invariant Scale() == ws && |share.picks| == count
        invariant if exhausted then Shared(t, View(), ws, tree.root, c, start, share, c.Full(), Maybe(n))
                  else n == share.at && View() == share.view && Filled(t, View(), ws, tree.root, c, start, share.picks, share.at)
        decreases NonRed(View()), !exhausted
      {
        ghost var u, k, at, p := View(), count, n, Pick(View(), tree.root, View(), tree.root);
        var more;
        exhausted, n, more, p := FillRound(n, c);
        count := count + more;
        ClaimedThen(t, u, View(), k, more, count);
        if exhausted {
          SharedEnds(t, u, View(), ws, tree.root, c, start, share, c.Full(), Maybe(n));
        } else {
          FilledOneMore(t, u, View(), ws, tree.root, c, start, share.picks, at, p, n);
          share := Share(share.picks + [p], View(), n);
        }
      }
      // the block that marks the ancestors of an assigned leaf Red is never entered
      LeftOnNoLeaf(n);
      assert n == null || !n.Leaf();
    }

    function Start(n: Node?): Node
      reads tree
    {
      if n == null then tree.root else n
    }

    lemma StartOfFill(n0: Node?, n: Node)
      requires n == if n0 == null then tree.root else n0
      ensures n == Start(n0) && (Ready(n0) ==> tree.root in tree.nodes && View()[tree.root].colour == tree.root.visitState)
      ensures Ready(n0) ==> Ready(n) && (tree.root.visitState == Red || Traversable(n))
    {
    }

    /** The loop never leaves the cursor on a leaf. */
    lemma LeftOnNoLeaf(n: Node?)
      ensures Ready(n) ==> n == null || !n.Leaf()
    {
      if Ready(n) {
        assert View()[tree.root] == tree.root.Seen();
      }
    }

    // ----- A scheduling run -----

    /** Crawlers as the ranking sees them. */
    static function Standing(cs: seq<Crawler>): Shift<Crawler>
      reads cs`workUnit, cs`online
    {
      Shift(OnlineOf(cs), LoadsOf(cs), RoomOf(cs))
    }

    static function OnlineOf(cs: seq<Crawler>): set<Crawler>
      reads cs`online
    {
      set c | c in cs && c.online
    }

    static function LoadsOf(cs: seq<Crawler>): (loads: map<Crawler, nat>)
      reads cs`workUnit
      ensures loads.Keys == (set c | c in cs) && forall c <- cs :: loads[c] == |c.workUnit|
    {
      if cs == [] then map[] else LoadsOf(cs[1..])[cs[0] := |cs[0].workUnit|]
    }

    static function RoomOf(cs: seq<Crawler>): (room: map<Crawler, nat>)
      ensures room.Keys == (set c | c in cs) && forall c <- cs :: room[c] == c.MaxUnitSize()
    {
      if cs == [] then map[] else RoomOf(cs[1..])[cs[0] := cs[0].MaxUnitSize()]
    }

    function State(): Shift<Crawler>
      reads this`crawlers, crawlers`workUnit, crawlers`online
    {
      Standing(crawlers)
    }

    /** Whether `lhs` comes after `rhs` in the queue. */
    static predicate RankCrawler(lhs: Crawler, rhs: Crawler)
      reads lhs`online, lhs`workUnit, rhs`online, rhs`workUnit
    {
      if lhs.online && rhs.online then
        if |lhs.workUnit| == |rhs.workUnit| then false else |lhs.workUnit| > |rhs.workUnit|
      else if !lhs.online && !rhs.online then false
      else !lhs.online
    }

    /** The order of the heap is that of RankCrawler. */
    static lemma RanksAgree(cs: seq<Crawler>, l: Crawler, r: Crawler)
      requires l in cs && r in cs
      ensures RankedBelow(Standing(cs), l, r) <==> RankCrawler(l, r)
    {
    }

    ghost predicate QueuedOnce()
      reads this`crawlers
    {
      Distinct(crawlers)
    }

    lemma QueueOfTeam()
      ensures QueuedOnce() ==> IsQueue(State(), crawlers)
      ensures Known(State(), crawlers) && State().loads.Keys == Team()
    {
    }

    /** The same crawlers stand as they stood, in whatever order. */
    static lemma SameStanding(cs: seq<Crawler>, ds: seq<Crawler>)
      requires forall c :: c in cs <==> c in ds
      ensures Standing(cs) == Standing(ds) && (set c | c in cs) == (set c | c in ds)
    {
    }

    /** Puts the same crawlers into another order. */
    method Reorder(q: seq<Crawler>, ghost n: Node?)
      requires forall c :: c in q <==> c in crawlers
      modifies this`crawlers
      ensures crawlers == q && Team() == old(Team()) && State() == old(State()) && View() == old(View())
      ensures old(Ready(n)) ==> Ready(n)
    {
      hide Consistent, Tabled, Resumable, Standing, Cells;
      SameStanding(crawlers, q);
      ghost var units, fit := WorkUnits(), UnitsFit();
      crawlers := q;
      assert WorkUnits() == units && (fit ==> UnitsFit());
    }

    /** Takes the front crawler out of the queue and puts it back, which orders the queue anew. */
    method Requeue(ghost n: Node?)
      requires crawlers != [] && QueuedOnce()
      modifies this`crawlers
      ensures (old(Ready(n)) ==> Ready(n)) && QueuedOnce() && |crawlers| == |old(crawlers)| && Team() == old(Team())
      ensures View() == old(View()) && State() == old(State())
      ensures Known(State(), old(crawlers)) && crawlers == Requeued(State(), old(crawlers)) && MayFollow(State(), old(crawlers), crawlers)
    {
      hide Ready, Requeued, Standing, View;
      QueueOfTeam();
      RequeuedFollows(State(), crawlers);
      Reorder(Requeued(State(), crawlers), n);
    }

    lemma OneUnitGrew(was: Shift<Crawler>, c: Crawler, l: nat)
      requires c in crawlers && was.loads.Keys == Team() && was == State().(loads := was.loads)
      requires |c.workUnit| == was.loads[c] + l && forall d <- crawlers :: d != c ==> |d.workUnit| == was.loads[d]
      ensures Grew(was, State(), c, l)
    {
      assert State().loads == was.loads[c := was.loads[c] + l];
    }

    /** One round of a run, without the reordering of the queue: fills `c`, unless it is offline. */
    method Serve(c: Crawler, n0: Node?) returns (l: nat, n: Node?, ghost share: Share<Node, Crawler>)
      requires Ready(n0) && c in crawlers
      modifies tree.nodes`visitState, tree.nodes`visited, this`pageTable, (set m <- tree.nodes :: m.page)`crawler, c`workUnit
      ensures Ready(n) && Claimed(old(View()), View(), l)
      ensures Grew(old(State()), State(), c, l) && c in State().loads && c in State().room
      ensures if c in old(State()).online then Full(State(), c) || tree.root.visitState == Red else l == 0
      ensures old(tree.root.visitState) == Red ==> l == 0 && tree.root.visitState == Red
      ensures Scale() == old(Scale()) && |share.picks| == l && (c in old(State()).online <==> c.online)
      ensures if !c.online then View() == old(View()) && n == n0
              else Shared(old(View()), View(), Scale(), tree.root, c, Start(n0), share, Full(State(), c), Maybe(n))
    {
      hide Ready, Claimed, Shared, WeightsOf, Cells;
      ghost var was := State();
      ClaimedNothing(View());
      l, n, share := 0, n0, Share([], View(), tree.root);
      if c.online {
        l, n, share := FillCrawler(c, n0);
      }
      OneUnitGrew(was, c, l);
    }

    /** One round of a run: serves the front of the queue and puts it back. */
    method ServeFront(n0: Node?) returns (c: Crawler, l: nat, n: Node?, ghost share: Share<Node, Crawler>)
      requires Ready(n0) && QueuedOnce() && crawlers != []
      modifies tree.nodes`visitState, tree.nodes`visited, this`pageTable, (set m <- tree.nodes :: m.page)`crawler
      modifies this`crawlers, Team()`workUnit
      ensures Ready(n) && QueuedOnce() && |crawlers| == |old(crawlers)| && Team() == old(Team()) && c == old(crawlers[0])
      ensures Grew(old(State()), State(), c, l) && c in State().loads && c in State().room
      ensures Known(State(), old(crawlers)) && crawlers == Requeued(State(), old(crawlers)) && MayFollow(State(), old(crawlers), crawlers)
      ensures if c in old(State()).online then Full(State(), c) || tree.root.visitState == Red else l == 0
      ensures old(tree.root.visitState) == Red ==> l == 0 && tree.root.visitState == Red
      ensures Claimed(old(View()), View(), l) && Scale() == old(Scale())
      ensures Turn(old(Now(n0)), Now(n), Scale(), tree.root, share)
    {
      hide Ready, QueuedOnce, View, State, Claimed, Grew, Full, Requeued, Known, MayFollow, Shared, Scale;
      c := crawlers[0];
      assert c in Team();
      l, n, share := Serve(c, n0);
      Requeue(n);
    }

    /** Where a run is, with the cursor at `n`. */
    ghost function Now(n: Node?): Moment<Node, Crawler>
      reads tree`nodes, tree.nodes`parent, tree.nodes`children, tree.nodes`visitState
      reads tree.nodes`pathIdx, tree.nodes`childIdx, tree.nodes`page, (set n <- tree.nodes :: n.page)`crawler
      reads this`crawlers, crawlers`workUnit, crawlers`online
    {
      Moment(View(), Maybe(n), State(), crawlers)
    }

    lemma StartOfRun()
      requires Sound() && QueuedOnce()
      ensures Ready(null) && Valid(State()) && IsQueue(State(), crawlers)
      ensures crawlers != [] ==> Running(State(), crawlers, State(), crawlers, 0, [], tree.root.visitState == Red, |crawlers|)
    {
      assert View()[tree.root] == tree.root.Seen();
      if crawlers != [] {
        RunStarts(State(), crawlers, tree.root.visitState == Red);
      }
    }

    lemma ReadyMeans(n: Node?)
      ensures Ready(n) ==> Sound() && Valid(State())
    {
    }

    /** A round, and what it adds to the accounts of a run that began in `s0` with the queue `q0`. */
    method Round(n0: Node?, k0: nat, deferred0: seq<Crawler>, ghost s0: Shift<Crawler>, ghost q0: seq<Crawler>, ghost rounds: int)
      returns (n: Node?, k: nat, deferred: seq<Crawler>, ghost l: nat, ghost share: Share<Node, Crawler>)
      requires Ready(n0) && QueuedOnce() && crawlers != [] && rounds + 1 <= |q0|
      requires Running(s0, q0, State(), crawlers, k0, deferred0, tree.root.visitState == Red, rounds + 1)
      modifies tree.nodes`visitState, tree.nodes`visited, this`pageTable, (set m <- tree.nodes :: m.page)`crawler
      modifies this`crawlers, Team()`workUnit
      ensures Ready(n) && QueuedOnce() && |crawlers| == |old(crawlers)| && Team() == old(Team())
      ensures Running(s0, q0, State(), crawlers, k, deferred, tree.root.visitState == Red, rounds)
      ensures Claimed(old(View()), View(), l) && k == k0 + l
      ensures old(tree.root.visitState) == Red ==> l == 0 && tree.root.visitState == Red
      ensures Scale() == old(Scale()) && Turn(old(Now(n0)), Now(n), Scale(), tree.root, share)
    {
      hide *;
      ghost var s, q, red := State(), crawlers, tree.root.visitState == Red;
      var c, more;
      c, more, n, share := ServeFront(n0);
      ReadyMeans(n);
      l, k, deferred := more, k0 + more, if more > 0 then deferred0 + [c] else deferred0;
      RunGoesOn(s0, q0, s, q, State(), crawlers, k0, k, deferred0, deferred, red, tree.root.visitState == Red, l, rounds + 1, rounds);
    }

    /** The rounds of a run, as many as there are crawlers. */
    method Rounds() returns (k: nat, deferred: seq<Crawler>, ghost n: Node?, ghost moments: seq<Moment<Node, Crawler>>, ghost shares: seq<Share<Node, Crawler>>)
      requires Ready(null) && QueuedOnce() && crawlers != []
      requires Running(State(), crawlers, State(), crawlers, 0, [], tree.root.visitState == Red, |crawlers|)
      modifies tree.nodes`visitState, tree.nodes`visited, this`pageTable, (set m <- tree.nodes :: m.page)`crawler
      modifies this`crawlers, Team()`workUnit
      ensures Ready(n) && QueuedOnce() && Team() == old(Team()) && Claimed(old(View()), View(), k)
      ensures Running(old(State()), old(crawlers), State(), crawlers, k, deferred, tree.root.visitState == Red, 0)
      ensures old(tree.root.visitState) == Red ==> k == 0 && tree.root.visitState == Red
      ensures Scale() == old(Scale()) && |shares| == |old(crawlers)|
      ensures Course(old(Now(null)), Now(n), Scale(), tree.root, moments, shares)
    {
      hide *;
      ghost var s0, q0, team, t := State(), crawlers, Team(), View();
      ghost var ws, m := Scale(), Now(null);
      moments, shares := [m], [];
      CourseBegins(m, ws, tree.root);
      ClaimedNothing(t);
      k, deferred := 0, [];
      var p: Node?, i, j := null, 0, |crawlers|;
      ghost var rounds := j;
      while i < j
        invariant 0 <= i <= j == |crawlers| && rounds == j - i <= |q0| && Ready(p) && QueuedOnce() && Team() == team
        invariant old(tree.root.visitState) == Red ==> k == 0 && tree.root.visitState == Red
        invariant Claimed(t, View(), k) && Running(s0, q0, State(), crawlers, k, deferred, tree.root.visitState == Red, rounds)
        invariant Scale() == ws && |shares| == i && Course(m, Now(p), ws, tree.root, moments, shares)
      {
        rounds := rounds - 1;
        ghost var u, k0, l, now, share := View(), k, 0, Now(p), Share([], View(), tree.root);
        p, k, deferred, l, share := Round(p, k, deferred, s0, q0, rounds);
        ClaimedThen(t, u, View(), k0, l, k);
        CourseGoesOn(m, now, Now(p), ws, tree.root, moments, shares, share);
        moments, shares := moments + [Now(p)], shares + [share];
        i := i + 1;
      }
      n := p;
    }

    /** Serves the queue as many times as there are crawlers, unless there is none. */
    method FillAll() returns (k: nat, deferred: seq<Crawler>, ghost n: Node?, ghost moments: seq<Moment<Node, Crawler>>, ghost shares: seq<Share<Node, Crawler>>)
      requires Sound() && QueuedOnce()
      modifies tree.nodes`visitState, tree.nodes`visited, this`pageTable, (set m <- tree.nodes :: m.page)`crawler
      modifies this`crawlers, Team()`workUnit
      ensures Sound() && QueuedOnce() && Team() == old(Team()) && Claimed(old(View()), View(), k)
      ensures Ran(old(State()), old(crawlers), State(), crawlers, k, deferred, tree.root.visitState == Red)
      ensures old(tree.root.visitState) == Red ==> k == 0 && tree.root.visitState == Red
      ensures Scale() == old(Scale()) && |shares| == |old(crawlers)|
      ensures Course(old(Now(null)), Now(n), Scale(), tree.root, moments, shares)
    {
      StartOfRun();
      hide *;
      ghost var s0, q0 := State(), crawlers;
      k, deferred, n, moments, shares := 0, [], null, [Now(null)], [];
      CourseBegins(Now(null), Scale(), tree.root);
      if crawlers == [] {
        ClaimedNothing(View());
        NobodyToServe(s0, tree.root.visitState == Red);
        return;
      }
      k, deferred, n, moments, shares := Rounds();
      ReadyMeans(n);
      RunEnds(s0, q0, State(), crawlers, k, deferred, tree.root.visitState == Red);
    }

    // ----- Weights -----

    ghost function Weights(): (w: map<Node, real>)
      reads tree`nodes, tree.nodes`current
      ensures w.Keys == tree.nodes
    {
      Loads(tree.nodes)
    }

    /** The leaf `n` has changed, and the nodes below `p` know: what `p` lacks still is what its reviser tells. */
    ghost predicate Revised(n: Node, p: Node)
      reads tree`nodes, tree.nodes`parent, tree.nodes`children, tree.nodes`visitState
      reads tree.nodes`pathIdx, tree.nodes`childIdx, tree.nodes`page, (set n <- tree.nodes :: n.page)`crawler
      reads tree.nodes`current, n`current, n`previous, p`reviser
    {
      && (p.reviser == null || p.reviser == n)
      && BalancedBut(View(), Weights(), tree.root, p, if p.reviser == null then 0.0 else n.current - n.previous)
    }

    /** A node below the root hangs below an inner node. */
    lemma BelowInnerNode(n: Node)
      requires n in tree.nodes && n.parent != null
      ensures View()[n].parent == Some(n.parent)
      ensures Shape(View(), tree.root) ==>
                && n != tree.root && n.parent in tree.nodes && n.parent != n && n.parent.children != [] && n.parent.page == null
                && View()[n].children == n.children && -1 <= n.parent.pathIdx < n.pathIdx
    {
      var t := View();
      assert t[n] == n.Seen();
      if Shape(t, tree.root) {
        assert t[n].parent.Some? && HasParent(t, n);
        assert t[n.parent] == n.parent.Seen();
      }
    }

    /** A page hangs below another node. */
    lemma PageIsLeaf(n: Node)
      requires n in tree.nodes && n.page != null
      ensures Shape(View(), tree.root) ==> n.Leaf()
    {
      var t := View();
      assert t[n] == n.Seen() && t[n].page.Some?;
    }

    /** The leaf `n` was weighed anew; before that, the tree was balanced with weights `w`. */
    lemma LeafRevised(w: map<Node, real>, n: Node)
      requires n in tree.nodes && n in w && n.parent != null && View()[n].parent == Some(n.parent) && n.page != null
      ensures && Shape(View(), tree.root) && Balanced(View(), w, tree.root) && Weights() == w[n := n.current] && n.previous == w[n]
              && n.parent.reviser == (if n.current == n.previous then null else n)
              ==> Revised(n, n.parent)
    {
      assert View()[n] == n.Seen();
      LeafChange(View(), w, tree.root, n, n.current);
    }

    lemma LeafIsLight(n: Node)
      requires n in tree.nodes && n.children == []
      ensures Weights()[n] == n.current && (Light(tree.nodes) ==> n.reviser == null)
    {
    }

    /** Weighs the leaf anew, and leaves word with its parent. */
    method WeighLeaf(n: Node)
      requires Shape(View(), tree.root) && Balanced(View(), Weights(), tree.root) && Light(tree.nodes)
      requires n in tree.nodes && n.page != null && PricedBut(tree.nodes, n)
      modifies n`current, n`previous, n`minimum, {n.parent}`reviser, {n.parent}`minimum
      ensures n.parent != null && n.parent in tree.nodes && Revised(n, n.parent) && Light(tree.nodes) && Priced(tree.nodes)
      ensures n.parent.children != [] && n.parent.page == null && n.current == n.page.Worth()
    {
      hide Shape, Balanced, BalancedBut, Light, Revised, Loads, Cells, Priced, PricedBut;
      PageIsLeaf(n);
      BelowInnerNode(n);
      LeafIsLight(n);
      ghost var w := Weights();
      Reweigh(tree.nodes, n);
      PricedAfterAll(tree.nodes, n);
      LeafRevised(w, n);
    }

    /** What an inner node takes in leaves it with no negative weight. */
    lemma InnerMayTakeIn(n: Node, p: Node, off: real)
      requires p in tree.nodes && n in tree.nodes && p.parent != null && p.children != []
      requires off == if p.reviser == null then 0.0 else n.current - n.previous
      ensures Weights()[p] == p.current
      ensures Revised(n, p) ==> (p.reviser == null || p.reviser == n) && BalancedBut(View(), Weights(), tree.root, p, off)
      ensures Shape(View(), tree.root) && Revised(n, p) && Light(tree.nodes) ==> p.current + off >= 0.0
    {
      var t, w := View(), Weights();
      assert t[p] == p.Seen() && w[p] == p.current;
      if Shape(t, tree.root) && Revised(n, p) && Light(tree.nodes) {
        InnerNotNegative(t, w, tree.root, p, off);
      }
    }

    /** Inner node `p` has taken in what it lacked; before that the weights were `w`. */
    lemma InnerRevised(w: map<Node, real>, n: Node, p: Node, off: real)
      requires n in tree.nodes && p in tree.nodes && p in w && p.parent != null && p.children != [] && p != tree.root
      requires (p.parent.reviser == null || p.parent.reviser == n) && off == (if p.parent.reviser == null then 0.0 else n.current - n.previous)
      ensures Shape(View(), tree.root) && BalancedBut(View(), w, tree.root, p, off) && Weights() == w[p := w[p] + off] ==> Revised(n, p.parent)
    {
      hide Shape, BalancedBut, View, Weights;
      BelowInnerNode(p);
      InnerChange(View(), w, tree.root, p, off);
    }

    /** Weighs an inner node by what its reviser tells, and passes the word on to its parent. */
    method WeighInner(p: Node, ghost n: Node)
      requires Shape(View(), tree.root) && Revised(n, p) && Light(tree.nodes) && n in tree.nodes && n != p && Priced(tree.nodes)
      requires p in tree.nodes && p.children != [] && p.page == null && p.parent != null
      modifies p`current, p`previous, p`minimum, {p.parent}`reviser, {p.parent}`minimum
      ensures p.parent in tree.nodes && Revised(n, p.parent) && Light(tree.nodes) && Priced(tree.nodes)
      ensures p.parent.children != [] && p.parent.page == null
    {
      hide Shape, Balanced, BalancedBut, Light, Revised, Loads, Cells, Priced, PricedBut;
      BelowInnerNode(p);
      ghost var w, off := Weights(), if p.reviser == null then 0.0 else n.current - n.previous;
      InnerMayTakeIn(n, p, off);
      PricedAfterAll(tree.nodes, p);
      Reweigh(tree.nodes, p);
      PricedAfterAll(tree.nodes, p);
      InnerRevised(w, n, p, off);
    }

    /** At the root nothing is passed on. */
    lemma RootTakesNothing(n: Node, p: Node)
      requires p in tree.nodes && n in tree.nodes && p.parent == null
      ensures Shape(View(), tree.root) && Revised(n, p) ==> Balanced(View(), Weights(), tree.root)
    {
      assert View()[p] == p.Seen();
      if Shape(View(), tree.root) && Revised(n, p) {
        assert p != tree.root ==> HasParent(View(), p);
        OffByNothing(View(), Weights(), tree.root, p, if p.reviser == null then 0.0 else n.current - n.previous);
      }
    }

    /**
      Passes what changed at the leaf `n` up its branch as a difference. Every inner node below the
      root then carries the sum over its children again.
     */
    method WeighTreeBranch(n: Node)
      requires Shape(View(), tree.root) && Balanced(View(), Weights(), tree.root) && Light(tree.nodes)
      requires n in tree.nodes && n.page != null && PricedBut(tree.nodes, n)
      modifies tree.nodes`current, tree.nodes`previous, tree.nodes`minimum, tree.nodes`reviser
      ensures Balanced(View(), Weights(), tree.root) && Light(tree.nodes) && n.current == n.page.Worth() && Priced(tree.nodes)
      ensures View() == old(View())
    {
      hide Shape, Balanced, BalancedBut, Light, Revised, Loads, Cells, Priced, PricedBut;
      ghost var t, worth := View(), n.page.Worth();
      PageIsLeaf(n);
      BelowInnerNode(n);
      WeighLeaf(n);
      var p: Node? := n.parent;
      while p != null
        invariant View() == t && Shape(t, tree.root) && Light(tree.nodes) && Priced(tree.nodes) && n.current == worth == n.page.Worth()
        invariant p == null ==> Balanced(t, Weights(), tree.root)
        invariant p != null ==> p in tree.nodes && Revised(n, p) && p.children != [] && p.page == null && p != n && -1 <= p.pathIdx
        decreases if p == null then 0 else p.pathIdx + 2
      {
        if p.parent == null {
          RootTakesNothing(n, p);
        } else {
          BelowInnerNode(p);
          WeighInner(p, n);
        }
        p := p.parent;
      }
    }

    // ----- A page has been crawled -----

    /** Makes the nodes on the branch of `n` eligible for traversal again. */
    method CleanTreeBranch(n: Node)
      requires n in tree.nodes && Shape(View(), tree.root)
      modifies tree.nodes`visitState, tree.nodes`visited
      ensures Cleaned(old(View()), View(), tree.root, n)
      decreases View()[n].depth
    {
      hide Shape, Cleaned;
      ghost var t := View();
      KnowsParent(n);
      if n.parent == null {
        PaintNode(tree.nodes, n, Amber);
        CleanedRoot(t, tree.root);
        return;
      }
      PaintNode(tree.nodes, n, if n.Leaf() then Green else Amber);
      n.parent.visited := n.parent.visited - 1;
      ghost var u := View();
      assert u == Paint(t, n, if t[n].children == [] then Green else Amber);
      RepaintedShape(t, u, tree.root);
      CleanTreeBranch(n.parent);
      CleanedStep(t, View(), tree.root, n);
    }

    lemma KnowsParent(n: Node)
      requires n in tree.nodes
      ensures View()[n].parent == Maybe(n.parent) && View()[n].children == n.children
      ensures Shape(View(), tree.root) ==>
                if n.parent == null then n == tree.root
                else n != tree.root && n.parent in tree.nodes && 0 <= View()[n.parent].depth < View()[n].depth
    {
      var t := View();
      assert t[n] == n.Seen();
      if Shape(t, tree.root) {
        assert n != tree.root ==> t[n].parent.Some? && HasParent(t, n);
        assert t[tree.root] == tree.root.Seen();
      }
    }

    /** The crawler that has the page of `n` is one of the team, and has it in its work unit. */
    lemma MayBeTakenBack(n: Node)
      requires n in tree.nodes && n.page != null && n.page.crawler != null
      ensures Sound() ==> n.page.crawler in crawlers && n.page.crawler.Valid() && n.page.url in n.page.crawler.workUnit
      ensures Sound() ==> forall m <- tree.nodes :: m != n ==> m.page != n.page
      ensures View()[n].page == Some(n.page.Kept())
    {
      var t := View();
      assert t[n] == n.Seen() && t[n].Taken();
      if Sound() {
        var c := n.page.crawler;
        assert c in WorkUnits() && WorkUnits()[c] == c.workUnit;
        forall m | m in tree.nodes && m != n ensures m.page != n.page {
          assert t[m] == m.Seen() && t[m].page.Some? ==> t[m].page.value.url != t[n].page.value.url;
        }
      }
    }

    /** Takes the page of `n` back, and says so in terms of the values. */
    method TakeBack(n: Node)
      requires n in tree.nodes && n.page != null && forall m <- tree.nodes :: m != n ==> m.page != n.page
      requires n.page.crawler != null && n.page.crawler in crawlers && n.page.crawler.Valid() && n.page.url in n.page.crawler.workUnit
      modifies n.page`crawler, n.page.crawler`workUnit
      ensures var c := old(n.page.crawler);
              && View() == Unassign(old(View()), n) && WorkUnits() == old(WorkUnits())[c := c.workUnit] && Sorted(c.workUnit)
              && (forall u: nat :: u in c.workUnit <==> u != n.page.url && u in old(n.page.crawler.workUnit))
              && |c.workUnit| == old(|n.page.crawler.workUnit|) - 1
      ensures (old(UnitsFit()) ==> UnitsFit()) && (old(Tabled()) ==> Tabled())
    {
      hide Cells, Units;
      TakePageBack(tree.nodes, Team(), n);
    }

    lemma SoundMeans()
      ensures Sound() ==> Consistent(View(), tree.root, tree.height, WorkUnits()) && Shape(View(), tree.root) && UnitsFit() && Tabled()
      ensures Consistent(View(), tree.root, tree.height, WorkUnits()) && UnitsFit() && Tabled() ==> Sound()
    {
    }

    /** The work unit of `c` has become shorter by one; before that the work units were `units`. */
    lemma OneUnitShrank(units: map<Crawler, seq<nat>>, was: Shift<Crawler>, c: Crawler)
      requires c in crawlers && WorkUnits() == units[c := c.workUnit] && c in units && |c.workUnit| == |units[c]| - 1
      requires was.loads.Keys == units.Keys && (forall d :: d in units ==> was.loads[d] == |units[d]|)
      requires was == State().(loads := was.loads)
      ensures c in was.loads && was.loads[c] > 0 && State() == Lightened(was, c)
    {
      assert forall d <- crawlers :: d in Team() && WorkUnits()[d] == d.workUnit;
      assert State().loads == was.loads[c := was.loads[c] - 1];
    }

    lemma UnitsStand()
      ensures State().loads.Keys == Team() == WorkUnits().Keys && forall d :: d in Team() ==> State().loads[d] == |WorkUnits()[d]|
    {
    }

    /** Takes the page of `n` back from its crawler. */
    method Release(n: Node)
      requires Sound() && Balanced(View(), Weights(), tree.root) && n in tree.nodes && n.page != null && n.page.crawler != null
      modifies n.page`crawler, n.page.crawler`workUnit
      ensures Sound() && Shape(View(), tree.root) && Balanced(View(), Weights(), tree.root)
      ensures var c := old(n.page.crawler);
              && old(View())[n].page.Some? && View() == Unassign(old(View()), n) && Freed(old(Noted(n, n.page.crawler)), Noted(n, c))
              && c in old(State()).loads && old(State()).loads[c] > 0 && State() == Lightened(old(State()), c)
    {
      hide Sound, Consistent, Shape, Unassign, Balanced, UnitsFit, Tabled, OnlineOf, RoomOf, LoadsOf, Lightened, Cells;
      ghost var t, units, c, was := View(), WorkUnits(), n.page.crawler, State();
      SoundMeans();
      UnitsStand();
      MayBeTakenBack(n);
      TakeBack(n);
      OneUnitShrank(units, was, c);
      UnassignConsistent(t, tree.root, tree.height, units, n, c, c.workUnit);
      UnassignSameLinks(t, n);
      BalanceIgnoresPages(t, View(), Weights(), tree.root);
      SoundMeans();
    }

    /** Cleans the branch of `n`, whose page has been taken back since the tree was `t`. */
    method Refresh(n: Node, ghost t: map<Node, Cell<Node, Crawler>>)
      requires Sound() && Balanced(View(), Weights(), tree.root) && n in tree.nodes && n in t && t[n].page.Some?
      requires Shape(t, tree.root) && View() == Unassign(t, n) && Light(tree.nodes)
      modifies tree.nodes`visitState, tree.nodes`visited
      ensures Sound() && Balanced(View(), Weights(), tree.root) && Light(tree.nodes) && Returned(t, View(), tree.root, n)
    {
      hide Sound, Consistent, Shape, Unassign, Balanced, UnitsFit, Tabled, Cleaned, Open, SameLinks, Returned, Light, Cells, Loads, Units;
      ghost var u := View();
      SoundMeans();
      ghost var us, w := WorkUnits(), Weights();
      CleanTreeBranch(n);
      assert UnitsFit() && Tabled() && WorkUnits() == us && Weights() == w;
      CleanedConsistent(u, View(), tree.root, tree.height, WorkUnits(), n);
      BalanceIgnoresPages(u, View(), Weights(), tree.root);
      FreedAndCleaned(t, View(), tree.root, n);
      SoundMeans();
    }

    /** What every operation of the scheduler keeps. */
    ghost predicate Steady()
      reads tree`nodes, tree`height, tree.nodes`parent, tree.nodes`children, tree.nodes`visitState
      reads tree.nodes`pathIdx, tree.nodes`childIdx, tree.nodes`page, (set n <- tree.nodes :: n.page)`crawler
      reads this`crawlers, Team()`workUnit, this`pageTable, tree.nodes`current, tree.nodes`minimum, tree.nodes`reviser
      reads (set n <- tree.nodes :: n.page)`links, (set n <- tree.nodes :: n.page)`crawlCount, tree`inserted
    {
      && Sound() && QueuedOnce() && Balanced(View(), Weights(), tree.root) && Light(tree.nodes) && Priced(tree.nodes)
      && Spelling()
    }

    /**
      A scheduling run: each crawler in turn is given pages until it is full or none is left.
      Returns how many pages were assigned, and which crawlers have more to do.
     */
    method Run() returns (k: nat, deferred: seq<Crawler>, ghost n: Node?, ghost moments: seq<Moment<Node, Crawler>>, ghost shares: seq<Share<Node, Crawler>>)
      requires Steady()
      modifies tree.nodes`visitState, tree.nodes`visited, this`pageTable, (set m <- tree.nodes :: m.page)`crawler
      modifies this`crawlers, Team()`workUnit
      ensures Steady() && Team() == old(Team()) && Claimed(old(View()), View(), k)
      ensures Ran(old(State()), old(crawlers), State(), crawlers, k, deferred, tree.root.visitState == Red)
      ensures old(tree.root.visitState) == Red ==> k == 0 && tree.root.visitState == Red
      ensures Scale() == old(Scale()) && |shares| == |old(crawlers)|
      ensures Course(old(Now(null)), Now(n), Scale(), tree.root, moments, shares)
    {
      hide Sound, QueuedOnce, Balanced, Light, Claimed, Ran, Loads, Priced, Standing, SpellsClosure, Cells, Course, WeightsOf;
      ghost var t, w := View(), Weights();
      k, deferred, n, moments, shares := FillAll();
      assert Weights() == w && Light(tree.nodes) && Priced(tree.nodes);
      ClaimedBalance(t, w, k);
    }

    lemma ClaimedBalance(t: map<Node, Cell<Node, Crawler>>, w: map<Node, real>, k: int)
      ensures Claimed(t, View(), k) && Balanced(t, w, tree.root) ==> Balanced(View(), w, tree.root)
      ensures Claimed(t, View(), k) && SpellsClosure(t, tree.root, tree.inserted) ==> Spelling()
    {
      BalanceIgnoresPages(t, View(), w, tree.root);
      StillSpelling(t);
    }

    /** No other node has the page of `n`. */
    ghost predicate OwnPage(n: Node)
      reads tree`nodes, tree.nodes`page, n`page
    {
      forall m <- tree.nodes :: m != n && m.page != null ==> m.page != n.page
    }

    lemma PagesApart(n: Node)
      requires n in tree.nodes && n.page != null
      ensures Sound() ==> OwnPage(n)
    {
    }

    /** Writes down that the page has been crawled. */
    method CountCrawl(n: Node, time: int)
      requires n.page != null && OwnPage(n) && PricedBut(tree.nodes, n)
      modifies n.page`lastCrawl, n.page`crawlCount
      ensures n.page.crawlCount == old(n.page.crawlCount) + 1 && n.page.lastCrawl == time && PricedBut(tree.nodes, n)
    {
      n.page.lastCrawl := time;
      n.page.crawlCount := n.page.crawlCount + 1;
    }

    lemma TableLeadsToNodes(id: nat)
      ensures Steady() && id in pageTable ==> pageTable[id] in tree.nodes
    {
    }

    /** Counts the crawl and weighs the branch of `n` anew. */
    method Reassess(n: Node, time: int, ghost c: Crawler)
      requires Sound() && Shape(View(), tree.root) && Balanced(View(), Weights(), tree.root) && Light(tree.nodes)
      requires n in tree.nodes && n.page != null && Priced(tree.nodes)
      modifies n.page`lastCrawl, n.page`crawlCount
      modifies tree.nodes`current, tree.nodes`previous, tree.nodes`minimum, tree.nodes`reviser
      ensures Sound() && View() == old(View()) && Balanced(View(), Weights(), tree.root) && Light(tree.nodes) && Priced(tree.nodes)
      ensures Recounted(old(Noted(n, c)), Noted(n, c), time)
    {
      hide Sound, Consistent, Shape, Balanced, UnitsFit, Tabled, Light, Loads, Cells, Priced, PricedBut, OwnPage;
      ghost var t, w, us := View(), Weights(), WorkUnits();
      SoundMeans();
      PagesApart(n);
      PricedAfterAll(tree.nodes, n);
      CountCrawl(n, time);
      assert View() == t && Weights() == w && Light(tree.nodes);
      WeighTreeBranch(n);
      ScoreWeighed(n);
      assert UnitsFit() && Tabled() && WorkUnits() == us;
      SoundMeans();
    }

    /** Takes the page back and weighs its branch. */
    method Recrawl(n: Node, time: int)
      requires Sound() && Balanced(View(), Weights(), tree.root) && Light(tree.nodes) && Priced(tree.nodes)
      requires n in tree.nodes && n.page != null && n.page.crawler != null
      modifies n.page, n.page.crawler`workUnit
      modifies tree.nodes`current, tree.nodes`previous, tree.nodes`minimum, tree.nodes`reviser
      ensures Sound() && Balanced(View(), Weights(), tree.root) && Light(tree.nodes) && Priced(tree.nodes)
      ensures Crawled(old(Noted(n, n.page.crawler)), Noted(n, old(n.page.crawler)), time)
      ensures old(View())[n].page.Some? && View() == Unassign(old(View()), n)
      ensures var c := old(n.page.crawler); c in old(State()).loads && old(State()).loads[c] > 0 && State() == Lightened(old(State()), c)
    {
      hide Sound, Consistent, Shape, Unassign, Balanced, Tabled, Light, Loads, Freed, Recounted, Crawled, Weighed, Noted, Priced, Standing, Lightened;
      ghost var c, before := n.page.crawler, Noted(n, n.page.crawler);
      RecordWeighed(n, c);
      Release(n);
      assert Light(tree.nodes) && Priced(tree.nodes);
      ghost var between := Noted(n, c);
      Reassess(n, time, c);
      FreedAndRecounted(before, between, Noted(n, c), time);
    }

    lemma RecordWeighed(n: Node, c: Crawler)
      requires n in tree.nodes && n.page != null
      ensures Priced(tree.nodes) ==> Weighed(Noted(n, c).score)
    {
      PageWeighed(n);
    }

    lemma PageWeighed(n: Node)
      requires n in tree.nodes && n.page != null
      ensures Priced(tree.nodes) ==> Weighed(Scored(n))
    {
      ScoreWeighed(n);
    }

    /** The page of `n` has been crawled: it waits for a crawler again. */
    method Update(n: Node, time: int)
      requires Steady() && n in tree.nodes && n.page != null && n.page.crawler != null
      modifies n.page, n.page.crawler`workUnit
      modifies tree.nodes`current, tree.nodes`previous, tree.nodes`minimum, tree.nodes`reviser, tree.nodes`visitState, tree.nodes`visited
      ensures Steady() && Returned(old(View()), View(), tree.root, n)
      ensures var c := old(n.page.crawler);
              && c in old(State()).loads && old(State()).loads[c] > 0 && State() == Lightened(old(State()), c)
              && Crawled(old(Noted(n, n.page.crawler)), Noted(n, c), time)
    {
      hide Sound, QueuedOnce, Consistent, Shape, Unassign, Balanced, Tabled, Returned, Light, Loads, Noted, Crawled, Priced, Standing, Lightened, Cells, SpellsClosure;
      ghost var t, c := View(), n.page.crawler;
      SoundMeans();
      Recrawl(n, time);
      ghost var record, standing := Noted(n, c), State();
      Refresh(n, t);
      assert Noted(n, c) == record && State() == standing;
      ReturnedSpelling(t, n);
    }

    lemma ReturnedSpelling(t: map<Node, Cell<Node, Crawler>>, n: Node)
      ensures Returned(t, View(), tree.root, n) && SpellsClosure(t, tree.root, tree.inserted) ==> Spelling()
    {
      StillSpelling(t);
    }

    /** The page with this id, which some crawler had, has been crawled. */
    method UpdateNode(id: nat, time: int)
      requires Steady() && id in pageTable && pageTable[id].page != null && pageTable[id].page.crawler != null
      modifies pageTable[id].page, pageTable[id].page.crawler`workUnit
      modifies tree.nodes`current, tree.nodes`previous, tree.nodes`minimum, tree.nodes`reviser, tree.nodes`visitState, tree.nodes`visited
      ensures Steady() && Returned(old(View()), View(), tree.root, pageTable[id])
      ensures var c := old(pageTable[id].page.crawler);
              && c in old(State()).loads && old(State()).loads[c] > 0 && State() == Lightened(old(State()), c)
              && Crawled(old(Noted(pageTable[id], pageTable[id].page.crawler)), Noted(pageTable[id], c), time)
    {
      TableLeadsToNodes(id);
      hide *;
      Update(pageTable[id], time);
    }

    // ----- A URL is scheduled -----

    /** New nodes have no weight; the others have the weights they had. */
    lemma NewAreWeightless(w: map<Node, real>, ns: seq<Node>)
      ensures tree.nodes == w.Keys + (set n | n in ns) && (forall n <- ns :: n !in w) && AllBlank(tree.nodes - w.Keys) && Loads(w.Keys) == w ==>
                Weights() == Weightless(w, ns)
    {
      if tree.nodes == w.Keys + (set n | n in ns) && AllBlank(tree.nodes - w.Keys) && Loads(w.Keys) == w {
        assert forall n <- ns :: n in tree.nodes;
        assert forall m <- w :: Loads(w.Keys)[m] == m.current;
      }
    }

    /** New nodes have no page. */
    lemma StillTabled(nodes: set<Node>)
      ensures nodes <= tree.nodes && TabledAmong(nodes) && AllBlank(tree.nodes - nodes) ==> Tabled()
    {
      if AllBlank(tree.nodes - nodes) {
        assert forall n <- tree.nodes :: n in nodes || (n in tree.nodes - nodes && Blank(n));
      }
    }

    lemma StillPriced(nodes: set<Node>)
      ensures nodes <= tree.nodes && Priced(nodes) && AllBlank(tree.nodes - nodes) ==> Priced(tree.nodes)
    {
      if AllBlank(tree.nodes - nodes) {
        assert forall n <- tree.nodes :: n in nodes || (n in tree.nodes - nodes && Blank(n));
      }
    }

    /** No node of `t` has a negative weight, and those that were leaves have no reviser. */
    ghost predicate LightIn(t: map<Node, Cell<Node, Crawler>>)
      reads t.Keys`current, t.Keys`minimum, t.Keys`reviser
    {
      forall m <- t.Keys :: m.current >= 0.0 && m.minimum == 0.0 && (t[m].children == [] ==> m.reviser == null)
    }

    lemma LightOnLeaves()
      ensures Light(tree.nodes) ==> LightIn(View())
    {
    }

    /** New nodes have no weight, and those that were there have no fewer children. */
    lemma StillLight(t: map<Node, Cell<Node, Crawler>>)
      ensures Extends(t, View()) && AllBlank(tree.nodes - t.Keys) && LightIn(t) ==> Light(tree.nodes)
    {
      if Extends(t, View()) && AllBlank(tree.nodes - t.Keys) && LightIn(t) {
        forall m | m in tree.nodes ensures m.current >= 0.0 && m.minimum == 0.0 && (m.children == [] ==> m.reviser == null) {
          assert View()[m] == m.Seen() && (m in t || (m in tree.nodes - t.Keys && Blank(m)));
        }
      }
    }

    /** No other page has this id: ids are injective on the URLs. */
    static ghost predicate IdFree(nodes: set<Node>, id: nat)
      reads nodes`page
    {
      forall m <- nodes :: m.page != null ==> m.page.id != id
    }

    lemma StillFree(nodes: set<Node>, id: nat)
      ensures nodes <= tree.nodes && AllBlank(tree.nodes - nodes) && IdFree(nodes, id) ==> IdFree(tree.nodes, id)
    {
      if AllBlank(tree.nodes - nodes) {
        assert forall n <- tree.nodes :: n in nodes || (n in tree.nodes - nodes && Blank(n));
      }
    }

    /** Inserts the path; the new nodes are blank. */
    method Plant(path: seq<string>) returns (n: Node, ghost at: Node, ghost ns: seq<Node>)
      requires tree.Valid() && Light(tree.nodes) && Tabled() && Priced(tree.nodes) && Spelling()
      modifies tree, tree.nodes`children
      ensures Spelling() && tree.inserted == old(tree.inserted) + {path} && Pages() == old(Pages())
      ensures tree.Valid() && n in tree.nodes && n == Tip(at, ns) && fresh(tree.nodes - old(tree.nodes)) && old(tree.nodes) <= tree.nodes
      ensures Grown(old(View()), View(), tree.root, path, at, ns)
      ensures Weights() == Weightless(old(Weights()), ns) && Light(tree.nodes) && Tabled() && Priced(tree.nodes)
      ensures ns != [] ==> n.page == null && n !in old(tree.nodes)
      ensures AllBlank(tree.nodes - old(tree.nodes))
    {
      hide Links, Siblings, NoDeeper, Grown, Spell, AllBlank, TabledAmong, Priced, Light, LightIn, Extends, Loads, Cells, SpellsClosure, PagesOf;
      ghost var t, w := View(), Weights();
      LightOnLeaves();
      n, at, ns := tree.Insert(path);
      assert TabledAmong(t.Keys) && Priced(t.Keys) && Loads(w.Keys) == w && LightIn(t) && PagesOf(t.Keys) == old(Pages());
      StillTabled(t.Keys);
      StillPriced(t.Keys);
      GrownExtends(t, View(), tree.root, path, at, ns);
      StillLight(t);
      NewAreWeightless(w, ns);
      NewIsBlank(old(tree.nodes), n);
      NoNewPages(t.Keys);
    }

    lemma NoNewPages(nodes: set<Node>)
      ensures nodes <= tree.nodes && AllBlank(tree.nodes - nodes) ==> Pages() == PagesOf(nodes)
    {
      if nodes <= tree.nodes && AllBlank(tree.nodes - nodes) {
        assert forall n <- tree.nodes :: n in nodes || (n in tree.nodes - nodes && Blank(n));
      }
    }

    lemma NewIsBlank(nodes: set<Node>, n: Node)
      requires n in tree.nodes
      ensures AllBlank(tree.nodes - nodes) && n !in nodes ==> n.page == null
    {
      assert n !in nodes ==> n in tree.nodes - nodes;
    }

    /** Gives a page to a node that has none. */
    method PutPage(n: Node, page: PageData)
      requires n in tree.nodes && n.page == null && page.crawler == null && Tabled() && IdFree(tree.nodes, page.id) && Priced(tree.nodes)
      modifies n`page
      ensures View() == GivePage(old(View()), n, page.url) && Tabled() && n.page == page && PricedBut(tree.nodes, n)
      ensures Pages() == old(Pages()) + {page}
    {
      n.page := page;
    }

    lemma SoundTree()
      ensures Sound() ==> tree.Valid() && Links(View(), tree.root)
    {
    }

    /** A path has been inserted since the tree was `t`; its last node may not have its page yet. */
    ghost predicate Planted(t: map<Node, Cell<Node, Crawler>>, w: map<Node, real>, us: map<Crawler, seq<nat>>, h: nat,
                            path: seq<string>, at: Node, ns: seq<Node>, url: nat)
      reads tree`nodes, tree`height, tree.nodes`parent, tree.nodes`children, tree.nodes`visitState
      reads tree.nodes`pathIdx, tree.nodes`childIdx, tree.nodes`page, (set n <- tree.nodes :: n.page)`crawler
      reads this`crawlers, Team()`workUnit, this`pageTable, tree.nodes`current, tree.nodes`minimum, tree.nodes`reviser
      reads (set n <- tree.nodes :: n.page)`links, (set n <- tree.nodes :: n.page)`crawlCount, tree`inserted
    {
      && Spelling() && Growing(t, View(), w, tree.root, h, tree.height, us, path, at, ns, url)
      && Weights() == Weightless(w, ns) && WorkUnits() == us && Light(tree.nodes) && UnitsFit() && Tabled() && Priced(tree.nodes)
    }

    /** When the path was there its node has a page; otherwise it has not, and the id is free. */
    lemma PlantedEnds(t: map<Node, Cell<Node, Crawler>>, w: map<Node, real>, us: map<Crawler, seq<nat>>, h: nat,
                      path: seq<string>, at: Node, ns: seq<Node>, url: nat, n: Node)
      requires n in tree.nodes && n == Tip(at, ns)
      ensures Planted(t, w, us, h, path, at, ns, url) ==> (ns == [] ==> n.page != null) && Links(t, tree.root) && (Spelt(t, tree.root, path) ==> ns == [])
    {
      if Planted(t, w, us, h, path, at, ns, url) {
        assert View()[n] == n.Seen();
        FitsAt(t, View(), tree.root, path, at, ns);
        if Spelt(t, tree.root, path) {
          SpeltNeedsNoNode(t, View(), tree.root, path, at, ns);
        }
      }
    }

    /** Inserts the path of a URL that is to have the page with this address and id. */
    method PlantFor(path: seq<string>, url: nat, id: nat) returns (n: Node, ghost at: Node, ghost ns: seq<Node>)
      requires Sound() && Links(View(), tree.root) && Balanced(View(), Weights(), tree.root) && Light(tree.nodes) && Priced(tree.nodes)
      requires Fits(View(), tree.root, path) && NewUrl(View(), WorkUnits(), url) && (!Spelt(View(), tree.root, path) ==> IdFree(tree.nodes, id))
      requires Spelling()
      modifies tree, tree.nodes`children
      ensures tree.inserted == old(tree.inserted) + {path} && Pages() == old(Pages())
      ensures Planted(old(View()), old(Weights()), old(WorkUnits()), old(tree.height), path, at, ns, url)
      ensures n == Tip(at, ns) && n in tree.nodes && fresh(tree.nodes - old(tree.nodes))
      ensures if ns == [] then n.page != null else n.page == null && n !in old(tree.nodes) && IdFree(tree.nodes, id)
    {
      hide Consistent, Links, Siblings, NoDeeper, Grown, Spell, Spelt, UnitsFit, TabledAmong, Balanced, Fits, NewUrl, Light, IdFree, AllBlank, Priced, Loads, Cells, SpellsClosure, PagesOf;
      ghost var t, w, us, h := View(), Weights(), WorkUnits(), tree.height;
      SoundTree();
      SoundMeans();
      n, at, ns := Plant(path);
      StillFree(t.Keys, id);
      assert WorkUnits() == us && UnitsFit();
      PlantedEnds(t, w, us, h, path, at, ns, url, n);
    }

    /** The path was there: nothing has changed. */
    lemma PlantedOld(t: map<Node, Cell<Node, Crawler>>, w: map<Node, real>, us: map<Crawler, seq<nat>>, h: nat,
                     path: seq<string>, at: Node, url: nat)
      ensures Planted(t, w, us, h, path, at, [], url) ==>
                && Sound() && Shape(View(), tree.root) && Balanced(View(), Weights(), tree.root) && Light(tree.nodes) && Priced(tree.nodes)
                && Spelling() && Links(t, tree.root) && Scheduled(t, View(), tree.root, path, at, [], url)
    {
      OldPageFound(t, View(), w, tree.root, h, tree.height, us, path, at, url);
    }

    lemma PagePutSpelling(u: map<Node, Cell<Node, Crawler>>, n: Node, url: nat)
      requires n in u
      ensures SpellsClosure(u, tree.root, tree.inserted) && View() == GivePage(u, n, url) ==> Spelling()
    {
      SameNodesKeepClosure(u, View(), tree.root, tree.inserted);
    }

    /** The new page completes the tree. */
    method PutNewPage(n: Node, page: PageData, ghost t: map<Node, Cell<Node, Crawler>>, ghost w: map<Node, real>, ghost us: map<Crawler, seq<nat>>,
                      ghost h: nat, ghost path: seq<string>, ghost at: Node, ghost ns: seq<Node>)
      requires Planted(t, w, us, h, path, at, ns, page.url) && n in tree.nodes && ns != [] && n == Tip(at, ns)
      requires n.page == null && page.crawler == null && IdFree(tree.nodes, page.id)
      modifies n`page
      ensures Sound() && Shape(View(), tree.root) && Balanced(View(), Weights(), tree.root) && Light(tree.nodes) && n.page == page
      ensures PricedBut(tree.nodes, n) && Spelling() && Pages() == old(Pages()) + {page}
      ensures Links(t, tree.root) && Scheduled(t, View(), tree.root, path, at, ns, page.url)
    {
      hide Growing, UnitsFit, TabledAmong, Balanced, Scheduled, Light, Shape, GivePage, Links, IdFree, Weightless, Consistent, Priced, PricedBut, SpellsClosure;
      ghost var u := View();
      PutPage(n, page);
      assert UnitsFit() && WorkUnits() == us && Weights() == Weightless(w, ns) && Light(tree.nodes);
      NewPageSeeded(t, u, w, tree.root, h, tree.height, us, path, at, ns, page.url);
      PagePutSpelling(u, n, page.url);
      SoundMeans();
    }

    /** Sees to it that the node of the path has a page, if need be the new one. */
    method Seat(path: seq<string>, page: PageData) returns (n: Node, ghost at: Node, ghost ns: seq<Node>)
      requires Sound() && Links(View(), tree.root) && Balanced(View(), Weights(), tree.root) && Light(tree.nodes)
      requires Priced(tree.nodes) && Spelling() && page.crawler == null
      requires Fits(View(), tree.root, path) && NewUrl(View(), WorkUnits(), page.url)
      requires !Spelt(View(), tree.root, path) ==> IdFree(tree.nodes, page.id)
      modifies tree, tree.nodes`children
      ensures Sound() && Shape(View(), tree.root) && Balanced(View(), Weights(), tree.root) && Light(tree.nodes) && PricedBut(tree.nodes, n)
      ensures Spelling() && tree.inserted == old(tree.inserted) + {path} && Pages() <= old(Pages()) + {page}
      ensures Links(old(View()), tree.root) && Scheduled(old(View()), View(), tree.root, path, at, ns, page.url)
      ensures n == Tip(at, ns) && n in tree.nodes && fresh(tree.nodes - old(tree.nodes)) && n.page != null
      ensures if ns == [] then n in old(tree.nodes) && Weighed(Scored(n)) else n.page == page
    {
      hide Sound, Balanced, Light, Planted, Shape, Scheduled, Fits, NewUrl, Spelt, IdFree, Links, Loads, Priced, PricedBut, SpellsClosure, PagesOf;
      ghost var t, w, us, h := View(), Weights(), WorkUnits(), tree.height;
      n, at, ns := PlantFor(path, page.url, page.id);
      if n.page == null {
        PutNewPage(n, page, t, w, us, h, path, at, ns);
      } else {
        PlantedOld(t, w, us, h, path, at, page.url);
        PricedAfterAll(tree.nodes, n);
        PageWeighed(n);
      }
    }

    method CountLink(n: Node)
      requires n.page != null && OwnPage(n) && PricedBut(tree.nodes, n)
      modifies n.page`links
      ensures n.page.links == old(n.page.links) + 1 && PricedBut(tree.nodes, n)
    {
      n.page.links := n.page.links + 1;
    }

    /** Weighs the branch of `n` anew, once a link to its page has been counted unless it is a seed. */
    method Rate(n: Node, fromSeed: bool)
      requires Sound() && Shape(View(), tree.root) && Balanced(View(), Weights(), tree.root) && Light(tree.nodes)
      requires n in tree.nodes && n.page != null && PricedBut(tree.nodes, n)
      modifies n.page`links, tree.nodes`current, tree.nodes`previous, tree.nodes`minimum, tree.nodes`reviser
      ensures Sound() && View() == old(View()) && Balanced(View(), Weights(), tree.root) && Light(tree.nodes) && Priced(tree.nodes)
      ensures n.page.links == old(n.page.links) + if fromSeed then 0 else 1
      ensures old(Weighed(Scored(n))) ==> Linked(old(Scored(n)), Scored(n), if fromSeed then 0 else 1)
      ensures n.page.crawlCount == 0 ==> n.current == n.page.epoch as real * (n.page.links + 1) as real
    {
      hide Sound, Consistent, Shape, Balanced, UnitsFit, Tabled, Light, Loads, Cells, Priced, PricedBut, OwnPage, Weighed, Linked;
      ghost var t, w, us, before := View(), Weights(), WorkUnits(), Scored(n);
      SoundMeans();
      PagesApart(n);
      if !fromSeed {
        CountLink(n);
      }
      ghost var k := n.page.links;
      assert View() == t && Weights() == w && Light(tree.nodes);
      WeighTreeBranch(n);
      PageWeighed(n);
      LinksCount(before, Scored(n), if fromSeed then 0 else 1);
      assert UnitsFit() && Tabled() && WorkUnits() == us;
      SoundMeans();
    }

    /** Makes the page and inserts it, unless the URL has one already. */
    method Enter(path: seq<string>, url: nat, id: nat, epoch: nat) returns (n: Node, ghost at: Node, ghost ns: seq<Node>)
      requires Steady() && Links(View(), tree.root) && Fits(View(), tree.root, path) && NewUrl(View(), WorkUnits(), url)
      requires !Spelt(View(), tree.root, path) ==> IdFree(tree.nodes, id)
      modifies tree, tree.nodes`children
      ensures Sound() && QueuedOnce() && Shape(View(), tree.root) && Balanced(View(), Weights(), tree.root) && Light(tree.nodes)
      ensures PricedBut(tree.nodes, n) && Links(old(View()), tree.root)
      ensures Spelling() && tree.inserted == old(tree.inserted) + {path} && fresh(Pages() - old(Pages()))
      ensures Scheduled(old(View()), View(), tree.root, path, at, ns, url)
      ensures n == Tip(at, ns) && n in tree.nodes && n.page != null && fresh(tree.nodes - old(tree.nodes))
      ensures ns != [] ==> fresh(n.page) && n.page.id == id && n.page.epoch == epoch && n.page.links == 0 && n.page.crawlCount == 0
      ensures ns == [] ==> n in old(tree.nodes) && n.page == old(n.page) && Weighed(Scored(n))
    {
      hide Sound, Balanced, Light, Shape, Scheduled, Fits, NewUrl, Spelt, IdFree, Links, Loads, QueuedOnce, Priced, PricedBut, SpellsClosure, PagesOf, Cells, Units;
      var page := new PageData(url, id, epoch);
      n, at, ns := Seat(path, page);
    }

    /**
      Schedules a URL, given by its path in the tree, the address and id its page is to have, and
      the time. The ghost results say where the new nodes are, if there are any.
     */
    method Schedule(path: seq<string>, url: nat, id: nat, epoch: nat, fromSeed: bool)
      returns (scheduled: nat, n: Node, ghost at: Node, ghost ns: seq<Node>)
      requires Steady() && Links(View(), tree.root) && Fits(View(), tree.root, path) && NewUrl(View(), WorkUnits(), url)
      requires !Spelt(View(), tree.root, path) ==> IdFree(tree.nodes, id)
      modifies tree, tree.nodes`children, (set m <- tree.nodes :: m.page)`links
      modifies tree.nodes`current, tree.nodes`previous, tree.nodes`minimum, tree.nodes`reviser
      ensures Steady() && Links(old(View()), tree.root) && Scheduled(old(View()), View(), tree.root, path, at, ns, url)
      ensures n == Tip(at, ns) && n in tree.nodes && n.page != null && n.page.id == scheduled
      ensures tree.inserted == old(tree.inserted) + {path} && fresh(tree.nodes - old(tree.nodes)) && fresh(Pages() - old(Pages()))
      ensures ns != [] ==> scheduled == id && n.page.epoch == epoch && n.page.links == (if fromSeed then 0 else 1) && fresh(n.page)
      ensures ns != [] ==> n.page.crawlCount == 0 && n.current == epoch as real * (n.page.links + 1) as real
      ensures ns == [] ==> n in old(tree.nodes) && n.page == old(n.page) && Linked(old(Scored(n)), Scored(n), if fromSeed then 0 else 1)
    {
      hide Sound, Balanced, Light, Shape, Scheduled, Fits, NewUrl, Spelt, IdFree, Links, Loads, QueuedOnce, Priced, PricedBut, SpellsClosure, PagesOf, Cells, Units, Weighed, Scored, Linked;
      n, at, ns := Enter(path, url, id, epoch);
      Rate(n, fromSeed);
      scheduled := n.page.id;
    }

    // ----- What this comes to -----

    /** A run that exhausts the tree leaves no page without a crawler, if no Red node hid one before. */
    lemma ExhaustedMeansAllAssigned(t: map<Node, Cell<Node, Crawler>>, k: int)
      requires Steady() && Settled(t) && Claimed(t, View(), k) && tree.root.visitState == Red
      ensures Settled(View()) && forall n <- tree.nodes :: n.page != null ==> n.page.crawler != null
    {
      var u := View();
      assert u[tree.root] == tree.root.Seen();
      RedRootMeansAllAssigned(u, tree.root);
      forall n | n in tree.nodes && n.page != null ensures n.page.crawler != null {
        assert u[n] == n.Seen();
      }
    }

    /** A run that finds the root alone gives nothing, and turns the root Red if any crawler could take on more. */
    lemma NothingToGive(t: map<Node, Cell<Node, Crawler>>, s0: Shift<Crawler>, q0: seq<Crawler>, k: nat, deferred: seq<Crawler>)
      requires Shape(t, tree.root) && t.Keys == {tree.root} && Claimed(t, View(), k)
      requires Ran(s0, q0, State(), crawlers, k, deferred, tree.root.visitState == Red)
      ensures k == 0 && State() == s0 && (Settled(t) ==> Settled(View()))
      ensures Conserving(s0, q0) && Waiting(s0) != {} ==> tree.root.visitState == Red
    {
      NoPageToClaim(t, View(), tree.root, k);
      NothingGiven(s0, q0, State(), crawlers, deferred, tree.root.visitState == Red);
    }

    lemma RootHasNoPage()
      requires Steady()
      ensures Shape(View(), tree.root) && Siblings(View(), tree.root) && tree.root in tree.nodes && tree.root.page == null
    {
      assert View()[tree.root] == tree.root.Seen();
    }

    predicate Idle()
      reads this`crawlers, crawlers`workUnit
    {
      forall c <- crawlers :: c.workUnit == []
    }

    /** A crawler alone in the queue keeps no other from being served. */
    lemma OneWaits(c: Crawler)
      requires crawlers == [c] && c.online && c.workUnit == [] && c.MaxUnitSize() > 0
      ensures Idle() && Team() == {c} && Valid(State()) && Known(State(), crawlers) && Conserving(State(), crawlers) && Waiting(State()) == {c}
    {
    }

    lemma IdleMeansNoLoads()
      ensures Idle() <==> forall x <- State().loads.Values :: x == 0
    {
      assert forall c <- crawlers :: State().loads[c] == |c.workUnit| && State().loads[c] in State().loads.Values;
    }

    /** To the root alone any path may be added. */
    lemma FitsRootAlone(path: seq<string>, url: nat, id: nat)
      requires Steady() && tree.nodes == {tree.root} && path != [] && Idle()
      ensures Links(View(), tree.root) && Fits(View(), tree.root, path) && !Spelt(View(), tree.root, path)
      ensures NewUrl(View(), WorkUnits(), url) && IdFree(tree.nodes, id)
    {
      RootHasNoPage();
      assert View()[tree.root] == tree.root.Seen();
      assert Spell(View(), tree.root, tree.root) == [];
      assert forall m :: m in View() <==> m in {tree.root};
    }

    /** What scheduling a new URL under a Red root comes to. */
    ghost predicate HiddenSeed(t: map<Node, Cell<Node, Crawler>>, path: seq<string>, at: Node, ns: seq<Node>, url: nat)
      requires Links(t, tree.root) && tree.root in t
      reads tree`nodes, tree.nodes`parent, tree.nodes`children, tree.nodes`visitState
      reads tree.nodes`pathIdx, tree.nodes`childIdx, tree.nodes`page, (set n <- tree.nodes :: n.page)`crawler
    {
      && Shape(t, tree.root) && Siblings(t, tree.root) && Settled(t) && t[tree.root].colour == Red && Fits(t, tree.root, path)
      && !Spelt(t, tree.root, path) && Scheduled(t, View(), tree.root, path, at, ns, url)
    }

    /** Under a Red root the page of the new node is free, and the root stays Red. */
    lemma NewPageHidden(t: map<Node, Cell<Node, Crawler>>, path: seq<string>, at: Node, ns: seq<Node>, url: nat, n: Node)
      requires Links(t, tree.root) && n in tree.nodes && n.page != null && n == Tip(at, ns)
      ensures HiddenSeed(t, path, at, ns, url) ==> View()[n].Free() && n.page.crawler == null && n.page.url == url && tree.root.visitState == Red
    {
      assert View()[n] == n.Seen();
      if HiddenSeed(t, path, at, ns, url) {
        RedRootHidesNewPages(t, View(), tree.root, path, at, ns, url);
        assert View()[tree.root] == tree.root.Seen();
      }
    }

    /** Where no page was given, a free page has no crawler. */
    lemma StillNotGiven(t: map<Node, Cell<Node, Crawler>>, n: Node)
      requires n in tree.nodes && n in t && n.page != null
      ensures t[n].Free() && Claimed(t, View(), 0) ==> n.page.crawler == null
    {
      assert View()[n] == n.Seen();
      FreeUnlessClaimed(t, View(), n);
    }

    /** What each page is worth now. */
    ghost function Worths(): (w: map<Node, real>)
      reads tree`nodes, tree.nodes`page, (set n <- tree.nodes :: n.page)`links, (set n <- tree.nodes :: n.page)`crawlCount
      ensures w.Keys == tree.nodes
    {
      map n | n in tree.nodes :: if n.page == null then 0.0 else n.page.Worth()
    }

    /** The weight kept at a node below the root is what the pages below it are worth, added up. */
    lemma WeightIsWorthBelow(n: Node)
      requires Steady() && n in tree.nodes && n != tree.root
      ensures Links(View(), tree.root) && NoDeeper(View(), tree.height)
      ensures n.current == LeafSum(View(), Worths(), tree.root, tree.height, n)
    {
      var t, w := View(), Weights();
      LeavesArePriced();
      hide Links, NoDeeper, Siblings, LeafSum, Balanced, Agreed, Shape;
      BalancedMeansLeafSums(t, w, tree.root, tree.height, n);
      LeavesDecide(t, w, Worths(), tree.root, tree.height, n);
    }

    /** Children are compared by what the pages below them are worth, over the number of their children and one more. */
    lemma ScaleMeans(n: Node)
      requires Steady() && n in tree.nodes && n != tree.root
      ensures Links(View(), tree.root) && NoDeeper(View(), tree.height)
      ensures Scale()[n] == normalise(LeafSum(View(), Worths(), tree.root, tree.height, n) / (|n.children| + 1) as real, 0.0)
    {
      WeightIsWorthBelow(n);
      hide Sound, Spelling, Balanced, Priced, LeafSum, Links, NoDeeper;
      assert n.minimum == 0.0 && Scale()[n] == n.Weight(normalise);
    }

    /**
      With the program's formula the lighter of two pages beside each other goes first, so that links make a page wait, and crawls
      bring it forward: the opposite of what the comment on calculate_weight wants.
     */
    lemma LighterFirst(sqrt: real -> real, m: Node, c: Node)
      requires Steady() && m in tree.nodes && c in tree.nodes && m.page != null && c.page != null
      requires IsRoot(sqrt) && forall w, x :: normalise(w, x) == Normalise(sqrt, w, x)
      ensures Scale()[c] <= Scale()[m] <==> m.current <= c.current
    {
      hide Sound, Balanced, Spelling, QueuedOnce, Priced, Light, IsRoot, Normalise, Scale;
      PageIsLeaf(m);
      PageIsLeaf(c);
      SoundMeans();
      LeafOnScale(m);
      LeafOnScale(c);
      NormaliseReverses(sqrt, m.current, c.current);
      NormaliseReverses(sqrt, c.current, m.current);
    }

    lemma LeafOnScale(m: Node)
      requires m in tree.nodes && m.children == []
      ensures Light(tree.nodes) ==> Scale()[m] == normalise(m.current, 0.0) && m.current >= 0.0
    {
      assert Scale()[m] == m.Weight(normalise);
      assert m.current / 1.0 == m.current;
    }

    lemma LeavesArePriced()
      requires Shape(View(), tree.root) && Priced(tree.nodes)
      ensures forall m {:trigger View()[m].children} :: m in tree.nodes && m != tree.root && View()[m].children == [] ==> Weights()[m] == Worths()[m]
    {
      forall m | m in tree.nodes && m != tree.root && View()[m].children == [] ensures Weights()[m] == Worths()[m] {
        assert View()[m] == m.Seen() && View()[m].page.Some?;
      }
    }
  }
}
