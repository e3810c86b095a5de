/** What comes of a run that finds no page: programs that use the scheduler. */
module EarlyRuns {
  import opened Traversal
  import opened Tries
  import opened Seeding
  import opened Weights
  import opened Schedules
  import opened Ranking
  import opened Queues
  import opened Runs
  import opened Nodes
  import opened UrlTrees
  import opened Schedulers

  /**
    A URL is scheduled when the root is Red already: the runs after that, however many, give its page
    to no crawler.
   */
  method SeedUnderRedRoot(s: Scheduler, path: seq<string>, url: nat, id: nat, epoch: nat, fromSeed: bool, runs: nat)
    returns (n: Node, k: nat)
    requires s.Steady() && Links(s.View(), s.tree.root) && Settled(s.View()) && s.tree.root.visitState == Red
    requires Fits(s.View(), s.tree.root, path) && !Spelt(s.View(), s.tree.root, path)
    requires NewUrl(s.View(), s.WorkUnits(), url) && s.IdFree(s.tree.nodes, id)
    modifies s.tree, s.tree.nodes`children, (set m <- s.tree.nodes :: m.page)`links
    modifies s.tree.nodes`current, s.tree.nodes`previous, s.tree.nodes`minimum, s.tree.nodes`reviser
    modifies s.tree.nodes`visitState, s.tree.nodes`visited, s`pageTable, (set m <- s.tree.nodes :: m.page)`crawler
    modifies s`crawlers, s.Team()`workUnit
    ensures s.Steady() && k == 0 && s.tree.root.visitState == Red && s.Team() == old(s.Team())
    ensures n in s.tree.nodes && n.page != null && n.page.url == url && n.page.crawler == null
  {
    hide Balanced, Priced, Light, Shape, Scheduled, Fits, NewUrl, Spelt, Links, Loads, SpellsClosure, Cells, Settled, Siblings, Claimed, Ran, Units, Known, Ordered;
    hide Scheduler.Steady, Scheduler.Standing;
    s.RootHasNoPage();
    CellSeen(s.tree.nodes, s.tree.root);
    ghost var t, at, ns := s.View(), s.tree.root, [];
    var scheduled;
    scheduled, n, at, ns := s.Schedule(path, url, id, epoch, fromSeed);
    s.NewPageHidden(t, path, at, ns, url, n);
    k := RunsUnderRedRoot(s, n, runs);
  }

  /** While the root is Red, no run gives the page of `n` to a crawler, or any other page. */
  method RunsUnderRedRoot(s: Scheduler, n: Node, runs: nat) returns (k: nat)
    requires s.Steady() && s.tree.root.visitState == Red && n in s.tree.nodes && n.page != null && n.page.crawler == null
    modifies s.tree.nodes`visitState, s.tree.nodes`visited, s`pageTable, (set m <- s.tree.nodes :: m.page)`crawler
    modifies s`crawlers, s.Team()`workUnit
    ensures s.Steady() && k == 0 && s.tree.root.visitState == Red && s.Team() == old(s.Team()) && n.page.crawler == null
  {
    hide Balanced, Shape, Links, Loads, SpellsClosure, Cells, Claimed, Ran, Units, Known, Ordered;
    hide Priced, Light, Scheduler.Steady, Scheduler.Standing;
    k := 0;
    for i := 0 to runs
      invariant s.Steady() && s.tree.root.visitState == Red && k == 0 && s.Team() == old(s.Team()) && n.page.crawler == null
    {
      CellSeen(s.tree.nodes, n);
      ghost var t := s.View();
      ghost var p, moments, shares;
      var more, deferred;
      more, deferred, p, moments, shares := s.Run();
      s.StillNotGiven(t, n);
      k := k + more;
    }
  }

  /** A run before the first URL is scheduled, with a crawler waiting. */
  method FirstRun(s: Scheduler) returns (k: nat)
    requires s.Steady() && Settled(s.View()) && s.tree.nodes == {s.tree.root} && s.Idle()
    requires Valid(s.State()) && Known(s.State(), s.crawlers) && Conserving(s.State(), s.crawlers) && Waiting(s.State()) != {}
    modifies s.tree.root`visitState, s.tree.root`visited, s`pageTable, s`crawlers, s.Team()`workUnit
    ensures s.Steady() && Settled(s.View()) && s.Idle() && s.Team() == old(s.Team())
    ensures k == 0 && s.State() == old(s.State()) && s.tree.root.visitState == Red
  {
    hide Balanced, Shape, Scheduled, Fits, NewUrl, Spelt, Links, Loads, SpellsClosure, Cells, Settled, Siblings, Claimed, Ran, Units, Known, Ordered;
    hide Priced, Light, Conserving, Scheduler.Steady, Scheduler.Standing, Scheduler.Idle;
    s.RootHasNoPage();
    s.IdleMeansNoLoads();
    ghost var t, s0, q0 := s.View(), s.State(), s.crawlers;
    ghost var n, moments, shares;
    var deferred;
    k, deferred, n, moments, shares := s.Run();
    s.NothingToGive(t, s0, q0, k, deferred);
    s.IdleMeansNoLoads();
  }

  /** A run before the first URL is scheduled, and one after it. */
  method RunThenSeed(s: Scheduler, path: seq<string>, url: nat, id: nat, epoch: nat, fromSeed: bool, runs: nat)
    returns (n: Node, k: nat)
    requires s.Steady() && Settled(s.View()) && s.tree.nodes == {s.tree.root} && s.Idle() && path != []
    requires Valid(s.State()) && Known(s.State(), s.crawlers) && Conserving(s.State(), s.crawlers) && Waiting(s.State()) != {}
    modifies s.tree, s.tree.root, s`pageTable, s`crawlers, s.Team()`workUnit
    ensures s.Steady() && k == 0 && s.tree.root.visitState == Red && s.Team() == old(s.Team())
    ensures n in s.tree.nodes && n.page != null && n.page.url == url && n.page.crawler == null
  {
    hide Balanced, Shape, Scheduled, Fits, NewUrl, Spelt, Links, Loads, SpellsClosure, Cells, Settled, Siblings, Claimed, Ran, Units, Known, Ordered;
    hide Priced, Light, Conserving, Scheduler.Steady, Scheduler.Standing, Scheduler.Idle, Scheduler.IdFree;
    s.RootHasNoPage();
    k := FirstRun(s);
    s.FitsRootAlone(path, url, id);
    n, k := SeedUnderRedRoot(s, path, url, id, epoch, fromSeed, runs);
  }

  /** The same from the start: a crawler is online before the first URL is scheduled. */
  method RunBeforeSeeds(normalise: (real, real) -> real, cores: nat, path: seq<string>, url: nat, id: nat, epoch: nat, runs: nat)
    returns (s: Scheduler, c: Crawler, n: Node, k: nat)
    requires path != [] && 32 * cores % 0x1_0000 > 0
    ensures s.Steady() && k == 0 && s.Team() == {c} && c.online
    ensures n in s.tree.nodes && n.page != null && n.page.url == url && n.page.crawler == null
  {
    hide *;
    s, c := WithOneCrawler(normalise, cores);
    n, k := RunThenSeed(s, path, url, id, epoch, true, runs);
  }

  /** A new scheduler with one crawler, which is online and has room. */
  method WithOneCrawler(normalise: (real, real) -> real, cores: nat) returns (s: Scheduler, c: Crawler)
    requires 32 * cores % 0x1_0000 > 0
    ensures fresh(s) && fresh(s.tree) && fresh(s.tree.root) && fresh(c) && s.tree.nodes == {s.tree.root} && s.Team() == {c} && c.online
    ensures s.Steady() && Settled(s.View()) && s.Idle()
    ensures Valid(s.State()) && Known(s.State(), s.crawlers) && Conserving(s.State(), s.crawlers) && Waiting(s.State()) != {}
  {
    hide Balanced, Shape, Links, Loads, SpellsClosure, Cells, Settled, Siblings, Units, Priced, Light, Conserving, Ordered, Known;
    hide Scheduler.Steady, Scheduler.Standing, Scheduler.Idle;
    c := new Crawler(cores);
    s := new Scheduler(normalise);
    s.RegisterCrawler(c);
    assert multiset(s.crawlers)[c] == 1 && |multiset(s.crawlers)| == 1;
    c.SetSession();
    s.OneWaits(c);
  }
}
