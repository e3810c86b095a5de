/** The objects the scheduler works on: crawlers, pages and the nodes of the URL tree. */
module Nodes {
  import opened Wrappers
  import opened WorkUnits
  import opened Traversal

  /** A crawler known to the scheduler (sched/Crawler.cpp). */
  class Crawler {
    const cores: nat
    var online: bool        // it has a session and the session is online
    var workUnit: seq<nat>  // addresses of the URLs to crawl, in order

    constructor (cores: nat)
      ensures this.cores == cores && !online && workUnit == []
    {
      this.cores, online, workUnit := cores, false, [];
    }

    /** A session is attached once. */
    method SetSession()
      requires !online
      modifies this`online
      ensures online
    {
      online := true;
    }

    /** The product is kept in 16 bits. */
    function MaxUnitSize(): nat {
      32 * cores % 0x1_0000
    }

    predicate Full()
      reads this`workUnit
    {
      |workUnit| == MaxUnitSize()
    }

    /** The work unit is in strict order and no larger than it may be. */
    ghost predicate Valid()
      reads this`workUnit
    {
      Sorted(workUnit) && |workUnit| <= MaxUnitSize()
    }

    method AddUrl(url: nat)
      requires Valid() && !Full() && url !in workUnit
      modifies this`workUnit
      ensures Valid() && |workUnit| == old(|workUnit|) + 1
      ensures forall u :: u in workUnit <==> u == url || u in old(workUnit)
    {
      var i := LowerBound(workUnit, url);
      InsertKeepsSorted(workUnit, url, i);
      workUnit := workUnit[..i] + [url] + workUnit[i..];
    }

    /** The search ends at the URL, and just that one is erased. */
    method RemoveUrl(url: nat)
      requires Valid() && url in workUnit
      modifies this`workUnit
      ensures Valid() && |workUnit| == old(|workUnit|) - 1
      ensures forall u :: u in workUnit <==> u != url && u in old(workUnit)
    {
      var i := LowerBound(workUnit, url);
      EraseKeepsSorted(workUnit, url, i);
      assert i < |workUnit| && workUnit[i] == url;
      workUnit := workUnit[..i] + workUnit[i + 1..];
    }
  }

  /** What the scheduler keeps about one page (sched/PageData.cpp). */
  class PageData {
    const url: nat    // address of its URL
    const id: nat     // the URL's page_id
    const epoch: nat  // creation time
    var crawler: Crawler?
    var lastCrawl: int
    var links: nat
    var crawlCount: nat

    constructor (url: nat, id: nat, epoch: nat)
      ensures this.url == url && this.id == id && this.epoch == epoch
      ensures crawler == null && links == 0 && crawlCount == 0
    {
      this.url, this.id, this.epoch := url, id, epoch;
      crawler, lastCrawl, links, crawlCount := null, 0, 0, 0;
    }

    /** What the page adds to the weights: its age, over its crawls, times the links to it. */
    function Worth(): (w: real)
      reads this`links, this`crawlCount
      ensures w >= 0.0
    {
      epoch as real / (crawlCount + 1) as real * (links + 1) as real
    }

    /** Links make a page heavier and crawls make it lighter, in proportion. */
    lemma WorthMeans()
      ensures Worth() * (crawlCount + 1) as real == epoch as real * (links + 1) as real
    {
      var e, c, l := epoch as real, (crawlCount + 1) as real, (links + 1) as real;
      Quotient(e, c, l);
    }

    static lemma Quotient(e: real, c: real, l: real)
      requires c > 0.0
      ensures e / c * l * c == e * l
    {
      var q := e / c;
      assert q * c == e;
      assert q * l * c == q * c * l;
    }

    function Kept(): Page<Crawler>
      reads this`crawler
    {
      Page(url, if crawler == null then None else Some(crawler as Crawler))
    }

    method AssignCrawler(c: Crawler)
      requires crawler == null && c.Valid() && !c.Full() && url !in c.workUnit
      modifies this`crawler, c`workUnit
      ensures crawler == c && c.Valid() && |c.workUnit| == old(|c.workUnit|) + 1
      ensures forall u :: u in c.workUnit <==> u == url || u in old(c.workUnit)
    {
      c.AddUrl(url);
      crawler := c;
    }

    method UnassignCrawler()
      requires crawler != null && crawler.Valid() && url in crawler.workUnit
      modifies this`crawler, crawler`workUnit
      ensures crawler == null && old(crawler).Valid() && |old(crawler).workUnit| == old(|crawler.workUnit|) - 1
      ensures forall u :: u in old(crawler).workUnit <==> u != url && u in old(crawler.workUnit)
    {
      crawler.RemoveUrl(url);
      crawler := null;
    }
  }

  /** A node of the URL tree (utility/Node.hpp, sched/Node.hpp). */
  class Node {
    const value: string
    var parent: Node?
    var children: seq<Node>
    var visitState: Colour
    var pathIdx: int     // -1 for the root
    var childIdx: int
    var page: PageData?
    var visited: int
    var current: real    // measure
    var previous: real
    var minimum: real
    var reviser: Node?   // the node whose measure changed last below this one

    constructor (value: string)
      ensures this.value == value && parent == null && children == [] && visitState == Green && Blank(this)
    {
      this.value, parent, children, visitState, page := value, null, [], Green, null;
      pathIdx, childIdx, visited := 0, 0, 0;
      current, previous, minimum, reviser := 0.0, 0.0, 0.0, null;
    }

    predicate Leaf()
      reads this`parent, this`children
    {
      parent != null && children == []
    }

    predicate Eligible()
      reads this`page, {page}`crawler
    {
      page != null && page.crawler == null
    }

    /** The weight that children are compared by; `normalise` is the formula it passes through. */
    function Weight(normalise: (real, real) -> real): real
      reads this`current, this`minimum, this`children
    {
      normalise(current / (|children| + 1) as real, minimum)
    }

    /** The candidate of the two to keep: the other only if its weight is greater. */
    function WeighAgainst(n: Node?, normalise: (real, real) -> real): (best: Node)
      reads this`current, this`minimum, this`children, {n}`current, {n}`minimum, {n}`children
      ensures best == this || best == n
      ensures best.Weight(normalise) >= Weight(normalise) && (n != null ==> best.Weight(normalise) >= n.Weight(normalise))
      ensures best != this ==> n != null && n.Weight(normalise) > Weight(normalise)
    {
      if n != null && n.Weight(normalise) > Weight(normalise) then n else this
    }

    /** Takes the page's worth, or else the difference the reviser tells of, and tells the parent. */
    method CalculateWeight()
      requires reviser != this && parent != this
      modifies this`current, this`previous, this`minimum, {parent}`reviser, {parent}`minimum
      ensures parent == null ==> unchanged(this)
      ensures parent != null && page != null ==>
                && current == page.Worth() + (if Leaf() then 0.0 else old(current)) && previous == old(current)
                && parent.reviser == (if current == previous then null else this)
      ensures parent != null && page == null ==>
                && current == old(if reviser == null then current else current + reviser.current - reviser.previous)
                && parent.reviser == old(reviser)
      ensures parent != null ==>
                && minimum == (if current < old(minimum) then current else old(minimum))
                && parent.minimum == (if minimum < old(parent.minimum) then minimum else old(parent.minimum))
    {
      if parent == null {
        return;
      }
      if page != null {
        var newWeight, oldWeight := page.Worth(), current;
        current := newWeight + (if Leaf() then 0.0 else oldWeight);
        previous := oldWeight;
        if previous == current {
          parent.reviser := null;
        } else {
          parent.reviser := this;
        }
      } else {
        parent.reviser := reviser;
        if reviser != null {
          current := current + reviser.current;
          current := current - reviser.previous;
        }
      }
      if current < minimum {
        minimum := current;
      }
      if minimum < parent.minimum {
        parent.minimum := minimum;
      }
    }

    /** Its place in the tree, its colour and its page. */
    ghost function Seen(): Cell<Node, Crawler>
      reads this`parent, this`children, this`visitState, this`pathIdx, this`childIdx, this`page, {page}`crawler
    {
      Cell(value, if parent == null then None else Some(parent as Node), children, pathIdx + 1, childIdx, visitState,
                if page == null then None else Some(page.Kept()))
    }
  }

  /** A node as it is made: it has no page and no weight. */
  ghost predicate Blank(n: Node)
    reads n`page, n`current, n`minimum, n`reviser
  {
    n.page == null && n.current == 0.0 && n.minimum == 0.0 && n.reviser == null
  }

  ghost predicate AllBlank(nodes: set<Node>)
    reads nodes`page, nodes`current, nodes`minimum, nodes`reviser
  {
    forall n <- nodes :: Blank(n)
  }

  lemma NoneIsBlank(nodes: set<Node>)
    requires nodes == {}
    ensures AllBlank(nodes)
  {
  }

  /** The tree as a value. */
  ghost function Cells(nodes: set<Node>): (t: map<Node, Cell<Node, Crawler>>)
    reads nodes`parent, nodes`children, nodes`visitState, nodes`pathIdx, nodes`childIdx, nodes`page, (set n <- nodes :: n.page)`crawler
    ensures t.Keys == nodes
  {
    map n | n in nodes :: n.Seen()
  }

  ghost function Loads(nodes: set<Node>): (w: map<Node, real>)
    reads nodes`current
    ensures w.Keys == nodes
  {
    map n | n in nodes :: n.current
  }

  ghost function WeightsOf(nodes: set<Node>, normalise: (real, real) -> real): (w: map<Node, real>)
    reads nodes`current, nodes`minimum, nodes`children
    ensures w.Keys == nodes
  {
    map n | n in nodes :: n.Weight(normalise)
  }

  ghost function Units(crawlers: set<Crawler>): (u: map<Crawler, seq<nat>>)
    reads crawlers`workUnit
    ensures u.Keys == crawlers
  {
    map c | c in crawlers :: c.workUnit
  }

  /** The children and their values can be read off the tree as a value. */
  lemma ValuesAgree(nodes: set<Node>, p: Node)
    requires p in nodes
    ensures Cells(nodes)[p].children == p.children
    ensures forall c <- p.children :: c in nodes ==> Cells(nodes)[c].value == c.value
  {
  }

  lemma CellSeen(nodes: set<Node>, n: Node)
    requires n in nodes
    ensures Cells(nodes)[n] == n.Seen()
  {
  }

  lemma SeenAs(n: Node)
    ensures n.Seen() == Cell(n.value, if n.parent == null then None else Some(n.parent as Node), n.children, n.pathIdx + 1, n.childIdx,
                             n.visitState, if n.page == null then None else Some(n.page.Kept()))
  {
  }

  lemma CellsWithOneMore(nodes: set<Node>, n: Node)
    requires n !in nodes
    ensures Cells(nodes + {n}) == Cells(nodes)[n := n.Seen()]
  {
  }

  /** Makes `n`, which is not in the tree yet, the last child of `p`. */
  method AdoptChild(ghost nodes: set<Node>, p: Node, n: Node)
    requires p in nodes && n !in nodes
    modifies p`children, n`parent, n`pathIdx, n`childIdx
    ensures Cells(nodes) == var t := old(Cells(nodes)); t[p := t[p].(children := t[p].children + [n])]
    ensures n.parent == p && n.pathIdx == p.pathIdx + 1 && n.childIdx == |old(p.children)|
  {
    hide Node.Seen;
    SeenAs(p);
    n.pathIdx := p.pathIdx + 1;
    n.parent := p;
    n.childIdx := |p.children|;
    p.children := p.children + [n];
    SeenAs(p);
  }

  method PaintNode(ghost nodes: set<Node>, n: Node, colour: Colour)
    requires n in nodes
    modifies n`visitState
    ensures Cells(nodes) == Paint(old(Cells(nodes)), n, colour)
  {
    n.visitState := colour;
  }

  /** Marks a child that is not Red as visited, and tells whether it may be chosen. */
  method Visit(ghost nodes: set<Node>, c: Node) returns (candidate: bool)
    requires c in nodes
    modifies c`visitState
    ensures Cells(nodes) == Looked(old(Cells(nodes)), [c]) && candidate == Candidate(old(Cells(nodes)), c)
  {
    assert Cells(nodes)[c] == c.Seen();
    if c.visitState == Red {
      return false;
    }
    c.visitState := Amber;
    return c.page == null || c.Eligible();
  }

  /** Marks a node Red and counts it among its parent's visited children. */
  method MarkRed(ghost nodes: set<Node>, p: Node)
    requires p in nodes
    modifies p`visitState, {p.parent}`visited
    ensures Cells(nodes) == Paint(old(Cells(nodes)), p, Red)
  {
    PaintNode(nodes, p, Red);
    if p.parent != null {
      hide Cells;
      p.parent.visited := p.parent.visited + 1;
    }
  }

  /** Gives the page of `n`, which no other node has, to crawler `c`. */
  method GivePageTo(ghost nodes: set<Node>, ghost crawlers: set<Crawler>, n: Node, c: Crawler)
    requires n in nodes && n.page != null && n.page.crawler == null && forall m <- nodes :: m != n ==> m.page != n.page
    requires c in crawlers && c.Valid() && !c.Full() && n.page.url !in c.workUnit
    modifies n.page`crawler, c`workUnit
    ensures Cells(nodes) == Assign(old(Cells(nodes)), n, c)
    ensures Units(crawlers) == old(Units(crawlers))[c := c.workUnit]
    ensures c.Valid() && |c.workUnit| == old(|c.workUnit|) + 1
    ensures forall u: nat :: u in c.workUnit <==> u == n.page.url || u in old(c.workUnit)
  {
    hide Node.Seen;
    SeenAs(n);
    n.page.AssignCrawler(c);
    SeenAs(n);
  }

  /** Takes the page of `n`, which no other node has, back from its crawler. */
  method TakePageBack(ghost nodes: set<Node>, ghost crawlers: set<Crawler>, n: Node)
    requires n in nodes && n.page != null && n.page.crawler != null && forall m <- nodes :: m != n ==> m.page != n.page
    requires n.page.crawler in crawlers && n.page.crawler.Valid() && n.page.url in n.page.crawler.workUnit
    modifies n.page`crawler, n.page.crawler`workUnit
    ensures var c := old(n.page.crawler);
            && Cells(nodes) == Unassign(old(Cells(nodes)), n)
            && Units(crawlers) == old(Units(crawlers))[c := c.workUnit]
            && c.Valid() && |c.workUnit| == old(|n.page.crawler.workUnit|) - 1
            && forall u: nat :: u in c.workUnit <==> u != n.page.url && u in old(n.page.crawler.workUnit)
  {
    hide Node.Seen;
    SeenAs(n);
    n.page.UnassignCrawler();
    SeenAs(n);
  }

  /** No weight is negative, so none is below the minimum every node starts from; leaves have no reviser. */
  ghost predicate Light(nodes: set<Node>)
    reads nodes`current, nodes`minimum, nodes`children, nodes`reviser
  {
    forall n <- nodes :: n.current >= 0.0 && n.minimum == 0.0 && (n.children == [] ==> n.reviser == null)
  }

  /** Every page but that of `n` has been weighed since its worth last changed. */
  ghost predicate PricedBut(nodes: set<Node>, n: Node)
    reads nodes`page, nodes`current, (set m <- nodes :: m.page)`links, (set m <- nodes :: m.page)`crawlCount
  {
    forall m <- nodes :: m != n && m.page != null ==> m.current == m.page.Worth()
  }

  /** Every page has been weighed since its worth last changed. */
  ghost predicate Priced(nodes: set<Node>)
    reads nodes`page, nodes`current, (set m <- nodes :: m.page)`links, (set m <- nodes :: m.page)`crawlCount
  {
    forall m <- nodes :: m.page != null ==> m.current == m.page.Worth()
  }

  lemma PricedAfterAll(nodes: set<Node>, n: Node)
    ensures PricedBut(nodes, n) && (n.page != null ==> n.current == n.page.Worth()) ==> Priced(nodes)
    ensures Priced(nodes) ==> PricedBut(nodes, n)
  {
  }

  /** Weighs a node below the root, in terms of the weights as a value. */
  method Reweigh(ghost nodes: set<Node>, n: Node)
    requires n in nodes && n.parent != null && n.parent in nodes && n.parent != n && n.reviser != n
    modifies n`current, n`previous, n`minimum, n.parent`reviser, n.parent`minimum
    ensures Loads(nodes) == old(Loads(nodes))[n := n.current] && Cells(nodes) == old(Cells(nodes))
    ensures n.page != null && n.Leaf() ==>
              && n.current == n.page.Worth() && n.previous == old(n.current)
              && n.parent.reviser == (if n.current == n.previous then null else n)
    ensures n.page == null ==>
              && n.current == old(if n.reviser == null then n.current else n.current + n.reviser.current - n.reviser.previous)
              && n.parent.reviser == old(n.reviser)
    ensures old(Light(nodes)) && n.current >= 0.0 && n.parent.children != [] ==> Light(nodes)
    ensures old(PricedBut(nodes, n)) ==> PricedBut(nodes, n)
  {
    hide Cells;
    n.CalculateWeight();
  }

  /** What a page is weighed by, and its weight. */
  datatype Score = Score(epoch: nat, links: nat, crawls: nat, weight: real)

  ghost function Scored(n: Node): Score
    requires n.page != null
    reads n`page, n.page`crawlCount, n.page`links, n`current
  {
    Score(n.page.epoch, n.page.links, n.page.crawlCount, n.current)
  }

  /** The weight is right: the epoch, times the links, over the crawls, each of them and one more. */
  ghost predicate Weighed(s: Score) {
    s.weight * (s.crawls + 1) as real == s.epoch as real * (s.links + 1) as real
  }

  /** More links, and heavier in the proportion of its links. */
  ghost predicate Linked(before: Score, after: Score, more: nat) {
    && after == before.(links := before.links + more, weight := after.weight)
    && after.weight * (before.links + 1) as real == before.weight * (after.links + 1) as real
  }

  lemma LinksCount(before: Score, after: Score, more: nat)
    requires Weighed(after) && after == before.(links := before.links + more, weight := after.weight)
    ensures Weighed(before) ==> Linked(before, after, more)
    ensures before.crawls == 0 ==> after.weight == before.epoch as real * (after.links + 1) as real
  {
    if Weighed(before) {
      Proportion(after.weight, before.weight, before.epoch as real, (before.crawls + 1) as real, (after.links + 1) as real, (before.links + 1) as real);
    }
  }

  lemma Proportion(a: real, b: real, e: real, c: real, l: real, k: real)
    requires c > 0.0 && a * c == e * l && b * c == e * k
    ensures a * k == b * l
  {
    assert a * k * c == e * l * k && b * l * c == e * k * l;
  }

  lemma ScoreWeighed(n: Node)
    requires n.page != null
    ensures n.current == n.page.Worth() ==> Weighed(Scored(n))
  {
    n.page.WorthMeans();
  }

  /** What is on record about a page and the crawler that has or had it. */
  datatype Record = Record(url: nat, unit: seq<nat>, lastCrawl: int, score: Score)

  ghost function Noted(n: Node, c: Crawler): Record
    requires n.page != null
    reads n`page, n.page`crawlCount, n.page`lastCrawl, n.page`links, n`current, c`workUnit
  {
    Record(n.page.url, c.workUnit, n.page.lastCrawl, Scored(n))
  }

  /** The URL has left the work unit, and nothing else has happened. */
  ghost predicate Freed(before: Record, after: Record) {
    && after == before.(unit := after.unit)
    && |after.unit| == |before.unit| - 1 && (forall u: nat :: u in after.unit <==> u != before.url && u in before.unit)
  }

  /** The crawl has been counted, which leaves the weight right. */
  ghost predicate Recounted(before: Record, after: Record, time: int) {
    && after == before.(lastCrawl := time, score := before.score.(crawls := before.score.crawls + 1, weight := after.score.weight))
    && Weighed(after.score)
  }

  /** The page has been crawled: both have happened, and the page is lighter in the proportion of its crawls. */
  ghost predicate Crawled(before: Record, after: Record, time: int) {
    var s, r := before.score, after.score;
    && after.url == before.url && r.epoch == s.epoch && r.links == s.links && r.crawls == s.crawls + 1 && after.lastCrawl == time
    && |after.unit| == |before.unit| - 1 && (forall u: nat :: u in after.unit <==> u != before.url && u in before.unit)
    && r.weight * (s.crawls + 2) as real == s.weight * (s.crawls + 1) as real
  }

  lemma FreedAndRecounted(before: Record, between: Record, after: Record, time: int)
    ensures Weighed(before.score) && Freed(before, between) && Recounted(between, after, time) ==> Crawled(before, after, time)
  {
  }
}
