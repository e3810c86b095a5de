/** The dialog of a crawler with the scheduler: what either session accepts (sched/Session.cpp, crawl/Session.cpp). */
module Dialogs {

  const INVALID_ID: nat := 0
  const REGISTER_CRAWLER: nat := 10
  const BEGIN_CRAWL: nat := 11
  const END_CRAWL: nat := 12

  /** The last message received, and the last one sent. */
  datatype Context = Context(inbound: nat, outbound: nat)

  const FRESH: Context := Context(INVALID_ID, INVALID_ID)

  // ----- The sessions -----

  predicate SchedulerAccepts(c: Context, id: nat) {
    if id == REGISTER_CRAWLER then c == FRESH
    else if id == END_CRAWL then
      (c.inbound == END_CRAWL || c.inbound == REGISTER_CRAWLER) && (c.outbound == INVALID_ID || c.outbound == BEGIN_CRAWL)
    else false
  }

  predicate CrawlerAccepts(c: Context, id: nat) {
    && id == BEGIN_CRAWL
    && (c.inbound == INVALID_ID || c.inbound == BEGIN_CRAWL) && (c.outbound == END_CRAWL || c.outbound == REGISTER_CRAWLER)
  }

  class SchedulerSession {
    var context: Context

    constructor ()
      ensures context == FRESH
    {
      context := FRESH;
    }

    method Send(id: nat)
      modifies this
      ensures context == old(context).(outbound := id)
    {
      context := context.(outbound := id);
    }

    method BeginCrawl()
      modifies this
      ensures context == old(context).(outbound := BEGIN_CRAWL)
    {
      Send(BEGIN_CRAWL);
    }

    /** A message that does not continue the dialog is refused, and leaves the context as it was. */
    method ContinueDialog(id: nat) returns (dialogError: bool)
      modifies this
      ensures dialogError <==> !SchedulerAccepts(old(context), id)
      ensures context == if dialogError then old(context) else old(context).(inbound := id)
    {
      if id == REGISTER_CRAWLER {
        if context.inbound != INVALID_ID {
          return true;
        }
        if context.outbound != INVALID_ID {
          return true;
        }
      } else if id == END_CRAWL {
        if context.inbound != END_CRAWL && context.inbound != REGISTER_CRAWLER {
          return true;
        }
        if context.outbound != INVALID_ID && context.outbound != BEGIN_CRAWL {
          return true;
        }
      } else {
        return true;
      }
      context := context.(inbound := id);
      return false;
    }
  }

  class CrawlerSession {
    var context: Context

    constructor ()
      ensures context == FRESH
    {
      context := FRESH;
    }

    method Send(id: nat)
      modifies this
      ensures context == old(context).(outbound := id)
    {
      context := context.(outbound := id);
    }

    method RegisterCrawler()
      modifies this
      ensures context == old(context).(outbound := REGISTER_CRAWLER)
    {
      Send(REGISTER_CRAWLER);
    }

    method EndCrawl()
      modifies this
      ensures context == old(context).(outbound := END_CRAWL)
    {
      Send(END_CRAWL);
    }

    method ContinueDialog(id: nat) returns (dialogError: bool)
      modifies this
      ensures dialogError <==> !CrawlerAccepts(old(context), id)
      ensures context == if dialogError then old(context) else old(context).(inbound := id)
    {
      if id == BEGIN_CRAWL {
        if context.inbound != INVALID_ID && context.inbound != BEGIN_CRAWL {
          return true;
        }
        if context.outbound != END_CRAWL && context.outbound != REGISTER_CRAWLER {
          return true;
        }
      } else {
        return true;
      }
      context := context.(inbound := id);
      return false;
    }
  }

  // ----- Which dialogs a session accepts -----

  /** What happens at one session. */
  datatype Turn = Received(id: nat) | Sent(id: nat)

  ghost function After(c: Context, t: Turn): Context {
    if t.Received? then c.(inbound := t.id) else c.(outbound := t.id)
  }

  /** The scheduler's session accepts all it receives. */
  ghost predicate SchedulerAcceptsAll(c: Context, turns: seq<Turn>)
    decreases |turns|
  {
    turns == [] || ((turns[0].Received? ==> SchedulerAccepts(c, turns[0].id)) && SchedulerAcceptsAll(After(c, turns[0]), turns[1..]))
  }

  ghost predicate CrawlerAcceptsAll(c: Context, turns: seq<Turn>)
    decreases |turns|
  {
    turns == [] || ((turns[0].Received? ==> CrawlerAccepts(c, turns[0].id)) && CrawlerAcceptsAll(After(c, turns[0]), turns[1..]))
  }

  /** The messages received, in order. */
  ghost function Inbound(turns: seq<Turn>): seq<nat>
    decreases |turns|
  {
    if turns == [] then [] else if turns[0].Received? then [turns[0].id] + Inbound(turns[1..]) else Inbound(turns[1..])
  }

  ghost predicate AllAre(ids: seq<nat>, id: nat) {
    forall i :: 0 <= i < |ids| ==> ids[i] == id
  }

  /** A prefix of: one registration, and then any number of ended crawls. */
  ghost predicate RegisterThenEnds(ids: seq<nat>) {
    ids != [] ==> ids[0] == REGISTER_CRAWLER && AllAre(ids[1..], END_CRAWL)
  }

  lemma OneMore(x: nat, ids: seq<nat>, id: nat)
    ensures AllAre([x] + ids, id) <==> x == id && AllAre(ids, id)
    ensures ([x] + ids)[1..] == ids
  {
    if AllAre([x] + ids, id) {
      assert ([x] + ids)[0] == id;
      assert forall i :: 0 <= i < |ids| ==> ids[i] == ([x] + ids)[i + 1];
    }
  }

  /** What was sent last, if it was `sent` before. */
  ghost function LastSent(sent: nat, turns: seq<Turn>): nat
    decreases |turns|
  {
    if turns == [] then sent else LastSent(if turns[0].Sent? then turns[0].id else sent, turns[1..])
  }

  /** What may have been sent last when message `id` comes in. */
  predicate SchedulerSent(id: nat, sent: nat) {
    sent == INVALID_ID || (sent == BEGIN_CRAWL && id != REGISTER_CRAWLER)
  }

  predicate CrawlerSent(id: nat, sent: nat) {
    sent == END_CRAWL || sent == REGISTER_CRAWLER
  }

  /** Whenever a message comes in, what was sent last allows it. */
  ghost predicate InTime(allows: (nat, nat) -> bool, sent: nat, turns: seq<Turn>) {
    forall i :: 0 <= i < |turns| && turns[i].Received? ==> allows(turns[i].id, LastSent(sent, turns[..i]))
  }

  lemma InTimeStep(allows: (nat, nat) -> bool, sent: nat, turns: seq<Turn>)
    requires turns != []
    ensures InTime(allows, sent, turns) <==>
            && (turns[0].Received? ==> allows(turns[0].id, sent))
            && InTime(allows, if turns[0].Sent? then turns[0].id else sent, turns[1..])
  {
    var rest, next := turns[1..], if turns[0].Sent? then turns[0].id else sent;
    assert turns[..0] == [];
    forall i | 0 <= i < |rest| ensures LastSent(sent, turns[..i + 1]) == LastSent(next, rest[..i]) && rest[i] == turns[i + 1] {
      assert turns[..i + 1][1..] == rest[..i];
    }
    if InTime(allows, next, rest) && (turns[0].Received? ==> allows(turns[0].id, sent)) {
      forall i | 0 <= i < |turns| && turns[i].Received? ensures allows(turns[i].id, LastSent(sent, turns[..i])) {
        if i > 0 {
          assert rest[i - 1] == turns[i];
        }
      }
    }
  }

  /** Once a crawler is registered just its ended crawls are accepted, and those in time. */
  lemma {:induction false} RegisteredAcceptsEnds(c: Context, turns: seq<Turn>)
    requires c.inbound == REGISTER_CRAWLER || c.inbound == END_CRAWL
    ensures SchedulerAcceptsAll(c, turns) <==> AllAre(Inbound(turns), END_CRAWL) && InTime(SchedulerSent, c.outbound, turns)
    decreases |turns|
  {
    if turns != [] {
      hide InTime;
      InTimeStep(SchedulerSent, c.outbound, turns);
      OneMore(turns[0].id, Inbound(turns[1..]), END_CRAWL);
      if turns[0].Sent? || turns[0].id == END_CRAWL {
        RegisteredAcceptsEnds(After(c, turns[0]), turns[1..]);
      }
    }
  }

  /** Before that, a registration, in time too. */
  lemma {:induction false} FirstAcceptsRegistration(c: Context, turns: seq<Turn>)
    requires c.inbound == INVALID_ID
    ensures SchedulerAcceptsAll(c, turns) <==> RegisterThenEnds(Inbound(turns)) && InTime(SchedulerSent, c.outbound, turns)
    decreases |turns|
  {
    if turns != [] {
      hide InTime;
      InTimeStep(SchedulerSent, c.outbound, turns);
      OneMore(turns[0].id, Inbound(turns[1..]), END_CRAWL);
      if turns[0].Sent? {
        FirstAcceptsRegistration(After(c, turns[0]), turns[1..]);
      } else if turns[0].id == REGISTER_CRAWLER {
        RegisteredAcceptsEnds(After(c, turns[0]), turns[1..]);
      }
    }
  }

  /**
    The scheduler's session accepts exactly the prefixes of a registration followed by ended crawls, as long as
    nothing was sent before the registration, and nothing but begun crawls before the others.
   */
  lemma SchedulerDialog(turns: seq<Turn>)
    ensures SchedulerAcceptsAll(FRESH, turns) <==>
            && RegisterThenEnds(Inbound(turns))
            && forall i :: 0 <= i < |turns| && turns[i].Received? ==>
                 var sent := LastSent(INVALID_ID, turns[..i]);
                 sent == INVALID_ID || (sent == BEGIN_CRAWL && turns[i].id != REGISTER_CRAWLER)
  {
    FirstAcceptsRegistration(FRESH, turns);
  }

  lemma {:induction false} AcceptsBegins(c: Context, turns: seq<Turn>)
    requires c.inbound == INVALID_ID || c.inbound == BEGIN_CRAWL
    ensures CrawlerAcceptsAll(c, turns) <==> AllAre(Inbound(turns), BEGIN_CRAWL) && InTime(CrawlerSent, c.outbound, turns)
    decreases |turns|
  {
    if turns != [] {
      hide InTime;
      InTimeStep(CrawlerSent, c.outbound, turns);
      OneMore(turns[0].id, Inbound(turns[1..]), BEGIN_CRAWL);
      if turns[0].Sent? || turns[0].id == BEGIN_CRAWL {
        AcceptsBegins(After(c, turns[0]), turns[1..]);
      }
    }
  }

  /** The crawler's session accepts exactly the begun crawls, as long as it sent its registration or an ended crawl last. */
  lemma CrawlerDialog(turns: seq<Turn>)
    ensures CrawlerAcceptsAll(FRESH, turns) <==>
            && AllAre(Inbound(turns), BEGIN_CRAWL)
            && forall i :: 0 <= i < |turns| && turns[i].Received? ==>
                 var sent := LastSent(INVALID_ID, turns[..i]); sent == END_CRAWL || sent == REGISTER_CRAWLER
  {
    AcceptsBegins(FRESH, turns);
  }

  // ----- Both sessions, and the messages between them -----

  /** The two sessions, the messages on their way, and whether one was refused. */
  datatype World = World(scheduler: Context, crawler: Context, toScheduler: seq<nat>, toCrawler: seq<nat>, refused: bool)

  const START: World := World(FRESH, FRESH, [], [], false)

  datatype Event = Register | EndCrawl | BeginCrawl | SchedulerReceives | CrawlerReceives

  /** A crawler registers first and once, and a crawl is begun at registered crawlers only. */
  ghost predicate Enabled(w: World, e: Event) {
    match e
    case Register => w.crawler.outbound == INVALID_ID
    case EndCrawl => w.crawler.outbound != INVALID_ID
    case BeginCrawl => w.scheduler.inbound != INVALID_ID
    case SchedulerReceives => w.toScheduler != []
    case CrawlerReceives => w.toCrawler != []
  }

  ghost function Next(w: World, e: Event): World
    requires Enabled(w, e)
  {
    match e
    case Register => w.(crawler := w.crawler.(outbound := REGISTER_CRAWLER), toScheduler := w.toScheduler + [REGISTER_CRAWLER])
    case EndCrawl => w.(crawler := w.crawler.(outbound := END_CRAWL), toScheduler := w.toScheduler + [END_CRAWL])
    case BeginCrawl => w.(scheduler := w.scheduler.(outbound := BEGIN_CRAWL), toCrawler := w.toCrawler + [BEGIN_CRAWL])
    case SchedulerReceives =>
      var id, rest := w.toScheduler[0], w.toScheduler[1..];
      if SchedulerAccepts(w.scheduler, id) then w.(scheduler := w.scheduler.(inbound := id), toScheduler := rest)
      else w.(toScheduler := rest, refused := true)
    case CrawlerReceives =>
      var id, rest := w.toCrawler[0], w.toCrawler[1..];
      if CrawlerAccepts(w.crawler, id) then w.(crawler := w.crawler.(inbound := id), toCrawler := rest)
      else w.(toCrawler := rest, refused := true)
  }

  ghost predicate CanRun(w: World, events: seq<Event>)
    decreases |events|
  {
    events == [] || (Enabled(w, events[0]) && CanRun(Next(w, events[0]), events[1..]))
  }

  ghost function AfterAll(w: World, events: seq<Event>): World
    requires CanRun(w, events)
    decreases |events|
  {
    if events == [] then w else AfterAll(Next(w, events[0]), events[1..])
  }

  /** Until the registration has arrived it is the first on its way, and the scheduler has not begun a crawl. */
  ghost predicate InOrder(w: World) {
    && !w.refused && AllAre(w.toCrawler, BEGIN_CRAWL)
    && (w.crawler.inbound == INVALID_ID || w.crawler.inbound == BEGIN_CRAWL)
    && (w.scheduler.outbound == INVALID_ID || w.scheduler.outbound == BEGIN_CRAWL)
    && if w.crawler.outbound == INVALID_ID then w.scheduler == FRESH && w.toScheduler == [] && w.toCrawler == []
       else if w.scheduler.inbound == INVALID_ID then
         && (w.crawler.outbound == REGISTER_CRAWLER || w.crawler.outbound == END_CRAWL)
         && w.scheduler == FRESH && w.toScheduler != [] && RegisterThenEnds(w.toScheduler) && w.toCrawler == []
       else
         && (w.crawler.outbound == REGISTER_CRAWLER || w.crawler.outbound == END_CRAWL)
         && (w.scheduler.inbound == REGISTER_CRAWLER || w.scheduler.inbound == END_CRAWL) && AllAre(w.toScheduler, END_CRAWL)
  }

  lemma StaysInOrder(w: World, e: Event)
    requires InOrder(w) && Enabled(w, e)
    ensures InOrder(Next(w, e))
  {
    var v := Next(w, e);
    if e == EndCrawl && w.scheduler.inbound == INVALID_ID {
      assert v.toScheduler[1..] == w.toScheduler[1..] + [END_CRAWL];
    }
  }

  /** No interleaving of the two sessions leads to a dialog error. */
  lemma {:induction false} NoDialogError(w: World, events: seq<Event>)
    requires InOrder(w) && CanRun(w, events)
    ensures InOrder(AfterAll(w, events)) && !AfterAll(w, events).refused
    decreases |events|
  {
    if events != [] {
      StaysInOrder(w, events[0]);
      NoDialogError(Next(w, events[0]), events[1..]);
    }
  }

  /** In particular none that starts with two new sessions. */
  lemma NoDialogErrorFromStart(events: seq<Event>)
    requires CanRun(START, events)
    ensures !AfterAll(START, events).refused
  {
    NoDialogError(START, events);
  }
}
