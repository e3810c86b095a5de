/** Pages and work units agree on who crawls what (sched/PageData.cpp, sched/Crawler.cpp). */
module Assignments {
  import opened Wrappers
  import opened WorkUnits
  import opened Traversal
  import opened Seeding

  /** A page's crawler is `c` exactly when its URL occurs in c's work unit, where it occurs once. */
  ghost predicate Agreed<N, C>(t: map<N, Cell<N, C>>, units: map<C, seq<nat>>) {
    && (forall c {:trigger units[c]} :: c in units ==> Sorted(units[c]))
    && (forall n, c {:trigger t[n].page, units[c]} :: n in t && t[n].page.Some? && c in units ==>
          (t[n].page.value.crawler == Some(c) <==> t[n].page.value.url in units[c]))
    && (forall n {:trigger t[n].page} :: n in t && t[n].Taken() ==> t[n].page.value.crawler.value in units)
    && UrlsDiffer(t) && UnitsDisjoint(units)
  }

  ghost predicate UrlsDiffer<N, C>(t: map<N, Cell<N, C>>) {
    forall n, m {:trigger t[n].page, t[m].page} :: n in t && m in t && n != m && t[n].page.Some? && t[m].page.Some? ==>
      t[n].page.value.url != t[m].page.value.url
  }

  ghost predicate UnitsDisjoint<C>(units: map<C, seq<nat>>) {
    forall c, d, u: nat {:trigger u in units[c], u in units[d]} :: c in units && d in units && c != d && u in units[c] ==> u !in units[d]
  }

  /** Assigning a free page to `c` keeps the agreement; its URL was in no work unit. */
  lemma AssignAgrees<N, C>(t: map<N, Cell<N, C>>, units: map<C, seq<nat>>, n: N, c: C, unit: seq<nat>)
    requires Agreed(t, units) && n in t && t[n].Free() && c in units
    requires Sorted(unit) && forall u: nat :: u in unit <==> u == t[n].page.value.url || u in units[c]
    ensures forall d :: d in units ==> t[n].page.value.url !in units[d]
    ensures Agreed(Assign(t, n, c), units[c := unit])
  {
    var u := Assign(t, n, c);
    forall d | d in units ensures t[n].page.value.url !in units[d] {
    }
    assert forall m {:trigger u[m].page} :: m in u && m != n ==> u[m].page == t[m].page;
  }

  /** Taking a page back from its crawler keeps the agreement; the crawler has its URL. */
  lemma UnassignAgrees<N, C>(t: map<N, Cell<N, C>>, units: map<C, seq<nat>>, n: N, c: C, unit: seq<nat>)
    requires Agreed(t, units) && n in t && t[n].page.Some? && t[n].page.value.crawler == Some(c)
    requires Sorted(unit) && forall u: nat :: u in unit <==> u != t[n].page.value.url && c in units && u in units[c]
    ensures c in units && t[n].page.value.url in units[c]
    ensures Agreed(Unassign(t, n), units[c := unit])
  {
    assert t[n].Taken() && c in units;
    var u := Unassign(t, n);
    assert forall m {:trigger u[m].page} :: m in u && m != n ==> u[m].page == t[m].page;
  }

  /** Colours do not matter, and neither do nodes without a page. */
  lemma AgreementIsAboutPages<N, C>(t: map<N, Cell<N, C>>, u: map<N, Cell<N, C>>, units: map<C, seq<nat>>)
    requires Agreed(t, units) && t.Keys <= u.Keys
    requires forall n {:trigger u[n].page} :: n in u ==> u[n].page == if n in t then t[n].page else None
    ensures Agreed(u, units)
  {
  }

  /** A new page, whose URL is nowhere else, keeps the agreement. */
  lemma GivePageAgrees<N, C>(t: map<N, Cell<N, C>>, units: map<C, seq<nat>>, n: N, url: nat)
    requires Agreed(t, units) && n in t && t[n].page.None?
    requires forall m {:trigger t[m].page} :: m in t && t[m].page.Some? ==> t[m].page.value.url != url
    requires forall c {:trigger units[c]} :: c in units ==> url !in units[c]
    ensures Agreed(GivePage(t, n, url), units)
  {
    var u := GivePage(t, n, url);
    assert forall m {:trigger u[m].page} :: m in u && m != n ==> u[m].page == t[m].page;
  }

  /** A crawler that joins with nothing to do has no page. */
  lemma JoiningAgrees<N, C>(t: map<N, Cell<N, C>>, units: map<C, seq<nat>>, c: C)
    ensures Agreed(t, units) && c !in units ==> Agreed(t, units[c := []])
  {
  }
}
