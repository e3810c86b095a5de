/**
  The coloured URL tree as a value: what the traversal of sched/Scheduler.cpp keeps.
  `N` stands for tree nodes and `C` for crawlers.
 */
module Traversal {
  import opened Wrappers

  datatype Colour =
    | Red    // the traversal is done with it and passes it over
    | Green  // the traversal has not looked at it
    | Amber  // the traversal has looked at it, and may come back

  datatype Page<C> = Page(url: nat, crawler: Option<C>)

  datatype Cell<N, C> = Cell(value: string, parent: Option<N>, children: seq<N>, depth: int, index: int,
                             colour: Colour, page: Option<Page<C>>) {
    /** A page no crawler has been given. */
    predicate Free() {
      page.Some? && page.value.crawler.None?
    }

    predicate Taken() {
      page.Some? && page.value.crawler.Some?
    }
  }

  /** Parents and children agree, and depth counts steps from the root. */
  ghost predicate Links<N, C>(t: map<N, Cell<N, C>>, root: N) {
    && root in t && t[root].parent == None && t[root].depth == 0
    && (forall n {:trigger t[n].depth} :: n in t ==> 0 <= t[n].depth)
    && (forall n {:trigger t[n].parent} :: n in t && n != root ==> HasParent(t, n))
    && (forall n, i {:trigger t[n].children[i]} :: n in t && 0 <= i < |t[n].children| ==> IsChild(t, n, i))
  }

  ghost predicate HasParent<N, C>(t: map<N, Cell<N, C>>, n: N)
    requires n in t
  {
    && t[n].parent.Some? && t[n].parent.value in t
    && n in t[t[n].parent.value].children && t[n].depth == t[t[n].parent.value].depth + 1
  }

  /** Each child knows its place among the children. */
  ghost predicate IsChild<N, C>(t: map<N, Cell<N, C>>, n: N, i: nat)
    requires n in t && i < |t[n].children|
  {
    var c := t[n].children[i];
    c in t && t[c].parent == Some(n) && t[c].index == i
  }

  /** Pages sit on leaves. */
  ghost predicate PagesOnLeaves<N, C>(t: map<N, Cell<N, C>>, root: N) {
    forall n {:trigger t[n].page} :: n in t && t[n].page.Some? ==> n != root && t[n].children == []
  }

  /** Moreover every leaf has one. */
  ghost predicate Shape<N, C>(t: map<N, Cell<N, C>>, root: N) {
    && Links(t, root) && PagesOnLeaves(t, root)
    && forall n {:trigger t[n].page} :: n in t && n != root && t[n].children == [] ==> t[n].page.Some?
  }

  ghost predicate NoDeeper<N, C>(t: map<N, Cell<N, C>>, height: nat) {
    forall n {:trigger t[n].depth} :: n in t ==> t[n].depth <= height
  }

  /** The two trees have the same nodes, linked in the same way. */
  ghost predicate SameLinks<N, C>(t: map<N, Cell<N, C>>, u: map<N, Cell<N, C>>) {
    && t.Keys == u.Keys
    && forall n {:trigger u[n]} {:trigger t[n]} :: n in t ==>
         u[n] == t[n].(colour := u[n].colour, page := u[n].page) && (t[n].page.Some? <==> u[n].page.Some?)
  }

  /** The two trees differ in colours only. */
  ghost predicate SameButColour<N, C>(t: map<N, Cell<N, C>>, u: map<N, Cell<N, C>>) {
    t.Keys == u.Keys && forall n {:trigger u[n]} {:trigger t[n]} :: n in t ==> u[n] == t[n].(colour := u[n].colour)
  }

  lemma SameLinksSameShape<N, C>(t: map<N, Cell<N, C>>, u: map<N, Cell<N, C>>, root: N)
    requires SameLinks(t, u)
    ensures Links(t, root) ==> Links(u, root)
    ensures Shape(t, root) ==> Shape(u, root)
  {
    if Links(t, root) {
      forall n | n in u && n != root ensures HasParent(u, n) {
        assert t[n].parent == u[n].parent && HasParent(t, n);
      }
      forall n, i | n in u && 0 <= i < |u[n].children| ensures IsChild(u, n, i) {
        var c := t[n].children[i];
        assert IsChild(t, n, i);
      }
    }
  }

  lemma ShapeIgnoresColour<N, C>(t: map<N, Cell<N, C>>, u: map<N, Cell<N, C>>, root: N)
    requires Shape(t, root) && SameButColour(t, u)
    ensures Shape(u, root)
  {
    SameLinksSameShape(t, u, root);
  }

  lemma RepaintedShape<N, C>(t: map<N, Cell<N, C>>, u: map<N, Cell<N, C>>, root: N)
    ensures Shape(t, root) && SameButColour(t, u) ==> Shape(u, root)
  {
    if Shape(t, root) && SameButColour(t, u) {
      ShapeIgnoresColour(t, u, root);
    }
  }

  // ----- What Red means -----

  /** The nodes whose page some crawler has. */
  ghost function TakenNodes<N, C>(t: map<N, Cell<N, C>>): set<N> {
    set n | n in t && t[n].Taken()
  }

  /** A Red node is no page waiting for a crawler, and each child is Red too or an assigned page. */
  ghost predicate Settled<N, C>(t: map<N, Cell<N, C>>) {
    forall n {:trigger t[n].colour} :: n in t && t[n].colour == Red ==> SettledAt(t, n)
  }

  /** The Red nodes that hide something: there are none in a settled tree. */
  ghost function Astray<N, C>(t: map<N, Cell<N, C>>): (a: set<N>)
    ensures Settled(t) <==> a == {}
  {
    var a := set n | n in t && t[n].colour == Red && !SettledAt(t, n);
    assert forall n {:trigger t[n].colour} :: n in t && t[n].colour == Red && n !in a ==> SettledAt(t, n);
    a
  }

  ghost predicate SettledAt<N, C>(t: map<N, Cell<N, C>>, n: N)
    requires n in t
  {
    !t[n].Free() && forall c <- t[n].children :: c in t && (t[c].colour == Red || t[c].Taken())
  }

  /** `m` is `n` or lies below it. */
  ghost predicate Below<N, C>(t: map<N, Cell<N, C>>, root: N, n: N, m: N)
    requires Links(t, root) && m in t
    decreases t[m].depth
  {
    m == n || (m != root && HasParent(t, m) && Below(t, root, n, t[m].parent.value))
  }

  /** What waits below a Red node, or is not visited yet, lies below an astray one. */
  lemma {:induction false} WaitsBelowAstray<N, C>(t: map<N, Cell<N, C>>, root: N, n: N, m: N) returns (a: N)
    requires Shape(t, root) && n in t && t[n].colour == Red && m in t && Below(t, root, n, m)
    requires t[m].Free() || (t[m].colour != Red && !t[m].Taken())
    ensures a in Astray(t) && Below(t, root, n, a) && Below(t, root, a, m)
    decreases t[m].depth
  {
    a := m;
    if m != n {
      var p := t[m].parent.value;
      assert HasParent(t, m) && t[p].page.None? && Below(t, root, p, p);
      if t[p].colour != Red {
        a := WaitsBelowAstray(t, root, n, p);
      } else if !SettledAt(t, p) {
        a := p;
      }
    }
  }

  /** In a settled tree a Red node has only assigned pages below it: everything below is Red, or an assigned page. */
  lemma RedMeansAssignedBelow<N, C>(t: map<N, Cell<N, C>>, root: N, n: N, m: N)
    requires Shape(t, root) && Settled(t)
    requires n in t && t[n].colour == Red && m in t && Below(t, root, n, m)
    ensures !t[m].Free() && (t[m].colour == Red || t[m].Taken())
  {
    if t[m].Free() || (t[m].colour != Red && !t[m].Taken()) {
      var a := WaitsBelowAstray(t, root, n, m);
    }
  }

  lemma {:induction false} AllBelowRoot<N, C>(t: map<N, Cell<N, C>>, root: N, m: N)
    requires Shape(t, root) && m in t
    ensures Below(t, root, root, m)
    decreases t[m].depth
  {
    if m != root {
      assert t[m].parent.Some? && HasParent(t, m);
      AllBelowRoot(t, root, t[m].parent.value);
    }
  }

  /** When the root is Red no page waits for a crawler. */
  lemma RedRootMeansAllAssigned<N, C>(t: map<N, Cell<N, C>>, root: N)
    requires Shape(t, root) && Settled(t) && t[root].colour == Red
    ensures forall n {:trigger t[n]} :: n in t ==> !t[n].Free()
  {
    forall n | n in t ensures !t[n].Free() {
      AllBelowRoot(t, root, n);
      RedMeansAssignedBelow(t, root, root, n);
    }
  }

  // ----- The cursor -----

  /** The cursor and all its ancestors are not Red. */
  ghost predicate Open<N, C>(t: map<N, Cell<N, C>>, root: N, n: N)
    requires Links(t, root) && n in t
    decreases t[n].depth
  {
    t[n].colour != Red && (n == root || (HasParent(t, n) && Open(t, root, t[n].parent.value)))
  }

  lemma {:induction false} RootIsOpen<N, C>(t: map<N, Cell<N, C>>, root: N, n: N)
    requires Links(t, root) && n in t && Open(t, root, n)
    ensures t[root].colour != Red && Open(t, root, root)
    decreases t[n].depth
  {
    if n != root {
      RootIsOpen(t, root, t[n].parent.value);
    }
  }

  ghost function NonRed<N, C>(t: map<N, Cell<N, C>>): set<N> {
    set n | n in t && t[n].colour != Red
  }

  /** Only colours above the cursor matter: nodes at its depth or deeper may turn Red. */
  lemma {:induction false} OpenAbove<N, C>(t: map<N, Cell<N, C>>, u: map<N, Cell<N, C>>, root: N, n: N)
    requires Links(t, root) && SameLinks(t, u) && Links(u, root)
    requires n in t && Open(t, root, n)
    requires forall m {:trigger u[m]} :: m in t && t[m].depth <= t[n].depth && t[m].colour != Red ==> u[m].colour != Red
    ensures Open(u, root, n)
    decreases t[n].depth
  {
    if n != root {
      assert HasParent(t, n) && HasParent(u, n);
      OpenAbove(t, u, root, t[n].parent.value);
    }
  }

  // ----- One step of the traversal -----

  /** A child that select_best_child weighs: not Red, and not a page already assigned. */
  ghost predicate Candidate<N, C>(t: map<N, Cell<N, C>>, c: N) {
    c in t && t[c].colour != Red && !t[c].Taken()
  }

  /** The colours after select_best_child has looked at the first children `cs` of a node. */
  ghost function Looked<N, C>(t: map<N, Cell<N, C>>, cs: seq<N>): (u: map<N, Cell<N, C>>)
    ensures u.Keys == t.Keys
  {
    map n | n in t :: if n in cs && t[n].colour != Red then t[n].(colour := Amber) else t[n]
  }

  lemma LookedNone<N, C>(t: map<N, Cell<N, C>>)
    ensures Looked(t, []) == t
  {
  }

  lemma LookedOneMore<N, C>(t: map<N, Cell<N, C>>, cs: seq<N>, i: nat)
    requires i < |cs|
    ensures Looked(Looked(t, cs[..i]), [cs[i]]) == Looked(t, cs[..i + 1])
    ensures Candidate(t, cs[i]) ==> Candidate(Looked(t, cs[..i]), cs[i])
    ensures Candidate(Looked(t, cs[..i]), cs[i]) ==> Candidate(t, cs[i])
  {
    assert forall c :: c in cs[..i + 1] <==> c in cs[..i] || c == cs[i];
  }

  /** `best` is the last of the heaviest candidates among `cs`. */
  ghost predicate Heaviest<N, C>(t: map<N, Cell<N, C>>, weights: map<N, real>, cs: seq<N>, best: N) {
    exists b :: 0 <= b < |cs| && cs[b] == best && Wins(t, weights, cs, b)
  }

  ghost predicate Wins<N, C>(t: map<N, Cell<N, C>>, weights: map<N, real>, cs: seq<N>, b: nat)
    requires b < |cs|
  {
    && Candidate(t, cs[b]) && cs[b] in weights
    && forall j :: 0 <= j < |cs| && Candidate(t, cs[j]) ==>
         cs[j] in weights && weights[cs[j]] <= weights[cs[b]] && (b < j ==> weights[cs[j]] < weights[cs[b]])
  }

  /** One more child is weighed against the best so far. */
  lemma HeaviestOneMore<N, C>(t: map<N, Cell<N, C>>, weights: map<N, real>, cs: seq<N>, i: nat, best: Option<N>, chosen: Option<N>)
    requires i < |cs| && (forall c <- cs :: c in weights)
    requires if best.Some? then Heaviest(t, weights, cs[..i], best.value) else forall j :: 0 <= j < i ==> !Candidate(t, cs[j])
    requires if !Candidate(t, cs[i]) then chosen == best
             else if best.Some? && weights[best.value] > weights[cs[i]] then chosen == best
             else chosen == Some(cs[i])
    ensures if chosen.Some? then Heaviest(t, weights, cs[..i + 1], chosen.value) else forall j :: 0 <= j < i + 1 ==> !Candidate(t, cs[j])
  {
    var ds := cs[..i + 1];
    if best.Some? {
      var b :| 0 <= b < i && cs[..i][b] == best.value && Wins(t, weights, cs[..i], b);
      forall j | 0 <= j < i && Candidate(t, ds[j])
        ensures weights[ds[j]] <= weights[ds[b]] && (b < j ==> weights[ds[j]] < weights[ds[b]])
      {
        assert cs[..i][j] == ds[j];
      }
      if Candidate(t, cs[i]) && weights[best.value] <= weights[cs[i]] {
        assert Wins(t, weights, ds, i);
      } else {
        assert Wins(t, weights, ds, b);
      }
    } else if chosen.Some? {
      assert Wins(t, weights, ds, i);
    }
  }

  ghost function Paint<N, C>(t: map<N, Cell<N, C>>, n: N, colour: Colour): (u: map<N, Cell<N, C>>)
    requires n in t
    ensures u.Keys == t.Keys
  {
    t[n := t[n].(colour := colour)]
  }

  /** Gives the page of node `n` to crawler `c`. */
  ghost function Assign<N, C>(t: map<N, Cell<N, C>>, n: N, c: C): (u: map<N, Cell<N, C>>)
    requires n in t && t[n].page.Some?
    ensures u.Keys == t.Keys
  {
    t[n := t[n].(page := Some(t[n].page.value.(crawler := Some(c))))]
  }

  /** Looking at nodes turns none Red and unsettles none. */
  lemma LookingKeeps<N, C>(t: map<N, Cell<N, C>>, cs: seq<N>, root: N)
    requires Shape(t, root)
    ensures var u := Looked(t, cs);
            SameButColour(t, u) && Shape(u, root) && Astray(u) == Astray(t) && NonRed(u) == NonRed(t)
  {
    hide Shape;
    var u := Looked(t, cs);
    ShapeIgnoresColour(t, u, root);
    forall m | m in u && u[m].colour == Red ensures SettledAt(u, m) <==> SettledAt(t, m) {
      assert t[m] == u[m];
    }
  }

  /** A candidate was found: the traversal goes down, and no node turned Red. */
  lemma StepDown<N, C>(t: map<N, Cell<N, C>>, root: N, n: N, best: N)
    requires Shape(t, root) && n in t && Open(t, root, n)
    requires best in t[n].children && Candidate(t, best)
    ensures var u := Looked(t, t[n].children);
            && SameButColour(t, u) && Shape(u, root) && Astray(u) == Astray(t) && NonRed(u) == NonRed(t)
            && Open(u, root, best) && u[best].depth == u[n].depth + 1
  {
    var u := Looked(t, t[n].children);
    LookingKeeps(t, t[n].children, root);
    OpenAbove(t, u, root, n);
    ChildrenHaveParent(t, root, n);
    assert HasParent(u, best);
  }

  lemma ChildrenHaveParent<N, C>(t: map<N, Cell<N, C>>, root: N, n: N)
    requires Links(t, root) && n in t
    ensures forall c <- t[n].children :: c in t && t[c].parent == Some(n) && c != root && HasParent(t, c)
  {
    forall c | c in t[n].children ensures c in t && t[c].parent == Some(n) {
      var i :| 0 <= i < |t[n].children| && t[n].children[i] == c;
      assert IsChild(t, n, i);
    }
  }

  /** Turning a node Red unsettles at most that node. */
  lemma PaintRed<N, C>(t: map<N, Cell<N, C>>, root: N, n: N)
    requires Shape(t, root) && n in t && t[n].colour != Red
    requires forall c <- t[n].children :: c in t ==> t[c].colour == Red || t[c].Taken()
    ensures var u := Paint(t, n, Red);
            && SameButColour(t, u) && NonRed(u) == NonRed(t) - {n}
            && Astray(u) <= Astray(t) + if t[n].Free() then {n} else {}
  {
    var u := Paint(t, n, Red);
    ChildrenHaveParent(t, root, n);
    forall m | m in t && m != n && t[m].colour == Red && SettledAt(t, m) ensures SettledAt(u, m) {
    }
    assert !t[n].Free() ==> SettledAt(u, n);
  }

  /** A node that turns Red leaves its ancestors as they were. */
  lemma ParentStaysOpen<N, C>(t: map<N, Cell<N, C>>, u: map<N, Cell<N, C>>, root: N, n: N)
    requires Links(t, root) && Links(u, root) && SameButColour(t, u) && n in t && n != root && Open(t, root, n)
    requires forall m {:trigger u[m]} :: m in t && m != n && t[m].colour != Red ==> u[m].colour != Red
    ensures HasParent(t, n) && Open(u, root, t[n].parent.value)
  {
    OpenAbove(t, u, root, t[n].parent.value);
  }

  lemma NoneLeft<N, C>(t: map<N, Cell<N, C>>, n: N)
    requires n in t && forall c <- t[n].children :: !Candidate(t, c)
    ensures var v := Looked(t, t[n].children);
            && v[n].children == t[n].children && (v[n].colour == Red <==> t[n].colour == Red) && v[n].page == t[n].page
            && (forall c <- v[n].children :: c in v ==> v[c].colour == Red || v[c].Taken())
            && forall m {:trigger v[m]} :: m in t ==> (v[m].colour == Red <==> t[m].colour == Red)
  {
  }

  /** No candidate was found: the node turns Red, and its ancestors stay as they were. */
  lemma StepUp<N, C>(t: map<N, Cell<N, C>>, root: N, n: N)
    requires Shape(t, root) && n in t && Open(t, root, n)
    requires forall c <- t[n].children :: !Candidate(t, c)
    ensures var u := Paint(Looked(t, t[n].children), n, Red);
            && SameButColour(t, u) && Shape(u, root) && NonRed(u) < NonRed(t) && u[n].colour == Red
            && Astray(u) <= Astray(t) + (if t[n].Free() then {n} else {})
            && (n != root ==> HasParent(t, n) && Open(u, root, t[n].parent.value))
  {
    hide Looked, Candidate;
    var v := Looked(t, t[n].children);
    var u := Paint(v, n, Red);
    LookingKeeps(t, t[n].children, root);
    NoneLeft(t, n);
    PaintRed(v, root, n);
    ShapeIgnoresColour(t, u, root);
    if n != root {
      ParentStaysOpen(t, u, root, n);
    }
    hide Shape, Astray, Open, HasParent, Links;
    assert n in NonRed(t);
  }

  /** The leaf the traversal stops at has turned Red; giving it to a crawler settles the tree. */
  lemma AssignSettles<N, C>(t: map<N, Cell<N, C>>, root: N, n: N, c: C)
    requires Shape(t, root) && n in t && t[n].colour == Red && t[n].Free()
    ensures Shape(Assign(t, n, c), root) && Astray(Assign(t, n, c)) <= Astray(t) - {n} && n != root && HasParent(t, n)
  {
    var v := Assign(t, n, c);
    SameLinksSameShape(t, v, root);
    assert t[n].children == [] && n != root && t[n].parent.Some? && HasParent(t, n);
    forall m | m in t && t[m].colour == Red && SettledAt(t, m) ensures SettledAt(v, m) {
    }
  }

  lemma AssignTakesOne<N, C>(t: map<N, Cell<N, C>>, n: N, c: C)
    requires n in t && t[n].Free()
    ensures TakenNodes(Assign(t, n, c)) == TakenNodes(t) + {n} && n !in TakenNodes(t)
    ensures NonRed(Assign(t, n, c)) == NonRed(t)
  {
  }

  // ----- Cleaning a branch -----

  lemma {:induction false} BelowIgnoresColour<N, C>(t: map<N, Cell<N, C>>, u: map<N, Cell<N, C>>, root: N, n: N, m: N)
    requires Shape(t, root) && SameButColour(t, u) && Shape(u, root) && m in t
    ensures Below(t, root, n, m) <==> Below(u, root, n, m)
    decreases t[m].depth
  {
    if m != n && m != root {
      assert t[m].parent.Some? && HasParent(t, m) && HasParent(u, m);
      BelowIgnoresColour(t, u, root, n, t[m].parent.value);
    }
  }

  /** Whatever is below a node is below its parent. */
  lemma {:induction false} BelowParent<N, C>(t: map<N, Cell<N, C>>, root: N, n: N, m: N)
    requires Shape(t, root) && m in t && n in t && n != root && HasParent(t, n)
    requires Below(t, root, n, m)
    ensures Below(t, root, t[n].parent.value, m)
    decreases t[m].depth
  {
    if m != n {
      BelowParent(t, root, n, t[m].parent.value);
    } else {
      assert Below(t, root, t[n].parent.value, t[n].parent.value);
    }
  }

  /** The colour clean_tree_branch(n) leaves on node `m`. */
  ghost function CleanColour<N, C>(t: map<N, Cell<N, C>>, root: N, n: N, m: N): Colour
    requires Shape(t, root) && n in t && m in t
  {
    if !Below(t, root, m, n) then t[m].colour else if m == n && n != root && t[n].children == [] then Green else Amber
  }

  ghost predicate Cleaned<N, C>(t: map<N, Cell<N, C>>, u: map<N, Cell<N, C>>, root: N, n: N)
    requires Shape(t, root) && n in t
  {
    SameButColour(t, u) && forall m {:trigger u[m]} :: m in t ==> u[m].colour == CleanColour(t, root, n, m)
  }

  lemma CleanedRoot<N, C>(t: map<N, Cell<N, C>>, root: N)
    requires Shape(t, root)
    ensures Cleaned(t, Paint(t, root, Amber), root, root)
  {
  }

  lemma {:induction false} BelowIsDeeper<N, C>(t: map<N, Cell<N, C>>, root: N, n: N, m: N)
    requires Links(t, root) && m in t && Below(t, root, n, m)
    ensures n in t && t[n].depth <= t[m].depth
    decreases t[m].depth
  {
    if m != n {
      BelowIsDeeper(t, root, n, t[m].parent.value);
    }
  }

  /** Painting a node and then cleaning from its parent is cleaning from the node. */
  lemma CleanedStep<N, C>(t: map<N, Cell<N, C>>, v: map<N, Cell<N, C>>, root: N, n: N)
    requires Shape(t, root) && n in t && n != root && t[n].parent.Some? && t[n].parent.value in t
    ensures var u := Paint(t, n, if t[n].children == [] then Green else Amber);
            Shape(u, root) && Cleaned(u, v, root, t[n].parent.value) ==> Cleaned(t, v, root, n)
  {
    var p, u := t[n].parent.value, Paint(t, n, if t[n].children == [] then Green else Amber);
    assert HasParent(t, n);
    if Shape(u, root) && Cleaned(u, v, root, p) {
      forall m | m in t ensures v[m].colour == CleanColour(t, root, n, m) {
        BelowIgnoresColour(t, u, root, m, p);
        assert v[m].colour == CleanColour(u, root, p, m);
        if m == n && Below(t, root, n, p) {
          BelowIsDeeper(t, root, n, p);
        }
      }
    }
  }

  /** Cleaning the branch of `n` settles a tree that was unsettled on that branch only, and opens it up to `n`. */
  lemma CleaningSettles<N, C>(t: map<N, Cell<N, C>>, u: map<N, Cell<N, C>>, root: N, n: N)
    requires Shape(t, root) && n in t && Cleaned(t, u, root, n)
    ensures Shape(u, root) && Open(u, root, n) && Astray(u) <= set m | m in Astray(t) && !Below(t, root, m, n)
  {
    ShapeIgnoresColour(t, u, root);
    forall m | m in u && u[m].colour == Red ensures !Below(t, root, m, n) && t[m].colour == Red && (SettledAt(t, m) ==> SettledAt(u, m)) {
      assert u[m] == t[m] && !Below(t, root, m, n);
      ChildrenHaveParent(t, root, m);
      forall c | c in u[m].children && Below(t, root, c, n) ensures false {
        BelowParent(t, root, c, n);
      }
    }
    BranchOpens(t, u, root, n, n);
  }

  lemma {:induction false} BranchOpens<N, C>(t: map<N, Cell<N, C>>, u: map<N, Cell<N, C>>, root: N, n: N, m: N)
    requires Shape(t, root) && n in t && Cleaned(t, u, root, n) && Shape(u, root)
    requires m in t && Below(t, root, m, n)
    ensures Open(u, root, m)
    decreases t[m].depth
  {
    assert u[m].colour == CleanColour(t, root, n, m);
    if m != root {
      assert t[m].parent.Some? && HasParent(t, m) && HasParent(u, m);
      BelowParent(t, root, m, n);
      BranchOpens(t, u, root, n, t[m].parent.value);
    }
  }

  // ----- Taking a page back -----

  ghost function Unassign<N, C>(t: map<N, Cell<N, C>>, n: N): (u: map<N, Cell<N, C>>)
    requires n in t && t[n].page.Some?
    ensures u.Keys == t.Keys
  {
    t[n := t[n].(page := Some(t[n].page.value.(crawler := None)))]
  }

  /** A page taken back unsettles its own branch at most. */
  lemma UnassignUnsettlesBranch<N, C>(t: map<N, Cell<N, C>>, root: N, n: N)
    requires Shape(t, root) && n in t && t[n].page.Some?
    ensures var u := Unassign(t, n);
            && Shape(u, root) && u[n].Free()
            && Astray(u) <= Astray(t) + set m | m in u && Below(u, root, m, n)
  {
    var u := Unassign(t, n);
    SameLinksSameShape(t, u, root);
    assert t[n].parent.Some? && HasParent(t, n) && HasParent(u, n);
    forall m | m in t && t[m].colour == Red && SettledAt(t, m) && m != n ensures SettledAt(u, m) || Below(u, root, m, n) {
      ChildrenHaveParent(t, root, m);
      if n in t[m].children {
        assert Below(u, root, m, m);
      }
    }
  }
}
