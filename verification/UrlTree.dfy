/** The tree that URLs are inserted into (utility/Tree.ipp, utility/Node.ipp, utility/IndexedSet.ipp). */
module UrlTrees {
  import opened Wrappers
  import opened Traversal
  import opened Tries
  import opened Nodes

  class Tree {
    const root: Node
    ghost var nodes: set<Node>
    ghost var height: nat
    ghost var inserted: set<seq<string>>  // the paths inserted

    ghost function View(): (t: map<Node, Cell<Node, Crawler>>)
      reads this`nodes
      reads nodes`parent, nodes`children, nodes`visitState, nodes`pathIdx, nodes`childIdx, nodes`page
      reads (set n <- nodes :: n.page)`crawler
      ensures t.Keys == nodes
    {
      Cells(nodes)
    }

    ghost predicate Valid()
      reads this`nodes, this`height
      reads nodes`parent, nodes`children, nodes`visitState, nodes`pathIdx, nodes`childIdx, nodes`page
      reads (set n <- nodes :: n.page)`crawler
    {
      Links(View(), root) && Siblings(View(), root) && NoDeeper(View(), height)
    }

    constructor (root: Node)
      requires root.parent == null && root.children == []
      modifies root`pathIdx, root`childIdx
      ensures this.root == root && nodes == {root} && height == 0 && Valid() && root.childIdx == root.pathIdx == -1
      ensures inserted == {} && SpellsClosure(View(), root, inserted)
    {
      this.root, nodes, height, inserted := root, {root}, 0, {};
      new;
      root.pathIdx, root.childIdx := -1, -1;
      RootSpellsClosure(View(), root);
    }

    /** The child of `p` with value `v`, or null: the set of children holds no two with the same value. */
    method FindChild(p: Node, v: string) returns (n: Node?)
      requires Valid() && p in nodes
      ensures n != null ==> n in nodes && n in p.children && n.value == v
      ensures n == null ==> forall c <- p.children :: c.value != v
    {
      ValuesAgree(nodes, p);
      ChildrenHaveParent(View(), root, p);
      hide Links, Siblings, NoDeeper;
      var i := 0;
      while i < |p.children|
        invariant 0 <= i <= |p.children| && forall j :: 0 <= j < i ==> p.children[j].value != v
      {
        if p.children[i].value == v {
          return p.children[i];
        }
        i := i + 1;
      }
      return null;
    }

    /** Appends a new node to the children of `p`. */
    method Append(p: Node, v: string) returns (n: Node)
      requires p in nodes
      modifies this`nodes, p`children
      ensures fresh(n) && nodes == old(nodes) + {n} && Blank(n)
      ensures View() == AddChild(old(View()), p, n, v)
    {
      hide Blank, Cells;
      ghost var t := Cells(nodes);
      CellSeen(nodes, p);
      n := new Node(v);
      assert Cells(nodes) == t;
      AdoptChild(nodes, p, n);
      assert n.Seen() == Cell(v, Some(p), [], t[p].depth + 1, |t[p].children|, Green, None);
      CellsWithOneMore(nodes, n);
      nodes := nodes + {n};
    }

    /** Appends a child with a value none of the children has. */
    method Attach(p: Node, v: string) returns (n: Node)
      requires Valid() && p in nodes && forall c <- p.children :: c.value != v
      modifies this`nodes, this`height, p`children
      ensures Valid() && fresh(n) && n in nodes && View() == AddChild(old(View()), p, n, v) && Blank(n)
    {
      hide Links, Siblings, Blank, Cells;
      ghost var t := View();
      ValuesAgree(nodes, p);
      n := Append(p, v);
      ghost var u := View();
      AddChildSiblings(t, root, p, n, v);
      height := height + 1;
      assert View() == u;
    }

    /** The child of `p` with value `v`, made if there is none. */
    method CreateChild(p: Node, v: string) returns (n: Node, ghost added: bool)
      requires Valid() && p in nodes
      modifies this`nodes, this`height, p`children
      ensures Valid() && n in nodes
      ensures !added ==> nodes == old(nodes) && View() == old(View()) && n in p.children && n.value == v
      ensures added ==> fresh(n) && View() == AddChild(old(View()), p, n, v) && Blank(n)
      ensures added ==> forall c <- old(p.children) :: c.value != v
    {
      hide Links, Siblings, NoDeeper, AddChild, Blank;
      var c := FindChild(p, v);
      added := c == null;
      if c == null {
        n := Attach(p, v);
      } else {
        n := c;
      }
    }

    /** One step down the path `done` + [v], whose nodes up to `p` are there already. */
    method Step(p: Node, v: string, ghost t: map<Node, Cell<Node, Crawler>>, ghost done: seq<string>, ghost at0: Node, ghost ns0: seq<Node>,
                ghost s: set<Node>)
      returns (n: Node, ghost at: Node, ghost ns: seq<Node>)
      requires Valid() && p in nodes && p == Tip(at0, ns0) && Links(t, root) && Grown(t, View(), root, done, at0, ns0)
      modifies this`nodes, this`height, p`children
      ensures Valid() && n in nodes && n == Tip(at, ns) && Grown(t, View(), root, done + [v], at, ns)
      ensures fresh(nodes - old(nodes)) && old(nodes) <= nodes
      ensures old(AllBlank(nodes - s)) ==> AllBlank(nodes - s)
    {
      hide Links, Siblings, NoDeeper, AddChild, AddPath, Grown, Spell;
      ghost var u, added := View(), false;
      ValuesAgree(nodes, p);
      n, added := CreateChild(p, v);
      if added {
        GrownAppend(t, u, root, done, at0, ns0, n, v);
        at, ns := at0, ns0 + [n];
      } else {
        GrownDown(t, u, root, done, at0, ns0, n);
        at, ns := n, [];
      }
    }

    /**
      Walks down `path` from the root, adding the nodes that are not there. The ghost results say
      where the new nodes hang: `ns` is a chain below `at`, which was there before.
     */
    method Insert(path: seq<string>) returns (n: Node, ghost at: Node, ghost ns: seq<Node>)
      requires Valid()
      modifies this`nodes, this`height, this`inserted, nodes`children
      ensures Valid() && n in nodes && n == Tip(at, ns) && fresh(nodes - old(nodes)) && old(nodes) <= nodes
      ensures AllBlank(nodes - old(nodes))
      ensures Grown(old(View()), View(), root, path, at, ns)
      ensures inserted == old(inserted) + {path}
      ensures old(SpellsClosure(View(), root, inserted)) ==> SpellsClosure(View(), root, inserted)
    {
      hide Links, Siblings, NoDeeper, Grown, Spell, AllBlank, Cells, SpellsClosure;
      ghost var t := View();
      n, at, ns := Walk(path);
      ghost var u := View();
      InsertionKeepsClosure(t, u, root, path, at, ns, inserted);
      inserted := inserted + {path};
      assert View() == u;
    }

    /** The walk itself. */
    method Walk(path: seq<string>) returns (n: Node, ghost at: Node, ghost ns: seq<Node>)
      requires Valid()
      modifies this`nodes, this`height, nodes`children
      ensures Valid() && n in nodes && n == Tip(at, ns) && fresh(nodes - old(nodes)) && old(nodes) <= nodes
      ensures AllBlank(nodes - old(nodes))
      ensures Grown(old(View()), View(), root, path, at, ns)
    {
      hide Links, Siblings, NoDeeper, AddChild, AddPath, Grown, Spell, AllBlank;
      n, at, ns := root, root, [];
      ghost var t, s := View(), nodes;
      GrownStart(t, root);
      assert path[..0] == [];
      NoneIsBlank(nodes - s);
      var i := 0;
      while i < |path|
        invariant 0 <= i <= |path| && Valid() && n in nodes && n == Tip(at, ns)
        invariant fresh(nodes - old(nodes)) && old(nodes) <= nodes
        invariant AllBlank(nodes - s)
        invariant Links(t, root) && Grown(t, View(), root, path[..i], at, ns)
      {
        n, at, ns := Step(n, path[i], t, path[..i], at, ns, s);
        TakeOneMore(path, i);
        i := i + 1;
      }
      assert path[..i] == path;
    }
  }
}
