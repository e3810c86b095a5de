/** The registry of message prototypes, indexed by rank (net/oop/Factory.cpp). */
module Factories {
  import opened Wrappers
  import opened BitSets
  import opened Sequences

  /** One place for each message; a place may be empty. A prototype is known by its message id. */
  type Registry = seq<Option<nat>>

  /** What enrolling message `id` makes of the registry, when `members` are enrolled. */
  ghost function Enrolled(registry: Registry, members: set<nat>, id: nat): (r: Registry)
    requires Place(members, id) <= |registry|
    ensures |r| == |registry| + 1
  {
    (registry + [None])[Place(members, id) := Some(id)]
  }

  /** The registry answers like a map: each member's prototype is at the member's place. */
  ghost predicate Agrees(registry: Registry, members: set<nat>) {
    |registry| == |members| && forall id :: id in members ==> Place(members, id) < |registry| && registry[Place(members, id)] == Some(id)
  }

  ghost predicate Greatest(members: set<nat>, id: nat) {
    forall x :: x in members ==> x < id
  }

  lemma PlaceOfGreatest(members: set<nat>, id: nat)
    ensures Place(members, id) <= |members|
    ensures id !in members ==> (Greatest(members, id) <==> Place(members, id) == |members|)
  {
    var below := set x | x in members && x < id;
    SmallerSubset(below, members);
    if id !in members && Place(members, id) == |members| {
      if x :| x in members && x >= id {
        SmallerSubset(below + {x}, members);
      }
    }
    if Greatest(members, id) {
      assert below == members;
    }
  }

  /** A new greatest member leaves the places of the others as they were. */
  lemma PlacesStay(members: set<nat>, id: nat, x: nat)
    requires x <= id
    ensures Place(members + {id}, x) == Place(members, x)
  {
    assert (set y | y in members + {id} && y < x) == set y | y in members && y < x;
  }

  lemma GreatestOf(members: set<nat>) returns (m: nat)
    requires members != {}
    ensures m in members && forall x :: x in members ==> x <= m
  {
    m :| m in members;
    if members != {m} {
      var rest := members - {m};
      var other := GreatestOf(rest);
      m := if other > m then other else m;
      assert forall x :: x in members ==> x in rest || x in members - rest;
    }
  }

  /**
    Enrolling keeps the registry in agreement exactly when the id is greater than all before: the new
    place at the end would otherwise belong to another message, and be empty.
   */
  lemma EnrolledAgrees(registry: Registry, members: set<nat>, id: nat)
    requires |registry| == |members| && id !in members
    ensures Place(members, id) <= |registry|
    ensures Agrees(Enrolled(registry, members, id), members + {id}) <==> Agrees(registry, members) && Greatest(members, id)
  {
    PlaceOfGreatest(members, id);
    var all := members + {id};
    var r := Enrolled(registry, members, id);
    if Agrees(r, all) {
      LastPlaceIsGreatest(registry, members, id);
      forall x | x in members ensures Place(members, x) < |registry| && registry[Place(members, x)] == Some(x) {
        PlacesStay(members, id, x);
        PlaceIncreases(all, x, id);
        PlacesStay(members, id, id);
      }
    }
    if Agrees(registry, members) && Greatest(members, id) {
      PlacesStay(members, id, id);
      forall x | x in members ensures Place(all, x) < |r| && r[Place(all, x)] == Some(x) {
        PlacesStay(members, id, x);
      }
    }
  }

  /** The last place is that of the greatest member. */
  lemma LastPlace(members: set<nat>, m: nat)
    requires m in members && forall x :: x in members ==> x <= m
    ensures Place(members, m) == |members| - 1
  {
    assert (set x | x in members && x < m) == members - {m};
  }

  lemma LastPlaceIsGreatest(registry: Registry, members: set<nat>, id: nat)
    requires |registry| == |members| && id !in members && Place(members, id) <= |registry|
    requires Agrees(Enrolled(registry, members, id), members + {id})
    ensures Greatest(members, id)
  {
    hide Place;
    var m := GreatestOf(members + {id});
    LastPlace(members + {id}, m);
    assert Enrolled(registry, members, id)[|registry|] == Some(m);
    assert m == id;
  }

  // ----- Enrolling messages one after the other -----

  ghost predicate Increasing(ids: seq<nat>) {
    forall i, j :: 0 <= i < j < |ids| ==> ids[i] < ids[j]
  }

  ghost function EnrolledAll(ids: seq<nat>): (r: Registry)
    requires Distinct(ids)
    ensures |r| == |ids|
  {
    if ids == [] then [] else
      var init, last := ids[..|ids| - 1], ids[|ids| - 1];
      DistinctSize(init);
      PlaceOfGreatest(Elements(init), last);
      Enrolled(EnrolledAll(init), Elements(init), last)
  }

  /** The registry agrees with the ids enrolled exactly when they were enrolled in increasing order. */
  lemma {:induction false} AgreesWhenIncreasing(ids: seq<nat>)
    requires Distinct(ids)
    ensures Agrees(EnrolledAll(ids), Elements(ids)) <==> Increasing(ids)
  {
    hide Agrees, Increasing, Greatest, Enrolled;
    if ids == [] {
      NothingAgrees();
    } else {
      var init, last := ids[..|ids| - 1], ids[|ids| - 1];
      AgreesWhenIncreasing(init);
      DistinctSize(init);
      assert Elements(ids) == Elements(init) + {last};
      EnrolledAgrees(EnrolledAll(init), Elements(init), last);
      IncreasingTo(ids);
    }
  }

  lemma NothingAgrees()
    ensures Agrees([], Elements([])) && Increasing([])
  {
  }

  lemma IncreasingTo(ids: seq<nat>)
    requires ids != []
    ensures Increasing(ids) <==> Increasing(ids[..|ids| - 1]) && Greatest(Elements(ids[..|ids| - 1]), ids[|ids| - 1])
  {
    var init, last := ids[..|ids| - 1], ids[|ids| - 1];
    if Increasing(init) && Greatest(Elements(init), last) {
      forall i, j | 0 <= i < j < |ids| ensures ids[i] < ids[j] {
        if j == |ids| - 1 {
          assert init[i] in Elements(init);
        } else {
          assert init[i] < init[j];
        }
      }
    }
  }

  /** The order the program enrols its messages in is right; the reverse order is not, with two messages already. */
  lemma EnrolmentOrders()
    ensures Agrees(EnrolledAll([10, 11, 12]), Elements([10, 11, 12]))
    ensures !Agrees(EnrolledAll([11, 10]), Elements([11, 10]))
  {
    AgreesWhenIncreasing([10, 11, 12]);
    AgreesWhenIncreasing([11, 10]);
    assert [11, 10][0] > [11, 10][1];
  }

  /** What asking for a message of some id leads to. */
  datatype Creation = Unknown | NullPrototype | Made(prototype: nat, bodySize: nat)

  class Factory {
    const index: BitSet
    var registry: Registry

    ghost function Members(): (m: set<nat>)
      reads index.words
    {
      index.Members()
    }

    ghost predicate Valid()
      reads this`registry, index.words
    {
      index.Valid() && |registry| == |Members()|
    }

    constructor (maxMessageId: nat)
      ensures Valid() && fresh(index.words) && index.max == maxMessageId && Members() == {} && registry == []
    {
      index := new BitSet(maxMessageId);
      registry := [];
    }

    /** Enrols the prototype of message `id`, unless the id is too large or enrolled already. */
    method Enroll(id: nat) returns (enrolled: bool)
      requires Valid()
      modifies this`registry, index.words
      ensures Valid() && (enrolled <==> id <= index.max && id !in old(Members()))
      ensures !enrolled ==> registry == old(registry) && Members() == old(Members())
      ensures enrolled ==>
                && Members() == old(Members()) + {id} && Place(old(Members()), id) <= |old(registry)|
                && registry == Enrolled(old(registry), old(Members()), id)
    {
      ghost var members := Members();
      enrolled := index.SetBits(id);
      if !enrolled {
        assert Members() == members;
        return;
      }
      PlaceOfGreatest(members, id);
      PlacesStay(members, id, id);
      var i := index.IndexOf(id);
      var s := |registry| + 1;
      if i < s {
        registry := registry + [None];
      }
      registry := registry[i := Some(id)];
    }

    /** A message of the enrolled type; the code follows the registry blindly. */
    method Create(id: nat, bodySize: nat) returns (c: Creation)
      requires Valid()
      ensures c.Unknown? <==> id !in Members()
      ensures Agrees(registry, Members()) && id in Members() ==> c == Made(id, bodySize)
    {
      var i := index.IndexOf(id);
      if i == -1 {
        return Unknown;
      }
      PlaceOfGreatest(Members(), id);
      PlaceBelowSize(Members(), id);
      c := if registry[i].None? then NullPrototype else Made(registry[i].value, bodySize);
    }
  }

  lemma PlaceBelowSize(members: set<nat>, id: nat)
    requires id in members
    ensures Place(members, id) < |members|
  {
    SmallerSubset((set x | x in members && x < id) + {id}, members);
  }
}
