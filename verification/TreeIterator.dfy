/** The order in which the parts of a URL lead through the tree (url/TreeIterator.cpp). */
module TreeIterators {
  import opened Wrappers
  import opened Sequences
  import opened Urls

  function Reversed(s: seq<string>): (r: seq<string>)
    ensures |r| == |s| && forall i :: 0 <= i < |s| ==> r[i] == s[|s| - 1 - i]
  {
    if s == [] then [] else [s[|s| - 1]] + Reversed(s[..|s| - 1])
  }

  function PagePart(page: string): seq<string> {
    if page == "" then [] else [page]
  }

  /** The way through the tree: the domain from its top level down, the path, and the page if there is one. */
  function Way(a: Attributes): seq<string> {
    if a.domain == [] then [] else (if a.ip then a.domain else Reversed(a.domain)) + (a.path + PagePart(a.page))
  }

  /** It is empty exactly when the domain is. */
  lemma WayIsEmpty(a: Attributes)
    ensures Way(a) == [] <==> a.domain == []
  {
  }

  /** The parts of the way, by their places. */
  lemma WayByPlace(a: Attributes)
    requires a.domain != []
    ensures var way, n := Way(a), |a.domain|;
            && |way| == n + |a.path| + (if a.page == "" then 0 else 1)
            && (forall i :: 0 <= i < n ==> way[i] == a.domain[if a.ip then i else n - 1 - i])
            && (forall j :: 0 <= j < |a.path| ==> way[n + j] == a.path[j])
            && (a.page != "" ==> way[|way| - 1] == a.page)
  {
  }

  /** Two URLs with domains of one length, both with a page or both without, lead to one place exactly when they agree. */
  lemma WaysDiffer(a: Attributes, b: Attributes)
    requires |a.domain| == |b.domain| > 0 && a.ip == b.ip && (a.page == "" <==> b.page == "")
    ensures Way(a) == Way(b) <==> a.domain == b.domain && a.path == b.path && a.page == b.page
  {
    hide Way;
    WayByPlace(a);
    WayByPlace(b);
    if Way(a) == Way(b) {
      forall i | 0 <= i < |a.domain| ensures a.domain[i] == b.domain[i] {
        var place := if a.ip then i else |a.domain| - 1 - i;
        assert Way(a)[place] == Way(b)[place];
      }
      forall j | 0 <= j < |a.path| ensures a.path[j] == b.path[j] {
        assert Way(a)[|a.domain| + j] == Way(b)[|a.domain| + j];
      }
    }
    SameFieldsSameWay(a, b);
  }

  lemma SameFieldsSameWay(a: Attributes, b: Attributes)
    ensures a.domain == b.domain && a.path == b.path && a.page == b.page && a.ip == b.ip ==> Way(a) == Way(b)
  {
  }

  /** A page with the name of a directory leads to the place of that directory. */
  lemma PageLikeDirectory(a: Attributes, name: string)
    requires name != ""
    ensures Way(a.(path := a.path + [name], page := "")) == Way(a.(page := name))
  {
    assert a.path + [name] + [] == a.path + [name];
  }

  /** The parts of the domain from an index on, upwards for an address and downwards for a name. */
  function From(domain: seq<string>, ip: bool, i: nat): seq<string>
    requires i < |domain|
  {
    if ip then domain[i..] else Reversed(domain[..i + 1])
  }

  /** What is left of the domain behind an index. */
  function Behind(domain: seq<string>, ip: bool, i: nat): seq<string>
    requires i < |domain|
  {
    if ip then (if i + 1 < |domain| then From(domain, ip, i + 1) else [])
    else if i > 0 then From(domain, ip, i - 1) else []
  }

  lemma FromStep(domain: seq<string>, ip: bool, i: nat, rest: seq<string>)
    requires i < |domain|
    ensures From(domain, ip, i) + rest == [domain[i]] + (Behind(domain, ip, i) + rest)
  {
    assert domain[..i + 1][..i] == domain[..i];
  }

  datatype Internal = Begin | Transient | End
  datatype External = InDomain | InPath | AtPage | Finished

  class TreeIterator {
    const url: Attributes
    var internal: Internal
    var external: External
    var value: Option<string>
    var index: nat

    /** The parts still to come after the one the iterator is at. */
    ghost function Left(): (l: seq<string>)
      requires Valid()
      reads this
    {
      if internal == End then [] else
      match external
      case InDomain => DomainLeft() + (url.path + PagePart(url.page))
      case InPath => url.path[index..] + PagePart(url.page)
      case AtPage => PagePart(url.page)
      case Finished => []
    }

    ghost function DomainLeft(): seq<string>
      requires url.domain == [] || index < |url.domain|
      reads this`index
    {
      if url.domain == [] then [] else From(url.domain, url.ip, index)
    }

    ghost predicate Valid()
      reads this
    {
      && internal != Begin && (internal == End ==> value == None && external == Finished)
      && (external == InDomain ==> url.domain == [] || index < |url.domain|) && (external == InPath ==> index <= |url.path|)
    }

    /** At the beginning of the URL: the pointer is moved to the first part just once. */
    constructor (url: Attributes)
      ensures Valid() && this.url == url
      ensures url.domain == [] ==> value == None && Left() == url.path + PagePart(url.page)
      ensures url.domain != [] ==> value == Some(Way(url)[0]) && Left() == Way(url)[1..]
    {
      this.url, internal, external, value, index := url, Begin, Finished, None, 0;
      new;
      var recall := MovePointerForward();
    }

    /** Moves on by one part, or only to the next state: then it is to be called again. */
    method MovePointerForward() returns (recall: bool)
      requires if internal == Begin then value == None else Valid()
      modifies this`internal, this`external, this`value, this`index
      ensures Valid()
      ensures old(internal) == Begin ==> recall == (url.domain == [])
      ensures old(internal) == Begin && url.domain == [] ==> value == None && Left() == url.path + PagePart(url.page)
      ensures old(internal) == Begin && url.domain != [] ==> value == Some(Way(url)[0]) && Left() == Way(url)[1..]
      ensures old(internal) != Begin ==> Moved(old(Left()), recall) && Rank(external) <= Rank(old(external))
      ensures old(internal) != Begin && recall ==> internal == old(internal) && value == old(value) && Rank(external) < Rank(old(external))
    {
      if internal == Begin {
        Prepare();
      }
      recall := MoveOn();
    }

    /** The next part is the first of those that were left; nothing changes when only the state did. */
    ghost predicate Moved(left: seq<string>, recall: bool)
      requires Valid()
      reads this
    {
      if recall then Left() == left
      else if left == [] then value == None && internal == End && Left() == []
      else value == Some(left[0]) && Left() == left[1..]
    }

    /** Sets the index for the state the iteration begins with. */
    method Prepare()
      requires internal == Begin
      modifies this`internal, this`external, this`index
      ensures Valid() || value != None
      ensures internal == Transient && external == InDomain && (url.domain == [] || index < |url.domain|)
      ensures DomainLeft() == if url.ip then url.domain else Reversed(url.domain)
    {
      internal, external := Transient, InDomain;
      if url.ip {
        index := 0;
      } else if url.domain != [] {
        index := |url.domain| - 1;
        assert url.domain[..index + 1] == url.domain;
      }
    }

    method MoveOn() returns (recall: bool)
      requires Valid()
      modifies this`internal, this`external, this`value, this`index
      ensures Valid() && Moved(old(Left()), recall) && Rank(external) <= Rank(old(external))
      ensures recall ==> internal == old(internal) && value == old(value) && Rank(external) < Rank(old(external))
      ensures old(external) == InDomain && old(internal) != End ==> recall == (url.domain == [])
    {
      if internal != End && external == InDomain && url.domain != [] {
        NextOfDomain();
        return false;
      }
      recall := false;
      match external
      case InDomain =>
        external, recall, index := InPath, true, 0;
      case InPath =>
        if url.path != [] && index < |url.path| {
          value := Some(url.path[index]);
          index := index + 1;
        } else {
          external, recall, index := AtPage, true, 0;
        }
      case AtPage =>
        if url.page != "" {
          value := Some(url.page);
        } else {
          recall := true;
        }
        external := Finished;
      case Finished =>
        value := None;
        internal := End;
    }

    method NextOfDomain()
      requires Valid() && internal != End && external == InDomain && url.domain != []
      modifies this`external, this`value, this`index
      ensures Valid() && Moved(old(Left()), false) && Rank(external) <= Rank(old(external))
    {
      hide From;
      ghost var rest := url.path + PagePart(url.page);
      FromStep(url.domain, url.ip, index, rest);
      ghost var left := Behind(url.domain, url.ip, index) + rest;
      assert Left() == [url.domain[index]] + left;
      var end := false;
      value := Some(url.domain[index]);
      if url.ip {
        if index == |url.domain| - 1 {
          end := true;
        } else {
          index := index + 1;
        }
      } else {
        if index == 0 {
          end := true;
        } else {
          index := index - 1;
        }
      }
      if end {
        external, index := InPath, 0;
      }
      assert Left() == left;
    }

    static function Rank(e: External): nat {
      match e
      case InDomain => 3
      case InPath => 2
      case AtPage => 1
      case Finished => 0
    }

    /** Moves on to the next part; after the last there is none. */
    method Increment()
      requires Valid()
      modifies this`internal, this`external, this`value, this`index
      ensures Valid()
      ensures if old(Left()) == [] then value == None && Left() == []
              else value == Some(old(Left())[0]) && Left() == old(Left())[1..]
    {
      if internal != End {
        var recall := true;
        while recall
          invariant Valid() && (recall ==> Left() == old(Left()))
          invariant !recall ==> if old(Left()) == [] then value == None && Left() == [] else value == Some(old(Left())[0]) && Left() == old(Left())[1..]
          decreases Rank(external), recall
        {
          recall := MovePointerForward();
        }
      }
    }
  }

  /**
    All that the iteration yields, as the insertion into the tree asks for it. A URL without a domain
    yields nothing, not even its path: the iterator is at its end from the beginning.
   */
  method Iterate(url: Attributes) returns (way: seq<string>)
    ensures way == Way(url)
    ensures url.domain == [] ==> way == []
    ensures url.domain != [] ==>
              && |way| == |url.domain| + |url.path| + (if url.page == "" then 0 else 1)
              && (forall i :: 0 <= i < |url.domain| ==> way[i] == url.domain[if url.ip then i else |url.domain| - 1 - i])
              && (forall j :: 0 <= j < |url.path| ==> way[|url.domain| + j] == url.path[j])
              && (url.page != "" ==> way[|way| - 1] == url.page)
  {
    hide Way, TreeIterator.Left;
    WayIsEmpty(url);
    var i := new TreeIterator(url);
    way := [];
    while i.value != None
      invariant i.Valid() && i.url == url
      invariant url.domain == [] ==> i.value == None && way == []
      invariant url.domain != [] ==> way + (if i.value == None then [] else [i.value.value]) + i.Left() == Way(url) && (i.value == None ==> i.Left() == [])
      decreases if i.value == None then 0 else 1 + |i.Left()|
    {
      ghost var left := i.Left();
      if left != [] {
        Associative(way + [i.value.value], [left[0]], left[1..]);
        assert left == [left[0]] + left[1..];
      }
      way := way + [i.value.value];
      i.Increment();
    }
    if url.domain != [] {
      WayByPlace(url);
    }
  }
}
