/** URLs: how they are taken apart (url/Parser.cpp) and put together (url/URL.cpp). */
module Urls {
  import opened Sequences
  import opened Texts
  import opened Wrappers

  datatype Attributes = Attributes(ip: bool, scheme: string, username: string, password: string, domain: seq<string>,
                                   port: string, path: seq<string>, page: string)

  const NONE: Attributes := Attributes(false, "", "", "", [], "", [], "")

  datatype State = Scheme | Username | Password | Domain | Port | Path | Page | Query

  /** What is found in a URL: its attributes, and the text of the query. */
  datatype Parsed = Parsed(attributes: Attributes, query: string)

  // ----- What the parts of a URL are -----

  /** How many parts before the last are numbers, counted in 16 bits. */
  function Octets(parts: seq<string>, isNumber: string -> bool): nat {
    if |parts| <= 1 then 0 else Octets(parts[..|parts| - 1], isNumber) + if isNumber(parts[|parts| - 2]) then 1 else 0
  }

  /** Whether the domain is an IP address: four numbers, among the parts before the last just three. */
  function IsIp(domain: seq<string>, isNumber: string -> bool): bool
    requires domain != []
  {
    isNumber(domain[|domain| - 1]) && Octets(domain, isNumber) % 0x1_0000 == 3
  }

  /** Where the domain that begins at `i` ends: at the last colon before the first slash, or at the slash. */
  function DomainEnd(url: string, i: nat): (j: nat)
    requires i < |url|
    ensures i <= j <= |url| && (j < |url| ==> url[j] == ':' || url[j] == '/')
  {
    var slash := First(url, {'/'}, i);
    var colon := Last(url, ':', slash);
    if colon > i then colon else slash
  }

  /** What follows the scheme that ends at `k`: credentials if there is an @ before the first slash. */
  function AfterScheme(url: string, k: nat): (s: State)
    ensures s == Username || s == Domain
  {
    var slash := if k + 3 <= |url| then First(url, {'/'}, k + 3) else |url|;
    if Last(url, '@', slash) >= 0 then Username else Domain
  }

  function AfterDomain(url: string, j: nat): State {
    if j >= |url| then Page else if url[j] == ':' then Port else if url[j] == '/' then Path else Page
  }

  /** The states that collect a field, up to a character that ends it. */
  predicate Collects(s: State) {
    s == Username || s == Password || s == Port || s == Page
  }

  function Separator(s: State): char {
    match s
    case Password => '@'
    case Port => '/'
    case Page => '?'
    case _ => ':'
  }

  function Following(s: State): State {
    match s
    case Username => Password
    case Password => Domain
    case Port => Path
    case _ => Query
  }

  /** Adds the text to the field that the state collects. */
  function Collect(s: State, a: Attributes, text: string): Attributes {
    match s
    case Scheme => a.(scheme := a.scheme + Lower(text))
    case Username => a.(username := a.username + text)
    case Password => a.(password := a.password + text)
    case Port => a.(port := a.port + text)
    case Page => a.(page := a.page + text)
    case _ => a
  }

  /** What is found from `i` on, in a state of the scanner, in addition to what has been found. */
  function Rest(s: State, url: string, i: nat, a: Attributes, isNumber: string -> bool): Parsed
    decreases |url| - i, if s == Path then 1 else 0
  {
    if i >= |url| then Parsed(a, "") else
    match s
    case Scheme =>
      var k := First(url, {':'}, i);
      var b := Collect(s, a, url[i..k]);
      if k == |url| then Parsed(b, "") else Rest(AfterScheme(url, k), url, k + 3, b, isNumber)
    case Domain =>
      var j := DomainEnd(url, i);
      var domain := Split(Lower(url[i..j]), '.');
      Rest(AfterDomain(url, j), url, j + 1, a.(domain := domain, ip := IsIp(domain, isNumber)), isNumber)
    case Path =>
      var j := Last(url, '/', |url|);
      if j < i then Rest(Page, url, i, a, isNumber)
      else Rest(Page, url, j + 1, a.(path := Split(url[i..j], '/')), isNumber)
    case Query => Parsed(a, url[i..])
    case _ =>
      var k := First(url, {Separator(s)}, i);
      Rest(Following(s), url, k + 1, Collect(s, a, url[i..k]), isNumber)
  }

  /** Some links begin with a domain: their first dot comes before any colon or slash. */
  function Begin(url: string): State {
    if First(url, {':', '/'}, 0) > First(url, {'.'}, 0) then Domain else Scheme
  }

  /** The parts of a URL. */
  function Find(url: string, isNumber: string -> bool): Parsed {
    Rest(Begin(url), url, 0, NONE, isNumber)
  }

  // ----- The scanner -----

  method TokeniseScheme(url: string, index: nat, scheme: string) returns (state: State, next: nat, found: string)
    requires index < |url|
    ensures if url[index] == ':' then state == AfterScheme(url, index) && next == index + 2 && found == scheme
            else state == Scheme && next == index && found == scheme + [ToLower(url[index])]
  {
    state, next, found := Scheme, index, scheme;
    if url[index] == ':' {
      next := index + 2;
      var slash := if next + 1 <= |url| then First(url, {'/'}, next + 1) else |url|;
      state := if Last(url, '@', slash) >= 0 then Username else Domain;
    } else {
      found := found + [ToLower(url[index])];
    }
  }

  /** The loop fills one part after the other, and counts the numbers among those it has left. */
  method TokeniseDomain(url: string, index: nat, isNumber: string -> bool)
    returns (state: State, next: nat, domain: seq<string>, ip: bool)
    requires index < |url|
    ensures next == DomainEnd(url, index) && state == AfterDomain(url, next)
    ensures domain == Split(Lower(url[index..next]), '.') && ip == IsIp(domain, isNumber)
  {
    hide Split, Octets, First, Last, ToLower;
    var j := First(url, {'/'}, index);
    var i := Last(url, ':', j);
    if i > index {
      j := i;
    }
    next := index;
    domain := [""];
    NothingSplit('.');
    OctetsOfNothing(isNumber);
    var octets := 0;
    while next < j
      invariant index <= next <= j && domain == Split(Lower(url[index..next]), '.')
      invariant octets == Octets(domain, isNumber) % 0x1_0000
    {
      LowerStep(url, index, next);
      SplitAppend(Lower(url[index..next]), ToLower(url[next]), '.');
      var n := |domain| - 1;
      if url[next] == '.' {
        OctetsOfMore(domain, isNumber);
        if isNumber(domain[n]) {
          octets := (octets + 1) % 0x1_0000;
        }
        domain := domain + [""];
      } else {
        OctetsOfOthers(domain, domain[n] + [ToLower(url[next])], isNumber);
        domain := domain[n := domain[n] + [ToLower(url[next])]];
      }
      next := next + 1;
    }
    ip := isNumber(domain[|domain| - 1]) && octets == 3;
    state := if next >= |url| then Page else if url[next] == ':' then Port else if url[next] == '/' then Path else Page;
  }

  lemma NothingSplit(c: char)
    ensures Split(Lower(""), c) == Split("", c) == [""]
  {
  }

  lemma OctetsOfNothing(isNumber: string -> bool)
    ensures Octets([""], isNumber) == 0
  {
  }

  lemma LowerStep(url: string, i: nat, j: nat)
    requires i <= j < |url|
    ensures Lower(url[i..j + 1]) == Lower(url[i..j]) + [ToLower(url[j])] && (ToLower(url[j]) == '.' <==> url[j] == '.')
  {
  }

  lemma OctetsOfMore(parts: seq<string>, isNumber: string -> bool)
    requires parts != []
    ensures Octets(parts + [""], isNumber) == Octets(parts, isNumber) + if isNumber(parts[|parts| - 1]) then 1 else 0
  {
    assert (parts + [""])[..|parts|] == parts;
  }

  lemma OctetsOfOthers(parts: seq<string>, last: string, isNumber: string -> bool)
    requires parts != []
    ensures Octets(parts[|parts| - 1 := last], isNumber) == Octets(parts, isNumber)
  {
    var changed := parts[|parts| - 1 := last];
    assert changed[..|parts| - 1] == parts[..|parts| - 1];
  }

  method TokenisePath(url: string, index: nat) returns (next: nat, path: seq<string>)
    requires 0 < index < |url| && url[index - 1] == '/'
    ensures var j := Last(url, '/', |url|);
            if j < index then next == index - 1 && path == [] else next == j && path == Split(url[index..j], '/')
  {
    hide First, Last, Split;
    var j := Last(url, '/', |url|);
    next, path := index, [];
    if j == -1 || j == index - 1 {
      next := index - 1;
      return;
    }
    path := [""];
    NothingSplit('/');
    assert url[index..index] == "";
    while next < j
      invariant index <= next <= j && path == Split(url[index..next], '/')
    {
      SplitAppend(url[index..next], url[next], '/');
      assert url[index..next + 1] == url[index..next] + [url[next]];
      var n := |path| - 1;
      if url[next] == '/' {
        path := path + [""];
      } else {
        path := path[n := path[n] + [url[next]]];
      }
      next := next + 1;
    }
  }

  // ----- One character more -----

  lemma CollectMore(s: State, a: Attributes, c: char, text: string)
    ensures Collect(s, Collect(s, a, [c]), text) == Collect(s, a, [c] + text) && Collect(s, a, "") == a
  {
    assert Lower([c] + text) == Lower([c]) + Lower(text);
    assert forall field: string {:trigger field + ([c] + text)} :: field + [c] + text == field + ([c] + text);
    assert a.scheme + Lower([c]) + Lower(text) == a.scheme + (Lower([c]) + Lower(text));
    assert a.username + [c] + text == a.username + ([c] + text) && a.password + [c] + text == a.password + ([c] + text);
    assert a.port + [c] + text == a.port + ([c] + text) && a.page + [c] + text == a.page + ([c] + text);
    assert a.scheme + Lower("") == a.scheme && a.username + "" == a.username && a.password + "" == a.password;
    assert a.port + "" == a.port && a.page + "" == a.page;
  }

  lemma CollectedMore(s: State, url: string, i: nat, a: Attributes, c: char)
    requires i < |url|
    ensures url[i] == c ==> First(url, {c}, i) == i && Collect(s, a, url[i..i]) == a
    ensures url[i] != c ==>
              var k := First(url, {c}, i);
              First(url, {c}, i + 1) == k && Collect(s, Collect(s, a, [url[i]]), url[i + 1..k]) == Collect(s, a, url[i..k])
  {
    FirstStep(url, {c}, i);
    assert url[i..i] == "";
    CollectMore(s, a, url[i], url[i + 1..First(url, {c}, i + 1)]);
  }

  lemma OneMoreOfScheme(url: string, i: nat, a: Attributes, isNumber: string -> bool)
    requires i < |url|
    ensures Rest(Scheme, url, i, a, isNumber) ==
            if url[i] == ':' then Rest(AfterScheme(url, i), url, i + 3, a, isNumber)
            else Rest(Scheme, url, i + 1, Collect(Scheme, a, [url[i]]), isNumber)
    ensures Lower([url[i]]) == [ToLower(url[i])]
  {
    hide Collect, AfterScheme;
    CollectedMore(Scheme, url, i, a, ':');
    NothingLeft(Scheme, url, i, Collect(Scheme, a, [url[i]]));
  }

  /** At the end of the URL nothing more is found. */
  lemma NothingLeft(s: State, url: string, i: nat, a: Attributes)
    requires i < |url|
    ensures i + 1 == |url| ==> Collect(s, a, url[i + 1..|url|]) == a
  {
    CollectMore(s, a, ':', "");
    assert i + 1 == |url| ==> url[i + 1..|url|] == "";
  }

  lemma ThenField(s: State, url: string, i: nat, a: Attributes, isNumber: string -> bool)
    requires i < |url| && Collects(s)
    ensures var k := First(url, {Separator(s)}, i);
            Rest(s, url, i, a, isNumber) == Rest(Following(s), url, k + 1, Collect(s, a, url[i..k]), isNumber)
  {
  }

  /** In the states that collect a field, the field ends at the separator, and otherwise gets the character. */
  lemma OneMoreOfField(s: State, url: string, i: nat, a: Attributes, isNumber: string -> bool)
    requires i < |url| && Collects(s)
    ensures Rest(s, url, i, a, isNumber) ==
            if url[i] == Separator(s) then Rest(Following(s), url, i + 1, a, isNumber)
            else Rest(s, url, i + 1, Collect(s, a, [url[i]]), isNumber)
  {
    hide Collect, Rest, Following;
    CollectedMore(s, url, i, a, Separator(s));
    ThenField(s, url, i, a, isNumber);
    if url[i] != Separator(s) {
      var b := Collect(s, a, [url[i]]);
      if i + 1 < |url| {
        ThenField(s, url, i + 1, b, isNumber);
      } else {
        NothingLeft(s, url, i, b);
        AtTheEnd(s, url, i + 1, b, isNumber);
        AtTheEnd(Following(s), url, i + 2, b, isNumber);
      }
    }
  }

  /** Scans the URL from left to right, with one state for each part of it. */
  method Scan(url: string, isNumber: string -> bool) returns (a: Attributes, query: string)
    ensures Parsed(a, query) == Find(url, isNumber)
  {
    hide Rest, First, Split, DomainEnd, AfterScheme, IsIp, Lower;
    var s, i := Scheme, 0;
    a, query := NONE, "";
    if First(url, {':', '/'}, 0) > First(url, {'.'}, 0) {
      s := Domain;
    }
    while i < |url| && s != Query
      invariant Rest(s, url, i, a, isNumber) == Find(url, isNumber) && (s == Path ==> 0 < i && (i < |url| ==> url[i - 1] == '/'))
      decreases |url| + 3 - i, if s == Path then 1 else 0
    {
      match s
      case Scheme =>
        OneMoreOfScheme(url, i, a, isNumber);
        var next, found;
        s, next, found := TokeniseScheme(url, i, a.scheme);
        i, a := next, a.(scheme := found);
        i := i + 1;
      case Username =>
        OneMoreOfField(s, url, i, a, isNumber);
        if url[i] == ':' {
          s := Password;
        } else {
          a := a.(username := a.username + [url[i]]);
        }
        i := i + 1;
      case Password =>
        OneMoreOfField(s, url, i, a, isNumber);
        if url[i] == '@' {
          s := Domain;
        } else {
          a := a.(password := a.password + [url[i]]);
        }
        i := i + 1;
      case Domain =>
        ThenDomain(url, i, a, isNumber);
        var next, domain, ip;
        s, next, domain, ip := TokeniseDomain(url, i, isNumber);
        i, a := next, a.(domain := domain, ip := ip);
        i := i + 1;
      case Port =>
        OneMoreOfField(s, url, i, a, isNumber);
        if url[i] == '/' {
          s := Path;
        } else {
          a := a.(port := a.port + [url[i]]);
        }
        i := i + 1;
      case Path =>
        ThenPath(url, i, a, isNumber);
        var next, path := TokenisePath(url, i);
        s := Page;
        i, a := next, if path == [] then a else a.(path := path);
        i := i + 1;
      case Page =>
        OneMoreOfField(s, url, i, a, isNumber);
        if url[i] == '?' {
          s := Query;
        } else {
          a := a.(page := a.page + [url[i]]);
        }
        i := i + 1;
    }
    if i < |url| {
      query := url[i..];
    }
    AtTheEnd(s, url, i, a, isNumber);
  }

  lemma ThenDomain(url: string, i: nat, a: Attributes, isNumber: string -> bool)
    requires i < |url|
    ensures var j := DomainEnd(url, i); var domain := Split(Lower(url[i..j]), '.');
            Rest(Domain, url, i, a, isNumber) == Rest(AfterDomain(url, j), url, j + 1, a.(domain := domain, ip := IsIp(domain, isNumber)), isNumber)
  {
  }

  lemma ThenPath(url: string, i: nat, a: Attributes, isNumber: string -> bool)
    requires i < |url|
    ensures var j := Last(url, '/', |url|);
            Rest(Path, url, i, a, isNumber) ==
            if j < i then Rest(Page, url, i, a, isNumber) else Rest(Page, url, j + 1, a.(path := Split(url[i..j], '/')), isNumber)
  {
  }

  lemma AtTheEnd(s: State, url: string, i: nat, a: Attributes, isNumber: string -> bool)
    requires i >= |url| || s == Query
    ensures Rest(s, url, i, a, isNumber) == Parsed(a, if i < |url| then url[i..] else "")
  {
  }

  // ----- Dot segments -----

  predicate Plain(path: seq<string>) {
    forall part <- path :: part != "." && part != ".."
  }

  /** What removing dot segments makes of a path. It stays defined for one path that has any. */
  function Normalised(path: seq<string>): Option<seq<string>> {
    if Plain(path) then Some(path) else if path == ["."] then Some([]) else None
  }

  /**
    The loop erases parts, but looks for the end where it was before: once a part is gone it comes to a
    place behind the last part. None says that it reads there, or erases in front of the first.
   */
  method Normalise(path: seq<string>) returns (r: Option<seq<string>>)
    ensures r == Normalised(path)
  {
    var parts, i, end := path, 0, |path|;
    while i != end
      invariant 0 <= i <= |parts| + 1 && |parts| <= end == |path|
      invariant |parts| == end ==> i <= end && parts == path && Plain(path[..i])
      invariant |parts| < end ==> !Plain(path) && if path == ["."] then i == end && parts == [] else i < end
      decreases 2 * |parts| + end - i
    {
      if i >= |parts| {
        return None;
      }
      assert |parts| == end ==> path[..i + 1] == path[..i] + [parts[i]] && parts[i] in path;
      if parts[i] == ".." {
        if i == 0 {
          return None;
        }
        parts := parts[..i - 1] + parts[i + 1..];
        i := i - 1;
      } else if parts[i] == "." {
        parts := parts[..i] + parts[i + 1..];
        if i == 0 {
          i := i + 1;
        }
      } else {
        i := i + 1;
      }
    }
    assert path[..end] == path;
    r := Some(parts);
  }

  /** What parsing makes of a URL. */
  function Parsing(url: string, isNumber: string -> bool): Option<Parsed> {
    var found := Find(url, isNumber);
    match Normalised(found.attributes.path)
    case None => None
    case Some(path) => Some(Parsed(found.attributes.(path := path), found.query))
  }

  method Parse(url: string, isNumber: string -> bool) returns (p: Option<Parsed>)
    ensures p == Parsing(url, isNumber)
    ensures p.Some? ==> Addressed(p.value.attributes, isNumber)
    ensures p.Some? ==> var a := p.value.attributes; Free(a.scheme, CAPITALS) && AllFree(a.domain, CAPITALS) && Free(a.page, {'/'})
    ensures p.Some? ==> Plain(p.value.attributes.path) && '/' !in p.value.query
  {
    hide Find, Addressed;
    var a, query := Scan(url, isNumber);
    FoundRegular(url, isNumber);
    var path := Normalise(a.path);
    IpMeans(a, isNumber);
    if path != None {
      SameAddress(a, path.value, isNumber);
    }
    p := if path == None then None else Some(Parsed(a.(path := path.value), query));
  }

  // ----- Addresses -----

  /** The places of the numbers before the last part. */
  function NumbersBefore(parts: seq<string>, isNumber: string -> bool): set<int> {
    set i | 0 <= i < |parts| - 1 && isNumber(parts[i])
  }

  /**
    What is taken for an IP address: the last part is a number, and so are three before it, or 65539, and so
    on. Of four parts all are numbers, and fewer are never an address.
   */
  ghost predicate Addressed(a: Attributes, isNumber: string -> bool) {
    && (a.ip <==> a.domain != [] && isNumber(a.domain[|a.domain| - 1]) && |NumbersBefore(a.domain, isNumber)| % 0x1_0000 == 3)
    && (|a.domain| == 4 ==> (a.ip <==> forall part <- a.domain :: isNumber(part)))
    && (|a.domain| < 4 ==> !a.ip)
  }

  lemma SameAddress(a: Attributes, path: seq<string>, isNumber: string -> bool)
    requires Addressed(a, isNumber)
    ensures Addressed(a.(path := path), isNumber)
  {
  }

  lemma {:induction false} OctetsCount(parts: seq<string>, isNumber: string -> bool)
    ensures Octets(parts, isNumber) == |NumbersBefore(parts, isNumber)|
  {
    if |parts| > 1 {
      var k := |parts| - 1;
      OctetsCount(parts[..k], isNumber);
      var more := if isNumber(parts[k - 1]) then {k - 1} else {};
      assert NumbersBefore(parts, isNumber) == NumbersBefore(parts[..k], isNumber) + more;
    }
  }

  /** At most all parts before the last are numbers. */
  lemma {:induction false} OctetsBound(parts: seq<string>, isNumber: string -> bool)
    requires parts != []
    ensures Octets(parts, isNumber) <= |parts| - 1
    ensures Octets(parts, isNumber) == |parts| - 1 <==> forall i :: 0 <= i < |parts| - 1 ==> isNumber(parts[i])
  {
    if |parts| > 1 {
      var k := |parts| - 1;
      OctetsBound(parts[..k], isNumber);
      assert forall i :: 0 <= i < k ==> parts[..k][i] == parts[i];
    }
  }

  /** What holds of the parts found at any time: the flag goes with the domain, scheme and domain are in lower case. */
  ghost predicate Regular(a: Attributes, isNumber: string -> bool) {
    && (if a.domain == [] then !a.ip else a.ip == IsIp(a.domain, isNumber))
    && Free(a.scheme, CAPITALS) && AllFree(a.domain, CAPITALS) && Free(a.page, {'/'})
  }

  lemma IpMeans(a: Attributes, isNumber: string -> bool)
    requires Regular(a, isNumber)
    ensures Addressed(a, isNumber)
  {
    hide Octets;
    OctetsCount(a.domain, isNumber);
    if a.domain != [] {
      OctetsBound(a.domain, isNumber);
    }
  }

  lemma CollectRegular(s: State, a: Attributes, text: string, isNumber: string -> bool)
    ensures Regular(a, isNumber) && (s == Page ==> Free(text, {'/'})) ==> Regular(Collect(s, a, text), isNumber)
  {
    LowerFree(text);
  }

  lemma SplitRegular(a: Attributes, text: string, isNumber: string -> bool)
    ensures var domain := Split(Lower(text), '.'); Regular(a, isNumber) ==> Regular(a.(domain := domain, ip := IsIp(domain, isNumber)), isNumber)
  {
    LowerFree(text);
    SplitFree(Lower(text), '.', CAPITALS);
  }

  lemma PathRegular(a: Attributes, path: seq<string>, isNumber: string -> bool)
    ensures Regular(a, isNumber) ==> Regular(a.(path := path), isNumber)
  {
  }

  /** Whatever is found is regular, and neither page nor query have a slash. */
  lemma FoundRegular(url: string, isNumber: string -> bool)
    ensures Regular(Find(url, isNumber).attributes, isNumber) && '/' !in Find(url, isNumber).query
  {
    hide Rest;
    StaysRegular(Begin(url), url, 0, NONE, isNumber);
  }

  lemma {:induction false} StaysRegular(s: State, url: string, i: nat, a: Attributes, isNumber: string -> bool)
    requires Regular(a, isNumber) && (s == Page || s == Query ==> forall j :: i <= j < |url| ==> url[j] != '/')
    ensures var p := Rest(s, url, i, a, isNumber); Regular(p.attributes, isNumber) && '/' !in p.query
    decreases |url| - i, if s == Path then 1 else 0
  {
    hide Rest, Regular, AfterScheme, IsIp, Split, First, Last, Lower, Collect;
    if i >= |url| || s == Query {
      AtTheEnd(s, url, i, a, isNumber);
    } else if s == Domain {
      var j := DomainEnd(url, i);
      SplitRegular(a, url[i..j], isNumber);
      ThenDomain(url, i, a, isNumber);
      var domain := Split(Lower(url[i..j]), '.');
      StaysRegular(AfterDomain(url, j), url, j + 1, a.(domain := domain, ip := IsIp(domain, isNumber)), isNumber);
    } else if s == Path {
      var j := Last(url, '/', |url|);
      ThenPath(url, i, a, isNumber);
      if j < i {
        StaysRegular(Page, url, i, a, isNumber);
      } else {
        PathRegular(a, Split(url[i..j], '/'), isNumber);
        StaysRegular(Page, url, j + 1, a.(path := Split(url[i..j], '/')), isNumber);
      }
    } else {
      var k := First(url, {Separator(s)}, i);
      CollectRegular(s, a, url[i..k], isNumber);
      if s != Scheme {
        ThenField(s, url, i, a, isNumber);
        StaysRegular(Following(s), url, k + 1, Collect(s, a, url[i..k]), isNumber);
      } else if k < |url| {
        ThenScheme(url, i, a, isNumber);
        StaysRegular(AfterScheme(url, k), url, k + 3, Collect(s, a, url[i..k]), isNumber);
      } else {
        SchemeOnly(url, i, a, isNumber);
      }
    }
  }

  lemma SchemeOnly(url: string, i: nat, a: Attributes, isNumber: string -> bool)
    requires i < |url|
    ensures var k := First(url, {':'}, i); k == |url| ==> Rest(Scheme, url, i, a, isNumber) == Parsed(Collect(Scheme, a, url[i..k]), "")
  {
  }

  /** What the scanner finds is what parsing gives, if there is no dot segment; and never does it give one. */
  lemma ParsedIfFound(url: string, p: Parsed, isNumber: string -> bool)
    ensures Find(url, isNumber) == p && Plain(p.attributes.path) ==> Parsing(url, isNumber) == Some(p)
    ensures Parsing(url, isNumber) == Some(p) ==>
              && Plain(p.attributes.path) && p.query == Find(url, isNumber).query
              && p.attributes == Find(url, isNumber).attributes.(path := p.attributes.path)
  {
    hide Find;
  }

  // ----- Putting a URL together -----

  function HostText(domain: seq<string>): string {
    if domain == [] then "" else Join(domain, '.')
  }

  function PathText(path: seq<string>): string {
    if path == [] then "" else Join(path, '/') + "/"
  }

  function Credentials(a: Attributes): string {
    if a.username == "" then "" else a.username + (if a.password == "" then "" else ":" + a.password) + "@"
  }

  function PortText(port: string): string {
    if port == "" then "" else ":" + port
  }

  function SchemeText(scheme: string): string {
    if scheme == "" then "" else scheme + "://"
  }

  function ResourceText(path: seq<string>, page: string): string {
    "/" + (PathText(path) + page)
  }

  function Printed(a: Attributes): string {
    SchemeText(a.scheme) + Credentials(a) + HostText(a.domain) + PortText(a.port) + ResourceText(a.path, a.page)
  }

  /** Writing the credentials bit by bit. */
  lemma CredentialsAdded(s: string, a: Attributes)
    ensures a.username != "" ==>
              s + Credentials(a) == (if a.password == "" then s + a.username else s + a.username + ":" + a.password) + "@"
    ensures a.username == "" ==> s + Credentials(a) == s
  {
    Associative(s, a.username, ":");
    Associative(s, a.username + ":", a.password);
    Associative(a.username, ":", a.password);
    Associative(s, a.username + (":" + a.password), "@");
    Associative(s, a.username, "@");
    assert a.username + "" == a.username;
  }

  lemma JoinFrom(parts: seq<string>, c: char, i: nat)
    requires i + 1 < |parts|
    ensures Join(parts[i..], c) == parts[i] + [c] + Join(parts[i + 1..], c)
  {
    assert parts[i..][1..] == parts[i + 1..];
  }

  class Url {
    var attributes: Attributes

    /** Takes the URL apart. */
    constructor (url: string, isNumber: string -> bool)
      requires Parsing(url, isNumber).Some?
      ensures attributes == Parsing(url, isNumber).value.attributes
    {
      hide Parsing;
      var found := Parse(url, isNumber);
      attributes := found.value.attributes;
    }

    method Host() returns (s: string)
      ensures s == HostText(attributes.domain)
    {
      s := "";
      if attributes.domain != [] {
        var i, j := 0, |attributes.domain| - 1;
        while i != j
          invariant 0 <= i <= j && s + Join(attributes.domain[i..], '.') == HostText(attributes.domain)
          decreases j - i
        {
          JoinFrom(attributes.domain, '.', i);
          s := s + (attributes.domain[i] + ".");
          i := i + 1;
        }
        s := s + attributes.domain[j];
      }
    }

    method Resource() returns (s: string)
      ensures s == ResourceText(attributes.path, attributes.page)
    {
      s := "/";
      if attributes.path != [] {
        var i, j := 0, |attributes.path| - 1;
        while i != j
          invariant 0 <= i <= j && s + Join(attributes.path[i..], '/') == "/" + Join(attributes.path, '/')
          decreases j - i
        {
          JoinFrom(attributes.path, '/', i);
          s := s + (attributes.path[i] + "/");
          i := i + 1;
        }
        Associative(s, attributes.path[j], "/");
        Associative("/", Join(attributes.path, '/'), "/");
        s := s + (attributes.path[j] + "/");
      }
      Associative("/", PathText(attributes.path), attributes.page);
      s := s + attributes.page;
    }

    method ToStream() returns (stream: string)
      ensures stream == Printed(attributes)
    {
      hide HostText, ResourceText, Credentials;
      stream := "";
      if attributes.scheme != "" {
        stream := stream + attributes.scheme + "://";
      }
      assert stream == SchemeText(attributes.scheme);
      CredentialsAdded(stream, attributes);
      if attributes.username != "" {
        stream := stream + attributes.username;
        if attributes.password != "" {
          stream := stream + ":" + attributes.password;
        }
        stream := stream + "@";
      }
      var host := Host();
      stream := stream + host;
      if attributes.port != "" {
        Associative(stream, ":", attributes.port);
        stream := stream + ":" + attributes.port;
      } else {
        assert stream + "" == stream;
      }
      var resource := Resource();
      stream := stream + resource;
    }
  }

  // ----- Taking apart what has been put together -----

  lemma {:induction false} JoinFree(parts: seq<string>, c: char, cs: set<char>)
    requires parts != [] && AllFree(parts, cs) && c !in cs
    ensures Free(Join(parts, c), cs)
  {
    if |parts| > 1 {
      assert AllFree(parts[1..], cs);
      JoinFree(parts[1..], c, cs);
    }
    assert Free(parts[0], cs);
  }

  /** A field that is empty becomes what is collected. */
  lemma CollectFresh(s: State, a: Attributes, text: string)
    ensures s == Scheme && a.scheme == "" ==> Collect(s, a, text) == a.(scheme := Lower(text))
    ensures s == Username && a.username == "" ==> Collect(s, a, text) == a.(username := text)
    ensures s == Password && a.password == "" ==> Collect(s, a, text) == a.(password := text)
    ensures s == Port && a.port == "" ==> Collect(s, a, text) == a.(port := text)
    ensures s == Page && a.page == "" ==> Collect(s, a, text) == a.(page := text)
  {
    assert "" + text == text && "" + Lower(text) == Lower(text);
  }

  /** The field in front of its separator is collected. */
  lemma FieldFound(s: State, pre: string, text: string, tail: string, a: Attributes, isNumber: string -> bool)
    requires Collects(s) && Free(text, {Separator(s)})
    ensures Rest(s, pre + text + ([Separator(s)] + tail), |pre|, a, isNumber) ==
            Rest(Following(s), pre + text + ([Separator(s)] + tail), |pre| + |text| + 1, Collect(s, a, text), isNumber)
  {
    hide Rest, Collect;
    var url := pre + text + ([Separator(s)] + tail);
    Middle(pre, text, [Separator(s)] + tail);
    assert url[|pre| + |text|] == Separator(s);
    FirstIs(url, {Separator(s)}, |pre|, |pre| + |text|);
    ThenField(s, url, |pre|, a, isNumber);
  }

  /** The text behind the path: a page, and behind the first question mark a query. */
  function Paged(text: string, a: Attributes): (p: Parsed)
    ensures p.attributes == a.(page := p.attributes.page)
  {
    var k := First(text, {'?'}, 0);
    Parsed(a.(page := text[..k]), if k < |text| then text[k + 1..] else "")
  }

  lemma PageFound(pre: string, text: string, a: Attributes, isNumber: string -> bool)
    requires a.page == ""
    ensures Rest(Page, pre + text, |pre|, a, isNumber) == Paged(text, a)
  {
    hide Rest, Collect, First;
    var url, k := pre + text, First(text, {'?'}, 0);
    if text == "" {
      AtTheEnd(Page, url, |pre|, a, isNumber);
    } else {
      QuestionMark(pre, text);
      CollectFresh(Page, a, text[..k]);
      ThenField(Page, url, |pre|, a, isNumber);
      AtTheEnd(Query, url, |pre| + k + 1, a.(page := text[..k]), isNumber);
    }
  }

  lemma QuestionMark(pre: string, text: string)
    ensures var url, k := pre + text, First(text, {'?'}, 0);
            && First(url, {'?'}, |pre|) == |pre| + k && url[|pre|..|pre| + k] == text[..k]
            && (k < |text| ==> url[|pre| + k + 1..] == text[k + 1..])
  {
    hide First;
    var url, k := pre + text, First(text, {'?'}, 0);
    assert forall j :: |pre| <= j < |url| ==> url[j] == text[j - |pre|];
    FirstIs(url, {'?'}, |pre|, |pre| + k);
  }

  lemma NothingPaged(a: Attributes)
    ensures a.page == "" ==> Paged("", a) == Parsed(a, "")
  {
  }

  /** It is all page when it has no question mark. */
  lemma PagedWhole(a: Attributes)
    ensures var p := Paged(a.page, a.(page := "")); ('?' !in a.page ==> p == Parsed(a, "")) && ('?' in a.page ==> p.attributes.page != a.page)
  {
    var k := First(a.page, {'?'}, 0);
    assert k == |a.page| ==> a.page[..k] == a.page;
  }

  /** No slash is found behind the last one. */
  lemma LastSlash(before: string, page: string)
    requires before != "" && before[|before| - 1] == '/' && Free(page, {'/'})
    ensures var url := before + page; Last(url, '/', |url|) == |before| - 1
  {
    var url := before + page;
    forall j | |before| <= j < |url| ensures url[j] != '/' {
      assert url[j] == page[j - |before|] && url[j] in page;
    }
    LastIs(url, '/', |url|, |before| - 1);
  }

  lemma PathFound(pre: string, path: seq<string>, page: string, a: Attributes, isNumber: string -> bool)
    requires pre != "" && pre[|pre| - 1] == '/' && AllFree(path, {'/'}) && Free(page, {'/'})
    requires a.path == [] && a.page == ""
    ensures Rest(Path, pre + (PathText(path) + page), |pre|, a, isNumber) == Paged(page, a.(path := path))
  {
    hide Rest, Join, Split, Last, Collect, Paged;
    var url, before := pre + (PathText(path) + page), pre + PathText(path);
    Associative(pre, PathText(path), page);
    LastSlash(before, page);
    PageFound(before, page, a.(path := path), isNumber);
    if |pre| == |url| {
      AtTheEnd(Path, url, |pre|, a, isNumber);
      NothingPaged(a);
    } else {
      ThenPath(url, |pre|, a, isNumber);
      if path != [] {
        JoinedPath(pre, path, page);
      }
    }
    if path == [] {
      assert before == pre;
    }
  }

  lemma JoinedPath(pre: string, path: seq<string>, page: string)
    requires path != [] && AllFree(path, {'/'})
    ensures var url := pre + (PathText(path) + page); var j := |pre| + |PathText(path)| - 1;
            Split(url[|pre|..j], '/') == path
  {
    hide Join, Split;
    var url := pre + (PathText(path) + page);
    assert url == pre + Join(path, '/') + ("/" + page);
    Middle(pre, Join(path, '/'), "/" + page);
    SplitJoin(path, '/');
  }

  lemma PortFound(pre: string, port: string, path: seq<string>, page: string, a: Attributes, isNumber: string -> bool)
    requires Free(port, {'/'}) && AllFree(path, {'/'}) && Free(page, {'/'})
    requires a.port == "" && a.path == [] && a.page == ""
    ensures Rest(Port, pre + port + ("/" + (PathText(path) + page)), |pre|, a, isNumber) == Paged(page, a.(port := port, path := path))
  {
    hide Rest, PathText, Collect, Paged;
    var tail := PathText(path) + page;
    FieldFound(Port, pre, port, tail, a, isNumber);
    CollectFresh(Port, a, port);
    Associative(pre + port, "/", tail);
    PathFound(pre + port + "/", path, page, a.(port := port), isNumber);
  }

  /** No other colon is taken for that of the port: the last one counts, unless the host begins with it. */
  ghost predicate Clear(host: string, port: string) {
    if port != "" then host != "" else forall j :: 1 <= j < |host| ==> host[j] != ':'
  }

  /** Exactly then the domain ends at the port, or else at the resource. */
  lemma DomainEndsThere(pre: string, host: string, port: string, tail: string)
    requires Free(host, {'/'}) && Free(port, {'/', ':'})
    ensures DomainEnd(pre + (host + PortText(port)) + ("/" + tail), |pre|) == |pre + host| <==> Clear(host, port)
  {
    hide Last, First;
    var text := host + PortText(port);
    var url, k := pre + text + ("/" + tail), |pre| + |host|;
    var slash := |pre| + |text|;
    HostAndPort(pre, host, port, tail);
    FirstIs(url, {'/'}, |pre|, slash);
    if port != "" {
      LastIs(url, ':', slash, k);
    } else if !Clear(host, port) {
      var j :| 1 <= j < |host| && host[j] == ':';
      assert url[|pre| + j] == ':';
    }
  }

  /** Where slashes and colons are, and are not. */
  lemma HostAndPort(pre: string, host: string, port: string, tail: string)
    requires Free(host, {'/'}) && Free(port, {'/', ':'})
    ensures var url, k, slash := pre + (host + PortText(port)) + ("/" + tail), |pre| + |host|, |pre| + |host + PortText(port)|;
            && url[slash] == '/' && (forall j :: |pre| <= j < slash ==> url[j] != '/')
            && (forall j :: |pre| <= j < k ==> url[j] == host[j - |pre|])
            && (port != "" ==> url[k] == ':') && (forall j :: k < j < slash ==> url[j] != ':')
            && (port == "" ==> slash == k)
  {
    hide PortText, Free;
    var text := host + PortText(port);
    TextClear(host, port);
    var url := pre + text + ("/" + tail);
    assert forall j :: |pre| <= j < |pre| + |text| ==> url[j] == text[j - |pre|];
    assert url[|pre| + |text|] == ("/" + tail)[0];
  }

  lemma TextClear(host: string, port: string)
    requires Free(host, {'/'}) && Free(port, {'/', ':'})
    ensures var text := host + PortText(port);
            && (forall j :: 0 <= j < |text| ==> text[j] != '/' && (j > |host| ==> text[j] != ':'))
            && (if port == "" then text == host else |text| > |host| && text[|host|] == ':')
  {
    var text := host + PortText(port);
    forall j | 0 <= j < |text| ensures text[j] != '/' && (j > |host| ==> text[j] != ':') {
      if j < |host| {
        assert text[j] == host[j] && host[j] in host;
      } else if j > |host| {
        assert text[j] == port[j - |host| - 1] && port[j - |host| - 1] in port;
      }
    }
  }

  lemma DomainFound(pre: string, domain: seq<string>, port: string, path: seq<string>, page: string, a: Attributes, isNumber: string -> bool)
    requires domain != [] && AllFree(domain, {'.', '/'}) && IsLower(Join(domain, '.'))
    requires Free(port, {'/', ':'}) && Clear(Join(domain, '.'), port)
    requires AllFree(path, {'/'}) && Free(page, {'/'}) && a.port == "" && a.path == [] && a.page == ""
    ensures Rest(Domain, pre + (HostText(domain) + PortText(port)) + ResourceText(path, page), |pre|, a, isNumber) ==
            Paged(page, a.(domain := domain, ip := IsIp(domain, isNumber), port := port, path := path))
  {
    hide Rest, Join, PathText, IsIp, Paged, Free, AllFree, IsLower, Clear;
    var b := a.(domain := domain, ip := IsIp(domain, isNumber));
    FreeFewer(port, {'/', ':'}, {'/'});
    DomainThen(pre, domain, port, PathText(path) + page, a, isNumber);
    ResourceFound(pre, Join(domain, '.'), port, path, page, b, isNumber);
  }

  lemma FreeFewer(s: string, cs: set<char>, ds: set<char>)
    requires Free(s, cs) && ds <= cs
    ensures Free(s, ds)
  {
  }

  lemma ResourceFound(pre: string, host: string, port: string, path: seq<string>, page: string, b: Attributes, isNumber: string -> bool)
    requires Free(port, {'/'}) && AllFree(path, {'/'}) && Free(page, {'/'}) && b.port == "" && b.path == [] && b.page == ""
    ensures Rest(if port == "" then Path else Port, pre + (host + PortText(port)) + ("/" + (PathText(path) + page)), |pre + host| + 1, b, isNumber) ==
            Paged(page, b.(port := port, path := path))
  {
    hide Rest, PathText, Paged, Free, AllFree, PortText;
    Regrouped(pre, host, port, PathText(path) + page);
    if port == "" {
      PathFound(pre + host + "/", path, page, b, isNumber);
    } else {
      PortFound(pre + host + ":", port, path, page, b, isNumber);
    }
  }

  /** Where a colon is in the way the domain is not found. */
  lemma DomainLost(pre: string, domain: seq<string>, port: string, path: seq<string>, page: string, a: Attributes, isNumber: string -> bool)
    requires domain != [] && AllFree(domain, {'/'}) && Free(port, {'/', ':'}) && !Clear(Join(domain, '.'), port)
    ensures Rest(Domain, pre + (HostText(domain) + PortText(port)) + ResourceText(path, page), |pre|, a, isNumber).attributes.domain != domain
  {
    hide Rest, Join, PathText, IsIp, Clear, Split, DomainEnd, AfterDomain, Lower;
    var host, tail := Join(domain, '.'), PathText(path) + page;
    var url := pre + (host + PortText(port)) + ("/" + tail);
    JoinFree(domain, '.', {'/'});
    DomainEndsThere(pre, host, port, tail);
    var j := DomainEnd(url, |pre|);
    var found := Split(Lower(url[|pre|..j]), '.');
    ThenDomain(url, |pre|, a, isNumber);
    AfterDomainIsLater(url, j);
    FoundStays(AfterDomain(url, j), url, j + 1, a.(domain := found, ip := IsIp(found, isNumber)), isNumber);
    JoinSplit(Lower(url[|pre|..j]), '.');
    assert found == domain ==> |host| == j - |pre|;
  }

  lemma Regrouped(pre: string, host: string, port: string, tail: string)
    ensures port == "" ==> pre + (host + PortText(port)) + ("/" + tail) == pre + host + "/" + tail
    ensures port != "" ==> pre + (host + PortText(port)) + ("/" + tail) == pre + host + ":" + port + ("/" + tail)
  {
    if port == "" {
      assert host + "" == host;
      Associative(pre + host, "/", tail);
    } else {
      Associative(pre, host, ":" + port);
      Associative(pre + host, ":", port);
    }
  }

  lemma DomainThen(pre: string, domain: seq<string>, port: string, tail: string, a: Attributes, isNumber: string -> bool)
    requires domain != [] && AllFree(domain, {'.', '/'}) && IsLower(Join(domain, '.'))
    requires Free(port, {'/', ':'}) && Clear(Join(domain, '.'), port)
    ensures var host := Join(domain, '.'); var url := pre + (host + PortText(port)) + ("/" + tail);
            Rest(Domain, url, |pre|, a, isNumber) ==
            Rest(if port == "" then Path else Port, url, |pre + host| + 1, a.(domain := domain, ip := IsIp(domain, isNumber)), isNumber)
  {
    hide Rest, Join, IsIp, DomainEnd, Split, IsLower, Lower, Clear;
    var host := Join(domain, '.');
    var url := pre + (host + PortText(port)) + ("/" + tail);
    JoinFree(domain, '.', {'/'});
    DomainEndsThere(pre, host, port, tail);
    ThenDomain(url, |pre|, a, isNumber);
    Associative(pre, host, PortText(port));
    Associative(pre + host, PortText(port), "/" + tail);
    DomainSplit(pre, domain, PortText(port) + ("/" + tail));
    CharAfterHost(pre + host, port, tail);
  }

  lemma CharAfterHost(before: string, port: string, tail: string)
    ensures var url := before + (PortText(port) + ("/" + tail)); url[|before|] == if port == "" then '/' else ':'
  {
  }

  lemma DomainSplit(pre: string, domain: seq<string>, tail: string)
    requires domain != [] && AllFree(domain, {'.', '/'}) && IsLower(Join(domain, '.'))
    ensures var host := Join(domain, '.'); var url := pre + host + tail;
            Split(Lower(url[|pre|..|pre + host|]), '.') == domain
  {
    hide Split, Join;
    Middle(pre, Join(domain, '.'), tail);
    SplitJoin(domain, '.');
  }

  lemma LoginFound(pre: string, user: string, pass: string, tail: string, a: Attributes, isNumber: string -> bool)
    requires Free(user, {':'}) && Free(pass, {'@'}) && a.username == "" && a.password == ""
    ensures var url := pre + user + (":" + (pass + ("@" + tail)));
            Rest(Username, url, |pre|, a, isNumber) ==
            Rest(Domain, url, |pre + user + ":" + pass + "@"|, a.(username := user, password := pass), isNumber)
  {
    hide Rest, Collect;
    var after := pass + ("@" + tail);
    FieldFound(Username, pre, user, after, a, isNumber);
    CollectFresh(Username, a, user);
    Associative(pre + user, ":", after);
    Associative(pre + user + ":", pass, "@" + tail);
    FieldFound(Password, pre + user + ":", pass, tail, a.(username := user), isNumber);
    CollectFresh(Password, a.(username := user), pass);
  }

  /** The scheme, in lower case, is what stands before the first colon. */
  lemma SchemeFound(scheme: string, tail: string, isNumber: string -> bool)
    requires Free(scheme, {':'}) && IsLower(scheme)
    ensures var url := scheme + (":" + tail);
            Rest(Scheme, url, 0, NONE, isNumber) == Rest(AfterScheme(url, |scheme|), url, |scheme| + 3, NONE.(scheme := scheme), isNumber)
  {
    hide AfterScheme, Rest, Collect, First, Lower;
    var url := scheme + (":" + tail);
    assert "" + scheme == scheme;
    Middle("", scheme, ":" + tail);
    FirstIs(url, {':'}, 0, |scheme|);
    ThenScheme(url, 0, NONE, isNumber);
    CollectFresh(Scheme, NONE, scheme);
  }

  lemma ThenScheme(url: string, i: nat, a: Attributes, isNumber: string -> bool)
    requires i < |url|
    ensures var k := First(url, {':'}, i);
            k < |url| ==> Rest(Scheme, url, i, a, isNumber) == Rest(AfterScheme(url, k), url, k + 3, Collect(Scheme, a, url[i..k]), isNumber)
  {
  }

  /** There are credentials when there is an @ before the first slash behind the scheme. */
  lemma AfterSchemeIs(scheme: string, authority: string, tail: string)
    requires Free(scheme, {'@'}) && Free(authority, {'/'})
    ensures AfterScheme(scheme + "://" + authority + ("/" + tail), |scheme|) == if '@' in authority then Username else Domain
  {
    var pre := scheme + "://";
    var url := pre + authority + ("/" + tail);
    var slash := |pre| + |authority|;
    Middle(pre, authority, "/" + tail);
    assert url[slash] == '/';
    FirstIs(url, {'/'}, |pre|, slash);
    forall j | 0 <= j < |pre| ensures url[j] != '@' {
      assert url[j] == pre[j] && (j < |scheme| ==> pre[j] == scheme[j] && scheme[j] in scheme);
    }
    var k := Last(url, '@', slash);
    if '@' in authority {
      var j :| 0 <= j < |authority| && authority[j] == '@';
      assert url[|pre| + j] == '@';
    }
  }

  /** A URL with a scheme is scanned from its scheme on. */
  lemma BeginsWithScheme(scheme: string, tail: string)
    requires Free(scheme, {':', '/', '.'})
    ensures Begin(scheme + (":" + tail)) == Scheme
  {
    var url := scheme + (":" + tail);
    assert "" + scheme == scheme;
    Middle("", scheme, ":" + tail);
    FirstIs(url, {':', '/'}, 0, |scheme|);
  }

  // ----- The round trip -----

  /**
    No field holds a character that ends it, scheme and domain are in lower case, and there is a domain. Colons in the domain
    and question marks in the page are allowed here: what comes of them is part of the theorems.
   */
  ghost predicate WellFormed(a: Attributes, isNumber: string -> bool) {
    && Free(a.scheme, {':', '/', '.', '@'}) && IsLower(a.scheme)
    && Free(a.username, {':', '/', '@'}) && Free(a.password, {'/', '@'})
    && a.domain != [] && AllFree(a.domain, {'.', '/', '@'}) && IsLower(Join(a.domain, '.'))
    && Free(a.port, {'/', ':', '@'})
    && AllFree(a.path, {'/'}) && Free(a.page, {'/'}) && a.ip == IsIp(a.domain, isNumber)
  }

  lemma AllFreeFewer(parts: seq<string>, cs: set<char>, ds: set<char>)
    requires AllFree(parts, cs) && ds <= cs
    ensures AllFree(parts, ds)
  {
  }

  /** What stands between scheme and resource. */
  function Authority(a: Attributes): string {
    Credentials(a) + HostText(a.domain) + PortText(a.port)
  }

  lemma AuthorityFree(a: Attributes, isNumber: string -> bool)
    requires WellFormed(a, isNumber)
    ensures Free(Authority(a), {'/'}) && ('@' in Authority(a) <==> a.username != "")
  {
    JoinFree(a.domain, '.', {'/', '@'});
    var creds, host := Credentials(a), HostText(a.domain);
    forall x | x in Authority(a) ensures x != '/' && (x == '@' ==> x in creds) {
      assert x in creds || x in host || x in PortText(a.port);
      assert x in PortText(a.port) ==> x == ':' || x in a.port;
    }
    assert a.username != "" ==> creds[|creds| - 1] == '@' && Authority(a)[|creds| - 1] == '@';
  }

  /** The URL, cut where the scanner changes its state. */
  lemma PrintedParts(a: Attributes)
    requires a.scheme != ""
    ensures var tail := PathText(a.path) + a.page;
            && Printed(a) == a.scheme + "://" + Authority(a) + ("/" + tail)
            && Printed(a) == a.scheme + (":" + ("//" + (Authority(a) + ("/" + tail))))
  {
    hide PathText, HostText, Credentials, PortText;
    var tail := "/" + (PathText(a.path) + a.page);
    var s, c, h, p := a.scheme + "://", Credentials(a), HostText(a.domain), PortText(a.port);
    Associative(s, c, h);
    Associative(s, c + h, p);
    assert a.scheme + "://" == a.scheme + (":" + "//");
    Associative(a.scheme, ":" + "//", Authority(a));
    Associative(a.scheme, ":" + "//" + Authority(a), tail);
    Associative(":", "//", Authority(a));
    Associative(":", "//" + Authority(a), tail);
    Associative("//", Authority(a), tail);
  }

  /** With neither user name nor password the domain follows the scheme. */
  lemma FoundWithoutLogin(a: Attributes, isNumber: string -> bool)
    requires WellFormed(a, isNumber) && a.scheme != "" && a.username == "" && a.password == ""
    ensures if Clear(Join(a.domain, '.'), a.port) then Find(Printed(a), isNumber) == Paged(a.page, a.(page := ""))
            else Find(Printed(a), isNumber).attributes.domain != a.domain
  {
    hide Rest, Find, Join, IsIp, Paged, Clear, Printed, HostText, PortText, ResourceText;
    ScanToAuthority(a, isNumber);
    PrintedWithoutLogin(a);
    AllFreeFewer(a.domain, {'.', '/', '@'}, {'.', '/'});
    if Clear(Join(a.domain, '.'), a.port) {
      DomainFound(a.scheme + "://", a.domain, a.port, a.path, a.page, NONE.(scheme := a.scheme), isNumber);
    } else {
      DomainLost(a.scheme + "://", a.domain, a.port, a.path, a.page, NONE.(scheme := a.scheme), isNumber);
    }
  }

  lemma PrintedWithoutLogin(a: Attributes)
    requires a.scheme != "" && a.username == ""
    ensures Printed(a) == a.scheme + "://" + (HostText(a.domain) + PortText(a.port)) + ResourceText(a.path, a.page)
  {
    hide HostText, PortText, ResourceText;
    CredentialsAdded(a.scheme + "://", a);
    Associative(a.scheme + "://", HostText(a.domain), PortText(a.port));
  }

  lemma ScanToAuthority(a: Attributes, isNumber: string -> bool)
    requires WellFormed(a, isNumber) && a.scheme != ""
    ensures Find(Printed(a), isNumber) ==
            Rest(if a.username != "" then Username else Domain, Printed(a), |a.scheme + "://"|, NONE.(scheme := a.scheme), isNumber)
  {
    hide Rest, PathText, Join, IsIp, Credentials, HostText, PortText, AfterScheme, Begin;
    var tail := PathText(a.path) + a.page;
    var rest := "//" + (Authority(a) + ("/" + tail));
    PrintedParts(a);
    BeginsWithScheme(a.scheme, rest);
    SchemeFound(a.scheme, rest, isNumber);
    AuthorityFree(a, isNumber);
    AfterSchemeIs(a.scheme, Authority(a), tail);
  }

  lemma LoginParts(a: Attributes)
    requires a.scheme != "" && a.username != "" && a.password != ""
    ensures var pre := a.scheme + "://"; var login := pre + a.username + ":" + a.password + "@";
            var tail := HostText(a.domain) + PortText(a.port) + ResourceText(a.path, a.page);
            && Printed(a) == pre + a.username + (":" + (a.password + ("@" + tail)))
            && Printed(a) == login + (HostText(a.domain) + PortText(a.port)) + ResourceText(a.path, a.page)
  {
    hide HostText, PortText, ResourceText;
    var pre, h, p, r := a.scheme + "://", HostText(a.domain), PortText(a.port), ResourceText(a.path, a.page);
    CredentialsAdded(pre, a);
    Associative(pre + a.username, ":", a.password);
    var login := pre + a.username + ":" + a.password + "@";
    assert Printed(a) == login + h + p + r;
    Associative(login, h, p);
    Associative(login, h + p, r);
    Associative(pre + a.username, ":", a.password + ("@" + (h + p + r)));
    Associative(pre + a.username + ":", a.password, "@" + (h + p + r));
    Associative(pre + a.username + ":" + a.password, "@", h + p + r);
  }

  /** With both, they are found, and the domain behind them. */
  lemma FoundWithLogin(a: Attributes, isNumber: string -> bool)
    requires WellFormed(a, isNumber) && a.scheme != "" && a.username != "" && a.password != ""
    ensures if Clear(Join(a.domain, '.'), a.port) then Find(Printed(a), isNumber) == Paged(a.page, a.(page := ""))
            else Find(Printed(a), isNumber).attributes.domain != a.domain
  {
    hide Rest, PathText, Join, IsIp, Find, Printed, Paged, Clear;
    var pre := a.scheme + "://";
    var login, b := pre + a.username + ":" + a.password + "@", NONE.(scheme := a.scheme, username := a.username, password := a.password);
    ScanToAuthority(a, isNumber);
    LoginParts(a);
    LoginFound(pre, a.username, a.password, HostText(a.domain) + PortText(a.port) + ResourceText(a.path, a.page), NONE.(scheme := a.scheme), isNumber);
    AllFreeFewer(a.domain, {'.', '/', '@'}, {'.', '/'});
    if Clear(Join(a.domain, '.'), a.port) {
      DomainFound(login, a.domain, a.port, a.path, a.page, b, isNumber);
    } else {
      DomainLost(login, a.domain, a.port, a.path, a.page, b, isNumber);
    }
  }

  /** Once scheme and user name have been found they stay. */
  lemma {:induction false} FoundStays(s: State, url: string, i: nat, a: Attributes, isNumber: string -> bool)
    requires s != Scheme
    ensures Rest(s, url, i, a, isNumber).attributes.scheme == a.scheme
    ensures s != Username ==> Rest(s, url, i, a, isNumber).attributes.username == a.username
    ensures s == Port || s == Path || s == Page || s == Query ==> Rest(s, url, i, a, isNumber).attributes.domain == a.domain
    decreases |url| - i, if s == Path then 1 else 0
  {
    hide DomainEnd, AfterDomain, IsIp, Split, First, Last, Lower;
    if i < |url| && s == Domain {
      var j := DomainEnd(url, i);
      var domain := Split(Lower(url[i..j]), '.');
      AfterDomainIsLater(url, j);
      FoundStays(AfterDomain(url, j), url, j + 1, a.(domain := domain, ip := IsIp(domain, isNumber)), isNumber);
    } else if i < |url| && s == Path {
      var j := Last(url, '/', |url|);
      if j < i {
        FoundStays(Page, url, i, a, isNumber);
      } else {
        FoundStays(Page, url, j + 1, a.(path := Split(url[i..j], '/')), isNumber);
      }
    } else if i < |url| && s != Query {
      var k := First(url, {Separator(s)}, i);
      FoundStays(Following(s), url, k + 1, Collect(s, a, url[i..k]), isNumber);
    }
  }

  lemma AfterDomainIsLater(url: string, j: nat)
    ensures AfterDomain(url, j) == Port || AfterDomain(url, j) == Path || AfterDomain(url, j) == Page
  {
  }

  /** A user name without a password swallows the @ behind it. */
  lemma UserNameSpoilt(a: Attributes, isNumber: string -> bool)
    requires WellFormed(a, isNumber) && a.scheme != "" && a.username != "" && a.password == ""
    ensures Find(Printed(a), isNumber).attributes.username != a.username
  {
    hide Rest, Join, IsIp, Find, Printed, HostText, PortText, ResourceText;
    var pre, url := a.scheme + "://", Printed(a);
    ScanToAuthority(a, isNumber);
    UserNameAt(a);
    var i, b := |pre|, NONE.(scheme := a.scheme);
    var k := First(url, {':'}, i);
    ThenField(Username, url, i, b, isNumber);
    CollectFresh(Username, b, url[i..k]);
    FoundStays(Password, url, k + 1, b.(username := url[i..k]), isNumber);
  }

  lemma UserNameAt(a: Attributes)
    requires a.scheme != "" && a.username != "" && a.password == "" && Free(a.username, {':'})
    ensures var pre, url := a.scheme + "://", Printed(a);
            |pre| < |url| && First(url, {':'}, |pre|) > |pre| + |a.username|
  {
    hide HostText, PortText, ResourceText;
    var pre, url, tail := a.scheme + "://", Printed(a), HostText(a.domain) + PortText(a.port) + ResourceText(a.path, a.page);
    CredentialsAdded(pre, a);
    var text := a.username + "@";
    Associative(pre, a.username, "@");
    assert url == pre + text + HostText(a.domain) + PortText(a.port) + ResourceText(a.path, a.page);
    Associative(pre + text, HostText(a.domain), PortText(a.port));
    Associative(pre + text, HostText(a.domain) + PortText(a.port), ResourceText(a.path, a.page));
    Middle(pre, text, tail);
    forall j | |pre| <= j < |pre| + |text| ensures url[j] != ':' {
      assert j < |pre| + |a.username| ==> text[j - |pre|] == a.username[j - |pre|] && a.username[j - |pre|] in a.username;
    }
  }

  /** Parsing undoes printing exactly when user name and password are both there, or neither is, and no part is a dot segment. */
  lemma ParseUndoesPrint(a: Attributes, isNumber: string -> bool)
    requires WellFormed(a, isNumber) && a.scheme != ""
    ensures Parsing(Printed(a), isNumber) == Some(Parsed(a, "")) <==>
            (a.username == "" <==> a.password == "") && Clear(Join(a.domain, '.'), a.port) && Plain(a.path) && '?' !in a.page
  {
    hide Rest, Find, WellFormed, Parsing, Printed, Paged, Plain, Clear, Join;
    PagedWhole(a);
    ParsedIfFound(Printed(a), Parsed(a, ""), isNumber);
    if a.username == "" && a.password == "" {
      FoundWithoutLogin(a, isNumber);
    } else if a.username != "" && a.password != "" {
      FoundWithLogin(a, isNumber);
    } else if a.username != "" {
      UserNameSpoilt(a, isNumber);
    } else {
      PasswordNotPrinted(a, isNumber);
      FoundWithoutLogin(a.(password := ""), isNumber);
    }
  }

  /** A query behind the page is found with it, unless it has a slash: that is taken for the end of the path. */
  lemma ParseUndoesPrintWithQuery(a: Attributes, query: string, isNumber: string -> bool)
    requires WellFormed(a, isNumber) && a.scheme != "" && '?' !in a.page
    ensures Parsing(Printed(a) + "?" + query, isNumber) == Some(Parsed(a, query)) <==>
            (a.username == "" <==> a.password == "") && Clear(Join(a.domain, '.'), a.port) && Plain(a.path) && '/' !in query
  {
    hide Rest, Find, Parsing, Printed, Paged, Plain, IsLower, IsIp, Join, Clear;
    var b := a.(page := a.page + ("?" + query));
    PrintedWithQuery(a, query);
    FoundRegular(Printed(b), isNumber);
    ParsedIfFound(Printed(b), Parsed(a, query), isNumber);
    if '/' !in query {
      assert WellFormed(b, isNumber);
      PagedWithQuery(a, query);
      if a.username == "" && a.password == "" {
        FoundWithoutLogin(b, isNumber);
      } else if a.username != "" && a.password != "" {
        FoundWithLogin(b, isNumber);
      } else if a.username != "" {
        UserNameSpoilt(b, isNumber);
      } else {
        PasswordNotPrinted(b, isNumber);
        FoundWithoutLogin(b.(password := ""), isNumber);
      }
    }
  }

  lemma PrintedWithQuery(a: Attributes, query: string)
    ensures Printed(a) + "?" + query == Printed(a.(page := a.page + ("?" + query)))
  {
    hide HostText, Credentials, PortText, SchemeText, PathText;
    var before := SchemeText(a.scheme) + Credentials(a) + HostText(a.domain) + PortText(a.port);
    var way, more := PathText(a.path), "?" + query;
    assert Credentials(a) == Credentials(a.(page := a.page + more)) by { SamePrefix(a, a.page + more); }
    Associative(Printed(a), "?", query);
    Associative(before, ResourceText(a.path, a.page), more);
    Associative("/", way + a.page, more);
    Associative(way, a.page, more);
  }

  lemma SamePrefix(a: Attributes, page: string)
    ensures Credentials(a) == Credentials(a.(page := page))
  {
  }

  lemma PagedWithQuery(a: Attributes, query: string)
    requires '?' !in a.page
    ensures Paged(a.page + ("?" + query), a.(page := "")) == Parsed(a, query)
  {
    var text := a.page + ("?" + query);
    assert text[|a.page|] == '?' && text[..|a.page|] == a.page && text[|a.page| + 1..] == query;
    FirstIs(text, {'?'}, 0, |a.page|);
  }

  /** The first part of the domain has no colon, and is not empty where a port follows it. */
  ghost predicate StartsPlain(domain: seq<string>, port: string) {
    domain != [] && ':' !in domain[0] && (|domain| > 1 || domain[0] != "" || port == "")
  }

  /** Without a scheme the domain is found when its first dot says so, which takes two parts, and credentials never are. */
  lemma ParseUndoesPrintWithoutScheme(a: Attributes, isNumber: string -> bool)
    requires WellFormed(a, isNumber) && a.scheme == "" && StartsPlain(a.domain, a.port)
    ensures Parsing(Printed(a), isNumber) == Some(Parsed(a, "")) <==>
            && |a.domain| > 1 && a.username == "" && a.password == ""
            && Clear(Join(a.domain, '.'), a.port) && Plain(a.path) && '?' !in a.page
  {
    hide Rest, Join, IsIp, Printed, PathText, Parsing, Paged, Plain, Clear;
    PagedWhole(a);
    ParsedIfFound(Printed(a), Parsed(a, ""), isNumber);
    if a.username != "" {
      CredentialsLost(a, isNumber);
    } else {
      PrintedPartsWithoutScheme(a);
      BeginsWithDomain(a, isNumber);
      if |a.domain| > 1 {
        AllFreeFewer(a.domain, {'.', '/', '@'}, {'.', '/'});
        if Clear(Join(a.domain, '.'), a.port) {
          DomainFound("", a.domain, a.port, a.path, a.page, NONE, isNumber);
        } else {
          DomainLost("", a.domain, a.port, a.path, a.page, NONE, isNumber);
        }
      } else {
        SchemeNotEmpty(Printed(a), isNumber);
      }
    }
  }

  /** Credentials without a scheme are taken for a scheme, or for a part of the domain. */
  lemma CredentialsLost(a: Attributes, isNumber: string -> bool)
    requires WellFormed(a, isNumber) && a.scheme == "" && a.username != ""
    ensures Find(Printed(a), isNumber).attributes.scheme != "" || Find(Printed(a), isNumber).attributes.username == ""
  {
    hide Rest, Join, IsIp, PathText, HostText, PortText, ResourceText;
    var url := Printed(a);
    assert url[0] == a.username[0] && a.username[0] in a.username;
    if Begin(url) == Domain {
      FoundStays(Domain, url, 0, NONE, isNumber);
    } else {
      SchemeNotEmpty(url, isNumber);
    }
  }

  lemma SchemeNotEmpty(url: string, isNumber: string -> bool)
    requires url != "" && url[0] != ':'
    ensures Rest(Scheme, url, 0, NONE, isNumber).attributes.scheme != ""
  {
    var k := First(url, {':'}, 0);
    CollectFresh(Scheme, NONE, url[0..k]);
    var b := NONE.(scheme := Lower(url[0..k]));
    if k < |url| {
      FoundStays(AfterScheme(url, k), url, k + 3, b, isNumber);
    }
  }

  lemma PrintedPartsWithoutScheme(a: Attributes)
    requires a.scheme == "" && a.username == ""
    ensures Printed(a) == "" + (HostText(a.domain) + PortText(a.port)) + ResourceText(a.path, a.page)
  {
    hide HostText, PortText, ResourceText;
    NothingBefore(HostText(a.domain));
    Associative("", HostText(a.domain), PortText(a.port));
  }

  lemma NothingBefore(s: string)
    ensures "" + "" + s == s && "" + s == s
  {
  }

  lemma BeginsWithDomain(a: Attributes, isNumber: string -> bool)
    requires WellFormed(a, isNumber) && a.scheme == "" && a.username == "" && StartsPlain(a.domain, a.port)
    ensures Begin(Printed(a)) == (if |a.domain| > 1 then Domain else Scheme) && Printed(a) != ""
    ensures |a.domain| == 1 ==> Printed(a)[0] != ':'
  {
    hide IsIp, PathText, PortText, ResourceText, Printed, Begin, IsLower;
    PrintedPartsWithoutScheme(a);
    var host := a.domain[0];
    assert Free(host, {'.', '/', '@'}) && ':' !in host;
    if |a.domain| > 1 {
      var tail := Join(a.domain[1..], '.') + PortText(a.port) + ResourceText(a.path, a.page);
      assert Printed(a) == host + "." + tail;
      DotFirst(host, tail);
    } else {
      assert Printed(a) == host + (PortText(a.port) + ResourceText(a.path, a.page));
      DotNotFirst(host, a.port, a.path, a.page);
    }
  }

  lemma DotFirst(host: string, tail: string)
    requires Free(host, {'.', '/', ':', '@'})
    ensures Begin(host + "." + tail) == Domain
  {
    var url := host + "." + tail;
    Associative(host, ".", tail);
    NoSeparatorBefore(host, "." + tail);
    FirstIs(url, {'.'}, 0, |host|);
  }

  lemma DotNotFirst(host: string, port: string, path: seq<string>, page: string)
    requires Free(host, {'.', '/', ':', '@'}) && (host != "" || port == "")
    ensures var url := host + (PortText(port) + ResourceText(path, page)); Begin(url) == Scheme && url != "" && url[0] != ':'
  {
    hide PathText;
    var tail := PortText(port) + ResourceText(path, page);
    NoSeparatorBefore(host, tail);
    assert (host + tail)[|host|] == tail[0];
    FirstIs(host + tail, {':', '/'}, 0, |host|);
  }

  lemma NoSeparatorBefore(host: string, tail: string)
    requires Free(host, {'.', '/', ':', '@'})
    ensures forall j {:trigger (host + tail)[j]} :: 0 <= j < |host| ==> (host + tail)[j] !in {'.', '/', ':'}
  {
    forall j | 0 <= j < |host| ensures (host + tail)[j] !in {'.', '/', ':'} {
      assert host[j] in host;
    }
  }

  lemma PasswordNotPrinted(a: Attributes, isNumber: string -> bool)
    requires WellFormed(a, isNumber) && a.username == ""
    ensures WellFormed(a.(password := ""), isNumber) && Printed(a.(password := "")) == Printed(a)
  {
  }
}
