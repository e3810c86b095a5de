/**
  What the clients of the allocator rely on, stated over the chunks seen from outside:
  which addresses are live, that no two live blocks overlap, and which bytes they hold.
 */
module Arenas {
  import opened Bytes
  import opened Chunks

  /** Every chunk spans `count` blocks of `size` bytes, and live blocks are numbered below `count`. */
  ghost predicate Sized(vs: seq<View>, size: nat, count: nat) {
    forall v <- vs :: |v.bytes| == count * size && v.live <= Below(count)
  }

  ghost predicate Apart(v: View, w: View) {
    v.base + |v.bytes| <= w.base || w.base + |w.bytes| <= v.base
  }

  /** No two chunks share memory. */
  ghost predicate Separate(vs: seq<View>) {
    forall i, j :: 0 <= i < j < |vs| ==> Apart(vs[i], vs[j])
  }

  /** Address `p` is that of live block `b` of chunk `v`. */
  ghost predicate LiveIn(v: View, size: nat, p: nat, b: nat) {
    b in v.live && p == v.base + b * size
  }

  ghost predicate HoldsIn(v: View, size: nat, p: nat, b: nat, k: nat, x: byte) {
    LiveIn(v, size, p, b) && b * size + k < |v.bytes| && v.bytes[b * size + k] == x
  }

  ghost predicate IsLive(vs: seq<View>, size: nat, p: nat) {
    exists v, b: nat :: v in vs && LiveIn(v, size, p, b)
  }

  /** Byte `k` of live block `p` is `x`. */
  ghost predicate Holds(vs: seq<View>, size: nat, p: nat, k: nat, x: byte) {
    exists v, b: nat :: v in vs && HoldsIn(v, size, p, b, k, x)
  }

  /** Block `q` is live in both or in neither, with the same bytes. */
  ghost predicate SameBlock(vs: seq<View>, ws: seq<View>, size: nat, q: nat) {
    && (IsLive(vs, size, q) <==> IsLive(ws, size, q))
    && (forall k: nat, x: byte :: k < size ==> (Holds(vs, size, q, k, x) <==> Holds(ws, size, q, k, x)))
  }

  /** Every block but `p` is as it was. */
  ghost predicate SameExcept(vs: seq<View>, ws: seq<View>, size: nat, p: nat) {
    forall q: nat :: q != p ==> SameBlock(vs, ws, size, q)
  }

  ghost predicate Same(vs: seq<View>, ws: seq<View>, size: nat) {
    forall q: nat :: SameBlock(vs, ws, size, q)
  }

  lemma SameItself(vs: seq<View>, size: nat)
    ensures Same(vs, vs, size)
  {
  }

  lemma SameThenExcept(us: seq<View>, vs: seq<View>, ws: seq<View>, size: nat, p: nat)
    requires Same(us, vs, size) && SameExcept(vs, ws, size, p)
    ensures SameExcept(us, ws, size, p) && (IsLive(us, size, p) <==> IsLive(vs, size, p))
  {
    assert SameBlock(us, vs, size, p);
    forall q: nat | q != p ensures SameBlock(us, ws, size, q) {
      assert SameBlock(us, vs, size, q) && SameBlock(vs, ws, size, q);
    }
  }

  lemma ExceptThenSame(us: seq<View>, vs: seq<View>, ws: seq<View>, size: nat, p: nat)
    requires SameExcept(us, vs, size, p) && Same(vs, ws, size)
    ensures SameExcept(us, ws, size, p) && (IsLive(vs, size, p) <==> IsLive(ws, size, p))
  {
    assert SameBlock(vs, ws, size, p);
    forall q: nat | q != p ensures SameBlock(us, ws, size, q) {
      assert SameBlock(us, vs, size, q) && SameBlock(vs, ws, size, q);
    }
  }

  /** A live block lies inside its chunk. */
  lemma LiveInside(v: View, size: nat, count: nat, p: nat, b: nat)
    requires |v.bytes| == count * size && v.live <= Below(count) && LiveIn(v, size, p, b)
    ensures v.base <= p && p + size <= v.base + count * size
  {
    assert b in Below(count);
    BlocksApart(size, b, count);
  }

  lemma LiveNeedsChunk(vs: seq<View>, size: nat, p: nat)
    ensures IsLive(vs, size, p) ==> vs != []
  {
  }

  /** A live address names one chunk and one block. */
  lemma LiveUnique(vs: seq<View>, size: nat, count: nat, p: nat, v: View, b: nat, w: View, c: nat)
    requires 0 < size && Sized(vs, size, count) && Separate(vs) && v in vs && w in vs
    requires LiveIn(v, size, p, b) && LiveIn(w, size, p, c)
    ensures v == w && b == c
  {
    LiveInside(v, size, count, p, b);
    LiveInside(w, size, count, p, c);
    assert !Apart(v, w);
    BlockNumber(size, b, 0);
    BlockNumber(size, c, 0);
  }

  /** Two different live blocks do not overlap. */
  lemma LiveBlocksDisjoint(vs: seq<View>, size: nat, count: nat, p: nat, q: nat)
    requires Sized(vs, size, count) && Separate(vs)
    requires IsLive(vs, size, p) && IsLive(vs, size, q) && p != q
    ensures p + size <= q || q + size <= p
  {
    var v, b: nat :| v in vs && LiveIn(v, size, p, b);
    var w, c: nat :| w in vs && LiveIn(w, size, q, c);
    LiveInside(v, size, count, p, b);
    LiveInside(w, size, count, q, c);
    if v == w {
      if b < c {
        BlocksApart(size, b, c);
      } else {
        BlocksApart(size, c, b);
      }
    } else {
      assert Apart(v, w) || Apart(w, v);
    }
  }

  /** Chunk `o` becomes `w`: the same place and, outside block `b`, the same live blocks and bytes. */
  ghost predicate Touched(o: View, w: View, size: nat, b: nat) {
    && w.base == o.base && |w.bytes| == |o.bytes|
    && (forall c: nat :: c != b ==> (c in o.live <==> c in w.live))
    && (forall j: nat :: j < |o.bytes| && !(b * size <= j < b * size + size) ==> o.bytes[j] == w.bytes[j])
  }

  /** A block number other than `b` keeps what it has when its chunk is touched at `b`. */
  lemma TouchedElsewhere(o: View, w: View, size: nat, b: nat, q: nat, c: nat)
    requires Touched(o, w, size, b) && q != o.base + b * size
    ensures LiveIn(o, size, q, c) <==> LiveIn(w, size, q, c)
    ensures forall k: nat, x: byte :: k < size ==> (HoldsIn(o, size, q, c, k, x) <==> HoldsIn(w, size, q, c, k, x))
  {
    if c < b {
      BlocksApart(size, c, b);
    } else if b < c {
      BlocksApart(size, b, c);
    }
  }

  /** Replacing one chunk by one touched at `b` disturbs no other block. */
  lemma TouchOne(vs: seq<View>, i: nat, w: View, size: nat, count: nat, b: nat)
    requires 0 < size && Sized(vs, size, count) && Separate(vs) && i < |vs|
    requires b < count && w.live <= Below(count) && Touched(vs[i], w, size, b)
    ensures var ws := vs[i := w]; var p := w.base + b * size;
            && Sized(ws, size, count) && Separate(ws) && SameExcept(vs, ws, size, p)
            && (IsLive(vs, size, p) <==> b in vs[i].live) && (IsLive(ws, size, p) <==> b in w.live)
  {
    TouchSeparate(vs, i, w, size, b);
    LiveHere(vs, i, size, count, b);
    LiveHere(vs[i := w], i, size, count, b);
    TouchOthers(vs, i, w, size, b);
  }

  /** A byte written into live block `b` of chunk `i` is seen there, and nowhere else. */
  lemma WriteOne(vs: seq<View>, i: nat, size: nat, count: nat, b: nat, k: nat, x: byte)
    requires 0 < size && Sized(vs, size, count) && Separate(vs) && i < |vs|
    requires b in vs[i].live && k < size && b * size + k < |vs[i].bytes|
    ensures var ws := vs[i := Wrote(vs[i], b * size + k, x)]; var p := vs[i].base + b * size;
            && Sized(ws, size, count) && Separate(ws) && SameExcept(vs, ws, size, p) && IsLive(ws, size, p) && Holds(ws, size, p, k, x)
  {
    var w := Wrote(vs[i], b * size + k, x);
    assert vs[i] in vs && b in Below(count);
    TouchOne(vs, i, w, size, count, b);
    assert vs[i := w][i] == w && HoldsIn(w, size, w.base + b * size, b, k, x);
  }

  lemma TouchSeparate(vs: seq<View>, i: nat, w: View, size: nat, b: nat)
    requires Separate(vs) && i < |vs| && Touched(vs[i], w, size, b)
    ensures Separate(vs[i := w])
  {
    var ws := vs[i := w];
    forall j, k | 0 <= j < k < |ws| ensures Apart(ws[j], ws[k]) {
      assert Apart(vs[j], vs[k]);
    }
  }

  lemma TouchOthers(vs: seq<View>, i: nat, w: View, size: nat, b: nat)
    requires i < |vs| && Touched(vs[i], w, size, b)
    ensures SameExcept(vs, vs[i := w], size, w.base + b * size)
  {
    var ws := vs[i := w];
    forall q: nat | q != w.base + b * size
      ensures SameBlock(vs, ws, size, q)
    {
      Carry(vs, i, w, size, b, q);
      assert ws[i := vs[i]] == vs;
      Carry(ws, i, vs[i], size, b, q);
    }
  }

  lemma Carry(vs: seq<View>, i: nat, w: View, size: nat, b: nat, q: nat)
    requires i < |vs| && Touched(vs[i], w, size, b) && q != w.base + b * size
    ensures IsLive(vs, size, q) ==> IsLive(vs[i := w], size, q)
    ensures forall k: nat, x: byte :: k < size && Holds(vs, size, q, k, x) ==> Holds(vs[i := w], size, q, k, x)
  {
    var ws := vs[i := w];
    forall c: nat { TouchedElsewhere(vs[i], w, size, b, q, c); }
    forall v | v in vs && v != vs[i] ensures v in ws {
      var j :| 0 <= j < |vs| && vs[j] == v;
      assert ws[j] == v;
    }
    assert ws[i] == w;
  }

  /** Whether block `b` of chunk `i` is live is all there is to whether its address is. */
  lemma LiveHere(vs: seq<View>, i: nat, size: nat, count: nat, b: nat)
    requires 0 < size && Sized(vs, size, count) && Separate(vs) && i < |vs| && b < count
    ensures IsLive(vs, size, vs[i].base + b * size) <==> b in vs[i].live
  {
    var p := vs[i].base + b * size;
    if b in vs[i].live {
      assert LiveIn(vs[i], size, p, b);
    } else if IsLive(vs, size, p) {
      var v, c: nat :| v in vs && LiveIn(v, size, p, c);
      var us := vs[i := vs[i].(live := vs[i].live + {b})];
      assert Sized(us, size, count);
      LiveInside(v, size, count, p, c);
      LiveInside(us[i], size, count, p, b);
      assert !Apart(v, vs[i]) && v == vs[i];
      BlockNumber(size, b, 0);
      BlockNumber(size, c, 0);
    }
  }

  /** Chunk number `i` goes, and the one at the end takes its place. */
  function Without(vs: seq<View>, i: nat): (ws: seq<View>)
    requires i < |vs|
    ensures |ws| == |vs| - 1
  {
    vs[i := vs[|vs| - 1]][..|vs| - 1]
  }

  /** Removing a chunk without live blocks, the last one taking its place, loses nothing. */
  lemma DropDead(vs: seq<View>, i: nat, size: nat, count: nat)
    requires Sized(vs, size, count) && Separate(vs) && i < |vs| && vs[i].live == {}
    ensures var ws := Without(vs, i);
            Sized(ws, size, count) && Separate(ws) && Same(vs, ws, size)
  {
    var last := |vs| - 1;
    var ws := vs[i := vs[last]][..last];
    forall j | 0 <= j < |ws| ensures ws[j] in vs {}
    forall v | v in vs && v != vs[i] ensures v in ws {
      var j :| 0 <= j < |vs| && vs[j] == v;
      assert ws[if j == last then i else j] == v;
    }
    forall j, k | 0 <= j < k < |ws| ensures Apart(ws[j], ws[k]) {
      assert Apart(vs[j], vs[k]) && (k == i ==> Apart(vs[j], vs[last])) && (j == i ==> Apart(vs[k], vs[last]));
    }
  }

  /** A chunk just reserved, sharing memory with none, adds no live block. */
  lemma AddFresh(vs: seq<View>, w: View, size: nat, count: nat)
    requires Sized(vs, size, count) && Separate(vs)
    requires w.live == {} && |w.bytes| == count * size && forall v <- vs :: Apart(v, w)
    ensures var ws := vs + [w];
            Sized(ws, size, count) && Separate(ws) && Same(vs, ws, size)
  {
  }

  /** Does the address fall within the range of this chunk? A chunk without live blocks owns none. */
  ghost predicate Owns(v: View, p: nat) {
    v.live != {} && v.base <= p < v.base + |v.bytes|
  }

  /** The chunk that owns a live block's address is the one the block belongs to. */
  lemma OwnerHoldsBlock(vs: seq<View>, size: nat, count: nat, i: nat, p: nat)
    requires 0 < size && Sized(vs, size, count) && Separate(vs) && IsLive(vs, size, p)
    ensures exists v <- vs :: Owns(v, p)
    ensures i < |vs| && Owns(vs[i], p) ==> exists b: nat :: LiveIn(vs[i], size, p, b)
  {
    var v, b: nat :| v in vs && LiveIn(v, size, p, b);
    LiveInside(v, size, count, p, b);
    assert Owns(v, p);
    assert i < |vs| && Owns(vs[i], p) ==> !Apart(v, vs[i]);
  }
}
