/**
  The growing vector of chunks, and pointers into it. Chunks are stored by value in the original;
  here each slot holds its own Chunk object, and exchanging two slots exchanges the contents.
 */
module ChunkVectors {
  import opened Bytes
  import opened Chunks
  import opened Arenas

  /** A Chunk*: null, or an element of the vector's storage. Growing the vector makes new storage. */
  datatype Pointer = Null | At(store: nat, index: nat)

  /** The chunks as the clients see them. */
  ghost function See(chunks: seq<Chunk>): (vs: seq<View>)
    reads chunks, set c <- chunks :: c.mem
    ensures |vs| == |chunks|
    ensures forall i :: 0 <= i < |chunks| ==> vs[i] == chunks[i].Seen()
  {
    seq(|chunks|, i requires 0 <= i < |chunks| reads chunks, set c <- chunks :: c.mem => chunks[i].Seen())
  }

  class ChunkVector {
    var chunks: seq<Chunk>
    var capacity: nat
    var storage: nat  // which storage the elements live in now
    ghost var Repr: set<object>

    ghost predicate Contained()
      reads this, Repr
    {
      this in Repr && forall c <- chunks :: c in Repr && c.mem != null && c.mem in Repr
    }

    ghost function Views(): (vs: seq<View>)
      requires Contained()
      reads this, Repr
    {
      See(chunks)
    }

    /** A pointer that may be dereferenced: into the present storage and not past the end. */
    predicate Refers(p: Pointer)
      reads this
    {
      p.At? && p.store == storage && p.index < |chunks|
    }

    function Deref(p: Pointer): Chunk
      requires Refers(p)
      reads this
    {
      chunks[p.index]
    }

    /** The chunks are well formed objects that belong to this vector alone. */
    ghost predicate Owned(size: nat, count: nat): (yes: bool)
      reads this, Repr
      ensures yes ==> Contained() && |chunks| <= capacity
    {
      && Contained() && |chunks| <= capacity
      && (forall c <- chunks :: c.Valid(size) && c.blocks == count)
      && (forall i, j :: 0 <= i < j < |chunks| ==> chunks[i] != chunks[j] && chunks[i].mem != chunks[j].mem)
    }

    /** Moreover their memory does not overlap. */
    ghost predicate Valid(size: nat, count: nat)
      reads this, Repr
    {
      && 0 < size
      && Owned(size, count) && Sized(Views(), size, count) && Separate(Views())
    }

    constructor ()
      ensures chunks == [] && Repr == {this} && storage == 0
    {
      chunks, capacity, storage, Repr := [], 0, 0, {this};
    }

    /** A chunk is empty when no block is live, and full when no block is free. */
    lemma EmptyAndFull(i: nat, size: nat, count: nat)
      requires Owned(size, count) && i < |chunks|
      ensures chunks[i].Empty() <==> Views()[i].live == {}
      ensures chunks[i].Full() <==> Views()[i].live == Below(count)
    {
      chunks[i].EmptyAndFull(size);
    }

    lemma AllFull(i: nat, size: nat, count: nat)
      requires Owned(size, count) && i <= |chunks| && forall j :: 0 <= j < i ==> chunks[j].Full()
      ensures forall v <- Views()[..i] :: v.live == Below(count)
    {
      forall j | 0 <= j < i ensures Views()[j].live == Below(count) {
        EmptyAndFull(j, size, count);
      }
    }

    lemma OwnsAgrees(block: nat, size: nat, count: nat)
      requires Owned(size, count)
      ensures forall i :: 0 <= i < |chunks| ==> (chunks[i].OwnsBlock(block, count * size) <==> Owns(Views()[i], block))
    {
      forall i | 0 <= i < |chunks|
        ensures chunks[i].OwnsBlock(block, count * size) <==> Owns(Views()[i], block)
      {
        EmptyAndFull(i, size, count);
      }
    }

    /**
      The first chunk met, going down and up in turn from chunk `start`, whose range holds `block`
      and which has live blocks.
     */
    method Search(start: nat, block: nat, chunkSize: nat) returns (owner: Pointer)
      requires start < |chunks|
      ensures owner == Null || Refers(owner)
      ensures owner != Null ==> Deref(owner).OwnsBlock(block, chunkSize)
      ensures owner == Null ==> forall c <- chunks :: !c.OwnsBlock(block, chunkSize)
    {
      var l, u, last := start as int, start + 1, |chunks| - 1;
      if l == last {
        u := -1;
      }
      var done := false;
      while !done
        invariant -1 <= l <= start && (u == -1 || start < u <= last)
        invariant forall i :: l < i <= start ==> !chunks[i].OwnsBlock(block, chunkSize)
        invariant forall i :: start < i < (if u == -1 then |chunks| else u) ==> !chunks[i].OwnsBlock(block, chunkSize)
        invariant done ==> l == -1 && u == -1
        decreases !done, l + 1 + (if u == -1 then 0 else |chunks| - u)
      {
        if l != -1 {
          if chunks[l].OwnsBlock(block, chunkSize) {
            return At(storage, l);
          }
          l := l - 1;
        }
        if u != -1 {
          if chunks[u].OwnsBlock(block, chunkSize) {
            return At(storage, u);
          }
          u := if u + 1 > last then -1 else u + 1;
        }
        done := l == -1 && u == -1;
      }
      return Null;
    }

    /** Takes a block from chunk `k`. */
    method AllocateFrom(k: nat, size: nat, ghost count: nat) returns (block: nat, ghost b: nat)
      requires Owned(size, count) && k < |chunks| && !chunks[k].Full()
      modifies chunks[k]
      ensures Owned(size, count) && b < count && b !in old(Views())[k].live
      ensures block == old(Views())[k].base + b * size
      ensures Views() == old(Views())[k := old(Views())[k].(live := old(Views())[k].live + {b})]
    {
      var c := chunks[k];
      b := c.Free(size)[0];
      var got := c.Allocate(size);
      block := got.value;
    }

    /** Gives block `b` back to chunk `k`, which writes a link into its first byte. */
    method GiveBack(k: nat, block: nat, size: nat, ghost count: nat, ghost b: nat)
      requires Owned(size, count) && k < |chunks| && LiveIn(chunks[k].Seen(), size, block, b)
      modifies chunks[k], chunks[k].mem
      ensures Owned(size, count) && chunks == old(chunks)
      ensures Touched(old(Views())[k], Views()[k], size, b) && Views()[k].live == old(Views())[k].live - {b}
      ensures Views() == old(Views())[k := Views()[k]]
    {
      hide Chunk.Valid, Chunk.Seen;
      chunks[k].Deallocate(block, size, b);
    }

    /** What clients see of it: `block` is no longer live, and no other block is disturbed. */
    method Return(k: nat, block: nat, size: nat, ghost count: nat, ghost b: nat)
      requires Valid(size, count) && k < |chunks| && LiveIn(Views()[k], size, block, b)
      modifies chunks[k], chunks[k].mem
      ensures Valid(size, count) && |chunks| == |old(chunks)|
      ensures !IsLive(Views(), size, block) && SameExcept(old(Views()), Views(), size, block)
      ensures Views() == old(Views())[k := Views()[k]]
      ensures Touched(old(Views())[k], Views()[k], size, b) && Views()[k].live == old(Views())[k].live - {b}
    {
      ghost var vs := Views();
      GiveBack(k, block, size, count, b);
      ghost var w := Views()[k];
      assert b in Below(count);
      assert block == w.base + b * size;
      TouchOne(vs, k, w, size, count, b);
    }

    /** A client writes byte `k` of live block `b` of chunk `i`. */
    method ClientWrite(i: nat, b: nat, k: nat, v: byte, size: nat, ghost count: nat)
      requires Owned(size, count) && i < |chunks| && b in Views()[i].live && k < size
      modifies chunks[i].mem
      ensures Owned(size, count) && b * size + k < |old(Views())[i].bytes|
      ensures Views() == old(Views())[i := Wrote(old(Views())[i], b * size + k, v)]
    {
      hide Chunk.Valid, Chunk.Seen, Wrote;
      chunks[i].ClientWrite(b, k, v, size);
    }

    /** What clients see of it: that byte of that block has changed. */
    method Write(i: nat, b: nat, block: nat, k: nat, v: byte, size: nat, ghost count: nat)
      requires Valid(size, count) && i < |chunks| && LiveIn(Views()[i], size, block, b) && k < size
      modifies chunks[i].mem
      ensures Valid(size, count) && IsLive(Views(), size, block) && Holds(Views(), size, block, k, v)
      ensures SameExcept(old(Views()), Views(), size, block)
      ensures forall j :: 0 <= j < |chunks| ==> Views()[j].live == old(Views())[j].live
    {
      hide Sized, Separate, IsLive, SameExcept, Holds;
      ghost var vs := Views();
      ClientWrite(i, b, k, v, size, count);
      WriteOne(vs, i, size, count, b, k, v);
    }

    /** Destroys the chunk at the end and pops it. */
    method PopEnd(ghost size: nat, ghost count: nat)
      requires Owned(size, count) && chunks != [] && chunks[|chunks| - 1].Empty()
      modifies this`chunks, chunks[|chunks| - 1]
      ensures Owned(size, count) && chunks == old(chunks)[..|old(chunks)| - 1]
      ensures Views() == old(Views())[..|old(chunks)| - 1]
    {
      var end := |chunks| - 1;
      chunks[end].DestroySpace();
      chunks := chunks[..end];
    }

    /** Exchanges the contents of two chunks. */
    method Swap(i: nat, j: nat, ghost size: nat, ghost count: nat)
      requires Owned(size, count) && i < |chunks| && j < |chunks|
      modifies this`chunks
      ensures Owned(size, count) && |chunks| == |old(chunks)|
      ensures chunks == old(chunks)[i := old(chunks)[j]][j := old(chunks)[i]]
      ensures Views() == old(Views())[i := old(Views())[j]][j := old(Views())[i]]
    {
      chunks := chunks[i := chunks[j]][j := chunks[i]];
    }

    /** Makes room for one more chunk: at capacity the vector moves to new storage, twice as large. */
    method Grow(ghost size: nat, ghost count: nat)
      requires Owned(size, count)
      modifies this`capacity, this`storage
      ensures Owned(size, count) && |chunks| < capacity
      ensures storage == if |chunks| == old(capacity) then old(storage) + 1 else old(storage)
      ensures capacity == if |chunks| < old(capacity) then old(capacity) else if chunks == [] then 2 else 2 * |chunks|
    {
      if |chunks| == capacity {
        capacity := if |chunks| == 0 then 2 else |chunks| * 2;
        storage := storage + 1;
      }
    }

    /** Appends chunk `c`, which shares nothing with the others. */
    method PushBack(c: Chunk, ghost size: nat, ghost count: nat)
      requires Owned(size, count) && |chunks| < capacity
      requires c.Valid(size) && c.blocks == count && c !in chunks
      requires forall d <- chunks :: d.mem != c.mem
      modifies this`chunks, this`Repr
      ensures Owned(size, count) && chunks == old(chunks) + [c] && Repr == old(Repr) + {c, c.mem}
      ensures Views() == old(Views()) + [c.Seen()]
    {
      chunks := chunks + [c];
      Repr := Repr + {c, c.mem};
    }

    static method NewChunk(size: nat, count: byte, at: nat) returns (c: Chunk)
      requires 0 < size && 0 < count
      ensures fresh(c) && c.mem != null && fresh(c.mem) && c.Valid(size) && c.blocks == count
      ensures c.Seen() == View(at, {}, c.mem[..])
    {
      c := new Chunk();
      c.ReserveSpace(size, count, at);
    }

    /** Appends a chunk with all its blocks free; `at` is the address malloc returned. */
    method Append(at: nat, size: nat, count: byte) returns (ghost w: View)
      requires Owned(size, count) && 0 < size && 0 < count
      modifies this
      ensures Owned(size, count) && fresh(Repr - old(Repr))
      ensures storage == if |old(chunks)| == old(capacity) then old(storage) + 1 else old(storage)
      ensures w.base == at && w.live == {} && |w.bytes| == count * size
      ensures Views() == old(Views()) + [w]
    {
      var c := NewChunk(size, count, at);
      w := c.Seen();
      Grow(size, count);
      PushBack(c, size, count);
    }

    /** Address `at` is that of memory no chunk uses. */
    ghost predicate Unused(at: nat, size: nat, count: nat)
      reads this, Repr
      requires Owned(size, count)
    {
      forall v <- Views() :: v.base + |v.bytes| <= at || at + count * size <= v.base
    }

    /** The chunk appended uses memory of its own, so clients see no difference. */
    method Extend(at: nat, size: nat, count: byte) returns (ghost w: View)
      requires Valid(size, count) && 0 < count && Unused(at, size, count)
      modifies this
      ensures Valid(size, count) && fresh(Repr - old(Repr)) && Same(old(Views()), Views(), size)
      ensures storage == if |old(chunks)| == old(capacity) then old(storage) + 1 else old(storage)
      ensures Views() == old(Views()) + [w] && w.live == {} && w.base == at
    {
      ghost var vs := Views();
      w := Append(at, size, count);
      AddFresh(vs, w, size, count);
    }

    /** Destroys empty chunk `i`: it changes places with the one at the end, which is popped. */
    method RemoveAt(i: nat, ghost size: nat, ghost count: nat)
      requires Owned(size, count) && i < |chunks| && Views()[i].live == {}
      modifies this`chunks, chunks[i]
      ensures Owned(size, count)
      ensures Views() == Without(old(Views()), i)
    {
      hide Owned, Contained, See;
      var end := |chunks| - 1;
      if i != end {
        Swap(i, end, size, count);
      }
      EmptyAndFull(end, size, count);
      assert chunks[end].Empty();
      PopEnd(size, count);
    }

    /** Clients do not notice when a chunk without live blocks goes. */
    method Discard(i: nat, ghost size: nat, ghost count: nat)
      requires Valid(size, count) && i < |chunks| && Views()[i].live == {}
      modifies this`chunks, chunks[i]
      ensures Valid(size, count) && Same(old(Views()), Views(), size)
      ensures Views() == Without(old(Views()), i)
    {
      hide Same, Separate, Sized, Without;
      DropDead(Views(), i, size, count);
      RemoveAt(i, size, count);
    }
  }
}
