/**
  One chunk of the small-object allocator (utility/Chunk.cpp). The free list lives inside
  the free blocks: the first byte of each free block holds the number of the next one.
 */
module Chunks {
  import opened Bytes
  import opened Sequences
  import opened Wrappers

  // ----- The free list as a pure function of memory -----

  /** The link stored in block `i`: its first byte. */
  function Link(mem: seq<byte>, size: nat, i: nat): byte {
    if i * size < |mem| then mem[i * size] else 0
  }

  /** The first `n` blocks met from block `next` by following links. The last link is not read. */
  function Walk(mem: seq<byte>, size: nat, next: nat, n: nat): (blocks: seq<nat>)
    ensures |blocks| == n
    decreases n
  {
    if n == 0 then [] else [next] + Walk(mem, size, Link(mem, size, next), n - 1)
  }

  /** A byte that is no link of the walk, or the last one, can be overwritten. */
  lemma {:induction false} WriteKeepsWalk(mem: seq<byte>, size: nat, next: nat, n: nat, at: nat, v: byte)
    requires at < |mem|
    requires forall k :: 0 <= k < n - 1 ==> Walk(mem, size, next, n)[k] * size != at
    ensures Walk(mem[at := v], size, next, n) == Walk(mem, size, next, n)
    decreases n
  {
    if n > 1 {
      var rest := Walk(mem, size, Link(mem, size, next), n - 1);
      assert Walk(mem, size, next, n)[0] == next;
      forall k | 0 <= k < n - 2 ensures rest[k] * size != at {
        assert rest[k] == Walk(mem, size, next, n)[k + 1];
      }
      WriteKeepsWalk(mem, size, Link(mem, size, next), n - 1, at, v);
    }
  }

  /** Clients may write anything into a block that is not free. */
  lemma ClientWriteKeepsWalk(mem: seq<byte>, size: nat, next: nat, n: nat, b: nat, k: nat, v: byte)
    requires b !in Walk(mem, size, next, n)
    requires k < size && b * size + k < |mem|
    ensures Walk(mem[b * size + k := v], size, next, n) == Walk(mem, size, next, n)
  {
    var w := Walk(mem, size, next, n);
    forall i | 0 <= i < n - 1 ensures w[i] * size != b * size + k {
      assert w[i] in w;
      BlockNumber(size, b, k);
      BlockNumber(size, w[i], 0);
    }
    WriteKeepsWalk(mem, size, next, n, b * size + k, v);
  }

  /** Storing `next` in a block outside the walk puts that block in front of it. */
  lemma PushExtendsWalk(mem: seq<byte>, size: nat, next: byte, n: nat, b: nat)
    requires 0 < size && b * size < |mem|
    requires b !in Walk(mem, size, next, n)
    ensures Walk(mem[b * size := next], size, b, n + 1) == [b] + Walk(mem, size, next, n)
  {
    ClientWriteKeepsWalk(mem, size, next, n, b, 0, next);
  }

  /** The first `n` blocks point at the next one. */
  ghost predicate Linked(mem: seq<byte>, size: nat, n: int) {
    forall k :: 0 <= k < n ==> Link(mem, size, k) == k + 1
  }

  lemma NoneLinked(mem: seq<byte>, size: nat)
    ensures Linked(mem, size, 0)
  {
  }

  lemma LinkOneMore(mem: seq<byte>, size: nat, count: nat, n: nat, p: nat)
    requires 0 < size && |mem| == size * count && n < count <= 255 && p == n * size
    ensures p < |mem| && (Linked(mem, size, n) ==> Linked(mem[p := n + 1], size, n + 1))
  {
    BlocksApart(size, n, count);
    if Linked(mem, size, n) {
      var u := mem[p := n + 1];
      forall k | 0 <= k < n ensures Link(u, size, k) == k + 1 {
        BlocksApart(size, k, n);
        assert Link(mem, size, k) == k + 1;
      }
    }
  }

  /** With block i pointing at block i + 1, the walk from i runs to the last block. */
  lemma {:induction false} FreshWalk(mem: seq<byte>, size: nat, i: nat, blocks: nat)
    requires i <= blocks < 256
    requires Linked(mem, size, blocks - 1)
    ensures Walk(mem, size, i, blocks - i) == seq(blocks - i, k => i + k)
    decreases blocks - i
  {
    if i + 1 < blocks {
      FreshWalk(mem, size, i + 1, blocks);
    }
  }

  /** The numbers below `n`. */
  function Below(n: nat): (s: set<nat>)
    ensures forall b: nat :: b in s <==> b < n
  {
    if n == 0 then {} else Below(n - 1) + {n - 1}
  }

  lemma {:induction false} BelowSize(n: nat)
    ensures |Below(n)| == n
  {
    if n > 0 {
      BelowSize(n - 1);
    }
  }

  /** A free list that holds each block outside `live` once is as long as the blocks that are left. */
  lemma FreeAndLive(free: seq<nat>, live: set<nat>, blocks: nat)
    requires Distinct(free) && live <= Below(blocks)
    requires forall b: nat :: b in free <==> b < blocks && b !in live
    ensures |free| + |live| == blocks
  {
    DistinctSize(free);
    BelowSize(blocks);
    assert Elements(free) == Below(blocks) - live;
  }

  // ----- The chunk -----

  datatype View = View(base: nat, live: set<nat>, bytes: seq<byte>)

  ghost function Wrote(v: View, at: int, x: byte): View {
    if 0 <= at < |v.bytes| then v.(bytes := v.bytes[at := x]) else v
  }

  class Chunk {
    var base: nat          // address of mem
    var mem: array?<byte>  // null before reserve_space and after destroy_space
    var nextFree: byte
    var available: byte
    var blocks: byte       // allocated_blocks
    ghost var live: set<nat>  // numbers of the blocks handed out and not given back

    predicate Full()
      reads this
    {
      available == 0
    }

    predicate Empty()
      reads this
    {
      mem == null || available == blocks
    }

    /** Does the address fall within the range of this chunk? A chunk without live blocks owns none. */
    predicate OwnsBlock(block: nat, chunkSize: nat)
      reads this
    {
      !Empty() && base <= block < base + chunkSize
    }

    /** What following the links from `nextFree` visits. */
    ghost function Free(size: nat): (free: seq<nat>)
      reads this, mem
      ensures |free| == available
    {
      Walk(if mem == null then [] else mem[..], size, nextFree, available)
    }

    /** The links visit exactly the blocks that are not live, each once. */
    ghost predicate Valid(size: nat)
      reads this, mem
    {
      && 0 < size
      && mem != null
      && mem.Length == blocks * size
      && live <= Below(blocks)
      && Distinct(Free(size))
      && forall b: nat :: b in Free(size) <==> b < blocks && b !in live
    }

    /** What a client can tell of the chunk: where it is, which blocks are live, and the bytes. */
    ghost function Seen(): (v: View)
      reads this, mem
      ensures v.live == live && v.base == base
    {
      View(base, live, if mem == null then [] else mem[..])
    }

    /** A chunk is empty when no block is live, and full when no block is free. */
    lemma EmptyAndFull(size: nat)
      requires Valid(size)
      ensures Empty() <==> live == {}
      ensures Full() <==> live == Below(blocks)
    {
      FreeAndLive(Free(size), live, blocks);
      if Full() {
        assert forall b: nat :: b < blocks ==> b !in Free(size);
      } else {
        assert Free(size)[0] in Free(size);
      }
    }

    /** The address of block `b`. */
    function Address(b: nat, size: nat): nat
      reads this
    {
      base + b * size
    }

    constructor ()
      ensures mem == null && nextFree == 0 && available == 0 && live == {}
    {
      mem, nextFree, available, live := null, 0, 0, {};
    }

    /** `at` is the address malloc returned. */
    method ReserveSpace(size: nat, count: byte, at: nat)
      requires mem == null && nextFree == 0 && live == {}
      requires 0 < size && 0 < count
      modifies this
      ensures fresh(mem) && base == at && blocks == count
      ensures Valid(size) && live == {} && Empty() && !Full()
    {
      var space := new byte[size * count];
      LinkBlocks(space, size, count);
      base, mem, blocks, available := at, space, count, count;
      FreshWalk(space[..], size, 0, count);
      assert Free(size) == seq(count, k => k);
      forall b: nat ensures b in Free(size) <==> b < count {
        if b < count {
          assert Free(size)[b] == b;
        }
      }
    }

    /** Stores 1, 2, ... in the first bytes of blocks 0, 1, ...; the last block is left as it is. */
    static method LinkBlocks(space: array<byte>, size: nat, count: byte)
      requires 0 < size && 0 < count && space.Length == size * count
      modifies space
      ensures Linked(space[..], size, count - 1)
    {
      hide Linked;
      var i: byte, p := 1, 0;
      NoneLinked(space[..], size);
      while i != count
        invariant 1 <= i <= count && p == (i - 1) * size
        invariant Linked(space[..], size, i - 1)
        decreases count - i
      {
        LinkOneMore(space[..], size, count, i - 1, p);
        ghost var was := space[..];
        space[p] := i;
        assert space[..] == was[p := i];
        i, p := i + 1, p + size;
      }
    }

    method DestroySpace()
      requires mem != null
      modifies this
      ensures mem == null && nextFree == 0 && available == 0 && live == {}
    {
      mem := null;
      available, nextFree, live := 0, 0, {};
    }

    /** Hands out a free block, or returns null when there is none. */
    method Allocate(size: nat) returns (block: Option<nat>)
      requires Valid(size)
      modifies this
      ensures Valid(size) && mem == old(mem) && base == old(base) && blocks == old(blocks)
      ensures old(Full()) ==> block == None && live == old(live) && available == old(available)
      ensures !old(Full()) ==>
                var b := old(Free(size))[0];
                && block == Some(Address(b, size))
                && b < blocks && b !in old(live) && Seen() == old(Seen().(live := live + {b}))
                && Free(size) == old(Free(size))[1..]
    {
      if Full() {
        return None;
      }
      ghost var free := Free(size);
      assert free[0] in free;
      BlocksApart(size, nextFree, blocks);
      var offset := nextFree * size;
      block := Some(base + offset);
      live := live + {nextFree as nat};
      nextFree := mem[offset];
      available := available - 1;
      assert Free(size) == free[1..];
      forall b: nat ensures b in Free(size) <==> b < blocks && b !in live {
        if b in free && b != free[0] {
          var k :| 0 <= k < |free| && free[k] == b;
          assert free[1..][k - 1] == b;
        }
      }
    }

    /** Takes back live block `b`; only its first byte is written. */
    method Deallocate(block: nat, size: nat, ghost b: nat)
      requires Valid(size) && b in live && block == Address(b, size)
      modifies this, mem
      ensures Valid(size) && mem == old(mem) && base == old(base) && blocks == old(blocks)
      ensures Free(size) == [b] + old(Free(size))
      ensures b * size < mem.Length
      ensures Seen() == Wrote(old(Seen()).(live := old(live) - {b}), b * size, old(nextFree))
    {
      BlockNumber(size, b, 0);
      BlocksApart(size, b, blocks);
      var index := (block - base) / size % 256;
      assert index == b;
      ghost var free := Free(size);
      PushExtendsWalk(mem[..], size, nextFree, available, b);
      FreeAndLive(free, live, blocks);
      mem[block - base] := nextFree;
      assert mem[..] == old(mem[..])[b * size := old(nextFree)];
      nextFree := index;
      available := available + 1;
      live := live - {b};
      assert Free(size) == [b] + free;
    }

    /** A client writes byte `k` of live block `b`. */
    method ClientWrite(b: nat, k: nat, v: byte, size: nat)
      requires Valid(size) && b in live && k < size
      modifies mem
      ensures Valid(size) && Free(size) == old(Free(size))
      ensures b * size + k < mem.Length == |old(Seen()).bytes| && Seen() == Wrote(old(Seen()), b * size + k, v)
    {
      BlocksApart(size, b, blocks);
      ClientWriteKeepsWalk(mem[..], size, nextFree, available, b, k, v);
      mem[b * size + k] := v;
      assert mem[..] == old(mem[..])[b * size + k := v];
    }
  }

}
