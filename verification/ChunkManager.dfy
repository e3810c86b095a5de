/**
  The manager of the chunks of one block size (utility/ChunkManager.cpp). Besides the chunks it
  caches three pointers to them.
 */
module ChunkManagers {
  import opened Bytes
  import opened Chunks
  import opened Arenas
  import opened ChunkVectors

  /** Between CHAR_BIT and UCHAR_MAX blocks to a chunk. */
  function Clamp(quotient: nat): byte {
    if quotient > 255 then 255 else if quotient < 8 then 8 else quotient
  }

  /** Keeping the quotient in a byte first changes the clamped result unless this holds. */
  lemma NarrowingIsHarmless(quotient: nat)
    ensures Clamp(quotient % 256) == Clamp(quotient) <==> quotient < 256 || quotient % 256 == 255
    ensures Clamp(4096 / 8 % 256) == 8 && Clamp(4096 / 8) == 255
  {
    if quotient >= 256 {
      assert Clamp(quotient) == 255;
    }
  }

  // ----- The cached pointers, against the chunks `vs` in storage `store` -----

  /** A pointer that may be dereferenced: into the present storage and not past the end. */
  ghost predicate Refers(vs: seq<View>, store: nat, p: Pointer) {
    p.At? && p.store == store && p.index < |vs|
  }

  /** The chunks without live blocks, leaving number `except` out of account, are the one `empty` names. */
  ghost predicate EmptyNamed(vs: seq<View>, store: nat, empty: Pointer, except: int) {
    forall i :: 0 <= i < |vs| && i != except ==> (vs[i].live == {} <==> empty == At(store, i))
  }

  /** What the asserts of allocate and deallocate rely on. */
  ghost predicate Cached(vs: seq<View>, store: nat, empty: Pointer, allocator: Pointer, deallocator: Pointer) {
    && EmptyNamed(vs, store, empty, -1)
    && (empty == Null || Refers(vs, store, empty))
    && (if vs == [] then allocator == Null && deallocator == Null
        else Refers(vs, store, allocator) && Refers(vs, store, deallocator))
  }

  /** `allocator` names a chunk with a free block, which alone may be empty without being named by `empty`. */
  ghost predicate Ready(vs: seq<View>, store: nat, count: nat, empty: Pointer, allocator: Pointer, deallocator: Pointer) {
    && Refers(vs, store, allocator) && Refers(vs, store, deallocator) && (empty == Null || Refers(vs, store, empty))
    && vs[allocator.index].live != Below(count)
    && EmptyNamed(vs, store, empty, allocator.index) && empty != allocator
  }

  /** After growth every cached pointer is set anew: none is left into the old storage. */
  lemma GrowthLeavesNoStalePointer(vs: seq<View>, store: nat, w: View, store': nat, count: nat, allocator: Pointer, deallocator: Pointer)
    requires Cached(vs, store, Null, allocator, deallocator) && w.live == {} && 0 < count
    ensures Ready(vs + [w], store', count, Null, At(store', |vs|), At(store', 0))
  {
    assert 0 in Below(count);
    forall i | 0 <= i < |vs| ensures (vs + [w])[i].live != {} {
      assert vs[i].live == {} <==> Null == At(store, i);
    }
  }

  /** Serving a block makes the allocator's chunk non-empty. */
  lemma ServingRestoresCache(vs: seq<View>, store: nat, count: nat, empty: Pointer, allocator: Pointer, deallocator: Pointer, b: nat)
    requires Ready(vs, store, count, empty, allocator, deallocator)
    ensures var k := allocator.index;
            Cached(vs[k := vs[k].(live := vs[k].live + {b})], store, empty, allocator, deallocator)
  {
    var k := allocator.index;
    var ws := vs[k := vs[k].(live := vs[k].live + {b})];
    assert b in ws[k].live;
  }

  /** A chunk just emptied replaces the one `empty` named, which is dropped; the allocator is moved off it. */
  lemma RetiringRestoresCache(vs: seq<View>, store: nat, count: nat, empty: Pointer, allocator: Pointer, deallocator: Pointer)
    requires Refers(vs, store, allocator) && Refers(vs, store, deallocator) && Refers(vs, store, empty)
    requires EmptyNamed(vs, store, empty, deallocator.index)
    requires vs[deallocator.index].live == {} && empty != deallocator
    ensures var last := |vs| - 1;
            var kept := if deallocator.index == last then empty else deallocator;
            var dropped := if deallocator.index == last then last else empty.index;
            var ws := Without(vs, dropped);
            && vs[dropped].live == {} && Refers(ws, store, kept) && Cached(ws, store, kept, kept, kept)
            && (allocator.index != last ==> Cached(ws, store, kept, allocator, kept))
  {
  }

  // ----- Which chunk serves -----

  ghost predicate AllFull(vs: seq<View>, count: nat) {
    forall v <- vs :: v.live == Below(count)
  }

  /**
    Number `k` is that of the chunk that serves next: the one `allocator` names as long as it has a free block, then
    the empty one, then the first with a free block. Only when there is none is it a new one.
   */
  ghost predicate ServesNext(vs: seq<View>, count: nat, empty: Pointer, allocator: Pointer, k: nat) {
    if allocator.At? && allocator.index < |vs| && vs[allocator.index].live != Below(count) then k == allocator.index
    else if empty.At? then k == empty.index
    else if AllFull(vs, count) then k == |vs|
    else k < |vs| && vs[k].live != Below(count) && forall v <- vs[..k] :: v.live == Below(count)
  }

  /** No chunk is added while any has a free block; a chunk added is at address `at`. */
  ghost predicate Prepared(vs: seq<View>, ws: seq<View>, count: nat, at: nat) {
    if AllFull(vs, count) then Longer(vs, ws, at) else ws == vs
  }

  lemma PreparedNothing(vs: seq<View>, count: nat, at: nat)
    ensures !AllFull(vs, count) ==> Prepared(vs, vs, count, at)
  {
  }

  lemma PreparedNew(vs: seq<View>, ws: seq<View>, count: nat, at: nat)
    ensures AllFull(vs, count) && Longer(vs, ws, at) ==> Prepared(vs, ws, count, at)
  {
  }

  /** One chunk more, which is empty. */
  ghost predicate Longer(vs: seq<View>, ws: seq<View>, at: nat) {
    |ws| == |vs| + 1 && ws[..|vs|] == vs && ws[|vs|].live == {} && ws[|vs|].base == at
  }

  /** The allocator's chunk is full, and chunk `i` is the first that is not, if any. */
  lemma FirstServes(vs: seq<View>, count: nat, allocator: Pointer, i: nat)
    requires i <= |vs| && (forall v <- vs[..i] :: v.live == Below(count)) && (i < |vs| ==> vs[i].live != Below(count))
    requires allocator.At? && allocator.index < |vs| ==> vs[allocator.index].live == Below(count)
    ensures ServesNext(vs, count, Null, allocator, i) && (AllFull(vs, count) <==> i == |vs|)
  {
    if i == |vs| {
      assert vs[..i] == vs;
    } else {
      assert vs[i] in vs;
    }
  }

  /** The allocator's chunk is full, or has to be chosen yet, and there is an empty one. */
  lemma EmptyServes(vs: seq<View>, store: nat, count: nat, empty: Pointer, allocator: Pointer)
    requires Refers(vs, store, empty) && vs[empty.index].live == {} && 0 < count
    requires allocator.At? && allocator.index < |vs| ==> vs[allocator.index].live == Below(count)
    ensures ServesNext(vs, count, empty, allocator, empty.index) && !AllFull(vs, count)
  {
    assert 0 in Below(count) && vs[empty.index] in vs;
  }

  /** A block that was free is taken from chunk `v`, and nothing else happens to it. */
  ghost predicate Took(v: View, w: View, size: nat, block: nat) {
    exists b: nat :: b !in v.live && block == v.base + b * size && w == v.(live := v.live + {b})
  }

  /** What allocating does to the chunks: no chunk is added while any has a free block, and chunk `k` alone is changed. */
  ghost predicate Allocated(vs: seq<View>, ws: seq<View>, size: nat, count: nat, at: nat, k: nat, block: nat) {
    && |ws| == |vs| + (if AllFull(vs, count) then 1 else 0) && k < |ws|
    && (forall j :: 0 <= j < |ws| && j != k ==> j < |vs| && ws[j] == vs[j])
    && (if k < |vs| then Took(vs[k], ws[k], size, block)
        else ws[k].base == at && exists b: nat :: ws[k].live == {b} && block == at + b * size)
  }

  /** Block `block` of chunk `k` is free again, and nothing else has changed but the link in its first byte. */
  ghost predicate Gave(vs: seq<View>, us: seq<View>, size: nat, k: nat, block: nat) {
    && |us| == |vs| && k < |vs| && us == vs[k := us[k]]
    && exists b: nat :: LiveIn(vs[k], size, block, b) && us[k].live == vs[k].live - {b} && Touched(vs[k], us[k], size, b)
  }

  /** The cached pointers, as a value. */
  datatype Cache = Cache(empty: Pointer, allocator: Pointer, deallocator: Pointer)

  /**
    What becomes of chunk `k`, which a block has been given back to, and of the pointers `p`. If it is not empty it stays, and
    if it is the only empty one too. Of two empty chunks one goes: `k` when it is at the end, else the other one, whose place
    the chunk at the end takes. The allocator then moves to the one that is left, if its chunk was at the end or is full.
   */
  ghost predicate Settled(us: seq<View>, ws: seq<View>, store: nat, count: nat, k: nat, p: Cache, q: Cache)
    requires k < |us|
  {
    var end := |us| - 1;
    if us[k].live != {} then ws == us && q == p.(deallocator := At(store, k))
    else if p.empty == Null then ws == us && q == Cache(At(store, k), p.allocator, At(store, k))
    else
      var kept := if k == end then p.empty else At(store, k);
      var dropped := if k == end then end else p.empty.index;
      && dropped < |us| && us[dropped].live == {} && ws == Without(us, dropped)
      && q == Cache(kept, if LeavesAllocator(ws, count, end, p.allocator) then kept else p.allocator, kept)
  }

  /** The chunk the allocator names was at the end, or is full. */
  ghost predicate LeavesAllocator(ws: seq<View>, count: nat, end: nat, allocator: Pointer) {
    allocator.At? && (allocator.index == end || (allocator.index < |ws| && ws[allocator.index].live == Below(count)))
  }

  ghost predicate GoesAndStays(us: seq<View>, store: nat, k: nat, p: Cache, kept: Pointer, dropped: nat) {
    && k < |us| && us[k].live == {} && Refers(us, store, p.empty) && dropped < |us| && us[dropped].live == {}
    && if k == |us| - 1 then kept == p.empty && dropped == k else kept == At(store, k) && dropped == p.empty.index
  }

  /** Of two empty chunks one goes. */
  lemma OneGoes(us: seq<View>, ws: seq<View>, store: nat, count: nat, k: nat, p: Cache, kept: Pointer, dropped: nat, end: nat, q: Cache)
    requires k < |us| && end == |us| - 1
    ensures && GoesAndStays(us, store, k, p, kept, dropped) && ws == Without(us, dropped)
            && q == Cache(kept, if LeavesAllocator(ws, count, end, p.allocator) then kept else p.allocator, kept)
            ==> Settled(us, ws, store, count, k, p, q)
  {
  }

  lemma PreparedThenTook(vs: seq<View>, us: seq<View>, ws: seq<View>, size: nat, count: nat, at: nat, k: nat, block: nat)
    requires Prepared(vs, us, count, at) && k < |us| == |ws| && ws == us[k := ws[k]] && Took(us[k], ws[k], size, block)
    requires |us| > |vs| ==> k == |vs|
    ensures Allocated(vs, ws, size, count, at, k, block)
  {
    if k < |vs| {
      assert us[k] == vs[k];
    } else {
      var b: nat :| b !in us[k].live && block == us[k].base + b * size && ws[k] == us[k].(live := us[k].live + {b});
      assert ws[k].live == {b};
    }
  }


  class ChunkManager {
    var blockSize: nat
    var blocks: byte
    const chunks: ChunkVector
    var empty: Pointer
    var allocator: Pointer
    var deallocator: Pointer

    ghost function Repr(): set<object>
      reads this, chunks
    {
      {this} + chunks.Repr
    }

    ghost predicate Sound()
      reads this`blockSize, this`blocks, chunks, chunks.Repr
    {
      this !in chunks.Repr && 8 <= blocks && chunks.Valid(blockSize, blocks)
    }

    ghost predicate Valid()
      reads this, chunks, chunks.Repr
    {
      Sound() && Cached(chunks.Views(), chunks.storage, empty, allocator, deallocator)
    }

    constructor ()
      ensures blockSize == 0 && allocator == empty == deallocator == Null
      ensures fresh(chunks) && chunks.chunks == [] && chunks.Repr == {chunks}
    {
      blockSize, blocks := 0, 0;
      chunks := new ChunkVector();
      empty, allocator, deallocator := Null, Null, Null;
    }

    /** The block count is the quotient kept in a byte, then clamped to 8..255. */
    method Initialise(size: nat, pageSize: nat)
      requires 0 < size && 0 < pageSize && chunks.chunks == [] && chunks.Repr == {chunks}
      requires empty == allocator == deallocator == Null
      modifies this`blockSize, this`blocks
      ensures Valid() && blockSize == size && blocks == Clamp(pageSize / size % 256)
    {
      blockSize := size;
      blocks := pageSize / size % 256;
      if blocks < 8 {  // a byte cannot exceed the upper limit
        blocks := 8;
      }
    }

    /** The same while a block is being handed out. */
    ghost predicate AboutToServe()
      reads this, chunks, chunks.Repr
    {
      Sound() && Ready(chunks.Views(), chunks.storage, blocks, empty, allocator, deallocator)
    }

    ghost function Pointers(): Cache
      reads this`empty, this`allocator, this`deallocator
    {
      Cache(empty, allocator, deallocator)
    }

    /** Resets the cached pointers; the chunks do not notice. */
    method Point(e: Pointer, a: Pointer, d: Pointer)
      requires Sound()
      modifies this`empty, this`allocator, this`deallocator
      ensures Sound() && chunks.Views() == old(chunks.Views())
      ensures empty == e && allocator == a && deallocator == d
    {
      empty, allocator, deallocator := e, a, d;
    }

    /** Appends a chunk, and points `allocator` at it and `deallocator` into the storage. */
    method AcquireNew(at: nat)
      requires Valid() && chunks.Unused(at, blockSize, blocks) && empty == Null
      modifies this`empty, this`allocator, this`deallocator, chunks
      ensures AboutToServe() && fresh(Repr() - old(Repr()))
      ensures Same(old(chunks.Views()), chunks.Views(), blockSize)
      ensures Longer(old(chunks.Views()), chunks.Views(), at) && allocator.index == |old(chunks.chunks)|
    {
      ghost var vs, store := chunks.Views(), chunks.storage;
      ghost var w := chunks.Extend(at, blockSize, blocks);
      GrowthLeavesNoStalePointer(vs, store, w, chunks.storage, blocks, allocator, deallocator);
      Point(Null, At(chunks.storage, |chunks.chunks| - 1), At(chunks.storage, 0));
    }

    /** Points `allocator` at the empty chunk, else at the first with space, else at a new one. */
    method Acquire(at: nat)
      requires Valid() && chunks.Unused(at, blockSize, blocks)
      requires allocator == Null || chunks.Deref(allocator).Full()
      modifies this`empty, this`allocator, this`deallocator, chunks
      ensures AboutToServe() && fresh(Repr() - old(Repr()))
      ensures Same(old(chunks.Views()), chunks.Views(), blockSize)
      ensures Prepared(old(chunks.Views()), chunks.Views(), blocks, at)
      ensures ServesNext(old(chunks.Views()), blocks, old(empty), old(allocator), allocator.index)
    {
      hide Same, Separate, Sized, Ready, ServesNext, AllFull, Prepared, Longer, EmptyNamed;
      ghost var vs := chunks.Views();
      SameItself(vs, blockSize);
      AllocatorFull();
      if empty != Null {
        UseEmpty();
        PreparedNothing(vs, blocks, at);
        return;
      }
      var i := FirstWithSpace();
      FirstServes(vs, blocks, allocator, i);
      if i == |chunks.chunks| {
        AcquireNew(at);
        PreparedNew(vs, chunks.Views(), blocks, at);
      } else {
        PreparedNothing(vs, blocks, at);
        Use(i);
      }
    }

    /** The number of the first chunk with a free block, or the number of chunks when there is none. */
    method FirstWithSpace() returns (i: nat)
      requires Sound()
      ensures i <= |chunks.Views()| && (forall v <- chunks.Views()[..i] :: v.live == Below(blocks))
      ensures i < |chunks.Views()| ==> chunks.Views()[i].live != Below(blocks)
    {
      i := 0;
      while i < |chunks.chunks| && chunks.chunks[i].Full()
        invariant 0 <= i <= |chunks.chunks| && forall j :: 0 <= j < i ==> chunks.chunks[j].Full()
      {
        i := i + 1;
      }
      chunks.AllFull(i, blockSize, blocks);
      if i < |chunks.chunks| {
        chunks.EmptyAndFull(i, blockSize, blocks);
      }
    }

    /** Points `allocator` at the empty chunk. */
    method UseEmpty()
      requires Valid() && empty != Null
      requires allocator.At? ==> allocator.index < |chunks.Views()| && chunks.Views()[allocator.index].live == Below(blocks)
      modifies this`empty, this`allocator, this`deallocator
      ensures AboutToServe() && chunks.Views() == old(chunks.Views())
      ensures ServesNext(chunks.Views(), blocks, old(empty), old(allocator), allocator.index) && !AllFull(chunks.Views(), blocks)
    {
      chunks.EmptyAndFull(empty.index, blockSize, blocks);
      assert chunks.Deref(empty).Empty();
      EmptyServes(chunks.Views(), chunks.storage, blocks, empty, allocator);
      assert 0 in Below(blocks);
      Point(Null, empty, deallocator);
    }

    /** Points `allocator` at chunk `i`, which has a free block. */
    method Use(i: nat)
      requires Valid() && empty == Null && i < |chunks.Views()| && chunks.Views()[i].live != Below(blocks)
      modifies this`empty, this`allocator, this`deallocator
      ensures AboutToServe() && chunks.Views() == old(chunks.Views()) && allocator == At(chunks.storage, i)
    {
      Point(empty, At(chunks.storage, i), deallocator);
    }

    lemma AllocatorFull()
      requires Valid() && (allocator == Null || chunks.Deref(allocator).Full())
      ensures allocator.At? ==> allocator.index < |chunks.Views()| && chunks.Views()[allocator.index].live == Below(blocks)
    {
      if allocator.At? {
        chunks.EmptyAndFull(allocator.index, blockSize, blocks);
      }
    }

    /** Takes a block from the chunk `allocator` names. */
    method Serve() returns (block: nat)
      requires AboutToServe()
      modifies chunks.Deref(allocator)
      ensures Valid()
      ensures !IsLive(old(chunks.Views()), blockSize, block) && IsLive(chunks.Views(), blockSize, block)
      ensures SameExcept(old(chunks.Views()), chunks.Views(), blockSize, block)
      ensures var k := allocator.index;
              && |chunks.Views()| == |old(chunks.Views())| && chunks.Views() == old(chunks.Views())[k := chunks.Views()[k]]
              && Took(old(chunks.Views())[k], chunks.Views()[k], blockSize, block)
    {
      hide Separate, IsLive, SameExcept, Cached, EmptyNamed;
      ghost var b, vs, k := 0, chunks.Views(), allocator.index;
      chunks.EmptyAndFull(allocator.index, blockSize, blocks);
      block, b := chunks.AllocateFrom(allocator.index, blockSize, blocks);
      assert block == chunks.Views()[k].base + b * blockSize;
      TouchOne(vs, k, chunks.Views()[k], blockSize, blocks, b);
      ServingRestoresCache(vs, chunks.storage, blocks, empty, allocator, deallocator, b);
    }

    /** Makes sure `allocator` names a chunk with a free block. */
    method Prepare(at: nat)
      requires Valid() && chunks.Unused(at, blockSize, blocks)
      modifies this`empty, this`allocator, this`deallocator, chunks
      ensures AboutToServe() && fresh(Repr() - old(Repr()))
      ensures Same(old(chunks.Views()), chunks.Views(), blockSize)
      ensures Prepared(old(chunks.Views()), chunks.Views(), blocks, at)
      ensures ServesNext(old(chunks.Views()), blocks, old(empty), old(allocator), allocator.index)
    {
      if allocator == Null || chunks.Deref(allocator).Full() {
        Acquire(at);
        return;
      }
      chunks.EmptyAndFull(allocator.index, blockSize, blocks);
      if allocator == empty {
        Point(Null, allocator, deallocator);
      }
    }

    /** Hands out a block that is not live and leaves all others as they are. */
    method Allocate(at: nat) returns (block: nat)
      requires Valid() && chunks.Unused(at, blockSize, blocks)
      modifies Repr()
      ensures Valid() && fresh(Repr() - old(Repr())) && blockSize == old(blockSize) && blocks == old(blocks)
      ensures !IsLive(old(chunks.Views()), blockSize, block) && IsLive(chunks.Views(), blockSize, block)
      ensures SameExcept(old(chunks.Views()), chunks.Views(), blockSize, block)
      ensures ServesNext(old(chunks.Views()), blocks, old(empty), old(allocator), allocator.index)
      ensures Allocated(old(chunks.Views()), chunks.Views(), blockSize, blocks, at, allocator.index, block)
    {
      ghost var us := chunks.Views();
      Prepare(at);
      ghost var vs := chunks.Views();
      block := Serve();
      PreparedThenTook(us, vs, chunks.Views(), blockSize, blocks, at, allocator.index, block);
      SameThenExcept(us, vs, chunks.Views(), blockSize, block);
    }

    /** The chunk that owns `block`; the search starts at `deallocator`. */
    method Find(block: nat) returns (owner: Pointer)
      requires Valid() && chunks.chunks != []
      ensures owner == Null || chunks.Refers(owner)
      ensures owner != Null ==> Owns(chunks.Views()[owner.index], block)
      ensures owner == Null ==> forall v <- chunks.Views() :: !Owns(v, block)
    {
      owner := chunks.Search(deallocator.index, block, blocks * blockSize);
      chunks.OwnsAgrees(block, blockSize, blocks);
    }

    /** Points `deallocator` at the chunk of a live block: the search never fails. */
    method Locate(block: nat)
      requires Valid() && IsLive(chunks.Views(), blockSize, block)
      modifies this`empty, this`allocator, this`deallocator
      ensures Valid() && chunks.Views() == old(chunks.Views())
      ensures allocator == old(allocator) && empty == old(empty) && chunks.Refers(deallocator)
      ensures exists b: nat :: LiveIn(chunks.Views()[deallocator.index], blockSize, block, b)
    {
      hide Sized, Separate, IsLive, EmptyNamed;
      LiveNeedsChunk(chunks.Views(), blockSize, block);
      var owner := Find(block);
      OwnerHoldsBlock(chunks.Views(), blockSize, blocks, if owner == Null then 0 else owner.index, block);
      assert owner != Null;
      Point(empty, allocator, owner);
    }

    /** Chunk `deallocator` has just become empty: one of it and the one `empty` names is dropped. */
    method Retire()
      requires Sound()
      requires chunks.Refers(allocator) && chunks.Refers(deallocator) && chunks.Refers(empty)
      requires EmptyNamed(chunks.Views(), chunks.storage, empty, deallocator.index)
      requires chunks.Views()[deallocator.index].live == {} && empty != deallocator
      modifies this`empty, this`allocator, this`deallocator, chunks`chunks, chunks.chunks
      ensures Valid() && Same(old(chunks.Views()), chunks.Views(), blockSize)
      ensures Settled(old(chunks.Views()), chunks.Views(), chunks.storage, blocks, old(deallocator.index), old(Pointers()), Pointers())
    {
      hide Same, Separate, Sized, EmptyNamed, Cached, Settled, LeavesAllocator, GoesAndStays, Without;
      var end := |chunks.chunks| - 1;
      RetiringRestoresCache(chunks.Views(), chunks.storage, blocks, empty, allocator, deallocator);
      var kept, dropped := deallocator, empty.index;
      if deallocator.index == end {
        kept, dropped := empty, end;
      }
      ghost var us, p, store := chunks.Views(), Pointers(), chunks.storage;
      ghost var ws := Without(us, dropped);
      MayGo(kept, dropped);
      assert Cached(ws, store, kept, kept, kept) && (allocator.index != end ==> Cached(ws, store, kept, allocator, kept));
      chunks.Discard(dropped, blockSize, blocks);
      assert chunks.Views() == ws;
      Keep(kept, end);
      OneGoes(us, ws, store, blocks, p.deallocator.index, p, kept, dropped, end, Pointers());
    }

    lemma MayGo(kept: Pointer, dropped: nat)
      requires Sound() && chunks.Refers(deallocator) && chunks.Refers(empty) && EmptyNamed(chunks.Views(), chunks.storage, empty, deallocator.index)
      requires chunks.Views()[deallocator.index].live == {} && empty != deallocator
      requires kept == if deallocator.index == |chunks.chunks| - 1 then empty else deallocator
      requires dropped == if deallocator.index == |chunks.chunks| - 1 then deallocator.index else empty.index
      ensures GoesAndStays(chunks.Views(), chunks.storage, deallocator.index, Pointers(), kept, dropped)
    {
    }

    /** Makes `kept` the empty chunk, and the allocator's too if that has gone or is full. */
    method Keep(kept: Pointer, end: nat)
      requires Sound() && allocator.At? && allocator.store == chunks.storage && allocator.index <= end == |chunks.chunks|
      modifies this`empty, this`allocator, this`deallocator
      ensures Sound() && chunks.Views() == old(chunks.Views())
      ensures empty == kept && deallocator == kept
      ensures allocator == if LeavesAllocator(chunks.Views(), blocks, end, old(allocator)) then kept else old(allocator)
      ensures old(allocator.index) == end ==> allocator == kept
    {
      if allocator.index < end {
        chunks.EmptyAndFull(allocator.index, blockSize, blocks);
      }
      var a := allocator;
      if allocator == At(chunks.storage, end) || chunks.Deref(allocator).Full() {
        a := kept;
      }
      Point(kept, a, kept);
    }

    /** Gives `block` back to the chunk that owns it. */
    method GiveToOwner(block: nat)
      requires Valid() && IsLive(chunks.Views(), blockSize, block)
      modifies Repr()
      ensures Sound() && chunks.Repr == old(chunks.Repr) && blockSize == old(blockSize) && blocks == old(blocks)
      ensures allocator == old(allocator) && empty == old(empty) && empty != deallocator
      ensures chunks.Refers(allocator) && chunks.Refers(deallocator) && (empty == Null || chunks.Refers(empty))
      ensures EmptyNamed(chunks.Views(), chunks.storage, empty, deallocator.index)
      ensures !IsLive(chunks.Views(), blockSize, block)
      ensures SameExcept(old(chunks.Views()), chunks.Views(), blockSize, block)
      ensures Gave(old(chunks.Views()), chunks.Views(), blockSize, deallocator.index, block)
    {
      hide Sized, Separate, IsLive, SameBlock, SameExcept;
      Locate(block);
      ghost var v := chunks.Views()[deallocator.index];
      ghost var b: nat :| LiveIn(v, blockSize, block, b);
      assert v.live != {} && empty != deallocator;
      chunks.Return(deallocator.index, block, blockSize, blocks, b);
    }

    /** Records that chunk `deallocator` has become empty, when it has. */
    method Settle()
      requires Sound()
      requires chunks.Refers(allocator) && chunks.Refers(deallocator) && (empty == Null || chunks.Refers(empty))
      requires EmptyNamed(chunks.Views(), chunks.storage, empty, deallocator.index) && empty != deallocator
      modifies this`empty, this`allocator, this`deallocator, chunks`chunks, chunks.chunks
      ensures Valid() && Same(old(chunks.Views()), chunks.Views(), blockSize)
      ensures Settled(old(chunks.Views()), chunks.Views(), chunks.storage, blocks, old(deallocator.index), old(Pointers()), Pointers())
    {
      chunks.EmptyAndFull(deallocator.index, blockSize, blocks);
      if chunks.Deref(deallocator).Empty() {
        if empty != Null {
          Retire();
        } else {
          Point(deallocator, allocator, deallocator);
        }
      }
    }

    /** Takes back live block `block` and leaves all others as they are. */
    method Deallocate(block: nat) returns (ghost k: nat, ghost us: seq<View>)
      requires Valid() && IsLive(chunks.Views(), blockSize, block)
      modifies Repr()
      ensures Valid() && chunks.Repr == old(chunks.Repr) && blockSize == old(blockSize) && blocks == old(blocks)
      ensures !IsLive(chunks.Views(), blockSize, block)
      ensures SameExcept(old(chunks.Views()), chunks.Views(), blockSize, block)
      ensures Gave(old(chunks.Views()), us, blockSize, k, block)
      ensures Settled(us, chunks.Views(), chunks.storage, blocks, k, old(Pointers()).(deallocator := At(chunks.storage, k)), Pointers())
    {
      hide Sized, Separate, IsLive, SameBlock, Same, SameExcept, EmptyNamed, Gave, Settled;
      ghost var vs := chunks.Views();
      GiveToOwner(block);
      us, k := chunks.Views(), deallocator.index;
      assert Pointers() == old(Pointers()).(deallocator := At(chunks.storage, k));
      Settle();
      ExceptThenSame(vs, us, chunks.Views(), blockSize, block);
    }

    /**
      A client writes byte `k` of `block`, which is block `b` of chunk `i`: the free lists and all
      other blocks are as they were.
     */
    method ClientWrite(i: nat, b: nat, block: nat, k: nat, v: byte)
      requires Valid() && i < |chunks.chunks| && LiveIn(chunks.Views()[i], blockSize, block, b) && k < blockSize
      modifies chunks.Repr - {chunks}
      ensures Valid() && Holds(chunks.Views(), blockSize, block, k, v)
      ensures IsLive(chunks.Views(), blockSize, block) && SameExcept(old(chunks.Views()), chunks.Views(), blockSize, block)
    {
      hide Sized, Separate, IsLive, SameExcept, Holds;
      chunks.Write(i, b, block, k, v, blockSize, blocks);
    }
  }
}
