/**
 * The operations of BLI_mempool as pure transitions over `PoolState.Pool`:
 * chunk initialisation, creation, alloc/calloc, free with collapse-on-empty,
 * clear and count, together with the proofs that each keeps `Valid`.
 */
module PoolOps {
  import opened PoolState

  // ---------------------------------------------------------------------
  // Chunk initialisation (mempool_chunk_add)
  // ---------------------------------------------------------------------

  /**
   * Appends chunk `c` at the tail of the chunk list, tags all its slots free
   * and links them, in ascending index order, after the current end of the
   * free list (onto `lasttail` when building, or as the whole list when the
   * free list was empty).
   */
  function AddChunk(p: Pool, c: ChunkId): (r: Pool)
    requires p.pchunk >= 1
    ensures r.chunks == p.chunks + [c]
    ensures r.free == p.free + ChunkSlots(c, p.pchunk)
    ensures forall i :: 0 <= i < p.pchunk ==> TagOf(r, Slot(c, i)) == Free
    ensures forall s: Slot :: s.chunk != c ==> TagOf(r, s) == TagOf(p, s)
    ensures r.totused == p.totused && r.nextChunk == p.nextChunk
    ensures r.esize == p.esize && r.csize == p.csize && r.pchunk == p.pchunk && r.allowIter == p.allowIter
  {
    p.(chunks := p.chunks + [c],
       tags := p.tags[c := AllFree(p.pchunk)],
       free := p.free + ChunkSlots(c, p.pchunk))
  }

  lemma AddChunkShape(p: Pool, c: ChunkId)
    requires ValidShape(p)
    requires c !in p.chunks && c < p.nextChunk
    ensures ValidShape(AddChunk(p, c))
    ensures LiveSlots(AddChunk(p, c)) == LiveSlots(p)
  {
    AddChunkChunks(p, c);
    AddChunkFreeList(p, c);
    AddChunkCounts(p, c);
  }

  lemma AddChunkChunks(p: Pool, c: ChunkId)
    requires p.pchunk >= 1 && ChunksOk(p)
    requires c !in p.chunks && c < p.nextChunk
    ensures ChunksOk(AddChunk(p, c))
  {
    var r := AddChunk(p, c);
    forall i, j | 0 <= i < j < |r.chunks| ensures r.chunks[i] != r.chunks[j] {
      if j == |p.chunks| { assert r.chunks[i] == p.chunks[i]; }
    }
  }

  lemma AddChunkFreeList(p: Pool, c: ChunkId)
    requires p.pchunk >= 1 && FreeListOk(p)
    requires c !in p.chunks
    ensures FreeListOk(AddChunk(p, c))
  {
    var r := AddChunk(p, c);
    var cs := ChunkSlots(c, p.pchunk);
    forall i, j | 0 <= i < |p.free| && 0 <= j < |cs|
      ensures p.free[i] != cs[j]
    {
      assert Owned(p, p.free[i]);
    }
    DistinctConcat(p.free, cs);
    forall k | 0 <= k < |r.free|
      ensures Owned(r, r.free[k]) && TagOf(r, r.free[k]) == Free
    {
      if k < |p.free| {
        assert r.free[k] == p.free[k];
        assert Owned(p, p.free[k]);
      } else {
        assert r.free[k] == cs[k - |p.free|];
      }
    }
    forall s | Owned(r, s) && TagOf(r, s) == Free
      ensures s in r.free
    {
      if s.chunk == c {
        assert cs[s.index] == s;
        assert r.free[|p.free| + s.index] == s;
      } else {
        assert s in p.free;
      }
    }
  }

  lemma AddChunkCounts(p: Pool, c: ChunkId)
    requires p.pchunk >= 1 && CountsOk(p)
    requires c !in p.chunks
    ensures CountsOk(AddChunk(p, c))
    ensures LiveSlots(AddChunk(p, c)) == LiveSlots(p)
  {
    var n: nat := p.pchunk;
    assert (|p.chunks| + 1) * n == |p.chunks| * n + n;
    LiveFromAppendFree(p.chunks, p.tags, c, n, 0);
  }

  /**
   * Takes a fresh chunk from the backing allocator and initialises it.  No
   * tag the pool can read changes: the new chunk's slots read as free before
   * and after.
   */
  function Grow(p: Pool): (r: Pool)
    requires ValidShape(p)
    ensures ValidShape(r) && |r.chunks| >= 1
    ensures LiveSlots(r) == LiveSlots(p)
    ensures r.chunks == p.chunks + [p.nextChunk] && r.nextChunk == p.nextChunk + 1
    ensures r.free == p.free + ChunkSlots(p.nextChunk, p.pchunk)
    ensures forall s :: TagOf(r, s) == TagOf(p, s)
    ensures r.totused == p.totused
    ensures r.esize == p.esize && r.csize == p.csize && r.pchunk == p.pchunk && r.allowIter == p.allowIter
  {
    var q := p.(nextChunk := p.nextChunk + 1);
    BumpShape(p, q);
    AddChunkShape(q, p.nextChunk);
    assert p.nextChunk !in p.tags;
    AddChunk(q, p.nextChunk)
  }

  /** Moving the allocator's next chunk id forward keeps the invariant. */
  lemma BumpShape(p: Pool, q: Pool)
    requires ValidShape(p)
    requires q == p.(nextChunk := q.nextChunk) && q.nextChunk >= p.nextChunk
    ensures ValidShape(q) && LiveSlots(q) == LiveSlots(p)
  {
    assert ConfigOk(q);
    assert ChunksOk(q);
    forall s ensures Owned(q, s) == Owned(p, s) && TagOf(q, s) == TagOf(p, s) { }
    assert FreeListOk(q);
    assert CountsOk(q);
  }

  // ---------------------------------------------------------------------
  // Creation (BLI_mempool_create)
  // ---------------------------------------------------------------------

  /** C's `/` on int: the quotient truncated toward zero. */
  function CDiv(a: int, b: int): (q: int)
    requires b > 0
    ensures a >= 0 ==> q == a / b && q >= 0
    ensures a >= 0 ==> 0 <= a - q * b < b
    ensures a < 0 ==> -b < a - q * b <= 0
  {
    if a >= 0 then DivNonNeg(a, b); a / b else -((-a) / b)
  }

  lemma DivNonNeg(a: int, b: int)
    requires a >= 0 && b > 0
    ensures a / b >= 0
  {
  }

  /**
   * `maxchunks` exactly as the source computes it, guard included: never 0,
   * `totelem / pchunk + 1` for a non-negative hint, and negative exactly for
   * hints of `-2 * pchunk` and below, which the guard does not catch.
   */
  function ChunkCountAsWritten(totelem: int, pchunk: int): (m: int)
    requires pchunk > 0
    ensures m != 0
    ensures totelem >= 0 ==> m == totelem / pchunk + 1
    ensures m < 1 <==> totelem <= -2 * pchunk
  {
    var q := CDiv(totelem, pchunk);
    QuotientBound(q, pchunk);
    var m := q + 1;
    if m == 0 then 1 else m
  }

  /** A quotient of -2 or below accounts for at least `2 * b` below zero. */
  lemma QuotientBound(q: int, b: nat)
    ensures q <= -2 ==> q * b <= -2 * b
  {
    if q <= -2 {
      MulNonPos(q + 2, b);
    }
  }

  lemma MulNonPos(a: int, b: nat)
    requires a <= 0
    ensures a * b <= 0
  {
  }

  /**
   * The number of chunks a new pool starts with: `totelem / pchunk + 1`
   * (not a ceiling), clamped to at least one chunk for every hint.
   */
  function InitialChunkCount(totelem: int, pchunk: int): (n: nat)
    requires pchunk > 0
    ensures n >= 1
    ensures totelem >= 0 ==> n == totelem / pchunk + 1
    ensures n * pchunk > totelem
    ensures ChunkCountAsWritten(totelem, pchunk) >= 1 ==> n == ChunkCountAsWritten(totelem, pchunk)
  {
    var q := CDiv(totelem, pchunk);
    if q + 1 >= 1 then
      MulSucc(q, pchunk);
      q + 1
    else 1
  }

  function Max(a: int, b: int): int {
    if a >= b then a else b
  }

  /**
   * The configuration part of creation: the clamped element size, the chunk
   * size, and an empty chunk list, free list and live count.
   */
  function Configure(esize: int, pchunk: int, allowIter: bool): (r: Pool)
    requires pchunk >= 1
    ensures ValidShape(r)
    ensures r.chunks == [] && r.tags == map[] && r.free == [] && r.totused == 0 && r.nextChunk == 0
    ensures r.pchunk == pchunk && r.allowIter == allowIter
    ensures r.esize >= esize && r.esize >= ElemSizeMin && (allowIter ==> r.esize >= FreeNodeSize)
    ensures r.esize == esize || r.esize == ElemSizeMin || (allowIter && r.esize == FreeNodeSize)
  {
    var e := if esize < ElemSizeMin then ElemSizeMin else esize;
    var pe := if allowIter then Max(e, FreeNodeSize) else e;
    // The chunk size is taken from the local `esize`, before the iteration clamp;
    // the two agree because a free node fits in the minimum element size.
    Pool(pe, e * pchunk, pchunk, allowIter, [], map[], [], 0, 0)
  }

  /** The chunk ids 0, 1, .., k-1 the allocator hands out during creation. */
  function Ids(k: nat): (r: seq<ChunkId>)
    ensures |r| == k
    ensures forall i :: 0 <= i < k ==> r[i] == i
  {
    if k == 0 then [] else Ids(k - 1) + [k - 1]
  }

  /** The creation loop: adds `k` chunks, each linked after the previous chunk's tail. */
  function Build(p: Pool, k: nat): (r: Pool)
    requires ValidShape(p)
    requires p.chunks == [] && p.free == [] && p.nextChunk == 0 && p.totused == 0
    ensures ValidShape(r)
    ensures r.chunks == Ids(k) && r.nextChunk == k
    ensures r.free == AllSlots(r.chunks, p.pchunk)
    ensures r.totused == 0
    ensures forall s :: TagOf(r, s) == Free
    ensures r.esize == p.esize && r.csize == p.csize && r.pchunk == p.pchunk && r.allowIter == p.allowIter
    decreases k
  {
    if k == 0 then
      assert forall s :: TagOf(p, s) == Free by {
        forall s ensures TagOf(p, s) == Free {
          assert s.chunk !in p.tags;
        }
      }
      p
    else
      var q := Build(p, k - 1);
      assert Ids(k) == q.chunks + [q.nextChunk];
      assert Ids(k)[..k - 1] == q.chunks;
      Grow(q)
  }

  /**
   * BLI_mempool_create: a pool of `InitialChunkCount` chunks, no live element,
   * every slot free and on the free list in chunk order then ascending index.
   */
  function Create(esize: int, totelem: int, pchunk: int, allowIter: bool): (r: Pool)
    requires pchunk >= 1
    ensures Valid(r)
    ensures |r.chunks| == InitialChunkCount(totelem, pchunk)
    ensures |r.chunks| * pchunk > totelem
    ensures r.totused == 0 && LiveSlots(r) == []
    ensures r.free == AllSlots(r.chunks, pchunk)
    ensures forall s :: Owned(r, s) ==> TagOf(r, s) == Free
    ensures r.pchunk == pchunk && r.allowIter == allowIter
    ensures r.esize >= esize && r.esize >= ElemSizeMin && (allowIter ==> r.esize >= FreeNodeSize)
    ensures r.esize == esize || r.esize == ElemSizeMin || (allowIter && r.esize == FreeNodeSize)
    ensures r.csize == r.esize * pchunk
  {
    Build(Configure(esize, pchunk, allowIter), InitialChunkCount(totelem, pchunk))
  }

  // ---------------------------------------------------------------------
  // Allocation (BLI_mempool_alloc, BLI_mempool_calloc)
  // ---------------------------------------------------------------------

  /** Hands out the free-list head: tags it live, advances the head, counts it. */
  function Pop(p: Pool): (r: Pool)
    requires ValidShape(p) && p.free != []
    ensures ValidShape(r)
    ensures forall y :: TagOf(r, y) == (if y == p.free[0] then Live else TagOf(p, y))
    ensures r.free == p.free[1..] && r.chunks == p.chunks && r.totused == p.totused + 1
    ensures r.nextChunk == p.nextChunk
    ensures r.esize == p.esize && r.csize == p.csize && r.pchunk == p.pchunk && r.allowIter == p.allowIter
  {
    PopShape(p);
    PopOf(p)
  }

  function PopOf(p: Pool): Pool
    requires p.free != []
  {
    SetTag(p, p.free[0], Live).(free := p.free[1..], totused := p.totused + 1)
  }

  lemma PopShape(p: Pool)
    requires ValidShape(p) && p.free != []
    ensures ValidShape(PopOf(p))
    ensures forall y :: TagOf(PopOf(p), y) == (if y == p.free[0] then Live else TagOf(p, y))
  {
    var s := p.free[0];
    assert Owned(p, s) && TagOf(p, s) == Free;
    forall y ensures TagOf(PopOf(p), y) == (if y == s then Live else TagOf(p, y)) {
      SetTagFrame(p, s, Live, y);
    }
    PopFreeList(p);
    SetTagLiveCount(p, s, Live);
  }

  /** Taking the head off the free list and tagging it live keeps the free list exact. */
  lemma PopFreeList(p: Pool)
    requires FreeListOk(p) && p.free != []
    requires forall y :: TagOf(PopOf(p), y) == (if y == p.free[0] then Live else TagOf(p, y))
    ensures FreeListOk(PopOf(p))
  {
    var r := PopOf(p);
    forall k | 0 <= k < |r.free|
      ensures Owned(r, r.free[k]) && TagOf(r, r.free[k]) == Free
    {
      assert r.free[k] == p.free[k + 1];
      assert Owned(p, p.free[k + 1]);
    }
    forall y | Owned(r, y) && TagOf(r, y) == Free
      ensures y in r.free
    {
      var k :| 0 <= k < |p.free| && p.free[k] == y;
      assert k != 0;
      assert r.free[k - 1] == y;
    }
  }

  datatype Allocated = Allocated(pool: Pool, elem: Slot)

  /**
   * BLI_mempool_alloc: grows by exactly one chunk when the free list is empty,
   * then hands out the free-list head.
   */
  function Alloc(p: Pool): (r: Allocated)
    requires Valid(p)
    ensures Valid(r.pool)
    ensures r.pool.totused == p.totused + 1
    ensures Owned(r.pool, r.elem) && TagOf(r.pool, r.elem) == Live
    ensures TagOf(p, r.elem) == Free
    ensures forall y :: y != r.elem ==> TagOf(r.pool, y) == TagOf(p, y)
    ensures forall y :: Owned(p, y) ==> Owned(r.pool, y)
    ensures p.free != [] ==>
      r.elem == p.free[0] && r.pool.free == p.free[1..] && r.pool.chunks == p.chunks
    ensures p.free == [] ==>
      r.pool.chunks == p.chunks + [p.nextChunk] && r.elem == Slot(p.nextChunk, 0)
      && r.pool.free == ChunkSlots(p.nextChunk, p.pchunk)[1..]
    ensures r.pool.esize == p.esize && r.pool.csize == p.csize && r.pool.pchunk == p.pchunk
    ensures r.pool.allowIter == p.allowIter
    ensures r.pool.nextChunk == if p.free == [] then p.nextChunk + 1 else p.nextChunk
  {
    var q := if p.free == [] then Grow(p) else p;
    Allocated(Pop(q), q.free[0])
  }

  /** An allocation together with the user memory after it. */
  datatype Zeroed = Zeroed(pool: Pool, elem: Slot, mem: Memory)

  /**
   * BLI_mempool_calloc: an allocation whose `esize` bytes are then set to
   * zero in the user memory; every other element's bytes stay as they were.
   */
  function Calloc(p: Pool, mem: Memory): (r: Zeroed)
    requires Valid(p)
    ensures r.elem in r.mem && |r.mem[r.elem]| == p.esize
    ensures forall i :: 0 <= i < |r.mem[r.elem]| ==> r.mem[r.elem][i] == 0
    ensures forall s :: s != r.elem ==> (s in r.mem <==> s in mem)
    ensures forall s :: s != r.elem && s in mem ==> r.mem[s] == mem[s]
    ensures r.pool == Alloc(p).pool && r.elem == Alloc(p).elem
  {
    var a := Alloc(p);
    Zeroed(a.pool, a.elem, mem[a.elem := Zeros(p.esize)])
  }

  // ---------------------------------------------------------------------
  // Freeing (BLI_mempool_free) and the collapse on empty
  // ---------------------------------------------------------------------

  /** What Free demands of its caller: an address of the pool that is in use. */
  ghost predicate CanFree(p: Pool, s: Slot) {
    Owned(p, s) && TagOf(p, s) == Live
  }

  /**
   * The first half of BLI_mempool_free: pushes `s` onto the free-list head
   * (LIFO), tags it free and counts one element fewer.
   */
  function Push(p: Pool, s: Slot): (r: Pool)
    requires ValidShape(p) && CanFree(p, s)
    ensures r.free == [s] + p.free && r.chunks == p.chunks && r.totused == p.totused - 1
    ensures r.nextChunk == p.nextChunk
    ensures r.esize == p.esize && r.csize == p.csize && r.pchunk == p.pchunk && r.allowIter == p.allowIter
    ensures forall y :: TagOf(r, y) == (if y == s then Free else TagOf(p, y))
    ensures ValidShape(r)
  {
    PushShape(p, s);
    PushOf(p, s)
  }

  function PushOf(p: Pool, s: Slot): Pool {
    SetTag(p, s, Free).(free := [s] + p.free, totused := p.totused - 1)
  }

  lemma PushShape(p: Pool, s: Slot)
    requires ValidShape(p) && CanFree(p, s)
    ensures ValidShape(PushOf(p, s))
    ensures forall y :: TagOf(PushOf(p, s), y) == (if y == s then Free else TagOf(p, y))
  {
    forall y ensures TagOf(PushOf(p, s), y) == (if y == s then Free else TagOf(p, y)) {
      SetTagFrame(p, s, Free, y);
    }
    PushFreeList(p, s);
    SetTagLiveCount(p, s, Free);
  }

  /** Pushing a live slot, now tagged free, onto the free list keeps the free list exact. */
  lemma PushFreeList(p: Pool, s: Slot)
    requires FreeListOk(p) && CanFree(p, s)
    requires forall y :: TagOf(PushOf(p, s), y) == (if y == s then Free else TagOf(p, y))
    ensures FreeListOk(PushOf(p, s))
  {
    var r := PushOf(p, s);
    forall k | 0 <= k < |p.free| ensures p.free[k] != s {
      assert TagOf(p, p.free[k]) == Free;
    }
    forall k | 0 <= k < |r.free|
      ensures Owned(r, r.free[k]) && TagOf(r, r.free[k]) == Free
    {
      if k > 0 {
        assert r.free[k] == p.free[k - 1];
        assert Owned(p, p.free[k - 1]);
      }
    }
    forall y | Owned(r, y) && TagOf(r, y) == Free
      ensures y in r.free
    {
      if y != s {
        assert y in p.free;
      }
    }
  }

  /**
   * The defragmentation on empty: keeps only the first chunk and rebuilds the
   * free list over it in ascending order.  The tag words are left as they are.
   */
  function Collapse(q: Pool): (r: Pool)
    requires q.pchunk >= 1 && |q.chunks| >= 1
    ensures r.chunks == [q.chunks[0]]
    ensures r.free == ChunkSlots(q.chunks[0], q.pchunk)
    ensures forall y :: Owned(r, y) <==> Owned(q, y) && y.chunk == q.chunks[0]
    ensures forall y: Slot :: y.chunk == q.chunks[0] ==> TagOf(r, y) == TagOf(q, y)
    ensures r.totused == q.totused && r.nextChunk == q.nextChunk
    ensures r.esize == q.esize && r.csize == q.csize && r.pchunk == q.pchunk && r.allowIter == q.allowIter
  {
    var first := q.chunks[0];
    q.(chunks := [first],
       tags := map[first := TagsOf(q.tags, first)],
       free := ChunkSlots(first, q.pchunk))
  }

  /** With nothing in use every slot is already tagged free, so the rebuilt free list is sound. */
  lemma CollapseShape(q: Pool)
    requires ValidShape(q) && |q.chunks| >= 1 && q.totused == 0
    ensures LiveSlots(Collapse(q)) == []
    ensures forall y :: TagOf(Collapse(q), y) == Free
    ensures Valid(Collapse(q))
  {
    var first := q.chunks[0];
    var t := TagsOf(q.tags, first);
    var r := Collapse(q);
    assert LiveFrom(q.chunks, q.tags, 0) == LiveInFrom(first, t, 0) + LiveFrom(q.chunks, q.tags, 1);
    LiveInFromEmpty(first, t, 0);
    assert LiveFrom(r.chunks, r.tags, 1) == [];
    assert LiveSlots(r) == LiveInFrom(first, t, 0);
    forall y | Owned(r, y) && TagOf(r, y) == Free
      ensures y in r.free
    {
      assert r.free[y.index] == y;
    }
  }

  /**
   * BLI_mempool_free: pushes the slot onto the free list (LIFO); when that
   * leaves nothing in use, drops every chunk but the first.
   */
  function FreeElem(p: Pool, s: Slot): (r: Pool)
    requires Valid(p) && CanFree(p, s)
    ensures Valid(r)
    ensures r.totused == p.totused - 1
    ensures s !in LiveSlots(r)
    ensures r.totused > 0 ==>
      r.chunks == p.chunks && r.free == [s] + p.free
      && (forall y :: TagOf(r, y) == (if y == s then Free else TagOf(p, y)))
    ensures r.totused == 0 ==>
      r.chunks == [p.chunks[0]] && r.free == ChunkSlots(p.chunks[0], p.pchunk)
      && (forall y :: TagOf(r, y) == Free)
    ensures r.esize == p.esize && r.csize == p.csize && r.pchunk == p.pchunk && r.allowIter == p.allowIter
    ensures r.nextChunk == p.nextChunk
  {
    var q := Push(p, s);
    LiveSlotsMembership(q, s);
    if q.totused == 0 then
      CollapseShape(q);
      Collapse(q)
    else
      q
  }

  /** The outcome of the debug-build checks at the top of BLI_mempool_free. */
  datatype FreeCheck = Passed | NotInPool | DoubleFree

  /**
   * The assertions of a debug build: the address must lie in a chunk, and a
   * double free is caught only when the pool keeps tag words (iteration flag).
   */
  function CheckFree(p: Pool, s: Slot): (r: FreeCheck)
    ensures Valid(p) && p.allowIter ==> (r == Passed <==> CanFree(p, s))
    ensures !p.allowIter ==> (r == Passed <==> Owned(p, s))
  {
    if !Owned(p, s) then NotInPool
    else if p.allowIter && TagOf(p, s) == Free then DoubleFree
    else Passed
  }

  // ---------------------------------------------------------------------
  // Clear and count
  // ---------------------------------------------------------------------

  /**
   * BLI_mempool_clear: releases every chunk but the first, forgets all
   * elements and re-initialises the first chunk as a fresh free list.
   */
  function Clear(p: Pool): (r: Pool)
    requires Valid(p)
    ensures Valid(r)
    ensures r.totused == 0 && LiveSlots(r) == []
    ensures r.chunks == [p.chunks[0]]
    ensures r.free == ChunkSlots(p.chunks[0], p.pchunk)
    ensures forall y :: Owned(r, y) ==> TagOf(r, y) == Free
    ensures r.esize == p.esize && r.csize == p.csize && r.pchunk == p.pchunk && r.allowIter == p.allowIter
    ensures r.nextChunk == p.nextChunk
  {
    var first := p.chunks[0];
    var base := p.(chunks := [], tags := map[], free := [], totused := 0);
    assert LiveSlots(base) == [];
    AddChunkShape(base, first);
    AddChunk(base, first)
  }

  /** BLI_mempool_count: the number of elements in use. */
  function Count(p: Pool): (n: int)
    requires Valid(p)
    ensures n == |LiveSlots(p)|
  {
    p.totused
  }
}
