/**
 * Laws relating several pool operations: what alloc and free do to the set of
 * live elements, that emptying a pool by free is the same as clearing it,
 * that clear is idempotent, and a worked allocation/free trace.
 */
module PoolLaws {
  import opened PoolState
  import opened PoolOps
  import opened PoolIter

  /** Two well-formed pools over the same chunks that read the same tag everywhere hold the same tag words. */
  lemma TagsDetermined(p: Pool, q: Pool)
    requires ChunksOk(p) && ChunksOk(q)
    requires p.chunks == q.chunks && p.pchunk == q.pchunk
    requires forall y :: TagOf(p, y) == TagOf(q, y)
    ensures p.tags == q.tags
  {
    forall c | c in p.tags
      ensures c in q.tags && p.tags[c] == q.tags[c]
    {
      forall i | 0 <= i < p.pchunk
        ensures p.tags[c][i] == q.tags[c][i]
      {
        assert TagOf(p, Slot(c, i)) == TagOf(q, Slot(c, i));
      }
    }
  }

  /** The live elements of a valid pool: each owned live slot exactly once, `totused` of them. */
  lemma LiveSlotsExact(p: Pool)
    requires Valid(p)
    ensures Distinct(LiveSlots(p)) && |LiveSlots(p)| == p.totused
    ensures forall y :: y in LiveSlots(p) <==> Owned(p, y) && TagOf(p, y) == Live
  {
    LiveSlotsDistinct(p);
    forall y ensures y in LiveSlots(p) <==> Owned(p, y) && TagOf(p, y) == Live {
      LiveSlotsMembership(p, y);
    }
  }

  /**
   * A new pool hands out its slots chunk by chunk in list order, each chunk
   * in ascending index order: slot i of chunk k is the (k * pchunk + i)-th
   * free-list entry.
   */
  lemma {:induction false} CreateFreeListOrder(esize: int, totelem: int, pchunk: int, allowIter: bool, k: nat, i: nat)
    requires pchunk >= 1
    requires k < InitialChunkCount(totelem, pchunk) && i < pchunk
    ensures var p := Create(esize, totelem, pchunk, allowIter);
      0 <= k * pchunk + i < |p.free| && p.free[k * pchunk + i] == Slot(p.chunks[k], i)
  {
    var p := Create(esize, totelem, pchunk, allowIter);
    AllSlotsAt(p.chunks, pchunk, k, i);
    MulNonNeg(k, pchunk);
  }

  /** `n` allocations in a row: the final pool and the elements handed out, in order. */
  function AllocMany(p: Pool, n: nat): (r: (Pool, seq<Slot>))
    requires Valid(p)
    ensures Valid(r.0) && r.0.totused == p.totused + n && |r.1| == n
    decreases n
  {
    if n == 0 then (p, [])
    else
      var a := Alloc(p);
      var rest := AllocMany(a.pool, n - 1);
      (rest.0, [a.elem] + rest.1)
  }

  /**
   * As long as the free list lasts, successive allocations hand out its
   * entries in order, without growing the pool.
   */
  lemma {:induction false} AllocManyFollowsFreeList(p: Pool, n: nat)
    requires Valid(p) && n <= |p.free|
    ensures AllocMany(p, n).1 == p.free[..n]
    ensures AllocMany(p, n).0.free == p.free[n..] && AllocMany(p, n).0.chunks == p.chunks
    decreases n
  {
    if n > 0 {
      var a := Alloc(p);
      var hd, tl := a.elem, a.pool.free;
      assert hd == p.free[0] && tl == p.free[1..] && a.pool.chunks == p.chunks;
      var rest := AllocMany(a.pool, n - 1);
      assert AllocMany(p, n) == (rest.0, [hd] + rest.1);
      AllocManyFollowsFreeList(a.pool, n - 1);
      assert rest.1 == tl[..n - 1] && rest.0.free == tl[n - 1..];
      TailSlices(p.free, n);
    }
  }

  lemma TailSlices<T>(s: seq<T>, n: nat)
    requires 1 <= n <= |s|
    ensures s[1..][..n - 1] == s[1..n] && s[1..][n - 1..] == s[n..]
    ensures [s[0]] + s[1..n] == s[..n]
  {
  }

  /**
   * Filling a new pool without growing it hands out slot i of its k-th chunk
   * as allocation number k * pchunk + i, counting from 0.
   */
  lemma {:induction false} CreateAllocOrder(esize: int, totelem: int, pchunk: int, allowIter: bool, k: nat, i: nat)
    requires pchunk >= 1
    requires k < InitialChunkCount(totelem, pchunk) && i < pchunk
    ensures var p := Create(esize, totelem, pchunk, allowIter);
      var fill := AllocMany(p, |p.free|).1;
      0 <= k * pchunk + i < |fill| && fill[k * pchunk + i] == Slot(p.chunks[k], i)
  {
    var p := Create(esize, totelem, pchunk, allowIter);
    CreateFreeListOrder(esize, totelem, pchunk, allowIter, k, i);
    FillFollowsFreeList(p);
  }

  /** Allocating until the free list runs dry hands out exactly its entries, in order. */
  lemma FillFollowsFreeList(p: Pool)
    requires Valid(p)
    ensures AllocMany(p, |p.free|).1 == p.free
  {
    AllocManyFollowsFreeList(p, |p.free|);
    assert p.free[..|p.free|] == p.free;
  }

  /**
   * The free list runs dry exactly when every slot of every chunk is in use,
   * which is when alloc has to grow the pool.
   */
  lemma FreeListEmptyWhenFull(p: Pool)
    requires Valid(p)
    ensures p.free == [] <==> forall y :: Owned(p, y) ==> TagOf(p, y) == Live
    ensures p.free == [] <==> p.totused == |p.chunks| * p.pchunk
  {
    if p.free != [] {
      var y := p.free[0];
      assert Owned(p, y) && TagOf(p, y) == Free;
    }
  }

  /** Alloc adds exactly one element, which was not live before, to the live elements. */
  lemma AllocLiveSlots(p: Pool)
    requires Valid(p)
    ensures Alloc(p).elem !in LiveSlots(p)
    ensures forall y :: y in LiveSlots(Alloc(p).pool) <==> y in LiveSlots(p) || y == Alloc(p).elem
  {
    var a := Alloc(p);
    LiveSlotsMembership(p, a.elem);
    forall y ensures y in LiveSlots(a.pool) <==> y in LiveSlots(p) || y == a.elem {
      LiveSlotsMembership(p, y);
      LiveSlotsMembership(a.pool, y);
      if y != a.elem && TagOf(a.pool, y) == Live {
        assert TagOf(p, y) == Live;
        assert y.chunk in p.tags;
      }
    }
  }

  /** Free removes exactly the freed element from the live elements. */
  lemma FreeLiveSlots(p: Pool, s: Slot)
    requires Valid(p) && CanFree(p, s)
    ensures s in LiveSlots(p)
    ensures forall y :: y in LiveSlots(FreeElem(p, s)) <==> y in LiveSlots(p) && y != s
  {
    LiveSlotsMembership(p, s);
    if p.totused > 1 {
      FreeLiveSlotsKept(p, s);
    } else {
      FreeLiveSlotsLast(p, s);
    }
  }

  lemma FreeLiveSlotsKept(p: Pool, s: Slot)
    requires Valid(p) && CanFree(p, s) && p.totused > 1
    ensures forall y :: y in LiveSlots(FreeElem(p, s)) <==> y in LiveSlots(p) && y != s
  {
    var r := FreeElem(p, s);
    forall y ensures y in LiveSlots(r) <==> y in LiveSlots(p) && y != s {
      LiveSlotsMembership(p, y);
      LiveSlotsMembership(r, y);
    }
  }

  lemma FreeLiveSlotsLast(p: Pool, s: Slot)
    requires Valid(p) && CanFree(p, s) && p.totused <= 1
    ensures LiveSlots(p) == [s] && LiveSlots(FreeElem(p, s)) == []
  {
    LiveSlotsMembership(p, s);
    var l := LiveSlots(p);
    assert |l| == 1 && s in l;
  }

  /**
   * Alloc undoes free: while the pool does not collapse, freeing an element
   * and allocating again hands back that same element (the free list is
   * LIFO) and restores the pool exactly.
   */
  lemma FreeAllocRoundTrip(p: Pool, s: Slot)
    requires Valid(p) && CanFree(p, s) && p.totused >= 2
    ensures Alloc(FreeElem(p, s)) == Allocated(p, s)
  {
    var q := FreeElem(p, s);
    var a := Alloc(q);
    assert a.pool.free == p.free;
    TagsDetermined(a.pool, p);
  }

  /**
   * Free undoes alloc: when the free list is not empty and something else is
   * in use, allocating an element and freeing it again restores the pool
   * exactly.
   */
  lemma AllocFreeRoundTrip(p: Pool)
    requires Valid(p) && p.free != [] && p.totused >= 1
    ensures FreeElem(Alloc(p).pool, Alloc(p).elem) == p
  {
    var a := Alloc(p);
    var r := FreeElem(a.pool, a.elem);
    assert r.free == [p.free[0]] + p.free[1..] == p.free;
    TagsDetermined(r, p);
  }

  /**
   * Calloc keeps the user memory readable by as_array: it still has `esize`
   * bytes for every element in use, and the new element is among them.
   */
  lemma CallocMemory(p: Pool, mem: Memory)
    requires Valid(p)
    requires forall s :: s in LiveSlots(p) ==> s in mem && |mem[s]| == p.esize
    ensures var r := Calloc(p, mem);
      r.elem in LiveSlots(r.pool)
      && forall j :: 0 <= j < |LiveSlots(r.pool)| ==>
           LiveSlots(r.pool)[j] in r.mem && |r.mem[LiveSlots(r.pool)[j]]| == p.esize
  {
    var r := Calloc(p, mem);
    AllocLiveSlots(p);
    forall s | s in LiveSlots(r.pool) ensures s in r.mem && |r.mem[s]| == p.esize {
    }
  }

  /**
   * What as_array reads after a calloc: the new element's block of the array
   * is all zeros, and every other block holds the bytes it held before.
   */
  lemma {:induction false} CallocReadBack(p: Pool, mem: Memory, k: nat)
    requires Valid(p)
    requires forall s :: s in LiveSlots(p) ==> s in mem && |mem[s]| == p.esize
    ensures var r := Calloc(p, mem);
      k < |LiveSlots(r.pool)| ==> (k + 1) * p.esize <= |Flatten(LiveSlots(r.pool), r.mem)|
    ensures var r := Calloc(p, mem);
      k < |LiveSlots(r.pool)| && LiveSlots(r.pool)[k] == r.elem ==>
        Flatten(LiveSlots(r.pool), r.mem)[k * p.esize .. (k + 1) * p.esize] == Zeros(p.esize)
    ensures var r := Calloc(p, mem);
      k < |LiveSlots(r.pool)| && LiveSlots(r.pool)[k] != r.elem ==>
        Flatten(LiveSlots(r.pool), r.mem)[k * p.esize .. (k + 1) * p.esize] == BytesOf(mem, LiveSlots(r.pool)[k])
  {
    CallocMemory(p, mem);
    var r := Calloc(p, mem);
    var live := LiveSlots(r.pool);
    assert r.mem[r.elem] == Zeros(p.esize);
    if k < |live| {
      FlattenBlock(live, r.mem, p.esize, k);
    }
  }

  /** A pool with nothing in use whose tags all read free is the clear of any pool on the same first chunk. */
  lemma EmptyIsClear(p: Pool, r: Pool)
    requires Valid(p) && Valid(r)
    requires r.totused == 0 && r.chunks == [p.chunks[0]] && r.free == ChunkSlots(p.chunks[0], p.pchunk)
    requires forall y :: TagOf(r, y) == Free
    requires r.esize == p.esize && r.csize == p.csize && r.pchunk == p.pchunk && r.allowIter == p.allowIter
    requires r.nextChunk == p.nextChunk
    ensures r == Clear(p)
  {
    var c := Clear(p);
    forall y ensures TagOf(c, y) == TagOf(r, y) {
      if !Owned(c, y) && y.chunk in c.tags {
        assert |c.tags[y.chunk]| == c.pchunk;
      }
    }
    TagsDetermined(c, r);
  }

  /**
   * One alloc followed by freeing that element, on a pool with nothing in use,
   * leaves exactly the pool clear would: the collapse on empty is a clear.
   */
  lemma AllocFreeIsClear(p: Pool)
    requires Valid(p) && p.totused == 0
    ensures CanFree(Alloc(p).pool, Alloc(p).elem)
    ensures FreeElem(Alloc(p).pool, Alloc(p).elem) == Clear(p)
  {
    var n: nat := p.pchunk;
    assert |p.chunks| * n >= n by {
      MulMono(|p.chunks|, n);
    }
    var a := Alloc(p);
    EmptyIsClear(p, FreeElem(a.pool, a.elem));
  }

  lemma MulMono(k: nat, n: nat)
    requires k >= 1
    ensures k * n >= n
  {
  }

  /** Clearing a cleared pool changes nothing. */
  lemma ClearIdempotent(p: Pool)
    requires Valid(p)
    ensures Clear(Clear(p)) == Clear(p)
  {
    var c := Clear(p);
    forall y ensures TagOf(c, y) == Free {
      if !Owned(c, y) && y.chunk in c.tags {
        assert |c.tags[y.chunk]| == c.pchunk;
      }
    }
    EmptyIsClear(c, c);
  }

  /** `n` rounds of allocating one element and freeing it again, from a pool with nothing in use. */
  function AllocFreeRounds(p: Pool, n: nat): (r: Pool)
    requires Valid(p) && p.totused == 0
    ensures Valid(r) && r.totused == 0
    decreases n
  {
    if n == 0 then p
    else
      var a := Alloc(p);
      AllocFreeRounds(FreeElem(a.pool, a.elem), n - 1)
  }

  /** However many alloc/free rounds an empty pool goes through, it ends as its clear. */
  lemma {:induction false} AllocFreeRoundsAreClear(p: Pool, n: nat)
    requires Valid(p) && p.totused == 0 && n >= 1
    ensures AllocFreeRounds(p, n) == Clear(p)
    decreases n
  {
    AllocFreeIsClear(p);
    if n > 1 {
      AllocFreeRoundsAreClear(Clear(p), n - 1);
      ClearIdempotent(p);
    }
  }

  /** An element in use stays in use, and distinct from the new one, across an alloc. */
  lemma AllocKeepsLive(p: Pool, x: Slot)
    requires Valid(p) && CanFree(p, x)
    ensures CanFree(Alloc(p).pool, x) && x != Alloc(p).elem
  {
  }

  /** An element in use stays in use across the free of another element. */
  lemma FreeKeepsLive(p: Pool, s: Slot, x: Slot)
    requires Valid(p) && CanFree(p, s) && CanFree(p, x) && x != s
    ensures CanFree(FreeElem(p, s), x)
  {
    FreeLiveSlots(p, s);
    LiveSlotsMembership(p, x);
    LiveSlotsMembership(FreeElem(p, s), x);
  }

  /**
   * A client run: the pool and the elements the client holds, oldest first.
   */
  datatype Run = Run(pool: Pool, held: seq<Slot>)

  /** The client holds exactly the elements in use, each once. */
  ghost predicate Holding(r: Run) {
    Valid(r.pool) && Distinct(r.held) && |r.held| == r.pool.totused
    && forall k :: 0 <= k < |r.held| ==> CanFree(r.pool, r.held[k])
  }

  /** The client allocates one more element. */
  function AllocStep(r: Run): (r': Run)
    requires Holding(r)
    ensures Holding(r')
    ensures r'.pool.totused == r.pool.totused + 1 && r'.pool.pchunk == r.pool.pchunk
    ensures |r'.pool.chunks| == |r.pool.chunks| + (if r.pool.free == [] then 1 else 0)
    ensures |r'.pool.free| == if r.pool.free == [] then r.pool.pchunk - 1 else |r.pool.free| - 1
    ensures r.pool.free != [] ==> r'.pool.chunks == r.pool.chunks && r'.held == r.held + [r.pool.free[0]]
  {
    var a := Alloc(r.pool);
    forall k | 0 <= k < |r.held|
      ensures CanFree(a.pool, r.held[k]) && r.held[k] != a.elem
    {
      AllocKeepsLive(r.pool, r.held[k]);
    }
    var held := r.held + [a.elem];
    assert forall k :: 0 <= k < |held| ==> CanFree(a.pool, held[k]);
    Run(a.pool, held)
  }

  /** The client frees the oldest element it holds. */
  function FreeStep(r: Run): (r': Run)
    requires Holding(r) && r.pool.totused > 0
    ensures Holding(r')
    ensures r'.pool.totused == r.pool.totused - 1 && r'.pool.pchunk == r.pool.pchunk
    ensures |r'.pool.chunks| == if r'.pool.totused == 0 then 1 else |r.pool.chunks|
    ensures |r'.pool.free| == if r'.pool.totused == 0 then r.pool.pchunk else |r.pool.free| + 1
    ensures r'.pool.totused > 0 ==> r'.pool.chunks == r.pool.chunks
    ensures r'.pool.totused == 0 ==>
      r'.pool.chunks == [r.pool.chunks[0]] && r'.pool.free == ChunkSlots(r.pool.chunks[0], r.pool.pchunk)
    ensures r'.held == r.held[1..]
  {
    var s := r.held[0];
    var q := FreeElem(r.pool, s);
    var held := r.held[1..];
    forall k | 0 <= k < |held|
      ensures CanFree(q, held[k])
    {
      assert held[k] == r.held[k + 1];
      FreeKeepsLive(r.pool, s, held[k]);
    }
    Run(q, held)
  }

  /** A fresh pool of 16-byte elements, no size hint and four elements per chunk; nothing held. */
  function TraceStart(): (r: Run)
    ensures Holding(r) && r.pool.pchunk == 4
    ensures r.pool.chunks == [0] && r.pool.totused == 0 && |r.pool.free| == 4
  {
    var p := Create(16, 0, 4, true);
    assert |p.chunks| == 1;
    Run(p, [])
  }

  /** The first `k` allocations fill the first chunk without growing the pool. */
  function FillRun(k: nat): (r: Run)
    requires k <= 4
    ensures Holding(r) && r.pool.pchunk == 4
    ensures r.pool.chunks == [0] && r.pool.totused == k && |r.pool.free| == 4 - k
  {
    if k == 0 then TraceStart() else AllocStep(FillRun(k - 1))
  }

  /**
   * The fifth allocation adds a second chunk; the `k` frees after it (oldest
   * first) keep both chunks while anything is in use.
   */
  function DrainRun(k: nat): (r: Run)
    requires k <= 4
    ensures Holding(r) && r.pool.pchunk == 4
    ensures |r.pool.chunks| == 2 && r.pool.chunks[0] == 0
    ensures r.pool.totused == 5 - k && |r.pool.free| == 3 + k
  {
    if k == 0 then AllocStep(FillRun(4)) else FreeStep(DrainRun(k - 1))
  }

  /**
   * Freeing the one element in use collapses the pool to its first chunk, and
   * the next allocation reuses that chunk's first slot.  After the four frees
   * above, `DrainRun(4)` is such a run.
   */
  function ReuseRun(r: Run): (out: (Run, Run))
    requires Holding(r) && r.pool.totused == 1
    ensures Holding(out.0) && Holding(out.1)
    ensures out.0.pool.chunks == [r.pool.chunks[0]] && out.0.pool.totused == 0 && out.0.held == []
    ensures out.1.pool.chunks == out.0.pool.chunks && out.1.pool.totused == 1
    ensures out.1.held == [Slot(r.pool.chunks[0], 0)]
  {
    var emptied := FreeStep(r);
    (emptied, AllocStep(emptied))
  }
}
