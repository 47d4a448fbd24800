/**
 * The abstract state of a fixed-size memory pool (BLI_mempool).
 *
 * A chunk is named by an id standing for its address; a slot is an element
 * position (chunk id, index) inside a chunk.  The free list that the C code
 * threads through the unused slots is a sequence of slots, head first.  The
 * `freeword` sentinel becomes an explicit per-slot tag.
 */
module PoolState {

  type ChunkId = nat

  /** The logical state of a slot: FREEWORD in its tag word, or handed out. */
  datatype Tag = Free | Live

  datatype Slot = Slot(chunk: ChunkId, index: nat)

  newtype byte = b: int | 0 <= b < 256

  /**
   * The bytes of user data, element by element.  The pool's own bookkeeping
   * never reads them; calloc writes them and as_array copies them out.
   */
  type Memory = map<Slot, seq<byte>>

  /** `n` zero bytes, what memset(.., 0, n) leaves behind. */
  function Zeros(n: nat): (z: seq<byte>)
    ensures |z| == n && forall i :: 0 <= i < n ==> z[i] == 0
  {
    seq(n, _ => 0)
  }

  /** Platform constants of a 64-bit build. */
  const PointerSize: int := 8
  /** MEMPOOL_ELEM_SIZE_MIN: two pointers. */
  const ElemSizeMin: int := 2 * PointerSize
  /** sizeof(BLI_freenode): a next pointer and an int, padded to pointer alignment. */
  const FreeNodeSize: int := 16

  /**
   * `chunks` is the chunk list in list order, `tags` the tag words of each
   * owned chunk's slots, `free` the free list from its head, `totused` the
   * live count.  `nextChunk` is where the backing allocator hands out the next
   * chunk, so a new chunk never coincides with one the pool still owns.
   */
  datatype Pool = Pool(
    esize: int,
    csize: int,
    pchunk: int,
    allowIter: bool,
    chunks: seq<ChunkId>,
    tags: map<ChunkId, seq<Tag>>,
    free: seq<Slot>,
    totused: int,
    nextChunk: ChunkId)

  predicate Distinct<T(==)>(s: seq<T>) {
    forall i, j :: 0 <= i < j < |s| ==> s[i] != s[j]
  }

  /** The slots of chunk `c` in ascending index order. */
  function ChunkSlots(c: ChunkId, n: nat): (r: seq<Slot>)
    ensures |r| == n
    ensures forall i :: 0 <= i < n ==> r[i] == Slot(c, i)
  {
    seq(n, (i: int) requires 0 <= i => Slot(c, i))
  }

  /** The tags of a freshly initialised chunk. */
  function AllFree(n: nat): (r: seq<Tag>)
    ensures |r| == n
    ensures forall i :: 0 <= i < n ==> r[i] == Free
  {
    seq(n, _ => Free)
  }

  /** Every slot of `chunks`, in chunk-list order then ascending index. */
  function AllSlots(chunks: seq<ChunkId>, n: nat): seq<Slot>
  {
    if chunks == [] then []
    else AllSlots(chunks[..|chunks| - 1], n) + ChunkSlots(chunks[|chunks| - 1], n)
  }

  function TagsOf(tags: map<ChunkId, seq<Tag>>, c: ChunkId): seq<Tag> {
    if c in tags then tags[c] else []
  }

  /** The tag word of a slot, as the iterator reads it. */
  function TagOf(p: Pool, s: Slot): Tag {
    var t := TagsOf(p.tags, s.chunk);
    if s.index < |t| then t[s.index] else Free
  }

  /** The address lies inside one of the pool's chunks. */
  predicate Owned(p: Pool, s: Slot) {
    s.chunk in p.chunks && s.index < p.pchunk
  }

  /** Writes tag `x` into the tag word of slot `s`. */
  function SetTag(p: Pool, s: Slot, x: Tag): Pool {
    var t := TagsOf(p.tags, s.chunk);
    if s.chunk in p.tags && s.index < |t| then p.(tags := p.tags[s.chunk := t[s.index := x]])
    else p
  }

  /** The live slots of chunk `c` from index `i` on, in ascending index order. */
  function LiveInFrom(c: ChunkId, t: seq<Tag>, i: nat): seq<Slot>
    decreases |t| - i
  {
    if i >= |t| then []
    else (if t[i] == Live then [Slot(c, i)] else []) + LiveInFrom(c, t, i + 1)
  }

  /** The live slots of chunks[k..], chunk by chunk. */
  function LiveFrom(chunks: seq<ChunkId>, tags: map<ChunkId, seq<Tag>>, k: nat): seq<Slot>
    decreases |chunks| - k
  {
    if k >= |chunks| then []
    else LiveInFrom(chunks[k], TagsOf(tags, chunks[k]), 0) + LiveFrom(chunks, tags, k + 1)
  }

  /** The reference order of iteration: the live slots in chunk-then-index order. */
  function LiveSlots(p: Pool): seq<Slot> {
    LiveFrom(p.chunks, p.tags, 0)
  }

  /** The configuration fixed at creation: slot count and element size bounds. */
  ghost predicate ConfigOk(p: Pool) {
    && p.pchunk >= 1
    && p.esize >= ElemSizeMin
    && (p.allowIter ==> p.esize >= FreeNodeSize)
    && p.csize == p.esize * p.pchunk
  }

  /** Chunks are distinct, came from the allocator, and each has `pchunk` tag words. */
  ghost predicate ChunksOk(p: Pool) {
    && Distinct(p.chunks)
    && (forall k :: 0 <= k < |p.chunks| ==> p.chunks[k] < p.nextChunk)
    && (forall c :: c in p.tags <==> c in p.chunks)
    && (forall c :: c in p.tags ==> |p.tags[c]| == p.pchunk)
  }

  /** The free list holds distinct owned slots, and exactly the slots tagged free. */
  ghost predicate FreeListOk(p: Pool) {
    && Distinct(p.free)
    && (forall k :: 0 <= k < |p.free| ==> Owned(p, p.free[k]) && TagOf(p, p.free[k]) == Free)
    && (forall s :: Owned(p, s) && TagOf(p, s) == Free ==> s in p.free)
  }

  /** Free slots plus elements in use fill the chunks; `totused` counts the live slots. */
  ghost predicate CountsOk(p: Pool) {
    && |p.free| + p.totused == |p.chunks| * p.pchunk
    && p.totused == |LiveSlots(p)|
  }

  /** The pool invariant, except that it allows a pool without chunks. */
  ghost predicate ValidShape(p: Pool) {
    ConfigOk(p) && ChunksOk(p) && FreeListOk(p) && CountsOk(p)
  }

  /** The invariant every pool reachable from creation keeps. */
  ghost predicate Valid(p: Pool) {
    ValidShape(p) && |p.chunks| >= 1
  }

  // ---------------------------------------------------------------------
  // Lemmas about the views
  // ---------------------------------------------------------------------

  lemma {:induction false} LiveInFromMembership(c: ChunkId, t: seq<Tag>, i: nat, s: Slot)
    ensures s in LiveInFrom(c, t, i) <==> s.chunk == c && i <= s.index < |t| && t[s.index] == Live
    decreases |t| - i
  {
    if i < |t| {
      LiveInFromMembership(c, t, i + 1, s);
      var head := if t[i] == Live then [Slot(c, i)] else [];
      assert LiveInFrom(c, t, i) == head + LiveInFrom(c, t, i + 1);
      assert s in head <==> s == Slot(c, i) && t[i] == Live;
    }
  }

  lemma {:induction false} LiveFromMembership(chunks: seq<ChunkId>, tags: map<ChunkId, seq<Tag>>, k: nat, s: Slot)
    requires k <= |chunks|
    ensures s in LiveFrom(chunks, tags, k) <==>
      s.chunk in chunks[k..] && s.index < |TagsOf(tags, s.chunk)| && TagsOf(tags, s.chunk)[s.index] == Live
    decreases |chunks| - k
  {
    if k < |chunks| {
      LiveInFromMembership(chunks[k], TagsOf(tags, chunks[k]), 0, s);
      LiveFromMembership(chunks, tags, k + 1, s);
      assert chunks[k..] == [chunks[k]] + chunks[k + 1..];
    }
  }

  /** A slot is among the live slots exactly when the pool owns it and its tag is Live. */
  lemma LiveSlotsMembership(p: Pool, s: Slot)
    requires ChunksOk(p)
    ensures s in LiveSlots(p) <==> Owned(p, s) && TagOf(p, s) == Live
  {
    LiveFromMembership(p.chunks, p.tags, 0, s);
    assert p.chunks[0..] == p.chunks;
  }

  lemma {:induction false} LiveInFromDistinct(c: ChunkId, t: seq<Tag>, i: nat)
    ensures Distinct(LiveInFrom(c, t, i))
    decreases |t| - i
  {
    if i < |t| {
      LiveInFromDistinct(c, t, i + 1);
      var rest := LiveInFrom(c, t, i + 1);
      forall k | 0 <= k < |rest|
        ensures rest[k] != Slot(c, i)
      {
        LiveInFromMembership(c, t, i + 1, rest[k]);
      }
    }
  }

  lemma {:induction false} LiveFromDistinct(chunks: seq<ChunkId>, tags: map<ChunkId, seq<Tag>>, k: nat)
    requires Distinct(chunks)
    requires k <= |chunks|
    ensures Distinct(LiveFrom(chunks, tags, k))
    decreases |chunks| - k
  {
    if k < |chunks| {
      var head := LiveInFrom(chunks[k], TagsOf(tags, chunks[k]), 0);
      var rest := LiveFrom(chunks, tags, k + 1);
      LiveInFromDistinct(chunks[k], TagsOf(tags, chunks[k]), 0);
      LiveFromDistinct(chunks, tags, k + 1);
      forall i, j | 0 <= i < |head| && 0 <= j < |rest|
        ensures head[i] != rest[j]
      {
        LiveInFromMembership(chunks[k], TagsOf(tags, chunks[k]), 0, head[i]);
        LiveFromMembership(chunks, tags, k + 1, rest[j]);
      }
      assert head + rest == LiveFrom(chunks, tags, k);
    }
  }

  /** Iteration never yields a slot twice. */
  lemma LiveSlotsDistinct(p: Pool)
    requires Distinct(p.chunks)
    ensures Distinct(LiveSlots(p))
  {
    LiveFromDistinct(p.chunks, p.tags, 0);
  }

  lemma {:induction false} LiveInFromAllFree(c: ChunkId, n: nat, i: nat)
    ensures LiveInFrom(c, AllFree(n), i) == []
    decreases n - i
  {
    if i < n {
      LiveInFromAllFree(c, n, i + 1);
    }
  }

  /** No live slot in a chunk's suffix means every tag in that suffix is Free. */
  lemma {:induction false} LiveInFromEmpty(c: ChunkId, t: seq<Tag>, i: nat)
    requires LiveInFrom(c, t, i) == []
    ensures forall j :: i <= j < |t| ==> t[j] == Free
    decreases |t| - i
  {
    if i < |t| {
      LiveInFromEmpty(c, t, i + 1);
    }
  }

  /**
   * Rewriting the tag at index `i` changes the live count of chunk `c` from `j`
   * on by the difference the rewrite makes at `i`, when `i` lies in that range.
   */
  lemma {:induction false} LiveInFromUpdate(c: ChunkId, t: seq<Tag>, i: nat, x: Tag, j: nat)
    requires i < |t|
    ensures j <= i ==>
      |LiveInFrom(c, t[i := x], j)| + (if t[i] == Live then 1 else 0)
        == |LiveInFrom(c, t, j)| + (if x == Live then 1 else 0)
    ensures j > i ==> LiveInFrom(c, t[i := x], j) == LiveInFrom(c, t, j)
    decreases |t| - j
  {
    if j < |t| {
      LiveInFromUpdate(c, t, i, x, j + 1);
    }
  }

  /** Chunks other than `c` keep their live slots when only `c`'s tags change. */
  lemma {:induction false} LiveFromUpdate(chunks: seq<ChunkId>, tags: map<ChunkId, seq<Tag>>, c: ChunkId, t: seq<Tag>, k: nat)
    requires Distinct(chunks)
    requires k <= |chunks|
    ensures c !in chunks[k..] ==> LiveFrom(chunks, tags[c := t], k) == LiveFrom(chunks, tags, k)
    ensures c in chunks[k..] ==>
      |LiveFrom(chunks, tags[c := t], k)| + |LiveInFrom(c, TagsOf(tags, c), 0)|
        == |LiveFrom(chunks, tags, k)| + |LiveInFrom(c, t, 0)|
    decreases |chunks| - k
  {
    if k < |chunks| {
      assert chunks[k..] == [chunks[k]] + chunks[k + 1..];
      LiveFromUpdate(chunks, tags, c, t, k + 1);
      if chunks[k] == c {
        assert c !in chunks[k + 1..] by {
          forall j | k + 1 <= j < |chunks| ensures chunks[j] != c { }
        }
      }
    }
  }

  /** The live count after a tag write is the old count adjusted by that write. */
  lemma SetTagLiveCount(p: Pool, s: Slot, x: Tag)
    requires ValidShape(p)
    requires Owned(p, s)
    ensures |LiveSlots(SetTag(p, s, x))| + (if TagOf(p, s) == Live then 1 else 0)
      == |LiveSlots(p)| + (if x == Live then 1 else 0)
  {
    var t := p.tags[s.chunk];
    LiveInFromUpdate(s.chunk, t, s.index, x, 0);
    LiveFromUpdate(p.chunks, p.tags, s.chunk, t[s.index := x], 0);
    assert p.chunks[0..] == p.chunks;
  }

  /** A tag write touches one slot only. */
  lemma SetTagFrame(p: Pool, s: Slot, x: Tag, y: Slot)
    requires ValidShape(p)
    requires Owned(p, s)
    ensures TagOf(SetTag(p, s, x), y) == (if y == s then x else TagOf(p, y))
  {
  }

  /** Appending an all-free chunk adds no live slot. */
  lemma {:induction false} LiveFromAppendFree(chunks: seq<ChunkId>, tags: map<ChunkId, seq<Tag>>, c: ChunkId, n: nat, k: nat)
    requires c !in chunks
    requires k <= |chunks|
    ensures LiveFrom(chunks + [c], tags[c := AllFree(n)], k) == LiveFrom(chunks, tags, k)
    decreases |chunks| - k
  {
    var cs := chunks + [c];
    if k < |chunks| {
      LiveFromAppendFree(chunks, tags, c, n, k + 1);
      assert cs[k] == chunks[k];
    } else {
      LiveInFromAllFree(c, n, 0);
      assert cs[k] == c;
    }
  }

  lemma {:induction false} AllSlotsMembership(chunks: seq<ChunkId>, n: nat, s: Slot)
    ensures s in AllSlots(chunks, n) <==> s.chunk in chunks && s.index < n
    decreases |chunks|
  {
    if chunks != [] {
      var init := chunks[..|chunks| - 1];
      var last := chunks[|chunks| - 1];
      AllSlotsMembership(init, n, s);
      assert chunks == init + [last];
      if s.chunk == last && s.index < n {
        assert ChunkSlots(last, n)[s.index] == s;
      }
    }
  }

  lemma {:induction false} AllSlotsDistinct(chunks: seq<ChunkId>, n: nat)
    requires Distinct(chunks)
    ensures Distinct(AllSlots(chunks, n))
    ensures |AllSlots(chunks, n)| == |chunks| * n
    decreases |chunks|
  {
    if chunks != [] {
      var init := chunks[..|chunks| - 1];
      var last := chunks[|chunks| - 1];
      AllSlotsDistinct(init, n);
      var a := AllSlots(init, n);
      var b := ChunkSlots(last, n);
      forall i, j | 0 <= i < |a| && 0 <= j < |b|
        ensures a[i] != b[j]
      {
        AllSlotsMembership(init, n, a[i]);
        assert a[i].chunk in init;
        assert last !in init;
      }
      DistinctConcat(a, b);
      assert |chunks| * n == |init| * n + n;
    }
  }

  lemma {:induction false} AllSlotsLength(chunks: seq<ChunkId>, n: nat)
    ensures |AllSlots(chunks, n)| == |chunks| * n
    decreases |chunks|
  {
    if chunks != [] {
      AllSlotsLength(chunks[..|chunks| - 1], n);
      MulSucc(|chunks| - 1, n);
    }
  }

  /** Slot i of the k-th chunk sits at position k * n + i: chunk-list order, then ascending index. */
  lemma {:induction false} AllSlotsAt(chunks: seq<ChunkId>, n: nat, k: nat, i: nat)
    requires k < |chunks| && i < n
    ensures k * n + i < |AllSlots(chunks, n)|
    ensures AllSlots(chunks, n)[k * n + i] == Slot(chunks[k], i)
    decreases |chunks|
  {
    var m := |chunks| - 1;
    var init := chunks[..m];
    var a := AllSlots(init, n);
    AllSlotsLength(init, n);
    assert AllSlots(chunks, n) == a + ChunkSlots(chunks[m], n);
    if k < m {
      AllSlotsAt(init, n, k, i);
      assert init[k] == chunks[k];
    } else {
      assert k * n == |a|;
    }
  }

  lemma MulSucc(a: int, e: int)
    ensures (a + 1) * e == a * e + e
  {
  }

  lemma MulNonNeg(a: nat, b: nat)
    ensures a * b >= 0
  {
  }

  lemma DistinctConcat<T>(a: seq<T>, b: seq<T>)
    requires Distinct(a) && Distinct(b)
    requires forall i, j :: 0 <= i < |a| && 0 <= j < |b| ==> a[i] != b[j]
    ensures Distinct(a + b)
  {
    forall i, j | 0 <= i < j < |a + b|
      ensures (a + b)[i] != (a + b)[j]
    {
      if j < |a| {
      } else if i < |a| {
        assert (a + b)[j] == b[j - |a|];
      } else {
        assert (a + b)[i] == b[i - |a|];
        assert (a + b)[j] == b[j - |a|];
      }
    }
  }
}
