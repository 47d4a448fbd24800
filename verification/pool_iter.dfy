/**
 * Iteration over the live elements of a pool (BLI_mempool_iternew,
 * BLI_mempool_iterstep) and the operations built on it: findelem, as_table
 * and as_array.  All of them need the pool to keep tag words, that is, to be
 * created with the iteration flag.
 */
module PoolIter {
  import opened Wrappers
  import opened PoolState

  /**
   * BLI_mempool_iter: the chunk being scanned, as its position in the chunk
   * list (the list's length stands for NULL), and the next index to examine.
   */
  datatype Iter = Iter(chunk: nat, index: nat)

  /** What iterstep hands back: the element found (None for NULL) and the advanced iterator. */
  datatype Step = Step(elem: Option<Slot>, next: Iter)

  ghost predicate IterOk(p: Pool, it: Iter) {
    it.chunk <= |p.chunks| && (it.chunk < |p.chunks| ==> it.index < p.pchunk)
  }

  /** The live slots an iterator at `it` has still to yield, in order. */
  function Remaining(p: Pool, it: Iter): seq<Slot> {
    if it.chunk >= |p.chunks| then []
    else
      var c := p.chunks[it.chunk];
      LiveInFrom(c, TagsOf(p.tags, c), it.index) + LiveFrom(p.chunks, p.tags, it.chunk + 1)
  }

  /** The iterator's position after examining the slot it points at. */
  function Advance(p: Pool, it: Iter): Iter {
    if it.index + 1 >= p.pchunk then Iter(it.chunk + 1, 0) else Iter(it.chunk, it.index + 1)
  }

  /** Examining one slot: it is yielded when live, and the rest follows from the advanced position. */
  lemma RemainingStep(p: Pool, it: Iter)
    requires p.pchunk >= 1 && ChunksOk(p) && IterOk(p, it) && it.chunk < |p.chunks|
    ensures IterOk(p, Advance(p, it))
    ensures Remaining(p, it) ==
      (if TagOf(p, Slot(p.chunks[it.chunk], it.index)) == Live then [Slot(p.chunks[it.chunk], it.index)] else [])
      + Remaining(p, Advance(p, it))
  {
    var c := p.chunks[it.chunk];
    var t := TagsOf(p.tags, c);
    assert c in p.tags && |t| == p.pchunk;
    if it.index + 1 >= p.pchunk {
      assert LiveInFrom(c, t, it.index + 1) == [];
      if it.chunk + 1 < |p.chunks| {
        var c' := p.chunks[it.chunk + 1];
        assert LiveFrom(p.chunks, p.tags, it.chunk + 1)
          == LiveInFrom(c', TagsOf(p.tags, c'), 0) + LiveFrom(p.chunks, p.tags, it.chunk + 2);
      }
    }
  }

  /** Whatever an iterator has still to yield is live. */
  lemma RemainingAreLive(p: Pool, it: Iter, x: Slot)
    requires ChunksOk(p) && IterOk(p, it)
    requires x in Remaining(p, it)
    ensures x in LiveSlots(p)
  {
    var c := p.chunks[it.chunk];
    LiveSlotsMembership(p, x);
    LiveInFromMembership(c, TagsOf(p.tags, c), it.index, x);
    LiveFromMembership(p.chunks, p.tags, it.chunk + 1, x);
    if x.chunk in p.chunks[it.chunk + 1..] {
      var j :| it.chunk + 1 <= j < |p.chunks| && p.chunks[j] == x.chunk;
    }
  }

  /** BLI_mempool_iternew: an iterator at the first slot of the first chunk. */
  function IterNew(p: Pool): (it: Iter)
    requires Valid(p) && p.allowIter
    ensures IterOk(p, it)
    ensures Remaining(p, it) == LiveSlots(p)
  {
    Iter(0, 0)
  }

  /** The do-while loop of iterstep: skips slots tagged free until a live one or the end of the chunks. */
  function Scan(p: Pool, it: Iter): (r: Step)
    requires p.pchunk >= 1 && ChunksOk(p) && IterOk(p, it)
    ensures IterOk(p, r.next)
    ensures Remaining(p, it) == [] ==> r.elem == None && Remaining(p, r.next) == []
    ensures Remaining(p, it) != [] ==>
      r.elem == Some(Remaining(p, it)[0]) && Remaining(p, r.next) == Remaining(p, it)[1..]
    decreases |p.chunks| - it.chunk, p.pchunk - it.index
  {
    if it.chunk >= |p.chunks| then Step(None, it)
    else
      var ret := Slot(p.chunks[it.chunk], it.index);
      RemainingStep(p, it);
      if TagOf(p, ret) == Free then Scan(p, Advance(p, it))
      else Step(Some(ret), Advance(p, it))
  }

  /**
   * BLI_mempool_iterstep: NULL straight away when nothing is in use,
   * otherwise the next live slot in chunk-then-index order, or NULL at the end.
   */
  function IterStep(p: Pool, it: Iter): (r: Step)
    requires Valid(p) && p.allowIter && IterOk(p, it)
    ensures IterOk(p, r.next)
    ensures p.totused == 0 ==> r == Step(None, it)
    ensures Remaining(p, it) == [] ==> r.elem == None && Remaining(p, r.next) == []
    ensures Remaining(p, it) != [] ==>
      r.elem == Some(Remaining(p, it)[0]) && Remaining(p, r.next) == Remaining(p, it)[1..]
  {
    if p.totused == 0 then
      assert Remaining(p, it) == [] by {
        if Remaining(p, it) != [] {
          RemainingAreLive(p, it, Remaining(p, it)[0]);
        }
      }
      Step(None, it)
    else
      Scan(p, it)
  }

  /**
   * BLI_mempool_findelem: the index-th element iteration yields, found by
   * stepping from the start; NULL outside [0, totused).
   */
  method FindElem(p: Pool, index: int) returns (r: Option<Slot>)
    requires Valid(p) && p.allowIter
    ensures 0 <= index < p.totused ==> r == Some(LiveSlots(p)[index])
    ensures !(0 <= index < p.totused) ==> r == None
  {
    if 0 <= index && index < p.totused {
      ghost var all := LiveSlots(p);
      var it := IterNew(p);
      var step := IterStep(p, it);
      var elem := step.elem;
      it := step.next;
      var k := index;
      ghost var rest := Remaining(p, it);
      while k != 0
        invariant 0 <= k <= index
        invariant IterOk(p, it)
        invariant rest == Remaining(p, it)
        invariant elem == Some(all[index - k]) && rest == all[index - k + 1..]
        decreases k
      {
        DropHead(all, index - k + 1);
        k := k - 1;
        step := IterStep(p, it);
        elem := step.elem;
        it := step.next;
        rest := rest[1..];
      }
      r := elem;
    } else {
      r := None;
    }
  }

  /** BLI_mempool_as_table: the address of every element iteration yields, in order. */
  method AsTable(p: Pool) returns (table: seq<Slot>)
    requires Valid(p) && p.allowIter
    ensures table == LiveSlots(p) && Distinct(table)
    ensures |table| == p.totused
  {
    LiveSlotsDistinct(p);
    table := [];
    var it := IterNew(p);
    ghost var rest := Remaining(p, it);
    while true
      invariant IterOk(p, it)
      invariant rest == Remaining(p, it)
      invariant table + rest == LiveSlots(p)
      decreases |rest|
    {
      var step := IterStep(p, it);
      if step.elem.None? {
        break;
      }
      TakeHead(table, rest, LiveSlots(p));
      table := table + [step.elem.value];
      it := step.next;
      rest := rest[1..];
    }
  }

  lemma DropHead<T>(s: seq<T>, i: nat)
    requires i < |s|
    ensures s[i..] != [] && s[i..][0] == s[i] && s[i..][1..] == s[i + 1..]
  {
  }

  /** Moving the head of the still-to-come part onto the done part keeps their concatenation. */
  lemma TakeHead<T>(done: seq<T>, rest: seq<T>, all: seq<T>)
    requires done + rest == all && rest != []
    ensures (done + [rest[0]]) + rest[1..] == all
  {
    assert rest == [rest[0]] + rest[1..];
  }

  /** The bytes of one element, none for an element the memory does not hold. */
  function BytesOf(contents: Memory, x: Slot): seq<byte> {
    if x in contents then contents[x] else []
  }

  /** The elements' bytes laid end to end, in table order. */
  function Flatten(table: seq<Slot>, contents: Memory): seq<byte> {
    if table == [] then []
    else Flatten(table[..|table| - 1], contents) + BytesOf(contents, table[|table| - 1])
  }

  lemma FlattenSnoc(table: seq<Slot>, x: Slot, contents: Memory)
    requires forall k :: 0 <= k < |table| ==> table[k] in contents
    requires x in contents
    ensures Flatten(table + [x], contents) == Flatten(table, contents) + contents[x]
  {
    assert (table + [x])[..|table|] == table;
  }

  /** `k` blocks of `e` bytes, counted block by block. */
  function Offset(k: nat, e: nat): nat {
    if k == 0 then 0 else Offset(k - 1, e) + e
  }

  lemma {:induction false} OffsetIsProduct(k: nat, e: nat)
    ensures Offset(k, e) == k * e
  {
    if k > 0 {
      OffsetIsProduct(k - 1, e);
      MulSucc(k - 1, e);
    }
  }

  lemma {:induction false} FlattenSize(table: seq<Slot>, contents: Memory, esize: nat)
    requires forall k :: 0 <= k < |table| ==> table[k] in contents && |contents[table[k]]| == esize
    ensures |Flatten(table, contents)| == Offset(|table|, esize)
    decreases |table|
  {
    if table != [] {
      FlattenSize(table[..|table| - 1], contents, esize);
    }
  }

  /** Elements of `esize` bytes each flatten to `|table| * esize` bytes. */
  lemma FlattenLength(table: seq<Slot>, contents: Memory, esize: nat)
    requires forall k :: 0 <= k < |table| ==> table[k] in contents && |contents[table[k]]| == esize
    ensures |Flatten(table, contents)| == |table| * esize
  {
    FlattenSize(table, contents, esize);
    OffsetIsProduct(|table|, esize);
  }

  lemma {:induction false} FlattenOffsets(table: seq<Slot>, contents: Memory, esize: nat, k: nat)
    requires forall j :: 0 <= j < |table| ==> table[j] in contents && |contents[table[j]]| == esize
    requires k < |table|
    ensures Offset(k + 1, esize) <= |Flatten(table, contents)|
    ensures Flatten(table, contents)[Offset(k, esize) .. Offset(k + 1, esize)] == contents[table[k]]
    decreases |table|
  {
    var n := |table| - 1;
    var init := table[..n];
    var a := Flatten(init, contents);
    var f := Flatten(table, contents);
    assert f == a + contents[table[n]];
    FlattenSize(init, contents, esize);
    if k < n {
      FlattenOffsets(init, contents, esize, k);
      assert table[k] == init[k];
      assert f[Offset(k, esize) .. Offset(k + 1, esize)] == a[Offset(k, esize) .. Offset(k + 1, esize)];
    }
  }

  /** Element k of the table occupies bytes [k * esize, (k + 1) * esize) of the flattened array. */
  lemma {:induction false} FlattenBlock(table: seq<Slot>, contents: Memory, esize: nat, k: nat)
    requires forall j :: 0 <= j < |table| ==> table[j] in contents && |contents[table[j]]| == esize
    requires k < |table|
    ensures (k + 1) * esize <= |Flatten(table, contents)|
    ensures Flatten(table, contents)[k * esize .. (k + 1) * esize] == contents[table[k]]
  {
    FlattenOffsets(table, contents, esize, k);
    OffsetIsProduct(k, esize);
    OffsetIsProduct(k + 1, esize);
  }

  /** BLI_mempool_as_array: the bytes of every element iteration yields, `esize` bytes each, in order. */
  method AsArray(p: Pool, contents: Memory) returns (data: seq<byte>)
    requires Valid(p) && p.allowIter
    requires forall s :: s in LiveSlots(p) ==> s in contents && |contents[s]| == p.esize
    ensures data == Flatten(LiveSlots(p), contents)
    ensures |data| == p.totused * p.esize
  {
    data := [];
    ghost var seen: seq<Slot> := [];
    var it := IterNew(p);
    ghost var rest := Remaining(p, it);
    while true
      invariant IterOk(p, it)
      invariant rest == Remaining(p, it)
      invariant seen + rest == LiveSlots(p)
      invariant forall k :: 0 <= k < |seen| ==> seen[k] in contents
      invariant data == Flatten(seen, contents)
      decreases |rest|
    {
      var step := IterStep(p, it);
      if step.elem.None? {
        break;
      }
      var elem := step.elem.value;
      TakeHead(seen, rest, LiveSlots(p));
      assert elem in LiveSlots(p);
      FlattenSnoc(seen, elem, contents);
      data := data + contents[elem];
      seen := seen + [elem];
      it := step.next;
      rest := rest[1..];
    }
    assert seen == LiveSlots(p);
    FlattenLength(seen, contents, p.esize);
  }
}
