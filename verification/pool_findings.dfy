/**
 * The chunk count of BLI_mempool_create as the source computes it.  The guard
 * against an empty pool only catches `maxchunks == 0`; a size hint of
 * `-2 * pchunk` or below leaves `maxchunks` negative, the creation loop runs
 * no time, and the pool has no chunk at all.  `PoolOps.InitialChunkCount`
 * and `PoolOps.Create` are the corrected definitions the model uses.
 */
module PoolFindings {
  import opened PoolState
  import opened PoolOps

  /** Creation exactly as written: a non-positive chunk count adds no chunk. */
  function CreateAsWritten(esize: int, totelem: int, pchunk: int, allowIter: bool): (r: Pool)
    requires pchunk >= 1
    ensures ValidShape(r) && r.totused == 0
    ensures |r.chunks| == Max(ChunkCountAsWritten(totelem, pchunk), 0)
  {
    var m := ChunkCountAsWritten(totelem, pchunk);
    Build(Configure(esize, pchunk, allowIter), if m > 0 then m else 0)
  }

  /**
   * A hint of -8 elements with 4 per chunk gives `maxchunks == -1`: the pool
   * is created with no chunk, so it is not valid and clear, which reads the
   * first chunk, may not be applied to it.
   */
  lemma NegativeHintLeavesNoChunk()
    ensures ChunkCountAsWritten(-8, 4) == -1
    ensures CreateAsWritten(16, -8, 4, true).chunks == []
    ensures !Valid(CreateAsWritten(16, -8, 4, true))
  {
    assert CDiv(-8, 4) == -2;
  }

  /** The corrected creation has a first chunk for the same hint. */
  lemma NegativeHintCorrected()
    ensures |Create(16, -8, 4, true).chunks| == 1
  {
    assert CDiv(-8, 4) == -2;
  }

  /** Wherever the as-written count is positive, the corrected creation builds the same pool. */
  lemma CreateAgreesWhenCountPositive(esize: int, totelem: int, pchunk: int, allowIter: bool)
    requires pchunk >= 1 && ChunkCountAsWritten(totelem, pchunk) >= 1
    ensures Create(esize, totelem, pchunk, allowIter) == CreateAsWritten(esize, totelem, pchunk, allowIter)
  {
  }
}
