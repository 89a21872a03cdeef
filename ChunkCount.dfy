/**
 * How many chunks a dataset is split into: one more than the number of complete
 * 50,000-row blocks, but never fewer than 20.
 */
module ChunkCount {

  const RowsPerChunk: nat := 50000
  const MinChunks: nat := 20

  /** `get_chunk_count(df)`, given `len(df)`. */
  function GetChunkCount(rowCount: nat): (n: nat)
    ensures n >= MinChunks
    ensures n >= rowCount / RowsPerChunk + 1
    ensures n == MinChunks || n == rowCount / RowsPerChunk + 1
  {
    var calcChunks := rowCount / RowsPerChunk + 1;
    if MinChunks >= calcChunks then MinChunks else calcChunks
  }

  /** Below 950,000 rows (an empty dataset included) the floor of 20 applies. */
  lemma BelowThresholdIsTwenty(rowCount: nat)
    requires rowCount < 950000
    ensures GetChunkCount(rowCount) == 20
  {
    assert rowCount / RowsPerChunk <= 18;
  }

  /** From 950,000 rows on, the count is the number of complete 50,000-row blocks plus one. */
  lemma AboveThresholdIsBlocks(rowCount: nat)
    requires rowCount >= 950000
    ensures GetChunkCount(rowCount) == rowCount / 50000 + 1
  {
    assert rowCount / RowsPerChunk >= 19;
  }

  /** The floor of 20 applies exactly below 1,000,000 rows: that is where the count first exceeds it. */
  lemma TwentyExactlyBelowOneMillion(rowCount: nat)
    ensures GetChunkCount(rowCount) == 20 <==> rowCount < 1000000
  {
    if rowCount < 1000000 {
      assert rowCount / RowsPerChunk <= 19;
    } else {
      assert rowCount / RowsPerChunk >= 20;
    }
  }

  /** More rows never mean fewer chunks. */
  lemma Monotone(a: nat, b: nat)
    requires a <= b
    ensures GetChunkCount(a) <= GetChunkCount(b)
  {
  }

  /** Past the threshold, every further 50,000 rows add exactly one chunk. */
  lemma StepAboveThreshold(rowCount: nat)
    requires rowCount >= 950000
    ensures GetChunkCount(rowCount + 50000) == GetChunkCount(rowCount) + 1
  {
    AboveThresholdIsBlocks(rowCount);
    AboveThresholdIsBlocks(rowCount + 50000);
    assert (rowCount + 50000) / 50000 == rowCount / 50000 + 1;
  }

  /** The boundary cases: no rows, the last row count of the floor, the first one above it. */
  lemma Examples()
    ensures GetChunkCount(0) == 20
    ensures GetChunkCount(949999) == 20
    ensures GetChunkCount(1000000) == 21
  {
  }
}
