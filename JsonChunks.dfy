/**
 * Splitting a dataset into JSON chunks and writing each chunk to its own file.
 *
 * A dataset is a sequence of rows of an unspecified row type `R`. Serialising a
 * chunk to JSON is a parameter `toJson` about which nothing is assumed, and the
 * filesystem is a map from file name to file contents that is passed in and
 * returned.
 */
module JsonChunks {
  import opened Wrappers
  import opened ChunkNaming

  function Min(a: int, b: int): int {
    if a <= b then a else b
  }

  /** A missing dataset name becomes "chunk". */
  function ResolveName(datasetName: Option<string>): string {
    match datasetName
    case None => "chunk"
    case Some(name) => name
  }

  /** The rows of all chunks, one chunk after the other. */
  function Concat<R>(chunks: seq<seq<R>>): seq<R> {
    if chunks == [] then [] else chunks[0] + Concat(chunks[1..])
  }

  lemma {:induction false} ConcatAppend<R>(a: seq<seq<R>>, b: seq<seq<R>>)
    ensures Concat(a + b) == Concat(a) + Concat(b)
  {
    if a == [] {
      assert a + b == b;
    } else {
      assert (a + b)[0] == a[0];
      assert (a + b)[1..] == a[1..] + b;
      ConcatAppend(a[1..], b);
    }
  }

  /** Merging the last two chunks into one does not change the concatenation. */
  lemma ConcatMergeLastTwo<R>(front: seq<seq<R>>, a: seq<R>, b: seq<R>)
    ensures Concat(front + [a + b]) == Concat(front + [a, b])
  {
    assert Concat([a, b]) == a + b by {
      assert [b][1..] == [];
      assert Concat([b]) == b + [];
      assert [a, b][1..] == [b];
      assert Concat([a, b]) == a + Concat([b]);
    }
    assert Concat([a + b]) == a + b by {
      assert [a + b][1..] == [];
    }
    ConcatAppend(front, [a, b]);
    ConcatAppend(front, [a + b]);
  }

  lemma MulStrict(x: int, y: int, s: int)
    requires s > 0 && x < y
    ensures x * s < y * s
  {
    assert y * s - x * s == (y - x) * s;
  }

  lemma MulPred(k: int, s: int)
    ensures (k - 1) * s + s == k * s
  {
  }

  lemma SliceOfSuffix<R>(df: seq<R>, offset: nat, j: nat, size: nat)
    requires offset <= |df| && j <= |df| - offset
    ensures df[offset..][j .. Min(j + size, |df| - offset)] == df[offset + j .. Min(offset + j + size, |df|)]
  {
  }

  lemma DivBounds(a: int, n: int)
    requires 1 <= n <= a
    ensures a / n >= 1
    ensures n * (a / n) <= a < n * (a / n) + n
  {
  }

  /**
   * The successive slices of `size` rows starting at row 0 (the last one possibly
   * shorter): `[df.iloc[i : i + size] for i in range(0, len(df), size)]`.
   */
  function Slices<R>(df: seq<R>, size: nat): (slices: seq<seq<R>>)
    requires size > 0
    ensures |slices| == 0 <==> |df| == 0
    ensures forall k | 0 <= k < |slices| :: 0 < |slices[k]| <= size
    ensures forall k | 0 <= k < |slices| - 1 :: |slices[k]| == size
    decreases |df|
  {
    if df == [] then []
    else if |df| <= size then [df]
    else [df[..size]] + Slices(df[size..], size)
  }

  /** Concatenating the slices gives back the rows. */
  lemma {:induction false} SlicesConcat<R>(df: seq<R>, size: nat)
    requires size > 0
    ensures Concat(Slices(df, size)) == df
    decreases |df|
  {
    if |df| > size {
      SlicesConcat(df[size..], size);
      assert df == df[..size] + df[size..];
    } else if df != [] {
      assert Concat([df]) == df + Concat([]);
    }
  }

  /** There are as many slices as started blocks of `size` rows. */
  lemma {:induction false} SliceCount<R>(df: seq<R>, size: nat)
    requires size > 0 && |df| > 0
    ensures (|Slices(df, size)| - 1) * size < |df| <= |Slices(df, size)| * size
    decreases |df|
  {
    if |df| > size {
      var m := |Slices(df[size..], size)|;
      SliceCount(df[size..], size);
      MulPred(m + 1, size);
    }
  }

  /** Slice `k` holds rows `k * size` up to `k * size + size` (or the end), as the comprehension has it. */
  lemma {:induction false} SliceAt<R>(df: seq<R>, size: nat, k: nat)
    requires size > 0 && k < |Slices(df, size)|
    ensures k * size < |df|
    ensures Slices(df, size)[k] == df[k * size .. Min(k * size + size, |df|)]
  {
    if k > 0 {
      SliceAt(df[size..], size, k - 1);
      MulPred(k, size);
      SliceAtStep(df, size, k, (k - 1) * size, k * size);
    }
  }

  /** Slice `k` of the rows is slice `k - 1` of the rows after the first slice. */
  lemma SliceAtStep<R>(df: seq<R>, size: nat, k: nat, j: nat, start: nat)
    requires size > 0 && 0 < k < |Slices(df, size)| && |df| > size
    requires j + size == start && j < |df| - size
    requires Slices(df[size..], size)[k - 1] == df[size..][j .. Min(j + size, |df| - size)]
    ensures Slices(df, size)[k] == df[start .. Min(start + size, |df|)]
  {
    var rest := df[size..];
    var tail := Slices(rest, size);
    SlicesUnfold(df, size);
    assert Slices(df, size)[k] == tail[k - 1];
    SliceOfSuffix(df, size, j, size);
  }

  /** More rows than one slice: the first slice, then the slices of the rest. */
  lemma SlicesUnfold<R>(df: seq<R>, size: nat)
    requires size > 0 && |df| > size
    ensures Slices(df, size) == [df[..size]] + Slices(df[size..], size)
  {
  }

  /**
   * Lines 48-56 of the conversion: slice size `len(df) // n`, then, when that gives
   * more slices than `n`, a single merge of the last two slices.
   */
  function ChunkRows<R>(df: seq<R>, n: int): seq<seq<R>>
    requires 1 <= n <= |df|
  {
    var slices := Slices(df, |df| / n);
    if |slices| > n then slices[..|slices| - 2] + [slices[|slices| - 2] + slices[|slices| - 1]]
    else slices
  }

  /** With `s = len(df) // n`, there are never fewer than `n` slices. */
  lemma SliceCountAtLeast<R>(df: seq<R>, n: int)
    requires 1 <= n <= |df|
    ensures |df| / n >= 1
    ensures |Slices(df, |df| / n)| >= n
  {
    DivBounds(|df|, n);
    var s := |df| / n;
    var m := |Slices(df, s)|;
    SliceCount(df, s);
    if m < n {
      MulStrict(m, n, s);
    }
  }

  /** Concatenating the chunks in order gives back exactly the input rows. */
  lemma ChunkRowsConcat<R>(df: seq<R>, n: int)
    requires 1 <= n <= |df|
    ensures Concat(ChunkRows(df, n)) == df
  {
    SliceCountAtLeast(df, n);
    var slices := Slices(df, |df| / n);
    SlicesConcat(df, |df| / n);
    var m := |slices|;
    if m > n {
      var front := slices[..m - 2];
      assert slices == front + [slices[m - 2], slices[m - 1]];
      ConcatMergeLastTwo(front, slices[m - 2], slices[m - 1]);
    }
  }

  /**
   * At least `n` chunks come back, and exactly `n` only when slicing gave at most
   * `n + 1` slices, because only one merge is done.
   */
  lemma ChunkRowsCount<R>(df: seq<R>, n: int)
    requires 1 <= n <= |df|
    ensures |ChunkRows(df, n)| >= n
    ensures |ChunkRows(df, n)| == n <==> |Slices(df, |df| / n)| <= n + 1
  {
    SliceCountAtLeast(df, n);
  }

  /**
   * Every chunk is non-empty, every chunk but the last has exactly `len(df) // n`
   * rows, and the last has at least one and at most twice that many.
   */
  lemma ChunkRowsSizes<R>(df: seq<R>, n: int)
    requires 1 <= n <= |df|
    ensures var chunks := ChunkRows(df, n); var s := |df| / n;
      && |chunks| >= 1
      && (forall k | 0 <= k < |chunks| :: |chunks[k]| > 0)
      && (forall k | 0 <= k < |chunks| - 1 :: |chunks[k]| == s)
      && |chunks[|chunks| - 1]| <= 2 * s
  {
    SliceCountAtLeast(df, n);
  }

  /**
   * When slicing gives more than `n` slices, the last chunk is the second-to-last
   * slice followed by the last slice and all earlier chunks are the slices unchanged.
   */
  lemma ChunkRowsMerge<R>(df: seq<R>, n: int)
    requires 1 <= n <= |df|
    requires |Slices(df, |df| / n)| > n
    ensures var slices := Slices(df, |df| / n); var chunks := ChunkRows(df, n); var m := |slices|;
      && |chunks| == m - 1
      && chunks[..m - 2] == slices[..m - 2]
      && chunks[m - 2] == slices[m - 2] + slices[m - 1]
  {
    SliceCountAtLeast(df, n);
  }

  /** When `n` divides the row count, slicing gives exactly `n` chunks of equal size. */
  lemma EvenSplit<R>(df: seq<R>, n: int)
    requires 1 <= n <= |df| && |df| % n == 0
    ensures |ChunkRows(df, n)| == n
  {
    var s := |df| / n;
    SliceCountAtLeast(df, n);
    var m := |Slices(df, s)|;
    SliceCount(df, s);
    assert |df| == n * s;
    if m > n {
      MulStrict(n, m - 1, s);
    }
  }

  /** 11 rows with 4 requested: slices of 2 rows, 6 slices, one merge, 5 chunks. */
  lemma ElevenRowsFourRequested<R>(df: seq<R>)
    requires |df| == 11
    ensures |Slices(df, |df| / 4)| == 6
    ensures |ChunkRows(df, 4)| == 5
  {
    SliceCount(df, 2);
  }

  /** 100 rows with 7 requested: slices of 14 rows, 8 slices, one merge, 7 chunks, the last of 16 rows. */
  lemma HundredRowsSevenRequested<R>(df: seq<R>)
    requires |df| == 100
    ensures |Slices(df, |df| / 7)| == 8
    ensures |ChunkRows(df, 7)| == 7
    ensures |ChunkRows(df, 7)[6]| == 16
  {
    var slices := Slices(df, 14);
    SliceCount(df, 14);
    assert |slices| == 8;
    SliceAt(df, 14, 6);
    SliceAt(df, 14, 7);
    ChunkRowsMerge(df, 7);
  }

  /** `[chunk.to_json(orient="records") for chunk in chunks]`, with `to_json` left abstract. */
  function Serialize<R>(toJson: seq<R> -> string, chunks: seq<seq<R>>): (jsons: seq<string>)
    ensures |jsons| == |chunks|
    ensures forall k | 0 <= k < |chunks| :: jsons[k] == toJson(chunks[k])
  {
    seq(|chunks|, k requires 0 <= k < |chunks| => toJson(chunks[k]))
  }

  /** The names `_check_if_json_exists_already` looks for: indices 1 to `n` (0-based), files 2 to `n + 1`. */
  function CheckedNames(datasetName: string, n: int): (names: seq<string>)
    ensures |names| == if n <= 0 then 0 else n
    ensures forall k | 0 <= k < |names| :: names[k] == GetJsonChunkFilename(datasetName, k + 1, n)
  {
    if n <= 0 then []
    else
      var names := seq(n, k => GetJsonChunkFilename(datasetName, k + 1, n));
      assert forall k | 0 <= k < n :: names[k] == GetJsonChunkFilename(datasetName, k + 1, n);
      names
  }

  /** `_check_if_json_exists_already`: every checked name exists (vacuously so when `n <= 0`). */
  predicate ExistsAlready(fs: map<string, string>, datasetName: string, n: int) {
    var names := CheckedNames(datasetName, n);
    forall k | 0 <= k < |names| :: names[k] in fs
  }

  /**
   * The check and the writes are one index apart: file 1 is written but never checked,
   * and file `n + 1` is checked but is not among the files of chunks `0` to `n - 1`.
   */
  lemma SkipCheckOffByOne(fs: map<string, string>, datasetName: string, n: int)
    requires n >= 1
    ensures GetJsonChunkFilename(datasetName, 0, n) !in CheckedNames(datasetName, n)
    ensures GetJsonChunkFilename(datasetName, n, n) in CheckedNames(datasetName, n)
    ensures forall i | 0 <= i < n :: GetJsonChunkFilename(datasetName, i, n) != GetJsonChunkFilename(datasetName, n, n)
    ensures ExistsAlready(fs, datasetName, n) <==> forall i | 1 <= i <= n :: GetJsonChunkFilename(datasetName, i, n) in fs
  {
    var names := CheckedNames(datasetName, n);
    forall k | 0 <= k < n
      ensures names[k] != GetJsonChunkFilename(datasetName, 0, n)
    {
      FilenameInjective(datasetName, k + 1, 0, n);
    }
    assert names[n - 1] == GetJsonChunkFilename(datasetName, n, n);
    forall i | 0 <= i < n
      ensures GetJsonChunkFilename(datasetName, i, n) != GetJsonChunkFilename(datasetName, n, n)
    {
      FilenameInjective(datasetName, i, n, n);
    }
    assert forall i | 1 <= i <= n :: GetJsonChunkFilename(datasetName, i, n) == names[i - 1];
  }

  /** With no rows or no chunks requested nothing is checked, so the check passes. */
  lemma NothingToCheck(fs: map<string, string>, datasetName: string, n: int)
    requires n <= 0
    ensures ExistsAlready(fs, datasetName, n)
  {
  }

  /** The filesystem after writing `jsons[i]` to the name of chunk `i`, for each `i` in order. */
  function AfterWrites(fs: map<string, string>, datasetName: string, n: int, jsons: seq<string>): map<string, string> {
    if jsons == [] then fs
    else AfterWrites(fs, datasetName, n, jsons[..|jsons| - 1])[GetJsonChunkFilename(datasetName, |jsons| - 1, n) := jsons[|jsons| - 1]]
  }

  function WrittenNames(datasetName: string, n: int, count: nat): set<string> {
    set i | 0 <= i < count :: GetJsonChunkFilename(datasetName, i, n)
  }

  /** Writing names exactly the files of chunks `0` to `len(jsons) - 1`, on top of what existed. */
  lemma {:induction false} AfterWritesKeys(fs: map<string, string>, datasetName: string, n: int, jsons: seq<string>)
    ensures AfterWrites(fs, datasetName, n, jsons).Keys == fs.Keys + WrittenNames(datasetName, n, |jsons|)
  {
    if jsons != [] {
      var m := |jsons| - 1;
      AfterWritesKeys(fs, datasetName, n, jsons[..m]);
      assert WrittenNames(datasetName, n, |jsons|) == WrittenNames(datasetName, n, m) + {GetJsonChunkFilename(datasetName, m, n)};
    }
  }

  /** The file of chunk `i` holds chunk `i` verbatim: no later write lands on an earlier name. */
  lemma {:induction false} AfterWritesValues(fs: map<string, string>, datasetName: string, n: int, jsons: seq<string>, i: nat)
    requires i < |jsons|
    ensures GetJsonChunkFilename(datasetName, i, n) in AfterWrites(fs, datasetName, n, jsons)
    ensures AfterWrites(fs, datasetName, n, jsons)[GetJsonChunkFilename(datasetName, i, n)] == jsons[i]
  {
    var m := |jsons| - 1;
    if i < m {
      AfterWritesValues(fs, datasetName, n, jsons[..m], i);
      FilenameInjective(datasetName, i, m, n);
    }
  }

  /** A file that is not one of the chunk files keeps its contents. */
  lemma {:induction false} AfterWritesOthers(fs: map<string, string>, datasetName: string, n: int, jsons: seq<string>, f: string)
    requires f in fs && f !in WrittenNames(datasetName, n, |jsons|)
    ensures f in AfterWrites(fs, datasetName, n, jsons)
    ensures AfterWrites(fs, datasetName, n, jsons)[f] == fs[f]
  {
    if jsons != [] {
      var m := |jsons| - 1;
      assert GetJsonChunkFilename(datasetName, m, n) in WrittenNames(datasetName, n, |jsons|);
      assert WrittenNames(datasetName, n, m) <= WrittenNames(datasetName, n, |jsons|);
      AfterWritesOthers(fs, datasetName, n, jsons[..m], f);
    }
  }

  /** The write loop: `for i, chunk in enumerate(json_chunks): open(name(i), "w").write(chunk)`. */
  method WriteChunks(fs: map<string, string>, datasetName: string, n: int, jsons: seq<string>)
    returns (fs': map<string, string>)
    ensures fs' == AfterWrites(fs, datasetName, n, jsons)
    ensures fs'.Keys == fs.Keys + WrittenNames(datasetName, n, |jsons|)
    ensures forall i | 0 <= i < |jsons| :: fs'[GetJsonChunkFilename(datasetName, i, n)] == jsons[i]
    ensures forall f | f in fs && f !in WrittenNames(datasetName, n, |jsons|) :: fs'[f] == fs[f]
  {
    fs' := fs;
    var i := 0;
    while i < |jsons|
      invariant 0 <= i <= |jsons|
      invariant fs' == AfterWrites(fs, datasetName, n, jsons[..i])
    {
      fs' := fs'[GetJsonChunkFilename(datasetName, i, n) := jsons[i]];
      assert jsons[..i + 1][..i] == jsons[..i];
      i := i + 1;
    }
    assert jsons[..i] == jsons;
    AfterWritesKeys(fs, datasetName, n, jsons);
    forall i | 0 <= i < |jsons|
      ensures fs'[GetJsonChunkFilename(datasetName, i, n)] == jsons[i]
    {
      AfterWritesValues(fs, datasetName, n, jsons, i);
    }
    forall f | f in fs && f !in WrittenNames(datasetName, n, |jsons|)
      ensures fs'[f] == fs[f]
    {
      AfterWritesOthers(fs, datasetName, n, jsons, f);
    }
  }

  /**
   * `dataframe_to_json_chunks`: clamp the count to the row count, skip when the
   * checked files all exist (returning nothing), otherwise slice, merge, serialise
   * and, when asked to, write chunk `i` to the file named for index `i` and total `n`.
   */
  method DataframeToJsonChunks<R>(fs: map<string, string>, toJson: seq<R> -> string, df: seq<R>,
                                  nChunks: int := 20, writeJson: bool := true,
                                  datasetName: Option<string> := None)
    returns (jsonChunks: Option<seq<string>>, fs': map<string, string>)
    ensures var name := ResolveName(datasetName); var n := Min(nChunks, |df|);
      && (jsonChunks.None? <==> ExistsAlready(fs, name, n))
      && (n <= 0 ==> jsonChunks.None?)
      && (jsonChunks.None? ==> fs' == fs)
      && (jsonChunks.Some? ==> 1 <= n && jsonChunks.value == Serialize(toJson, ChunkRows(df, n)))
      && (jsonChunks.Some? && writeJson ==> fs' == AfterWrites(fs, name, n, jsonChunks.value))
      && (jsonChunks.Some? && !writeJson ==> fs' == fs)
  {
    var name := ResolveName(datasetName);
    var n := Min(nChunks, |df|);
    if ExistsAlready(fs, name, n) {
      return None, fs;
    }
    var jsons := Serialize(toJson, ChunkRows(df, n));
    fs' := fs;
    if writeJson {
      fs' := WriteChunks(fs, name, n, jsons);
    }
    jsonChunks := Some(jsons);
  }

  // The conversion as its documentation and its skip check evidently intend it:
  // exactly `n` chunks, and a skip check over the very names that are written.

  lemma MulMono(x: int, y: int, s: int)
    requires s > 0 && x <= y
    ensures x * s <= y * s
  {
    if x < y {
      MulStrict(x, y, s);
    }
  }

  /** `n - 1` slices of `len(df) // n` rows, then one chunk with all remaining rows. */
  function ChunkRowsIntended<R>(df: seq<R>, n: int): seq<seq<R>>
    requires 1 <= n <= |df|
  {
    DivBounds(|df|, n);
    var size := |df| / n;
    MulMono(n - 1, n, size);
    var cut := (n - 1) * size;
    Slices(df[..cut], size) + [df[cut..]]
  }

  /** The first `(n - 1) * size` rows fall into exactly `n - 1` full slices. */
  lemma FullSlices<R>(rows: seq<R>, size: nat, count: nat)
    requires size > 0 && |rows| == count * size
    ensures |Slices(rows, size)| == count
    ensures forall k | 0 <= k < count :: |Slices(rows, size)[k]| == size
  {
    var m := |Slices(rows, size)|;
    if count == 0 {
      assert rows == [];
    } else {
      MulMono(1, count, size);
      SliceCount(rows, size);
      if m - 1 >= count {
        MulMono(count, m - 1, size);
      }
      if m < count {
        MulStrict(m, count, size);
      }
      SliceAt(rows, size, m - 1);
      MulPred(m, size);
    }
  }

  /** Exactly `n` non-empty chunks, all of `len(df) // n` rows but the last, which has at least that many. */
  lemma ChunkRowsIntendedShape<R>(df: seq<R>, n: int)
    requires 1 <= n <= |df|
    ensures var chunks := ChunkRowsIntended(df, n); var size := |df| / n;
      && |chunks| == n
      && (forall k | 0 <= k < n - 1 :: |chunks[k]| == size)
      && size <= |chunks[n - 1]|
  {
    DivBounds(|df|, n);
    var size := |df| / n;
    MulPred(n, size);
    MulMono(n - 1, n, size);
    var cut := (n - 1) * size;
    FullSlices(df[..cut], size, n - 1);
  }

  /** The intended chunks also concatenate back to the input rows. */
  lemma ChunkRowsIntendedConcat<R>(df: seq<R>, n: int)
    requires 1 <= n <= |df|
    ensures Concat(ChunkRowsIntended(df, n)) == df
  {
    DivBounds(|df|, n);
    var size := |df| / n;
    MulMono(n - 1, n, size);
    var cut := (n - 1) * size;
    SlicesConcat(df[..cut], size);
    ConcatAppend(Slices(df[..cut], size), [df[cut..]]);
    assert Concat([df[cut..]]) == df[cut..] + Concat([]);
    assert df[..cut] + df[cut..] == df;
  }

  /** The skip check over the names the write loop uses: chunks `0` to `n - 1`. */
  predicate ExistsAlreadyIntended(fs: map<string, string>, datasetName: string, n: int) {
    forall i | 0 <= i < n :: GetJsonChunkFilename(datasetName, i, n) in fs
  }

  /**
   * As written, a conversion that produced exactly `n` chunks (for instance when `n`
   * divides the row count), starting without file `n + 1`, writes files 1 to `n` only,
   * so the skip check, which also asks for file `n + 1`, fails: a second identical call
   * converts and writes again.
   */
  lemma SecondCallRewrites<R>(fs: map<string, string>, toJson: seq<R> -> string, df: seq<R>, n: int, datasetName: string)
    requires 1 <= n <= |df| && |ChunkRows(df, n)| == n
    requires GetJsonChunkFilename(datasetName, n, n) !in fs
    ensures !ExistsAlready(AfterWrites(fs, datasetName, n, Serialize(toJson, ChunkRows(df, n))), datasetName, n)
  {
    var jsons := Serialize(toJson, ChunkRows(df, n));
    AfterWritesKeys(fs, datasetName, n, jsons);
    var missing := GetJsonChunkFilename(datasetName, n, n);
    SkipCheckOffByOne(fs, datasetName, n);
    assert missing !in WrittenNames(datasetName, n, n);
    SkipCheckOffByOne(AfterWrites(fs, datasetName, n, jsons), datasetName, n);
  }

  /**
   * The converse: when the single merge left more than `n` chunks, chunk `n` is written
   * too, so the checked files all exist and a second identical call skips.
   */
  lemma MergedSecondCallSkips<R>(fs: map<string, string>, toJson: seq<R> -> string, df: seq<R>, n: int, datasetName: string)
    requires 1 <= n <= |df| && |ChunkRows(df, n)| > n
    ensures ExistsAlready(AfterWrites(fs, datasetName, n, Serialize(toJson, ChunkRows(df, n))), datasetName, n)
  {
    var jsons := Serialize(toJson, ChunkRows(df, n));
    var names := CheckedNames(datasetName, n);
    forall k | 0 <= k < |names|
      ensures names[k] in AfterWrites(fs, datasetName, n, jsons)
    {
      AfterWritesValues(fs, datasetName, n, jsons, k + 1);
    }
  }

  /** With file `n + 1` already present, the files written by one call make the check pass whatever the chunk count. */
  lemma PreexistingLastFileSkips<R>(fs: map<string, string>, toJson: seq<R> -> string, df: seq<R>, n: int, datasetName: string)
    requires 1 <= n <= |df|
    requires GetJsonChunkFilename(datasetName, n, n) in fs
    ensures ExistsAlready(AfterWrites(fs, datasetName, n, Serialize(toJson, ChunkRows(df, n))), datasetName, n)
  {
    var jsons := Serialize(toJson, ChunkRows(df, n));
    var after := AfterWrites(fs, datasetName, n, jsons);
    ChunkRowsCount(df, n);
    AfterWritesKeys(fs, datasetName, n, jsons);
    var names := CheckedNames(datasetName, n);
    forall k | 0 <= k < |names|
      ensures names[k] in after
    {
      if k + 1 < n {
        AfterWritesValues(fs, datasetName, n, jsons, k + 1);
      } else {
        assert names[k] == GetJsonChunkFilename(datasetName, n, n);
      }
    }
  }

  /** Starting without file `n + 1`, a second call skips exactly when more than `n` chunks came back. */
  lemma SecondCallSkipsIffMerged<R>(fs: map<string, string>, toJson: seq<R> -> string, df: seq<R>, n: int, datasetName: string)
    requires 1 <= n <= |df|
    requires GetJsonChunkFilename(datasetName, n, n) !in fs
    ensures ExistsAlready(AfterWrites(fs, datasetName, n, Serialize(toJson, ChunkRows(df, n))), datasetName, n) <==>
      |ChunkRows(df, n)| > n
  {
    ChunkRowsCount(df, n);
    if |ChunkRows(df, n)| > n {
      MergedSecondCallSkips(fs, toJson, df, n, datasetName);
    } else {
      SecondCallRewrites(fs, toJson, df, n, datasetName);
    }
  }

  /** With the intended check, the files written by one call make an identical second call skip. */
  lemma IntendedSecondCallSkips<R>(fs: map<string, string>, toJson: seq<R> -> string, df: seq<R>, n: int, datasetName: string)
    requires 1 <= n <= |df|
    ensures ExistsAlreadyIntended(AfterWrites(fs, datasetName, n, Serialize(toJson, ChunkRowsIntended(df, n))), datasetName, n)
  {
    var jsons := Serialize(toJson, ChunkRowsIntended(df, n));
    ChunkRowsIntendedShape(df, n);
    forall i | 0 <= i < n
      ensures GetJsonChunkFilename(datasetName, i, n) in AfterWrites(fs, datasetName, n, jsons)
    {
      AfterWritesValues(fs, datasetName, n, jsons, i);
    }
  }

  /** The conversion with both corrections: exactly `n` chunks, and a skip check over the written names. */
  method DataframeToJsonChunksIntended<R>(fs: map<string, string>, toJson: seq<R> -> string, df: seq<R>,
                                          nChunks: int := 20, writeJson: bool := true,
                                          datasetName: Option<string> := None)
    returns (jsonChunks: Option<seq<string>>, fs': map<string, string>)
    ensures var name := ResolveName(datasetName); var n := Min(nChunks, |df|);
      && (jsonChunks.None? <==> ExistsAlreadyIntended(fs, name, n))
      && (jsonChunks.None? ==> fs' == fs)
      && (jsonChunks.Some? ==> 1 <= n && jsonChunks.value == Serialize(toJson, ChunkRowsIntended(df, n)))
      && (jsonChunks.Some? ==> |jsonChunks.value| == n)
      && (jsonChunks.Some? && writeJson ==> fs' == AfterWrites(fs, name, n, jsonChunks.value))
      && (jsonChunks.Some? && !writeJson ==> fs' == fs)
  {
    var name := ResolveName(datasetName);
    var n := Min(nChunks, |df|);
    if ExistsAlreadyIntended(fs, name, n) {
      return None, fs;
    }
    ChunkRowsIntendedShape(df, n);
    var jsons := Serialize(toJson, ChunkRowsIntended(df, n));
    fs' := fs;
    if writeJson {
      fs' := WriteChunks(fs, name, n, jsons);
    }
    jsonChunks := Some(jsons);
  }
}
