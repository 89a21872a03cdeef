/**
 * The name of the file that holds one chunk:
 * `<dataset>_<index + 1, zero-filled to 3>_of_<total, zero-filled to 3>.json`.
 * `str(int)` and `str.zfill` are modelled as Python defines them.
 */
module ChunkNaming {

  function DigitChar(d: nat): (c: char)
    requires d < 10
    ensures '0' <= c <= '9'
  {
    (48 + d) as char
  }

  function DigitValue(c: char): nat
    requires '0' <= c <= '9'
  {
    c as nat - 48
  }

  predicate AllDigits(s: string) {
    forall k | 0 <= k < |s| :: '0' <= s[k] <= '9'
  }

  /** Decimal digits of a natural number, most significant first, no leading zero. */
  function NatDigits(x: nat): (s: string)
    ensures |s| >= 1 && AllDigits(s)
    ensures s[0] == '0' <==> x == 0
    decreases x
  {
    if x < 10 then [DigitChar(x)] else NatDigits(x / 10) + [DigitChar(x % 10)]
  }

  /** Python's `str(x)` for an integer. */
  function IntToString(x: int): string {
    if x < 0 then "-" + NatDigits(-x) else NatDigits(x)
  }

  function Zeros(k: nat): (z: string)
    ensures |z| == k && forall j | 0 <= j < k :: z[j] == '0'
  {
    seq(k, _ => '0')
  }

  /** Python's `s.zfill(width)`: left-pad with '0' after any sign, never truncate. */
  function ZFill(s: string, width: int): string {
    if |s| >= width then s
    else if |s| > 0 && (s[0] == '+' || s[0] == '-') then [s[0]] + Zeros(width - |s|) + s[1..]
    else Zeros(width - |s|) + s
  }

  function Pad3(x: int): string {
    ZFill(IntToString(x), 3)
  }

  /** `get_json_chunk_filename(dataset_name, i, n_chunks)`. */
  function GetJsonChunkFilename(datasetName: string, i: int, nChunks: int): string {
    datasetName + "_" + Pad3(i + 1) + "_of_" + Pad3(nChunks) + ".json"
  }

  /** The value of a string of decimal digits, leading zeros allowed (the inverse of padding). */
  function DecimalValue(s: string): nat
    requires AllDigits(s)
  {
    if s == [] then 0 else DecimalValue(s[..|s| - 1]) * 10 + DigitValue(s[|s| - 1])
  }

  lemma {:induction false} DecimalValueOfDigits(x: nat)
    ensures DecimalValue(NatDigits(x)) == x
    decreases x
  {
    var s := NatDigits(x);
    if x >= 10 {
      DecimalValueOfDigits(x / 10);
      assert s[..|s| - 1] == NatDigits(x / 10);
    }
  }

  lemma {:induction false} DecimalValueIgnoresZeros(k: nat, s: string)
    requires AllDigits(s)
    ensures AllDigits(Zeros(k) + s)
    ensures DecimalValue(Zeros(k) + s) == DecimalValue(s)
    decreases |s|, k
  {
    var t := Zeros(k) + s;
    if s == [] {
      assert t == Zeros(k);
      if k > 0 {
        assert t[..|t| - 1] == Zeros(k - 1) + [];
        DecimalValueIgnoresZeros(k - 1, []);
      }
    } else {
      assert t[..|t| - 1] == Zeros(k) + s[..|s| - 1];
      DecimalValueIgnoresZeros(k, s[..|s| - 1]);
    }
  }

  /**
   * For a non-negative number the padded text is zeros followed by all its digits:
   * at least 3 characters, never truncated, and it reads back as the number.
   */
  lemma Pad3OfNat(x: nat)
    ensures var p := Pad3(x); var d := NatDigits(x);
      && |p| == (if |d| >= 3 then |d| else 3)
      && p == Zeros(|p| - |d|) + d
      && AllDigits(p)
      && DecimalValue(p) == x
  {
    var d := NatDigits(x);
    var z := if |d| >= 3 then 0 else 3 - |d|;
    assert IntToString(x) == d;
    assert Pad3(x) == Zeros(z) + d by {
      if |d| >= 3 {
        assert Zeros(0) + d == d;
      }
    }
    DecimalValueOfDigits(x);
    DecimalValueIgnoresZeros(z, d);
  }

  /** Padding is one-to-one on non-negative numbers. */
  lemma Pad3Injective(x: nat, y: nat)
    requires Pad3(x) == Pad3(y)
    ensures x == y
  {
    Pad3OfNat(x);
    Pad3OfNat(y);
  }

  /** Three digits exactly when the number is below 1000; longer numbers are kept whole. */
  lemma {:induction false} NatDigitsShort(x: nat)
    ensures |NatDigits(x)| <= 3 <==> x < 1000
    decreases x
  {
    if x >= 10 {
      NatDigitsShort(x / 10);
      if x / 10 >= 100 {
        NatDigitsLong(x / 10);
      }
    }
  }

  lemma {:induction false} NatDigitsLong(x: nat)
    requires x >= 100
    ensures |NatDigits(x)| >= 3
    decreases x
  {
    if x / 10 >= 100 {
      NatDigitsLong(x / 10);
    }
  }

  lemma Pad3Examples()
    ensures Pad3(1) == "001"
    ensures Pad3(20) == "020"
    ensures Pad3(1000) == "1000"
    ensures Pad3(-5) == "-05"
  {
    assert NatDigits(20) == NatDigits(2) + [DigitChar(0)];
    assert NatDigits(100) == NatDigits(10) + [DigitChar(0)];
    assert NatDigits(1000) == NatDigits(100) + [DigitChar(0)];
  }

  /** The index is shown one-based, the total as given. */
  lemma FilenameExamples()
    ensures GetJsonChunkFilename("chunk", 0, 20) == "chunk_001_of_020.json"
    ensures GetJsonChunkFilename("chunk", 1, 20) == "chunk_002_of_020.json"
  {
    Pad3Examples();
    assert Pad3(2) == "002" by {
      assert NatDigits(2) == "2";
    }
  }

  /** The last of twenty chunks of a named dataset. */
  lemma LastFilenameExample()
    ensures GetJsonChunkFilename("iris", 19, 20) == "iris_020_of_020.json"
  {
    Pad3Examples();
  }

  /** Every name starts with the dataset name and an underscore and ends in ".json". */
  lemma FilenameShape(datasetName: string, i: int, nChunks: int)
    ensures var f := GetJsonChunkFilename(datasetName, i, nChunks);
      && |f| >= |datasetName| + 1 + 4 + 5
      && f[..|datasetName| + 1] == datasetName + "_"
      && f[|f| - 5..] == ".json"
  {
  }

  lemma StripAround(head: string, x: string, y: string, tail: string)
    requires head + x + tail == head + y + tail
    ensures x == y
  {
    var f := head + x + tail;
    assert |x| == |y|;
    assert x == f[|head|..|head| + |x|];
  }

  /** For one dataset name and total, distinct indices give distinct file names. */
  lemma FilenameInjective(datasetName: string, i: int, j: int, nChunks: int)
    requires i >= -1 && j >= -1 && i != j
    ensures GetJsonChunkFilename(datasetName, i, nChunks) != GetJsonChunkFilename(datasetName, j, nChunks)
  {
    var head := datasetName + "_";
    var tail := "_of_" + Pad3(nChunks) + ".json";
    var pi, pj := Pad3(i + 1), Pad3(j + 1);
    assert GetJsonChunkFilename(datasetName, i, nChunks) == head + pi + tail;
    assert GetJsonChunkFilename(datasetName, j, nChunks) == head + pj + tail;
    if head + pi + tail == head + pj + tail {
      StripAround(head, pi, pj, tail);
      Pad3Injective(i + 1, j + 1);
    }
  }
}
