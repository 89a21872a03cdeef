/** Which uploaded file names are accepted: the text after the last '.' names a known format. */
module UploadDataset {
  import opened Text

  const AllowedExtensions: set<string> := {"csv", "parquet", "json", "xlsx"}

  /** `filename.rsplit(".", 1)[1]`: everything after the last '.'. */
  function AfterLastDot(s: string): (ext: string)
    requires '.' in s
    ensures '.' !in ext
    ensures |ext| < |s| && s[|s| - |ext| - 1] == '.' && s[|s| - |ext|..] == ext
  {
    var last := s[|s| - 1];
    if last == '.' then ""
    else
      assert '.' in s[..|s| - 1] by {
        var k :| 0 <= k < |s| && s[k] == '.';
        assert s[..|s| - 1][k] == '.';
      }
      AfterLastDot(s[..|s| - 1]) + [last]
  }

  /** `allowed_file`: there is a '.', and the lower-cased last extension is an allowed one. */
  predicate AllowedFile(filename: string) {
    '.' in filename && Lower(AfterLastDot(filename)) in AllowedExtensions
  }

  /** Accepted exactly when some '.' has no '.' after it and the lower-cased text after it is allowed. */
  lemma AllowedFileMeaning(filename: string)
    ensures AllowedFile(filename) <==>
      exists k | 0 <= k < |filename| :: filename[k] == '.' && '.' !in filename[k + 1..] && Lower(filename[k + 1..]) in AllowedExtensions
  {
    if '.' in filename {
      var ext := AfterLastDot(filename);
      var last := |filename| - |ext| - 1;
      assert filename[last + 1..] == ext;
    }
  }

  /** A name without a '.' is rejected. */
  lemma NoDotRejected(filename: string)
    requires '.' !in filename
    ensures !AllowedFile(filename)
  {
  }

  /** Accepted: upper-case extension, only the last of several extensions, a bare extension. */
  lemma AcceptedExamples()
    ensures AllowedFile("DATA.CSV")
    ensures AllowedFile("a.tar.csv")
    ensures AllowedFile(".csv")
  {
    assert Lower("csv") == "csv";
    AfterLastDotUnique("DATA.CSV", 5);
    assert Lower("CSV") == "csv";
    AfterLastDotUnique("a.tar.csv", 6);
    assert "a.tar.csv"[6..] == "csv";
    AfterLastDotUnique(".csv", 1);
    assert ".csv"[1..] == "csv";
  }

  /** Rejected: an allowed extension that is not the last one, a trailing dot, no dot at all. */
  lemma RejectedExamples()
    ensures !AllowedFile("a.csv.gz")
    ensures !AllowedFile("file.")
    ensures !AllowedFile("data")
  {
    AfterLastDotUnique("a.csv.gz", 6);
    assert "a.csv.gz"[6..] == "gz";
    assert Lower("gz") == "gz";
    AfterLastDotUnique("file.", 5);
    assert Lower("") == "";
  }

  /** Any '.' with no '.' after it is the last one, so the extension is what follows it. */
  lemma AfterLastDotUnique(t: string, j: int)
    requires 0 < j <= |t| && t[j - 1] == '.' && '.' !in t[j..]
    ensures '.' in t
    ensures AfterLastDot(t) == t[j..]
  {
    var e := AfterLastDot(t);
    var i := |t| - |e|;
    assert t[i..] == e;
    forall m | i <= m < |t|
      ensures t[m] != '.'
    {
      assert t[m] == t[i..][m - i];
    }
    forall m | j <= m < |t|
      ensures t[m] != '.'
    {
      assert t[m] == t[j..][m - j];
    }
  }

  /** Lower-casing a name and taking its extension commute. */
  lemma AfterLastDotLower(s: string)
    requires '.' in s
    ensures '.' in Lower(s)
    ensures AfterLastDot(Lower(s)) == Lower(AfterLastDot(s))
  {
    var ext := AfterLastDot(s);
    var j := |s| - |ext|;
    var low := Lower(s);
    assert low[j - 1] == '.';
    assert low[j..] == Lower(ext) by {
      assert s[j..] == ext;
      forall k | 0 <= k < |ext|
        ensures low[j..][k] == Lower(ext)[k]
      {
        assert low[j + k] == LowerChar(s[j + k]);
      }
    }
    assert '.' !in low[j..] by {
      forall k | 0 <= k < |ext|
        ensures Lower(ext)[k] != '.'
      {
        assert ext[k] != '.';
      }
    }
    AfterLastDotUnique(low, j);
  }

  lemma LowerIdempotent(s: string)
    ensures Lower(Lower(s)) == Lower(s)
  {
  }

  /** Names that differ only in upper/lower case are accepted or rejected together. */
  lemma CaseInsensitive(a: string, b: string)
    requires Lower(a) == Lower(b)
    ensures AllowedFile(a) <==> AllowedFile(b)
  {
    LowerKeepsDots(a);
    LowerKeepsDots(b);
    if '.' in a {
      AfterLastDotLower(a);
      AfterLastDotLower(b);
      LowerIdempotent(AfterLastDot(a));
      LowerIdempotent(AfterLastDot(b));
    }
  }

  lemma LowerKeepsDots(s: string)
    ensures '.' in Lower(s) <==> '.' in s
  {
    if '.' in Lower(s) {
      var k :| 0 <= k < |s| && Lower(s)[k] == '.';
      assert s[k] == '.';
    }
    if '.' in s {
      var k :| 0 <= k < |s| && s[k] == '.';
      assert Lower(s)[k] == '.';
    }
  }
}
