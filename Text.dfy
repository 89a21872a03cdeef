/**
 * The few pieces of Python's `str` behaviour the core relies on:
 * `lower()`, `in`, `split(sep)` with a one-character separator, and `sep.join(parts)`.
 * Strings are sequences of characters; lower-casing is modelled for ASCII letters only.
 */
module Text {

  predicate IsUpper(c: char) {
    'A' <= c <= 'Z'
  }

  /** Python's `c.lower()` on one character (ASCII letters only). */
  function LowerChar(c: char): (r: char)
    ensures !IsUpper(r)
    ensures !IsUpper(c) ==> r == c
    ensures IsUpper(c) ==> r as int - c as int == 32
  {
    if IsUpper(c) then (c as int + 32) as char else c
  }

  /** Python's `s.lower()`: every character lower-cased, length and every non-letter kept. */
  function Lower(s: string): (r: string)
    ensures |r| == |s|
    ensures forall k | 0 <= k < |s| :: r[k] == LowerChar(s[k])
  {
    seq(|s|, k requires 0 <= k < |s| => LowerChar(s[k]))
  }

  /** The number of occurrences of `c` in `s`. */
  function Count(s: string, c: char): nat {
    if s == [] then 0 else (if s[0] == c then 1 else 0) + Count(s[1..], c)
  }

  lemma {:induction false} CountPositive(s: string, c: char)
    ensures Count(s, c) > 0 <==> c in s
  {
    if s != [] {
      CountPositive(s[1..], c);
      assert c in s <==> s[0] == c || c in s[1..];
    }
  }

  /** Counting distributes over concatenation. */
  lemma {:induction false} CountConcat(a: string, b: string, c: char)
    ensures Count(a + b, c) == Count(a, c) + Count(b, c)
  {
    if a != [] {
      assert (a + b)[0] == a[0];
      assert (a + b)[1..] == a[1..] + b;
      CountConcat(a[1..], b, c);
    } else {
      assert a + b == b;
    }
  }

  /** Python's `s.split(c)` for a one-character separator `c`. */
  function Split(s: string, c: char): (parts: seq<string>)
    ensures |parts| >= 1
    ensures forall k | 0 <= k < |parts| :: c !in parts[k]
  {
    if s == [] then [""]
    else if s[0] == c then [""] + Split(s[1..], c)
    else
      var rest := Split(s[1..], c);
      [[s[0]] + rest[0]] + rest[1..]
  }

  /** Python's `sep.join(parts)`. */
  function Join(parts: seq<string>, sep: string): string {
    if |parts| == 0 then ""
    else if |parts| == 1 then parts[0]
    else parts[0] + sep + Join(parts[1..], sep)
  }

  /** `len(s.split(c))` is one more than the number of separators. */
  lemma {:induction false} SplitLength(s: string, c: char)
    ensures |Split(s, c)| == Count(s, c) + 1
  {
    if s != [] {
      SplitLength(s[1..], c);
    }
  }

  /** Splitting and joining back with the same separator gives the input. */
  lemma {:induction false} JoinSplit(s: string, c: char)
    ensures Join(Split(s, c), [c]) == s
  {
    if s != [] {
      var rest := Split(s[1..], c);
      JoinSplit(s[1..], c);
      if s[0] == c {
        assert Split(s, c) == [""] + rest;
        assert ([""] + rest)[1..] == rest;
      } else {
        var parts := [[s[0]] + rest[0]] + rest[1..];
        assert Split(s, c) == parts;
        if |rest| == 1 {
          assert Join(rest, [c]) == rest[0];
        } else {
          assert parts[1..] == rest[1..];
          assert Join(rest, [c]) == rest[0] + [c] + Join(rest[1..], [c]);
        }
      }
    }
  }

  /** The joined text has every part and one separator between each pair of neighbours. */
  lemma {:induction false} JoinLength(parts: seq<string>, sep: string)
    requires |parts| >= 1
    ensures |Join(parts, sep)| == SumLengths(parts) + (|parts| - 1) * |sep|
  {
    if |parts| > 1 {
      JoinLength(parts[1..], sep);
    }
  }

  function SumLengths(parts: seq<string>): nat {
    if parts == [] then 0 else |parts[0]| + SumLengths(parts[1..])
  }

  /** `t` occurs in `s` starting at position `k`. */
  predicate OccursAt(s: string, t: string, k: int) {
    0 <= k <= |s| - |t| && s[k..k + |t|] == t
  }

  /** An occurrence inside an occurrence is an occurrence in the outer text. */
  lemma OccursWithin(u: string, s: string, j: int, t: string, k: int)
    requires OccursAt(u, s, j) && OccursAt(s, t, k)
    ensures OccursAt(u, t, j + k)
  {
    forall m | 0 <= m < |t|
      ensures u[j + k..j + k + |t|][m] == t[m]
    {
      assert u[j + k + m] == u[j..j + |s|][k + m] == s[k + m] == s[k..k + |t|][m];
    }
  }

  /** Two neighbouring parts appear in the joined text with exactly one separator between them. */
  lemma {:induction false} JoinNeighbours(parts: seq<string>, sep: string, i: nat)
    returns (k: nat)
    requires i + 1 < |parts|
    ensures OccursAt(Join(parts, sep), parts[i] + sep + parts[i + 1], k)
  {
    var s := Join(parts, sep);
    var t := parts[i] + sep + parts[i + 1];
    var head := parts[0] + sep;
    var tail := Join(parts[1..], sep);
    assert s == head + tail;
    if i == 0 {
      var after := if |parts| == 2 then "" else sep + Join(parts[2..], sep);
      assert parts[1..][1..] == parts[2..];
      assert tail == parts[1] + after;
      assert s == t + after;
      assert s[0..|t|] == t;
      k := 0;
    } else {
      var k' := JoinNeighbours(parts[1..], sep, i - 1);
      assert parts[1..][i - 1] + sep + parts[1..][i] == t;
      assert s[|head| + k'..|head| + k' + |t|] == tail[k'..k' + |t|];
      k := |head| + k';
    }
  }
}
