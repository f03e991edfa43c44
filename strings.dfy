/**
 Python string operations the review pipeline relies on, over `string` (= `seq<char>`):
 `str.isspace`, ASCII `str.lower`, `q in s`, `str.replace`, `str.strip`.
 */
module Strings {

  /** Python's `str.isspace()`. It is also the set that `\s` matches in a `str` regular
      expression and the set that `str.strip()` removes when it has no argument. */
  predicate IsSpace(c: char) {
    var n := c as int;
    (0x09 <= n <= 0x0D) || (0x1C <= n <= 0x20) || n == 0x85 || n == 0xA0 || n == 0x1680
    || (0x2000 <= n <= 0x200A) || n == 0x2028 || n == 0x2029 || n == 0x202F
    || n == 0x205F || n == 0x3000
  }

  /** An ASCII capital letter. */
  predicate IsUpper(c: char) {
    'A' <= c <= 'Z'
  }

  /** `str.lower()` on one character, for the ASCII letters. */
  function LowerChar(c: char): char {
    if IsUpper(c) then (c as int + 32) as char else c
  }

  /** `str.lower()`, for ASCII text: each capital letter becomes the letter 32 code points
      above it, every other character is kept, and no capital letter is left. */
  function Lower(s: string): (r: string)
    ensures |r| == |s|
    ensures forall k :: 0 <= k < |s| && IsUpper(s[k]) ==> r[k] as int == s[k] as int + 32
    ensures forall k :: 0 <= k < |s| && !IsUpper(s[k]) ==> r[k] == s[k]
    ensures forall k :: 0 <= k < |r| ==> !IsUpper(r[k])
  {
    seq(|s|, k requires 0 <= k < |s| => LowerChar(s[k]))
  }

  /** Lowercasing twice is lowercasing once. */
  lemma LowerIdempotent(s: string)
    ensures Lower(Lower(s)) == Lower(s)
  {
    var l := Lower(s);
    assert forall k :: 0 <= k < |l| ==> Lower(l)[k] == l[k];
  }

  predicate StartsWith(s: string, p: string) {
    |p| <= |s| && s[..|p|] == p
  }

  /** Python's `q in s`: q occurs in s as a contiguous substring (the empty string always does). */
  predicate Contains(s: string, q: string)
    decreases |s|
  {
    StartsWith(s, q) || (|s| > 0 && Contains(s[1..], q))
  }

  /** Python's `s.replace(p, r)` for a non-empty p: scanning left to right, every
      non-overlapping occurrence of p is replaced by r. */
  function ReplaceAll(s: string, p: string, r: string): string
    requires |p| > 0
    decreases |s|
  {
    if |s| == 0 then []
    else if StartsWith(s, p) then r + ReplaceAll(s[|p|..], p, r)
    else [s[0]] + ReplaceAll(s[1..], p, r)
  }

  /** True when s has no whitespace at either end (what `str.strip()` guarantees). */
  predicate NoEdgeSpace(s: string) {
    |s| == 0 || (!IsSpace(s[0]) && !IsSpace(s[|s| - 1]))
  }

  /** Where `str.lstrip()` cuts: the first index at or after i that is not whitespace. */
  function FirstNonSpace(s: string, i: nat): (n: nat)
    requires i <= |s|
    ensures i <= n <= |s|
    ensures forall k :: i <= k < n ==> IsSpace(s[k])
    ensures n == |s| || !IsSpace(s[n])
    decreases |s| - i
  {
    if i < |s| && IsSpace(s[i]) then FirstNonSpace(s, i + 1) else i
  }

  /** Where `str.rstrip()` cuts s[..j]: the end of s[lo..j] once its trailing
      whitespace is dropped. */
  function EndOfText(s: string, lo: nat, j: nat): (m: nat)
    requires lo <= j <= |s|
    ensures lo <= m <= j
    ensures forall k :: m <= k < j ==> IsSpace(s[k])
    ensures m == lo || !IsSpace(s[m - 1])
    decreases j - lo
  {
    if lo < j && IsSpace(s[j - 1]) then EndOfText(s, lo, j - 1) else j
  }

  /** Outside s[i..j] there is only whitespace. */
  predicate EdgesAreSpace(s: string, i: int, j: int) {
    && 0 <= i <= j <= |s|
    && (forall k :: 0 <= k < i ==> IsSpace(s[k]))
    && (forall k :: j <= k < |s| ==> IsSpace(s[k]))
  }

  /** `str.strip()`: the result is the input with exactly its leading and trailing
      whitespace removed. */
  function Strip(s: string): (r: string)
    ensures NoEdgeSpace(r)
    ensures exists i, j :: EdgesAreSpace(s, i, j) && r == s[i..j]
    ensures forall c :: c in r ==> c in s
    ensures NoEdgeSpace(s) ==> r == s
  {
    var i := FirstNonSpace(s, 0);
    var j := EndOfText(s, i, |s|);
    assert EdgesAreSpace(s, i, j);
    assert NoEdgeSpace(s[i..j]) by {
      if i < j {
        assert s[i..j][0] == s[i] && s[i..j][j - i - 1] == s[j - 1];
      }
    }
    assert NoEdgeSpace(s) ==> s[i..j] == s by {
      if NoEdgeSpace(s) && |s| > 0 {
        assert i == 0 && j == |s|;
      }
    }
    assert forall c :: c in s[i..j] ==> c in s by {
      forall c | c in s[i..j]
        ensures c in s
      {
        var k :| 0 <= k < j - i && s[i..j][k] == c;
        assert s[i + k] == c;
      }
    }
    s[i..j]
  }

  // ---------------------------------------------------------------------------
  // Facts about StartsWith and Contains

  lemma StartsWithCons(c: char, s: string, w: string)
    requires |w| > 0
    ensures StartsWith([c] + s, w) <==> c == w[0] && StartsWith(s, w[1..])
  {
    var cs := [c] + s;
    if StartsWith(cs, w) {
      assert cs[1..][..|w| - 1] == cs[1..|w|];
      assert w[1..] == cs[..|w|][1..];
    }
    if c == w[0] && StartsWith(s, w[1..]) {
      assert cs[..|w|] == [c] + s[..|w| - 1];
    }
  }

  /** A string that differs from q at some position k inside a cannot start with q. */
  lemma MismatchAt(a: string, y: string, q: string, k: nat)
    requires k < |a| && k < |q| && a[k] != q[k]
    ensures !StartsWith(a + y, q)
  {
    if |q| <= |a + y| {
      assert (a + y)[..|q|][k] == a[k];
    }
  }

  /** A string lacking one of q's characters does not contain q. */
  lemma {:induction false} MissingCharNotContains(s: string, q: string, c: char)
    requires c in q && c !in s
    ensures !Contains(s, q)
    decreases |s|
  {
    if StartsWith(s, q) {
      assert false;
    }
    if |s| > 0 {
      MissingCharNotContains(s[1..], q, c);
    }
  }

  /** An occurrence at offset j is an occurrence. */
  lemma {:induction false} ContainsAt(s: string, j: nat, q: string)
    requires j <= |s| && StartsWith(s[j..], q)
    ensures Contains(s, q)
    decreases j
  {
    if j == 0 {
      assert s[0..] == s;
    } else {
      assert s[1..][j - 1..] == s[j..];
      ContainsAt(s[1..], j - 1, q);
    }
  }

  /** q occurs in s starting at offset j. */
  predicate OccursAt(s: string, q: string, j: int) {
    0 <= j && j + |q| <= |s| && s[j..j + |q|] == q
  }

  /** The converse of ContainsAt: when s contains q, q occurs in s at some offset. */
  lemma {:induction false} ContainsOccurrence(s: string, q: string)
    requires Contains(s, q)
    ensures exists j :: OccursAt(s, q, j)
    decreases |s|
  {
    if StartsWith(s, q) {
      assert OccursAt(s, q, 0);
    } else {
      ContainsOccurrence(s[1..], q);
      var j :| OccursAt(s[1..], q, j);
      assert s[j + 1..j + 1 + |q|] == s[1..][j..j + |q|];
      assert OccursAt(s, q, j + 1);
    }
  }

  /** Python's `in` on strings means a substring occurrence, in both directions. */
  lemma ContainsIff(s: string, q: string)
    ensures Contains(s, q) <==> exists j :: OccursAt(s, q, j)
  {
    if Contains(s, q) {
      ContainsOccurrence(s, q);
    }
    if exists j :: OccursAt(s, q, j) {
      var j :| OccursAt(s, q, j);
      assert s[j..][..|q|] == s[j..j + |q|];
      ContainsAt(s, j, q);
    }
  }

  /** What a suffix contains, the whole string contains. */
  lemma {:induction false} ContainsSuffix(a: string, t: string, q: string)
    requires Contains(t, q)
    ensures Contains(a + t, q)
    decreases |a|
  {
    if |a| == 0 {
      assert a + t == t;
    } else {
      assert (a + t)[1..] == a[1..] + t;
      ContainsSuffix(a[1..], t, q);
    }
  }

  /** a + y has no occurrence of q when y has none and none starts inside a. */
  lemma {:induction false} NotContainsAppend(a: string, y: string, q: string)
    requires !Contains(y, q)
    requires forall j :: 0 <= j < |a| ==> !StartsWith(a[j..] + y, q)
    ensures !Contains(a + y, q)
    decreases |a|
  {
    if |a| == 0 {
      assert a + y == y;
    } else {
      assert a[0..] == a;
      assert (a + y)[1..] == a[1..] + y;
      forall j | 0 <= j < |a[1..]| ensures !StartsWith(a[1..][j..] + y, q) {
        assert a[1..][j..] == a[j + 1..];
      }
      NotContainsAppend(a[1..], y, q);
    }
  }

  // ---------------------------------------------------------------------------
  // Facts about ReplaceAll

  /** With no occurrence of p, replacing p changes nothing. */
  lemma {:induction false} ReplaceAllNoMatch(s: string, p: string, r: string)
    requires |p| > 0 && !Contains(s, p)
    ensures ReplaceAll(s, p, r) == s
    decreases |s|
  {
    if |s| > 0 {
      ReplaceAllNoMatch(s[1..], p, r);
      assert s == [s[0]] + s[1..];
    }
  }

  /** Every character of the result comes from s or from the replacement. */
  lemma {:induction false} ReplaceAllChars(s: string, p: string, r: string)
    requires |p| > 0
    ensures forall c :: c in ReplaceAll(s, p, r) ==> c in s || c in r
    decreases |s|
  {
    if |s| == 0 {
    } else if StartsWith(s, p) {
      ReplaceAllChars(s[|p|..], p, r);
      assert forall c :: c in s[|p|..] ==> c in s;
    } else {
      ReplaceAllChars(s[1..], p, r);
      assert forall c :: c in s[1..] ==> c in s;
    }
  }

  /** Replacing with a non-empty string keeps the result empty exactly when s is, and
      its first and last characters come from the ends of s or of the replacement. */
  lemma {:induction false} ReplaceAllEnds(s: string, p: string, r: string)
    requires |p| > 0 && |r| > 0
    ensures var t := ReplaceAll(s, p, r);
      && (|t| == 0 <==> |s| == 0)
      && (|s| > 0 ==> (t[0] == s[0] || t[0] == r[0]))
      && (|s| > 0 ==> (t[|t| - 1] == s[|s| - 1] || t[|t| - 1] == r[|r| - 1]))
    decreases |s|
  {
    if |s| == 0 {
    } else if StartsWith(s, p) {
      var rest := s[|p|..];
      ReplaceAllEnds(rest, p, r);
      var t := ReplaceAll(rest, p, r);
      assert ReplaceAll(s, p, r) == r + t;
      if |rest| > 0 {
        assert rest[|rest| - 1] == s[|s| - 1];
        assert (r + t)[|r + t| - 1] == t[|t| - 1];
      }
    } else {
      ReplaceAllEnds(s[1..], p, r);
      var t := ReplaceAll(s[1..], p, r);
      assert ReplaceAll(s, p, r) == [s[0]] + t;
      if |s| > 1 {
        assert s[1..][|s| - 2] == s[|s| - 1];
        assert ([s[0]] + t)[|t|] == t[|t| - 1];
      }
    }
  }

  /** Where an occurrence of p begins s, the result begins with the replacement. */
  lemma ReplaceAllHead(s: string, p: string, r: string)
    requires |p| > 0
    ensures |s| > 0 && StartsWith(s, p) && |r| > 0 ==>
      |ReplaceAll(s, p, r)| > 0 && ReplaceAll(s, p, r)[0] == r[0]
  {
  }

  /** When the replacement's first character does not occur in w, a w at the front of
      the result was already at the front of s. */
  lemma {:induction false} ReplacedPrefix(s: string, p: string, r: string, w: string)
    requires |p| > 0 && |r| > 0
    requires forall k :: 0 <= k < |w| ==> w[k] != r[0]
    requires StartsWith(ReplaceAll(s, p, r), w)
    ensures StartsWith(s, w)
    decreases |s|
  {
    if |w| == 0 {
    } else if |s| == 0 {
    } else if StartsWith(s, p) {
      ReplaceAllHead(s, p, r);
      assert false;
    } else {
      var t := ReplaceAll(s[1..], p, r);
      StartsWithCons(s[0], t, w);
      ReplacedPrefix(s[1..], p, r, w[1..]);
      assert s == [s[0]] + s[1..];
      StartsWithCons(s[0], s[1..], w);
    }
  }

  /** A variant for p and r with the same first character: then only the last character of
      w may be that character. */
  lemma {:induction false} ReplacedPrefixSameHead(s: string, p: string, r: string, w: string)
    requires |p| > 0 && |r| > 0 && p[0] == r[0]
    requires forall k :: 0 <= k < |w| - 1 ==> w[k] != r[0]
    requires StartsWith(ReplaceAll(s, p, r), w)
    ensures StartsWith(s, w)
    decreases |s|
  {
    if |w| == 0 {
    } else if |s| == 0 {
    } else if StartsWith(s, p) {
      if |w| == 1 {
        assert w == [s[0]];
      } else {
        ReplaceAllHead(s, p, r);
        assert false;
      }
    } else {
      var t := ReplaceAll(s[1..], p, r);
      StartsWithCons(s[0], t, w);
      ReplacedPrefixSameHead(s[1..], p, r, w[1..]);
      assert s == [s[0]] + s[1..];
      StartsWithCons(s[0], s[1..], w);
    }
  }

  /** An occurrence of p at the front is replaced. */
  lemma ReplaceAllHit(p: string, s: string, r: string)
    requires |p| > 0
    ensures ReplaceAll(p + s, p, r) == r + ReplaceAll(s, p, r)
  {
    assert (p + s)[..|p|] == p;
    assert (p + s)[|p|..] == s;
  }

  /** A front character that does not begin an occurrence of p is copied. */
  lemma ReplaceAllCopy(c: char, s: string, p: string, r: string)
    requires |p| > 0 && !StartsWith([c] + s, p)
    ensures ReplaceAll([c] + s, p, r) == [c] + ReplaceAll(s, p, r)
  {
    assert ([c] + s)[1..] == s;
  }

  /** A prefix none of whose characters is p's first is copied. */
  lemma {:induction false} ReplaceAllCopyPrefix(a: string, s: string, p: string, r: string)
    requires |p| > 0
    requires forall k :: 0 <= k < |a| ==> a[k] != p[0]
    ensures ReplaceAll(a + s, p, r) == a + ReplaceAll(s, p, r)
    decreases |a|
  {
    if |a| == 0 {
      assert a + s == s;
    } else {
      MismatchAt(a, s, p, 0);
      assert (a + s)[1..] == a[1..] + s;
      ReplaceAllCopyPrefix(a[1..], s, p, r);
      assert a == [a[0]] + a[1..];
    }
  }
}
