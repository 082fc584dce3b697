/** The .NET string operations the resolver relies on, over `seq<char>`:
    `char.IsWhiteSpace`, `String.Trim`, an ordinal `String.StartsWith` and
    the ordinal `String.Replace(string, string)`. */
module Text {

  /** `char.IsWhiteSpace`: the Unicode space, line and paragraph separators,
      the control characters U+0009..U+000D, U+0085 and U+00A0. */
  predicate IsWhiteSpace(c: char) {
    || ('\U{9}' <= c <= '\U{D}')
    || c == ' ' || c == '\U{85}' || c == '\U{A0}' || c == '\U{1680}'
    || ('\U{2000}' <= c <= '\U{200A}')
    || c == '\U{2028}' || c == '\U{2029}' || c == '\U{202F}' || c == '\U{205F}' || c == '\U{3000}'
  }

  /** Every character of `s[lo..hi]` is white space. */
  predicate WhiteSpaceBetween(s: string, lo: int, hi: int)
    requires 0 <= lo <= hi <= |s|
  {
    forall k :: lo <= k < hi ==> IsWhiteSpace(s[k])
  }

  /** `string.IsNullOrWhiteSpace` on a non-null string (true of the empty string). */
  predicate AllWhiteSpace(s: string) {
    WhiteSpaceBetween(s, 0, |s|)
  }

  /** Neither the first nor the last character is white space. */
  predicate IsTrimmed(s: string) {
    |s| == 0 || (!IsWhiteSpace(s[0]) && !IsWhiteSpace(s[|s| - 1]))
  }

  /** The index of the first character at or after `k` that is not white space, or `|s|`. */
  function SkipWhiteSpace(s: string, k: nat): (i: nat)
    requires k <= |s|
    ensures k <= i <= |s| && WhiteSpaceBetween(s, k, i)
    ensures i == |s| || !IsWhiteSpace(s[i])
    decreases |s| - k
  {
    if k == |s| || !IsWhiteSpace(s[k]) then k else SkipWhiteSpace(s, k + 1)
  }

  /** The end of `s[lo..hi]` once its trailing white space is dropped. */
  function SkipWhiteSpaceBack(s: string, lo: nat, hi: nat): (j: nat)
    requires lo <= hi <= |s|
    ensures lo <= j <= hi && WhiteSpaceBetween(s, j, hi)
    ensures j == lo || !IsWhiteSpace(s[j - 1])
    decreases hi
  {
    if hi == lo || !IsWhiteSpace(s[hi - 1]) then hi else SkipWhiteSpaceBack(s, lo, hi - 1)
  }

  /** `String.Trim()`: the slice of `s` that is left once the white space at
      both ends is dropped; none is left at its ends, and only white space
      lies outside it. */
  function Trim(s: string): (r: string)
    ensures IsTrimmed(r)
    ensures var i := SkipWhiteSpace(s, 0);
      && i + |r| <= |s| && r == s[i..i + |r|]
      && WhiteSpaceBetween(s, 0, i) && WhiteSpaceBetween(s, i + |r|, |s|)
  {
    var i := SkipWhiteSpace(s, 0);
    var j := SkipWhiteSpaceBack(s, i, |s|);
    s[i..j]
  }

  /** `s.StartsWith(prefix)`, compared ordinally. The source calls the
      one-argument overload, which compares in the current culture; the two
      can differ on non-ASCII text (an ignorable character such as a soft
      hyphen, or a combining mark right after the prefix) and under cultures
      with contractions (`CH` in Czech). */
  predicate StartsWith(s: string, prefix: string) {
    |prefix| <= |s| && s[..|prefix|] == prefix
  }

  /** `pattern` occurs in `s` at index `k`. */
  predicate OccursAt(s: string, k: int, pattern: string) {
    0 <= k && k + |pattern| <= |s| && s[k..k + |pattern|] == pattern
  }

  /** `s.Replace(oldValue, newValue)`: scanning from the left, every
      non-overlapping occurrence of `oldValue` is replaced by `newValue`. */
  function ReplaceAll(s: string, oldValue: string, newValue: string): (r: string)
    requires |oldValue| > 0
    ensures oldValue == newValue ==> r == s
    decreases |s|
  {
    if |s| < |oldValue| then s
    else if s[..|oldValue|] == oldValue then newValue + ReplaceAll(s[|oldValue|..], oldValue, newValue)
    else [s[0]] + ReplaceAll(s[1..], oldValue, newValue)
  }

  /** An occurrence in the tail of `s` is an occurrence in `s`, one index later. */
  lemma OccursInTail(s: string, k: int, pattern: string)
    requires |s| > 0
    ensures OccursAt(s[1..], k, pattern) ==> OccursAt(s, k + 1, pattern)
  {
    if OccursAt(s[1..], k, pattern) {
      assert s[1..][k..k + |pattern|] == s[k + 1..k + 1 + |pattern|];
    }
  }

  /** Where `oldValue` does not start `s`, its first character is copied. */
  lemma ReplaceAllSkip(s: string, oldValue: string, newValue: string)
    requires 0 < |oldValue| <= |s| && !OccursAt(s, 0, oldValue)
    ensures ReplaceAll(s, oldValue, newValue) == [s[0]] + ReplaceAll(s[1..], oldValue, newValue)
  {
  }

  /** A string in which `oldValue` does not occur comes back unchanged. */
  lemma {:induction false} ReplaceAllAbsent(s: string, oldValue: string, newValue: string)
    requires |oldValue| > 0
    requires forall k :: 0 <= k <= |s| - |oldValue| ==> !OccursAt(s, k, oldValue)
    ensures ReplaceAll(s, oldValue, newValue) == s
    decreases |s|
  {
    if |s| >= |oldValue| {
      ReplaceAllSkip(s, oldValue, newValue);
      forall k | 0 <= k <= |s[1..]| - |oldValue|
        ensures !OccursAt(s[1..], k, oldValue)
      {
        OccursInTail(s, k, oldValue);
      }
      ReplaceAllAbsent(s[1..], oldValue, newValue);
    }
  }

  /** The leftmost occurrence is replaced and the scan resumes right after it. */
  lemma {:induction false} ReplaceAllFirst(a: string, oldValue: string, b: string, newValue: string)
    requires |oldValue| > 0
    requires forall k :: 0 <= k < |a| ==> !OccursAt(a + oldValue + b, k, oldValue)
    ensures ReplaceAll(a + oldValue + b, oldValue, newValue) == a + newValue + ReplaceAll(b, oldValue, newValue)
    decreases |a|
  {
    var s := a + oldValue + b;
    if |a| == 0 {
      assert s == oldValue + b;
      assert s[..|oldValue|] == oldValue;
      assert s[|oldValue|..] == b;
    } else {
      var tail := a[1..] + oldValue + b;
      assert s[1..] == tail;
      ReplaceAllSkip(s, oldValue, newValue);
      forall k | 0 <= k < |a[1..]|
        ensures !OccursAt(tail, k, oldValue)
      {
        OccursInTail(s, k, oldValue);
      }
      ReplaceAllFirst(a[1..], oldValue, b, newValue);
      assert s[0] == a[0] && a == [a[0]] + a[1..];
    }
  }

  /** Trimming a string that has no white space at its ends changes nothing. */
  lemma TrimTrimmed(s: string)
    requires IsTrimmed(s)
    ensures Trim(s) == s
  {
  }

  /** Trimming twice is trimming once. */
  lemma TrimIdempotent(s: string)
    ensures Trim(Trim(s)) == Trim(s)
  {
    TrimTrimmed(Trim(s));
  }

  // ---------------------------------------------------------------------
  // Concatenation regrouped, for proofs that would otherwise need
  // sequence extensionality in a large context
  // ---------------------------------------------------------------------

  /** A non-empty `a` in front of `t` is its head in front of the rest. */
  lemma HeadAndTail(a: string, t: string)
    requires |a| > 0
    ensures a + t == [a[0]] + (a[1..] + t)
  {
  }

  /** Three pieces regrouped to the right. */
  lemma Regroup(a: string, x: string, b: string)
    ensures a + x + b == a + (x + b)
  {
  }

  /** Four pieces regrouped to the right. */
  lemma RegroupRight(a: string, b: string, c: string, d: string)
    ensures a + b + c + d == a + (b + c + d)
  {
  }

  /** `s` is what comes before `i`, from `i` to `j`, and from `j` on. */
  lemma SplitAround(s: string, i: nat, j: nat)
    requires i <= j <= |s|
    ensures s == s[..i] + s[i..j] + s[j..]
  {
  }
}
