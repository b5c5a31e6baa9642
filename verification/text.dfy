/**
 * String operations of Python's `str` type that the bot's post-processing
 * relies on: `strip()`, the `in` operator on substrings, and
 * `split(sep)[-1]`. Strings are sequences of Unicode scalar values.
 */
module Text {
  import opened Options

  /** The characters for which Python's `str.isspace()` holds; these are the
      characters `str.strip()` removes when called without arguments. */
  predicate IsSpace(c: char)
    ensures c == ' ' || c == '\t' || c == '\n' || c == '\r' || c == '\U{000B}' || c == '\U{000C}' ==> IsSpace(c)
    ensures c == '\U{00A0}' || c == '\U{2028}' || c == '\U{3000}' ==> IsSpace(c)
    ensures IsSpace(c) ==> c != '\U{180E}' && c != '\U{200B}' && c != '\U{FEFF}'
    ensures 'a' <= c <= 'z' || 'A' <= c <= 'Z' || '0' <= c <= '9' ==> !IsSpace(c)
  {
    var n := c as int;
    || 0x09 <= n <= 0x0D
    || 0x1C <= n <= 0x20
    || n == 0x85 || n == 0xA0 || n == 0x1680
    || 0x2000 <= n <= 0x200A
    || n == 0x2028 || n == 0x2029 || n == 0x202F || n == 0x205F
    || n == 0x3000
  }

  /** Every character of `s` at an index in `[lo, hi)` is whitespace. */
  ghost predicate SpaceBetween(s: string, lo: int, hi: int)
  {
    forall i :: lo <= i < hi && 0 <= i < |s| ==> IsSpace(s[i])
  }

  /** `s` neither begins nor ends with whitespace. */
  predicate Trimmed(s: string)
  {
    |s| == 0 || (!IsSpace(s[0]) && !IsSpace(s[|s| - 1]))
  }

  /** `r` is a contiguous piece of `s`. */
  ghost predicate IsInfix(r: string, s: string)
  {
    exists lo, hi :: 0 <= lo <= hi <= |s| && r == s[lo..hi]
  }

  /** Reference definition of stripping: `r` is what remains of `s` once
      margins made only of whitespace are cut off, and `r` itself neither
      begins nor ends with whitespace. */
  ghost predicate IsStripOf(r: string, s: string)
  {
    exists lo, hi ::
      && 0 <= lo <= hi <= |s|
      && r == s[lo..hi]
      && SpaceBetween(s, 0, lo)
      && SpaceBetween(s, hi, |s|)
      && Trimmed(r)
  }

  /** The first index at or after `i` that does not hold whitespace (or |s|). */
  function SkipSpaceForward(s: string, i: nat): (r: nat)
    requires i <= |s|
    ensures i <= r <= |s|
    ensures SpaceBetween(s, i, r)
    ensures r == |s| || !IsSpace(s[r])
    decreases |s| - i
  {
    if i < |s| && IsSpace(s[i]) then SkipSpaceForward(s, i + 1) else i
  }

  /** Moving down from `j`, but never below `lo`, the end of the last
      character that is not whitespace. */
  function SkipSpaceBackward(s: string, lo: nat, j: nat): (r: nat)
    requires lo <= j <= |s|
    ensures lo <= r <= j
    ensures SpaceBetween(s, r, j)
    ensures r == lo || !IsSpace(s[r - 1])
    decreases j - lo
  {
    if j > lo && IsSpace(s[j - 1]) then SkipSpaceBackward(s, lo, j - 1) else j
  }

  /** Python's `s.strip()`: skip whitespace from the left, then from the
      right, never crossing the left position. */
  function Strip(s: string): (r: string)
    ensures Trimmed(r)
    ensures IsStripOf(r, s)
  {
    var lo := SkipSpaceForward(s, 0);
    var hi := SkipSpaceBackward(s, lo, |s|);
    assert lo < hi ==> s[lo..hi][0] == s[lo] && s[lo..hi][hi - lo - 1] == s[hi - 1];
    s[lo..hi]
  }

  /** A string that is already trimmed is left alone by `Strip`. */
  lemma StripOfTrimmed(s: string)
    requires Trimmed(s)
    ensures Strip(s) == s
  {
  }

  /** `Strip` is idempotent. */
  lemma StripIdempotent(s: string)
    ensures Strip(Strip(s)) == Strip(s)
  {
    StripOfTrimmed(Strip(s));
  }

  /** The reference definition pins the stripped string down: whatever
      satisfies `IsStripOf(r, s)` is `Strip(s)`. */
  lemma StripUnique(s: string, r: string)
    requires IsStripOf(r, s)
    ensures r == Strip(s)
  {
    var lo, hi :| 0 <= lo <= hi <= |s| && r == s[lo..hi] && SpaceBetween(s, 0, lo)
                  && SpaceBetween(s, hi, |s|) && Trimmed(r);
    var lo', hi' :| 0 <= lo' <= hi' <= |s| && Strip(s) == s[lo'..hi'] && SpaceBetween(s, 0, lo')
                    && SpaceBetween(s, hi', |s|) && Trimmed(Strip(s));
    if lo < hi && lo' < hi' {
      SameBounds(s, lo, hi, lo', hi');
    } else {
      BothEmpty(s, lo, hi, lo', hi');
    }
  }

  /** The first and last characters of a non-empty trimmed slice. */
  lemma TrimmedSliceEnds(s: string, lo: int, hi: int)
    requires 0 <= lo < hi <= |s| && Trimmed(s[lo..hi])
    ensures !IsSpace(s[lo]) && !IsSpace(s[hi - 1])
  {
    assert s[lo..hi][0] == s[lo];
    assert s[lo..hi][hi - lo - 1] == s[hi - 1];
  }

  /** When one of two strips of `s` is empty, `s` is all whitespace and so
      the other strip is empty too. */
  lemma BothEmpty(s: string, lo: int, hi: int, lo': int, hi': int)
    requires 0 <= lo <= hi <= |s| && SpaceBetween(s, 0, lo) && SpaceBetween(s, hi, |s|)
    requires Trimmed(s[lo..hi])
    requires 0 <= lo' <= hi' <= |s| && SpaceBetween(s, 0, lo') && SpaceBetween(s, hi', |s|)
    requires Trimmed(s[lo'..hi'])
    requires lo == hi || lo' == hi'
    ensures lo == hi && lo' == hi'
  {
    if lo < hi {
      TrimmedSliceEnds(s, lo, hi);
    }
    if lo' < hi' {
      TrimmedSliceEnds(s, lo', hi');
    }
  }

  /** Two non-empty strips of `s` have the same bounds. */
  lemma SameBounds(s: string, lo: int, hi: int, lo': int, hi': int)
    requires 0 <= lo < hi <= |s| && SpaceBetween(s, 0, lo) && SpaceBetween(s, hi, |s|)
    requires Trimmed(s[lo..hi])
    requires 0 <= lo' < hi' <= |s| && SpaceBetween(s, 0, lo') && SpaceBetween(s, hi', |s|)
    requires Trimmed(s[lo'..hi'])
    ensures lo == lo' && hi == hi'
  {
    TrimmedSliceEnds(s, lo, hi);
    TrimmedSliceEnds(s, lo', hi');
  }

  /** A slice of a slice is a slice of the original. */
  lemma SliceOfSlice(s: string, lo: int, hi: int, lo': int, hi': int)
    requires 0 <= lo <= hi <= |s| && 0 <= lo' <= hi' <= hi - lo
    ensures s[lo..hi][lo'..hi'] == s[lo + lo'..lo + hi']
  {
    forall i | 0 <= i < hi' - lo'
      ensures s[lo..hi][lo'..hi'][i] == s[lo + lo'..lo + hi'][i]
    {
    }
  }

  /** A piece of a piece of `s` is a piece of `s`. */
  lemma InfixTransitive(a: string, b: string, c: string)
    requires IsInfix(a, b) && IsInfix(b, c)
    ensures IsInfix(a, c)
  {
    var lo, hi :| 0 <= lo <= hi <= |b| && a == b[lo..hi];
    var lo', hi' :| 0 <= lo' <= hi' <= |c| && b == c[lo'..hi'];
    SliceOfSlice(c, lo', hi', lo, hi);
  }

  /** `t` occurs in `s` starting at index `p`. */
  predicate OccursAt(s: string, t: string, p: nat)
  {
    p + |t| <= |s| && s[p..p + |t|] == t
  }

  /** `t` is a substring of `s`. */
  ghost predicate Occurs(s: string, t: string)
  {
    exists p: nat :: OccursAt(s, t, p)
  }

  /** Occurrences in a suffix are occurrences in the whole string, shifted. */
  lemma OccursInSuffix(s: string, t: string, k: nat, p: nat)
    requires k <= |s|
    ensures OccursAt(s[k..], t, p) <==> OccursAt(s, t, k + p)
  {
    if p + |t| <= |s| - k {
      SliceOfSlice(s, k, |s|, p, p + |t|);
    }
  }

  /** Python's `s.find(t, start)`: the first index at or after `start` at
      which `t` occurs in `s`. */
  function IndexFrom(s: string, t: string, start: nat): (r: Option<nat>)
    ensures r.Some? ==> start <= r.value && OccursAt(s, t, r.value)
    ensures r.Some? ==> forall p: nat :: start <= p < r.value ==> !OccursAt(s, t, p)
    ensures r.None? ==> forall p: nat :: start <= p ==> !OccursAt(s, t, p)
    decreases |s| - start
  {
    if start + |t| > |s| then None
    else if s[start..start + |t|] == t then Some(start)
    else IndexFrom(s, t, start + 1)
  }

  /** Python's `t in s` for strings. */
  predicate Contains(s: string, t: string)
    ensures Contains(s, t) <==> Occurs(s, t)
  {
    IndexFrom(s, t, 0).Some?
  }

  /** Where the piece that `split(sep)[-1]` returns begins, when `split`
      resumes its left-to-right scan at `start`. */
  function SegmentStart(s: string, sep: string, start: nat): (k: nat)
    requires |sep| > 0 && start <= |s|
    ensures start <= k <= |s|
    ensures forall p: nat :: k <= p ==> !OccursAt(s, sep, p)
    ensures k == start || (start + |sep| <= k && OccursAt(s, sep, k - |sep|))
    decreases |s| - start
  {
    match IndexFrom(s, sep, start)
    case None => start
    case Some(i) => SegmentStart(s, sep, i + |sep|)
  }

  /** Python's `s.split(sep)[-1]`: the piece after the last occurrence of
      `sep`, occurrences being found left to right without overlap, or the
      whole of `s` when `sep` does not occur. Python rejects an empty `sep`. */
  function LastSegment(s: string, sep: string): (r: string)
    requires |sep| > 0
    ensures |r| <= |s| && r == s[|s| - |r|..]
    ensures !Occurs(r, sep)
    ensures forall p: nat :: |s| - |r| <= p ==> !OccursAt(s, sep, p)
    ensures !Occurs(s, sep) ==> r == s
    ensures Occurs(s, sep) ==> |r| + |sep| <= |s| && OccursAt(s, sep, |s| - |r| - |sep|)
  {
    var k := SegmentStart(s, sep, 0);
    SuffixFreeOf(s, sep, k);
    s[k..]
  }

  /** A suffix of `s` that starts past every occurrence of `t` has none. */
  lemma SuffixFreeOf(s: string, t: string, k: nat)
    requires k <= |s|
    requires forall p: nat :: k <= p ==> !OccursAt(s, t, p)
    ensures !Occurs(s[k..], t)
  {
    forall p: nat ensures !OccursAt(s[k..], t, p) {
      OccursInSuffix(s, t, k, p);
    }
  }

  /** The first character of `t` appears nowhere else in `t`; then two
      occurrences of `t` can never overlap. */
  predicate HeadUnique(t: string)
  {
    forall d :: 0 < d < |t| ==> t[d] != t[0]
  }

  /** Two occurrences of a separator whose first character is unique are
      disjoint. */
  lemma OccurrencesDisjoint(s: string, t: string, q: nat, p: nat)
    requires |t| > 0 && HeadUnique(t)
    requires OccursAt(s, t, q) && OccursAt(s, t, p) && q < p
    ensures q + |t| <= p
  {
    assert s[p] == t[0] by {
      assert s[p..p + |t|][0] == s[p];
    }
    assert forall d :: 0 <= d < |t| && q + d < |s| ==> s[q + d] == t[d] by {
      forall d | 0 <= d < |t| && q + d < |s| ensures s[q + d] == t[d] {
        assert s[q..q + |t|][d] == s[q + d];
      }
    }
  }

  /** For a separator whose occurrences cannot overlap, `LastSegment` starts
      right after the LAST occurrence of the separator. */
  lemma LastSegmentFollowsLastOccurrence(s: string, sep: string, p: nat)
    requires |sep| > 0 && HeadUnique(sep)
    requires OccursAt(s, sep, p)
    ensures p + |sep| + |LastSegment(s, sep)| <= |s|
  {
    var r := LastSegment(s, sep);
    var k := |s| - |r|;
    if k - |sep| < p < k {
      OccurrencesDisjoint(s, sep, k - |sep|, p);
    }
  }

  /** `k` is the index just past the last occurrence of `sep` in `s`. */
  ghost predicate AfterLastOccurrence(s: string, sep: string, k: int)
  {
    && |sep| <= k <= |s|
    && OccursAt(s, sep, k - |sep|)
    && forall p: nat :: OccursAt(s, sep, p) ==> p + |sep| <= k
  }

  /** When `sep` occurs in `s` and its occurrences cannot overlap,
      `LastSegment` is the suffix after the last occurrence. */
  lemma LastSegmentAfterLast(s: string, sep: string)
    requires |sep| > 0 && HeadUnique(sep) && Occurs(s, sep)
    ensures AfterLastOccurrence(s, sep, |s| - |LastSegment(s, sep)|)
  {
    forall p: nat | OccursAt(s, sep, p)
      ensures p + |sep| <= |s| - |LastSegment(s, sep)|
    {
      LastSegmentFollowsLastOccurrence(s, sep, p);
    }
  }

  /** Nothing that lacks an occurrence of `t` gains one by being cut down. */
  lemma InfixKeepsAbsence(a: string, b: string, t: string)
    requires IsInfix(a, b) && !Occurs(b, t)
    ensures !Occurs(a, t)
  {
    var lo, hi :| 0 <= lo <= hi <= |b| && a == b[lo..hi];
    forall p: nat ensures !OccursAt(a, t, p) {
      if p + |t| <= |a| {
        SliceOfSlice(b, lo, hi, p, p + |t|);
        assert !OccursAt(b, t, lo + p);
      }
    }
  }
}
