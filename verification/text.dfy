/** Character and string helpers: Python's `str.lower()` on ASCII letters,
    whitespace stripping and substring containment. */
module Text {

  predicate IsUpper(c: char) {
    'A' <= c <= 'Z'
  }

  predicate IsLower(c: char) {
    'a' <= c <= 'z'
  }

  /** Lower-cases one character; only ASCII capitals change. */
  function LowerChar(c: char): (r: char)
    ensures IsUpper(c) ==> IsLower(r) && r as int - c as int == 'a' as int - 'A' as int
    ensures !IsUpper(c) ==> r == c
  {
    if IsUpper(c) then (c as int - 'A' as int + 'a' as int) as char else c
  }

  /** The upper-case partner of a lower-case ASCII letter. */
  function UpperChar(c: char): (r: char)
    requires IsLower(c)
    ensures IsUpper(r) && LowerChar(r) == c
  {
    (c as int - 'a' as int + 'A' as int) as char
  }

  /** `s.lower()`: the same length, every character lower-cased in place. */
  function Lower(s: string): (r: string)
    ensures |r| == |s|
    ensures forall i :: 0 <= i < |s| ==> r[i] == LowerChar(s[i])
  {
    if |s| == 0 then [] else [LowerChar(s[0])] + Lower(s[1..])
  }

  /** No ASCII capital anywhere in `t`. */
  predicate NoCapitals(t: string) {
    forall i :: 0 <= i < |t| ==> !IsUpper(t[i])
  }

  /** `s` spells the lower-case word `t` with any mix of upper and lower case:
      each position holds either the letter of `t` or its capital. */
  ghost predicate CaseVariant(s: string, t: string) {
    && |s| == |t|
    && forall i :: 0 <= i < |s| ==> s[i] == t[i] || (IsLower(t[i]) && s[i] == UpperChar(t[i]))
  }

  lemma {:induction false} LowerHasNoCapitals(s: string)
    ensures NoCapitals(Lower(s))
  {
    var r := Lower(s);
    forall i | 0 <= i < |r|
      ensures !IsUpper(r[i])
    {
      assert r[i] == LowerChar(s[i]);
    }
  }

  /** Lower-casing twice is lower-casing once. */
  lemma LowerIdempotent(s: string)
    ensures Lower(Lower(s)) == Lower(s)
  {
    LowerHasNoCapitals(s);
  }

  /** For a word without capitals, `s.lower() == t` holds exactly when `s` is a
      case variant of `t`: this is what "ignoring case" means. */
  lemma LowerMatchesCaseVariant(s: string, t: string)
    requires NoCapitals(t)
    ensures Lower(s) == t <==> CaseVariant(s, t)
  {
    if Lower(s) == t {
      forall i | 0 <= i < |s|
        ensures s[i] == t[i] || (IsLower(t[i]) && s[i] == UpperChar(t[i]))
      {
        assert t[i] == LowerChar(s[i]);
      }
    }
    if CaseVariant(s, t) {
      forall i | 0 <= i < |s|
        ensures Lower(s)[i] == t[i]
      {
      }
    }
  }

  /** Whitespace that Python's `int()` strips around a number (the ASCII part). */
  predicate IsSpace(c: char) {
    c == ' ' || c == '\t' || c == '\n' || c == '\r' || c == '\U{B}' || c == '\U{C}'
  }

  /** Removes leading and trailing whitespace. The result is a contiguous slice of
      `s`; everything cut away is whitespace, and the slice neither starts nor
      ends with whitespace. */
  function Strip(s: string): (r: string)
    ensures exists lo, hi :: 0 <= lo <= hi <= |s| && r == s[lo..hi]
                             && (forall k :: 0 <= k < lo ==> IsSpace(s[k]))
                             && (forall k :: hi <= k < |s| ==> IsSpace(s[k]))
    ensures |r| > 0 ==> !IsSpace(r[0]) && !IsSpace(r[|r| - 1])
  {
    var lo := SkipSpace(s, 0);
    var hi := TrimSpace(s, lo, |s|);
    s[lo..hi]
  }

  /** The first index at or after `i` that holds no whitespace (or `|s|`). */
  function SkipSpace(s: string, i: nat): (j: nat)
    requires i <= |s|
    ensures i <= j <= |s|
    ensures forall k :: i <= k < j ==> IsSpace(s[k])
    ensures j < |s| ==> !IsSpace(s[j])
    decreases |s| - i
  {
    if i < |s| && IsSpace(s[i]) then SkipSpace(s, i + 1) else i
  }

  /** The end index after dropping the whitespace that ends `s[lo..hi]`. */
  function TrimSpace(s: string, lo: nat, hi: nat): (j: nat)
    requires lo <= hi <= |s|
    ensures lo <= j <= hi
    ensures forall k :: j <= k < hi ==> IsSpace(s[k])
    ensures j > lo ==> !IsSpace(s[j - 1])
    decreases hi - lo
  {
    if lo < hi && IsSpace(s[hi - 1]) then TrimSpace(s, lo, hi - 1) else hi
  }

  /** A string that neither starts nor ends with whitespace is left as it is. */
  lemma StripUntouched(s: string)
    requires |s| > 0 && !IsSpace(s[0]) && !IsSpace(s[|s| - 1])
    ensures Strip(s) == s
  {
    assert SkipSpace(s, 0) == 0;
    assert TrimSpace(s, 0, |s|) == |s|;
  }

  /** `Strip` is determined by its description: any slice that leaves only
      whitespace outside and neither starts nor ends with whitespace is the
      stripped string. */
  lemma StripUnique(s: string, lo: nat, hi: nat)
    requires lo <= hi <= |s|
    requires forall k :: 0 <= k < lo ==> IsSpace(s[k])
    requires forall k :: hi <= k < |s| ==> IsSpace(s[k])
    requires lo < hi ==> !IsSpace(s[lo]) && !IsSpace(s[hi - 1])
    ensures Strip(s) == s[lo..hi]
  {
    var lo' := SkipSpace(s, 0);
    var hi' := TrimSpace(s, lo', |s|);
    if lo < hi {
      assert lo' == lo;
      assert hi' == hi;
    } else {
      assert lo' == |s|;
    }
  }

  /** Whitespace added around a string does not change what `Strip` keeps. */
  lemma StripIgnoresPadding(w1: string, s: string, w2: string)
    requires forall k :: 0 <= k < |w1| ==> IsSpace(w1[k])
    requires forall k :: 0 <= k < |w2| ==> IsSpace(w2[k])
    ensures Strip(w1 + s + w2) == Strip(s)
  {
    var lo := SkipSpace(s, 0);
    var hi := TrimSpace(s, lo, |s|);
    PaddedSpaces(w1, s, w2, lo, hi);
    StripUnique(w1 + s + w2, |w1| + lo, |w1| + hi);
    SliceOfMiddle(w1, s, w2, lo, hi);
  }

  /** A slice of the middle part of a concatenation is the same slice of that part. */
  lemma SliceOfMiddle(w1: string, s: string, w2: string, lo: nat, hi: nat)
    requires lo <= hi <= |s|
    ensures (w1 + s + w2)[|w1| + lo..|w1| + hi] == s[lo..hi]
  {
    var u := w1 + s + w2;
    assert forall j :: |w1| <= j < |w1| + |s| ==> u[j] == s[j - |w1|];
  }

  /** Around the kept slice `s[lo..hi]`, the padded string holds only whitespace. */
  lemma PaddedSpaces(w1: string, s: string, w2: string, lo: nat, hi: nat)
    requires forall k :: 0 <= k < |w1| ==> IsSpace(w1[k])
    requires forall k :: 0 <= k < |w2| ==> IsSpace(w2[k])
    requires lo <= hi <= |s|
    requires forall k :: 0 <= k < lo ==> IsSpace(s[k])
    requires forall k :: hi <= k < |s| ==> IsSpace(s[k])
    requires lo < hi ==> !IsSpace(s[lo]) && !IsSpace(s[hi - 1])
    ensures var u := w1 + s + w2;
            && (forall k :: 0 <= k < |w1| + lo ==> IsSpace(u[k]))
            && (forall k :: |w1| + hi <= k < |u| ==> IsSpace(u[k]))
            && (lo < hi ==> !IsSpace(u[|w1| + lo]) && !IsSpace(u[|w1| + hi - 1]))
  {
    var u := w1 + s + w2;
    var n := |w1|;
    forall k | 0 <= k < n + lo
      ensures IsSpace(u[k])
    {
      if k < n { assert u[k] == w1[k]; } else { assert u[k] == s[k - n]; }
    }
    forall k | n + hi <= k < |u|
      ensures IsSpace(u[k])
    {
      if k < n + |s| { assert u[k] == s[k - n]; } else { assert u[k] == w2[k - n - |s|]; }
    }
    if lo < hi {
      assert u[n + lo] == s[lo] && u[n + hi - 1] == s[hi - 1];
    }
  }

  /** `needle` occurs as a contiguous part of `hay`. */
  ghost predicate Contains(hay: string, needle: string) {
    exists k :: OccursAt(hay, needle, k)
  }

  /** `needle` occurs in `hay` starting at index `k`. */
  ghost predicate OccursAt(hay: string, needle: string, k: int) {
    0 <= k <= |hay| - |needle| && hay[k..k + |needle|] == needle
  }

  lemma ContainsMiddle(a: string, b: string, c: string)
    ensures Contains(a + b + c, b)
  {
    var h := a + b + c;
    assert OccursAt(h, b, |a|);
  }
}
