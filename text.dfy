/**
 The Python string operations mimic.py calls, over `seq<char>`: `endswith`,
 `replace`, `strip` with one character and ASCII `lower`. Substring search is
 how the model finds the regex match, and `Join` is a reference definition
 used only to state what `replace` does.
 */
module Text {

  datatype Option<T> = None | Some(value: T)

  /** `t` occurs in `s` starting at index `p`. */
  predicate OccursAt(s: string, t: string, p: nat)
  {
    p + |t| <= |s| && s[p..p + |t|] == t
  }

  /** `t` occurs somewhere in `s` (Python's `t in s`). */
  ghost predicate Contains(s: string, t: string)
  {
    exists p: nat :: OccursAt(s, t, p)
  }

  /** An occurrence in a suffix of `s` is an occurrence in `s`, shifted by where the suffix starts. */
  lemma OccursInSuffix(s: string, lo: nat, t: string, p: nat)
    requires lo <= |s|
    ensures OccursAt(s[lo..], t, p) <==> OccursAt(s, t, lo + p)
  {
    if lo + p + |t| <= |s| {
      assert s[lo..][p..p + |t|] == s[lo + p..lo + p + |t|];
    }
  }

  /** An occurrence that ends inside a prefix of `s` is an occurrence in that prefix. */
  lemma OccursInPrefix(s: string, hi: nat, t: string, p: nat)
    requires hi <= |s| && p + |t| <= hi
    ensures OccursAt(s[..hi], t, p) <==> OccursAt(s, t, p)
  {
    assert s[..hi][p..p + |t|] == s[p..p + |t|];
  }

  /** Index of the first occurrence of `t` in `s` at or after `lo` (Python's `s.find(t, lo)`). */
  function FindFrom(s: string, t: string, lo: nat): (r: Option<nat>)
    ensures r.Some? ==> lo <= r.value && OccursAt(s, t, r.value)
    ensures r.Some? ==> forall k: nat :: lo <= k < r.value ==> !OccursAt(s, t, k)
    ensures r.None? ==> forall k: nat :: lo <= k ==> !OccursAt(s, t, k)
    decreases |s| - lo
  {
    if lo + |t| > |s| then None
    else if OccursAt(s, t, lo) then Some(lo)
    else FindFrom(s, t, lo + 1)
  }

  /** Index of the first occurrence of `t` in `s` (Python's `s.find(t)`). */
  function FirstIndexOf(s: string, t: string): (r: Option<nat>)
    ensures r.Some? ==> OccursAt(s, t, r.value)
    ensures r.Some? ==> forall k: nat :: k < r.value ==> !OccursAt(s, t, k)
    ensures r.None? <==> !Contains(s, t)
  {
    FindFrom(s, t, 0)
  }

  /** The last occurrence of `t` in `s` whose index lies in `[lo, hi]`. */
  function LastInRange(s: string, t: string, lo: nat, hi: int): (r: Option<nat>)
    ensures r.Some? ==> lo <= r.value <= hi && OccursAt(s, t, r.value)
    ensures r.Some? ==> forall k: nat :: r.value < k <= hi ==> !OccursAt(s, t, k)
    ensures r.None? ==> forall k: nat :: lo <= k <= hi ==> !OccursAt(s, t, k)
    decreases hi - lo
  {
    if hi < lo then None
    else if OccursAt(s, t, hi) then Some(hi)
    else LastInRange(s, t, lo, hi - 1)
  }

  /** Index of the last occurrence of `t` in `s` that begins at or after `lo` (Python's `s.rfind(t, lo)`). */
  function LastIndexOfFrom(s: string, t: string, lo: nat): (r: Option<nat>)
    ensures r.Some? ==> lo <= r.value && OccursAt(s, t, r.value)
    ensures r.Some? ==> forall k: nat :: r.value < k ==> !OccursAt(s, t, k)
    ensures r.None? ==> forall k: nat :: lo <= k ==> !OccursAt(s, t, k)
  {
    LastInRange(s, t, lo, |s| - |t|)
  }

  /** Python's `s.endswith(suffix)`. */
  predicate EndsWith(s: string, suffix: string)
  {
    |suffix| <= |s| && s[|s| - |suffix|..] == suffix
  }

  /**
   Python's `s.replace(pat, rep)` for a non-empty `pat`: scanning left to right,
   every occurrence of `pat` that does not overlap an occurrence already
   replaced is replaced by `rep`.
   */
  function ReplaceAll(s: string, pat: string, rep: string): (r: string)
    requires pat != []
    decreases |s|
  {
    if OccursAt(s, pat, 0) then rep + ReplaceAll(s[|pat|..], pat, rep)
    else if s == [] then []
    else [s[0]] + ReplaceAll(s[1..], pat, rep)
  }

  /** A prefix in which no occurrence of `pat` begins is copied unchanged by `ReplaceAll`. */
  lemma {:induction false} ReplaceAllSkip(s: string, k: nat, pat: string, rep: string)
    requires pat != [] && k <= |s|
    requires forall p: nat :: p < k ==> !OccursAt(s, pat, p)
    ensures ReplaceAll(s, pat, rep) == s[..k] + ReplaceAll(s[k..], pat, rep)
    decreases k
  {
    if k > 0 {
      assert !OccursAt(s, pat, 0);
      assert ReplaceAll(s, pat, rep) == [s[0]] + ReplaceAll(s[1..], pat, rep);
      var tail := s[1..];
      forall p: nat | p < k - 1
        ensures !OccursAt(tail, pat, p)
      {
        OccursInSuffix(s, 1, pat, p);
      }
      ReplaceAllSkip(tail, k - 1, pat, rep);
      assert tail[k - 1..] == s[k..];
      assert [s[0]] + tail[..k - 1] == s[..k];
    }
  }

  /** Text that does not contain `pat` is left as it is by `ReplaceAll`. */
  lemma ReplaceAllAbsent(s: string, pat: string, rep: string)
    requires pat != [] && !Contains(s, pat)
    ensures ReplaceAll(s, pat, rep) == s
  {
    ReplaceAllSkip(s, |s|, pat, rep);
    assert s[..|s|] == s;
  }

  /** An occurrence of `pat` at the front is replaced, and the scan resumes right after it. */
  lemma ReplaceAllFront(s: string, pat: string, rep: string)
    requires pat != []
    ensures ReplaceAll(pat + s, pat, rep) == rep + ReplaceAll(s, pat, rep)
  {
    assert (pat + s)[..|pat|] == pat;
    assert (pat + s)[|pat|..] == s;
  }

  /** Python's `sep.join(parts)`. */
  function Join(parts: seq<string>, sep: string): string
    decreases |parts|
  {
    if parts == [] then []
    else if |parts| == 1 then parts[0]
    else parts[0] + sep + Join(parts[1..], sep)
  }

  /** Python's `s.lstrip(c)` for a single character `c`: the longest suffix not starting with `c`. */
  function TrimStart(s: string, c: char): (r: string)
    ensures |r| <= |s| && r == s[|s| - |r|..]
    ensures forall k :: 0 <= k < |s| - |r| ==> s[k] == c
    ensures r == [] || r[0] != c
    decreases |s|
  {
    if s != [] && s[0] == c then TrimStart(s[1..], c) else s
  }

  /** Python's `s.rstrip(c)` for a single character `c`: the longest prefix not ending with `c`. */
  function TrimEnd(s: string, c: char): (r: string)
    ensures |r| <= |s| && r == s[..|r|]
    ensures forall k :: |r| <= k < |s| ==> s[k] == c
    ensures r == [] || r[|r| - 1] != c
    decreases |s|
  {
    if s != [] && s[|s| - 1] == c then TrimEnd(s[..|s| - 1], c) else s
  }

  /** `s[p..q]` is what remains of `s` once every leading and trailing `c` is removed. */
  predicate IsStripped(s: string, c: char, p: nat, q: nat)
  {
    && p <= q <= |s|
    && (forall k :: 0 <= k < p ==> s[k] == c)
    && (forall k :: q <= k < |s| ==> s[k] == c)
    && (p == q || (s[p] != c && s[q - 1] != c))
  }

  /** Python's `s.strip(c)` for a single character `c`. */
  function Strip(s: string, c: char): (r: string)
    ensures exists p: nat, q: nat :: IsStripped(s, c, p, q) && r == s[p..q]
  {
    var left := TrimStart(s, c);
    var p := |s| - |left|;
    var r := TrimEnd(left, c);
    StrippedFromTrims(s, c, left, p, r);
    r
  }

  /** A suffix `left` of `s` after a run of `c`, and a prefix `r` of `left` before a run of `c`, form a stripped split of `s`. */
  lemma StrippedFromTrims(s: string, c: char, left: string, p: nat, r: string)
    requires p <= |s| && left == s[p..] && forall k :: 0 <= k < p ==> s[k] == c
    requires |r| <= |left| && r == left[..|r|] && forall k :: |r| <= k < |left| ==> left[k] == c
    requires r == [] || (r[0] != c && r[|r| - 1] != c)
    ensures IsStripped(s, c, p, p + |r|) && r == s[p..p + |r|]
  {
    var q := p + |r|;
    assert r == s[p..q];
    forall k | q <= k < |s|
      ensures s[k] == c
    {
      assert s[k] == left[k - p];
    }
    if p < q {
      assert s[p] == r[0] && s[q - 1] == r[|r| - 1];
    }
  }

  /** Two splits of `s` into stripped edges and a core have the same core. */
  lemma StrippedCoreUnique(s: string, c: char, p: nat, q: nat, p': nat, q': nat)
    requires IsStripped(s, c, p, q) && IsStripped(s, c, p', q')
    ensures s[p..q] == s[p'..q']
  {
    if p == q {
      // every character of s is c, so the other core is empty too
      assert forall k :: 0 <= k < |s| ==> s[k] == c;
      assert p' == q';
    } else {
      // s[p] and s[q - 1] are not c, so neither lies in a stripped edge of the other split
      assert p' <= p && p <= p';
      assert q' == q;
    }
  }

  /** What `strip` leaves is determined uniquely: any split of `s` into stripped edges and a core gives that core. */
  lemma StripUnique(s: string, c: char, p: nat, q: nat)
    requires IsStripped(s, c, p, q)
    ensures Strip(s, c) == s[p..q]
  {
    var p': nat, q': nat :| IsStripped(s, c, p', q') && Strip(s, c) == s[p'..q'];
    StrippedCoreUnique(s, c, p, q, p', q');
  }

  /** Stripping twice is stripping once. */
  lemma StripIdempotent(s: string, c: char)
    ensures Strip(Strip(s, c), c) == Strip(s, c)
  {
    var r := Strip(s, c);
    var p: nat, q: nat :| IsStripped(s, c, p, q) && r == s[p..q];
    assert IsStripped(r, c, 0, |r|);
    StripUnique(r, c, 0, |r|);
    assert r[0..|r|] == r;
  }

  /** Python's `str.lower` on one ASCII character: `A`..`Z` become `a`..`z`, everything else is kept. */
  function LowerChar(c: char): char
  {
    if 'A' <= c <= 'Z' then (c as int + 32) as char else c
  }

  /**
   Python's `str.lower` on ASCII text: the result has the input's length,
   holds no capital letter, and keeps every character that is not one.
   */
  function Lower(s: string): (r: string)
    ensures |r| == |s|
    ensures forall i :: 0 <= i < |r| ==> !('A' <= r[i] <= 'Z')
    ensures forall i :: 0 <= i < |s| && !('A' <= s[i] <= 'Z') ==> r[i] == s[i]
  {
    seq(|s|, i requires 0 <= i < |s| => LowerChar(s[i]))
  }

  /** Lower-casing text that is already lower case changes nothing. */
  lemma LowerIdempotent(s: string)
    ensures Lower(Lower(s)) == Lower(s)
  {
    var r := Lower(s);
    assert forall i :: 0 <= i < |r| ==> Lower(r)[i] == r[i];
  }
}
