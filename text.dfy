/** Character classes and searches over `std::string`, modelled as `seq<char>`. */
module Text {

  datatype Option<+T> = None | Some(value: T)

  /** `isspace` in the "C" locale: space, tab, newline, vertical tab, form feed, carriage return. */
  predicate IsSpace(c: char)
    ensures IsSpace(c) ==> c == ' ' || '\t' <= c <= '\r'
  {
    c == ' ' || c == '\t' || c == '\n' || c == '\U{0B}' || c == '\U{0C}' || c == '\r'
  }

  /** `s[i]` on a `std::string`: reading at or past `size()` yields the terminating NUL. */
  function CharAt(s: string, i: nat): (c: char)
    ensures i < |s| ==> c == s[i]
    ensures i >= |s| ==> c == '\0'
  {
    if i < |s| then s[i] else '\0'
  }

  predicate StartsWith(s: string, prefix: string)
  {
    |prefix| <= |s| && s[..|prefix|] == prefix
  }

  /** `pat` occurs in `s` starting at position `p`. */
  predicate OccursAt(s: string, pat: string, p: nat)
  {
    p + |pat| <= |s| && s[p..p + |pat|] == pat
  }

  /** `std::string::find`: the first position at which `pat` occurs, `None` for `npos`. */
  function Find(s: string, pat: string): (r: Option<nat>)
    ensures r.Some? ==> OccursAt(s, pat, r.value)
    ensures r.Some? ==> forall q :: 0 <= q < r.value ==> !OccursAt(s, pat, q)
    ensures r.None? ==> forall q :: 0 <= q ==> !OccursAt(s, pat, q)
  {
    FindFrom(s, pat, 0)
  }

  function FindFrom(s: string, pat: string, p: nat): (r: Option<nat>)
    requires forall q :: 0 <= q < p ==> !OccursAt(s, pat, q)
    ensures r.Some? ==> p <= r.value && OccursAt(s, pat, r.value)
    ensures r.Some? ==> forall q :: 0 <= q < r.value ==> !OccursAt(s, pat, q)
    ensures r.None? ==> forall q :: 0 <= q ==> !OccursAt(s, pat, q)
    decreases |s| - p
  {
    if p + |pat| > |s| then None
    else if s[p..p + |pat|] == pat then Some(p)
    else FindFrom(s, pat, p + 1)
  }

  /** The empty pattern is found at position 0 of every string, the empty one included. */
  lemma FindEmpty(s: string)
    ensures Find(s, "") == Some(0)
  {
  }

  /** The first index of `c` in `s`, or `|s|` when `c` does not occur. */
  function IndexOfChar(s: string, c: char): (k: nat)
    ensures k <= |s|
    ensures forall m :: 0 <= m < k ==> s[m] != c
    ensures k < |s| ==> s[k] == c
  {
    IndexOfCharFrom(s, c, 0)
  }

  /** The first index at or after `i` holding `c`, or `|s|`. */
  function IndexOfCharFrom(s: string, c: char, i: nat): (k: nat)
    requires i <= |s|
    ensures i <= k <= |s|
    ensures forall m :: i <= m < k ==> s[m] != c
    ensures k < |s| ==> s[k] == c
    decreases |s| - i
  {
    if i == |s| || s[i] == c then i else IndexOfCharFrom(s, c, i + 1)
  }

  /** The first index at or after `i` that is whitespace, or `|s|`. */
  function SpaceFrom(s: string, i: nat): (k: nat)
    requires i <= |s|
    ensures i <= k <= |s|
    ensures forall m :: i <= m < k ==> !IsSpace(s[m])
    ensures k < |s| ==> IsSpace(s[k])
    decreases |s| - i
  {
    if i < |s| && !IsSpace(s[i]) then SpaceFrom(s, i + 1) else i
  }

  /** The first index at or after `i` that is not whitespace, or `|s|`. */
  function SkipSpace(s: string, i: nat): (k: nat)
    requires i <= |s|
    ensures i <= k <= |s|
    ensures forall m :: i <= m < k ==> IsSpace(s[m])
    ensures k < |s| ==> !IsSpace(s[k])
    decreases |s| - i
  {
    if i < |s| && IsSpace(s[i]) then SkipSpace(s, i + 1) else i
  }

  /** Skipping whitespace from anywhere inside a run of whitespace ends at the same place. */
  lemma SkipSpaceInside(s: string, i: nat, m: nat)
    requires i <= m <= |s|
    requires forall x :: i <= x < m ==> IsSpace(s[x])
    ensures SkipSpace(s, m) == SkipSpace(s, i)
    decreases m - i
  {
    if i < m {
      SkipSpaceInside(s, i + 1, m);
    }
  }

  /** A slice of a slice is a slice of the original. */
  lemma SliceOfSlice(s: string, a: nat, b: nat, c: nat, d: nat)
    requires a <= b <= |s| && c <= d <= b - a
    ensures s[a..b][c..d] == s[a + c..a + d]
  {
    var t := s[a..b][c..d];
    assert |t| == d - c;
    forall x | 0 <= x < d - c
      ensures t[x] == s[a + c + x]
    {
    }
  }

  /** The two sides of position `q` of the slice `s[a..e]`, which is position `r` of the slice,
      as slices of `s`. */
  lemma SplitAt(s: string, a: nat, q: nat, e: nat, r: nat)
    requires a <= q <= e <= |s| && r == q - a
    ensures s[a..e][..r] == s[a..q]
    ensures q < e ==> s[a..e][r + 1..] == s[q + 1..e]
  {
    SliceOfSlice(s, a, e, 0, r);
    if q < e {
      SliceOfSlice(s, a, e, r + 1, e - a);
    }
  }

  /** The end of a word is the same seen from any position inside it. */
  lemma SpaceFromInside(s: string, i: nat, m: nat)
    requires i <= m <= |s|
    requires forall x :: i <= x < m ==> !IsSpace(s[x])
    ensures SpaceFrom(s, m) == SpaceFrom(s, i)
    decreases m - i
  {
    if i < m {
      SpaceFromInside(s, i + 1, m);
    }
  }
}
