/** The search helpers of ExtLibs/UsrString/userdefine.c:20-67. Pointers into a text are indices into it. */
module TextSearch {
  import opened Options

  /** pat stands at i, wholly between lo and hi. */
  predicate OccursIn(s: string, lo: int, hi: int, pat: string, i: int) {
    0 <= lo <= i && i + |pat| <= hi <= |s| && s[i..i + |pat|] == pat
  }

  /** The characters that the search compares are there; an empty pattern, which is its NUL, must not be met. */
  predicate Readable(s: string, lo: nat, hi: nat, pat: string) {
    lo <= |s| && hi <= |s| && (pat == "" && lo < hi ==> hi < |s| && forall i :: lo <= i <= hi ==> s[i] != '\0')
  }

  /** userdefine.c:20-43: the first occurrence wholly inside the range; an empty pattern is never found. */
  method StrBetween(s: string, lo: nat, hi: nat, pat: string) returns (r: Option<nat>)
    requires Readable(s, lo, hi, pat)
    ensures pat == "" ==> r.None?
    ensures r.Some? ==> OccursIn(s, lo, hi, pat, r.value) && forall k :: k < r.value ==> !OccursIn(s, lo, hi, pat, k)
    ensures pat != "" && r.None? ==> forall k :: !OccursIn(s, lo, hi, pat, k)
  {
    if |pat| > hi - lo || hi - lo <= 0 {
      return None;
    }
    var i := 0;
    while i + |pat| <= hi - lo
      invariant 0 <= i && (pat != "" ==> forall k :: k < lo + i ==> !OccursIn(s, lo, hi, pat, k))
    {
      var j := 0;
      while (if j < |pat| then pat[j] else '\0') == s[lo + i + j]
        invariant 0 <= j <= |pat| && (pat != "" ==> j < |pat|) && s[lo + i..lo + i + j] == pat[..j]
        decreases |pat| - j
      {
        assert s[lo + i..lo + i + j + 1] == s[lo + i..lo + i + j] + [s[lo + i + j]];
        assert pat[..j + 1] == pat[..j] + [pat[j]];
        if j == |pat| - 1 {
          assert pat[..j + 1] == pat;
          return Some(lo + i);
        }
        j := j + 1;
      }
      assert pat != "" ==> s[lo + i..lo + i + |pat|][j] != pat[j];
      i := i + 1;
    }
    return None;
  }

  /** Occurrences in order, none of which overlaps the one before. */
  predicate Family(s: string, lo: int, hi: int, pat: string, at: seq<int>) {
    && (forall i :: 0 <= i < |at| ==> OccursIn(s, lo, hi, pat, at[i]))
    && (forall i, j :: 0 <= i < j < |at| ==> at[i] + |pat| <= at[j])
  }

  /** Every family has at most k occurrences before position pf. */
  ghost predicate AheadOfAll(s: string, lo: int, hi: int, pat: string, k: nat, pf: int) {
    forall at {:trigger Family(s, lo, hi, pat, at)} :: Family(s, lo, hi, pat, at) && |at| > k ==> at[k] >= pf
  }

  lemma StaysAhead(s: string, lo: int, hi: int, pat: string, k: nat, pf: int, r: int)
    requires AheadOfAll(s, lo, hi, pat, k, pf)
    requires forall i :: i < r ==> !OccursIn(s, pf, hi, pat, i)
    requires 0 <= lo <= pf
    ensures AheadOfAll(s, lo, hi, pat, k + 1, r + |pat|)
  {
    forall at | Family(s, lo, hi, pat, at) && |at| > k + 1
      ensures at[k + 1] >= r + |pat|
    {
      assert OccursIn(s, lo, hi, pat, at[k]) && at[k] >= pf;
      assert OccursIn(s, pf, hi, pat, at[k]);
      assert at[k] + |pat| <= at[k + 1];
    }
  }

  lemma NoMore(s: string, lo: int, hi: int, pat: string, k: nat, pf: int, at: seq<int>)
    requires AheadOfAll(s, lo, hi, pat, k, pf) && 0 <= lo <= pf
    requires forall i :: !OccursIn(s, pf, hi, pat, i)
    requires Family(s, lo, hi, pat, at)
    ensures |at| <= k
  {
    if |at| > k {
      assert OccursIn(s, pf, hi, pat, at[k]);
    }
  }

  lemma NoneLarger(s: string, lo: int, hi: int, pat: string, k: nat, pf: int)
    requires AheadOfAll(s, lo, hi, pat, k, pf) && 0 <= lo <= pf
    requires forall i :: !OccursIn(s, pf, hi, pat, i)
    ensures forall at {:trigger Family(s, lo, hi, pat, at)} :: Family(s, lo, hi, pat, at) ==> |at| <= k
  {
    forall at | Family(s, lo, hi, pat, at)
      ensures |at| <= k
    {
      NoMore(s, lo, hi, pat, k, pf, at);
    }
  }

  /** userdefine.c:55-67: for a pattern that is not empty, no selection of disjoint occurrences is larger than the count, and one is as large. */
  method StrNumBetween(s: string, lo: nat, hi: nat, pat: string) returns (count: nat, ghost found: seq<int>)
    requires Readable(s, lo, hi, pat)
    ensures pat == "" ==> count == 0
    ensures Family(s, lo, hi, pat, found) && |found| == count
    ensures pat != "" ==> forall at {:trigger Family(s, lo, hi, pat, at)} :: Family(s, lo, hi, pat, at) ==> |at| <= count
  {
    var pf := lo;
    count, found := 0, [];
    CountingStart(s, lo, hi, pat);
    while true
      invariant lo <= pf <= |s| && Counting(s, lo, hi, pat, found, count, pf)
      invariant pat == "" ==> pf == lo && count == 0
      decreases |s| - pf
    {
      var r := StrBetween(s, pf, hi, pat);
      if r.None? {
        CountingEnd(s, lo, hi, pat, found, count, pf);
        return;
      }
      found := Next(s, lo, hi, pat, count, found, pf, r.value);
      count, pf := count + 1, r.value + |pat|;
    }
  }

  /** The selection so far, of which the last occurrence ends at pf, and which stays ahead of all others. */
  ghost predicate Counting(s: string, lo: int, hi: int, pat: string, found: seq<int>, k: nat, pf: int) {
    && Family(s, lo, hi, pat, found) && |found| == k && AheadOfAll(s, lo, hi, pat, k, pf) && 0 <= lo <= pf
    && (found != [] ==> pf == found[|found| - 1] + |pat|)
  }

  lemma CountingStart(s: string, lo: nat, hi: int, pat: string)
    ensures Counting(s, lo, hi, pat, [], 0, lo)
  {
  }

  lemma CountingEnd(s: string, lo: int, hi: int, pat: string, found: seq<int>, k: nat, pf: int)
    requires Counting(s, lo, hi, pat, found, k, pf)
    requires pat != "" ==> forall i :: !OccursIn(s, pf, hi, pat, i)
    ensures Family(s, lo, hi, pat, found) && |found| == k
    ensures pat != "" ==> forall at {:trigger Family(s, lo, hi, pat, at)} :: Family(s, lo, hi, pat, at) ==> |at| <= k
  {
    if pat != "" {
      NoneLarger(s, lo, hi, pat, k, pf);
    }
  }

  /** The occurrence found joins the selection, which stays ahead of all others. */
  lemma Next(s: string, lo: int, hi: int, pat: string, k: nat, found: seq<int>, pf: int, r: int) returns (found': seq<int>)
    requires Counting(s, lo, hi, pat, found, k, pf)
    requires OccursIn(s, pf, hi, pat, r) && (forall i :: i < r ==> !OccursIn(s, pf, hi, pat, i))
    ensures Counting(s, lo, hi, pat, found', k + 1, r + |pat|)
  {
    StaysAhead(s, lo, hi, pat, k, pf, r);
    Grow(s, lo, hi, pat, found, pf, r);
    found' := found + [r];
  }

  lemma Grow(s: string, lo: int, hi: int, pat: string, found: seq<int>, pf: int, r: int)
    requires Family(s, lo, hi, pat, found) && OccursIn(s, pf, hi, pat, r) && 0 <= lo <= pf
    requires found != [] ==> pf == found[|found| - 1] + |pat|
    ensures Family(s, lo, hi, pat, found + [r])
  {
    var all := found + [r];
    forall i, j | 0 <= i < j < |all|
      ensures all[i] + |pat| <= all[j]
    {
      if j == |found| {
        assert i < |found| - 1 ==> found[i] + |pat| <= found[|found| - 1];
      }
    }
  }
}
