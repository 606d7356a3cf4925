/**
  The token utilities: wcommon_lcp, the length of the longest common
  prefix of two token sequences, and wcommon_lcs, the length of the
  longest run of tokens that occurs, contiguous, in both. The source's
  comments call the second a "subsequence"; what it computes, with
  lengths reset to 0 on a mismatch, is the longest common substring.
*/
module WcommonTokens {
  /** A llama_token. */
  type Token = int

  /** wcommon_lcp: the largest `r` with `a[..r] == b[..r]`. */
  method Lcp(a: seq<Token>, b: seq<Token>) returns (r: nat)
    ensures r <= |a| && r <= |b| && a[..r] == b[..r]
    ensures forall i :: r < i <= |a| && i <= |b| ==> a[..i] != b[..i]
  {
    r := 0;
    while r < |a| && r < |b| && a[r] == b[r]
      invariant r <= |a| && r <= |b| && a[..r] == b[..r]
    {
      r := r + 1;
    }
    forall i | r < i <= |a| && i <= |b|
      ensures a[..i] != b[..i]
    {
      assert a[..i][r] == a[r] && b[..i][r] == b[r];
    }
  }

  /**
    The length of the longest common suffix of `a[..i]` and `b[..j]`: the
    entry (i, j) of the dynamic-programming table.
  */
  function Run(a: seq<Token>, b: seq<Token>, i: nat, j: nat): nat
    requires i <= |a| && j <= |b|
  {
    if i == 0 || j == 0 || a[i - 1] != b[j - 1] then 0 else Run(a, b, i - 1, j - 1) + 1
  }

  /** `r` is the largest entry of the table. */
  ghost predicate LongestRun(a: seq<Token>, b: seq<Token>, r: nat)
  {
    (forall i, j :: 0 <= i <= |a| && 0 <= j <= |b| ==> Run(a, b, i, j) <= r)
    && exists i, j :: 0 <= i <= |a| && 0 <= j <= |b| && Run(a, b, i, j) == r
  }

  /** wcommon_lcs: the table is filled row by row, keeping only the previous row. */
  method Lcs(a: seq<Token>, b: seq<Token>) returns (maxLength: nat)
    ensures LongestRun(a, b, maxLength)
    ensures a == [] || b == [] ==> maxLength == 0
  {
    if a == [] || b == [] {
      assert Run(a, b, 0, 0) == 0;
      forall i, j | 0 <= i <= |a| && 0 <= j <= |b|
        ensures Run(a, b, i, j) <= 0
      {
      }
      return 0;
    }
    maxLength := 0;
    var prev: seq<nat> := seq(|b| + 1, _ => 0);
    var curr: seq<nat> := seq(|b| + 1, _ => 0);
    assert Run(a, b, 0, 0) == 0;
    var i := 1;
    while i <= |a|
      invariant 1 <= i <= |a| + 1
      invariant |prev| == |b| + 1 && curr == prev
      invariant forall j :: 0 <= j <= |b| ==> prev[j] == Run(a, b, i - 1, j)
      invariant forall i', j :: 0 <= i' < i && 0 <= j <= |b| ==> Run(a, b, i', j) <= maxLength
      invariant exists i', j :: 0 <= i' < i && 0 <= j <= |b| && Run(a, b, i', j) == maxLength
    {
      ghost var before := maxLength;
      curr, maxLength := FillRow(a, b, i, prev, curr, maxLength);
      if maxLength != before {
        var j :| 0 <= j <= |b| && Run(a, b, i, j) == maxLength;
        assert 0 <= i < i + 1 && Run(a, b, i, j) == maxLength;
      }
      prev := curr;
      i := i + 1;
    }
  }

  /**
    One pass of the inner loop of wcommon_lcs: row `i` of the table is
    written over `curr`, from the previous row, and the maximum is raised
    to the row's largest entry.
  */
  method FillRow(a: seq<Token>, b: seq<Token>, i: nat, prev: seq<nat>, curr0: seq<nat>, max0: nat)
    returns (curr: seq<nat>, maxLength: nat)
    requires 1 <= i <= |a| && |prev| == |b| + 1 && |curr0| == |b| + 1 && curr0[0] == 0
    requires forall j :: 0 <= j <= |b| ==> prev[j] == Run(a, b, i - 1, j)
    ensures |curr| == |b| + 1 && curr[0] == 0
    ensures forall j :: 0 <= j <= |b| ==> curr[j] == Run(a, b, i, j)
    ensures max0 <= maxLength
    ensures forall j :: 0 <= j <= |b| ==> Run(a, b, i, j) <= maxLength
    ensures maxLength == max0 || exists j :: 0 <= j <= |b| && Run(a, b, i, j) == maxLength
  {
    curr, maxLength := curr0, max0;
    var j := 1;
    while j <= |b|
      invariant 1 <= j <= |b| + 1 && |curr| == |b| + 1 && curr[0] == 0
      invariant forall j' :: 0 <= j' < j ==> curr[j'] == Run(a, b, i, j')
      invariant max0 <= maxLength
      invariant forall j' :: 0 <= j' < j ==> Run(a, b, i, j') <= maxLength
      invariant maxLength == max0 || exists j' :: 0 <= j' < j && Run(a, b, i, j') == maxLength
    {
      if a[i - 1] == b[j - 1] {
        if i == 1 || j == 1 {
          curr := curr[j := 1];
        } else {
          curr := curr[j := prev[j - 1] + 1];
        }
        if curr[j] > maxLength {
          maxLength := curr[j];
        }
      } else {
        curr := curr[j := 0];
      }
      j := j + 1;
    }
  }

  // ---------------------------------------------------------------------
  // What the table means

  /** An entry is a common run: the last Run(i, j) tokens before i and j agree. */
  lemma {:induction false} RunIsCommon(a: seq<Token>, b: seq<Token>, i: nat, j: nat)
    requires i <= |a| && j <= |b|
    ensures var k := Run(a, b, i, j); k <= i && k <= j && a[i - k..i] == b[j - k..j]
  {
    var k := Run(a, b, i, j);
    if k > 0 {
      RunIsCommon(a, b, i - 1, j - 1);
      assert a[i - k..i] == a[i - k..i - 1] + [a[i - 1]];
      assert b[j - k..j] == b[j - k..j - 1] + [b[j - 1]];
    }
  }

  /** Every common run ending at i and j is at most Run(i, j) long. */
  lemma {:induction false} RunIsLongest(a: seq<Token>, b: seq<Token>, i: nat, j: nat, k: nat)
    requires k <= i <= |a| && k <= j <= |b| && a[i - k..i] == b[j - k..j]
    ensures k <= Run(a, b, i, j)
  {
    if k > 0 {
      assert a[i - 1] == a[i - k..i][k - 1] == b[j - k..j][k - 1] == b[j - 1];
      assert a[i - k..i - 1] == a[i - k..i][..k - 1];
      assert b[j - k..j - 1] == b[j - k..j][..k - 1];
      RunIsLongest(a, b, i - 1, j - 1, k - 1);
    }
  }

  /** The `k` tokens from `p` in `a` are the `k` tokens from `q` in `b`. */
  predicate CommonAt(a: seq<Token>, b: seq<Token>, p: nat, q: nat, k: nat)
  {
    p + k <= |a| && q + k <= |b| && a[p..p + k] == b[q..q + k]
  }

  /** No run of tokens common to both sequences is longer than the result. */
  lemma CommonRunBound(a: seq<Token>, b: seq<Token>, r: nat, p: nat, q: nat, k: nat)
    requires LongestRun(a, b, r)
    requires CommonAt(a, b, p, q, k)
    ensures k <= r
  {
    RunIsLongest(a, b, p + k, q + k, k);
  }

  /** Some run of `r` tokens occurs in both sequences. */
  lemma CommonRunWitness(a: seq<Token>, b: seq<Token>, r: nat)
    requires LongestRun(a, b, r)
    ensures r <= |a| && r <= |b|
    ensures exists p: nat, q: nat :: CommonAt(a, b, p, q, r)
  {
    var i, j :| 0 <= i <= |a| && 0 <= j <= |b| && Run(a, b, i, j) == r;
    RunIsCommon(a, b, i, j);
    assert CommonAt(a, b, i - r, j - r, r);
  }

  /** The common prefix is a common run, so it is never longer than the result of wcommon_lcs. */
  lemma PrefixWithinRun(a: seq<Token>, b: seq<Token>, c: nat, r: nat)
    requires c <= |a| && c <= |b| && a[..c] == b[..c] && LongestRun(a, b, r)
    ensures c <= r
  {
    assert CommonAt(a, b, 0, 0, c) by {
      assert a[0..0 + c] == a[..c] && b[0..0 + c] == b[..c];
    }
    CommonRunBound(a, b, r, 0, 0, c);
  }
}
