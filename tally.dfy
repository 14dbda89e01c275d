/** Counting active flags, the rank query's reference definition, the random
    probe sequence and the block arithmetic behind `milestones`. */
module Tally {

  /** SAMPLE_PARAM: random trials `find` makes before using the block index. */
  const SAMPLE_PARAM: nat := 10
  /** MILESTONE_PARAM: the intended number of blocks. */
  const MILESTONE_PARAM: nat := 100
  /** The least block size `initiate` accepts. */
  const MIN_STEP: nat := 100

  /** Number of active flags among s[0..n). */
  function Count(s: seq<bool>, n: nat): (c: nat)
    requires n <= |s|
    ensures c <= n
  {
    if n == 0 then 0 else Count(s, n - 1) + (if s[n - 1] then 1 else 0)
  }

  lemma {:induction false} CountMono(s: seq<bool>, m: nat, n: nat)
    requires m <= n <= |s|
    ensures Count(s, m) <= Count(s, n)
    decreases n
  {
    if m < n {
      CountMono(s, m, n - 1);
    }
  }

  /** Changing flag i to b moves every prefix count that covers i by the
      difference, and leaves the shorter prefixes alone. */
  lemma {:induction false} CountUpdate(s: seq<bool>, i: nat, b: bool, n: nat)
    requires i < |s| && n <= |s|
    ensures Count(s[i := b], n) + (if n > i && s[i] then 1 else 0)
         == Count(s, n) + (if n > i && b then 1 else 0)
    decreases n
  {
    if n > 0 {
      CountUpdate(s, i, b, n - 1);
    }
  }

  /** No flag in a prefix is set exactly when that prefix counts zero. */
  lemma {:induction false} CountZero(s: seq<bool>, n: nat)
    requires n <= |s|
    ensures Count(s, n) == 0 <==> forall k :: 0 <= k < n ==> !s[k]
    decreases n
  {
    if n > 0 {
      CountZero(s, n - 1);
    }
  }

  /** A prefix of set flags counts its own length. */
  lemma {:induction false} CountFull(s: seq<bool>, n: nat)
    requires n <= |s| && forall k :: 0 <= k < |s| ==> s[k]
    ensures Count(s, n) == n
    decreases n
  {
    if n > 0 {
      CountFull(s, n - 1);
    }
  }

  /** When every flag is set, each prefix counts its own length. */
  lemma CountAll(s: seq<bool>)
    requires forall k :: 0 <= k < |s| ==> s[k]
    ensures forall n :: 0 <= n <= |s| ==> Count(s, n) == n
  {
    forall n | 0 <= n <= |s|
      ensures Count(s, n) == n
    {
      CountFull(s, n);
    }
  }

  /** The naive rank query: walk from index k counting set flags and stop at
      the (r+1)-th one; |s| when there are not that many. */
  function ScanFrom(s: seq<bool>, r: nat, k: nat): (p: nat)
    requires k <= |s|
    decreases |s| - k
  {
    if k == |s| then |s|
    else if s[k] then (if r == 0 then k else ScanFrom(s, r - 1, k + 1))
    else ScanFrom(s, r, k + 1)
  }

  /** The r-th set flag of s, counting from index 0. */
  function Scan(s: seq<bool>, r: nat): nat
  {
    ScanFrom(s, r, 0)
  }

  lemma {:induction false} ScanFromFinds(s: seq<bool>, r: nat, k: nat)
    requires k <= |s| && Count(s, k) + r < Count(s, |s|)
    ensures k <= ScanFrom(s, r, k) < |s|
    ensures s[ScanFrom(s, r, k)] && Count(s, ScanFrom(s, r, k)) == Count(s, k) + r
    decreases |s| - k
  {
    if k == |s| {
    } else if s[k] {
      if r > 0 {
        ScanFromFinds(s, r - 1, k + 1);
      }
    } else {
      ScanFromFinds(s, r, k + 1);
    }
  }

  /** When there are more than r set flags, the scan lands on a set flag with
      exactly r set flags before it. */
  lemma ScanFinds(s: seq<bool>, r: nat)
    requires r < Count(s, |s|)
    ensures Scan(s, r) < |s| && s[Scan(s, r)] && Count(s, Scan(s, r)) == r
  {
    ScanFromFinds(s, r, 0);
  }

  /** A set flag with exactly r set flags before it is the scan's answer:
      the rank query has one answer. */
  lemma ScanUnique(s: seq<bool>, r: nat, p: nat)
    requires p < |s| && s[p] && Count(s, p) == r
    ensures p == Scan(s, r)
  {
    CountMono(s, p + 1, |s|);
    ScanFinds(s, r);
    var q := Scan(s, r);
    if q < p {
      CountMono(s, q + 1, p);
    } else if p < q {
      CountMono(s, p + 1, q);
    }
  }

  /** Position of the first random probe that hits a set flag of s, or |probes|. */
  function FirstHit(s: seq<bool>, probes: seq<nat>): (t: nat)
    requires |s| > 0
    ensures t <= |probes|
    ensures t < |probes| ==> s[probes[t] % |s|]
    ensures forall u :: 0 <= u < t ==> !s[probes[u] % |s|]
  {
    if probes == [] then 0
    else if s[probes[0] % |s|] then 0
    else 1 + FirstHit(s, probes[1..])
  }

  /** Block size of `initiate`: a hundredth of the clauses, at least MIN_STEP. */
  function StepFor(nc: nat): (st: nat)
    ensures st >= MIN_STEP && st >= nc / MILESTONE_PARAM
    ensures st == MIN_STEP || st == nc / MILESTONE_PARAM
  {
    if nc / MILESTONE_PARAM < MIN_STEP then MIN_STEP else nc / MILESTONE_PARAM
  }

  /** n is the least block count whose blocks of size st cover nc clauses. */
  predicate BlockCount(n: nat, st: nat, nc: nat)
  {
    n * st >= nc && (n == 0 || (n - 1) * st < nc)
  }

  /** Clause index at which block boundary k sits, clipped to nc. */
  function Boundary(k: nat, st: nat, nc: nat): (b: nat)
    ensures b <= nc && b <= k * st
    ensures b == nc || b == k * st
  {
    if k * st < nc then k * st else nc
  }

  lemma MulMono(a: nat, b: nat, c: nat)
    requires a <= b
    ensures a * c <= b * c
  {
  }

  /** Boundary k lies inside the clause array exactly when k is below the block count. */
  lemma BlockIndex(n: nat, st: nat, nc: nat, k: nat)
    requires st > 0 && BlockCount(n, st, nc)
    ensures k * st < nc <==> k < n
  {
    if k < n {
      MulMono(k, n - 1, st);
    } else {
      MulMono(n, k, st);
    }
  }

  /** The block boundaries beyond clause i are exactly those after the block containing i. */
  lemma BlockOf(st: nat, i: nat, j: nat, k: nat)
    requires st > 0 && j > 0 && (j - 1) * st <= i < j * st
    ensures k * st > i <==> k >= j
  {
    if k >= j {
      MulMono(j, k, st);
    } else {
      MulMono(k, j - 1, st);
    }
  }
}
