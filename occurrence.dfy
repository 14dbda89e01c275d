/** The occurrence index `hold`: for every signed literal, the ascending list
    of the clauses it occurs in, one entry per occurrence, ended by -1. */
module Occurrence {
  import opened Cnf

  /** One copy of clause index i for each position of c that holds lit. */
  function Hits(c: seq<int>, lit: int, i: int): seq<int>
  {
    if c == [] then []
    else Hits(c[..|c| - 1], lit, i) + (if c[|c| - 1] == lit then [i] else [])
  }

  /** The occurrence list of lit over the first n clauses. */
  function OccPrefix(cnf: seq<seq<int>>, lit: int, n: nat): seq<int>
    requires n <= |cnf|
  {
    if n == 0 then [] else OccPrefix(cnf, lit, n - 1) + Hits(cnf[n - 1], lit, n - 1)
  }

  /** The list `initiate` stores in `hold[num_variables + lit + 1]`, without its -1. */
  function Occurrences(cnf: seq<seq<int>>, lit: int): seq<int>
  {
    OccPrefix(cnf, lit, |cnf|)
  }

  /** Row of `hold` that belongs to literal lit. */
  function Slot(nv: int, lit: int): int
  {
    nv + lit + 1
  }

  /** Literal whose list sits in row s of `hold`. */
  function LitOf(nv: int, s: int): (lit: int)
    ensures Slot(nv, lit) == s
  {
    s - nv - 1
  }

  lemma {:induction false} HitsSpec(c: seq<int>, lit: int, i: int)
    ensures forall e :: e in Hits(c, lit, i) ==> e == i
    decreases |c|
  {
    if c != [] {
      HitsSpec(c[..|c| - 1], lit, i);
    }
  }

  /** The hits of lit in c are copies of i, and there are some exactly when lit occurs in c. */
  lemma {:induction false} HitsMember(c: seq<int>, lit: int, i: int, e: int)
    ensures e in Hits(c, lit, i) <==> e == i && lit in c
    decreases |c|
  {
    if c != [] {
      HitsMember(c[..|c| - 1], lit, i, e);
      assert c == c[..|c| - 1] + [c[|c| - 1]];
    }
  }

  /** Position j of c holds lit exactly when the hits over c[..j+1] grow by one. */
  lemma HitsStep(c: seq<int>, lit: int, i: int, j: nat)
    requires j < |c|
    ensures Hits(c[..j + 1], lit, i) == Hits(c[..j], lit, i) + (if c[j] == lit then [i] else [])
  {
    assert c[..j + 1][..j] == c[..j];
  }

  lemma {:induction false} HitsPrefixLength(c: seq<int>, lit: int, i: int, j: nat)
    requires j <= |c|
    ensures |Hits(c[..j], lit, i)| <= |Hits(c, lit, i)|
    decreases |c| - j
  {
    if j < |c| {
      HitsStep(c, lit, i, j);
      HitsPrefixLength(c, lit, i, j + 1);
      if j + 1 == |c| {
        assert c[..j + 1] == c;
      }
    } else {
      assert c[..j] == c;
    }
  }

  lemma {:induction false} OccPrefixLength(cnf: seq<seq<int>>, lit: int, m: nat, n: nat)
    requires m <= n <= |cnf|
    ensures |OccPrefix(cnf, lit, m)| <= |OccPrefix(cnf, lit, n)|
    decreases n
  {
    if m < n {
      OccPrefixLength(cnf, lit, m, n - 1);
    }
  }

  /** Clause c appears in the list of lit over the first n clauses exactly
      when c < n and lit occurs in clause c. */
  lemma {:induction false} OccMember(cnf: seq<seq<int>>, lit: int, n: nat, c: int)
    requires n <= |cnf|
    ensures c in OccPrefix(cnf, lit, n) <==> 0 <= c < n && lit in cnf[c]
    decreases n
  {
    if n > 0 {
      OccMember(cnf, lit, n - 1, c);
      HitsMember(cnf[n - 1], lit, n - 1, c);
    }
  }

  /** Every entry of the list over the first n clauses is a clause index below n. */
  lemma OccRange(cnf: seq<seq<int>>, lit: int, n: nat)
    requires n <= |cnf|
    ensures forall e :: e in OccPrefix(cnf, lit, n) ==> 0 <= e < n
  {
    forall e | e in OccPrefix(cnf, lit, n)
      ensures 0 <= e < n
    {
      OccMember(cnf, lit, n, e);
    }
  }

  /** The list is in ascending order (equal neighbours come from repeated literals). */
  lemma {:induction false} OccSorted(cnf: seq<seq<int>>, lit: int, n: nat)
    requires n <= |cnf|
    ensures forall a, b :: 0 <= a <= b < |OccPrefix(cnf, lit, n)| ==>
      OccPrefix(cnf, lit, n)[a] <= OccPrefix(cnf, lit, n)[b]
    decreases n
  {
    if n > 0 {
      OccSorted(cnf, lit, n - 1);
      OccRange(cnf, lit, n - 1);
      HitsSpec(cnf[n - 1], lit, n - 1);
      var p := OccPrefix(cnf, lit, n - 1);
      var h := Hits(cnf[n - 1], lit, n - 1);
      var q := OccPrefix(cnf, lit, n);
      assert q == p + h;
      forall a, b | 0 <= a <= b < |q|
        ensures q[a] <= q[b]
      {
        if b >= |p| {
          assert q[b] == h[b - |p|];
          assert h[b - |p|] in h;
          if a < |p| {
            assert q[a] == p[a] && p[a] in p;
          } else {
            assert q[a] == h[a - |p|] && h[a - |p|] in h;
          }
        }
      }
    }
  }

  /** Number of positions of s that hold e. */
  function Mult(s: seq<int>, e: int): nat
  {
    if s == [] then 0 else Mult(s[..|s| - 1], e) + (if s[|s| - 1] == e then 1 else 0)
  }

  /** Mult is the multiplicity of e in the multiset of s. */
  lemma {:induction false} MultIsMultiset(s: seq<int>, e: int)
    ensures Mult(s, e) == multiset(s)[e]
    decreases |s|
  {
    if s != [] {
      var t := s[..|s| - 1];
      MultIsMultiset(t, e);
      assert s == t + [s[|s| - 1]];
      assert multiset(s) == multiset(t) + multiset([s[|s| - 1]]);
    }
  }

  lemma {:induction false} MultConcat(p: seq<int>, h: seq<int>, e: int)
    ensures Mult(p + h, e) == Mult(p, e) + Mult(h, e)
    decreases |h|
  {
    if h != [] {
      MultConcat(p, h[..|h| - 1], e);
      assert (p + h)[..|p + h| - 1] == p + h[..|h| - 1];
    } else {
      assert p + h == p;
    }
  }

  /** The hits of lit in c hold i once per occurrence of lit and nothing else. */
  lemma {:induction false} HitsMult(c: seq<int>, lit: int, i: int, e: int)
    ensures Mult(Hits(c, lit, i), e) == if e == i then Mult(c, lit) else 0
    decreases |c|
  {
    if c != [] {
      var t := c[..|c| - 1];
      HitsMult(t, lit, i, e);
      MultConcat(Hits(t, lit, i), if c[|c| - 1] == lit then [i] else [], e);
    }
  }

  lemma {:induction false} OccMult(cnf: seq<seq<int>>, lit: int, n: nat, c: int)
    requires n <= |cnf|
    ensures Mult(OccPrefix(cnf, lit, n), c) == if 0 <= c < n then Mult(cnf[c], lit) else 0
    decreases n
  {
    if n > 0 {
      OccMult(cnf, lit, n - 1, c);
      HitsMult(cnf[n - 1], lit, n - 1, c);
      MultConcat(OccPrefix(cnf, lit, n - 1), Hits(cnf[n - 1], lit, n - 1), c);
    }
  }

  /** Clause c is listed once per occurrence of lit in it. */
  lemma OccCount(cnf: seq<seq<int>>, lit: int, n: nat, c: int)
    requires n <= |cnf|
    ensures multiset(OccPrefix(cnf, lit, n))[c] == if 0 <= c < n then multiset(cnf[c])[lit] else 0
  {
    OccMult(cnf, lit, n, c);
    MultIsMultiset(OccPrefix(cnf, lit, n), c);
    if 0 <= c < n {
      MultIsMultiset(cnf[c], lit);
    }
  }

  /** A row filled up to list: the entries of list, then the -1 end marker. */
  ghost predicate Filled(row: array<int>, list: seq<int>)
    reads row
  {
    |list| < row.Length && row[..|list|] == list && row[|list|] == -1
  }

  /** Lines 300-314: `hold_size[s]` counts the occurrences of the literal of slot s. */
  method CountOccurrences(cnf: seq<seq<int>>, nv: nat) returns (holdSize: array<int>)
    requires Bounded(cnf, nv)
    ensures fresh(holdSize) && holdSize.Length == 2 * (nv + 1) + 1
    ensures forall s :: 0 <= s < holdSize.Length ==> holdSize[s] == |Occurrences(cnf, LitOf(nv, s))|
  {
    holdSize := new int[2 * (nv + 1) + 1];
    var i := 0;
    while i <= 2 * (nv + 1)
      invariant 0 <= i <= holdSize.Length
      invariant forall s :: 0 <= s < i ==> holdSize[s] == 0
    {
      holdSize[i] := 0;
      i := i + 1;
    }
    i := 0;
    while i < |cnf|
      invariant 0 <= i <= |cnf|
      invariant forall s :: 0 <= s < holdSize.Length ==> holdSize[s] == |OccPrefix(cnf, LitOf(nv, s), i)|
    {
      var j := 0;
      while j < |cnf[i]|
        invariant 0 <= j <= |cnf[i]|
        invariant forall s :: 0 <= s < holdSize.Length ==>
          holdSize[s] == |OccPrefix(cnf, LitOf(nv, s), i)| + |Hits(cnf[i][..j], LitOf(nv, s), i)|
      {
        assert cnf[i][j] in cnf[i];
        assert Abs(cnf[i][j]) <= nv;
        var s := Slot(nv, cnf[i][j]);
        forall t | 0 <= t < holdSize.Length
          ensures Hits(cnf[i][..j + 1], LitOf(nv, t), i)
               == Hits(cnf[i][..j], LitOf(nv, t), i) + (if t == s then [i] else [])
        {
          HitsStep(cnf[i], LitOf(nv, t), i, j);
        }
        holdSize[s] := holdSize[s] + 1;
        j := j + 1;
      }
      assert cnf[i][..|cnf[i]|] == cnf[i];
      i := i + 1;
    }
  }

  /** Lines 315-321: one fresh row per slot, sized for its occurrences and the -1. */
  method AllocateRows(holdSize: array<int>) returns (hold: array<array<int>>)
    requires forall s :: 0 <= s < holdSize.Length ==> holdSize[s] >= 0
    ensures fresh(hold) && hold.Length == holdSize.Length
    ensures forall s :: 0 <= s < hold.Length ==>
      fresh(hold[s]) && hold[s].Length == holdSize[s] + 1 && hold[s][0] == -1
    ensures forall s, t :: 0 <= s < hold.Length && 0 <= t < hold.Length && s != t ==> hold[s] != hold[t]
  {
    var blank := new int[1];
    hold := new array<int>[holdSize.Length](_ => blank);
    var i := 0;
    while i < holdSize.Length
      invariant 0 <= i <= hold.Length
      invariant forall s :: 0 <= s < i ==>
        fresh(hold[s]) && hold[s] != blank && hold[s].Length == holdSize[s] + 1 && hold[s][0] == -1
      invariant forall s, t :: 0 <= s < i && 0 <= t < i && s != t ==> hold[s] != hold[t]
    {
      var row := new int[holdSize[i] + 1];
      row[0] := -1;
      hold[i] := row;
      i := i + 1;
    }
  }

  /** Lines 326-330: walk to the -1 ending row and write i there, followed by a new -1. */
  method AppendIndex(row: array<int>, ghost done: seq<int>, i: int)
    requires Filled(row, done) && |done| + 1 < row.Length && i >= 0
    requires forall e :: e in done ==> e >= 0
    modifies row
    ensures Filled(row, done + [i])
  {
    assert forall t :: 0 <= t < |done| ==> row[t] == done[t] && done[t] in done;
    var k := 0;
    while row[k] >= 0
      invariant 0 <= k <= |done|
      decreases |done| - k
    {
      k := k + 1;
    }
    assert k == |done|;
    ghost var before := row[..k];
    row[k] := i;
    row[k + 1] := -1;
    assert row[..k + 1] == before + [i];
  }

  /** After the occurrence of lit at position j of clause i, its list grows by i
      and still fits in the row `initiate` sized for it. */
  lemma AppendFits(cnf: seq<seq<int>>, lit: int, i: nat, j: nat)
    requires i < |cnf| && j < |cnf[i]| && cnf[i][j] == lit
    ensures OccPrefix(cnf, lit, i) + Hits(cnf[i][..j + 1], lit, i)
         == OccPrefix(cnf, lit, i) + Hits(cnf[i][..j], lit, i) + [i]
    ensures |OccPrefix(cnf, lit, i) + Hits(cnf[i][..j], lit, i)| + 1 <= |Occurrences(cnf, lit)|
    ensures forall e :: e in OccPrefix(cnf, lit, i) + Hits(cnf[i][..j], lit, i) ==> 0 <= e <= i
  {
    HitsStep(cnf[i], lit, i, j);
    HitsPrefixLength(cnf[i], lit, i, j + 1);
    OccPrefixLength(cnf, lit, i + 1, |cnf|);
    OccRange(cnf, lit, i);
    HitsSpec(cnf[i][..j], lit, i);
  }

  /** The rows `initiate` allocates: one per slot, pairwise distinct, each one
      longer than its literal's occurrence list. */
  ghost predicate RowShape(hold: array<array<int>>, cnf: seq<seq<int>>, nv: nat)
    reads hold
  {
    hold.Length == 2 * (nv + 1) + 1 &&
    (forall s :: 0 <= s < hold.Length ==> hold[s].Length == |Occurrences(cnf, LitOf(nv, s))| + 1) &&
    forall s, t :: 0 <= s < hold.Length && 0 <= t < hold.Length && s != t ==> hold[s] != hold[t]
  }

  /** Rows of `hold` filled with every occurrence in the clauses before i. */
  ghost predicate RowsBefore(hold: array<array<int>>, cnf: seq<seq<int>>, nv: nat, i: nat)
    reads hold, set s | 0 <= s < hold.Length :: hold[s]
  {
    i <= |cnf| &&
    forall s :: 0 <= s < hold.Length ==> Filled(hold[s], OccPrefix(cnf, LitOf(nv, s), i))
  }

  /** Rows of `hold` filled with every occurrence before position j of clause i. */
  ghost predicate RowsAt(hold: array<array<int>>, cnf: seq<seq<int>>, nv: nat, i: nat, j: nat)
    reads hold, set s | 0 <= s < hold.Length :: hold[s]
  {
    i < |cnf| && j <= |cnf[i]| &&
    forall s :: 0 <= s < hold.Length ==>
      Filled(hold[s], OccPrefix(cnf, LitOf(nv, s), i) + Hits(cnf[i][..j], LitOf(nv, s), i))
  }

  /** Lines 327-330 for one literal occurrence: append clause index i to the
      row of the literal at position j of clause i. */
  method FillOne(cnf: seq<seq<int>>, nv: nat, hold: array<array<int>>, i: nat, j: nat)
    requires RowShape(hold, cnf, nv)
    requires RowsAt(hold, cnf, nv, i, j) && j < |cnf[i]| && Abs(cnf[i][j]) <= nv
    modifies hold[Slot(nv, cnf[i][j])]
    ensures RowsAt(hold, cnf, nv, i, j + 1)
  {
    var lit := cnf[i][j];
    var s := Slot(nv, lit);
    assert LitOf(nv, s) == lit;
    AppendFits(cnf, lit, i, j);
    AppendIndex(hold[s], OccPrefix(cnf, lit, i) + Hits(cnf[i][..j], lit, i), i);
    forall t | 0 <= t < hold.Length && t != s
      ensures Hits(cnf[i][..j + 1], LitOf(nv, t), i) == Hits(cnf[i][..j], LitOf(nv, t), i)
    {
      HitsStep(cnf[i], LitOf(nv, t), i, j);
    }
  }

  /** No clause before i contributes to a fresh clause's rows yet. */
  lemma ClauseStart(hold: array<array<int>>, cnf: seq<seq<int>>, nv: nat, i: nat)
    requires i < |cnf| && RowsBefore(hold, cnf, nv, i)
    ensures RowsAt(hold, cnf, nv, i, 0)
  {
    assert cnf[i][..0] == [];
  }

  /** Clause i done: its hits complete the list over the clauses up to i. */
  lemma ClauseEnd(hold: array<array<int>>, cnf: seq<seq<int>>, nv: nat, i: nat)
    requires i < |cnf| && RowsAt(hold, cnf, nv, i, |cnf[i]|)
    ensures RowsBefore(hold, cnf, nv, i + 1)
  {
    assert cnf[i][..|cnf[i]|] == cnf[i];
  }

  /** Rows holding just their -1 are filled with the empty list. */
  lemma RowsStart(hold: array<array<int>>, cnf: seq<seq<int>>, nv: nat)
    requires RowShape(hold, cnf, nv)
    requires forall s :: 0 <= s < hold.Length ==> hold[s][0] == -1
    ensures RowsBefore(hold, cnf, nv, 0)
  {
    forall s | 0 <= s < hold.Length
      ensures Filled(hold[s], OccPrefix(cnf, LitOf(nv, s), 0))
    {
      assert hold[s][..0] == [];
    }
  }

  /** Rows filled over every clause are exactly their lists and the -1. */
  lemma RowsEnd(hold: array<array<int>>, cnf: seq<seq<int>>, nv: nat)
    requires RowShape(hold, cnf, nv) && RowsBefore(hold, cnf, nv, |cnf|)
    ensures forall s :: 0 <= s < hold.Length ==> hold[s][..] == Occurrences(cnf, LitOf(nv, s)) + [-1]
  {
    forall s | 0 <= s < hold.Length
      ensures hold[s][..] == Occurrences(cnf, LitOf(nv, s)) + [-1]
    {
      var n := |Occurrences(cnf, LitOf(nv, s))|;
      assert hold[s][..] == hold[s][..n] + [hold[s][n]];
    }
  }

  /** Lines 324-332 for one clause: append i to the row of each of its literals. */
  method FillClause(cnf: seq<seq<int>>, nv: nat, hold: array<array<int>>, i: nat)
    requires Bounded(cnf, nv) && RowShape(hold, cnf, nv)
    requires i < |cnf| && RowsBefore(hold, cnf, nv, i)
    modifies set s | 0 <= s < hold.Length :: hold[s]
    ensures RowsBefore(hold, cnf, nv, i + 1)
  {
    ClauseStart(hold, cnf, nv, i);
    var j := 0;
    while j < |cnf[i]|
      invariant 0 <= j <= |cnf[i]| && RowsAt(hold, cnf, nv, i, j)
    {
      assert cnf[i][j] in cnf[i];
      assert Abs(cnf[i][j]) <= nv;
      FillOne(cnf, nv, hold, i, j);
      j := j + 1;
    }
    ClauseEnd(hold, cnf, nv, i);
  }

  /** Lines 322-334: append every clause index to the rows of its literals,
      finding each row's end by walking to its -1. */
  method FillRows(cnf: seq<seq<int>>, nv: nat, hold: array<array<int>>)
    requires Bounded(cnf, nv) && RowShape(hold, cnf, nv)
    requires forall s :: 0 <= s < hold.Length ==> hold[s][0] == -1
    modifies set s | 0 <= s < hold.Length :: hold[s]
    ensures forall s :: 0 <= s < hold.Length ==> hold[s][..] == Occurrences(cnf, LitOf(nv, s)) + [-1]
  {
    RowsStart(hold, cnf, nv);
    var i := 0;
    while i < |cnf|
      invariant 0 <= i <= |cnf| && RowsBefore(hold, cnf, nv, i)
    {
      FillClause(cnf, nv, hold, i);
      i := i + 1;
    }
    RowsEnd(hold, cnf, nv);
  }
  /** Lines 300-334: count, allocate and fill the occurrence index. */
  method BuildIndex(cnf: seq<seq<int>>, nv: nat) returns (holdSize: array<int>, hold: array<array<int>>)
    requires Bounded(cnf, nv)
    ensures fresh(holdSize) && fresh(hold) && holdSize.Length == hold.Length == 2 * (nv + 1) + 1
    ensures forall s :: 0 <= s < holdSize.Length ==> holdSize[s] == |Occurrences(cnf, LitOf(nv, s))|
    ensures forall s :: 0 <= s < hold.Length ==> fresh(hold[s]) && hold[s] != holdSize
    ensures forall s, t :: 0 <= s < hold.Length && 0 <= t < hold.Length && s != t ==> hold[s] != hold[t]
    ensures forall s :: 0 <= s < hold.Length ==> hold[s][..] == Occurrences(cnf, LitOf(nv, s)) + [-1]
  {
    holdSize := CountOccurrences(cnf, nv);
    hold := AllocateRows(holdSize);
    FillRows(cnf, nv, hold);
  }
}
