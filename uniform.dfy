/** The solver section of uniform.c: a stochastic local search over a clause
    database. The source keeps its state in process-wide variables; here they
    are the fields of one Engine object. */
module Uniform {
  import opened Cnf
  import opened Tally
  import opened Occurrence

  /** What `insert` and `extract` report: 'E' (already in that state) or 'C'. */
  datatype Report = Exists | Created

  /** The values `rand()` yields during one iteration of the `solve` loop:
      the draw for the rank, the probes `find` may make, the draw of `elect`. */
  datatype Draw = Draw(rank: nat, probes: seq<nat>, pick: nat)

  /** Lines 204-224: the largest literal magnitude and the number of clauses. */
  method GetSize(cnf: seq<seq<int>>) returns (nv: nat, nc: int)
    ensures IsMaxVar(cnf, nv) && nc == |cnf|
  {
    var size := 0;
    ghost var wi, wl := 0, 0;
    var i := 0;
    while i < |cnf|
      invariant 0 <= i <= |cnf| && size >= 0
      invariant forall a, l :: 0 <= a < i && l in cnf[a] ==> Abs(l) <= size
      invariant size == 0 || (0 <= wi < i && wl in cnf[wi] && Abs(wl) == size)
    {
      var j := 0;
      while j < |cnf[i]|
        invariant 0 <= j <= |cnf[i]| && size >= 0
        invariant forall a, l :: 0 <= a < i && l in cnf[a] ==> Abs(l) <= size
        invariant forall t :: 0 <= t < j ==> Abs(cnf[i][t]) <= size
        invariant size == 0 || (0 <= wi <= i && wl in cnf[wi] && Abs(wl) == size)
      {
        if cnf[i][j] > size {
          size := cnf[i][j];
          wi, wl := i, cnf[i][j];
        }
        if -cnf[i][j] > size {
          size := -cnf[i][j];
          wi, wl := i, cnf[i][j];
        }
        j := j + 1;
      }
      forall l | l in cnf[i]
        ensures Abs(l) <= size
      {
        var t :| 0 <= t < |cnf[i]| && cnf[i][t] == l;
      }
      i := i + 1;
    }
    nv, nc := size, i;
  }

  /** Lines 282-289: every variable starts unassigned (index 0 is a placeholder). */
  method InitSolution(nv: nat) returns (solution: array<State>)
    ensures fresh(solution) && solution.Length == nv + 1
    ensures forall v :: 0 <= v < solution.Length ==> solution[v] == Unassigned
  {
    solution := new State[nv + 1];
    solution[0] := Unassigned;
    var i := 1;
    while i <= nv
      invariant 1 <= i <= nv + 1
      invariant forall v :: 0 <= v < i ==> solution[v] == Unassigned
    {
      solution[i] := Unassigned;
      i := i + 1;
    }
  }

  /** Lines 291-297: every clause starts active. */
  method InitConstraints(nc: nat) returns (constraints: array<bool>)
    ensures fresh(constraints) && constraints.Length == nc
    ensures forall i :: 0 <= i < nc ==> constraints[i]
  {
    constraints := new bool[nc];
    var i := 0;
    while i < nc
      invariant 0 <= i <= nc
      invariant forall t :: 0 <= t < i ==> constraints[t]
    {
      constraints[i] := true;
      i := i + 1;
    }
  }

  /** Lines 336-348: the block size, the block count and the boundary counts
      for a set in which every clause is active. */
  method InitMilestones(nc: nat) returns (step: nat, nblocks: nat, milestones: array<int>)
    ensures step == StepFor(nc) && BlockCount(nblocks, step, nc)
    ensures fresh(milestones) && milestones.Length == nblocks + 1
    ensures forall k :: 0 <= k <= nblocks ==> milestones[k] == Boundary(k, step, nc)
  {
    step := nc / MILESTONE_PARAM;
    if step < MIN_STEP {
      step := MIN_STEP;
    }
    var i := 0;
    while i * step < nc
      invariant i == 0 || (i - 1) * step < nc
      invariant i <= nc
      decreases nc - i
    {
      MulMono(1, step, i);
      i := i + 1;
    }
    nblocks := i;
    milestones := new int[i + 1];
    i := 0;
    while i * step < nc
      invariant 0 <= i <= nblocks
      invariant forall k :: 0 <= k < i ==> milestones[k] == Boundary(k, step, nc)
      decreases nblocks - i
    {
      BlockIndex(nblocks, step, nc, i);
      milestones[i] := i * step;
      i := i + 1;
    }
    BlockIndex(nblocks, step, nc, i);
    milestones[i] := nc;
  }

  class Engine {
    /** The clause database, read-only for the solver. */
    const cnf: seq<seq<int>>
    const numVariables: nat
    const numClauses: nat
    /** `solution[v]` for v in 1..numVariables. */
    const solution: array<State>
    /** `constraints[i]`: clause i is active ('y'). */
    const constraints: array<bool>
    /** Number of active clauses. */
    var numConstraints: int
    /** `hold_size[s]`: length of the occurrence list in row s. */
    const holdSize: array<int>
    /** `hold[Slot(numVariables, lit)]`: the -1-terminated occurrence list of lit. */
    const hold: array<array<int>>
    /** Block size of the rank index. */
    const step: nat
    /** Number of blocks; `milestones` has one more entry. */
    const nblocks: nat
    /** `milestones[k]`: number of active clauses before block boundary k. */
    const milestones: array<int>

    /** The sizes fixed by `get_size` and `initiate`. */
    ghost predicate Shape()
    {
      WellFormed(cnf) && IsMaxVar(cnf, numVariables) && numClauses == |cnf| &&
      solution.Length == numVariables + 1 && constraints.Length == numClauses &&
      step == StepFor(numClauses) && BlockCount(nblocks, step, numClauses) &&
      milestones.Length == nblocks + 1 &&
      hold.Length == 2 * (numVariables + 1) + 1 && holdSize.Length == hold.Length
    }

    /** The active set: its count and the block counts agree with the flags. */
    ghost predicate ActiveValid()
      reads this, constraints, milestones
    {
      Shape() &&
      numConstraints == Count(constraints[..], numClauses) &&
      forall k :: 0 <= k <= nblocks ==>
        milestones[k] == Count(constraints[..], Boundary(k, step, numClauses))
    }

    /** Every row of `hold` is its literal's occurrence list followed by -1. */
    ghost predicate IndexValid()
      reads hold, set s | 0 <= s < hold.Length :: hold[s]
    {
      Shape() &&
      (forall s, t :: 0 <= s < hold.Length && 0 <= t < hold.Length && s != t ==> hold[s] != hold[t]) &&
      forall s :: 0 <= s < hold.Length ==> hold[s][..] == Occurrences(cnf, LitOf(numVariables, s)) + [-1]
    }

    ghost predicate Valid()
      reads this, constraints, milestones, hold, set s | 0 <= s < hold.Length :: hold[s]
    {
      ActiveValid() && IndexValid() &&
      forall s :: 0 <= s < hold.Length ==> hold[s] != milestones
    }

    /** The search invariant: a clause is active exactly when it is not satisfied. */
    ghost predicate Consistent()
      reads constraints, solution
    {
      Shape() &&
      forall i :: 0 <= i < numClauses ==> constraints[i] == !ClauseSat(cnf[i], solution[..])
    }

    /** Lines 501-502 (`get_size`, then `initiate`) on a parsed database. */
    constructor (db: seq<seq<int>>)
      requires WellFormed(db)
      ensures Valid() && Consistent()
      ensures cnf == db && IsMaxVar(db, numVariables) && numClauses == |db|
      ensures forall v :: 1 <= v <= numVariables ==> solution[v] == Unassigned
      ensures forall i :: 0 <= i < numClauses ==> constraints[i]
      ensures numConstraints == numClauses
      ensures fresh(solution) && fresh(constraints) && fresh(milestones) && fresh(holdSize) && fresh(hold)
      ensures forall s :: 0 <= s < holdSize.Length ==> holdSize[s] == |Occurrences(db, LitOf(numVariables, s))|
    {
      var nv, nc := GetSize(db);
      var sol := InitSolution(nv);
      var cons := InitConstraints(nc);
      var hs, h := BuildIndex(db, nv);
      var st, nb, ms := InitMilestones(nc);
      cnf, numVariables, numClauses := db, nv, nc;
      solution, constraints, numConstraints := sol, cons, nc;
      holdSize, hold := hs, h;
      step, nblocks, milestones := st, nb, ms;
      new;
      CountAll(constraints[..]);
      AllUnassignedNothingSat(cnf, solution[..]);
    }

    /** Lines 226-236: the source's sign-times-offset test over the clause. */
    method IsSolved(i: int) returns (solved: bool)
      requires Shape() && 0 <= i < numClauses
      ensures solved == ClauseSat(cnf[i], solution[..])
    {
      var c := cnf[i];
      var j := 0;
      while j < |c| && c[j] * Offset(solution[Abs(c[j])]) <= 0
        invariant 0 <= j <= |c|
        invariant forall t :: 0 <= t < j ==> !LitTrue(c[t], solution[..])
      {
        assert c[j] in c;
        SignTest(c[j], solution[..]);
        j := j + 1;
      }
      if j < |c| {
        assert c[j] in c;
        SignTest(c[j], solution[..]);
      }
      solved := j < |c|;
    }

    /** Lines 372-383: 1 when every clause is satisfied, 0 otherwise. */
    method Verify() returns (r: int)
      requires Shape()
      ensures r == 0 || r == 1
      ensures r == 1 <==> FormulaSat(cnf, solution[..])
    {
      var i := 0;
      while i < numClauses
        invariant 0 <= i <= numClauses
        invariant forall t :: 0 <= t < i ==> ClauseSat(cnf[t], solution[..])
      {
        var s := IsSolved(i);
        if !s {
          return 0;
        }
        i := i + 1;
      }
      return 1;
    }

    /** Line 348: the last boundary sits at the end of the clause array, so
        its count is the number of active clauses. */
    lemma LastMilestone()
      requires ActiveValid()
      ensures milestones[nblocks] == numConstraints
    {
      BlockIndex(nblocks, step, numClauses, nblocks);
      assert Boundary(nblocks, step, numClauses) == numClauses;
    }

    /** What `IndexValid` says about the row of one literal: it lists, in
        order, the clauses holding lit, each a clause index, then -1. */
    lemma RowOf(lit: int)
      requires IndexValid() && 0 < Abs(lit) <= numVariables
      ensures 0 <= Slot(numVariables, lit) < hold.Length
      ensures hold[Slot(numVariables, lit)][..] == Occurrences(cnf, lit) + [-1]
      ensures forall t :: 0 <= t < |Occurrences(cnf, lit)| ==>
        hold[Slot(numVariables, lit)][t] == Occurrences(cnf, lit)[t] && 0 <= Occurrences(cnf, lit)[t] < numClauses
      ensures forall c :: 0 <= c < numClauses ==> (c in Occurrences(cnf, lit) <==> lit in cnf[c])
    {
      var occ := Occurrences(cnf, lit);
      var row := hold[Slot(numVariables, lit)];
      assert LitOf(numVariables, Slot(numVariables, lit)) == lit;
      OccRange(cnf, lit, |cnf|);
      forall c | 0 <= c < numClauses
        ensures c in occ <==> lit in cnf[c]
      {
        OccMember(cnf, lit, |cnf|, c);
      }
      assert row[..] == occ + [-1];
      assert forall t :: 0 <= t < |occ| ==> row[t] == occ[t] && occ[t] in occ;
    }

    /** Lines 244-246 and 263-265: the first block boundary beyond clause i.
        The boundaries beyond i are exactly those from it on. */
    method FirstBoundaryAfter(i: int) returns (j: nat)
      requires Shape() && 0 <= i < numClauses
      ensures 0 < j <= nblocks
      ensures forall k :: 0 <= k <= nblocks ==> (Boundary(k, step, numClauses) > i <==> k >= j)
    {
      j := 0;
      while j * step <= i
        invariant j == 0 || (j - 1) * step <= i
        invariant j <= i + 1
        decreases i + 1 - j
      {
        MulMono(1, step, j);
        j := j + 1;
      }
      BlockIndex(nblocks, step, numClauses, j - 1);
      forall k | 0 <= k <= nblocks
        ensures Boundary(k, step, numClauses) > i <==> k >= j
      {
        BlockOf(step, i, j, k);
      }
    }

    /** Lines 247-251 and 266-270: add delta to the count of every boundary from j on. */
    method Shift(j: nat, delta: int)
      requires Shape() && 0 < j <= nblocks
      modifies milestones
      ensures forall k :: 0 <= k <= nblocks ==>
        milestones[k] == old(milestones[k]) + (if k >= j then delta else 0)
    {
      var m := j;
      while m * step < numClauses
        invariant j <= m <= nblocks
        invariant forall k :: 0 <= k <= nblocks ==>
          milestones[k] == old(milestones[k]) + (if j <= k < m then delta else 0)
        decreases nblocks - m
      {
        BlockIndex(nblocks, step, numClauses, m);
        milestones[m] := milestones[m] + delta;
        m := m + 1;
      }
      BlockIndex(nblocks, step, numClauses, m);
      milestones[m] := milestones[m] + delta;
    }

    /** Lines 238-255: activate clause i and raise every later boundary count. */
    method Insert(i: int) returns (rep: Report)
      requires ActiveValid() && 0 <= i < numClauses
      modifies this`numConstraints, constraints, milestones
      ensures ActiveValid()
      ensures rep == Exists <==> old(constraints[i])
      ensures rep == Exists ==>
        constraints[..] == old(constraints[..]) && milestones[..] == old(milestones[..]) &&
        numConstraints == old(numConstraints)
      ensures rep == Created ==>
        constraints[..] == old(constraints[..])[i := true] && numConstraints == old(numConstraints) + 1 &&
        forall k :: 0 <= k <= nblocks ==>
          milestones[k] == old(milestones[k]) + (if Boundary(k, step, numClauses) > i then 1 else 0)
    {
      if constraints[i] {
        return Exists;
      }
      var j := FirstBoundaryAfter(i);
      Shift(j, 1);
      ghost var cs := constraints[..];
      constraints[i] := true;
      numConstraints := numConstraints + 1;
      assert constraints[..] == cs[i := true];
      CountUpdate(cs, i, true, numClauses);
      forall k | 0 <= k <= nblocks
        ensures milestones[k] == Count(constraints[..], Boundary(k, step, numClauses))
      {
        CountUpdate(cs, i, true, Boundary(k, step, numClauses));
      }
      return Created;
    }

    /** Lines 257-274: deactivate clause i and lower every later boundary count. */
    method Extract(i: int) returns (rep: Report)
      requires ActiveValid() && 0 <= i < numClauses
      modifies this`numConstraints, constraints, milestones
      ensures ActiveValid()
      ensures rep == Exists <==> !old(constraints[i])
      ensures rep == Exists ==>
        constraints[..] == old(constraints[..]) && milestones[..] == old(milestones[..]) &&
        numConstraints == old(numConstraints)
      ensures rep == Created ==>
        constraints[..] == old(constraints[..])[i := false] && numConstraints == old(numConstraints) - 1 &&
        forall k :: 0 <= k <= nblocks ==>
          milestones[k] == old(milestones[k]) - (if Boundary(k, step, numClauses) > i then 1 else 0)
    {
      if !constraints[i] {
        return Exists;
      }
      var j := FirstBoundaryAfter(i);
      Shift(j, -1);
      ghost var cs := constraints[..];
      constraints[i] := false;
      numConstraints := numConstraints - 1;
      assert constraints[..] == cs[i := false];
      CountUpdate(cs, i, false, numClauses);
      forall k | 0 <= k <= nblocks
        ensures milestones[k] == Count(constraints[..], Boundary(k, step, numClauses))
      {
        CountUpdate(cs, i, false, Boundary(k, step, numClauses));
      }
      return Created;
    }

    /** Lines 392-400: up to SAMPLE_PARAM random probes; the first that lands
        on an active clause is the answer. */
    method Probe(probes: seq<nat>) returns (hit: bool, k: int)
      requires Shape() && numClauses > 0 && |probes| == SAMPLE_PARAM
      ensures hit <==> FirstHit(constraints[..], probes) < |probes|
      ensures hit ==> k == probes[FirstHit(constraints[..], probes)] % numClauses
    {
      var a := 0;
      while a < SAMPLE_PARAM
        invariant 0 <= a <= SAMPLE_PARAM
        invariant forall u :: 0 <= u < a ==> !constraints[probes[u] % numClauses]
      {
        var i := probes[a] % numClauses;
        if constraints[i] {
          return true, i;
        }
        a := a + 1;
      }
      return false, 0;
    }

    /** Lines 401-402: the first block boundary whose count exceeds r; the
        block before it holds the clause of rank r. */
    method BlockFor(r: int) returns (j: nat)
      requires ActiveValid() && 0 <= r < numConstraints
      ensures 0 < j <= nblocks
      ensures milestones[j - 1] == Count(constraints[..], (j - 1) * step) <= r < milestones[j]
      ensures forall k :: 0 <= k < j ==> milestones[k] <= r
      ensures (j - 1) * step < numClauses
    {
      j := 0;
      while j * step < numClauses && milestones[j] <= r
        invariant 0 <= j <= nblocks
        invariant forall k :: 0 <= k < j ==> milestones[k] <= r
        decreases nblocks - j
      {
        BlockIndex(nblocks, step, numClauses, j);
        j := j + 1;
      }
      LastMilestone();
      BlockIndex(nblocks, step, numClauses, j);
      BlockIndex(nblocks, step, numClauses, 0);
      BlockIndex(nblocks, step, numClauses, j - 1);
      assert Boundary(j - 1, step, numClauses) == (j - 1) * step;
    }

    /** Lines 401-411: jump to the block holding rank r, then scan forward
        from its start for the remaining active clauses. The scan never
        leaves block blk - 1, the block BlockFor picks. */
    method RankScan(r: int) returns (k: int, ghost blk: nat)
      requires ActiveValid() && 0 <= r < numConstraints
      ensures k == Scan(constraints[..], r)
      ensures 0 < blk <= nblocks && milestones[blk - 1] <= r < milestones[blk]
      ensures (blk - 1) * step <= k < Boundary(blk, step, numClauses)
    {
      ghost var cs := constraints[..];
      var j := BlockFor(r);
      blk := j;
      var a := milestones[j - 1];
      var p := (j - 1) * step - 1;
      while a <= r
        invariant (j - 1) * step - 1 <= p < numClauses
        invariant a == Count(cs, p + 1) && a <= r + 1
        invariant a > milestones[j - 1] ==> (j - 1) * step <= p && cs[p]
        decreases r + 1 - a
      {
        p := p + 1;
        CountMono(cs, p, numClauses);
        while !constraints[p]
          invariant p < numClauses && Count(cs, p) == a
          decreases numClauses - p
        {
          CountMono(cs, p + 1, numClauses);
          p := p + 1;
        }
        a := a + 1;
      }
      ScanUnique(cs, r, p);
      k := p;
      if Boundary(j, step, numClauses) <= k {
        CountMono(cs, Boundary(j, step, numClauses), k);
      }
    }

    /** Lines 385-412: the r-th active clause. When active clauses are dense
        the source first tries random probes; otherwise, or when every probe
        misses, it jumps to the block that holds rank r and scans it. */
    method Find(r: int, probes: seq<nat>) returns (k: int)
      requires ActiveValid() && 0 <= r < numConstraints && |probes| == SAMPLE_PARAM
      ensures 0 <= k < numClauses && constraints[k]
      ensures if numClauses / numConstraints < SAMPLE_PARAM && FirstHit(constraints[..], probes) < |probes|
              then k == probes[FirstHit(constraints[..], probes)] % numClauses
              else k == Scan(constraints[..], r)
    {
      if numClauses / numConstraints < SAMPLE_PARAM {
        var hit;
        hit, k := Probe(probes);
        if hit {
          return;
        }
      }
      ghost var blk;
      k, blk := RankScan(r);
      ScanFinds(constraints[..], r);
    }

    /** Lines 416-438: a literal of clause i, drawn among those whose variable
        is unassigned when there are any, otherwise among all of them. */
    method Elect(i: int, pick: nat) returns (x: int)
      requires Shape() && 0 <= i < numClauses && |cnf[i]| > 0
      ensures x in cnf[i]
      ensures (exists l :: l in cnf[i] && solution[Abs(l)] == Unassigned) ==> solution[Abs(x)] == Unassigned
      ensures var free := Free(cnf[i], solution[..]);
        x == if |free| > 0 then free[pick % |free|] else cnf[i][pick % |cnf[i]|]
    {
      var c := cnf[i];
      var buffer := [];
      var j := 0;
      while j < |c|
        invariant 0 <= j <= |c|
        invariant buffer == Free(c[..j], solution[..])
      {
        assert c[..j + 1][..j] == c[..j];
        assert c[j] in c;
        if solution[Abs(c[j])] == Unassigned {
          buffer := buffer + [c[j]];
        }
        j := j + 1;
      }
      assert c[..j] == c;
      FreeMember(c, solution[..]);
      if |buffer| > 0 {
        x := buffer[pick % |buffer|];
        assert x in buffer;
      } else {
        x := c[pick % j];
      }
    }

    /** Line 454: `extract` seen from the search loop, which only needs the
        flags and the invariants. */
    method Deactivate(i: int)
      requires Valid() && 0 <= i < numClauses
      modifies this`numConstraints, constraints, milestones
      ensures Valid()
      ensures forall c :: 0 <= c < numClauses ==> constraints[c] == (old(constraints[c]) && c != i)
    {
      var _ := Extract(i);
    }

    /** Lines 460-461 (also 469-470 and 476-477): reactivate clause i when it
        is inactive and the satisfaction test finds it violated. */
    method Recheck(i: int)
      requires Valid() && 0 <= i < numClauses
      modifies this`numConstraints, constraints, milestones
      ensures Valid()
      ensures forall c :: 0 <= c < numClauses ==>
        constraints[c] == (old(constraints[c]) || (c == i && !ClauseSat(cnf[c], solution[..])))
    {
      if !constraints[i] {
        var solved := IsSolved(i);
        if !solved {
          var _ := Insert(i);
        }
      }
    }

    /** Lines 452-456: deactivate every clause on the list of x. */
    method ExtractAll(x: int)
      requires Valid() && 0 < Abs(x) <= numVariables
      modifies this`numConstraints, constraints, milestones
      ensures Valid()
      ensures forall c :: 0 <= c < numClauses ==> constraints[c] == (old(constraints[c]) && x !in cnf[c])
    {
      RowOf(x);
      var row := hold[Slot(numVariables, x)];
      ghost var occ := Occurrences(cnf, x);
      ghost var seen: set<int> := {};
      var k := 0;
      while row[k] >= 0
        invariant Valid() && row == hold[Slot(numVariables, x)] && row[..] == occ + [-1]
        invariant 0 <= k <= |occ|
        invariant forall t :: 0 <= t < k ==> occ[t] in seen
        invariant forall c :: c in seen ==> c in occ
        invariant forall c :: 0 <= c < numClauses ==> constraints[c] == (old(constraints[c]) && c !in seen)
        decreases |occ| - k
      {
        var i := row[k];
        Deactivate(i);
        seen := seen + {i};
        k := k + 1;
      }
      assert k == |occ|;
    }

    /** Lines 457-463 and 466-479: walk the list of lit and reactivate every
        inactive clause on it that the satisfaction test finds violated. */
    method Reactivate(lit: int)
      requires Valid() && 0 < Abs(lit) <= numVariables
      modifies this`numConstraints, constraints, milestones
      ensures Valid()
      ensures forall c :: 0 <= c < numClauses ==>
        constraints[c] == (old(constraints[c]) || (lit in cnf[c] && !ClauseSat(cnf[c], solution[..])))
    {
      RowOf(lit);
      var row := hold[Slot(numVariables, lit)];
      ghost var occ := Occurrences(cnf, lit);
      ghost var seen: set<int> := {};
      var k := 0;
      while row[k] >= 0
        invariant Valid() && row == hold[Slot(numVariables, lit)] && row[..] == occ + [-1]
        invariant 0 <= k <= |occ|
        invariant forall t :: 0 <= t < k ==> occ[t] in seen
        invariant forall c :: c in seen ==> c in occ
        invariant forall c :: 0 <= c < numClauses ==>
          constraints[c] == (old(constraints[c]) || (c in seen && !ClauseSat(cnf[c], solution[..])))
        decreases |occ| - k
      {
        var i := row[k];
        Recheck(i);
        seen := seen + {i};
        k := k + 1;
      }
      assert k == |occ|;
    }

    /** Lines 449-463: x's variable is unassigned; assign it so that x holds,
        deactivate the clauses holding x, recheck the clauses holding -x. */
    method Assign(x: int)
      requires Valid() && Consistent() && 0 < Abs(x) <= numVariables && solution[Abs(x)] == Unassigned
      modifies this`numConstraints, constraints, milestones, solution
      ensures Valid() && Consistent()
      ensures solution[..] == old(solution[..])[Abs(x) := Satisfying(x)]
    {
      ghost var before := solution[..];
      solution[Abs(x)] := Satisfying(x);
      assert solution[..] == before[Abs(x) := Satisfying(x)];
      ExtractAll(x);
      Reactivate(-x);
      forall c | 0 <= c < numClauses
        ensures constraints[c] == !ClauseSat(cnf[c], solution[..])
      {
        AssignEffect(cnf[c], before, x);
      }
    }

    /** Lines 464-480: x's variable is assigned; unassign it and recheck the
        clauses holding x or -x. */
    method Unassign(x: int)
      requires Valid() && Consistent() && 0 < Abs(x) <= numVariables && solution[Abs(x)] != Unassigned
      modifies this`numConstraints, constraints, milestones, solution
      ensures Valid() && Consistent()
      ensures solution[..] == old(solution[..])[Abs(x) := Unassigned]
    {
      ghost var before := solution[..];
      solution[Abs(x)] := Unassigned;
      assert solution[..] == before[Abs(x) := Unassigned];
      Reactivate(x);
      Reactivate(-x);
      forall c | 0 <= c < numClauses
        ensures constraints[c] == !ClauseSat(cnf[c], solution[..])
      {
        UnassignEffect(cnf[c], before, Abs(x));
      }
    }

    /** Lines 447-480: one iteration of the search loop. */
    method Step(d: Draw) returns (i: int, x: int)
      requires Valid() && Consistent() && numConstraints > 0 && |d.probes| == SAMPLE_PARAM
      modifies this`numConstraints, constraints, milestones, solution
      ensures Valid() && Consistent()
      ensures 0 <= i < numClauses && old(constraints[i]) && x in cnf[i]
      ensures if numClauses / old(numConstraints) < SAMPLE_PARAM && FirstHit(old(constraints[..]), d.probes) < |d.probes|
              then i == d.probes[FirstHit(old(constraints[..]), d.probes)] % numClauses
              else i == Scan(old(constraints[..]), d.rank % old(numConstraints))
      ensures (exists l :: l in cnf[i] && 0 <= Abs(l) < solution.Length && old(solution[Abs(l)]) == Unassigned) ==>
        old(solution[Abs(x)]) == Unassigned
      ensures var free := Free(cnf[i], old(solution[..]));
        x == if |free| > 0 then free[d.pick % |free|] else cnf[i][d.pick % |cnf[i]|]
      ensures !LitTrue(x, old(solution[..]))
      ensures old(solution[Abs(x)]) != Unassigned ==> old(solution[Abs(x)]) == Satisfying(-x)
      ensures solution[..] == old(solution[..])[Abs(x) :=
        if old(solution[Abs(x)]) == Unassigned then Satisfying(x) else Unassigned]
      ensures Moves(old(solution[..]), solution[..])
    {
      i := Find(d.rank % numConstraints, d.probes);
      x := Elect(i, d.pick);
      assert Abs(x) <= numVariables;
      if solution[Abs(x)] == Unassigned {
        Assign(x);
      } else {
        Unassign(x);
      }
    }

    /** Lines 440-482: iterate until no clause is active. Each iteration
        consumes one Draw; the loop also stops when the draws run out. */
    method Solve(draws: seq<Draw>) returns (steps: nat)
      requires Valid() && Consistent()
      requires forall t :: 0 <= t < |draws| ==> |draws[t].probes| == SAMPLE_PARAM
      modifies this`numConstraints, constraints, milestones, solution
      ensures Valid() && Consistent()
      ensures steps <= |draws| && (numConstraints == 0 || steps == |draws|)
      ensures numConstraints == 0 <==> FormulaSat(cnf, solution[..])
    {
      steps := 0;
      while numConstraints > 0 && steps < |draws|
        invariant Valid() && Consistent() && steps <= |draws|
        decreases |draws| - steps
      {
        var _, _ := Step(draws[steps]);
        steps := steps + 1;
      }
      NoActiveIffSolved(cnf, constraints[..], solution[..]);
    }
  }

  /** The literals of c whose variable is unassigned, in clause order. */
  function Free(c: seq<int>, sol: seq<State>): seq<int>
  {
    if c == [] then []
    else
      var l := c[|c| - 1];
      Free(c[..|c| - 1], sol) + (if Abs(l) < |sol| && sol[Abs(l)] == Unassigned then [l] else [])
  }

  /** The free literals are exactly the literals of c with an unassigned variable. */
  lemma {:induction false} FreeMember(c: seq<int>, sol: seq<State>)
    ensures forall l :: l in Free(c, sol) <==> l in c && Abs(l) < |sol| && sol[Abs(l)] == Unassigned
    decreases |c|
  {
    if c != [] {
      FreeMember(c[..|c| - 1], sol);
      assert c == c[..|c| - 1] + [c[|c| - 1]];
    }
  }

  /** With the flags tracking violation, no flag is set exactly when every
      clause is satisfied: the loop's exit test is the verifier's verdict. */
  lemma NoActiveIffSolved(cnf: seq<seq<int>>, flags: seq<bool>, sol: seq<State>)
    requires |flags| == |cnf|
    requires forall i :: 0 <= i < |cnf| ==> flags[i] == !ClauseSat(cnf[i], sol)
    ensures Count(flags, |flags|) == 0 <==> FormulaSat(cnf, sol)
  {
    CountZero(flags, |flags|);
  }

  /** Lines 500-504 without the printing: build, solve, verify. */
  method Run(db: seq<seq<int>>, draws: seq<Draw>) returns (assignment: seq<State>, solved: bool, verified: bool)
    requires WellFormed(db)
    requires forall t :: 0 <= t < |draws| ==> |draws[t].probes| == SAMPLE_PARAM
    ensures verified <==> FormulaSat(db, assignment)
    ensures solved <==> verified
  {
    var engine := new Engine(db);
    var _ := engine.Solve(draws);
    solved := engine.numConstraints == 0;
    var r := engine.Verify();
    verified := r == 1;
    assignment := engine.solution[..];
  }
}
