# uniform: a verified model of a stochastic local-search SAT solver

`uniform.c` reads a CNF clause database and searches for a satisfying
assignment. It picks a violated clause uniformly at random, then either
assigns one of its unassigned variables so that the clause holds, or
unassigns one of its assigned variables. It stops when no clause is
violated, then checks the assignment with `verify`.

This project models the solver section (`abs`, `get_size`, `is_solved`,
`insert`, `extract`, `initiate`, `verify`, `find`, `elect`, `solve`) and the
`get_size; initiate; solve; verify` sequence of `main`. The modules:

- `Cnf` (cnf.dfy) covers literals, the three-valued variable state and
  clause satisfaction. `State` stands for the characters `'{'`, `'|'` and `'}'`.
  `Offset` keeps the source's `solution[v] - '|'` arithmetic.
- `Tally` (tally.dfy) holds three pieces:
  - counting of active flags;
  - the linear-scan rank query that `find` must agree with;
  - the random-probe sequence and the block arithmetic behind `milestones`.
- `Occurrence` (occurrence.dfy) builds the per-literal occurrence lists
  `hold[num_variables + lit + 1]`. `Occurrences` is their reference
  definition, and the three loops of `initiate` that build them are methods.
- `Uniform` (uniform.dfy) turns the source's process-wide variables into
  the fields of one class, `Engine`:
  - fields written only by `get_size`/`initiate` are `const`s set by the constructor;
  - `num_constraints` is a `var`;
  - `solution`, `constraints`, `hold_size`, `hold` and `milestones` are arrays that the methods update in place.
- `Scenarios` (scenarios.dfy) holds three small databases whose outcome is fixed.

The invariants the engine keeps:

- `ActiveValid`:
  - `numConstraints` is the number of active flags;
  - for every block boundary `k`, `milestones[k]` counts the active flags before `min(k*step, num_clauses)`.
- `IndexValid`: every row of `hold` is its literal's occurrence list (ascending clause indices, one entry per occurrence) followed by `-1`.
- `Consistent`: a clause is flagged active exactly when it is not satisfied.

`Solve` keeps all three across every iteration. `Run` proves that the loop's
exit test (no active clause) holds exactly when `verify` returns 1.

## Model

| member | source | states |
|---|---|---|
| Cnf.Abs | uniform.c:196-201 | the result is x or -x and is never negative |
| Cnf.Code | uniform.c:449-465 | the three states are encoded as '{', '\|' and '}', unassigned exactly as '\|' and true exactly as '}' |
| Cnf.Satisfying | uniform.c:450 | the value that makes literal x true is assigned: true for a positive literal, false for a negative one |
| Cnf.Offset | uniform.c:231 | `solution[v] - '\|'` is -1, 0 or 1; it is 0 exactly for an unassigned variable and 1 exactly for a true one |
| Cnf.SignTest | uniform.c:229-235 | `is_solved`'s test `lit * (solution[abs(lit)] - '\|') > 0` holds exactly when the literal is true: positive with a true variable or negative with a false one |
| Cnf.UnassignedNeverTrue | uniform.c:231 | a literal whose variable is unassigned is never true |
| Cnf.AllUnassignedNothingSat | uniform.c:282-298 | with every variable unassigned no clause is satisfied, so flagging every clause active is consistent |
| Cnf.AssignEffect | uniform.c:449-463 | assigning x's variable so that x is true satisfies every clause holding x and changes no other clause's status |
| Cnf.UnassignEffect | uniform.c:464-480 | unassigning a variable never satisfies a clause that was violated, and leaves clauses with neither of its literals unchanged |
| Tally.CountUpdate | uniform.c:247-254 | flipping one flag changes the active count of each prefix that covers it by exactly the difference and leaves shorter prefixes alone |
| Tally.CountZero | uniform.c:446 | a prefix has no active flag exactly when its count is zero |
| Tally.FirstHit | uniform.c:392-400 | the result is the position of the first random probe that lands on an active clause; every earlier probe misses, and the result is the probe count when all miss |
| Tally.ScanFinds | uniform.c:402-411 | when more than r clauses are active, the linear scan returns an active clause with exactly r active clauses before it |
| Tally.ScanUnique | uniform.c:402-411 | an active clause with exactly r active clauses before it is the answer of the linear scan, so the rank query has a single answer |
| Tally.StepFor | uniform.c:336-338 | the block size is num_clauses/MILESTONE_PARAM, raised to 100 when smaller |
| Tally.Boundary | uniform.c:344-348 | boundary k is min(k*step, num_clauses): never beyond the clause array or beyond k*step, and equal to one of them |
| Tally.BlockIndex | uniform.c:339-347 | boundary k lies inside the clause array exactly when k is below the block count, which is the loop bound of `initiate` and of the `insert`/`extract`/`find` scans |
| Tally.BlockOf | uniform.c:244-246 | the boundaries beyond clause i are exactly those from the first boundary after i on |
| Occurrence.LitOf | uniform.c:310 | the literal a row of `hold` belongs to: the row of that literal is the row itself |
| Occurrence.OccMember | uniform.c:322-334 | clause c is on the occurrence list of lit exactly when c is a clause index and lit occurs in clause c |
| Occurrence.OccRange | uniform.c:322-334 | every entry of an occurrence list is a clause index, so no entry is the `-1` terminator |
| Occurrence.OccSorted | uniform.c:322-334 | every occurrence list is in non-decreasing clause order |
| Occurrence.OccCount | uniform.c:322-334 | clause c appears on the list of lit as many times as lit occurs in clause c (duplicates kept) |
| Occurrence.CountOccurrences | uniform.c:300-314 | `hold_size[num_variables + lit + 1]` is the length of lit's occurrence list, for every row |
| Occurrence.AllocateRows | uniform.c:315-321 | each row is a fresh array, distinct from the others, one longer than its `hold_size` entry, and holds `-1` at its start |
| Occurrence.AppendIndex | uniform.c:326-330 | walking a `-1`-terminated row to its terminator and writing i there extends the list by i and re-terminates it |
| Occurrence.FillRows | uniform.c:322-334 | after the fill loop every row holds its literal's occurrence list followed by `-1` |
| Occurrence.FillOne | uniform.c:326-331 | appending clause i to the row of the literal at position j of clause i extends exactly that row's list, and every row still holds its list's prefix up to that occurrence |
| Occurrence.FillClause | uniform.c:324-332 | after one clause every row holds the occurrences in the clauses up to and including it |
| Occurrence.BuildIndex | uniform.c:300-334 | the counts in `hold_size` are the list lengths; the rows are fresh and pairwise distinct; each row holds its literal's occurrence list followed by `-1` |
| Tally.CountAll | uniform.c:291-348 | with every clause active each prefix counts its own length, so the initial milestones are the active counts |
| Occurrence.AppendFits | uniform.c:326-330 | a partly filled row still has room for the next entry and its terminator |
| Uniform.GetSize | uniform.c:203-224 | num_variables is 0 for a database without literals and otherwise the largest literal magnitude; num_clauses is the number of rows |
| Uniform.InitSolution | uniform.c:282-289 | every variable starts unassigned |
| Uniform.InitConstraints | uniform.c:291-298 | every clause starts active |
| Uniform.InitMilestones | uniform.c:336-348 | the block size follows StepFor; the block count is the least n with n*step >= num_clauses; boundary k holds min(k*step, num_clauses), which is the active count before it when every clause is active |
| Uniform.Engine.constructor | uniform.c:276-349 | after `get_size` and `initiate` all three invariants hold; every variable is unassigned, every clause is active, num_constraints equals num_clauses, and `hold_size` holds the list lengths |
| Uniform.Engine.IsSolved | uniform.c:226-236 | the result is true exactly when some literal of the clause is true |
| Uniform.Engine.Verify | uniform.c:372-383 | returns 1 exactly when every clause is satisfied, 0 otherwise |
| Uniform.Engine.LastMilestone | uniform.c:348 | the last milestone, at boundary num_clauses, equals num_constraints |
| Uniform.Engine.FirstBoundaryAfter | uniform.c:244-246 | the first boundary index whose boundary lies beyond clause i; the boundaries beyond i are exactly those from it on |
| Uniform.Engine.Shift | uniform.c:247-251 | every milestone from index j on moves by delta and the earlier ones are unchanged |
| Uniform.Engine.Insert | uniform.c:238-255 | on an active clause it reports Exists and changes nothing. Otherwise it reports Created, sets only that flag, adds one to num_constraints and to every milestone whose boundary lies beyond i, and the rank invariant still holds |
| Uniform.Engine.Extract | uniform.c:257-274 | on an inactive clause it reports Exists and changes nothing. Otherwise it reports Created, clears only that flag, subtracts one from num_constraints and from every milestone whose boundary lies beyond i, and the rank invariant still holds |
| Uniform.Engine.Probe | uniform.c:392-400 | reports a hit exactly when some probe lands on an active clause, and then returns the first such clause |
| Uniform.Engine.BlockFor | uniform.c:401-404 | returns the first boundary whose count exceeds r: that milestone is above r and every earlier one is at most r. The block before it starts inside the clause array |
| Uniform.Engine.RankScan | uniform.c:401-411 | the block jump followed by the forward scan returns the same clause as the linear scan for rank r, and that clause lies inside the block BlockFor picks |
| Uniform.Engine.Find | uniform.c:385-412 | for 0 <= r < num_constraints it returns an active clause. That clause is the first probe hit when the active set is dense and some probe hits; otherwise it is the linear scan's r-th active clause |
| Uniform.Engine.Elect | uniform.c:416-438 | returns a literal of the clause. When some literal's variable is unassigned the result is one of those, the pick-th (mod their number) in clause order; otherwise it is the pick-th (mod length) literal of the clause |
| Uniform.FreeMember | uniform.c:419-431 | the buffer `elect` fills holds exactly the clause's literals with an unassigned variable |
| Uniform.Engine.RowOf | uniform.c:452-453 | the row of a literal lists, in order, exactly the clause indices holding it, then the `-1` that stops the walk |
| Uniform.Engine.Deactivate | uniform.c:454 | clears exactly clause i's flag and keeps `Valid` (the count, block and index invariants) |
| Uniform.Engine.Recheck | uniform.c:460-461 | sets clause i's flag when it was clear and the clause is violated, changes no other flag and keeps `Valid` (the count, block and index invariants) |
| Uniform.Engine.ExtractAll | uniform.c:451-456 | after the walk over x's list a clause is active exactly when it was active before and does not hold x |
| Uniform.Engine.Reactivate | uniform.c:457-479 | after the walk over lit's list a clause is active exactly when it was active before, or it holds lit and is violated |
| Uniform.Engine.Assign | uniform.c:449-463 | assigning the literal's variable so that it holds, then repairing the flags through the two lists, keeps every invariant and changes only that variable |
| Uniform.Engine.Unassign | uniform.c:464-480 | unassigning the variable, then rechecking the clauses on both of its lists, keeps every invariant and changes only that variable |
| Uniform.Engine.Step | uniform.c:446-480 | one iteration runs `find` on the draw's rank and probes, so the clause is the first probe hit or the linear scan's answer. It is active, and `elect` picks the literal x from it by the draw: an unassigned literal whenever the clause has one. x is false before the step. When x's variable is unassigned it gets x's satisfying value; otherwise it holds x's falsifying value and becomes unassigned. Nothing else in the assignment changes, with no jump from true to false or back. Every invariant is kept |
| Uniform.Engine.Solve | uniform.c:440-482 | the loop keeps every invariant. It stops only when no clause is active or the draws are used up, and no clause is active exactly when the assignment satisfies the database |
| Uniform.NoActiveIffSolved | uniform.c:446 | with the flags tracking violation, an active count of zero means exactly that every clause is satisfied |
| Uniform.Run | uniform.c:500-504 | `verify` accepts the final assignment exactly when it satisfies the database, and exactly when `solve` stopped because no clause was active |
| Scenarios.ContradictionUnsat | uniform.c:372-383 | no assignment satisfies the clauses (1) and (-1) |
| Scenarios.RunContradiction | uniform.c:440-482 | on the clauses (1) and (-1) the search never ends with an empty active set |
| Scenarios.SingleClauseOneStep | uniform.c:446-480 | on the single clause (1 or -2), one iteration from the initial state satisfies the clause whatever the draw, and `verify` returns 1 |
| Scenarios.TautologyClause | uniform.c:226-236 | the clause (1 or -1) is satisfied exactly when variable 1 is assigned |

## Left out

- `read_cnf`, `parse_cnf`, `get_line_length` and `skip_comments_line` (file I/O and text tokenizing) are not part of this model. The database is an input. It is a sequence of non-empty clauses without a 0 literal (`WellFormed`), which is what the parser produces on valid input.
- Printing in `main`, and `terminate` (memory release only), are left out.
- `rand()` and `srand(42)` become parameters:
  - `Find` gets the probe values;
  - `Elect` gets its draw;
  - `Solve` gets one `Draw` per iteration (rank, ten probes, pick).
  Any sequence of `rand()` results maps onto such draws, and probes that `find` never consumes are ignored.
- Uniform.Engine.Solve: the source loop runs until no clause is active and may never stop on unsatisfiable input. The model stops after `|draws|` iterations, so it proves partial correctness and no claim about termination.
- 32-bit `int` overflow is not modelled. That includes `abs` of the most negative int, the `hold` slot arithmetic and the counters; integers are unbounded.
- The fixed `int buffer[69]` in `elect` is modelled as an unbounded sequence. The overflow on clauses with more than 68 unassigned literals is not modelled.
- The `'\0'` terminators of `solution` and `constraints` are not modelled, nor the `'s'` at `solution[0]`. `strchr` in `find` becomes a forward scan bounded by the clause count, which the invariant shows never reaches the end. Index 0 of `solution` is an unused placeholder.
- Encodings: `'y'`/`'n'` flags are booleans, `'E'`/`'C'` reports are the `Report` datatype and `'T'`/`'F'` from `is_solved` is a boolean. Variable states are the `State` datatype, with `Code` giving the source's characters.
- Allocation failure of `malloc` is not modelled.
