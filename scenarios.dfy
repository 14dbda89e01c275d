/** Small databases whose behaviour under the solver is fixed by the model. */
module Scenarios {
  import opened Cnf
  import opened Tally
  import Uniform

  /** The clauses (1) and (-1) have no satisfying assignment. */
  lemma ContradictionUnsat(sol: seq<State>)
    ensures !FormulaSat([[1], [-1]], sol)
  {
    var f: seq<seq<int>> := [[1], [-1]];
    assert forall l :: l in f[0] ==> l == 1;
    assert forall l :: l in f[1] ==> l == -1;
    assert !(LitTrue(1, sol) && LitTrue(-1, sol));
  }

  /** On (1) and (-1) the search never reaches an empty active set, however
      many draws it is given. */
  method RunContradiction(draws: seq<Uniform.Draw>) returns (solved: bool)
    requires forall t :: 0 <= t < |draws| ==> |draws[t].probes| == SAMPLE_PARAM
    ensures !solved
  {
    var assignment, verified;
    assignment, solved, verified := Uniform.Run([[1], [-1]], draws);
    ContradictionUnsat(assignment);
  }

  /** The clause (1 or -1) is violated while variable 1 is unassigned and
      satisfied by either value of it. */
  lemma TautologyClause(sol: seq<State>)
    requires |sol| >= 2
    ensures ClauseSat([1, -1], sol) <==> sol[1] != Unassigned
  {
    if sol[1] == True {
      assert LitTrue(1, sol);
    } else if sol[1] == False {
      assert LitTrue(-1, sol);
    }
  }

  /** The single clause (1 or -2): every variable starts unassigned, so the
      first iteration assigns the chosen literal's variable so that it holds,
      and `verify` then accepts, whatever the draw. */
  method SingleClauseOneStep(d: Uniform.Draw) returns (r: int)
    requires |d.probes| == SAMPLE_PARAM
    ensures r == 1
  {
    var e := new Uniform.Engine([[1, -2]]);
    var i, x := e.Step(d);
    assert i == 0;
    assert LitTrue(x, e.solution[..]);
    assert ClauseSat(e.cnf[0], e.solution[..]);
    r := e.Verify();
  }
}
