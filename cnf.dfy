/** Clauses, literals and the ternary assignment of the solver section of uniform.c. */
module Cnf {

  /** The state of one variable. The source stores it as the character
      '{' (false), '|' (unassigned) or '}' (true); Code gives that character. */
  datatype State = False | Unassigned | True

  /** The character the source keeps in `solution[v]` for this state. */
  function Code(s: State): (c: char)
    ensures '{' <= c <= '}'
    ensures c == '|' <==> s == Unassigned
    ensures c == '}' <==> s == True
  {
    match s
    case False => '{'
    case Unassigned => '|'
    case True => '}'
  }

  /** `solution[v] - '|'`: the sign the source multiplies a literal by. Its
      correctness rests on the order '{' < '|' < '}' of the three codes. */
  function Offset(s: State): (d: int)
    ensures -1 <= d <= 1
    ensures d == 0 <==> s == Unassigned
    ensures d == 1 <==> s == True
  {
    Code(s) as int - '|' as int
  }

  /** The source's own `abs` (overflow on the most negative int is not modelled). */
  function Abs(x: int): (r: nat)
    ensures r == x || r == -x
  {
    if x < 0 then -x else x
  }

  /** Literal l is true under sol: its variable is assigned with the matching polarity. */
  predicate LitTrue(l: int, sol: seq<State>)
  {
    0 < Abs(l) < |sol| && ((l > 0 && sol[l] == True) || (l < 0 && sol[-l] == False))
  }

  /** A clause is satisfied when one of its literals is true. */
  predicate ClauseSat(c: seq<int>, sol: seq<State>)
  {
    exists l :: l in c && LitTrue(l, sol)
  }

  /** Every clause of the database is satisfied. */
  predicate FormulaSat(cnf: seq<seq<int>>, sol: seq<State>)
  {
    forall i :: 0 <= i < |cnf| ==> ClauseSat(cnf[i], sol)
  }

  /** What the parser guarantees: rows are non-empty and, being 0-terminated, hold no 0. */
  predicate WellFormed(cnf: seq<seq<int>>)
  {
    forall i :: 0 <= i < |cnf| ==> |cnf[i]| > 0 && 0 !in cnf[i]
  }

  /** No literal of the database has a magnitude above n. */
  predicate Bounded(cnf: seq<seq<int>>, n: int)
  {
    forall i, l :: 0 <= i < |cnf| && l in cnf[i] ==> Abs(l) <= n
  }

  /** n is the value `get_size` stores in `num_variables`: 0 for a database
      without literals, otherwise the largest literal magnitude. */
  predicate IsMaxVar(cnf: seq<seq<int>>, n: int)
  {
    n >= 0 && Bounded(cnf, n) &&
    (n == 0 || exists i, l :: 0 <= i < |cnf| && l in cnf[i] && Abs(l) == n)
  }

  /** A variable moves at most between an assigned value and Unassigned,
      never directly from True to False or back. */
  predicate Moves(before: seq<State>, after: seq<State>)
  {
    |before| == |after| &&
    forall v :: 0 <= v < |before| ==>
      before[v] == after[v] || before[v] == Unassigned || after[v] == Unassigned
  }

  /** The value that makes literal x true. */
  function Satisfying(x: int): (s: State)
    ensures s != Unassigned
    ensures s == True <==> x > 0
  {
    if x > 0 then True else False
  }

  /** The sign-times-offset test of `is_solved` decides literal truth. */
  lemma SignTest(l: int, sol: seq<State>)
    requires 0 < Abs(l) < |sol|
    ensures l * Offset(sol[Abs(l)]) > 0 <==> LitTrue(l, sol)
  {
    match sol[Abs(l)]
    case False => assert l * Offset(sol[Abs(l)]) == -l;
    case Unassigned => assert l * Offset(sol[Abs(l)]) == 0;
    case True => assert l * Offset(sol[Abs(l)]) == l;
  }

  /** An unassigned variable never makes a literal true. */
  lemma UnassignedNeverTrue(l: int, sol: seq<State>)
    requires 0 < Abs(l) < |sol| && sol[Abs(l)] == Unassigned
    ensures !LitTrue(l, sol)
  {
  }

  /** Assigning x's variable from Unassigned so that x is true satisfies every
      clause holding x and changes no other clause's satisfaction. */
  lemma AssignEffect(c: seq<int>, sol: seq<State>, x: int)
    requires 0 < Abs(x) < |sol| && sol[Abs(x)] == Unassigned
    ensures x in c ==> ClauseSat(c, sol[Abs(x) := Satisfying(x)])
    ensures x !in c ==> (ClauseSat(c, sol[Abs(x) := Satisfying(x)]) <==> ClauseSat(c, sol))
  {
    var sol' := sol[Abs(x) := Satisfying(x)];
    if x in c {
      assert LitTrue(x, sol');
    } else {
      forall l | l in c
        ensures LitTrue(l, sol') <==> LitTrue(l, sol)
      {
        if Abs(l) == Abs(x) {
          assert l == -x;
        }
      }
    }
  }

  /** Unassigning variable v never satisfies a clause that was not satisfied,
      and changes nothing for a clause that mentions neither v nor -v. */
  lemma UnassignEffect(c: seq<int>, sol: seq<State>, v: int)
    requires 0 < v < |sol|
    ensures ClauseSat(c, sol[v := Unassigned]) ==> ClauseSat(c, sol)
    ensures v !in c && -v !in c ==> (ClauseSat(c, sol[v := Unassigned]) <==> ClauseSat(c, sol))
  {
    var sol' := sol[v := Unassigned];
    forall l | l in c && LitTrue(l, sol')
      ensures LitTrue(l, sol)
    {
    }
    if v !in c && -v !in c {
      forall l | l in c
        ensures LitTrue(l, sol') <==> LitTrue(l, sol)
      {
        assert Abs(l) != v;
      }
    }
  }

  /** With every variable unassigned no clause is satisfied, which is why
      `initiate` may flag every clause active. */
  lemma AllUnassignedNothingSat(cnf: seq<seq<int>>, sol: seq<State>)
    requires forall v :: 0 <= v < |sol| ==> sol[v] == Unassigned
    ensures forall i :: 0 <= i < |cnf| ==> !ClauseSat(cnf[i], sol)
  {
  }
}
