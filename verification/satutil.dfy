/** Satisfaction of clauses and formulas by an interpretation (satutil.py).

    An interpretation is the list the solver fills in: index `v` holds the value of
    variable `v`, or nothing yet (Python's `None`, which counts as false). Index 0
    is a placeholder. */
module SatUtil {
  import opened Cnf
  import opened Wrappers

  type Interpretation = seq<Option<bool>>

  /** Python truthiness of an entry: only a stored `True` is true. */
  predicate Truthy(v: Option<bool>)
  {
    v == Some(true)
  }

  /** Every literal of `clause` names an entry of the interpretation. */
  predicate InRange(clause: Clause, interp: Interpretation)
  {
    forall l | l in clause :: Abs(l) < |interp|
  }

  /** Every clause of `clauses` is in range. */
  predicate AllInRange(clauses: set<Clause>, interp: Interpretation)
  {
    forall c | c in clauses :: InRange(c, interp)
  }

  /** The test of satutil.py:26: a positive literal is true when its variable is
      true, a negative one when its variable is not. */
  predicate LitTrue(l: Lit, interp: Interpretation)
    requires Abs(l) < |interp|
  {
    if l > 0 then Truthy(interp[l]) else !Truthy(interp[-l])
  }

  /** isClauseSatisfied (satutil.py:17-28): some literal of the clause is true. */
  predicate ClauseSatisfied(clause: Clause, interp: Interpretation)
    requires InRange(clause, interp)
  {
    exists l | l in clause :: LitTrue(l, interp)
  }

  /** satisfies (satutil.py:32-41): every clause is satisfied. */
  predicate Satisfies(clauses: set<Clause>, interp: Interpretation)
    requires AllInRange(clauses, interp)
  {
    forall c | c in clauses :: ClauseSatisfied(c, interp)
  }

  /** numSatisfiedClauses (satutil.py:45-51): the satisfied clauses counted in
      iteration order. */
  function NumSatisfiedClauses(cs: seq<Clause>, interp: Interpretation): nat
    requires forall i | 0 <= i < |cs| :: InRange(cs[i], interp)
  {
    if cs == [] then 0
    else NumSatisfiedClauses(cs[..|cs| - 1], interp) + (if ClauseSatisfied(cs[|cs| - 1], interp) then 1 else 0)
  }

  /** The count of satisfied clauses lies between 0 and the number of clauses, and
      reaches that number exactly when every clause is satisfied. */
  lemma {:induction false} NumSatisfiedClausesBounds(cs: seq<Clause>, interp: Interpretation)
    requires forall i | 0 <= i < |cs| :: InRange(cs[i], interp)
    ensures NumSatisfiedClauses(cs, interp) <= |cs|
    ensures NumSatisfiedClauses(cs, interp) == |cs| <==> forall i | 0 <= i < |cs| :: ClauseSatisfied(cs[i], interp)
  {
    if cs != [] {
      var p := cs[..|cs| - 1];
      NumSatisfiedClausesBounds(p, interp);
      if NumSatisfiedClauses(cs, interp) == |cs| {
        forall i | 0 <= i < |cs|
          ensures ClauseSatisfied(cs[i], interp)
        {
          if i < |p| {
            assert cs[i] == p[i];
          }
        }
      }
      if forall i | 0 <= i < |cs| :: ClauseSatisfied(cs[i], interp) {
        forall i | 0 <= i < |p|
          ensures ClauseSatisfied(p[i], interp)
        {
          assert p[i] == cs[i];
        }
      }
    }
  }

  /** Counting the clauses of a list that enumerates a set: all are satisfied
      exactly when the set is satisfied. */
  lemma NumSatisfiedClausesOfSet(cs: seq<Clause>, clauses: set<Clause>, interp: Interpretation)
    requires forall c :: c in clauses <==> c in cs
    requires AllInRange(clauses, interp)
    ensures forall i | 0 <= i < |cs| :: InRange(cs[i], interp)
    ensures NumSatisfiedClauses(cs, interp) == |cs| <==> Satisfies(clauses, interp)
  {
    assert forall i | 0 <= i < |cs| :: cs[i] in clauses;
    NumSatisfiedClausesBounds(cs, interp);
    if Satisfies(clauses, interp) {
      assert forall i | 0 <= i < |cs| :: ClauseSatisfied(cs[i], interp);
    }
    if forall i | 0 <= i < |cs| :: ClauseSatisfied(cs[i], interp) {
      forall c | c in clauses
        ensures ClauseSatisfied(c, interp)
      {
        var i :| 0 <= i < |cs| && cs[i] == c;
      }
    }
  }

  /** numSatisfiedWeightedClauses (satutil.py:55-63): the weights of the satisfied
      clauses summed in iteration order; only satisfied clauses are looked up. */
  function NumSatisfiedWeightedClauses(cs: seq<Clause>, interp: Interpretation, weights: map<Clause, int>): int
    requires forall i | 0 <= i < |cs| :: InRange(cs[i], interp)
    requires forall i | 0 <= i < |cs| :: ClauseSatisfied(cs[i], interp) ==> cs[i] in weights
  {
    if cs == [] then 0
    else
      var last := cs[|cs| - 1];
      NumSatisfiedWeightedClauses(cs[..|cs| - 1], interp, weights) + (if ClauseSatisfied(last, interp) then weights[last] else 0)
  }

  /** With every weight 1 the weighted count is the plain count, and with
      nonnegative weights it lies between 0 and the total weight. */
  lemma {:induction false} WeightedCount(cs: seq<Clause>, interp: Interpretation, weights: map<Clause, int>)
    requires forall i | 0 <= i < |cs| :: InRange(cs[i], interp) && cs[i] in weights && weights[cs[i]] >= 0
    ensures 0 <= NumSatisfiedWeightedClauses(cs, interp, weights) <= TotalWeight(cs, weights)
    ensures (forall i | 0 <= i < |cs| :: weights[cs[i]] == 1) ==>
      NumSatisfiedWeightedClauses(cs, interp, weights) == NumSatisfiedClauses(cs, interp)
  {
    if cs != [] {
      var p := cs[..|cs| - 1];
      assert forall i | 0 <= i < |p| :: p[i] == cs[i];
      WeightedCount(p, interp, weights);
    }
  }

  /** The weights of all the clauses of `cs`. */
  function TotalWeight(cs: seq<Clause>, weights: map<Clause, int>): int
    requires forall i | 0 <= i < |cs| :: cs[i] in weights
  {
    if cs == [] then 0 else TotalWeight(cs[..|cs| - 1], weights) + weights[cs[|cs| - 1]]
  }

  /** The test of satutil.py:77-78, which, unlike `LitTrue`, counts no literal 0. */
  predicate LitCounted(l: Lit, interp: Interpretation)
    requires Abs(l) < |interp|
  {
    (Truthy(interp[Abs(l)]) && l > 0) || (!Truthy(interp[Abs(l)]) && l < 0)
  }

  /** The literals of `clause` that satutil.py:77-78 counts as true. */
  function CountedLits(clause: Clause, interp: Interpretation): set<Lit>
    requires InRange(clause, interp)
  {
    set l | l in clause && LitCounted(l, interp)
  }

  /** numSatisfiedLiterals (satutil.py:67-81): counts the true literals of a
      clause, one literal at a time. A literal whose variable lies beyond the
      interpretation raises IndexError at satutil.py:77; that is the `None`
      result. */
  method NumSatisfiedLiterals(clause: Clause, interp: Interpretation) returns (r: Option<nat>)
    ensures r.None? <==> !InRange(clause, interp)
    ensures r.Some? ==> r.value == |CountedLits(clause, interp)|
    ensures r.Some? ==> r.value <= |clause|
    ensures r.Some? && 0 !in clause ==> (r.value > 0 <==> ClauseSatisfied(clause, interp))
  {
    var satlits := 0;
    var todo := clause;
    while todo != {}
      invariant todo <= clause
      invariant InRange(clause - todo, interp)
      invariant satlits == |CountedLits(clause - todo, interp)|
      decreases todo
    {
      var lit := Pick(todo);
      ghost var seen := clause - todo;
      todo := todo - {lit};
      var v := Abs(lit);
      if v >= |interp| {
        return None;
      }
      if (Truthy(interp[v]) && lit > 0) || (!Truthy(interp[v]) && lit < 0) {
        assert CountedLits(clause - todo, interp) == CountedLits(seen, interp) + {lit};
        satlits := satlits + 1;
      } else {
        assert CountedLits(clause - todo, interp) == CountedLits(seen, interp);
      }
    }
    assert clause - todo == clause;
    CountedLitsBound(clause, interp);
    r := Some(satlits);
  }

  /** The counted literals are literals of the clause, and without a literal 0
      there is one exactly when the clause is satisfied. */
  lemma CountedLitsBound(clause: Clause, interp: Interpretation)
    requires InRange(clause, interp)
    ensures |CountedLits(clause, interp)| <= |clause|
    ensures 0 !in clause ==> (|CountedLits(clause, interp)| > 0 <==> ClauseSatisfied(clause, interp))
  {
    var s := CountedLits(clause, interp);
    assert s <= clause;
    SubsetCard(s, clause);
    if 0 !in clause {
      if |s| > 0 {
        var l :| l in s;
        assert LitTrue(l, interp);
      }
      if ClauseSatisfied(clause, interp) {
        var l :| l in clause && LitTrue(l, interp);
        assert l in s;
      }
    }
  }

  /** A subset is no larger than its superset. */
  lemma {:induction false} SubsetCard<T>(a: set<T>, b: set<T>)
    requires a <= b
    ensures |a| <= |b|
    decreases |b|
  {
    if a != {} {
      var x :| x in a;
      SubsetCard(a - {x}, b - {x});
    }
  }

  /** isTautology (satutil.py:85-92): the clause holds a literal and its
      negation. */
  predicate IsTautology(clause: Clause)
  {
    exists l | l in clause :: -l in clause
  }

  /** A tautology without the literal 0 is satisfied by every interpretation,
      whatever it leaves unset. */
  lemma TautologyAlwaysSatisfied(clause: Clause, interp: Interpretation)
    requires IsTautology(clause) && 0 !in clause && InRange(clause, interp)
    ensures ClauseSatisfied(clause, interp)
  {
    var l :| l in clause && -l in clause;
    if !LitTrue(l, interp) {
      assert LitTrue(-l, interp);
    }
  }

  /** What removeTautologies (satutil.py:95-108) does to its argument: the scan
      stops at the first tautology it meets, so at most one clause goes, and one
      goes whenever there is a tautology at all. */
  ghost predicate RemovedFirstTautology(clauses: set<Clause>, r: set<Clause>)
  {
    && r <= clauses
    && (forall c | c in clauses - r :: IsTautology(c))
    && |clauses - r| <= 1
    && ((exists c | c in clauses :: IsTautology(c)) ==> |clauses - r| == 1)
  }

  /** removeTautologies as written (satutil.py:95-108): the loop breaks after the
      first tautology, so at most one clause is removed. The caller's set is
      updated in place; here the new set is returned. */
  method RemoveTautologiesAsWritten(clauses: set<Clause>) returns (r: set<Clause>)
    ensures RemovedFirstTautology(clauses, r)
  {
    var tautologies: set<Clause> := {};
    var todo := clauses;
    while todo != {}
      invariant todo <= clauses && tautologies == {}
      invariant forall c | c in clauses - todo :: !IsTautology(c)
      decreases todo
    {
      var c := Pick(todo);
      todo := todo - {c};
      if IsTautology(c) {
        tautologies := tautologies + {c};
        break;
      }
    }
    assert tautologies <= clauses && |tautologies| <= 1;
    assert (exists c | c in clauses :: IsTautology(c)) ==> tautologies != {};
    r := clauses - tautologies;
    assert clauses - r == tautologies;
  }

  /** Two tautologies: whichever the scan meets first, the other survives. */
  lemma RemoveTautologiesKeepsOne(r: set<Clause>)
    requires RemovedFirstTautology({{1, -1}, {2, -2}}, r)
    ensures exists c | c in r :: IsTautology(c)
  {
    var a: Clause := {1, -1};
    var b: Clause := {2, -2};
    assert -1 in a && -2 in b && a != b;
    assert IsTautology(a) && IsTautology(b);
    assert a in r || b in r;
  }

  /** removeTautologies as its documentation describes it: every tautology is
      removed and nothing else. */
  method RemoveTautologies(clauses: set<Clause>) returns (r: set<Clause>)
    ensures r <= clauses
    ensures forall c | c in r :: !IsTautology(c)
    ensures forall c | c in clauses && !IsTautology(c) :: c in r
  {
    var tautologies: set<Clause> := {};
    var todo := clauses;
    while todo != {}
      invariant todo <= clauses && tautologies <= clauses
      invariant forall c | c in clauses - todo :: c in tautologies <==> IsTautology(c)
      invariant forall c | c in tautologies :: c !in todo
      decreases todo
    {
      var c := Pick(todo);
      todo := todo - {c};
      if IsTautology(c) {
        tautologies := tautologies + {c};
      }
    }
    r := clauses - tautologies;
  }
}
