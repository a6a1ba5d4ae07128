/** The DPLL search of dpll.py: unit propagation, pure-literal elimination and
    the recursive split on a variable, all written as reversible edits of the
    clause database, with the change logs replayed on backtracking.

    The search is specified against `Assign`, the formula that remains once a
    literal is made true, and against satisfiability by a total assignment. A
    true answer leaves an interpretation that satisfies every input clause, and
    a false answer means that no assignment satisfies them. */
module Dpll {
  import opened Cnf
  import opened Wrappers
  import opened DpllDatabase
  import SatUtil
  import DataUtil
  import Heuristics
  import FanSATstic

  /** A Python set of variables that the search updates in place (`variables`
      and `used_vars`). */
  class VarSet {
    var elems: set<int>

    constructor (elems: set<int>)
      ensures this.elems == elems
    {
      this.elems := elems;
    }
  }

  /** The formula that remains once `lit` is true: the clauses holding `lit` are
      gone and `-lit` is taken out of the others. */
  function Assign(cs: set<Clause>, lit: Lit): set<Clause>
  {
    set c | c in cs && lit !in c :: c - {-lit}
  }

  /** A total assignment of truth values to variables. */
  type Assignment = int -> bool

  /** A literal is true under `a`. */
  predicate Holds(a: Assignment, l: Lit)
  {
    if l > 0 then a(l) else !a(-l)
  }

  /** Every clause has a literal true under `a`. */
  ghost predicate Models(a: Assignment, cs: set<Clause>)
  {
    forall c | c in cs :: exists l | l in c :: Holds(a, l)
  }

  /** Some assignment makes every clause true. */
  ghost predicate Satisfiable(cs: set<Clause>)
  {
    exists a: Assignment :: Models(a, cs)
  }

  /** An assignment that makes `lit` true and satisfies a formula satisfies the
      formula that remains once `lit` is true. */
  lemma ModelsAssign(a: Assignment, cs: set<Clause>, lit: Lit)
    requires lit != 0 && Models(a, cs) && Holds(a, lit)
    ensures Models(a, Assign(cs, lit))
  {
    forall c' | c' in Assign(cs, lit)
      ensures exists l | l in c' :: Holds(a, l)
    {
      var c :| c in cs && lit !in c && c' == c - {-lit};
      var l :| l in c && Holds(a, l);
      assert l != -lit;
      assert l in c';
    }
  }

  /** A formula with the unit clause `{lit}` is satisfiable only if what
      remains once `lit` is true is. */
  lemma UnitKeepsSatisfiable(cs: set<Clause>, lit: Lit)
    requires lit != 0 && {lit} in cs && Satisfiable(cs)
    ensures Satisfiable(Assign(cs, lit))
  {
    var a :| Models(a, cs);
    var l :| l in {lit} && Holds(a, l);
    ModelsAssign(a, cs, lit);
  }

  /** A formula holding both `{lit}` and `{-lit}` is unsatisfiable. */
  lemma ConflictUnsatisfiable(cs: set<Clause>, lit: Lit)
    requires lit != 0 && {lit} in cs && {-lit} in cs
    ensures !Satisfiable(cs)
  {
    forall a: Assignment
      ensures !Models(a, cs)
    {
      if Holds(a, lit) {
        assert !exists l | l in {-lit} :: Holds(a, l);
      } else {
        assert !exists l | l in {lit} :: Holds(a, l);
      }
    }
  }

  /** When `-lit` occurs nowhere, making `lit` true only drops clauses, so a
      satisfiable formula stays satisfiable. */
  lemma PureKeepsSatisfiable(cs: set<Clause>, lit: Lit)
    requires forall c | c in cs :: -lit !in c
    requires Satisfiable(cs)
    ensures Satisfiable(Assign(cs, lit))
  {
    var a :| Models(a, cs);
    forall c' | c' in Assign(cs, lit)
      ensures exists l | l in c' :: Holds(a, l)
    {
      var c :| c in cs && lit !in c && c' == c - {-lit};
      assert c' == c;
    }
    assert Models(a, Assign(cs, lit));
  }

  /** A formula is satisfiable only if it stays so with `v` true or with `v`
      false: the split of dpllBranch loses no model. */
  lemma SplitKeepsSatisfiable(cs: set<Clause>, v: int)
    requires v != 0 && Satisfiable(cs)
    ensures Satisfiable(Assign(cs, v)) || Satisfiable(Assign(cs, -v))
  {
    var a :| Models(a, cs);
    if Holds(a, v) {
      ModelsAssign(a, cs, v);
    } else {
      ModelsAssign(a, cs, -v);
    }
  }

  /** Making `lit` true in a formula holding `{-lit}` leaves the empty clause,
      which nothing satisfies. */
  lemma AssignFalsifiedUnit(cs: set<Clause>, lit: Lit)
    requires lit != 0 && {-lit} in cs
    ensures {} in Assign(cs, lit)
    ensures !Satisfiable(Assign(cs, lit))
  {
    assert lit !in {-lit} && {-lit} - {-lit} == {};
    forall a: Assignment
      ensures !Models(a, Assign(cs, lit))
    {
      assert {} in Assign(cs, lit);
    }
  }

  /** An interpretation that satisfies a formula gives an assignment that
      models it. */
  lemma SatisfiesIsSatisfiable(cs: set<Clause>, interp: SatUtil.Interpretation)
    requires SatUtil.AllInRange(cs, interp) && SatUtil.Satisfies(cs, interp)
    ensures Satisfiable(cs)
  {
    var a: Assignment := v => 0 <= v < |interp| && SatUtil.Truthy(interp[v]);
    forall c | c in cs
      ensures exists l | l in c :: Holds(a, l)
    {
      var l :| l in c && SatUtil.LitTrue(l, interp);
      assert Holds(a, l);
    }
    assert Models(a, cs);
  }

  /** The literals of `c` whose variables are still free. */
  function Reduct(c: Clause, free: set<int>): Clause
  {
    set l | l in c && Abs(l) in free
  }

  /** Some literal of `c` has an assigned variable and is true. */
  ghost predicate Decided(c: Clause, free: set<int>, interp: SatUtil.Interpretation)
  {
    exists l | l in c :: Abs(l) !in free && Abs(l) < |interp| && SatUtil.LitTrue(l, interp)
  }

  /** Every literal of the input lies in [-n, n] and is not 0. */
  ghost predicate InputRange(input: set<Clause>, n: nat)
  {
    forall c, l | c in input && l in c :: 0 < Abs(l) <= n
  }

  /** The free variables are among 1..n. */
  ghost predicate FreeRange(free: set<int>, n: nat)
  {
    forall v | v in free :: 1 <= v <= n
  }

  /** Only free variables occur in the live clauses. */
  ghost predicate OnlyFree(cs: set<Clause>, free: set<int>)
  {
    forall c, l | c in cs && l in c :: Abs(l) in free
  }

  /** Every input clause is either made true by an assigned variable, or its
      free part is a live clause. */
  ghost predicate Represented(input: set<Clause>, cs: set<Clause>, free: set<int>, interp: SatUtil.Interpretation)
  {
    forall c | c in input :: Decided(c, free, interp) || Reduct(c, free) in cs
  }

  /** The invariant of the search: the live clauses `cs` are what is left of
      the input under the values assigned outside `free`, and none of them is
      empty. */
  ghost predicate SearchInv(input: set<Clause>, n: nat, cs: set<Clause>, free: set<int>, interp: SatUtil.Interpretation)
  {
    && {} !in cs
    && InputRange(input, n)
    && |interp| == n + 1
    && FreeRange(free, n)
    && OnlyFree(cs, free)
    && Represented(input, cs, free, interp)
  }

  /** The invariant holds at the start: nothing is assigned and the live
      clauses are the input. */
  lemma InitialSearchInv(input: set<Clause>, n: nat, free: set<int>, interp: SatUtil.Interpretation)
    requires {} !in input && InputRange(input, n) && |interp| == n + 1 && FreeRange(free, n)
    requires forall c, l | c in input && l in c :: Abs(l) in free
    ensures SearchInv(input, n, input, free, interp)
  {
    forall c | c in input
      ensures Reduct(c, free) in input
    {
      assert Reduct(c, free) == c;
    }
  }

  /** Making a free literal true keeps the invariant, with its variable no
      longer free. */
  lemma AssignKeepsInv(input: set<Clause>, n: nat, cs: set<Clause>, free: set<int>, interp: SatUtil.Interpretation, lit: Lit)
    requires SearchInv(input, n, cs, free, interp) && Abs(lit) in free && {-lit} !in cs
    ensures SearchInv(input, n, Assign(cs, lit), free - {Abs(lit)}, interp[Abs(lit) := Some(lit > 0)])
  {
    forall k | k in cs && lit !in k
      ensures k - {-lit} != {}
    {
      MinusNonEmpty(k, -lit);
    }
    var v := Abs(lit);
    var interp' := interp[v := Some(lit > 0)];
    forall c, l | c in Assign(cs, lit) && l in c
      ensures Abs(l) in free - {v}
    {
      var k :| k in cs && lit !in k && c == k - {-lit};
    }
    forall c | c in input
      ensures Decided(c, free - {v}, interp') || Reduct(c, free - {v}) in Assign(cs, lit)
    {
      AssignKeepsClause(c, cs, free, interp, lit);
    }
  }

  /** Taking `x` out of a nonempty clause other than `{x}` leaves a literal. */
  lemma MinusNonEmpty(k: Clause, x: Lit)
    requires k != {} && k != {x}
    ensures k - {x} != {}
  {
    if k - {x} == {} {
      assert false;
    }
  }

  /** One input clause under `AssignKeepsInv`. */
  lemma AssignKeepsClause(c: Clause, cs: set<Clause>, free: set<int>, interp: SatUtil.Interpretation, lit: Lit)
    requires Abs(lit) in free && 0 < Abs(lit) < |interp|
    requires Decided(c, free, interp) || Reduct(c, free) in cs
    ensures Decided(c, free - {Abs(lit)}, interp[Abs(lit) := Some(lit > 0)])
      || Reduct(c, free - {Abs(lit)}) in Assign(cs, lit)
  {
    var v := Abs(lit);
    var interp' := interp[v := Some(lit > 0)];
    if Decided(c, free, interp) {
      var l :| l in c && Abs(l) !in free && Abs(l) < |interp| && SatUtil.LitTrue(l, interp);
      assert SatUtil.LitTrue(l, interp');
    } else {
      var r := Reduct(c, free);
      if lit in r {
        assert SatUtil.LitTrue(lit, interp');
      } else {
        assert Reduct(c, free - {v}) == r - {-lit};
      }
    }
  }

  /** With nothing left, every input clause is made true by an assigned
      variable, so the interpretation satisfies the input. */
  lemma EmptyMeansSatisfied(input: set<Clause>, n: nat, free: set<int>, interp: SatUtil.Interpretation)
    requires SearchInv(input, n, {}, free, interp)
    ensures SatUtil.AllInRange(input, interp) && SatUtil.Satisfies(input, interp)
  {
    forall c | c in input
      ensures SatUtil.ClauseSatisfied(c, interp)
    {
      assert Decided(c, free, interp);
    }
  }

  /** The invariant reads the interpretation only at assigned variables. */
  lemma InvIgnoresFree(input: set<Clause>, n: nat, cs: set<Clause>, free: set<int>, interp: SatUtil.Interpretation, interp': SatUtil.Interpretation)
    requires SearchInv(input, n, cs, free, interp) && |interp'| == |interp|
    requires forall v | 0 <= v < |interp| && v !in free :: interp'[v] == interp[v]
    ensures SearchInv(input, n, cs, free, interp')
  {
    forall c | c in input && Decided(c, free, interp)
      ensures Decided(c, free, interp')
    {
      var l :| l in c && Abs(l) !in free && Abs(l) < |interp| && SatUtil.LitTrue(l, interp);
      assert SatUtil.LitTrue(l, interp');
    }
  }

  /** A key of a consistent index is a literal of some live clause, and the
      other way round. */
  lemma BucketMeansOccurs(d: Db, l: Lit)
    requires Consistent(d)
    ensures l in d.litclauses <==> exists c | c in d.clauses :: l in c
  {
    if l in d.litclauses {
      var c :| c in d.litclauses[l];
    }
  }

  /** Retiring the clauses that hold `lit` and then shortening the rest by
      `-lit` makes `lit` true. */
  lemma ShortenRemoved(cs: set<Clause>, lit: Lit)
    ensures Shorten(Retired(cs, lit), -lit) == Assign(cs, lit)
  {
  }

  /** Shortening by `-lit` and then retiring the clauses that hold `lit` makes
      `lit` true, the order dpllBranch uses. */
  lemma RemovedShortened(cs: set<Clause>, lit: Lit)
    requires lit != 0
    ensures Retired(Shorten(cs, -lit), lit) == Assign(cs, lit)
  {
    forall k | k in Assign(cs, lit)
      ensures k in Shorten(cs, -lit) && lit !in k
    {
      var c :| c in cs && lit !in c && k == c - {-lit};
    }
    forall k | k in Shorten(cs, -lit) && lit !in k
      ensures k in Assign(cs, lit)
    {
      var c :| c in cs && k == c - {-lit};
      assert lit !in c;
    }
  }

  /** Where no clause left after retiring those holding `lit` has `-lit`,
      retiring them is all that making `lit` true does. */
  lemma AssignWithoutNegation(cs: set<Clause>, lit: Lit)
    requires forall c | c in cs && lit !in c :: -lit !in c
    ensures Assign(cs, lit) == Retired(cs, lit)
  {
    forall c | c in cs && lit !in c
      ensures c in Assign(cs, lit)
    {
      assert c - {-lit} == c;
    }
    forall k | k in Assign(cs, lit)
      ensures k in cs && lit !in k
    {
      var c :| c in cs && lit !in c && k == c - {-lit};
      assert k == c;
    }
  }

  /** The counts are read only through `Times`, so a state with the same clauses,
      the same index and the same counts is accounted for by the same log. */
  lemma LoggedSameTimes(before: Db, d: Db, d': Db, rs: set<Removal>, ms: seq<Modification>)
    requires Logged(before, d, rs, ms)
    requires d'.clauses == d.clauses && d'.litclauses == d.litclauses && SameTimes(d'.ctimes, d.ctimes)
    ensures Logged(before, d', rs, ms)
  {
    ConsistentSameTimes(d, d');
  }

  /** Consistency reads the counts only through `Times`. */
  lemma ConsistentSameTimes(d: Db, d': Db)
    requires Consistent(d)
    requires d'.clauses == d.clauses && d'.litclauses == d.litclauses && SameTimes(d'.ctimes, d.ctimes)
    ensures Consistent(d')
  {
  }

  /** The literals of the unit clauses, in iteration order (the list
      comprehension of dpll.py:161 and dpll.py:184). */
  method UnitLiterals(clauses: set<Clause>) returns (units: seq<Lit>)
    ensures forall l :: l in units <==> {l} in clauses
    ensures forall i, j | 0 <= i < j < |units| :: units[i] != units[j]
  {
    units := [];
    var todo := clauses;
    while todo != {}
      invariant todo <= clauses
      invariant forall l :: l in units <==> {l} in clauses - todo
      invariant forall i, j | 0 <= i < j < |units| :: units[i] != units[j]
      decreases todo
    {
      var c := Pick(todo);
      todo := todo - {c};
      if |c| == 1 {
        var l := Pick(c);
        SingletonOf(c, l);
        units := units + [l];
      }
    }
  }

  /** A one-element set is the singleton of its element. */
  lemma SingletonOf(c: Clause, l: Lit)
    requires |c| == 1 && l in c
    ensures c == {l}
  {
    assert |c - {l}| == 0;
  }

  /** The edits of dpll.py:166-172 for the unit literal `lit`: retires the
      clauses holding `lit`, then shortens those holding `-lit`, which is a
      conflict exactly when `{-lit}` is live. */
  method SetUnitTrue(lit: Lit, cdata: ClausesData, cchanges: ClausesChanges, ghost before: Db)
    returns (conflict: bool, ghost m: Lit, ghost stale: set<Clause>)
    requires lit != 0 && {lit} in cdata.clauses
    requires Logged(before, cdata.View(), cchanges.rclauses, cchanges.mclauses)
    modifies cdata, cchanges
    ensures conflict <==> {-lit} in old(cdata.clauses)
    ensures conflict ==> Undoable(before, cdata.View(), cchanges.rclauses, cchanges.mclauses, m, stale)
    ensures !conflict ==> Logged(before, cdata.View(), cchanges.rclauses, cchanges.mclauses)
    ensures !conflict ==> cdata.clauses == Assign(old(cdata.clauses), lit)
  {
    ghost var c0 := cdata.clauses;
    assert lit in {lit};
    UnitInBucket(cdata.View(), lit);
    RetireBucket(lit, cdata, cchanges, before);
    ghost var c1 := cdata.clauses;
    conflict, m, stale := ShortenWithout(-lit, cdata, cchanges, before);
    UnitStep(c0, c1, lit, conflict, cdata.clauses);
  }

  /** removeClausesWithLiteral (dpll.py:231-253) on a literal with a bucket, as
      the search uses it: the clauses holding `lit` are retired, the log still
      accounts for the state and no literal gains a bucket. */
  method RetireBucket(lit: Lit, cdata: ClausesData, cchanges: ClausesChanges, ghost before: Db)
    requires lit in cdata.litclauses
    requires Logged(before, cdata.View(), cchanges.rclauses, cchanges.mclauses)
    modifies cdata, cchanges
    ensures Logged(before, cdata.View(), cchanges.rclauses, cchanges.mclauses)
    ensures cdata.clauses == Retired(old(cdata.clauses), lit)
    ensures cdata.litclauses.Keys <= old(cdata.litclauses.Keys)
  {
    ghost var d0 := cdata.View();
    ghost var rs0 := cchanges.rclauses;
    RemoveClausesWithLiteral(lit, cdata, cchanges);
    RemovedWithLogged(before, d0, rs0, cchanges.mclauses, lit, cdata.View());
    RemovedKeys(d0, lit, cdata.View());
  }

  /** Retiring a bucket gives no literal a bucket it did not have. */
  lemma RemovedKeys(d0: Db, lit: Lit, d: Db)
    requires lit in d0.litclauses && RemovedWith(d0, lit, d)
    ensures d.litclauses.Keys <= d0.litclauses.Keys
    ensures lit !in d.litclauses
  {
    forall l | l in d.litclauses.Keys
      ensures l in d0.litclauses.Keys
    {
      assert l in d.litclauses;
    }
  }

  /** Retiring the clauses holding `lit` and then shortening those holding
      `-lit` is making `lit` true; the shortening meets `{-lit}` exactly when
      it was live before. */
  lemma UnitStep(cs: set<Clause>, retired: set<Clause>, lit: Lit, conflict: bool, cs': set<Clause>)
    requires lit != 0 && retired == Retired(cs, lit)
    requires conflict <==> {-lit} in retired
    requires !conflict ==> cs' == Shorten(retired, -lit)
    ensures conflict <==> {-lit} in cs
    ensures !conflict ==> cs' == Assign(cs, lit)
  {
    assert lit !in {-lit};
    if {-lit} in cs {
      assert {-lit} in Retired(cs, lit);
    }
    ShortenRemoved(cs, lit);
  }

  /** dpll.py:170-172: when `lit` has a bucket, shortens the clauses holding it,
      a conflict exactly when `{lit}` is live; otherwise nothing holds `lit`
      and nothing changes. */
  method ShortenWithout(lit: Lit, cdata: ClausesData, cchanges: ClausesChanges, ghost before: Db)
    returns (conflict: bool, ghost m: Lit, ghost stale: set<Clause>)
    requires Logged(before, cdata.View(), cchanges.rclauses, cchanges.mclauses)
    modifies cdata, cchanges
    ensures conflict <==> {lit} in old(cdata.clauses)
    ensures conflict ==> Undoable(before, cdata.View(), cchanges.rclauses, cchanges.mclauses, m, stale)
    ensures !conflict ==> Logged(before, cdata.View(), cchanges.rclauses, cchanges.mclauses)
    ensures !conflict ==> cdata.clauses == Shorten(old(cdata.clauses), lit)
  {
    conflict, m, stale := false, 0, {};
    if lit in cdata.litclauses {
      ghost var d0 := cdata.View();
      ghost var ms0 := cchanges.mclauses;
      ghost var done, es;
      conflict, done, es := RemoveLiteralFromClauses(lit, cdata, cchanges);
      if conflict {
        ShrunkUndoable(before, d0, cchanges.rclauses, ms0, lit, done, es, cdata.View());
        m, stale := lit, done;
      } else {
        ShrunkLogged(before, d0, cchanges.rclauses, ms0, lit, es, cdata.View());
      }
    } else {
      BucketMeansOccurs(cdata.View(), lit);
      ShortenAbsent(cdata.clauses, lit);
      assert lit in {lit};
    }
  }

  /** Shortening by a literal no clause holds changes nothing. */
  lemma ShortenAbsent(cs: set<Clause>, lit: Lit)
    requires forall c | c in cs :: lit !in c
    ensures Shorten(cs, lit) == cs
  {
    forall c | c in cs
      ensures c in Shorten(cs, lit)
    {
      assert c - {lit} == c;
    }
    forall k | k in Shorten(cs, lit)
      ensures k in cs
    {
      var c :| c in cs && k == c - {lit};
      assert k == c;
    }
  }

  /** The body of the loop of dpll.py:164-180: the edits above, then the
      variable of `lit` leaves `variables`, joins `used_vars` and takes the
      value that makes `lit` true. A conflict shows the formula unsatisfiable;
      otherwise the search invariant holds with the variable assigned, and no
      model was lost. */
  method PropagateUnit(lit: Lit, variables: VarSet, cdata: ClausesData, interpretation: array<Option<bool>>,
                       usedVars: VarSet, cchanges: ClausesChanges, ghost before: Db, ghost input: set<Clause>, ghost n: nat)
    returns (conflict: bool, ghost m: Lit, ghost stale: set<Clause>)
    requires variables != usedVars && {lit} in cdata.clauses
    requires Logged(before, cdata.View(), cchanges.rclauses, cchanges.mclauses)
    requires SearchInv(input, n, cdata.clauses, variables.elems, interpretation[..])
    modifies variables, cdata, interpretation, usedVars, cchanges
    ensures conflict <==> {-lit} in old(cdata.clauses)
    ensures conflict ==> Undoable(before, cdata.View(), cchanges.rclauses, cchanges.mclauses, m, stale)
    ensures conflict ==> !Satisfiable(old(cdata.clauses))
    ensures conflict ==> variables.elems == old(variables.elems) && usedVars.elems == old(usedVars.elems)
    ensures conflict ==> interpretation[..] == old(interpretation[..])
    ensures !conflict ==> Logged(before, cdata.View(), cchanges.rclauses, cchanges.mclauses)
    ensures !conflict ==> cdata.clauses == Assign(old(cdata.clauses), lit)
    ensures !conflict ==> Abs(lit) in old(variables.elems) && variables.elems == old(variables.elems) - {Abs(lit)}
    ensures !conflict ==> usedVars.elems == old(usedVars.elems) + {Abs(lit)}
    ensures !conflict ==> interpretation[..] == old(interpretation[..])[Abs(lit) := Some(lit > 0)]
    ensures !conflict ==> SearchInv(input, n, cdata.clauses, variables.elems, interpretation[..])
    ensures !conflict ==> (Satisfiable(old(cdata.clauses)) ==> Satisfiable(cdata.clauses))
  {
    ghost var cs := cdata.clauses;
    ghost var free := variables.elems;
    ghost var interp := interpretation[..];
    UnitIsFree(input, n, cs, free, interp, lit);
    var v := Abs(lit);
    conflict, m, stale := SetUnitTrue(lit, cdata, cchanges, before);
    if conflict {
      ConflictUnsatisfiable(cs, lit);
      return;
    }
    variables.elems := variables.elems - {v};
    usedVars.elems := usedVars.elems + {v};
    interpretation[v] := Some(lit > 0);
    AssignKeepsInv(input, n, cs, free, interp, lit);
    if Satisfiable(cs) {
      UnitKeepsSatisfiable(cs, lit);
    }
  }

  /** No clause of `cs` is a unit clause. */
  ghost predicate NoUnit(cs: set<Clause>)
  {
    forall l :: {l} !in cs
  }

  /** The literal of a live unit clause belongs to a free variable. */
  lemma UnitIsFree(input: set<Clause>, n: nat, cs: set<Clause>, free: set<int>, interp: SatUtil.Interpretation, lit: Lit)
    requires SearchInv(input, n, cs, free, interp) && {lit} in cs
    ensures lit != 0 && Abs(lit) in free && Abs(lit) < |interp|
  {
    assert lit in {lit};
  }

  /** The other unit clauses found with `lit` survive its propagation when it
      meets no conflict. */
  lemma UnitsSurvive(cs: set<Clause>, lit: Lit, rest: seq<Lit>)
    requires {-lit} !in cs && lit !in rest
    requires forall l | l in rest :: {l} in cs
    ensures forall l | l in rest :: {l} in Assign(cs, lit)
  {
    forall l | l in rest
      ensures {l} in Assign(cs, lit)
    {
      assert l != -lit;
      assert lit !in {l} && {l} - {-lit} == {l};
    }
  }

  /** Moving a variable from the free set to the used set keeps the used set
      the initial one plus the variables no longer free. */
  lemma MoveVar(v0: set<int>, u0: set<int>, free: set<int>, used: set<int>, v: int)
    requires free <= v0 && used == u0 + (v0 - free) && v in free
    ensures free - {v} <= v0
    ensures used + {v} == u0 + (v0 - (free - {v}))
    ensures |free - {v}| < |free|
  {
  }

  /** unitPropagation (dpll.py:151-186): propagates unit clauses, last found
      first, until none is left or one meets its negation. A conflict means the
      formula it started from is unsatisfiable and leaves the log undoable;
      otherwise no unit clause is left and no model was lost. Either way the
      variables it assigned moved from `variables` to `usedVars`, and the
      interpretation changed only at them. */
  method UnitPropagation(variables: VarSet, cdata: ClausesData, interpretation: array<Option<bool>>,
                         usedVars: VarSet, cchanges: ClausesChanges, ghost before: Db, ghost input: set<Clause>, ghost n: nat)
    returns (conflict: bool, ghost m: Lit, ghost stale: set<Clause>)
    requires variables != usedVars
    requires Logged(before, cdata.View(), cchanges.rclauses, cchanges.mclauses)
    requires SearchInv(input, n, cdata.clauses, variables.elems, interpretation[..])
    modifies variables, cdata, interpretation, usedVars, cchanges
    ensures conflict ==> Undoable(before, cdata.View(), cchanges.rclauses, cchanges.mclauses, m, stale)
    ensures conflict ==> !Satisfiable(old(cdata.clauses))
    ensures !conflict ==> Logged(before, cdata.View(), cchanges.rclauses, cchanges.mclauses)
    ensures !conflict ==> SearchInv(input, n, cdata.clauses, variables.elems, interpretation[..])
    ensures !conflict ==> NoUnit(cdata.clauses)
    ensures !conflict ==> (Satisfiable(old(cdata.clauses)) ==> Satisfiable(cdata.clauses))
    ensures variables.elems <= old(variables.elems)
    ensures usedVars.elems == old(usedVars.elems) + (old(variables.elems) - variables.elems)
    ensures forall v | 0 <= v < interpretation.Length && v !in old(variables.elems) :: interpretation[v] == old(interpretation[v])
  {
    ghost var c0 := cdata.clauses;
    ghost var v0 := variables.elems;
    ghost var u0 := usedVars.elems;
    var units := UnitLiterals(cdata.clauses);
    conflict, m, stale := false, 0, {};
    ghost var live := c0;
    while units != []
      invariant Logged(before, cdata.View(), cchanges.rclauses, cchanges.mclauses)
      invariant SearchInv(input, n, cdata.clauses, variables.elems, interpretation[..])
      invariant forall l | l in units :: {l} in cdata.clauses
      invariant forall i, j | 0 <= i < j < |units| :: units[i] != units[j]
      invariant units == [] ==> NoUnit(cdata.clauses)
      invariant live == cdata.clauses
      invariant Satisfiable(c0) ==> Satisfiable(live)
      invariant variables.elems <= v0
      invariant usedVars.elems == u0 + (v0 - variables.elems)
      invariant forall v | 0 <= v < interpretation.Length && v !in v0 :: interpretation[v] == old(interpretation[v])
      decreases |variables.elems|
    {
      var lit := units[|units| - 1];
      units := units[..|units| - 1];
      ghost var cs := cdata.clauses;
      ghost var free := variables.elems;
      ghost var used := usedVars.elems;
      conflict, m, stale := PropagateUnit(lit, variables, cdata, interpretation, usedVars, cchanges, before, input, n);
      if conflict {
        return;
      }
      UnitsSurvive(cs, lit, units);
      MoveVar(v0, u0, free, used, Abs(lit));
      live := cdata.clauses;
      if units == [] {
        units := UnitLiterals(cdata.clauses);
      }
    }
  }

  /** The pure literals dpll.py:198-203 collects: for each variable, the
      variable itself if it is pure, and otherwise its negation if that is. */
  method PureLiterals(vars: set<int>, litclauses: map<Lit, set<Clause>>) returns (pure: set<Lit>)
    ensures forall p :: p in pure <==> Chosen(p, vars, litclauses)
  {
    pure := {};
    var todo := vars;
    while todo != {}
      invariant todo <= vars
      invariant forall p :: p in pure <==> Chosen(p, vars - todo, litclauses)
      decreases todo
    {
      var v := Pick(todo);
      ghost var done := vars - todo;
      todo := todo - {v};
      if DataUtil.IsPureLiteral(v, litclauses) {
        pure := pure + {v};
      } else if DataUtil.IsPureLiteral(-v, litclauses) {
        pure := pure + {-v};
      }
      forall p
        ensures p in pure <==> Chosen(p, vars - todo, litclauses)
      {
        assert vars - todo == done + {v};
      }
    }
  }

  /** `p` is the literal dpll.py:198-203 collects for its variable. */
  predicate Chosen(p: Lit, vars: set<int>, litclauses: map<Lit, set<Clause>>)
  {
    || (p in vars && DataUtil.IsPureLiteral(p, litclauses))
    || (-p in vars && !DataUtil.IsPureLiteral(-p, litclauses) && DataUtil.IsPureLiteral(p, litclauses))
  }

  /** No variable of `vars` has a pure literal. */
  ghost predicate NoPure(vars: set<int>, litclauses: map<Lit, set<Clause>>)
  {
    forall v | v in vars :: !DataUtil.IsPureLiteral(v, litclauses) && !DataUtil.IsPureLiteral(-v, litclauses)
  }

  /** What the pending pure literals keep while some of them are assigned: each
      belongs to a free variable, its negation has no bucket, and no two share
      a variable. */
  ghost predicate PendingPure(pure: set<Lit>, vars: set<int>, litclauses: map<Lit, set<Clause>>)
  {
    forall p | p in pure :: Abs(p) in vars && -p !in litclauses && -p !in pure
  }

  /** A fresh collection of pure literals is pending, and an empty one means
      that no free variable has a pure literal. */
  lemma CollectedPure(pure: set<Lit>, vars: set<int>, litclauses: map<Lit, set<Clause>>)
    requires forall v | v in vars :: v > 0
    requires forall p :: p in pure <==> Chosen(p, vars, litclauses)
    ensures PendingPure(pure, vars, litclauses)
    ensures pure == {} ==> NoPure(vars, litclauses)
  {
    if pure == {} {
      forall v | v in vars
        ensures !DataUtil.IsPureLiteral(v, litclauses) && !DataUtil.IsPureLiteral(-v, litclauses)
      {
        assert !Chosen(v, vars, litclauses) && !Chosen(-v, vars, litclauses);
      }
    }
    forall p | p in pure
      ensures Abs(p) in vars && -p !in litclauses && -p !in pure
    {
      assert Chosen(p, vars, litclauses);
      assert -p in pure ==> Chosen(-p, vars, litclauses);
    }
  }

  /** Assigning one pending literal keeps the others pending. */
  lemma PendingStep(pure: set<Lit>, vars: set<int>, litclauses: map<Lit, set<Clause>>, pl: Lit,
                    litclauses': map<Lit, set<Clause>>)
    requires PendingPure(pure + {pl}, vars, litclauses) && pl !in pure
    requires litclauses'.Keys <= litclauses.Keys
    ensures PendingPure(pure, vars - {Abs(pl)}, litclauses')
  {
  }

  /** Making true a literal whose negation occurs nowhere retires the clauses
      holding it, if there are any, and loses no model. */
  lemma PureStep(cs: set<Clause>, cs': set<Clause>, pl: Lit, had: bool)
    requires forall c | c in cs :: -pl !in c
    requires had ==> cs' == Retired(cs, pl)
    requires !had ==> cs' == cs && forall c | c in cs :: pl !in c
    ensures cs' == Assign(cs, pl)
    ensures Satisfiable(cs) ==> Satisfiable(cs')
  {
    AssignWithoutNegation(cs, pl);
    if !had {
      assert Retired(cs, pl) == cs;
    }
    if Satisfiable(cs) {
      PureKeepsSatisfiable(cs, pl);
    }
  }

  /** The body of the loop of dpll.py:207-224 for the pure literal `pl`: its
      variable leaves `variables`, joins `used_vars` and takes the value that
      makes `pl` true, and the clauses holding `pl`, if any are left, are
      retired. */
  method AssignPure(pl: Lit, variables: VarSet, cdata: ClausesData, interpretation: array<Option<bool>>,
                    usedVars: VarSet, cchanges: ClausesChanges, ghost before: Db, ghost input: set<Clause>, ghost n: nat)
    requires variables != usedVars
    requires Abs(pl) in variables.elems && -pl !in cdata.litclauses
    requires Logged(before, cdata.View(), cchanges.rclauses, cchanges.mclauses)
    requires SearchInv(input, n, cdata.clauses, variables.elems, interpretation[..])
    modifies variables, cdata, interpretation, usedVars, cchanges
    ensures Logged(before, cdata.View(), cchanges.rclauses, cchanges.mclauses)
    ensures cdata.clauses == Assign(old(cdata.clauses), pl)
    ensures cdata.litclauses.Keys <= old(cdata.litclauses.Keys)
    ensures variables.elems == old(variables.elems) - {Abs(pl)}
    ensures usedVars.elems == old(usedVars.elems) + {Abs(pl)}
    ensures interpretation[..] == old(interpretation[..])[Abs(pl) := Some(pl > 0)]
    ensures SearchInv(input, n, cdata.clauses, variables.elems, interpretation[..])
    ensures Satisfiable(old(cdata.clauses)) ==> Satisfiable(cdata.clauses)
  {
    ghost var cs := cdata.clauses;
    ghost var free := variables.elems;
    ghost var interp := interpretation[..];
    var v := Abs(pl);
    assert 1 <= v <= n;
    variables.elems := variables.elems - {v};
    usedVars.elems := usedVars.elems + {v};
    interpretation[v] := Some(pl > 0);
    BucketMeansOccurs(cdata.View(), -pl);
    assert -pl in {-pl};
    var had := pl in cdata.litclauses;
    if had {
      RetireBucket(pl, cdata, cchanges, before);
    } else {
      BucketMeansOccurs(cdata.View(), pl);
    }
    PureStep(cs, cdata.clauses, pl, had);
    AssignKeepsInv(input, n, cs, free, interp, pl);
  }

  /** pureLiteral (dpll.py:190-226): assigns pure literals, collecting them
      afresh whenever the pending ones run out, until no free variable has
      one. No model is lost, the assigned variables moved from `variables` to
      `usedVars`, and the interpretation changed only at them. */
  method PureLiteral(variables: VarSet, cdata: ClausesData, interpretation: array<Option<bool>>,
                     usedVars: VarSet, cchanges: ClausesChanges, ghost before: Db, ghost input: set<Clause>, ghost n: nat)
    requires variables != usedVars
    requires Logged(before, cdata.View(), cchanges.rclauses, cchanges.mclauses)
    requires SearchInv(input, n, cdata.clauses, variables.elems, interpretation[..])
    modifies variables, cdata, interpretation, usedVars, cchanges
    ensures Logged(before, cdata.View(), cchanges.rclauses, cchanges.mclauses)
    ensures SearchInv(input, n, cdata.clauses, variables.elems, interpretation[..])
    ensures NoPure(variables.elems, cdata.litclauses)
    ensures Satisfiable(old(cdata.clauses)) ==> Satisfiable(cdata.clauses)
    ensures variables.elems <= old(variables.elems)
    ensures usedVars.elems == old(usedVars.elems) + (old(variables.elems) - variables.elems)
    ensures forall v | 0 <= v < interpretation.Length && v !in old(variables.elems) :: interpretation[v] == old(interpretation[v])
  {
    ghost var c0 := cdata.clauses;
    ghost var v0 := variables.elems;
    ghost var u0 := usedVars.elems;
    ghost var live := c0;
    var pure := PureLiterals(variables.elems, cdata.litclauses);
    CollectedPure(pure, variables.elems, cdata.litclauses);
    while pure != {}
      invariant Logged(before, cdata.View(), cchanges.rclauses, cchanges.mclauses)
      invariant SearchInv(input, n, cdata.clauses, variables.elems, interpretation[..])
      invariant live == cdata.clauses
      invariant Satisfiable(c0) ==> Satisfiable(live)
      invariant PendingPure(pure, variables.elems, cdata.litclauses)
      invariant pure == {} ==> NoPure(variables.elems, cdata.litclauses)
      invariant variables.elems <= v0
      invariant usedVars.elems == u0 + (v0 - variables.elems)
      invariant forall v | 0 <= v < interpretation.Length && v !in v0 :: interpretation[v] == old(interpretation[v])
      decreases |variables.elems|
    {
      ghost var free := variables.elems;
      ghost var used := usedVars.elems;
      pure := AssignNextPure(pure, variables, cdata, interpretation, usedVars, cchanges, before, input, n);
      MoveVars(v0, u0, free, used, variables.elems, usedVars.elems);
      live := cdata.clauses;
    }
  }

  /** One round of the loop of dpll.py:207-224: some pending pure literal is
      assigned, and when none is left pending they are collected afresh. */
  method AssignNextPure(pure: set<Lit>, variables: VarSet, cdata: ClausesData, interpretation: array<Option<bool>>,
                        usedVars: VarSet, cchanges: ClausesChanges, ghost before: Db, ghost input: set<Clause>, ghost n: nat)
    returns (rest: set<Lit>)
    requires pure != {} && variables != usedVars
    requires Logged(before, cdata.View(), cchanges.rclauses, cchanges.mclauses)
    requires SearchInv(input, n, cdata.clauses, variables.elems, interpretation[..])
    requires PendingPure(pure, variables.elems, cdata.litclauses)
    modifies variables, cdata, interpretation, usedVars, cchanges
    ensures Logged(before, cdata.View(), cchanges.rclauses, cchanges.mclauses)
    ensures SearchInv(input, n, cdata.clauses, variables.elems, interpretation[..])
    ensures Satisfiable(old(cdata.clauses)) ==> Satisfiable(cdata.clauses)
    ensures PendingPure(rest, variables.elems, cdata.litclauses)
    ensures rest == {} ==> NoPure(variables.elems, cdata.litclauses)
    ensures variables.elems <= old(variables.elems) && |variables.elems| < |old(variables.elems)|
    ensures usedVars.elems == old(usedVars.elems) + (old(variables.elems) - variables.elems)
    ensures forall v | 0 <= v < interpretation.Length && v !in old(variables.elems) :: interpretation[v] == old(interpretation[v])
  {
    var pl := Pick(pure);
    rest := pure - {pl};
    assert rest + {pl} == pure;
    ghost var free := variables.elems;
    ghost var used := usedVars.elems;
    ghost var lc := cdata.litclauses;
    AssignPure(pl, variables, cdata, interpretation, usedVars, cchanges, before, input, n);
    PendingStep(rest, free, lc, pl, cdata.litclauses);
    MoveVar(free, used, free, used, Abs(pl));
    if rest == {} {
      rest := PureLiterals(variables.elems, cdata.litclauses);
      CollectedPure(rest, variables.elems, cdata.litclauses);
    }
  }

  /** Variables leaving the free set join the used set, so the used set stays
      the initial one plus the variables no longer free. */
  lemma MoveVars(v0: set<int>, u0: set<int>, free: set<int>, used: set<int>, free': set<int>, used': set<int>)
    requires free <= v0 && used == u0 + (v0 - free)
    requires free' <= free && used' == used + (free - free')
    ensures free' <= v0 && used' == u0 + (v0 - free')
  {
  }

  /** The recovery of dpll.py:71-73 and dpll.py:101-103: the variables assigned
      since the search step began are free again, and the logged edits are
      undone, back to a consistent database. */
  method Backtrack(variables: VarSet, usedVars: VarSet, cdata: ClausesData, cchanges: ClausesChanges,
                   ghost before: Db, ghost m: Lit, ghost stale: set<Clause>)
    requires variables != usedVars
    requires Undoable(before, cdata.View(), cchanges.rclauses, cchanges.mclauses, m, stale)
    modifies variables, cdata
    ensures variables.elems == old(variables.elems) + usedVars.elems
    ensures cdata.clauses == before.clauses && cdata.litclauses == before.litclauses
    ensures SameTimes(cdata.ctimes, before.ctimes)
    ensures Consistent(cdata.View())
  {
    variables.elems := variables.elems + usedVars.elems;
    UndoClauseChanges(cdata, cchanges, before, m, stale);
    ConsistentSameTimes(before, cdata.View());
  }

  /** The candidate variables in iteration order, as the heuristics scan them. */
  method Enumerate(vars: set<int>) returns (xs: seq<int>)
    ensures forall x :: x in xs <==> x in vars
    ensures forall i, j | 0 <= i < j < |xs| :: xs[i] != xs[j]
  {
    xs := [];
    var todo := vars;
    while todo != {}
      invariant todo <= vars
      invariant forall x :: x in xs <==> x in vars - todo
      invariant forall i, j | 0 <= i < j < |xs| :: xs[i] != xs[j]
      decreases todo
    {
      var x := Pick(todo);
      todo := todo - {x};
      ghost var xs0 := xs;
      xs := xs + [x];
      assert forall y :: y in xs <==> y in xs0 || y == x;
    }
  }

  /** A nonempty formula whose clauses hold only free variables has a free
      variable with a bucket. */
  lemma SomeFreeOccurs(d: Db, vars: set<int>) returns (x: int)
    requires Consistent(d) && d.clauses != {}
    requires OnlyFree(d.clauses, vars)
    ensures x in vars && (x in d.litclauses || -x in d.litclauses)
  {
    var c :| c in d.clauses;
    assert c != {};
    var l := SomeLiteral(c);
    assert l in d.litclauses;
    x := Abs(l);
  }

  /** A nonempty clause has a literal. */
  lemma SomeLiteral(c: Clause) returns (l: Lit)
    requires c != {}
    ensures l in c
  {
    if !exists y :: y in c {
      assert false;
    }
    l :| l in c;
  }

  /** After unit propagation and pure-literal elimination, the variable the
      heuristic picks is free and both of its literals have buckets, so the two
      lookups of dpllBranch (dpll.py:122, dpll.py:136) find them. */
  lemma BranchVariableOccurs(d: Db, vars: set<int>, h: Heuristics.Heuristic, xs: seq<int>, i: int, x: int)
    requires Consistent(d) && NoPure(vars, d.litclauses)
    requires x in vars && (x in d.litclauses || -x in d.litclauses)
    requires forall y :: y in xs <==> y in vars
    requires Heuristics.FirstBest(h, xs, d.litclauses, i)
    ensures xs[i] in vars && xs[i] in d.litclauses && -xs[i] in d.litclauses
  {
    var j :| 0 <= j < |xs| && xs[j] == x;
    Heuristics.BestOccurs(h, xs, d.litclauses, i);
    assert xs[i] in xs;
    assert xs[i] in vars;
    assert !DataUtil.IsPureLiteral(xs[i], d.litclauses) && !DataUtil.IsPureLiteral(-xs[i], d.litclauses);
  }

  /** A subset is no larger than its superset. */
  lemma SubsetSize(a: set<int>, b: set<int>)
    requires a <= b
    ensures |a| <= |b|
  {
    assert b == a + (b - a);
  }

  /** Shortening by `-lit` keeps every occurrence of `lit`, and a search step
      never meets an empty clause there, so the bucket of `lit` survives. */
  lemma ShortenKeepsBucket(d0: Db, d: Db, lit: Lit)
    requires Consistent(d0) && Consistent(d) && lit != 0 && lit in d0.litclauses
    requires d.clauses == Shorten(d0.clauses, -lit)
    ensures lit in d.litclauses
  {
    var c :| c in d0.litclauses[lit];
    assert lit in c - {-lit};
    BucketMeansOccurs(d, lit);
  }

  /** One half of dpllBranch: dpll.py:117-126 for `var` and dpll.py:130-140
      for `-var`. The variable of `lit` takes the value that makes `lit` true,
      the clauses are shortened by `-lit` (unless that leaves an empty clause)
      and those holding `lit` retired, and the search goes on. A failure means
      that nothing satisfies the formula once `lit` is true, and every edit is
      undone. */
  method TryValue(lit: Lit, variables: VarSet, cdata: ClausesData, interpretation: array<Option<bool>>,
                  h: Heuristics.Heuristic, runStats: FanSATstic.RunStats, ghost input: set<Clause>, ghost n: nat)
    returns (sat: bool)
    requires lit in cdata.litclauses && -lit in cdata.litclauses
    requires Consistent(cdata.View())
    requires Abs(lit) !in variables.elems
    requires SearchInv(input, n, cdata.clauses, variables.elems + {Abs(lit)}, interpretation[..])
    modifies variables, cdata, interpretation, runStats
    ensures sat ==> SatUtil.AllInRange(input, interpretation[..]) && SatUtil.Satisfies(input, interpretation[..])
    ensures sat ==> cdata.clauses == {}
    ensures sat ==> interpretation[Abs(lit)] == Some(lit > 0)
    ensures !sat ==> !Satisfiable(Assign(old(cdata.clauses), lit))
    ensures !sat ==> cdata.clauses == old(cdata.clauses) && cdata.litclauses == old(cdata.litclauses)
    ensures !sat ==> SameTimes(cdata.ctimes, old(cdata.ctimes)) && variables.elems == old(variables.elems)
    ensures forall v | 0 <= v < interpretation.Length && v !in old(variables.elems) + {Abs(lit)} ::
      interpretation[v] == old(interpretation[v])
    decreases |variables.elems| + 1, 0
  {
    var v := Abs(lit);
    ghost var cs := cdata.clauses;
    ghost var free := variables.elems + {v};
    ghost var interp := interpretation[..];
    assert 0 < v < interpretation.Length;
    assert free - {v} == variables.elems;
    if {-lit} !in cs {
      AssignKeepsInv(input, n, cs, free, interp, lit);
    }
    RemovedShortened(cs, lit);
    interpretation[v] := Some(lit > 0);
    var br := new ClausesChanges();
    ghost var before := cdata.View();
    FreshLog(before);
    var conflict, m, stale := ShortenWithout(-lit, cdata, br, before);
    if conflict {
      AssignFalsifiedUnit(cs, lit);
      UndoClauseChanges(cdata, br, before, m, stale);
      return false;
    }
    ShortenKeepsBucket(before, cdata.View(), lit);
    RetireBucket(lit, cdata, br, before);
    sat := Descend(variables, cdata, interpretation, br, before, h, runStats, input, n);
  }

  /** The recursive call of dpllBranch and the undo after a failure
      (dpll.py:123-128 and dpll.py:137-142): a failure means the formula it
      started from is unsatisfiable, and the branch's edits are undone. */
  method Descend(variables: VarSet, cdata: ClausesData, interpretation: array<Option<bool>>, br: ClausesChanges,
                 ghost before: Db, h: Heuristics.Heuristic, runStats: FanSATstic.RunStats, ghost input: set<Clause>, ghost n: nat)
    returns (sat: bool)
    requires Logged(before, cdata.View(), br.rclauses, br.mclauses)
    requires SearchInv(input, n, cdata.clauses, variables.elems, interpretation[..])
    modifies variables, cdata, interpretation, runStats
    ensures sat ==> SatUtil.AllInRange(input, interpretation[..]) && SatUtil.Satisfies(input, interpretation[..])
    ensures sat ==> cdata.clauses == {}
    ensures !sat ==> !Satisfiable(old(cdata.clauses))
    ensures !sat ==> cdata.clauses == before.clauses && cdata.litclauses == before.litclauses
    ensures !sat ==> SameTimes(cdata.ctimes, before.ctimes) && variables.elems == old(variables.elems)
    ensures forall v | 0 <= v < interpretation.Length && v !in old(variables.elems) ::
      interpretation[v] == old(interpretation[v])
    decreases |variables.elems|, 5
  {
    ghost var d1 := cdata.View();
    sat := Search(variables, cdata, interpretation, h, runStats, input, n);
    if !sat {
      LoggedSameTimes(before, d1, cdata.View(), br.rclauses, br.mclauses);
      LoggedIsUndoable(before, cdata.View(), br.rclauses, br.mclauses);
      UndoClauseChanges(cdata, br, before, 0, {});
    }
  }

  /** dpllBranch (dpll.py:111-147): tries `var` true, then false. A failure
      means that the formula is unsatisfiable with either value, and leaves the
      clause database and the free variables as they were. */
  method DpllBranch(var_: int, variables: VarSet, cdata: ClausesData, interpretation: array<Option<bool>>,
                    h: Heuristics.Heuristic, runStats: FanSATstic.RunStats, ghost input: set<Clause>, ghost n: nat)
    returns (sat: bool)
    requires var_ in cdata.litclauses && -var_ in cdata.litclauses
    requires Consistent(cdata.View())
    requires var_ !in variables.elems
    requires SearchInv(input, n, cdata.clauses, variables.elems + {var_}, interpretation[..])
    modifies variables, cdata, interpretation, runStats
    ensures sat ==> SatUtil.AllInRange(input, interpretation[..]) && SatUtil.Satisfies(input, interpretation[..])
    ensures sat ==> cdata.clauses == {}
    ensures Satisfiable(Assign(old(cdata.clauses), var_)) ==> sat && interpretation[var_] == Some(true)
    ensures sat ==> interpretation[var_] == Some(true) || interpretation[var_] == Some(false)
    ensures !sat ==> !Satisfiable(Assign(old(cdata.clauses), var_)) && !Satisfiable(Assign(old(cdata.clauses), -var_))
    ensures !sat ==> cdata.clauses == old(cdata.clauses) && cdata.litclauses == old(cdata.litclauses)
    ensures !sat ==> SameTimes(cdata.ctimes, old(cdata.ctimes)) && variables.elems == old(variables.elems)
    ensures forall v | 0 <= v < interpretation.Length && v !in old(variables.elems) + {var_} ::
      interpretation[v] == old(interpretation[v])
    decreases |variables.elems| + 1, 1
  {
    assert 0 < var_;
    ghost var d0 := cdata.View();
    sat := TryValue(var_, variables, cdata, interpretation, h, runStats, input, n);
    if sat {
      return;
    }
    ConsistentSameTimes(d0, cdata.View());
    InvIgnoresFree(input, n, d0.clauses, variables.elems + {var_}, old(interpretation[..]), interpretation[..]);
    sat := TryValue(-var_, variables, cdata, interpretation, h, runStats, input, n);
  }

  /** The call `heuristic(variables, cdata)` of dpll.py:89: the heuristic scans
      the free variables in iteration order. After unit propagation and
      pure-literal elimination the variable it picks is free and both of its
      literals have buckets. */
  method BranchVariable(h: Heuristics.Heuristic, vars: set<int>, cdata: ClausesData) returns (v: int)
    requires Consistent(cdata.View()) && cdata.clauses != {}
    requires OnlyFree(cdata.clauses, vars) && NoPure(vars, cdata.litclauses)
    ensures v in vars && v in cdata.litclauses && -v in cdata.litclauses
    ensures exists xs: seq<int>, i ::
              (forall x :: x in xs <==> x in vars) && Heuristics.FirstBest(h, xs, cdata.litclauses, i) && xs[i] == v
  {
    var varRange := Enumerate(vars);
    ghost var x := SomeFreeOccurs(cdata.View(), vars);
    assert x in varRange;
    v := Heuristics.SelectVariable(h, varRange, cdata.litclauses);
    ghost var i :| Heuristics.FirstBest(h, varRange, cdata.litclauses, i) && varRange[i] == v;
    BranchVariableOccurs(cdata.View(), vars, h, varRange, i, x);
  }

  /** The split of _solve (dpll.py:89-99): the heuristic picks a variable, which
      moves from `variables` to `usedVars`, the split is counted, and both of its
      values are tried. */
  method Split(variables: VarSet, usedVars: VarSet, cdata: ClausesData, interpretation: array<Option<bool>>,
               h: Heuristics.Heuristic, runStats: FanSATstic.RunStats, ghost input: set<Clause>, ghost n: nat)
    returns (sat: bool)
    requires variables != usedVars
    requires Consistent(cdata.View()) && cdata.clauses != {}
    requires SearchInv(input, n, cdata.clauses, variables.elems, interpretation[..])
    requires NoPure(variables.elems, cdata.litclauses)
    modifies variables, usedVars, cdata, interpretation, runStats
    ensures sat ==> SatUtil.AllInRange(input, interpretation[..]) && SatUtil.Satisfies(input, interpretation[..])
    ensures sat ==> cdata.clauses == {}
    ensures !sat ==> !Satisfiable(old(cdata.clauses))
    ensures !sat ==> cdata.clauses == old(cdata.clauses) && cdata.litclauses == old(cdata.litclauses)
    ensures !sat ==> SameTimes(cdata.ctimes, old(cdata.ctimes))
    ensures !sat ==> variables.elems + usedVars.elems == old(variables.elems) + old(usedVars.elems)
    ensures forall v | 0 <= v < interpretation.Length && v !in old(variables.elems) ::
      interpretation[v] == old(interpretation[v])
    decreases |variables.elems|, 2
  {
    var v := BranchVariable(h, variables.elems, cdata);
    ghost var cs := cdata.clauses;
    ghost var vs := variables.elems;
    ghost var us := usedVars.elems;
    usedVars.elems := usedVars.elems + {v};
    variables.elems := variables.elems - {v};
    MoveSplitVar(vs, us, v);
    runStats.AddSplit();
    sat := DpllBranch(v, variables, cdata, interpretation, h, runStats, input, n);
    if !sat {
      SplitUnsatisfiable(cs, v);
    }
  }

  /** Moving the split variable between the two sets keeps their union. */
  lemma MoveSplitVar(vs: set<int>, us: set<int>, v: int)
    requires v in vs
    ensures (vs - {v}) + {v} == vs
    ensures (vs - {v}) + (us + {v}) == vs + us
  {
  }

  /** A formula unsatisfiable with `v` true and with `v` false is
      unsatisfiable. */
  lemma SplitUnsatisfiable(cs: set<Clause>, v: int)
    requires v != 0
    requires !Satisfiable(Assign(cs, v)) && !Satisfiable(Assign(cs, -v))
    ensures !Satisfiable(cs)
  {
    if Satisfiable(cs) {
      SplitKeepsSatisfiable(cs, v);
    }
  }

  /** Freeing again the variables assigned since `v0` restores the free set. */
  lemma Rejoin(v0: set<int>, v1: set<int>, u0: set<int>)
    requires v1 <= v0
    ensures v1 + (u0 + (v0 - v1)) == v0 + u0
  {
  }

  /** _solve (dpll.py:48-106): one step of the search. An empty formula is
      solved; otherwise unit propagation, which backtracks on a conflict, and
      then the rest of the step. True means the interpretation satisfies the
      input; false means the formula this step started from is unsatisfiable,
      and the clause database and the free variables are as they were. */
  method Search(variables: VarSet, cdata: ClausesData, interpretation: array<Option<bool>>,
                h: Heuristics.Heuristic, runStats: FanSATstic.RunStats, ghost input: set<Clause>, ghost n: nat)
    returns (sat: bool)
    requires Consistent(cdata.View())
    requires SearchInv(input, n, cdata.clauses, variables.elems, interpretation[..])
    modifies variables, cdata, interpretation, runStats
    ensures sat ==> SatUtil.AllInRange(input, interpretation[..]) && SatUtil.Satisfies(input, interpretation[..])
    ensures sat ==> cdata.clauses == {}
    ensures !sat ==> !Satisfiable(old(cdata.clauses))
    ensures !sat ==> cdata.clauses == old(cdata.clauses) && cdata.litclauses == old(cdata.litclauses)
    ensures !sat ==> SameTimes(cdata.ctimes, old(cdata.ctimes)) && variables.elems == old(variables.elems)
    ensures forall v | 0 <= v < interpretation.Length && v !in old(variables.elems) ::
      interpretation[v] == old(interpretation[v])
    decreases |variables.elems|, 4
  {
    if cdata.clauses == {} {
      EmptyMeansSatisfied(input, n, variables.elems, interpretation[..]);
      return true;
    }
    var usedVars := new VarSet({});
    var cchanges := new ClausesChanges();
    ghost var before := cdata.View();
    ghost var v0 := variables.elems;
    FreshLog(before);
    var conflict, m, stale := UnitPropagation(variables, cdata, interpretation, usedVars, cchanges, before, input, n);
    Rejoin(v0, variables.elems, {});
    if conflict {
      Backtrack(variables, usedVars, cdata, cchanges, before, m, stale);
      return false;
    }
    SubsetSize(variables.elems, v0);
    sat := Simplified(variables, usedVars, cdata, interpretation, cchanges, before, h, runStats, input, n);
  }

  /** The rest of _solve after unit propagation (dpll.py:76-106): an empty
      formula is solved; otherwise pure-literal elimination, and again an empty
      formula is solved; otherwise the split, and a failed split undoes the
      whole step. */
  method Simplified(variables: VarSet, usedVars: VarSet, cdata: ClausesData, interpretation: array<Option<bool>>,
                    cchanges: ClausesChanges, ghost before: Db,
                    h: Heuristics.Heuristic, runStats: FanSATstic.RunStats, ghost input: set<Clause>, ghost n: nat)
    returns (sat: bool)
    requires variables != usedVars
    requires Logged(before, cdata.View(), cchanges.rclauses, cchanges.mclauses)
    requires SearchInv(input, n, cdata.clauses, variables.elems, interpretation[..])
    modifies variables, usedVars, cdata, interpretation, cchanges, runStats
    ensures sat ==> SatUtil.AllInRange(input, interpretation[..]) && SatUtil.Satisfies(input, interpretation[..])
    ensures sat ==> cdata.clauses == {}
    ensures !sat ==> !Satisfiable(old(cdata.clauses))
    ensures !sat ==> cdata.clauses == before.clauses && cdata.litclauses == before.litclauses
    ensures !sat ==> SameTimes(cdata.ctimes, before.ctimes)
    ensures !sat ==> variables.elems == old(variables.elems) + old(usedVars.elems)
    ensures forall v | 0 <= v < interpretation.Length && v !in old(variables.elems) ::
      interpretation[v] == old(interpretation[v])
    decreases |variables.elems|, 3
  {
    if cdata.clauses == {} {
      EmptyMeansSatisfied(input, n, variables.elems, interpretation[..]);
      return true;
    }
    ghost var v1 := variables.elems;
    ghost var u1 := usedVars.elems;
    PureLiteral(variables, cdata, interpretation, usedVars, cchanges, before, input, n);
    if cdata.clauses == {} {
      EmptyMeansSatisfied(input, n, variables.elems, interpretation[..]);
      return true;
    }
    Rejoin(v1, variables.elems, u1);
    SubsetSize(variables.elems, v1);
    ghost var d2 := cdata.View();
    sat := Split(variables, usedVars, cdata, interpretation, h, runStats, input, n);
    if !sat {
      LoggedSameTimes(before, d2, cdata.View(), cchanges.rclauses, cchanges.mclauses);
      LoggedIsUndoable(before, cdata.View(), cchanges.rclauses, cchanges.mclauses);
      Backtrack(variables, usedVars, cdata, cchanges, before, 0, {});
    }
  }

  /** Variable `v` has a bucket for one of its literals, so it occurs in the
      formula. */
  predicate HasBucket(litclauses: map<Lit, set<Clause>>, v: int)
  {
    v in litclauses || -v in litclauses
  }

  /** getVarsAndFirstIntp (dpll.py:348-359): the variables among 1..n with a
      bucket for either literal are to be assigned and start unset; every other
      variable gets a value from `coin`, which stands for
      satutil.getRandomAssignation. Index 0 is an unused placeholder. */
  method GetVarsAndFirstIntp(numVariables: nat, litclauses: map<Lit, set<Clause>>, coin: int -> bool)
    returns (variables: set<int>, interpretation: SatUtil.Interpretation)
    ensures forall v: int :: v in variables <==> 1 <= v <= numVariables && HasBucket(litclauses, v)
    ensures |interpretation| == numVariables + 1 && interpretation[0] == None
    ensures forall v | 1 <= v <= numVariables ::
      interpretation[v] == if v in variables then None else Some(coin(v))
  {
    variables := {};
    interpretation := [None];
    for v := 1 to numVariables + 1
      invariant forall x: int :: x in variables <==> 1 <= x < v && HasBucket(litclauses, x)
      invariant |interpretation| == v && interpretation[0] == None
      invariant forall x | 1 <= x < v :: interpretation[x] == if x in variables then None else Some(coin(x))
    {
      if v in litclauses || -v in litclauses {
        variables := variables + {v};
        interpretation := interpretation + [None];
      } else {
        interpretation := interpretation + [Some(coin(v))];
      }
    }
  }

  /** Every variable of an input within range has a bucket, so it is among the
      variables to be assigned. */
  lemma InputVarsFree(input: set<Clause>, n: nat, litclauses: map<Lit, set<Clause>>, vars: set<int>)
    requires InputRange(input, n)
    requires forall l: int :: l in litclauses <==> DataUtil.Occurs(l, input)
    requires forall v: int :: v in vars <==> 1 <= v <= n && HasBucket(litclauses, v)
    ensures forall c, l | c in input && l in c :: Abs(l) in vars
    ensures FreeRange(vars, n)
  {
    forall c, l | c in input && l in c
      ensures Abs(l) in vars
    {
      assert DataUtil.Occurs(l, input);
      assert l in litclauses;
      assert HasBucket(litclauses, Abs(l));
    }
  }

  /** solve (dpll.py:18-43): builds the clause database (every clause counted
      once) and the first interpretation, and runs the search. A satisfiable
      answer carries an interpretation of the n variables (after the
      placeholder at index 0) that satisfies every clause; an unsatisfiable one
      carries an empty core, and then no assignment satisfies the clauses. */
  method Solve(numVariables: nat, clauses: set<Clause>, h: Heuristics.Heuristic, runStats: FanSATstic.RunStats,
               coin: int -> bool)
    returns (result: FanSATstic.SearchResult)
    requires {} !in clauses && InputRange(clauses, numVariables)
    modifies runStats
    ensures result.Satisfiable? ==>
      |result.interpretation| == numVariables + 1
      && SatUtil.AllInRange(clauses, result.interpretation) && SatUtil.Satisfies(clauses, result.interpretation)
    ensures result.Unsatisfiable? ==> result.core == [] && !Satisfiable(clauses)
  {
    var litclauses := DataUtil.ClassifyClausesByLiteral(clauses);
    var ctimes := map c | c in clauses :: 1;
    var cdata := new ClausesData(clauses, ctimes, litclauses);
    DataUtil.InitialDbConsistent(clauses, ctimes, litclauses);
    var vars, intp := GetVarsAndFirstIntp(numVariables, litclauses, coin);
    var variables := new VarSet(vars);
    var interpretation := new Option<bool>[|intp|](i requires 0 <= i < |intp| => intp[i]);
    assert interpretation[..] == intp;
    InputVarsFree(clauses, numVariables, litclauses, vars);
    InitialSearchInv(clauses, numVariables, vars, intp);
    var sat := Search(variables, cdata, interpretation, h, runStats, clauses, numVariables);
    if sat {
      result := FanSATstic.Satisfiable(interpretation[..]);
    } else {
      result := FanSATstic.Unsatisfiable([]);
    }
  }

  /** No interpretation satisfies an unsatisfiable formula. */
  lemma UnsatisfiableHasNoModel(cs: set<Clause>, interp: SatUtil.Interpretation)
    requires !Satisfiable(cs) && SatUtil.AllInRange(cs, interp)
    ensures !SatUtil.Satisfies(cs, interp)
  {
    if SatUtil.Satisfies(cs, interp) {
      SatisfiesIsSatisfiable(cs, interp);
    }
  }
}
