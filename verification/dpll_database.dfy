/** The clause database of the DPLL search (dpll.py): the live clause set, a
    reference count per clause value and the literal index, together with the two
    reversible edits and the replay of their change log. */
module DpllDatabase {
  import opened Cnf
  import opened Wrappers

  /** A removal record `(clause, times)` logged by RemoveClausesWithLiteral. */
  datatype Removal = Removal(clause: Clause, times: nat)

  /** A modification record `(nclause, clause, times)` logged by
      RemoveLiteralFromClauses: `clause` was replaced by `nclause`. */
  datatype Modification = Modification(nclause: Clause, clause: Clause, times: nat)

  /** A value view of the three parts of the database. */
  datatype Db = Db(clauses: set<Clause>, ctimes: map<Clause, nat>, litclauses: map<Lit, set<Clause>>)

  /** The `ClausesData` record: its three containers are updated in place. */
  class ClausesData {
    var clauses: set<Clause>
    var ctimes: map<Clause, nat>
    var litclauses: map<Lit, set<Clause>>

    constructor (clauses: set<Clause>, ctimes: map<Clause, nat>, litclauses: map<Lit, set<Clause>>)
      ensures this.clauses == clauses && this.ctimes == ctimes && this.litclauses == litclauses
    {
      this.clauses := clauses;
      this.ctimes := ctimes;
      this.litclauses := litclauses;
    }

    function View(): Db
      reads this
    {
      Db(clauses, ctimes, litclauses)
    }
  }

  /** The `ClausesChanges` record: a set of removals and a list of modifications. */
  class ClausesChanges {
    var rclauses: set<Removal>
    var mclauses: seq<Modification>

    constructor ()
      ensures rclauses == {} && mclauses == []
    {
      rclauses := {};
      mclauses := [];
    }
  }

  /** The count of a clause; a clause missing from `ctimes` counts as 0, which is
      how the code treats it (`ctimes[nc] += 1` falls back to creating it at 1). */
  function Times(ctimes: map<Clause, nat>, c: Clause): nat
  {
    if c in ctimes then ctimes[c] else 0
  }

  /** Two count maps that agree on every clause, up to entries holding 0. */
  ghost predicate SameTimes(a: map<Clause, nat>, b: map<Clause, nat>)
  {
    forall c :: Times(a, c) == Times(b, c)
  }

  /** A clause is live exactly when its count is positive. */
  ghost predicate LiveIsCounted(d: Db)
  {
    forall c {:trigger Times(d.ctimes, c)} :: c in d.clauses <==> Times(d.ctimes, c) > 0
  }

  /** The literal index agrees with the live clauses, except that the clauses in
      `stale` may still linger in the bucket of `m`. */
  ghost predicate IndexedExcept(d: Db, m: Lit, stale: set<Clause>)
  {
    && (forall l | l in d.litclauses :: d.litclauses[l] != {})
    && (forall l, c | l in d.litclauses && c in d.litclauses[l] ::
          l in c && (c in d.clauses || (l == m && c in stale)))
    && (forall c | c in d.clauses :: forall l | l in c :: l in d.litclauses && c in d.litclauses[l])
  }

  /** The database invariant: counts, clause set and literal index agree, no
      bucket is empty and no empty clause is stored. */
  ghost predicate Consistent(d: Db)
  {
    LiveIsCounted(d) && IndexedExcept(d, 0, {}) && {} !in d.clauses
  }

  /** Unlinks `clause` from the bucket of every literal other than `lit`, deleting
      buckets that become empty (the inner loop of dpll.py:245-251). */
  method UnlinkClause(cdata: ClausesData, clause: Clause, lit: Lit)
    requires forall l | l in clause && l != lit :: l in cdata.litclauses && clause in cdata.litclauses[l]
    modifies cdata`litclauses
    ensures Unlinked(old(cdata.litclauses), cdata.litclauses, clause, lit)
  {
    ghost var lc0 := cdata.litclauses;
    var todo := clause;
    while todo != {}
      invariant todo <= clause
      invariant forall l :: l in cdata.litclauses <==>
        l in lc0 && !(l in clause - todo && l != lit && lc0[l] - {clause} == {})
      invariant forall l | l in cdata.litclauses ::
        cdata.litclauses[l] == if l in clause - todo && l != lit then lc0[l] - {clause} else lc0[l]
      decreases todo
    {
      var l := Pick(todo);
      todo := todo - {l};
      if l != lit {
        var lset := cdata.litclauses[l] - {clause};
        if lset == {} {
          cdata.litclauses := cdata.litclauses - {l};
        } else {
          cdata.litclauses := cdata.litclauses[l := lset];
        }
      }
    }
  }

  /** The index after replacing `clause` by `nclause` in the bucket of every
      literal of `nclause`. */
  ghost predicate Relinked(lc0: map<Lit, set<Clause>>, lc: map<Lit, set<Clause>>, clause: Clause, nclause: Clause)
  {
    && lc.Keys == lc0.Keys
    && (forall l | l in lc :: lc[l] == if l in nclause then lc0[l] - {clause} + {nclause} else lc0[l])
  }

  /** Replaces `clause` by `nclause` in the bucket of every literal of `nclause`
      (the inner loop of dpll.py:283-286). */
  method RelinkClause(cdata: ClausesData, clause: Clause, nclause: Clause)
    requires forall l | l in nclause :: l in cdata.litclauses && clause in cdata.litclauses[l]
    modifies cdata`litclauses
    ensures Relinked(old(cdata.litclauses), cdata.litclauses, clause, nclause)
  {
    ghost var lc0 := cdata.litclauses;
    var todo := nclause;
    while todo != {}
      invariant todo <= nclause
      invariant cdata.litclauses.Keys == lc0.Keys
      invariant forall l | l in cdata.litclauses ::
        cdata.litclauses[l] == if l in nclause - todo then lc0[l] - {clause} + {nclause} else lc0[l]
      decreases todo
    {
      var l := Pick(todo);
      todo := todo - {l};
      var lset := cdata.litclauses[l];
      cdata.litclauses := cdata.litclauses[l := lset - {clause} + {nclause}];
    }
  }

  /** Adds `clause` to the bucket of each of its literals, creating missing buckets
      (the inner loop of dpll.py:308-311). */
  method LinkClause(cdata: ClausesData, clause: Clause)
    modifies cdata`litclauses
    ensures Linked(old(cdata.litclauses), cdata.litclauses, clause)
  {
    ghost var lc0 := cdata.litclauses;
    var todo := clause;
    while todo != {}
      invariant todo <= clause
      invariant forall l :: l in cdata.litclauses <==> l in lc0 || l in clause - todo
      invariant forall l | l in cdata.litclauses ::
        cdata.litclauses[l] ==
          if l !in clause - todo then lc0[l]
          else if l in lc0 then lc0[l] + {clause}
          else {clause}
      decreases todo
    {
      var l := Pick(todo);
      todo := todo - {l};
      if l !in cdata.litclauses {
        cdata.litclauses := cdata.litclauses[l := {}];
      }
      cdata.litclauses := cdata.litclauses[l := cdata.litclauses[l] + {clause}];
    }
  }

  /** Puts `clause` back into the bucket of each of its literals and, when the
      count of `nclause` has dropped to 0, takes `nclause` out of those buckets
      (the inner loop of dpll.py:333-344). */
  method RestoreLinks(cdata: ClausesData, nclause: Clause, clause: Clause)
    requires nclause in cdata.ctimes
    modifies cdata`litclauses
    ensures Restored(old(cdata.litclauses), cdata.litclauses, nclause, clause, cdata.ctimes[nclause] == 0)
  {
    ghost var lc0 := cdata.litclauses;
    var todo := clause;
    while todo != {}
      invariant todo <= clause
      invariant forall l :: l in cdata.litclauses <==> l in lc0 || l in clause - todo
      invariant forall l | l in cdata.litclauses ::
        cdata.litclauses[l] ==
          if l !in clause - todo then lc0[l]
          else if l in lc0 then lc0[l] - (if cdata.ctimes[nclause] == 0 then {nclause} else {}) + {clause}
          else {clause}
      decreases todo
    {
      var l := Pick(todo);
      todo := todo - {l};
      if l !in cdata.litclauses {
        cdata.litclauses := cdata.litclauses[l := {clause}];
      } else {
        var lset := cdata.litclauses[l];
        if cdata.ctimes[nclause] == 0 && nclause in lset {
          lset := lset - {nclause};
        }
        cdata.litclauses := cdata.litclauses[l := lset + {clause}];
      }
    }
  }

  /** The number of modification records in `ms` that produced clause `c`. */
  function Produced(ms: seq<Modification>, c: Clause): nat
  {
    if ms == [] then 0
    else Produced(ms[..|ms| - 1], c) + (if ms[|ms| - 1].nclause == c then 1 else 0)
  }

  /** The clauses retired by the removal records. */
  function RetiredClauses(rs: set<Removal>): set<Clause>
  {
    set r | r in rs :: r.clause
  }

  /** The clauses replaced by the modification records. */
  function KilledClauses(ms: seq<Modification>): set<Clause>
  {
    set m | m in ms :: m.clause
  }

  /** The records of a change log begun in state `before`: each replaced clause
      is replaced once, is never produced again afterwards, is strictly shortened
      and logged with the count it had; each retired clause is logged with its
      count, is retired once and is not a replaced clause. */
  ghost predicate LogRecords(before: Db, rs: set<Removal>, ms: seq<Modification>)
  {
    DistinctRecords(ms) && RecordsCounted(before, ms) && RemovalsCounted(before, rs, ms)
  }

  /** No clause is replaced twice, and no replaced clause is produced later. */
  ghost predicate DistinctRecords(ms: seq<Modification>)
  {
    forall i, j | 0 <= i < j < |ms| :: ms[i].clause != ms[j].clause && ms[j].nclause != ms[i].clause
  }

  /** Each modification record strictly shortens its clause to a nonempty one and
      holds the count its clause had when it was written. */
  ghost predicate RecordsCounted(before: Db, ms: seq<Modification>)
  {
    forall j {:trigger ms[j].times} | 0 <= j < |ms| ::
      && ms[j].nclause < ms[j].clause
      && ms[j].nclause != {}
      && ms[j].times >= 1
      && ms[j].times == Times(before.ctimes, ms[j].clause) + Produced(ms[..j], ms[j].clause)
  }

  /** Each removal record holds the count its clause had, and no retired clause
      is a replaced one. */
  ghost predicate RemovalsCounted(before: Db, rs: set<Removal>, ms: seq<Modification>)
  {
    forall r | r in rs ::
      && r.times >= 1
      && r.times == Times(before.ctimes, r.clause) + Produced(ms, r.clause)
      && r.clause !in KilledClauses(ms)
  }

  /** The counts of state `d` are those of `before`, plus one for every
      modification that produced the clause, and 0 for every clause the log
      retired or replaced. */
  ghost predicate LogCounts(before: Db, d: Db, rs: set<Removal>, ms: seq<Modification>)
  {
    forall c :: Times(d.ctimes, c) ==
      if c in RetiredClauses(rs) || c in KilledClauses(ms) then 0
      else Times(before.ctimes, c) + Produced(ms, c)
  }

  /** Every clause the log retired or replaced holds a literal that has no bucket
      left, so no later edit can bring it back. */
  ghost predicate DeadUnreachable(d: Db, rs: set<Removal>, ms: seq<Modification>)
  {
    forall c | c in RetiredClauses(rs) + KilledClauses(ms) :: exists l :: l in c && l !in d.litclauses
  }

  /** The state of the database after complete edits logged since `before`. */
  ghost predicate Logged(before: Db, d: Db, rs: set<Removal>, ms: seq<Modification>)
  {
    && Consistent(before)
    && Consistent(d)
    && LogRecords(before, rs, ms)
    && LogCounts(before, d, rs, ms)
    && DeadUnreachable(d, rs, ms)
  }

  /** What replaying a log needs: the log accounts for the counts, the clause set
      follows the counts, and the index is exact except for clauses of `stale`
      (already replaced) lingering in the bucket of `m`, which is the state a
      conflict leaves behind. */
  ghost predicate Undoable(before: Db, d: Db, rs: set<Removal>, ms: seq<Modification>, m: Lit, stale: set<Clause>)
  {
    && Consistent(before)
    && LiveIsCounted(d)
    && IndexedExcept(d, m, stale)
    && stale <= KilledClauses(ms)
    && LogRecords(before, rs, ms)
    && LogCounts(before, d, rs, ms)
  }

  /** A fresh, empty log accounts for a consistent state. */
  lemma FreshLog(d: Db)
    requires Consistent(d)
    ensures Logged(d, d, {}, [])
  {
  }

  /** A state reached by complete edits can be undone. */
  lemma LoggedIsUndoable(before: Db, d: Db, rs: set<Removal>, ms: seq<Modification>)
    requires Logged(before, d, rs, ms)
    ensures Undoable(before, d, rs, ms, 0, {})
  {
  }

  /** The state after retiring the clauses of the bucket `d0.litclauses[lit]`. */
  ghost predicate RemovedWith(d0: Db, lit: Lit, d: Db)
    requires lit in d0.litclauses
  {
    var b := d0.litclauses[lit];
    && d.clauses == d0.clauses - b
    && (forall c :: Times(d.ctimes, c) == if c in b then 0 else Times(d0.ctimes, c))
    && (forall l :: l in d.litclauses <==> l in d0.litclauses && l != lit && d0.litclauses[l] - b != {})
    && (forall l | l in d.litclauses :: d.litclauses[l] == d0.litclauses[l] - b)
  }

  /** The removal records of the clauses `cs`, each with its count. */
  function RemovalRecords(ctimes: map<Clause, nat>, cs: set<Clause>): set<Removal>
  {
    set c | c in cs :: Removal(c, Times(ctimes, c))
  }

  /** The removal records written when retiring the bucket of `lit`. */
  function Removals(d0: Db, lit: Lit): set<Removal>
    requires lit in d0.litclauses
  {
    RemovalRecords(d0.ctimes, d0.litclauses[lit])
  }

  /** Retiring a bucket keeps the database consistent. */
  lemma RemovedWithConsistent(d0: Db, lit: Lit, d: Db)
    requires Consistent(d0)
    requires lit in d0.litclauses && RemovedWith(d0, lit, d)
    ensures Consistent(d)
    ensures d.clauses == Retired(d0.clauses, lit)
  {
    var b := d0.litclauses[lit];
    forall l, c | c in d.clauses && l in c
      ensures l in d.litclauses && c in d.litclauses[l]
    {
      assert c in d0.clauses && c !in b;
      assert c in d0.litclauses[l];
      assert l != lit;
      assert c in d0.litclauses[l] - b;
    }
  }

  /** A clause in a bucket of a consistent state is live and holds the literal. */
  lemma InBucketIsLive(d: Db, l: Lit, c: Clause)
    requires Consistent(d) && l in d.litclauses && c in d.litclauses[l]
    ensures c in d.clauses && l in c && Times(d.ctimes, c) > 0
  {
  }

  /** A live clause of a consistent state is in the bucket of each of its literals. */
  lemma LiveClauseBuckets(d: Db, c: Clause)
    requires Consistent(d) && c in d.clauses
    ensures forall l | l in c :: l in d.litclauses && c in d.litclauses[l]
  {
  }

  /** The clauses retired after logging the bucket of `lit`. */
  lemma RetiredRemovals(d0: Db, rs: set<Removal>, lit: Lit)
    requires lit in d0.litclauses
    ensures RetiredClauses(rs + Removals(d0, lit)) == RetiredClauses(rs) + d0.litclauses[lit]
  {
    forall c | c in d0.litclauses[lit]
      ensures c in RetiredClauses(rs + Removals(d0, lit))
    {
      assert Removal(c, Times(d0.ctimes, c)) in Removals(d0, lit);
    }
  }

  /** Retiring a bucket keeps the log accounting for the counts. */
  lemma RemovedWithCounts(before: Db, d0: Db, rs: set<Removal>, ms: seq<Modification>, lit: Lit, d: Db)
    requires Consistent(d0) && LogRecords(before, rs, ms) && LogCounts(before, d0, rs, ms)
    requires lit in d0.litclauses && RemovedWith(d0, lit, d)
    ensures LogRecords(before, rs + Removals(d0, lit), ms)
    ensures LogCounts(before, d, rs + Removals(d0, lit), ms)
  {
    var b := d0.litclauses[lit];
    var rs' := rs + Removals(d0, lit);
    RetiredRemovals(d0, rs, lit);
    forall r | r in rs'
      ensures r.times >= 1
      ensures r.times == Times(before.ctimes, r.clause) + Produced(ms, r.clause)
      ensures r.clause !in KilledClauses(ms)
    {
      if r !in rs {
        var c := r.clause;
        assert c in b && r.times == Times(d0.ctimes, c);
        InBucketIsLive(d0, lit, c);
      }
    }
    forall c
      ensures Times(d.ctimes, c) ==
        if c in RetiredClauses(rs') || c in KilledClauses(ms) then 0
        else Times(before.ctimes, c) + Produced(ms, c)
    {
      if c in b {
        assert c in RetiredClauses(rs');
      }
    }
  }

  /** Retiring a bucket leaves every retired or replaced clause unreachable. */
  lemma RemovedWithUnreachable(d0: Db, rs: set<Removal>, ms: seq<Modification>, lit: Lit, d: Db)
    requires Consistent(d0) && DeadUnreachable(d0, rs, ms)
    requires lit in d0.litclauses && RemovedWith(d0, lit, d)
    ensures DeadUnreachable(d, rs + Removals(d0, lit), ms)
  {
    var b := d0.litclauses[lit];
    var rs' := rs + Removals(d0, lit);
    RetiredRemovals(d0, rs, lit);
    forall c | c in RetiredClauses(rs') + KilledClauses(ms)
      ensures exists l :: l in c && l !in d.litclauses
    {
      if c in b {
        assert lit in c && lit !in d.litclauses;
      } else {
        assert c in RetiredClauses(rs) + KilledClauses(ms);
        var l :| l in c && l !in d0.litclauses;
        assert l !in d.litclauses;
      }
    }
  }

  /** Retiring a bucket keeps the database consistent and the log accounting. */
  lemma RemovedWithLogged(before: Db, d0: Db, rs: set<Removal>, ms: seq<Modification>, lit: Lit, d: Db)
    requires Logged(before, d0, rs, ms)
    requires lit in d0.litclauses && RemovedWith(d0, lit, d)
    ensures Logged(before, d, rs + Removals(d0, lit), ms)
    ensures d.clauses == Retired(d0.clauses, lit)
  {
    RemovedWithConsistent(d0, lit, d);
    RemovedWithCounts(before, d0, rs, ms, lit, d);
    RemovedWithUnreachable(d0, rs, ms, lit, d);
  }

  /** The state part-way through retiring the bucket of `lit`: the clauses of
      `done` are retired and unlinked, the bucket of `lit` is still in place. */
  ghost predicate RemovedPart(d0: Db, lit: Lit, done: set<Clause>, d: Db)
  {
    && d.clauses == d0.clauses - done
    && (forall c :: Times(d.ctimes, c) == if c in done then 0 else Times(d0.ctimes, c))
    && (forall l :: l in d.litclauses <==> l in d0.litclauses && (l == lit || d0.litclauses[l] - done != {}))
    && (forall l | l in d.litclauses :: d.litclauses[l] == if l == lit then d0.litclauses[lit] else d0.litclauses[l] - done)
  }

  /** Before the next clause of the bucket is retired: it is counted and it is in
      the bucket of each of its other literals. */
  lemma RemovedPartNext(d0: Db, lit: Lit, done: set<Clause>, d: Db, clause: Clause)
    requires Consistent(d0) && lit in d0.litclauses && done <= d0.litclauses[lit]
    requires clause in d0.litclauses[lit] - done && RemovedPart(d0, lit, done, d)
    ensures clause in d.ctimes && d.ctimes[clause] == Times(d0.ctimes, clause)
    ensures forall l | l in clause && l != lit :: l in d.litclauses && clause in d.litclauses[l]
  {
    InBucketIsLive(d0, lit, clause);
    LiveClauseBuckets(d0, clause);
    forall l | l in clause && l != lit
      ensures l in d.litclauses && clause in d.litclauses[l]
    {
      assert clause in d0.litclauses[l] - done;
    }
  }

  /** The index after unlinking `clause` from the buckets of its literals other
      than `lit`, deleting buckets left empty. */
  ghost predicate Unlinked(lc0: map<Lit, set<Clause>>, lc: map<Lit, set<Clause>>, clause: Clause, lit: Lit)
  {
    && (forall l :: l in lc <==> l in lc0 && !(l in clause && l != lit && lc0[l] - {clause} == {}))
    && (forall l | l in lc :: lc[l] == if l in clause && l != lit then lc0[l] - {clause} else lc0[l])
  }

  /** Retiring and unlinking one more clause of the bucket. */
  lemma RemovedPartStep(d0: Db, lit: Lit, done: set<Clause>, d: Db, clause: Clause, d': Db)
    requires Consistent(d0) && lit in d0.litclauses && done <= d0.litclauses[lit]
    requires clause in d0.litclauses[lit] - done && RemovedPart(d0, lit, done, d)
    requires d'.clauses == d.clauses - {clause} && d'.ctimes == d.ctimes[clause := 0]
    requires Unlinked(d.litclauses, d'.litclauses, clause, lit)
    ensures RemovedPart(d0, lit, done + {clause}, d')
  {
    var done' := done + {clause};
    forall l
      ensures l in d'.litclauses <==> l in d0.litclauses && (l == lit || d0.litclauses[l] - done' != {})
      ensures l in d'.litclauses ==> d'.litclauses[l] == if l == lit then d0.litclauses[lit] else d0.litclauses[l] - done'
    {
      if l in d0.litclauses && l != lit && l !in clause {
        assert clause !in d0.litclauses[l];
        assert d0.litclauses[l] - done' == d0.litclauses[l] - done;
      }
    }
  }

  /** Deleting the bucket of `lit` once all of it is retired ends the edit. */
  lemma RemovedPartDone(d0: Db, lit: Lit, d: Db, d': Db)
    requires Consistent(d0) && lit in d0.litclauses
    requires RemovedPart(d0, lit, d0.litclauses[lit], d)
    requires d'.clauses == d.clauses && d'.ctimes == d.ctimes && d'.litclauses == d.litclauses - {lit}
    ensures RemovedWith(d0, lit, d')
  {
  }

  /** One turn of the loop of dpll.py:236-251 on `clause`, the next clause of the
      bucket of `lit`: logs it with its count, drops it from the clause set, sets
      its count to 0 and unlinks it from the other buckets. */
  method RetireNext(lit: Lit, cdata: ClausesData, cchanges: ClausesChanges, clause: Clause,
                    ghost d0: Db, ghost done: set<Clause>)
    requires Consistent(d0) && lit in d0.litclauses && done <= d0.litclauses[lit]
    requires clause in d0.litclauses[lit] - done
    requires RemovedPart(d0, lit, done, cdata.View())
    modifies cdata, cchanges
    ensures RemovedPart(d0, lit, done + {clause}, cdata.View())
    ensures cchanges.rclauses == old(cchanges.rclauses) + {Removal(clause, Times(d0.ctimes, clause))}
    ensures cchanges.mclauses == old(cchanges.mclauses)
  {
    RemovedPartNext(d0, lit, done, cdata.View(), clause);
    ghost var d := cdata.View();
    cchanges.rclauses := cchanges.rclauses + {Removal(clause, cdata.ctimes[clause])};
    cdata.clauses := cdata.clauses - {clause};
    cdata.ctimes := cdata.ctimes[clause := 0];
    UnlinkClause(cdata, clause, lit);
    RemovedPartStep(d0, lit, done, d, clause, cdata.View());
  }

  /** Retires every clause that `lit` satisfies (dpll.py:231-253): each is logged
      with its count, leaves the clause set, gets count 0 and leaves every bucket,
      buckets left empty are deleted, and the bucket of `lit` itself goes last. */
  method RemoveClausesWithLiteral(lit: Lit, cdata: ClausesData, cchanges: ClausesChanges)
    requires lit in cdata.litclauses && Consistent(cdata.View())
    modifies cdata, cchanges
    ensures RemovedWith(old(cdata.View()), lit, cdata.View())
    ensures cchanges.rclauses == old(cchanges.rclauses) + Removals(old(cdata.View()), lit)
    ensures cchanges.mclauses == old(cchanges.mclauses)
  {
    ghost var d0 := cdata.View();
    ghost var rs0 := cchanges.rclauses;
    var todo := cdata.litclauses[lit];
    ghost var b := todo;
    ghost var done: set<Clause> := {};
    while todo != {}
      invariant todo <= b && done == b - todo
      invariant RemovedPart(d0, lit, done, cdata.View())
      invariant cchanges.rclauses == rs0 + RemovalRecords(d0.ctimes, done)
      invariant cchanges.mclauses == old(cchanges.mclauses)
      decreases todo
    {
      var clause := Pick(todo);
      ghost var recs := RemovalRecords(d0.ctimes, done);
      RetireNext(lit, cdata, cchanges, clause, d0, done);
      todo := todo - {clause};
      done := done + {clause};
      assert RemovalRecords(d0.ctimes, done) == recs + {Removal(clause, Times(d0.ctimes, clause))};
    }
    assert done == b;
    assert cchanges.rclauses == rs0 + Removals(d0, lit);
    ghost var d := cdata.View();
    cdata.litclauses := cdata.litclauses - {lit};
    RemovedPartDone(d0, lit, d, cdata.View());
  }

  /** Clause `c` is what shortening a clause of `done` by `lit` produced. */
  ghost predicate Regrown(c: Clause, lit: Lit, done: set<Clause>)
  {
    lit !in c && c + {lit} in done
  }

  /** The clause set after shortening the clauses of `done`: they are replaced
      by their shortenings. */
  ghost predicate ShrunkClauses(d0: Db, lit: Lit, done: set<Clause>, d: Db)
  {
    forall c :: c in d.clauses <==> (c in d0.clauses && c !in done) || Regrown(c, lit, done)
  }

  /** The counts after shortening the clauses of `done`: each of them has count
      0 and each shortening has one more count. */
  ghost predicate ShrunkCounts(d0: Db, lit: Lit, done: set<Clause>, d: Db)
  {
    forall c :: Times(d.ctimes, c) == if c in done then 0 else Times(d0.ctimes, c) + (if Regrown(c, lit, done) then 1 else 0)
  }

  /** The state part-way through shortening the bucket of `lit`: each clause of
      `done` has been replaced by itself without `lit`, which gained one count and
      took its place in the buckets of its literals; the bucket of `lit` is still
      in place. */
  ghost predicate ShrunkPart(d0: Db, lit: Lit, done: set<Clause>, d: Db)
  {
    && ShrunkClauses(d0, lit, done, d)
    && ShrunkCounts(d0, lit, done, d)
    && ShrunkLinks(d0.litclauses, lit, done, d.litclauses)
  }

  /** The index part-way through shortening the bucket of `lit`. */
  ghost predicate ShrunkLinks(lc0: map<Lit, set<Clause>>, lit: Lit, done: set<Clause>, lc: map<Lit, set<Clause>>)
  {
    && lc.Keys == lc0.Keys
    && (forall l | l in lc :: lc[l] == if l == lit then lc0[lit] else lc0[l] - done + Holding(done, lit, l))
  }

  /** The shortened clauses of `done` that hold `l`. */
  function Holding(done: set<Clause>, lit: Lit, l: Lit): set<Clause>
  {
    set k | k in done && l in k :: k - {lit}
  }

  /** The new modification records of a shortening pass over `done`: one per
      clause of `done`, in some order, each with the clause without `lit` and the
      count the clause had. */
  ghost predicate Shortenings(d0: Db, lit: Lit, done: set<Clause>, es: seq<Modification>)
  {
    && KilledClauses(es) == done
    && (forall i | 0 <= i < |es| ::
          es[i].nclause == es[i].clause - {lit} && es[i].times == Times(d0.ctimes, es[i].clause))
    && (forall i, j | 0 <= i < j < |es| :: es[i].clause != es[j].clause)
  }

  /** Before the next clause of the bucket is shortened: it holds `lit`, it is
      counted as at the start and it sits in the bucket of each of its literals. */
  lemma ShrunkPartNext(d0: Db, lit: Lit, done: set<Clause>, d: Db, clause: Clause)
    requires Consistent(d0) && lit in d0.litclauses && done <= d0.litclauses[lit]
    requires clause in d0.litclauses[lit] - done && ShrunkPart(d0, lit, done, d)
    ensures lit in clause && clause in d.ctimes && d.ctimes[clause] == Times(d0.ctimes, clause)
    ensures forall l | l in clause :: l in d.litclauses && clause in d.litclauses[l]
  {
    InBucketIsLive(d0, lit, clause);
    LiveClauseBuckets(d0, clause);
    assert !Regrown(clause, lit, done);
  }

  /** Shortening one more clause of the bucket. */
  lemma ShrunkPartStep(d0: Db, lit: Lit, done: set<Clause>, d: Db, clause: Clause, d': Db)
    requires Consistent(d0) && lit in d0.litclauses && done <= d0.litclauses[lit]
    requires clause in d0.litclauses[lit] - done && ShrunkPart(d0, lit, done, d)
    requires d'.clauses == d.clauses - {clause} + {clause - {lit}}
    requires d'.ctimes == d.ctimes[clause := 0][clause - {lit} := Times(d.ctimes[clause := 0], clause - {lit}) + 1]
    requires Relinked(d.litclauses, d'.litclauses, clause, clause - {lit})
    ensures ShrunkPart(d0, lit, done + {clause}, d')
  {
    InBucketIsLive(d0, lit, clause);
    ShrunkRegrowStep(lit, done, clause);
    assert ShrunkClauses(d0, lit, done + {clause}, d');
    assert ShrunkCounts(d0, lit, done + {clause}, d');
    ShrunkLinksStep(d0, lit, done, d.litclauses, clause, d'.litclauses);
  }

  /** Shortening one more clause adds exactly its shortening to the regrown
      clauses. */
  lemma ShrunkRegrowStep(lit: Lit, done: set<Clause>, clause: Clause)
    requires lit in clause && clause !in done
    ensures forall c :: Regrown(c, lit, done + {clause}) <==> Regrown(c, lit, done) || c == clause - {lit}
    ensures !Regrown(clause - {lit}, lit, done)
  {
    var nc := clause - {lit};
    assert nc + {lit} == clause;
    forall c
      ensures Regrown(c, lit, done + {clause}) <==> Regrown(c, lit, done) || c == nc
    {
      if lit !in c && c + {lit} == clause {
        assert c == nc;
      }
    }
  }

  /** Shortening one more clause: the index. */
  lemma ShrunkLinksStep(d0: Db, lit: Lit, done: set<Clause>, lc: map<Lit, set<Clause>>, clause: Clause, lc': map<Lit, set<Clause>>)
    requires IndexedExcept(d0, 0, {}) && lit in d0.litclauses && done <= d0.litclauses[lit]
    requires clause in d0.litclauses[lit] - done && ShrunkLinks(d0.litclauses, lit, done, lc)
    requires Relinked(lc, lc', clause, clause - {lit})
    ensures ShrunkLinks(d0.litclauses, lit, done + {clause}, lc')
  {
    var nc := clause - {lit};
    var done' := done + {clause};
    forall l | l in lc'
      ensures lc'[l] == if l == lit then d0.litclauses[lit] else d0.litclauses[l] - done' + Holding(done', lit, l)
    {
      if l != lit {
        var h := Holding(done, lit, l);
        assert clause !in h;
        if l in nc {
          assert Holding(done', lit, l) == h + {nc};
        } else {
          assert l !in clause;
          assert clause !in d0.litclauses[l];
          assert Holding(done', lit, l) == h;
        }
      }
    }
  }

  /** Deleting the bucket of `lit` once all of it is shortened ends the pass. */
  lemma ShrunkPartDone(d0: Db, lit: Lit, d: Db, d': Db)
    requires lit in d0.litclauses
    requires ShrunkPart(d0, lit, d0.litclauses[lit], d)
    requires d'.clauses == d.clauses && d'.ctimes == d.ctimes && d'.litclauses == d.litclauses - {lit}
    ensures ShrunkWith(d0, lit, d')
  {
    forall l | l in d'.litclauses
      ensures l in d.litclauses && d'.litclauses[l] == d.litclauses[l]
    {
    }
  }

  /** One more record of a shortening pass. */
  lemma ShorteningsStep(d0: Db, lit: Lit, done: set<Clause>, es: seq<Modification>, clause: Clause)
    requires Shortenings(d0, lit, done, es) && clause !in done
    ensures Shortenings(d0, lit, done + {clause}, es + [Modification(clause - {lit}, clause, Times(d0.ctimes, clause))])
  {
    var m := Modification(clause - {lit}, clause, Times(d0.ctimes, clause));
    var es' := es + [m];
    assert KilledClauses(es') == KilledClauses(es) + {clause} by {
      forall c | c in KilledClauses(es')
        ensures c in KilledClauses(es) + {clause}
      {
        var x :| x in es' && x.clause == c;
        if x != m {
          assert x in es;
        }
      }
      forall c | c in KilledClauses(es)
        ensures c in KilledClauses(es')
      {
        var x :| x in es && x.clause == c;
        assert x in es';
      }
      assert m in es';
    }
    forall i, j | 0 <= i < j < |es'|
      ensures es'[i].clause != es'[j].clause
    {
      if j == |es| {
        assert es[i] in es;
      }
    }
  }

  /** The state after shortening the whole bucket of `lit` and deleting it. */
  ghost predicate ShrunkWith(d0: Db, lit: Lit, d: Db)
    requires lit in d0.litclauses
  {
    var b := d0.litclauses[lit];
    && ShrunkClauses(d0, lit, b, d)
    && ShrunkCounts(d0, lit, b, d)
    && d.litclauses.Keys == d0.litclauses.Keys - {lit}
    && (forall l | l in d.litclauses :: d.litclauses[l] == d0.litclauses[l] - b + Holding(b, lit, l))
  }

  /** A live unit clause `{lit}` is in the bucket of `lit`. */
  lemma UnitInBucket(d0: Db, lit: Lit)
    requires Consistent(d0) && {lit} in d0.clauses
    ensures lit in d0.litclauses && {lit} in d0.litclauses[lit]
  {
    assert lit in {lit};
  }

  /** Replaces `clause` by its shortening `nclause` and logs it (the body of the
      loop of dpll.py:268-286): `clause` gets count 0, `nclause` one more count,
      and `nclause` takes the place of `clause` in the buckets of its literals. */
  method ShortenClause(cdata: ClausesData, cchanges: ClausesChanges, clause: Clause, nclause: Clause)
    requires clause in cdata.ctimes
    requires forall l | l in nclause :: l in cdata.litclauses && clause in cdata.litclauses[l]
    modifies cdata, cchanges
    ensures cchanges.mclauses == old(cchanges.mclauses) + [Modification(nclause, clause, old(cdata.ctimes)[clause])]
    ensures cchanges.rclauses == old(cchanges.rclauses)
    ensures cdata.clauses == old(cdata.clauses) - {clause} + {nclause}
    ensures cdata.ctimes == old(cdata.ctimes)[clause := 0][nclause := Times(old(cdata.ctimes)[clause := 0], nclause) + 1]
    ensures Relinked(old(cdata.litclauses), cdata.litclauses, clause, nclause)
  {
    cchanges.mclauses := cchanges.mclauses + [Modification(nclause, clause, cdata.ctimes[clause])];
    cdata.clauses := cdata.clauses - {clause};
    cdata.clauses := cdata.clauses + {nclause};
    cdata.ctimes := cdata.ctimes[clause := 0];
    cdata.ctimes := cdata.ctimes[nclause := Times(cdata.ctimes, nclause) + 1];
    RelinkClause(cdata, clause, nclause);
  }

  /** One turn of the loop of dpll.py:262-286 on `clause`, the next clause of the
      bucket of `lit`: reports a conflict when the clause is `{lit}` alone, and
      otherwise replaces it by its shortening. */
  method ShortenNext(lit: Lit, cdata: ClausesData, cchanges: ClausesChanges, clause: Clause,
                     ghost d0: Db, ghost done: set<Clause>, ghost ms0: seq<Modification>, ghost es: seq<Modification>)
    returns (conflict: bool, ghost es': seq<Modification>)
    requires Consistent(d0) && lit in d0.litclauses && done <= d0.litclauses[lit]
    requires clause in d0.litclauses[lit] - done
    requires ShrunkPart(d0, lit, done, cdata.View())
    requires cchanges.mclauses == ms0 + es && Shortenings(d0, lit, done, es)
    modifies cdata, cchanges
    ensures conflict <==> clause == {lit}
    ensures conflict ==> {lit} in d0.clauses && cdata.View() == old(cdata.View()) && cchanges.mclauses == old(cchanges.mclauses)
    ensures conflict ==> es' == es
    ensures !conflict ==> ShrunkPart(d0, lit, done + {clause}, cdata.View())
    ensures !conflict ==> cchanges.mclauses == ms0 + es' && Shortenings(d0, lit, done + {clause}, es')
    ensures !conflict ==> es' == es + [Modification(clause - {lit}, clause, Times(d0.ctimes, clause))]
    ensures cchanges.rclauses == old(cchanges.rclauses)
  {
    ShrunkPartNext(d0, lit, done, cdata.View(), clause);
    var nc := clause - {lit};
    if nc == {} {
      assert clause == {lit};
      InBucketIsLive(d0, lit, clause);
      return true, es;
    }
    ghost var d := cdata.View();
    ShortenClause(cdata, cchanges, clause, nc);
    ShrunkPartStep(d0, lit, done, d, clause, cdata.View());
    ShorteningsStep(d0, lit, done, es, clause);
    es' := es + [Modification(nc, clause, Times(d0.ctimes, clause))];
    assert cchanges.mclauses == ms0 + es';
    return false, es';
  }

  /** The loop of dpll.py:263-286: takes `lit` out of the clauses of its bucket,
      one at a time, logging each replacement, and stops early, returning true,
      at the clause made of `lit` alone. */
  method ShortenBucket(lit: Lit, cdata: ClausesData, cchanges: ClausesChanges)
    returns (conflict: bool, ghost done: set<Clause>, ghost es: seq<Modification>)
    requires lit in cdata.litclauses && Consistent(cdata.View())
    modifies cdata, cchanges
    ensures conflict ==> {lit} in old(cdata.clauses)
    ensures done <= old(cdata.litclauses)[lit] && {lit} !in done
    ensures !conflict ==> done == old(cdata.litclauses)[lit]
    ensures cchanges.mclauses == old(cchanges.mclauses) + es
    ensures Shortenings(old(cdata.View()), lit, done, es)
    ensures cchanges.rclauses == old(cchanges.rclauses)
    ensures ShrunkPart(old(cdata.View()), lit, done, cdata.View())
  {
    ghost var d0 := cdata.View();
    ghost var ms0 := cchanges.mclauses;
    var todo := cdata.litclauses[lit];
    ghost var b := todo;
    done, es := {}, [];
    while todo != {}
      invariant todo <= b && done == b - todo && {lit} !in done
      invariant ShrunkPart(d0, lit, done, cdata.View())
      invariant cchanges.mclauses == ms0 + es
      invariant Shortenings(d0, lit, done, es)
      invariant cchanges.rclauses == old(cchanges.rclauses)
      decreases todo
    {
      var clause := Pick(todo);
      conflict, es := ShortenNext(lit, cdata, cchanges, clause, d0, done, ms0, es);
      if conflict {
        return true, done, es;
      }
      todo := todo - {clause};
      done := done + {clause};
    }
    return false, done, es;
  }

  /** Takes `lit` out of every clause holding it (dpll.py:257-290), logging each
      replacement. Returns true, leaving the pass unfinished, as soon as it meets
      the clause made of `lit` alone, which would become empty: that happens
      exactly when that unit clause is live. Otherwise every clause holding `lit`
      is replaced and the bucket of `lit` is deleted. */
  method RemoveLiteralFromClauses(lit: Lit, cdata: ClausesData, cchanges: ClausesChanges)
    returns (conflict: bool, ghost done: set<Clause>, ghost es: seq<Modification>)
    requires lit in cdata.litclauses && Consistent(cdata.View())
    modifies cdata, cchanges
    ensures conflict <==> {lit} in old(cdata.clauses)
    ensures done <= old(cdata.litclauses)[lit] && {lit} !in done
    ensures !conflict ==> done == old(cdata.litclauses)[lit]
    ensures cchanges.mclauses == old(cchanges.mclauses) + es
    ensures Shortenings(old(cdata.View()), lit, done, es)
    ensures cchanges.rclauses == old(cchanges.rclauses)
    ensures conflict ==> ShrunkPart(old(cdata.View()), lit, done, cdata.View())
    ensures !conflict ==> ShrunkWith(old(cdata.View()), lit, cdata.View())
  {
    ghost var d0 := cdata.View();
    conflict, done, es := ShortenBucket(lit, cdata, cchanges);
    if conflict {
      return;
    }
    if {lit} in d0.clauses {
      UnitInBucket(d0, lit);
    }
    ghost var d := cdata.View();
    cdata.litclauses := cdata.litclauses - {lit};
    ShrunkPartDone(d0, lit, d, cdata.View());
  }

  /** Counting productions distributes over concatenated logs. */
  lemma {:induction false} ProducedAppend(a: seq<Modification>, b: seq<Modification>, c: Clause)
    ensures Produced(a + b, c) == Produced(a, c) + Produced(b, c)
    decreases |b|
  {
    if b != [] {
      var b' := b[..|b| - 1];
      assert (a + b)[..|a + b| - 1] == a + b';
      ProducedAppend(a, b', c);
    } else {
      assert a + b == a;
    }
  }

  /** The clauses replaced by a log with one more record. */
  lemma KilledAppend(ms: seq<Modification>, m: Modification)
    ensures KilledClauses(ms + [m]) == KilledClauses(ms) + {m.clause}
  {
    forall c | c in KilledClauses(ms + [m])
      ensures c in KilledClauses(ms) + {m.clause}
    {
      var x :| x in ms + [m] && x.clause == c;
      if x != m {
        assert x in ms;
      }
    }
    forall c | c in KilledClauses(ms)
      ensures c in KilledClauses(ms + [m])
    {
      var x :| x in ms && x.clause == c;
      assert x in ms + [m];
    }
    assert m in ms + [m];
  }

  /** In a log that shortens distinct clauses holding `lit` by `lit`, a clause is
      produced once if adding `lit` back gives a replaced clause, and never
      otherwise. */
  lemma {:induction false} ProducedByShortening(es: seq<Modification>, lit: Lit, c: Clause)
    requires forall i | 0 <= i < |es| :: lit in es[i].clause && es[i].nclause == es[i].clause - {lit}
    requires forall i, j | 0 <= i < j < |es| :: es[i].clause != es[j].clause
    ensures Produced(es, c) == if lit !in c && c + {lit} in KilledClauses(es) then 1 else 0
    decreases |es|
  {
    if es == [] {
      assert KilledClauses(es) == {};
    } else {
      var p := es[..|es| - 1];
      var m := es[|es| - 1];
      assert es == p + [m];
      ProducedByShortening(p, lit, c);
      KilledAppend(p, m);
      if m.nclause == c {
        assert m.clause == c + {lit};
        assert m.clause !in KilledClauses(p);
      }
    }
  }

  /** The clauses replaced by two consecutive logs. */
  lemma KilledConcat(a: seq<Modification>, b: seq<Modification>)
    ensures KilledClauses(a + b) == KilledClauses(a) + KilledClauses(b)
  {
    forall c | c in KilledClauses(a + b)
      ensures c in KilledClauses(a) + KilledClauses(b)
    {
      var x :| x in a + b && x.clause == c;
    }
    forall c | c in KilledClauses(a) + KilledClauses(b)
      ensures c in KilledClauses(a + b)
    {
      if c in KilledClauses(a) {
        var x :| x in a && x.clause == c;
        assert x in a + b;
      } else {
        var x :| x in b && x.clause == c;
        assert x in a + b;
      }
    }
  }

  /** A clause of the bucket of `lit` is live, holds `lit`, is counted and each
      of its literals has a bucket. */
  lemma BucketClauseFacts(d0: Db, lit: Lit, k: Clause)
    requires Consistent(d0) && lit in d0.litclauses && k in d0.litclauses[lit]
    ensures k in d0.clauses && lit in k && Times(d0.ctimes, k) > 0
    ensures forall l | l in k :: l in d0.litclauses
  {
    InBucketIsLive(d0, lit, k);
    LiveClauseBuckets(d0, k);
  }

  /** A clause the log retired or replaced is no part of a live clause. */
  lemma DeadIsNoPart(d0: Db, rs: set<Removal>, ms: seq<Modification>, c: Clause, k: Clause)
    requires Consistent(d0) && DeadUnreachable(d0, rs, ms)
    requires c in RetiredClauses(rs) + KilledClauses(ms) && k in d0.clauses
    ensures !(c <= k)
  {
    var l :| l in c && l !in d0.litclauses;
    LiveClauseBuckets(d0, k);
  }

  /** A shortening pass over clauses of the bucket of `lit` neither replaces nor
      produces a clause the log already retired or replaced. */
  lemma DeadNotShortened(before: Db, d0: Db, rs: set<Removal>, ms: seq<Modification>, lit: Lit, done: set<Clause>, c: Clause)
    requires Consistent(d0) && LogCounts(before, d0, rs, ms) && DeadUnreachable(d0, rs, ms)
    requires lit in d0.litclauses && done <= d0.litclauses[lit]
    requires c in RetiredClauses(rs) + KilledClauses(ms)
    ensures c !in done && !Regrown(c, lit, done) && Times(d0.ctimes, c) == 0
  {
    if c in done {
      BucketClauseFacts(d0, lit, c);
      DeadIsNoPart(d0, rs, ms, c, c);
    }
    if Regrown(c, lit, done) {
      BucketClauseFacts(d0, lit, c + {lit});
      DeadIsNoPart(d0, rs, ms, c, c + {lit});
    }
    LogCountsAt(before, d0, rs, ms, c);
  }

  /** The count the log gives to one clause. */
  lemma LogCountsAt(before: Db, d: Db, rs: set<Removal>, ms: seq<Modification>, c: Clause)
    requires LogCounts(before, d, rs, ms)
    ensures Times(d.ctimes, c) ==
      if c in RetiredClauses(rs) || c in KilledClauses(ms) then 0
      else Times(before.ctimes, c) + Produced(ms, c)
  {
  }

  /** Taking `lit` out of a clause holding it and something else leaves a
      nonempty proper part of it. */
  lemma ShortenedIsProper(k: Clause, lit: Lit)
    requires lit in k && k != {lit}
    ensures k - {lit} != {} && k - {lit} < k
  {
    assert lit !in k - {lit};
  }

  /** The records of a shortening pass, each for a clause of the bucket. */
  lemma ShorteningFacts(d0: Db, lit: Lit, done: set<Clause>, es: seq<Modification>)
    requires Consistent(d0) && lit in d0.litclauses && done <= d0.litclauses[lit] && {lit} !in done
    requires Shortenings(d0, lit, done, es)
    ensures forall i | 0 <= i < |es| ::
      && es[i].clause in done && lit in es[i].clause && Times(d0.ctimes, es[i].clause) > 0
      && es[i].nclause == es[i].clause - {lit} && es[i].nclause != {} && es[i].nclause < es[i].clause
  {
    forall i | 0 <= i < |es|
      ensures es[i].clause in done && lit in es[i].clause && Times(d0.ctimes, es[i].clause) > 0
      ensures es[i].nclause != {} && es[i].nclause < es[i].clause
    {
      assert es[i] in es;
      BucketClauseFacts(d0, lit, es[i].clause);
      ShortenedIsProper(es[i].clause, lit);
    }
  }

  /** After a shortening pass no clause is replaced twice, and no replaced clause
      is produced again later. */
  lemma ShrunkRecordPairs(before: Db, d0: Db, rs: set<Removal>, ms0: seq<Modification>, lit: Lit, done: set<Clause>, es: seq<Modification>)
    requires Logged(before, d0, rs, ms0) && lit in d0.litclauses && done <= d0.litclauses[lit] && {lit} !in done
    requires Shortenings(d0, lit, done, es)
    ensures forall i, j | 0 <= i < j < |ms0 + es| ::
      (ms0 + es)[i].clause != (ms0 + es)[j].clause && (ms0 + es)[j].nclause != (ms0 + es)[i].clause
  {
    var ms := ms0 + es;
    var n := |ms0|;
    ShorteningFacts(d0, lit, done, es);
    forall i, j | 0 <= i < j < |ms|
      ensures ms[i].clause != ms[j].clause && ms[j].nclause != ms[i].clause
    {
      if j >= n {
        var k := es[j - n].clause;
        BucketClauseFacts(d0, lit, k);
        if i < n {
          assert ms0[i] in ms0;
          DeadIsNoPart(d0, rs, ms0, ms0[i].clause, k);
        } else {
          assert lit in ms[i].clause && lit !in ms[j].nclause;
        }
      }
    }
  }

  /** After a shortening pass each new record holds the count its clause had. */
  lemma ShrunkRecordTimes(before: Db, d0: Db, rs: set<Removal>, ms0: seq<Modification>, lit: Lit, done: set<Clause>, es: seq<Modification>)
    requires Consistent(d0) && LogCounts(before, d0, rs, ms0) && DeadUnreachable(d0, rs, ms0)
    requires lit in d0.litclauses && done <= d0.litclauses[lit] && Shortenings(d0, lit, done, es)
    ensures forall j | |ms0| <= j < |ms0 + es| ::
      (ms0 + es)[j].times == Times(before.ctimes, (ms0 + es)[j].clause) + Produced((ms0 + es)[..j], (ms0 + es)[j].clause)
  {
    forall j | |ms0| <= j < |ms0 + es|
      ensures (ms0 + es)[j].times == Times(before.ctimes, (ms0 + es)[j].clause) + Produced((ms0 + es)[..j], (ms0 + es)[j].clause)
    {
      ShrunkRecordTimeAt(before, d0, rs, ms0, lit, done, es, j - |ms0|);
    }
  }

  /** The record of the `i`-th clause shortened holds the count that clause had. */
  lemma ShrunkRecordTimeAt(before: Db, d0: Db, rs: set<Removal>, ms0: seq<Modification>, lit: Lit, done: set<Clause>, es: seq<Modification>, i: nat)
    requires Consistent(d0) && LogCounts(before, d0, rs, ms0) && DeadUnreachable(d0, rs, ms0)
    requires lit in d0.litclauses && done <= d0.litclauses[lit] && Shortenings(d0, lit, done, es) && i < |es|
    ensures es[i].times == Times(before.ctimes, es[i].clause) + Produced((ms0 + es)[..|ms0| + i], es[i].clause)
  {
    var k := es[i].clause;
    var pre := es[..i];
    assert es[i] in es;
    BucketClauseFacts(d0, lit, k);
    assert (ms0 + es)[..|ms0| + i] == ms0 + pre;
    ProducedAppend(ms0, pre, k);
    ShortenedProducesNothing(pre, lit, k);
    LogCountsAt(before, d0, rs, ms0, k);
    if k in RetiredClauses(rs) + KilledClauses(ms0) {
      DeadNotShortened(before, d0, rs, ms0, lit, done, k);
    }
  }

  /** Records that take `lit` out never produce a clause holding `lit`. */
  lemma {:induction false} ShortenedProducesNothing(es: seq<Modification>, lit: Lit, k: Clause)
    requires lit in k
    requires forall i | 0 <= i < |es| :: es[i].nclause == es[i].clause - {lit}
    ensures Produced(es, k) == 0
    decreases |es|
  {
    if es != [] {
      assert es[|es| - 1].nclause != k;
      ShortenedProducesNothing(es[..|es| - 1], lit, k);
    }
  }

  /** After a shortening pass each removal record still holds its count, and no
      retired clause is replaced. */
  lemma ShrunkRemovals(before: Db, d0: Db, rs: set<Removal>, ms0: seq<Modification>, lit: Lit, done: set<Clause>, es: seq<Modification>)
    requires Logged(before, d0, rs, ms0) && lit in d0.litclauses && done <= d0.litclauses[lit] && {lit} !in done
    requires Shortenings(d0, lit, done, es)
    ensures forall r | r in rs ::
      r.times == Times(before.ctimes, r.clause) + Produced(ms0 + es, r.clause) && r.clause !in KilledClauses(ms0 + es)
  {
    ShorteningFacts(d0, lit, done, es);
    KilledConcat(ms0, es);
    forall r | r in rs
      ensures r.times == Times(before.ctimes, r.clause) + Produced(ms0 + es, r.clause)
      ensures r.clause !in KilledClauses(ms0 + es)
    {
      assert r.clause in RetiredClauses(rs);
      DeadNotShortened(before, d0, rs, ms0, lit, done, r.clause);
      ProducedAppend(ms0, es, r.clause);
      ProducedByShortening(es, lit, r.clause);
    }
  }

  /** Appending the records of a shortening pass keeps the log well formed. */
  lemma ShrunkRecords(before: Db, d0: Db, rs: set<Removal>, ms0: seq<Modification>, lit: Lit, done: set<Clause>, es: seq<Modification>)
    requires Logged(before, d0, rs, ms0) && lit in d0.litclauses && done <= d0.litclauses[lit] && {lit} !in done
    requires Shortenings(d0, lit, done, es)
    ensures LogRecords(before, rs, ms0 + es)
  {
    var ms := ms0 + es;
    ShorteningFacts(d0, lit, done, es);
    ShrunkRecordPairs(before, d0, rs, ms0, lit, done, es);
    ShrunkRecordTimes(before, d0, rs, ms0, lit, done, es);
    ShrunkRemovals(before, d0, rs, ms0, lit, done, es);
    forall j | 0 <= j < |ms|
      ensures ms[j].nclause < ms[j].clause && ms[j].nclause != {} && ms[j].times >= 1
      ensures ms[j].times == Times(before.ctimes, ms[j].clause) + Produced(ms[..j], ms[j].clause)
    {
      if j < |ms0| {
        assert ms[..j] == ms0[..j];
      }
    }
  }

  /** After a shortening pass the log accounts for the counts. */
  lemma ShrunkLogCounts(before: Db, d0: Db, rs: set<Removal>, ms0: seq<Modification>, lit: Lit, done: set<Clause>,
                        es: seq<Modification>, d: Db)
    requires Logged(before, d0, rs, ms0) && lit in d0.litclauses && done <= d0.litclauses[lit] && {lit} !in done
    requires Shortenings(d0, lit, done, es) && ShrunkCounts(d0, lit, done, d)
    ensures LogCounts(before, d, rs, ms0 + es)
  {
    ShorteningFacts(d0, lit, done, es);
    KilledConcat(ms0, es);
    forall c
      ensures Times(d.ctimes, c) ==
        if c in RetiredClauses(rs) || c in KilledClauses(ms0 + es) then 0
        else Times(before.ctimes, c) + Produced(ms0 + es, c)
    {
      ProducedAppend(ms0, es, c);
      ProducedByShortening(es, lit, c);
      LogCountsAt(before, d0, rs, ms0, c);
      if c in RetiredClauses(rs) + KilledClauses(ms0) {
        DeadNotShortened(before, d0, rs, ms0, lit, done, c);
      }
    }
  }

  /** Adding `lit` back to a shortening gives the clause it came from. */
  lemma Regrowing(k: Clause, lit: Lit)
    requires lit in k
    ensures lit !in k - {lit} && (k - {lit}) + {lit} == k
  {
  }

  /** After shortening the clauses of `done`, a clause is live exactly when it is
      counted. */
  lemma ShrunkLive(d0: Db, lit: Lit, done: set<Clause>, d: Db)
    requires Consistent(d0) && lit in d0.litclauses && done <= d0.litclauses[lit]
    requires ShrunkClauses(d0, lit, done, d) && ShrunkCounts(d0, lit, done, d)
    ensures LiveIsCounted(d)
  {
    forall c
      ensures c in d.clauses <==> Times(d.ctimes, c) > 0
    {
      if c in done {
        BucketClauseFacts(d0, lit, c);
      }
    }
  }

  /** A bucket part-way through a shortening pass is not empty. */
  lemma ShrunkBucketNonEmpty(d0: Db, lit: Lit, done: set<Clause>, l: Lit)
    requires Consistent(d0) && lit in d0.litclauses && done <= d0.litclauses[lit]
    requires l in d0.litclauses && l != lit
    ensures d0.litclauses[l] - done + Holding(done, lit, l) != {}
  {
    if d0.litclauses[l] - done == {} {
      var c :| c in d0.litclauses[l];
      InBucketIsLive(d0, l, c);
      assert c !in d0.litclauses[l] - done;
      assert c in done && l in c;
      assert c - {lit} in Holding(done, lit, l);
    }
  }

  /** Part-way through a shortening pass the index is exact, except that the
      clauses already shortened linger in the bucket of `lit`. */
  lemma ShrunkIndexed(d0: Db, lit: Lit, done: set<Clause>, d: Db)
    requires Consistent(d0) && lit in d0.litclauses && done <= d0.litclauses[lit]
    requires ShrunkPart(d0, lit, done, d)
    ensures IndexedExcept(d, lit, done)
  {
    forall l | l in d.litclauses
      ensures d.litclauses[l] != {}
    {
      if l != lit {
        ShrunkBucketNonEmpty(d0, lit, done, l);
      }
    }
    forall l, c | l in d.litclauses && c in d.litclauses[l]
      ensures l in c && (c in d.clauses || (l == lit && c in done))
    {
      if l == lit {
        InBucketIsLive(d0, lit, c);
      } else if c in d0.litclauses[l] - done {
        InBucketIsLive(d0, l, c);
      } else {
        assert c in Holding(done, lit, l);
        var k :| k in done && l in k && c == k - {lit};
        BucketClauseFacts(d0, lit, k);
        Regrowing(k, lit);
      }
    }
    forall l, c | c in d.clauses && l in c
      ensures l in d.litclauses && c in d.litclauses[l]
    {
      if c in d0.clauses && c !in done {
        LiveClauseBuckets(d0, c);
      } else {
        var k := c + {lit};
        BucketClauseFacts(d0, lit, k);
        assert c == k - {lit};
        assert c in Holding(done, lit, l);
      }
    }
  }

  /** The state a conflict leaves behind can be undone. */
  lemma ShrunkUndoable(before: Db, d0: Db, rs: set<Removal>, ms0: seq<Modification>, lit: Lit, done: set<Clause>,
                       es: seq<Modification>, d: Db)
    requires Logged(before, d0, rs, ms0) && lit in d0.litclauses && done <= d0.litclauses[lit] && {lit} !in done
    requires Shortenings(d0, lit, done, es) && ShrunkPart(d0, lit, done, d)
    ensures Undoable(before, d, rs, ms0 + es, lit, done)
  {
    ShrunkRecords(before, d0, rs, ms0, lit, done, es);
    ShrunkLogCounts(before, d0, rs, ms0, lit, done, es, d);
    ShrunkLive(d0, lit, done, d);
    ShrunkIndexed(d0, lit, done, d);
    KilledConcat(ms0, es);
  }

  /** The clauses that do not hold `lit`. */
  function Retired(cs: set<Clause>, lit: Lit): set<Clause>
  {
    set c | c in cs && lit !in c
  }

  /** Every clause with `lit` taken out. */
  function Shorten(cs: set<Clause>, lit: Lit): set<Clause>
  {
    set k | k in cs :: k - {lit}
  }

  /** A completed shortening pass keeps the database consistent, and the new
      clause set is the old one with `lit` taken out of every clause. */
  lemma ShrunkWithConsistent(d0: Db, lit: Lit, d: Db)
    requires Consistent(d0) && lit in d0.litclauses && {lit} !in d0.clauses
    requires ShrunkWith(d0, lit, d)
    ensures Consistent(d)
    ensures d.clauses == Shorten(d0.clauses, lit)
  {
    var b := d0.litclauses[lit];
    ShrunkLive(d0, lit, b, d);
    forall l | l in d.litclauses
      ensures d.litclauses[l] != {}
    {
      ShrunkBucketNonEmpty(d0, lit, b, l);
    }
    forall l, c | l in d.litclauses && c in d.litclauses[l]
      ensures l in c && c in d.clauses
    {
      if c in d0.litclauses[l] - b {
        InBucketIsLive(d0, l, c);
      } else {
        assert c in Holding(b, lit, l);
        var k :| k in b && l in k && c == k - {lit};
        BucketClauseFacts(d0, lit, k);
        Regrowing(k, lit);
      }
    }
    forall l, c | c in d.clauses && l in c
      ensures l in d.litclauses && c in d.litclauses[l]
    {
      if c in d0.clauses && c !in b {
        LiveClauseBuckets(d0, c);
      } else {
        var k := c + {lit};
        BucketClauseFacts(d0, lit, k);
        assert c == k - {lit};
        assert c in Holding(b, lit, l);
      }
    }
    assert {} !in d.clauses by {
      assert {} + {lit} == {lit};
    }
    forall c | c in d.clauses
      ensures c in Shorten(d0.clauses, lit)
    {
      if c in d0.clauses && c !in b {
        LiveClauseBuckets(d0, c);
        assert c - {lit} == c;
      } else {
        var k := c + {lit};
        BucketClauseFacts(d0, lit, k);
        assert c == k - {lit};
      }
    }
    forall k | k in d0.clauses
      ensures k - {lit} in d.clauses
    {
      if lit in k {
        LiveClauseBuckets(d0, k);
        Regrowing(k, lit);
      } else {
        assert k - {lit} == k;
        assert k !in b;
      }
    }
  }

  /** A completed shortening pass keeps the database consistent and the log
      accounting for it. */
  lemma ShrunkLogged(before: Db, d0: Db, rs: set<Removal>, ms0: seq<Modification>, lit: Lit, es: seq<Modification>, d: Db)
    requires Logged(before, d0, rs, ms0) && lit in d0.litclauses && {lit} !in d0.clauses
    requires Shortenings(d0, lit, d0.litclauses[lit], es) && ShrunkWith(d0, lit, d)
    ensures Logged(before, d, rs, ms0 + es)
    ensures d.clauses == Shorten(d0.clauses, lit)
  {
    var b := d0.litclauses[lit];
    assert {lit} !in b by {
      if {lit} in b {
        InBucketIsLive(d0, lit, {lit});
      }
    }
    ShrunkWithConsistent(d0, lit, d);
    ShrunkRecords(before, d0, rs, ms0, lit, b, es);
    ShrunkLogCounts(before, d0, rs, ms0, lit, b, es, d);
    ShrunkUnreachable(d0, rs, ms0, lit, es, d);
  }

  /** After a completed shortening pass every retired or replaced clause holds a
      literal without a bucket. */
  lemma ShrunkUnreachable(d0: Db, rs: set<Removal>, ms0: seq<Modification>, lit: Lit, es: seq<Modification>, d: Db)
    requires Consistent(d0) && DeadUnreachable(d0, rs, ms0) && lit in d0.litclauses
    requires KilledClauses(es) == d0.litclauses[lit] && d.litclauses.Keys == d0.litclauses.Keys - {lit}
    ensures DeadUnreachable(d, rs, ms0 + es)
  {
    var b := d0.litclauses[lit];
    KilledConcat(ms0, es);
    forall c | c in RetiredClauses(rs) + KilledClauses(ms0 + es)
      ensures exists l :: l in c && l !in d.litclauses
    {
      if c in b {
        BucketClauseFacts(d0, lit, c);
        assert lit !in d.litclauses;
      } else {
        assert c in RetiredClauses(rs) + KilledClauses(ms0);
        var l :| l in c && l !in d0.litclauses;
        assert l !in d.litclauses;
      }
    }
  }

  /** The bucket of `l`, empty when `l` has none. */
  function Bucket(lc: map<Lit, set<Clause>>, l: Lit): set<Clause>
  {
    if l in lc then lc[l] else {}
  }

  /** The clauses of `cs` that hold `l`. */
  function Holders(cs: set<Clause>, l: Lit): set<Clause>
  {
    set c | c in cs && l in c
  }

  /** The state part-way through re-adding the clauses of the removal records
      `done`: each is live again with a count logged for it and sits in the
      bucket of each of its literals; nothing else changed. */
  ghost predicate ReaddedPart(d0: Db, done: set<Removal>, d: Db)
  {
    && d.clauses == d0.clauses + RetiredClauses(done)
    && ReaddedCounts(d0.ctimes, done, d.ctimes)
    && ReaddedLinks(d0.litclauses, RetiredClauses(done), d.litclauses)
  }

  /** The counts part-way through re-adding: each re-added clause has a count
      logged for it, every other count is unchanged. */
  ghost predicate ReaddedCounts(ct0: map<Clause, nat>, done: set<Removal>, ct: map<Clause, nat>)
  {
    && (forall c | c in RetiredClauses(done) :: c in ct && Removal(c, ct[c]) in done)
    && (forall c | c !in RetiredClauses(done) :: Times(ct, c) == Times(ct0, c))
  }

  /** The index part-way through re-adding the clauses `back`: each sits in the
      bucket of each of its literals, buckets being created as needed. */
  ghost predicate ReaddedLinks(lc0: map<Lit, set<Clause>>, back: set<Clause>, lc: map<Lit, set<Clause>>)
  {
    && (forall l :: l in lc <==> l in lc0 || Holders(back, l) != {})
    && (forall l | l in lc :: lc[l] == Bucket(lc0, l) + Holders(back, l))
  }

  /** The index after linking `clause` into the bucket of each of its literals. */
  ghost predicate Linked(lc0: map<Lit, set<Clause>>, lc: map<Lit, set<Clause>>, clause: Clause)
  {
    && (forall l :: l in lc <==> l in lc0 || l in clause)
    && (forall l | l in lc :: lc[l] == if l in clause then Bucket(lc0, l) + {clause} else lc0[l])
  }

  /** Re-adding one more removal record. */
  lemma ReaddedStep(d0: Db, done: set<Removal>, d: Db, r: Removal, d': Db)
    requires ReaddedPart(d0, done, d)
    requires d'.clauses == d.clauses + {r.clause} && d'.ctimes == d.ctimes[r.clause := r.times]
    requires Linked(d.litclauses, d'.litclauses, r.clause)
    ensures ReaddedPart(d0, done + {r}, d')
  {
    assert RetiredClauses(done + {r}) == RetiredClauses(done) + {r.clause};
    ReaddedStepCounts(d0.ctimes, done, d.ctimes, r, d'.ctimes);
    ReaddedStepLinks(d0.litclauses, RetiredClauses(done), d.litclauses, r.clause, d'.litclauses);
  }

  /** Re-adding one more removal record: the counts. */
  lemma ReaddedStepCounts(ct0: map<Clause, nat>, done: set<Removal>, ct: map<Clause, nat>, r: Removal, ct': map<Clause, nat>)
    requires ReaddedCounts(ct0, done, ct) && ct' == ct[r.clause := r.times]
    ensures ReaddedCounts(ct0, done + {r}, ct')
  {
    assert RetiredClauses(done + {r}) == RetiredClauses(done) + {r.clause};
  }

  /** Re-adding one more clause: the index. */
  lemma ReaddedStepLinks(lc0: map<Lit, set<Clause>>, back: set<Clause>, lc: map<Lit, set<Clause>>, clause: Clause, lc': map<Lit, set<Clause>>)
    requires ReaddedLinks(lc0, back, lc) && Linked(lc, lc', clause)
    ensures ReaddedLinks(lc0, back + {clause}, lc')
  {
    forall l
      ensures Holders(back + {clause}, l) == Holders(back, l) + (if l in clause then {clause} else {})
    {
    }
  }

  /** Re-adds the clauses of every removal record (dpll.py:300-311): each becomes
      live again with the count logged for it and is linked into the bucket of
      each of its literals, buckets being created as needed. */
  method ReaddRemovedClauses(cdata: ClausesData, cchanges: ClausesChanges)
    modifies cdata
    ensures ReaddedPart(old(cdata.View()), cchanges.rclauses, cdata.View())
  {
    ghost var d0 := cdata.View();
    var todo := cchanges.rclauses;
    ghost var done: set<Removal> := {};
    while todo != {}
      invariant todo <= cchanges.rclauses && done == cchanges.rclauses - todo
      invariant ReaddedPart(d0, done, cdata.View())
      decreases todo
    {
      var r := Pick(todo);
      ghost var d := cdata.View();
      cdata.clauses := cdata.clauses + {r.clause};
      cdata.ctimes := cdata.ctimes[r.clause := r.times];
      LinkClause(cdata, r.clause);
      ReaddedStep(d0, done, d, r, cdata.View());
      todo := todo - {r};
      done := done + {r};
    }
  }

  /** Re-adding the retired clauses restores the count of clause `c` that the
      modification records alone account for. */
  lemma ReaddedCountAt(before: Db, d0: Db, rs: set<Removal>, ms: seq<Modification>, d: Db, c: Clause)
    requires LogRecords(before, rs, ms) && LogCounts(before, d0, rs, ms) && LiveIsCounted(d0)
    requires ReaddedPart(d0, rs, d)
    ensures Times(d.ctimes, c) == if c in KilledClauses(ms) then 0 else Times(before.ctimes, c) + Produced(ms, c)
    ensures c in d.clauses <==> Times(d.ctimes, c) > 0
  {
    if c in RetiredClauses(rs) {
      assert Removal(c, d.ctimes[c]) in rs;
    }
  }

  /** Re-adding the retired clauses puts each back into its buckets. */
  lemma ReaddedIndex(d0: Db, rs: set<Removal>, m: Lit, stale: set<Clause>, d: Db)
    requires IndexedExcept(d0, m, stale) && ReaddedPart(d0, rs, d)
    ensures IndexedExcept(d, m, stale)
  {
    LinksIndexed(d0, RetiredClauses(rs), m, stale, d);
  }

  /** Linking the clauses `back` into an index keeps it in step with the live
      clauses once `back` is live again. */
  lemma LinksIndexed(d0: Db, back: set<Clause>, m: Lit, stale: set<Clause>, d: Db)
    requires IndexedExcept(d0, m, stale)
    requires d.clauses == d0.clauses + back && ReaddedLinks(d0.litclauses, back, d.litclauses)
    ensures IndexedExcept(d, m, stale)
  {
    forall l | l in d.litclauses
      ensures d.litclauses[l] != {}
    {
      if l in d0.litclauses {
        assert d0.litclauses[l] <= d.litclauses[l];
      }
    }
    forall l, c | l in d.litclauses && c in d.litclauses[l]
      ensures l in c && (c in d.clauses || (l == m && c in stale))
    {
      if c !in Holders(back, l) {
        assert c in d0.litclauses[l];
      }
    }
    forall l, c | c in d.clauses && l in c
      ensures l in d.litclauses && c in d.litclauses[l]
    {
      if c in back {
        assert c in Holders(back, l);
      } else {
        assert c in Bucket(d0.litclauses, l);
      }
    }
  }

  /** Re-adding the removals of a log leaves a log of modifications alone that
      still accounts for the state. */
  lemma ReaddedUndoable(before: Db, d0: Db, rs: set<Removal>, ms: seq<Modification>, m: Lit, stale: set<Clause>, d: Db)
    requires Undoable(before, d0, rs, ms, m, stale) && ReaddedPart(d0, rs, d)
    ensures Undoable(before, d, {}, ms, m, stale)
  {
    forall c
      ensures c in d.clauses <==> Times(d.ctimes, c) > 0
      ensures Times(d.ctimes, c) ==
        if c in RetiredClauses({}) || c in KilledClauses(ms) then 0 else Times(before.ctimes, c) + Produced(ms, c)
    {
      ReaddedCountAt(before, d0, rs, ms, d, c);
    }
    ReaddedIndex(d0, rs, m, stale, d);
    ReaddedRecords(before, rs, ms);
  }

  /** Dropping the removal records keeps the modification records well formed. */
  lemma ReaddedRecords(before: Db, rs: set<Removal>, ms: seq<Modification>)
    requires LogRecords(before, rs, ms)
    ensures LogRecords(before, {}, ms)
  {
  }

  /** The index after linking `clause` back into the bucket of each of its
      literals, taking `nclause` out of those buckets when `drop` holds. */
  ghost predicate Restored(lc0: map<Lit, set<Clause>>, lc: map<Lit, set<Clause>>, nclause: Clause, clause: Clause, drop: bool)
  {
    && (forall l :: l in lc <==> l in lc0 || l in clause)
    && (forall l | l in lc :: lc[l] ==
          if l !in clause then lc0[l]
          else if l in lc0 then lc0[l] - (if drop then {nclause} else {}) + {clause}
          else {clause})
  }

  /** One turn of the loop of dpll.py:321-344, undoing the record
      `(nclause, clause, t)`: `nclause` loses one count and, at 0, leaves the
      clause set and its buckets; `clause` is live again with count `t` and is
      linked back into its buckets. */
  method UndoModification(cdata: ClausesData, nclause: Clause, clause: Clause, t: nat)
    requires nclause in cdata.ctimes && cdata.ctimes[nclause] >= 1 && nclause != clause
    requires cdata.ctimes[nclause] == 1 ==> nclause in cdata.clauses
    modifies cdata
    ensures cdata.ctimes == old(cdata.ctimes)[nclause := old(cdata.ctimes)[nclause] - 1][clause := t]
    ensures cdata.clauses == (if old(cdata.ctimes)[nclause] == 1 then old(cdata.clauses) - {nclause} else old(cdata.clauses)) + {clause}
    ensures Restored(old(cdata.litclauses), cdata.litclauses, nclause, clause, old(cdata.ctimes)[nclause] == 1)
    ensures cdata.View() == UndoTurnDb(old(cdata.View()), Modification(nclause, clause, t))
  {
    ghost var lc0 := cdata.litclauses;
    cdata.ctimes := cdata.ctimes[nclause := cdata.ctimes[nclause] - 1];
    if cdata.ctimes[nclause] == 0 {
      cdata.clauses := cdata.clauses - {nclause};
    }
    cdata.clauses := cdata.clauses + {clause};
    cdata.ctimes := cdata.ctimes[clause := t];
    RestoreLinks(cdata, nclause, clause);
    RestoredUnique(lc0, cdata.litclauses, nclause, clause, cdata.ctimes[nclause] == 0);
  }

  /** The index `Restored` describes, computed. */
  function RestoreIndex(lc0: map<Lit, set<Clause>>, nclause: Clause, clause: Clause, drop: bool): (lc: map<Lit, set<Clause>>)
    ensures Restored(lc0, lc, nclause, clause, drop)
  {
    map l | l in lc0.Keys + clause ::
      if l !in clause then lc0[l]
      else if l in lc0 then lc0[l] - (if drop then {nclause} else {}) + {clause}
      else {clause}
  }

  /** `Restored` determines the index. */
  lemma RestoredUnique(lc0: map<Lit, set<Clause>>, lc: map<Lit, set<Clause>>, nclause: Clause, clause: Clause, drop: bool)
    requires Restored(lc0, lc, nclause, clause, drop)
    ensures lc == RestoreIndex(lc0, nclause, clause, drop)
  {
    var r := RestoreIndex(lc0, nclause, clause, drop);
    forall l
      ensures l in lc <==> l in r
      ensures l in lc ==> lc[l] == r[l]
    {
    }
  }

  /** The state after undoing the record `e` in state `d`, as computed by one
      turn of the loop of dpll.py:321-344. A count that is already 0 stays 0;
      a log that accounts for `d` never leads there. */
  function UndoTurnDb(d: Db, e: Modification): (d': Db)
    ensures e.nclause in d.ctimes && d.ctimes[e.nclause] >= 1 ==> UndoneTurn(d, e, d')
  {
    var k := Times(d.ctimes, e.nclause);
    Db((if k == 1 then d.clauses - {e.nclause} else d.clauses) + {e.clause},
       d.ctimes[e.nclause := if k == 0 then 0 else k - 1][e.clause := e.times],
       RestoreIndex(d.litclauses, e.nclause, e.clause, k == 1))
  }

  /** The state after undoing the records of `q`, newest first, starting in
      state `d`. */
  function UndoLog(d: Db, q: seq<Modification>): Db
    decreases |q|
  {
    if q == [] then d else UndoLog(UndoTurnDb(d, q[|q| - 1]), q[..|q| - 1])
  }

  /** The state after undoing the record `e` in state `d`. */
  ghost predicate UndoneTurn(d: Db, e: Modification, d': Db)
    requires e.nclause in d.ctimes && d.ctimes[e.nclause] >= 1
  {
    var last := d.ctimes[e.nclause] == 1;
    && d'.ctimes == d.ctimes[e.nclause := d.ctimes[e.nclause] - 1][e.clause := e.times]
    && d'.clauses == (if last then d.clauses - {e.nclause} else d.clauses) + {e.clause}
    && Restored(d.litclauses, d'.litclauses, e.nclause, e.clause, last)
  }

  /** The record `e` can be undone in state `d` without a missing key or a
      missing clause. */
  ghost predicate UndoReady(d: Db, e: Modification)
  {
    e.nclause in d.ctimes && d.ctimes[e.nclause] >= 1 && e.nclause in d.clauses && e.nclause != e.clause
  }

  /** Every record of `q` can be undone in turn, newest first, starting in `d`. */
  ghost predicate CanUndo(d: Db, q: seq<Modification>)
    decreases |q|
  {
    q == [] || (UndoReady(d, q[|q| - 1]) && CanUndo(UndoTurnDb(d, q[|q| - 1]), q[..|q| - 1]))
  }

  /** Dropping the last record of a well-formed log leaves a well-formed log. */
  lemma RecordsPrefix(before: Db, q: seq<Modification>)
    requires q != [] && LogRecords(before, {}, q)
    ensures LogRecords(before, {}, q[..|q| - 1])
  {
    DistinctPrefix(q);
    CountedPrefix(before, q);
  }

  /** A prefix of distinct records is distinct. */
  lemma DistinctPrefix(q: seq<Modification>)
    requires q != [] && DistinctRecords(q)
    ensures DistinctRecords(q[..|q| - 1])
  {
    var q' := q[..|q| - 1];
    forall i, j | 0 <= i < j < |q'|
      ensures q'[i].clause != q'[j].clause && q'[j].nclause != q'[i].clause
    {
      assert q'[i] == q[i] && q'[j] == q[j];
    }
  }

  /** A prefix of counted records is counted. */
  lemma CountedPrefix(before: Db, q: seq<Modification>)
    requires q != [] && RecordsCounted(before, q)
    ensures RecordsCounted(before, q[..|q| - 1])
  {
    var q' := q[..|q| - 1];
    forall j | 0 <= j < |q'|
      ensures q'[j].nclause < q'[j].clause && q'[j].nclause != {} && q'[j].times >= 1
      ensures q'[j].times == Times(before.ctimes, q'[j].clause) + Produced(q'[..j], q'[j].clause)
    {
      assert q'[j] == q[j] && q'[..j] == q[..j];
    }
  }

  /** The clause of an earlier record of a well-formed log is neither the
      clause nor the product of the last record. */
  lemma LastRecordFresh(q: seq<Modification>)
    requires q != [] && DistinctRecords(q)
    ensures q[|q| - 1].clause !in KilledClauses(q[..|q| - 1])
    ensures q[|q| - 1].nclause !in KilledClauses(q[..|q| - 1])
  {
    var q' := q[..|q| - 1];
    forall x | x in q'
      ensures x.clause != q[|q| - 1].clause && x.clause != q[|q| - 1].nclause
    {
      var i :| 0 <= i < |q'| && q'[i] == x;
      assert q[i] == x;
    }
  }

  /** Facts about the last record of a well-formed log: it replaced a clause the
      earlier records did not, it produced a clause no record replaced, and it
      holds the count its clause had after the earlier records. */
  lemma LastRecord(before: Db, q: seq<Modification>)
    requires q != [] && LogRecords(before, {}, q)
    ensures LogRecords(before, {}, q[..|q| - 1])
    ensures KilledClauses(q) == KilledClauses(q[..|q| - 1]) + {q[|q| - 1].clause}
    ensures q[|q| - 1].clause !in KilledClauses(q[..|q| - 1])
    ensures q[|q| - 1].nclause !in KilledClauses(q)
    ensures q[|q| - 1].nclause < q[|q| - 1].clause && q[|q| - 1].times >= 1
    ensures q[|q| - 1].times == Times(before.ctimes, q[|q| - 1].clause) + Produced(q[..|q| - 1], q[|q| - 1].clause)
  {
    RecordsPrefix(before, q);
    LastRecordKilled(q);
    LastRecordFresh(q);
    LastRecordCounted(before, q);
  }

  /** The clauses replaced by a log are those of its earlier records and that of
      its last one. */
  lemma LastRecordKilled(q: seq<Modification>)
    requires q != []
    ensures KilledClauses(q) == KilledClauses(q[..|q| - 1]) + {q[|q| - 1].clause}
  {
    assert q == q[..|q| - 1] + [q[|q| - 1]];
    KilledAppend(q[..|q| - 1], q[|q| - 1]);
  }

  /** The last record of a counted log shortens its clause and holds the count
      that clause had after the earlier records. */
  lemma LastRecordCounted(before: Db, q: seq<Modification>)
    requires q != [] && RecordsCounted(before, q)
    ensures q[|q| - 1].nclause < q[|q| - 1].clause && q[|q| - 1].times >= 1
    ensures q[|q| - 1].times == Times(before.ctimes, q[|q| - 1].clause) + Produced(q[..|q| - 1], q[|q| - 1].clause)
  {
  }

  /** The count of the product of the last record of a log that accounts for a
      state is at least 1, so undoing that record is possible. */
  lemma LastProductCounted(before: Db, d: Db, q: seq<Modification>)
    requires q != [] && LogRecords(before, {}, q) && LogCounts(before, d, {}, q) && LiveIsCounted(d)
    ensures q[|q| - 1].nclause in d.ctimes && d.ctimes[q[|q| - 1].nclause] >= 1
    ensures q[|q| - 1].nclause in d.clauses
    ensures q[|q| - 1].nclause != q[|q| - 1].clause
  {
    var q' := q[..|q| - 1];
    var e := q[|q| - 1];
    LastRecord(before, q);
    assert q[..|q| - 1] == q';
    assert Produced(q, e.nclause) == Produced(q', e.nclause) + 1;
  }

  /** Undoing the last record keeps the count of clause `c` accounted for by the
      shorter log. */
  lemma UndoStepCountAt(before: Db, d: Db, q: seq<Modification>, d': Db, c: Clause)
    requires q != [] && LogRecords(before, {}, q) && LogCounts(before, d, {}, q) && LiveIsCounted(d)
    requires q[|q| - 1].nclause in d.ctimes && d.ctimes[q[|q| - 1].nclause] >= 1
    requires UndoneTurn(d, q[|q| - 1], d')
    ensures Times(d'.ctimes, c) ==
      if c in KilledClauses(q[..|q| - 1]) then 0 else Times(before.ctimes, c) + Produced(q[..|q| - 1], c)
    ensures c in d'.clauses <==> Times(d'.ctimes, c) > 0
  {
    var q' := q[..|q| - 1];
    var e := q[|q| - 1];
    LastRecord(before, q);
    assert Produced(q, c) == Produced(q', c) + (if e.nclause == c then 1 else 0);
    LogCountsAt(before, d, {}, q, c);
    if c == e.clause {
    } else if c == e.nclause {
    } else {
      assert Times(d'.ctimes, c) == Times(d.ctimes, c);
    }
  }

  /** Undoing the last record keeps the counts accounted for by the shorter log. */
  lemma UndoStepCounts(before: Db, d: Db, q: seq<Modification>, d': Db)
    requires q != [] && LogRecords(before, {}, q) && LogCounts(before, d, {}, q) && LiveIsCounted(d)
    requires q[|q| - 1].nclause in d.ctimes && d.ctimes[q[|q| - 1].nclause] >= 1
    requires UndoneTurn(d, q[|q| - 1], d')
    ensures LogCounts(before, d', {}, q[..|q| - 1])
  {
    assert RetiredClauses({}) == {};
    forall c
      ensures Times(d'.ctimes, c) ==
        if c in RetiredClauses({}) || c in KilledClauses(q[..|q| - 1]) then 0
        else Times(before.ctimes, c) + Produced(q[..|q| - 1], c)
    {
      UndoStepCountAt(before, d, q, d', c);
    }
  }

  /** Undoing the last record keeps the live clauses exactly the counted ones. */
  lemma UndoStepLive(before: Db, d: Db, q: seq<Modification>, d': Db)
    requires q != [] && LogRecords(before, {}, q) && LogCounts(before, d, {}, q) && LiveIsCounted(d)
    requires q[|q| - 1].nclause in d.ctimes && d.ctimes[q[|q| - 1].nclause] >= 1
    requires UndoneTurn(d, q[|q| - 1], d')
    ensures LiveIsCounted(d')
  {
    forall c
      ensures c in d'.clauses <==> Times(d'.ctimes, c) > 0
    {
      UndoStepCountAt(before, d, q, d', c);
    }
  }

  /** Undoing a record `(nclause, clause, t)` whose `nclause` was cut from
      `clause` keeps the index in step with the live clauses: `clause` is no
      longer stale, and the other stale clauses stay where they were. */
  lemma UndoStepIndex(d: Db, e: Modification, d': Db, m: Lit, stale: set<Clause>)
    requires e.nclause < e.clause
    requires e.nclause in d.ctimes && d.ctimes[e.nclause] >= 1
    requires UndoneTurn(d, e, d')
    requires IndexedExcept(d, m, stale)
    ensures IndexedExcept(d', m, stale - {e.clause})
  {
    var lc, lc' := d.litclauses, d'.litclauses;
    var drop := d.ctimes[e.nclause] == 1;
    forall l, k | l in lc' && k in lc'[l]
      ensures l in k && (k in d'.clauses || (l == m && k in stale - {e.clause}))
    {
      if l !in e.clause {
        assert k in lc[l];
        assert k != e.nclause by { assert l !in e.nclause; }
      } else if k != e.clause {
        assert k in lc[l] && !(drop && k == e.nclause);
      }
    }
    forall l, k | k in d'.clauses && l in k
      ensures l in lc' && k in lc'[l]
    {
      if k != e.clause {
        assert k in d.clauses && !(drop && k == e.nclause);
      }
    }
  }

  /** Undoing the last record of a log leaves a state that the rest of the log
      accounts for. */
  lemma UndoStep(before: Db, d: Db, q: seq<Modification>, m: Lit, stale: set<Clause>, d': Db)
    requires q != [] && Undoable(before, d, {}, q, m, stale)
    requires q[|q| - 1].nclause in d.ctimes && d.ctimes[q[|q| - 1].nclause] >= 1
    requires UndoneTurn(d, q[|q| - 1], d')
    ensures Undoable(before, d', {}, q[..|q| - 1], m, stale - {q[|q| - 1].clause})
  {
    LastRecord(before, q);
    UndoStepCounts(before, d, q, d');
    UndoStepLive(before, d, q, d');
    UndoStepIndex(d, q[|q| - 1], d', m, stale);
  }

  /** Once the whole log is undone, the state is the one the log began in: the
      same live clauses, the same index and the same counts. */
  lemma LogUndone(before: Db, d: Db, m: Lit, stale: set<Clause>)
    requires Undoable(before, d, {}, [], m, stale)
    ensures d.clauses == before.clauses
    ensures d.litclauses == before.litclauses
    ensures SameTimes(d.ctimes, before.ctimes)
  {
    assert RetiredClauses({}) == {} && KilledClauses([]) == {};
    forall c
      ensures Times(d.ctimes, c) == Times(before.ctimes, c)
    {
      assert Produced([], c) == 0;
    }
    forall c
      ensures c in d.clauses <==> c in before.clauses
    {
      assert Times(d.ctimes, c) == Times(before.ctimes, c);
    }
    assert d.clauses == before.clauses;
    IndexUnique(d, before);
  }

  /** Two exact indexes of the same live clauses are equal. */
  lemma IndexUnique(d: Db, d': Db)
    requires d.clauses == d'.clauses
    requires IndexedExcept(d, 0, {}) && IndexedExcept(d', 0, {})
    ensures d.litclauses == d'.litclauses
  {
    forall l | l in d.litclauses
      ensures l in d'.litclauses
    {
      var k :| k in d.litclauses[l];
    }
    forall l | l in d'.litclauses
      ensures l in d.litclauses
    {
      var k :| k in d'.litclauses[l];
    }
    forall l | l in d.litclauses
      ensures d.litclauses[l] == d'.litclauses[l]
    {
      assert l in d'.litclauses;
      forall k
        ensures k in d.litclauses[l] <==> k in d.clauses && l in k
      {
      }
      forall k
        ensures k in d'.litclauses[l] <==> k in d.clauses && l in k
      {
      }
    }
  }

  /** A larger stale set only weakens the index invariant. */
  lemma StaleWiden(d: Db, m: Lit, stale: set<Clause>, stale': set<Clause>)
    requires IndexedExcept(d, m, stale) && stale <= stale'
    ensures IndexedExcept(d, m, stale')
  {
  }

  /** Undoing the last record of a log whose replaced clauses may all be stale
      leaves a state the rest of the log accounts for in the same way. */
  lemma UndoLastTurn(before: Db, d: Db, q: seq<Modification>, m: Lit)
    requires q != [] && Undoable(before, d, {}, q, m, KilledClauses(q))
    ensures Undoable(before, UndoTurnDb(d, q[|q| - 1]), {}, q[..|q| - 1], m, KilledClauses(q[..|q| - 1]))
  {
    LastProductCounted(before, d, q);
    LastRecord(before, q);
    UndoStep(before, d, q, m, KilledClauses(q), UndoTurnDb(d, q[|q| - 1]));
  }

  /** A log that accounts for state `d`, and whose replaced clauses may all be
      stale, can be undone record by record, and undoing it gives back the state
      the log began in. */
  lemma {:induction false} UndoLogRestores(before: Db, d: Db, q: seq<Modification>, m: Lit)
    requires Undoable(before, d, {}, q, m, KilledClauses(q))
    ensures CanUndo(d, q)
    ensures UndoLog(d, q).clauses == before.clauses
    ensures UndoLog(d, q).litclauses == before.litclauses
    ensures SameTimes(UndoLog(d, q).ctimes, before.ctimes)
    decreases |q|
  {
    if q == [] {
      LogUndone(before, d, m, KilledClauses(q));
    } else {
      LastProductCounted(before, d, q);
      UndoLastTurn(before, d, q, m);
      UndoLogRestores(before, UndoTurnDb(d, q[|q| - 1]), q[..|q| - 1], m);
    }
  }

  /** Undoes every modification record, newest first (dpll.py:315-344). */
  method UndoModifiedClauses(cdata: ClausesData, cchanges: ClausesChanges)
    requires CanUndo(cdata.View(), cchanges.mclauses)
    modifies cdata
    ensures cdata.View() == UndoLog(old(cdata.View()), cchanges.mclauses)
  {
    ghost var d0 := cdata.View();
    var ms := cchanges.mclauses;
    var i := |ms|;
    assert ms[..i] == ms;
    while i > 0
      invariant 0 <= i <= |ms|
      invariant CanUndo(cdata.View(), ms[..i]) && UndoLog(cdata.View(), ms[..i]) == UndoLog(d0, ms)
    {
      var e := ms[i - 1];
      assert ms[..i][i - 1] == e && ms[..i][..i - 1] == ms[..i - 1];
      UndoModification(cdata, e.nclause, e.clause, e.times);
      assert Modification(e.nclause, e.clause, e.times) == e;
      i := i - 1;
    }
  }

  /** Undoes a whole change log (dpll.py:294-296): the retired clauses come back
      first, then the modifications are undone newest first. Given a log that
      accounts for the current state, the state the log began in comes back. */
  method UndoClauseChanges(cdata: ClausesData, cchanges: ClausesChanges, ghost before: Db, ghost m: Lit, ghost stale: set<Clause>)
    requires Undoable(before, cdata.View(), cchanges.rclauses, cchanges.mclauses, m, stale)
    modifies cdata
    ensures cdata.clauses == before.clauses
    ensures cdata.litclauses == before.litclauses
    ensures SameTimes(cdata.ctimes, before.ctimes)
  {
    ghost var d0 := cdata.View();
    ReaddRemovedClauses(cdata, cchanges);
    ReaddedUndoable(before, d0, cchanges.rclauses, cchanges.mclauses, m, stale, cdata.View());
    StaleWiden(cdata.View(), m, stale, KilledClauses(cchanges.mclauses));
    UndoLogRestores(before, cdata.View(), cchanges.mclauses, m);
    UndoModifiedClauses(cdata, cchanges);
  }
}
