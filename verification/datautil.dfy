/** Reading a DIMACS CNF formula and building the clause indexes (datautil.py).

    The parser works on lines already split into tokens: a token that reads as an
    integer is a `Num`, any other a `Word`. Opening and reading the file is not
    part of this model. */
module DataUtil {
  import opened Cnf
  import opened Wrappers
  import DpllDatabase

  datatype Token = Word(text: string) | Num(value: int)

  type Line = seq<Token>

  /** The ways `parseCNF` fails: the three syntax errors it raises, and
      `Malformed` for the errors Python raises on its behalf (a missing header
      field, a token that is not an integer, a token after a clause's 0). */
  datatype ParseError = BadFormat(format: Token) | OutOfRange(lit: int, numVars: int) | NoTrailingZero | Malformed

  /** What `parseCNF` returns: the variable count of the header and the clauses. */
  datatype Formula = Formula(numVars: int, clauses: set<Clause>)

  /** Blank lines and comment lines are skipped (datautil.py:26-27). */
  predicate IsSkipped(line: Line)
  {
    |line| == 0 || line[0] == Word("c")
  }

  predicate IsHeader(line: Line)
  {
    |line| > 0 && line[0] == Word("p")
  }

  predicate AllNums(line: Line)
  {
    forall i | 0 <= i < |line| :: line[i].Num?
  }

  /** A line that is read as a clause: neither skipped nor a header, and every
      token an integer. */
  predicate IsClauseLine(line: Line)
  {
    !IsSkipped(line) && !IsHeader(line) && AllNums(line)
  }

  /** The integers of a line whose tokens are all integers. */
  function Values(line: Line): seq<int>
    requires AllNums(line)
  {
    seq(|line|, i requires 0 <= i < |line| => line[i].value)
  }

  /** The reading of the integers of a clause line (datautil.py:38-59). `pending`
      is the clause being built, `None` once its 0 has been read. */
  function ScanValues(vals: seq<int>, numVars: int, pending: Option<set<Lit>>, clauses: set<Clause>): Result<set<Clause>, ParseError>
    decreases |vals|
  {
    if vals == [] then
      if pending.Some? && pending.value != {} then Err(NoTrailingZero) else Ok(clauses)
    else if pending.None? then Err(Malformed)
    else if vals[0] == 0 then ScanValues(vals[1..], numVars, None, clauses + {pending.value})
    else if vals[0] < -numVars || vals[0] > numVars then Err(OutOfRange(vals[0], numVars))
    else ScanValues(vals[1..], numVars, Some(pending.value + {vals[0]}), clauses)
  }

  /** The effect of one line on what has been read so far (datautil.py:23-59). */
  function ParseLine(line: Line, f: Formula): Result<Formula, ParseError>
  {
    if IsSkipped(line) then Ok(f)
    else if IsHeader(line) then
      if |line| < 2 then Err(Malformed)
      else if line[1] != Word("cnf") then Err(BadFormat(line[1]))
      else if |line| < 3 || !line[2].Num? then Err(Malformed)
      else Ok(Formula(line[2].value, f.clauses))
    else if !AllNums(line) then Err(Malformed)
    else
      match ScanValues(Values(line), f.numVars, Some({}), f.clauses)
      case Ok(cs) => Ok(Formula(f.numVars, cs))
      case Err(e) => Err(e)
  }

  /** The lines read in order, stopping at the first error. */
  function ParseLines(lines: seq<Line>, f: Formula): Result<Formula, ParseError>
    decreases |lines|
  {
    if lines == [] then Ok(f)
    else
      match ParseLine(lines[0], f)
      case Ok(f') => ParseLines(lines[1..], f')
      case Err(e) => Err(e)
  }

  /** A clause line the parser accepts: it ends in its only 0, and every literal
      before it lies in [-numVars, numVars]. */
  predicate WellFormedClause(vals: seq<int>, numVars: int)
  {
    && |vals| > 0 && vals[|vals| - 1] == 0
    && forall i | 0 <= i < |vals| - 1 :: vals[i] != 0 && -numVars <= vals[i] <= numVars
  }

  /** The literals before the last token. */
  function LitsOf(vals: seq<int>): set<Lit>
  {
    set i | 0 <= i < |vals| - 1 :: vals[i]
  }

  /** A line the parser accepts, given the variable count in force. */
  predicate LineAccepted(line: Line, numVars: int)
  {
    if IsSkipped(line) then true
    else if IsHeader(line) then |line| >= 3 && line[1] == Word("cnf") && line[2].Num?
    else AllNums(line) && WellFormedClause(Values(line), numVars)
  }

  /** The variable count in force after `lines`, starting from `numVars`: the
      value of the most recent header. */
  function NumVarsAfter(lines: seq<Line>, numVars: int): int
    decreases |lines|
  {
    if lines == [] then numVars
    else
      var line := lines[0];
      NumVarsAfter(lines[1..], if IsHeader(line) && |line| >= 3 && line[2].Num? then line[2].value else numVars)
  }

  /** The clauses the clause lines of `lines` spell out. */
  function ClausesOf(lines: seq<Line>): set<Clause>
    decreases |lines|
  {
    if lines == [] then {}
    else (if IsClauseLine(lines[0]) then {LitsOf(Values(lines[0]))} else {}) + ClausesOf(lines[1..])
  }

  /** A clause line is accepted exactly when it is well formed, and then it adds
      the set of its literals: duplicates collapse, and a line holding only 0
      adds the empty clause. */
  lemma {:induction false} ScanAccepts(vals: seq<int>, numVars: int, acc: set<Lit>, clauses: set<Clause>)
    requires |vals| > 0
    ensures ScanValues(vals, numVars, Some(acc), clauses).Ok? <==> WellFormedClause(vals, numVars)
    ensures WellFormedClause(vals, numVars) ==>
      ScanValues(vals, numVars, Some(acc), clauses) == Ok(clauses + {acc + LitsOf(vals)})
    decreases |vals|
  {
    if vals[0] == 0 {
      if |vals| > 1 {
        assert ScanValues(vals[1..], numVars, None, clauses + {acc}) == Err(Malformed);
        assert !WellFormedClause(vals, numVars) by {
          assert vals[0] == 0 && 0 < |vals| - 1;
        }
      } else {
        assert vals[1..] == [];
        assert LitsOf(vals) == {};
        assert acc + LitsOf(vals) == acc;
      }
    } else if vals[0] < -numVars || vals[0] > numVars {
    } else if |vals| == 1 {
      assert !WellFormedClause(vals, numVars);
    } else {
      var rest := vals[1..];
      ScanAccepts(rest, numVars, acc + {vals[0]}, clauses);
      assert WellFormedClause(vals, numVars) <==> WellFormedClause(rest, numVars) by {
        if WellFormedClause(rest, numVars) {
          forall i | 0 <= i < |vals| - 1
            ensures vals[i] != 0 && -numVars <= vals[i] <= numVars
          {
            if i > 0 {
              assert vals[i] == rest[i - 1];
            }
          }
        }
        if WellFormedClause(vals, numVars) {
          forall i | 0 <= i < |rest| - 1
            ensures rest[i] != 0 && -numVars <= rest[i] <= numVars
          {
            assert rest[i] == vals[i + 1];
          }
        }
      }
      if WellFormedClause(vals, numVars) {
        assert acc + LitsOf(vals) == acc + {vals[0]} + LitsOf(rest) by {
          forall x | x in LitsOf(vals)
            ensures x == vals[0] || x in LitsOf(rest)
          {
            var i :| 0 <= i < |vals| - 1 && vals[i] == x;
            if i > 0 {
              assert rest[i - 1] == x;
            }
          }
          forall x | x in LitsOf(rest)
            ensures x in LitsOf(vals)
          {
            var i :| 0 <= i < |rest| - 1 && rest[i] == x;
            assert vals[i + 1] == x;
          }
        }
      }
    }
  }

  /** The rejections of a clause line, by the first offending token: a literal
      out of range before any 0 is reported as such (datautil.py:53-56), a line
      without any 0 whose literals are in range lacks its trailing 0
      (datautil.py:58-59), and a token after the 0 is malformed. */
  lemma {:induction false} ScanRejects(vals: seq<int>, numVars: int, acc: set<Lit>, clauses: set<Clause>, j: nat)
    requires j < |vals|
    requires forall i | 0 <= i < j :: vals[i] != 0 && -numVars <= vals[i] <= numVars
    ensures vals[j] != 0 && (vals[j] < -numVars || vals[j] > numVars) ==>
      ScanValues(vals, numVars, Some(acc), clauses) == Err(OutOfRange(vals[j], numVars))
    ensures vals[j] == 0 && j < |vals| - 1 ==>
      ScanValues(vals, numVars, Some(acc), clauses) == Err(Malformed)
    ensures j == |vals| - 1 && vals[j] != 0 && -numVars <= vals[j] <= numVars ==>
      ScanValues(vals, numVars, Some(acc), clauses) == Err(NoTrailingZero)
    decreases j
  {
    if j > 0 {
      var rest := vals[1..];
      forall i | 0 <= i < j - 1
        ensures rest[i] != 0 && -numVars <= rest[i] <= numVars
      {
        assert rest[i] == vals[i + 1];
      }
      ScanRejects(rest, numVars, acc + {vals[0]}, clauses, j - 1);
    } else if vals[0] == 0 && |vals| > 1 {
      assert ScanValues(vals[1..], numVars, None, clauses + {acc}) == Err(Malformed);
    }
  }

  /** The lines are accepted exactly when each line is accepted under the
      variable count of the most recent header before it; then the result holds
      the last header's count and the clauses of all clause lines. */
  lemma {:induction false} ParseLinesMeaning(lines: seq<Line>, f: Formula)
    ensures ParseLines(lines, f).Ok? <==>
      forall i | 0 <= i < |lines| :: LineAccepted(lines[i], NumVarsAfter(lines[..i], f.numVars))
    ensures ParseLines(lines, f).Ok? ==>
      ParseLines(lines, f) == Ok(Formula(NumVarsAfter(lines, f.numVars), f.clauses + ClausesOf(lines)))
    decreases |lines|
  {
    if lines != [] {
      var line := lines[0];
      var nv := if IsHeader(line) && |line| >= 3 && line[2].Num? then line[2].value else f.numVars;
      ParseLineMeaning(line, f);
      var rest := lines[1..];
      assert forall i | 1 <= i <= |lines| :: NumVarsAfter(lines[..i], f.numVars) == NumVarsAfter(rest[..i - 1], nv) by {
        forall i | 1 <= i <= |lines|
          ensures NumVarsAfter(lines[..i], f.numVars) == NumVarsAfter(rest[..i - 1], nv)
        {
          assert lines[..i][0] == line && lines[..i][1..] == rest[..i - 1];
        }
      }
      assert lines[..0] == [];
      match ParseLine(line, f)
      case Ok(f') =>
        ParseLinesMeaning(rest, f');
        assert f'.numVars == nv;
        assert f'.clauses == f.clauses + (if IsClauseLine(line) then {LitsOf(Values(line))} else {});
        assert ClausesOf(lines) == (if IsClauseLine(line) then {LitsOf(Values(line))} else {}) + ClausesOf(rest);
        assert NumVarsAfter(lines, f.numVars) == NumVarsAfter(rest, nv);
        assert ParseLines(lines, f) == ParseLines(rest, f');
        assert f'.clauses + ClausesOf(rest) == f.clauses + ClausesOf(lines);
        assert (forall i | 0 <= i < |lines| :: LineAccepted(lines[i], NumVarsAfter(lines[..i], f.numVars))) <==>
          (LineAccepted(line, f.numVars) && forall i | 0 <= i < |rest| :: LineAccepted(rest[i], NumVarsAfter(rest[..i], nv))) by {
          forall i | 0 <= i < |rest|
            ensures LineAccepted(rest[i], NumVarsAfter(rest[..i], nv)) == LineAccepted(lines[i + 1], NumVarsAfter(lines[..i + 1], f.numVars))
          {
          }
        }
      case Err(_) =>
    } else {
      assert f.clauses + ClausesOf(lines) == f.clauses;
    }
  }

  /** One line: it is accepted exactly when `LineAccepted` holds, and then it sets
      the variable count (a header) or adds its clause (a clause line). */
  lemma ParseLineMeaning(line: Line, f: Formula)
    ensures ParseLine(line, f).Ok? <==> LineAccepted(line, f.numVars)
    ensures ParseLine(line, f).Ok? ==>
      ParseLine(line, f) == Ok(Formula(
        if IsHeader(line) && |line| >= 3 && line[2].Num? then line[2].value else f.numVars,
        f.clauses + (if IsClauseLine(line) then {LitsOf(Values(line))} else {})))
  {
    if !IsSkipped(line) && !IsHeader(line) && AllNums(line) {
      ScanAccepts(Values(line), f.numVars, {}, f.clauses);
      assert {} + LitsOf(Values(line)) == LitsOf(Values(line));
    } else {
      assert !IsClauseLine(line);
      assert f.clauses + {} == f.clauses;
    }
  }

  /** parseCNF (datautil.py:7-66) over the lines of the file: the line loop and
      the token loop, with the clause being built and the clause set updated as
      the tokens are read. */
  method ParseCnf(lines: seq<Line>) returns (r: Result<Formula, ParseError>)
    ensures r == ParseLines(lines, Formula(0, {}))
  {
    var numVars := 0;
    var clauses: set<Clause> := {};
    var n := 0;
    while n < |lines|
      invariant n <= |lines|
      invariant ParseLines(lines, Formula(0, {})) == ParseLines(lines[n..], Formula(numVars, clauses))
    {
      var line := lines[n];
      assert lines[n..][0] == line && lines[n..][1..] == lines[n + 1..];
      if |line| == 0 || line[0] == Word("c") {
      } else if line[0] == Word("p") {
        if |line| < 2 {
          return Err(Malformed);
        }
        if line[1] != Word("cnf") {
          return Err(BadFormat(line[1]));
        }
        if |line| < 3 || !line[2].Num? {
          return Err(Malformed);
        }
        numVars := line[2].value;
      } else {
        if exists i | 0 <= i < |line| :: !line[i].Num? {
          return Err(Malformed);
        }
        var res := ReadClauseLine(Values(line), numVars, clauses);
        if res.Err? {
          return Err(res.error);
        }
        clauses := res.value;
      }
      n := n + 1;
    }
    r := Ok(Formula(numVars, clauses));
  }

  /** The token loop of one clause line (datautil.py:38-59). */
  method ReadClauseLine(vals: seq<int>, numVars: int, clauses0: set<Clause>) returns (r: Result<set<Clause>, ParseError>)
    ensures r == ScanValues(vals, numVars, Some({}), clauses0)
  {
    var clauses := clauses0;
    var clause: Option<set<Lit>> := Some({});
    var k := 0;
    while k < |vals|
      invariant k <= |vals|
      invariant ScanValues(vals, numVars, Some({}), clauses0) == ScanValues(vals[k..], numVars, clause, clauses)
    {
      var lit := vals[k];
      assert vals[k..][0] == lit && vals[k..][1..] == vals[k + 1..];
      if clause.None? {
        return Err(Malformed);
      }
      if lit == 0 {
        clauses := clauses + {clause.value};
        clause := None;
      } else {
        if lit < -numVars || lit > numVars {
          return Err(OutOfRange(lit, numVars));
        }
        clause := Some(clause.value + {lit});
      }
      k := k + 1;
    }
    if clause.Some? && clause.value != {} {
      return Err(NoTrailingZero);
    }
    r := Ok(clauses);
  }

  /** Some literal of `clause` has variable `v`. */
  predicate HasVar(clause: Clause, v: int)
  {
    exists l | l in clause :: Abs(l) == v
  }

  /** classifyClausesByVariable (datautil.py:70-89): entry `v` of the list holds
      the clauses with a literal of variable `v`. A literal beyond `numVars`
      indexes past the end of the list, where the source raises IndexError;
      that is the `None` result. */
  method ClassifyClausesByVariable(numVars: int, clauses: set<Clause>) returns (r: Option<seq<set<Clause>>>)
    ensures r.None? <==> exists c, l | c in clauses && l in c :: Abs(l) > numVars
    ensures r.Some? ==> |r.value| == if numVars + 1 > 0 then numVars + 1 else 0
    ensures r.Some? ==> forall v | 0 <= v < |r.value| :: forall c :: c in r.value[v] <==> c in clauses && HasVar(c, v)
  {
    var n := if numVars + 1 > 0 then numVars + 1 else 0;
    var litclauses := seq(n, _ => {});
    var todo := clauses;
    while todo != {}
      invariant todo <= clauses && |litclauses| == n
      invariant forall v | 0 <= v < n :: forall c :: c in litclauses[v] <==> c in clauses - todo && HasVar(c, v)
      invariant forall c, l | c in clauses - todo && l in c :: Abs(l) <= numVars
      decreases todo
    {
      var clause := Pick(todo);
      todo := todo - {clause};
      var added := AddByVariable(litclauses, clause);
      if added.None? {
        return None;
      }
      litclauses := added.value;
    }
    r := Some(litclauses);
  }

  /** The inner loop of datautil.py:85-87: adds `clause` to the entry of the
      variable of each of its literals; `None` when one of them has no entry. */
  method AddByVariable(litclauses0: seq<set<Clause>>, clause: Clause) returns (r: Option<seq<set<Clause>>>)
    ensures r.None? <==> exists l | l in clause :: Abs(l) >= |litclauses0|
    ensures r.Some? ==> |r.value| == |litclauses0|
    ensures r.Some? ==> forall v | 0 <= v < |r.value| ::
      r.value[v] == litclauses0[v] + (if HasVar(clause, v) then {clause} else {})
  {
    var litclauses := litclauses0;
    var todo := clause;
    while todo != {}
      invariant todo <= clause && |litclauses| == |litclauses0|
      invariant forall l | l in clause - todo :: Abs(l) < |litclauses0|
      invariant forall v | 0 <= v < |litclauses| ::
        litclauses[v] == litclauses0[v] + (if HasVar(clause - todo, v) then {clause} else {})
      decreases todo
    {
      var l := Pick(todo);
      todo := todo - {l};
      var alit := Abs(l);
      if alit >= |litclauses| {
        return None;
      }
      litclauses := litclauses[alit := litclauses[alit] + {clause}];
      forall v | 0 <= v < |litclauses|
        ensures HasVar(clause - todo, v) <==> HasVar(clause - (todo + {l}), v) || v == alit
      {
        if HasVar(clause - todo, v) && v != alit {
          var k :| k in clause - todo && Abs(k) == v;
          assert k in clause - (todo + {l});
        }
      }
    }
    assert clause - todo == clause;
    r := Some(litclauses);
  }

  /** The literals occurring in some clause of `clauses`. */
  predicate Occurs(l: Lit, clauses: set<Clause>)
  {
    exists c | c in clauses :: l in c
  }

  /** classifyClausesByLiteral (datautil.py:93-119): the bucket of `l` holds
      exactly the clauses containing `l`, and only occurring literals have a
      bucket, so no bucket is empty. */
  method ClassifyClausesByLiteral(clauses: set<Clause>) returns (litclauses: map<Lit, set<Clause>>)
    ensures forall l :: l in litclauses <==> Occurs(l, clauses)
    ensures forall l | l in litclauses :: forall c :: c in litclauses[l] <==> c in clauses && l in c
    ensures forall l | l in litclauses :: litclauses[l] != {}
  {
    litclauses := map[];
    var todo := clauses;
    while todo != {}
      invariant todo <= clauses
      invariant forall l :: l in litclauses <==> Occurs(l, clauses - todo)
      invariant forall l | l in litclauses :: forall c :: c in litclauses[l] <==> c in clauses - todo && l in c
      decreases todo
    {
      var clause := Pick(todo);
      ghost var done := clauses - todo;
      todo := todo - {clause};
      litclauses := AddByLiteral(litclauses, clause);
      forall l
        ensures Occurs(l, clauses - todo) <==> Occurs(l, done) || l in clause
      {
        if Occurs(l, clauses - todo) && l !in clause {
          var c :| c in clauses - todo && l in c;
          assert c in done;
        }
        if l in clause {
          assert clause in clauses - todo;
        }
      }
    }
    assert clauses - todo == clauses;
    forall l | l in litclauses
      ensures litclauses[l] != {}
    {
      var c :| c in clauses && l in c;
      assert c in litclauses[l];
    }
  }

  /** The inner loop of datautil.py:113-117: adds `clause` to the bucket of each
      of its literals, creating the buckets that are missing. */
  method AddByLiteral(litclauses0: map<Lit, set<Clause>>, clause: Clause) returns (litclauses: map<Lit, set<Clause>>)
    ensures forall l :: l in litclauses <==> l in litclauses0 || l in clause
    ensures forall l | l in litclauses ::
      litclauses[l] == (if l in litclauses0 then litclauses0[l] else {}) + (if l in clause then {clause} else {})
  {
    litclauses := litclauses0;
    var todo := clause;
    while todo != {}
      invariant todo <= clause
      invariant forall l :: l in litclauses <==> l in litclauses0 || l in clause - todo
      invariant forall l | l in litclauses ::
        litclauses[l] == (if l in litclauses0 then litclauses0[l] else {}) + (if l in clause - todo then {clause} else {})
      decreases todo
    {
      var l := Pick(todo);
      todo := todo - {l};
      if l !in litclauses {
        litclauses := litclauses[l := {}];
      }
      litclauses := litclauses[l := litclauses[l] + {clause}];
    }
    assert clause - todo == clause;
  }

  /** isPureLiteral (datautil.py:123-132). */
  predicate IsPureLiteral(lit: Lit, litclauses: map<Lit, set<Clause>>)
  {
    lit in litclauses && !(-lit in litclauses)
  }

  /** Over an index that agrees with the live clauses, a literal is pure exactly
      when it occurs in some live clause and its negation occurs in none. */
  lemma PureLiteralMeaning(d: DpllDatabase.Db, lit: Lit)
    requires DpllDatabase.IndexedExcept(d, 0, {})
    ensures IsPureLiteral(lit, d.litclauses) <==> Occurs(lit, d.clauses) && !Occurs(-lit, d.clauses)
  {
    if lit in d.litclauses {
      var c :| c in d.litclauses[lit];
      assert c in d.clauses && lit in c;
    }
    if -lit in d.litclauses {
      var c :| c in d.litclauses[-lit];
      assert c in d.clauses && -lit in c;
    }
  }

  /** The database the solver starts from (dpll.py:34-36): the input clauses,
      each counted once, indexed by classifyClausesByLiteral. Without an empty
      input clause it satisfies the database invariant. */
  lemma InitialDbConsistent(clauses: set<Clause>, ctimes: map<Clause, nat>, litclauses: map<Lit, set<Clause>>)
    requires {} !in clauses
    requires forall c :: c in ctimes <==> c in clauses
    requires forall c | c in ctimes :: ctimes[c] == 1
    requires forall l :: l in litclauses <==> Occurs(l, clauses)
    requires forall l | l in litclauses :: forall c :: c in litclauses[l] <==> c in clauses && l in c
    requires forall l | l in litclauses :: litclauses[l] != {}
    ensures DpllDatabase.Consistent(DpllDatabase.Db(clauses, ctimes, litclauses))
  {
    var d := DpllDatabase.Db(clauses, ctimes, litclauses);
    forall l, c | c in d.clauses && l in c
      ensures l in d.litclauses && c in d.litclauses[l]
    {
      assert Occurs(l, clauses);
    }
  }
}
