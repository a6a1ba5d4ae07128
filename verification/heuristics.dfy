/** The variable selection heuristics of heuristics.py: each scans the candidate
    variables in iteration order and keeps the first one with the best score. */
module Heuristics {
  import opened Cnf

  /** The two heuristics heuristics.py defines. */
  datatype Heuristic = MostOften | MostEquilibrated

  /** The size of a literal's bucket; a missing bucket counts as 0
      (the `KeyError` handlers of heuristics.py:36-44, 72-80). */
  function BucketSize(litclauses: map<Lit, set<Clause>>, l: Lit): nat
  {
    if l in litclauses then |litclauses[l]| else 0
  }

  /** The score a heuristic gives variable `v`: the number of clauses holding
      either literal (heuristics.py:34-44), or `pvlen*nvlen*1024 + pvlen + nvlen`
      (heuristics.py:70-82). */
  function Score(h: Heuristic, v: int, litclauses: map<Lit, set<Clause>>): nat
  {
    var p := BucketSize(litclauses, v);
    var n := BucketSize(litclauses, -v);
    match h
    case MostOften => p + n
    case MostEquilibrated => p * n * 1024 + p + n
  }

  /** Index `i` holds the first variable of `varRange` with the highest score. */
  predicate FirstBest(h: Heuristic, varRange: seq<int>, litclauses: map<Lit, set<Clause>>, i: int)
  {
    && 0 <= i < |varRange|
    && (forall j | 0 <= j < |varRange| :: Score(h, varRange[j], litclauses) <= Score(h, varRange[i], litclauses))
    && (forall j | 0 <= j < i :: Score(h, varRange[j], litclauses) < Score(h, varRange[i], litclauses))
  }

  /** mostOftenVariable (heuristics.py:18-50) and mostEqulibratedVariable
      (heuristics.py:55-88): the arg-max loop, where `best` starts at -1 so the
      first variable is always taken, and a later one replaces it only with a
      strictly higher score. An empty range gives 0. */
  method SelectVariable(h: Heuristic, varRange: seq<int>, litclauses: map<Lit, set<Clause>>) returns (v: int)
    ensures |varRange| == 0 ==> v == 0
    ensures |varRange| > 0 ==> exists i :: FirstBest(h, varRange, litclauses, i) && varRange[i] == v
  {
    var best := -1;
    v := 0;
    ghost var at := -1;
    for k := 0 to |varRange|
      invariant k == 0 <==> at == -1
      invariant k > 0 ==> FirstBest(h, varRange[..k], litclauses, at) && v == varRange[at] && best == Score(h, v, litclauses)
      invariant k == 0 ==> v == 0 && best == -1
    {
      var x := varRange[k];
      var pvlen := if x in litclauses then |litclauses[x]| else 0;
      var nvlen := if -x in litclauses then |litclauses[-x]| else 0;
      var value := match h
        case MostOften => pvlen + nvlen
        case MostEquilibrated => pvlen * nvlen * 1024 + pvlen + nvlen;
      assert value == Score(h, x, litclauses);
      if value > best {
        best := value;
        v := x;
        at := k;
      }
      assert varRange[..k + 1][..k] == varRange[..k];
    }
    assert varRange[..|varRange|] == varRange;
  }

  /** Both scores are positive exactly for a variable with some bucket, so when
      some candidate occurs in the index the heuristic picks one that occurs. */
  lemma BestOccurs(h: Heuristic, varRange: seq<int>, litclauses: map<Lit, set<Clause>>, i: int)
    requires FirstBest(h, varRange, litclauses, i)
    requires forall l | l in litclauses :: litclauses[l] != {}
    requires exists j | 0 <= j < |varRange| :: varRange[j] in litclauses || -varRange[j] in litclauses
    ensures varRange[i] in litclauses || -varRange[i] in litclauses
  {
    var j :| 0 <= j < |varRange| && (varRange[j] in litclauses || -varRange[j] in litclauses);
    ScorePositive(h, varRange[j], litclauses);
    ScorePositive(h, varRange[i], litclauses);
  }

  /** A score is positive exactly when one of the variable's literals has a
      nonempty bucket. */
  lemma ScorePositive(h: Heuristic, v: int, litclauses: map<Lit, set<Clause>>)
    requires forall l | l in litclauses :: litclauses[l] != {}
    ensures Score(h, v, litclauses) > 0 <==> v in litclauses || -v in litclauses
  {
    if v in litclauses {
      assert |litclauses[v]| > 0;
    }
    if -v in litclauses {
      assert |litclauses[-v]| > 0;
    }
  }
}
