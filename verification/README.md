# fanSATstic DPLL core in Dafny

This project models the core of fanSATstic, a small SAT solver. Its centre is
the DPLL search of `dpll.py`, which works on a mutable clause database:

- the live clause set;
- a count per clause (`ctimes`);
- a literal index (`litclauses`), mapping each literal to the live clauses that hold it.

Two reversible edits change the database, and each writes a change log:

- retiring the clauses a true literal satisfies;
- shortening the clauses that hold a false literal.

Replaying the log undoes them. Unit propagation, pure-literal elimination and
the branch/backtrack recursion are written in terms of these edits.

Around the search sit:

- the DIMACS reader and the index builders (`datautil.py`);
- satisfaction predicates and counters (`satutil.py`);
- the two arg-max branching heuristics (`heuristics.py`);
- the replay ring buffer of the learning agent (`rl_agent.py`);
- the run statistics and the output formatters (`fanSATstic.py`).

Modules: `SatUtil`, `DataUtil`, `Heuristics`, `RlAgent` and `FanSATstic` follow one source file each; `dpll.py` is split into `DpllDatabase` and `Dpll`; `Cnf`, `Wrappers` and `Decimal` are shared definitions with no source file of their own.

- `Cnf`: literals (`int`) and clauses (`set<int>`).
- `Wrappers`: `Option`, `Result`, and `Pick`, which chooses any element of a set and so stands for Python's unspecified iteration order.
- `SatUtil`: satisfaction predicates and counters, and tautology removal.
- `DataUtil`: the DIMACS grammar over tokenised lines, and the index builders.
- `Heuristics`: the most-often and most-equilibrated heuristics.
- `DpllDatabase`: the classes `ClausesData` and `ClausesChanges`, the two edits, and the undo.
- `Dpll`: the search.
- `RlAgent`: the class `ReplayBuf`.
- `FanSATstic`: the class `RunStats` and the result formatters.
- `Decimal`: rendering integers as decimal text, and reading them back.

The central guarantees proved:

- **Database invariant.** Every complete edit and every undo keeps the database consistent (`DpllDatabase.Consistent`):
  - a clause is live exactly when its count is positive;
  - a clause sits in the bucket of a literal exactly when it is live and holds the literal;
  - no bucket is empty and no clause is empty.

  A shortening cut short by a conflict returns before it deletes the literal's bucket (dpll.py:263-266), so clauses it already shortened stay in that bucket though no longer live. That state is not consistent, but the log can still undo it (`DpllDatabase.ShrunkUndoable`).
- **Undo restores the database.** Replaying the log of any sequence of edits, including one cut short by a conflict, restores:
  - the clause set, exactly;
  - the literal index, exactly;
  - every clause's count, up to entries left at 0 (`DpllDatabase.UndoClauseChanges`).
- **Soundness and completeness of the search.**
  - A satisfiable answer comes with an interpretation that satisfies every input clause.
  - An unsatisfiable answer means that no assignment satisfies the formula (`Dpll.Solve`).
  - Every failing branch leaves the variables and the database as it found them.

## Model

| member | source | states |
|---|---|---|
| Dpll.Solve | dpll.py:18-43 | with no empty clause and every literal within 1..n: a satisfiable result holds n+1 entries (index 0 unused) that satisfy every input clause; an unsatisfiable result has an empty core and the formula has no model |
| Dpll.GetVarsAndFirstIntp | dpll.py:348-359 | the free variables are exactly those in 1..n with a bucket for either literal; they start unset, every other variable gets the coin's value, and index 0 is an unset placeholder |
| Dpll.InputVarsFree | dpll.py:348-359 | every variable of an in-range input has a bucket, so it is among the variables the search assigns |
| Dpll.UnsatisfiableHasNoModel | dpll.py:20-27 | no interpretation satisfies a formula without a model |
| Dpll.Search | dpll.py:48-106 | true: the clause set is empty and the interpretation satisfies every input clause; false: the live clauses had no model, and the clause set, index, counts and free variables are as on entry; the interpretation changes only at free variables |
| Dpll.Simplified | dpll.py:78-106 | after propagation: pure-literal elimination then the split; true means the clause set is empty and the interpretation satisfies every input clause; on failure the formula was unsatisfiable and the step's edits are undone, with every variable it assigned free again |
| Dpll.Split | dpll.py:89-99 | true: the clause set is empty and the interpretation satisfies every input clause; false: the formula had no model, the database is restored, and the branch variable has joined the used set |
| Dpll.BranchVariable | dpll.py:89-93 | the heuristic's choice is the first variable of highest score in some listing of the free variables, and both of its literals have buckets |
| Dpll.DpllBranch | dpll.py:111-147 | tries the variable true, then false: when the formula with it true is satisfiable the result is true with the variable set to true; true leaves the clause set empty, the variable set, and every input clause satisfied; false means neither value leaves a satisfiable formula, and the database and free variables are as on entry |
| Dpll.TryValue | dpll.py:117-140 | one branch value: true means the clause set is empty, the variable holds the value that makes the literal true, and the interpretation satisfies every input clause; false means the formula with that literal true has no model, and the database and free variables are as on entry; the interpretation changes only at the free variables and this one |
| Dpll.Descend | dpll.py:123-142 | the recursive search of a branch: true means the clause set is empty and every input clause is satisfied; false means the formula it started from has no model, and the branch's log is undone back to the state before the branch |
| Dpll.Backtrack | dpll.py:72-74 | the variables assigned in the step are free again, and the database is back to the logged start, with equal counts and a consistent index |
| Dpll.UnitPropagation | dpll.py:151-186 | a conflict means the formula it started from is unsatisfiable, and the log stays undoable; otherwise no unit clause is left, no model was lost, and each assigned variable moved from the free set to the used set |
| Dpll.PropagateUnit | dpll.py:164-180 | one unit literal: a conflict exactly when its negation is a unit clause, and then the formula had no model, the variables and interpretation are unchanged and the log can undo the edits made; otherwise the clauses are the formula with the literal true, and its variable is used and set to the literal's sign |
| Dpll.SetUnitTrue | dpll.py:166-172 | conflict exactly when the negated unit is a unit clause; otherwise the clause set is the formula with the literal true |
| Dpll.RetireBucket | dpll.py:231-253 | retiring a literal's bucket removes exactly the clauses holding it, with the log still accounting for the state |
| Dpll.ShortenWithout | dpll.py:170-172 | conflict exactly when the literal is itself a unit clause; otherwise every clause loses that literal |
| Dpll.UnitLiterals | dpll.py:161 | the unit literals collected are exactly the literals of the unit clauses, each listed once |
| Dpll.PureLiteral | dpll.py:190-226 | never reports a conflict; on return no free variable has a pure literal in either polarity, no model was lost, and the assigned variables moved to the used set |
| Dpll.AssignNextPure | dpll.py:207-224 | one pending pure literal is assigned; when none is left pending they are collected afresh |
| Dpll.AssignPure | dpll.py:207-224 | a pure literal's variable becomes used and is set to the literal's sign; its clauses are retired only when its bucket still exists, giving the formula with that literal true |
| Dpll.PureLiterals | dpll.py:198-203 | collects a free variable's positive literal when it is pure, otherwise its negative literal when that is pure |
| Dpll.Enumerate | dpll.py:90 | lists every candidate variable exactly once, in some order |
| Dpll.UnitKeepsSatisfiable | dpll.py:164-180 | making a unit clause's literal true keeps a satisfiable formula satisfiable |
| Dpll.ConflictUnsatisfiable | dpll.py:170-172 | a formula holding the unit clauses {l} and {-l} has no model |
| Dpll.PureKeepsSatisfiable | dpll.py:207-224 | making true a literal whose negation occurs nowhere keeps a satisfiable formula satisfiable |
| Dpll.SplitKeepsSatisfiable | dpll.py:111-147 | a satisfiable formula stays satisfiable with v true or with v false |
| Dpll.SplitUnsatisfiable | dpll.py:111-147 | if the formula has no model with v true and none with v false, it has no model |
| Dpll.AssignFalsifiedUnit | dpll.py:117-126 | making l true when {-l} is a clause produces the empty clause, so no model |
| Dpll.ModelsAssign | dpll.py:164-180 | a model that makes l true is a model of the formula with l true |
| Dpll.SatisfiesIsSatisfiable | satutil.py:32-41 | an interpretation that satisfies a formula yields a model of it |
| Dpll.InitialSearchInv | dpll.py:36-43 | when every variable of the input is free and no input clause is empty, the input itself satisfies the search invariant as the live formula |
| Dpll.AssignKeepsInv | dpll.py:164-224 | assigning a free variable keeps every input clause either true or represented by its reduct among the live clauses |
| Dpll.EmptyMeansSatisfied | dpll.py:61-63 | when no live clause is left, the interpretation satisfies every input clause |
| Dpll.InvIgnoresFree | dpll.py:111-147 | values left at free variables by a failed branch do not affect the search invariant |
| Dpll.BranchVariableOccurs | dpll.py:122 | the variable chosen for a branch has a bucket for both literals, so the two bucket lookups of the branch succeed |
| DpllDatabase.ClausesData.constructor | dpll.py:8-9 | the database holds the given clauses, counts and index |
| DpllDatabase.ClausesChanges.constructor | dpll.py:12-13 | a log starts with no removals and no modifications |
| DpllDatabase.UnlinkClause | dpll.py:245-251 | the clause leaves the bucket of each of its other literals, and buckets left empty are deleted |
| DpllDatabase.RelinkClause | dpll.py:283-286 | the shortened clause replaces the old one in the bucket of each of its literals; no bucket is created or deleted |
| DpllDatabase.LinkClause | dpll.py:308-311 | the clause joins the bucket of each of its literals, creating missing buckets |
| DpllDatabase.RestoreLinks | dpll.py:333-344 | the old clause is linked back into its buckets, and the shortened clause leaves them when its count reached 0 |
| DpllDatabase.RetireNext | dpll.py:236-251 | one clause of the bucket is logged with its count, leaves the clause set with count 0, and is unlinked |
| DpllDatabase.RemoveClausesWithLiteral | dpll.py:231-253 | every clause of the bucket is logged with its prior count, leaves the set with count 0, and leaves every bucket; emptied buckets and the literal's own bucket are deleted |
| DpllDatabase.RemovedWithConsistent | dpll.py:245-253 | retiring a bucket keeps the database consistent, and the live clauses are those without the literal |
| DpllDatabase.RemovedWithLogged | dpll.py:236-253 | after a retirement the extended log still accounts for the state |
| DpllDatabase.ShortenClause | dpll.py:268-286 | the clause is replaced by its shortening in the clause set and buckets; its count becomes 0 and the new clause's count goes up by one (created at 1); the record (new, old, old count) is appended |
| DpllDatabase.ShortenNext | dpll.py:262-286 | conflict exactly when the clause is the unit of the literal, changing nothing; otherwise one more clause is shortened and logged |
| DpllDatabase.ShortenBucket | dpll.py:263-286 | shortens the bucket's clauses until a unit of the literal is met; the new records are exactly one per shortened clause |
| DpllDatabase.RemoveLiteralFromClauses | dpll.py:257-290 | conflict exactly when the literal is a unit clause, with earlier shortenings kept in the log; otherwise every clause of the bucket is shortened and the bucket deleted |
| DpllDatabase.ShrunkWithConsistent | dpll.py:283-288 | a complete shortening keeps the database consistent and never stores an empty clause |
| DpllDatabase.ShrunkLogged | dpll.py:262-290 | after a complete shortening the extended log accounts for the state |
| DpllDatabase.ShrunkUndoable | dpll.py:263-266 | a shortening cut short by a conflict leaves a state the log can still undo |
| DpllDatabase.FreshLog | dpll.py:67 | an empty log accounts for a consistent state |
| DpllDatabase.LoggedIsUndoable | dpll.py:294-296 | a state reached by complete edits can be undone |
| DpllDatabase.ReaddRemovedClauses | dpll.py:300-311 | every removed clause is live again with its logged count, and is linked into the bucket of each of its literals |
| DpllDatabase.ReaddedUndoable | dpll.py:304-311 | re-adding the removals leaves a state in which the modification log can still be undone |
| DpllDatabase.UndoModification | dpll.py:321-344 | undoing one record: the new clause loses one count and leaves the set and its buckets only at 0; the old clause is live again with its logged count |
| DpllDatabase.UndoTurnDb | dpll.py:321-344 | the state after one record is undone, when the new clause is counted |
| DpllDatabase.UndoModifiedClauses | dpll.py:315-344 | the modifications are undone newest first |
| DpllDatabase.UndoLogRestores | dpll.py:315-344 | undoing a well-formed modification log newest first restores the clause set, the index and the counts of the state it was logged from |
| DpllDatabase.LogUndone | dpll.py:294-296 | once the whole log is replayed, the clause set, index and counts are those before the edits |
| DpllDatabase.UndoClauseChanges | dpll.py:294-344 | removals first, then modifications in reverse: the clause set and index are restored exactly, and the counts up to entries left at 0 |
| DataUtil.ParseCnf | datautil.py:7-66 | the result of reading the lines in order from no header and no clauses, stopping at the first error |
| DataUtil.ParseLinesMeaning | datautil.py:23-59 | the lines are accepted exactly when each is accepted under the most recent header's variable count; the result is that count and the union of the lines' clauses |
| DataUtil.ParseLineMeaning | datautil.py:23-59 | blank and `c` lines change nothing; a `p` line needs `cnf` and sets the variable count; a clause line adds the set of its literals |
| DataUtil.ScanAccepts | datautil.py:38-59 | a clause line is accepted exactly when it ends in its only 0 with every literal within range; it then adds the set of its literals, so duplicates collapse |
| DataUtil.ScanRejects | datautil.py:53-59 | the first literal out of range is reported with the variable count; a 0 before the end is malformed; a line that does not end in 0 is reported |
| DataUtil.ReadClauseLine | datautil.py:38-59 | the token loop computes the scan of the clause line |
| DataUtil.ClassifyClausesByVariable | datautil.py:70-89 | fails (the IndexError) exactly when some literal's variable exceeds num_vars; otherwise a list of num_vars+1 sets where a clause is in entry v exactly when it holds v or -v |
| DataUtil.AddByVariable | datautil.py:85-87 | fails exactly when one of the clause's variables has no entry; otherwise adds the clause to the entry of each of its variables and to no other |
| DataUtil.ClassifyClausesByLiteral | datautil.py:93-119 | the keys are exactly the occurring literals, a clause is in a literal's bucket exactly when it holds it, and no bucket is empty |
| DataUtil.AddByLiteral | datautil.py:113-117 | adds the clause to the bucket of each of its literals, creating missing buckets |
| DataUtil.PureLiteralMeaning | datautil.py:123-132 | on a consistent index, a literal is pure exactly when it occurs in the clauses and its negation does not |
| DataUtil.InitialDbConsistent | dpll.py:34-39 | the database built from the input (counts all 1, index from the classifier) is consistent |
| SatUtil.NumSatisfiedClausesBounds | satutil.py:45-51 | the count of satisfied clauses is at most the number of clauses, and equals it exactly when every clause is satisfied |
| SatUtil.NumSatisfiedClausesOfSet | satutil.py:45-51 | counting over a listing of a formula's clauses reaches its length exactly when the formula is satisfied |
| SatUtil.WeightedCount | satutil.py:55-63 | with non-negative weights the weighted count lies between 0 and the total weight; with unit weights it is the plain count |
| SatUtil.NumSatisfiedLiterals | satutil.py:67-81 | fails (the IndexError) exactly when a literal's variable lies beyond the interpretation; otherwise the loop counts the literals `interpretation` makes count, at most the clause's size; without a literal 0 it is positive exactly when the clause is satisfied |
| SatUtil.CountedLitsBound | satutil.py:67-81 | the counted literals are at most the clause's size, and there is one exactly when the clause is satisfied |
| SatUtil.TautologyAlwaysSatisfied | satutil.py:85-92 | a tautology is satisfied by every interpretation |
| SatUtil.RemoveTautologiesAsWritten | satutil.py:95-108 | as written, removes only tautologies, at most one, and one whenever there is one |
| SatUtil.RemoveTautologiesKeepsOne | satutil.py:95-108 | with two tautologies, one of them survives the call |
| SatUtil.RemoveTautologies | satutil.py:95-99 | removes every tautology and nothing else |
| Heuristics.SelectVariable | heuristics.py:18-88 | 0 for no candidates; otherwise the first candidate with the highest score, with absent buckets counted as 0 and ties going to the earliest |
| Heuristics.BestOccurs | heuristics.py:18-88 | when some candidate occurs, the chosen one has a bucket for one of its literals |
| Heuristics.ScorePositive | heuristics.py:34-82 | a variable scores above 0 exactly when one of its literals has a bucket |
| FanSATstic.RunStats.constructor | fanSATstic.py:48-51 | no episodes, no splits, no episode statistics |
| FanSATstic.RunStats.AddSplit | fanSATstic.py:59-60 | the split count goes up by one and nothing else changes |
| FanSATstic.RunStats.FinishEpisode | fanSATstic.py:54-57 | appends the split count to the statistics, resets it to 0 and counts the episode, keeping one statistic per episode |
| FanSATstic.ValueLineReadsBack | fanSATstic.py:139-147 | reading the value line back gives one integer per value, with magnitude i+1 and positive exactly when the value is true |
| FanSATstic.ValueLineEncodes | fanSATstic.py:141-146 | the value line is the encoding of the signed indices |
| FanSATstic.FormatLocalSearchResult | fanSATstic.py:129-147 | "s SATISFIABLE", a newline, "v", then " i+1" or " -(i+1)" for each value |
| FanSATstic.AppendValues | fanSATstic.py:142-146 | the loop appends exactly the value line |
| FanSATstic.FormatSystematicSearchResult | fanSATstic.py:150-190 | satisfiable: the value line of the interpretation without its placeholder at index 0; unsatisfiable: "s UNSATISFIABLE", "p cnf M N" with M the largest variable and N the clause count, then one line per clause |
| FanSATstic.FormatCore | fanSATstic.py:180-187 | one line per core clause, and the largest variable of the core |
| FanSATstic.BiggestVar | fanSATstic.py:186-187 | the running maximum of the absolute values of a clause |
| FanSATstic.MaxVarIsMax | fanSATstic.py:180-187 | the largest variable bounds every literal of the core, and is 0 or attained by one |
| FanSATstic.CoreLineReadsBack | fanSATstic.py:185 | reading a core line back gives the clause's literals followed by 0 |
| RlAgent.ReplayBuf.constructor | rl_agent.py:26-39 | zeroed buffers of replay_len slots, cursor 0, no current triple |
| RlAgent.ReplayBuf.Append | rl_agent.py:41-51 | writes the state, next state, reward and one-hot action into the cursor's slot only, and advances the cursor by one modulo replay_len |
| RlAgent.ReplayBuf.AppendSAR | rl_agent.py:53-63 | without a current triple, records a transition from s to itself; otherwise records (previous s, a, r, s); either way (s, a, r) becomes current |
| RlAgent.ReplayBuf.GameOver | rl_agent.py:65-70 | clears the current triple and sets the reward of the slot before the cursor to 1 |
| RlAgent.ReplayBuf.ResetIndexBackByN | rl_agent.py:72-74 | the cursor becomes (index - n) mod replay_len, never negative |
| RlAgent.OneHot | rl_agent.py:46-47 | a row of n zeros with a single 1, at a or, for negative a, at a + n |
| RlAgent.PreviousSlot | rl_agent.py:70 | the slot before the cursor, the last one when the cursor is 0; advancing from it gives the cursor |
| RlAgent.ResetUndoesAdvance | rl_agent.py:72-74 | moving the cursor back by n after n appends returns it to where it was |
| Decimal.NatToStringRoundTrip | fanSATstic.py:145 | the digits printed for a natural number read back as that number |
| Decimal.IntToStringRoundTrip | fanSATstic.py:145 | an integer printed with `%d` reads back as that integer |
| Decimal.EncodeIntsRoundTrip | fanSATstic.py:185 | a space-separated list of integers reads back as that list |

## Left out

- Input and output are not modelled: opening and reading the DIMACS file, the error report on stderr, printing, the command line (`main`, the argparse entry point, `printComments`). The parser works on lines already split into tokens.
- Randomness is not modelled. `satutil.getRandomAssignation` and its use in `getVarsAndFirstIntp` become a `coin` parameter of `Dpll.Solve`. The seeding and sampling calls of `fanSATstic.py` are not part of this model.
- `rl_agent.py` beyond `ReplayBuf` is not part of this model: `Estimator` wraps a floating-point regression library, and `make_state` uses float percentiles. `ReplayBuf` states are opaque rows of features, and rewards are integers.
- `heuristics.use_heuristic`, `heuristics.make_state` and `heuristics.automatic_heuristic` are not modelled: the first two only raise, and the third refers to undefined names. `fanSATstic.automatic_heuristic` is not modelled either, because it belongs to the training loop.
- Dpll.BranchVariable: the heuristic receives the free variables as a list in some order, and the literal index. The source passes the set and the whole database, and the heuristic iterates the set in Python's unspecified order.
- Python's iteration order over sets and dicts, and `set.pop()`, are modelled by `Wrappers.Pick`: every property holds for any choice.
- Dpll.Solve requires that no input clause is empty and that every literal lies within 1..n, and says nothing about the inputs this excludes. On some of them the source still answers. The clauses {}, {1} and {-1} are reported unsatisfiable through the conflict of the two units. The clause {1, 7} with n = 1 is reported satisfiable through the pure literal 1. On others it raises: a unit literal beyond n has no free variable for `variables.remove` (dpll.py:176), and a lone empty clause leaves the heuristic no variable, so `variables.remove(0)` fails (dpll.py:93). The parser does produce such inputs: a clause line holding only its 0 adds the empty clause (datautil.py:42-46).
- Dpll.Solve takes the clause set by value. The source wraps the caller's set in the database (dpll.py:39) and edits it in place, so a satisfiable run leaves the caller's set empty.
- Dpll.BranchVariable passes the literal index to the heuristic. The source passes the whole `ClausesData` tuple (dpll.py:90), and the heuristics index it as the literal dictionary (heuristics.py:37, heuristics.py:42, heuristics.py:73, heuristics.py:78). Indexing the tuple with a variable selects one of its fields, or raises IndexError from variable 3 on, which the `except KeyError` there does not catch. The model follows the heuristics' documented argument.
- Dpll.Search: the interpretation is not reset when a branch fails. The source leaves the failed branch's values behind, and so does the model. The contract states only that values outside the free variables are kept.
- Dpll.Solve: the source returns `(True, list)` or `(False, frozenset())`. The model returns a result datatype whose unsatisfiable case carries an empty sequence in place of the empty frozenset. `formatSystematicSearchResult` only iterates the core and takes its length (fanSATstic.py:184-189), so both give the same text.
- DpllDatabase.UndoClauseChanges: counts are natural numbers, so undo is modelled only for logs that account for the state they undo (`Undoable`). This covers every log the search writes. In Python, replaying an arbitrary log could drive a count negative.
- DpllDatabase.UndoClauseChanges restores the counts up to entries with count 0 (`SameTimes`). The source keeps such entries in `ctimes` after a clause is retired, so the map may differ in its zero entries.
- SatUtil.ClauseSatisfied requires every literal's variable to lie within the interpretation. The source indexes the interpretation literal by literal and raises IndexError at satutil.py:26 on one beyond it, unless a satisfied literal comes first in the set's order, in which case it answers True.
- SatUtil.Satisfies requires every clause in range, as SatUtil.ClauseSatisfied does. The source raises IndexError (satutil.py:26) on an out-of-range literal it reaches, and which it reaches depends on the set's order.
- SatUtil.NumSatisfiedClauses requires every clause in range. The source raises IndexError (satutil.py:26) on an out-of-range literal it reaches before a satisfied one.
- SatUtil.NumSatisfiedWeightedClauses requires every clause in range, and a weight for every satisfied clause. The source raises IndexError at satutil.py:26 in the first case, and KeyError at satutil.py:62 for a satisfied clause without a weight.
- SatUtil.RemoveTautologiesAsWritten and SatUtil.RemoveTautologies return the remaining clauses as a new set. The source removes them from the caller's set in place (satutil.py:107-108).
- The call `run_stats.add_split()` is modelled through `FanSATstic.RunStats.AddSplit`. It has no effect on solving.
- DataUtil.ParseCnf folds the errors Python raises on its own into one `Malformed` error: a missing header field, a token that is not an integer, a token after a clause's 0.
- FanSATstic.FormatSystematicSearchResult drops the placeholder at index 0 from a copy. The source's `del prove[0]` also changes the caller's list.
- FanSATstic.FormatSystematicSearchResult follows the code, not the examples in its documentation (fanSATstic.py:152-174). After `del prove[0]`, `(True, [True, False, False])` prints `v -1 -2`, not `v 1 -2 -3`. The UNSATISFIABLE output has a `p cnf M N` line, which the documented example lacks.
- FanSATstic.FormatSystematicSearchResult requires a satisfiable result to carry at least the placeholder entry. On an empty list, `del prove[0]` raises IndexError (fanSATstic.py:177). `Dpll.Solve` always returns n+1 entries.
- RlAgent.ReplayBuf.Append requires a buffer of at least one slot and an action in [-n_actions, n_actions). With replay_len 0 the write at rl_agent.py:42 raises IndexError. An action outside that range raises IndexError at rl_agent.py:47, after the state, next state and reward have been written.
- RlAgent.ReplayBuf.AppendSAR requires the same of its action, of the pending action and of the buffer, because it calls `append` (rl_agent.py:60), which raises IndexError otherwise.
- RlAgent.ReplayBuf.GameOver requires a buffer of at least one slot. With replay_len 0 the write at rl_agent.py:70 raises IndexError.
- RlAgent.ReplayBuf.ResetIndexBackByN requires a buffer of at least one slot. With replay_len 0 the `%` at rl_agent.py:74 raises ZeroDivisionError.

## Findings

| source | as written | input that shows it | evidently intended | confidence | as-written member | corrected member |
|---|---|---|---|---|---|---|
| satutil.py:102-105 | the scan breaks after the first tautology, so at most one clause is removed | clauses {1, -1} and {2, -2}: one of the two tautologies remains | remove every tautology, as the function's documentation says | high, not executed | SatUtil.RemoveTautologiesAsWritten, SatUtil.RemoveTautologiesKeepsOne | SatUtil.RemoveTautologies |
