/** Literals and clauses as the repository represents them: a literal is a nonzero
    signed integer, a clause an immutable set of literals (a Python frozenset). */
module Cnf {
  type Lit = int
  type Clause = set<Lit>

  function Abs(x: int): (r: nat)
    ensures r == x || r == -x
  {
    if x < 0 then -x else x
  }
}
