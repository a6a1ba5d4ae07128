/** The run statistics and the result formatters of the command-line front end
    (fanSATstic.py): the SAT-competition style "s ..." and "v ..." lines. */
module FanSATstic {
  import opened Cnf
  import opened Decimal
  import opened Wrappers
  import SatUtil

  /** RunStats (fanSATstic.py:47-60): the splits of the current episode and the
      split counts of the finished episodes. */
  class RunStats {
    var nEpisodes: nat
    var nSplits: nat
    var episodeStats: seq<nat>

    /** One entry per finished episode. */
    predicate Valid()
      reads this
    {
      |episodeStats| == nEpisodes
    }

    /** __init__ (fanSATstic.py:48-51). */
    constructor ()
      ensures Valid()
      ensures nEpisodes == 0 && nSplits == 0 && episodeStats == []
    {
      nEpisodes := 0;
      nSplits := 0;
      episodeStats := [];
    }

    /** finish_episode (fanSATstic.py:54-57): records the episode's split count
        and starts a new episode. */
    method FinishEpisode()
      requires Valid()
      modifies this
      ensures Valid()
      ensures episodeStats == old(episodeStats) + [old(nSplits)]
      ensures nSplits == 0 && nEpisodes == old(nEpisodes) + 1
    {
      episodeStats := episodeStats + [nSplits];
      nSplits := 0;
      nEpisodes := nEpisodes + 1;
    }

    /** add_split (fanSATstic.py:59-60): one more split in this episode. */
    method AddSplit()
      modifies this`nSplits
      ensures nSplits == old(nSplits) + 1
    {
      nSplits := nSplits + 1;
    }
  }

  const SatisfiableOut := "s SATISFIABLE"
  const UnsatisfiableOut := "s UNSATISFIABLE"

  /** The signed variable of entry i of the `v` line: variable i+1, negated
      when the entry is not true. */
  function Signed(bs: seq<Option<bool>>, i: nat): int
    requires i < |bs|
  {
    if SatUtil.Truthy(bs[i]) then i + 1 else -(i + 1)
  }

  /** The values of the `v` line. */
  function SignedIndices(bs: seq<Option<bool>>): seq<int>
  {
    seq(|bs|, i requires 0 <= i < |bs| => Signed(bs, i))
  }

  /** The `v` line after its first `n` entries. */
  function ValueLine(bs: seq<Option<bool>>, n: nat): string
    requires n <= |bs|
  {
    if n == 0 then "" else ValueLine(bs, n - 1) + " " + IntToString(Signed(bs, n - 1))
  }

  /** The `v` line is the encoding of the signed variables. */
  lemma {:induction false} ValueLineEncodes(bs: seq<Option<bool>>, n: nat)
    requires n <= |bs|
    ensures ValueLine(bs, n) == EncodeInts(SignedIndices(bs[..n]))
  {
    if n > 0 {
      ValueLineEncodes(bs, n - 1);
      SignedIndicesSnoc(bs, n);
      EncodeIntsSnoc(SignedIndices(bs[..n - 1]), Signed(bs, n - 1));
    }
  }

  /** The signed variables of one more entry. */
  lemma SignedIndicesSnoc(bs: seq<Option<bool>>, n: nat)
    requires 0 < n <= |bs|
    ensures SignedIndices(bs[..n]) == SignedIndices(bs[..n - 1]) + [Signed(bs, n - 1)]
  {
  }

  /** Encoding one more integer appends its token. */
  lemma EncodeIntsSnoc(xs: seq<int>, x: int)
    ensures EncodeInts(xs + [x]) == EncodeInts(xs) + " " + IntToString(x)
  {
    EncodeIntsAppend(xs, [x]);
    assert EncodeInts([x]) == " " + IntToString(x) + EncodeInts([]);
  }

  /** Appending the token of entry `n` to a string ending in the first `n`
      entries gives the first `n + 1`. */
  lemma ValueLineStep(head: string, bs: seq<Option<bool>>, n: nat, x: int)
    requires n < |bs| && x == if SatUtil.Truthy(bs[n]) then n + 1 else -(n + 1)
    ensures head + ValueLine(bs, n) + " " + IntToString(x) == head + ValueLine(bs, n + 1)
  {
  }

  /** The `v` line can be read back: its i-th value names variable i+1, and is
      positive exactly when entry i is true. */
  lemma ValueLineReadsBack(bs: seq<Option<bool>>)
    ensures DecodeInts(ValueLine(bs, |bs|)).Some?
    ensures var xs := DecodeInts(ValueLine(bs, |bs|)).value;
      && |xs| == |bs|
      && forall i | 0 <= i < |bs| :: Abs(xs[i]) == i + 1 && (xs[i] > 0 <==> SatUtil.Truthy(bs[i]))
  {
    ValueLineEncodes(bs, |bs|);
    assert bs[..|bs|] == bs;
    EncodeIntsRoundTrip(SignedIndices(bs));
  }

  /** formatLocalSearchResult (fanSATstic.py:129-147): the satisfiable line and
      a `v` line with one signed variable per entry, in order. */
  method FormatLocalSearchResult(bs: seq<Option<bool>>) returns (out: string)
    ensures out == SatisfiableOut + "\nv" + ValueLine(bs, |bs|)
  {
    out := AppendValues(SatisfiableOut + "\nv", bs);
  }

  /** The loop of fanSATstic.py:142-146: one ` %d` per entry, the variable
      number when the entry is true and its negation otherwise. */
  method AppendValues(head: string, bs: seq<Option<bool>>) returns (out: string)
    ensures out == head + ValueLine(bs, |bs|)
  {
    out := head;
    for ind := 0 to |bs|
      invariant out == head + ValueLine(bs, ind)
    {
      var x;
      if SatUtil.Truthy(bs[ind]) {
        x := ind + 1;
      } else {
        x := -(ind + 1);
      }
      ValueLineStep(head, bs, ind, x);
      out := out + " " + IntToString(x);
    }
  }

  /** What a search returns: the interpretation (with the placeholder at index
      0), or the clauses of an unsatisfiable core. */
  datatype SearchResult = Satisfiable(interpretation: seq<Option<bool>>) | Unsatisfiable(core: seq<seq<int>>)

  /** `' '.join(map(str, c))`. */
  function JoinSpace(c: seq<int>): string
  {
    if c == [] then "" else IntToString(c[0]) + EncodeInts(c[1..])
  }

  /** A clause of the core as a DIMACS line (fanSATstic.py:185). */
  function CoreLine(c: seq<int>): string
  {
    JoinSpace(c) + " 0"
  }

  /** A core line reads back as the clause's literals followed by the 0 that
      ends it. The line of a nonempty clause starts with its first literal; that
      of the empty clause is " 0", with a space before the 0. */
  lemma CoreLineReadsBack(c: seq<int>)
    ensures DecodeInts(if c == [] then CoreLine(c) else " " + CoreLine(c)) == Some(c + [0])
  {
    EncodeZero();
    if c == [] {
      assert c + [0] == [0];
      EncodeIntsRoundTrip([0]);
    } else {
      SpacedCoreLine(c);
      EncodeIntsRoundTrip(c + [0]);
    }
  }

  /** A nonempty clause's line, after a space, is the encoding of its literals
      and the 0. */
  lemma SpacedCoreLine(c: seq<int>)
    requires c != [] && EncodeInts([0]) == " 0"
    ensures " " + CoreLine(c) == EncodeInts(c + [0])
  {
    JoinSpaceEncodes(c);
    EncodeIntsAppend(c, [0]);
    assert " " + CoreLine(c) == (" " + JoinSpace(c)) + " 0";
  }

  /** A space before the joined literals of a nonempty clause gives their
      encoding. */
  lemma JoinSpaceEncodes(c: seq<int>)
    requires c != []
    ensures " " + JoinSpace(c) == EncodeInts(c)
  {
  }

  /** The 0 that ends a clause line. */
  lemma EncodeZero()
    ensures EncodeInts([0]) == " 0"
  {
    assert IntToString(0) == NatToString(0) == [DigitChar(0)];
    assert [0][1..] == [];
  }

  /** `'\n'.join(lines)`. */
  function JoinLines(lines: seq<string>): string
    decreases |lines|
  {
    if lines == [] then ""
    else if |lines| == 1 then lines[0]
    else JoinLines(lines[..|lines| - 1]) + "\n" + lines[|lines| - 1]
  }

  /** The largest |literal| among the first `n` of a clause, 0 when there are
      none. */
  function MaxAbs(c: seq<int>, n: nat): nat
    requires n <= |c|
  {
    if n == 0 then 0
    else
      var m := MaxAbs(c, n - 1);
      if Abs(c[n - 1]) > m then Abs(c[n - 1]) else m
  }

  /** The largest variable among the first `n` clauses of the core, 0 when they
      hold no literal. */
  function MaxVar(core: seq<seq<int>>, n: nat): nat
    requires n <= |core|
  {
    if n == 0 then 0
    else
      var m := MaxVar(core, n - 1);
      var k := MaxAbs(core[n - 1], |core[n - 1]|);
      if k > m then k else m
  }

  /** `MaxAbs` bounds every literal it covers and is attained by one, or it
      covers none and is 0. */
  lemma {:induction false} MaxAbsIsMax(c: seq<int>, n: nat)
    requires n <= |c|
    ensures forall j | 0 <= j < n :: Abs(c[j]) <= MaxAbs(c, n)
    ensures n == 0 ==> MaxAbs(c, n) == 0
    ensures n > 0 ==> exists j | 0 <= j < n :: Abs(c[j]) == MaxAbs(c, n)
  {
    if n > 0 {
      MaxAbsIsMax(c, n - 1);
    }
  }

  /** The header's variable count bounds every literal of the core and is the
      |literal| of one of them, or 0 when the core has no literal. */
  lemma {:induction false} MaxVarIsMax(core: seq<seq<int>>, n: nat)
    requires n <= |core|
    ensures forall i, j | 0 <= i < n && 0 <= j < |core[i]| :: Abs(core[i][j]) <= MaxVar(core, n)
    ensures MaxVar(core, n) == 0 || exists i, j | 0 <= i < n && 0 <= j < |core[i]| :: Abs(core[i][j]) == MaxVar(core, n)
  {
    if n > 0 {
      var last := core[n - 1];
      MaxVarIsMax(core, n - 1);
      MaxAbsIsMax(last, |last|);
      if MaxVar(core, n) != 0 {
        if MaxAbs(last, |last|) > MaxVar(core, n - 1) {
          var j :| 0 <= j < |last| && Abs(last[j]) == MaxAbs(last, |last|);
          assert Abs(core[n - 1][j]) == MaxVar(core, n);
        } else {
          var i, j :| 0 <= i < n - 1 && 0 <= j < |core[i]| && Abs(core[i][j]) == MaxVar(core, n - 1);
          assert Abs(core[i][j]) == MaxVar(core, n);
        }
      }
    }
  }

  /** The lines of the core, one per clause, in order. */
  function CoreLines(core: seq<seq<int>>, n: nat): (lines: seq<string>)
    requires n <= |core|
    ensures |lines| == n
  {
    if n == 0 then [] else CoreLines(core, n - 1) + [CoreLine(core[n - 1])]
  }

  /** formatSystematicSearchResult (fanSATstic.py:150-190). A satisfiable result
      drops the placeholder at index 0 and is formatted as above; an
      unsatisfiable one gives a DIMACS header with the largest variable and the
      clause count, then one line per core clause. */
  method FormatSystematicSearchResult(result: SearchResult) returns (out: string)
    requires result.Satisfiable? ==> |result.interpretation| > 0
    ensures result.Satisfiable? ==>
      out == SatisfiableOut + "\nv" + ValueLine(result.interpretation[1..], |result.interpretation| - 1)
    ensures result.Unsatisfiable? ==>
      out == UnsatisfiableOut + "\np cnf " + NatToString(MaxVar(result.core, |result.core|)) + " " + NatToString(|result.core|)
        + "\n" + JoinLines(CoreLines(result.core, |result.core|))
  {
    match result
    case Satisfiable(prove) =>
      out := FormatLocalSearchResult(prove[1..]);
    case Unsatisfiable(prove) =>
      var core, biggestVar := FormatCore(prove);
      out := UnsatisfiableOut + "\np cnf " + NatToString(biggestVar) + " " + NatToString(|prove|) + "\n" + JoinLines(core);
  }

  /** The loop of fanSATstic.py:184-187: a line per core clause, and the
      largest variable seen. */
  method FormatCore(prove: seq<seq<int>>) returns (core: seq<string>, biggestVar: nat)
    ensures core == CoreLines(prove, |prove|)
    ensures biggestVar == MaxVar(prove, |prove|)
  {
    core := [];
    biggestVar := 0;
    for i := 0 to |prove|
      invariant core == CoreLines(prove, i)
      invariant biggestVar == MaxVar(prove, i)
    {
      var c := prove[i];
      core := core + [CoreLine(c)];
      biggestVar := BiggestVar(c, biggestVar);
    }
  }

  /** The inner loop of fanSATstic.py:186-187: the running maximum of |literal|. */
  method BiggestVar(c: seq<int>, before: nat) returns (biggestVar: nat)
    ensures biggestVar == if MaxAbs(c, |c|) > before then MaxAbs(c, |c|) else before
  {
    biggestVar := before;
    for j := 0 to |c|
      invariant biggestVar == if MaxAbs(c, j) > before then MaxAbs(c, j) else before
    {
      var a := Abs(c[j]);
      biggestVar := if biggestVar > a then biggestVar else a;
    }
  }
}
