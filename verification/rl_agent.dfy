/** The replay buffer of the learning agent (rl_agent.py:19-74): synchronised ring
    buffers of transitions (state, action, reward, next state), written at a
    cursor that wraps around. States are rows of features that are stored and
    never inspected; rewards are integers. */
module RlAgent {
  import opened Wrappers

  /** A state row: the agent's feature vector (numpy float32 values). */
  datatype State = State(features: seq<real>)

  /** The action row numpy builds for action `a` (rl_agent.py:46-47): zeros with
      a single 1, at `a` itself or, for a negative `a`, counted from the end. */
  function OneHot(a: int, n: nat): (row: seq<int>)
    requires -(n as int) <= a < n
    ensures |row| == n
    ensures forall j | 0 <= j < n :: row[j] == (if j == a || j == a + n then 1 else 0)
    ensures forall j | 0 <= j < n :: row[j] == 1 <==> j == a % n
  {
    ModSmall(a, n);
    seq(n, j => if j == a || j == a + n then 1 else 0)
  }

  /** Numpy's position for index `a` on a row of `n`: `a` itself, or counted
      from the end when negative, which is `a` modulo `n`. */
  lemma ModSmall(a: int, n: nat)
    requires -(n as int) <= a < n
    ensures a >= 0 ==> a % n == a
    ensures a < 0 ==> a % n == a + n
  {
    if a < 0 {
      assert a + n == 1 * n + a;
      assert (a + n) - n == a;
    }
  }

  /** The cursor `n` appends after `index`, on a buffer of `len` slots. */
  function Advance(index: int, n: nat, len: int): (r: int)
    requires len > 0
    ensures 0 <= r < len
    ensures n == 0 && 0 <= index < len ==> r == index
  {
    (index + n) % len
  }

  /** reset_index_back_by_n undoes `n` appends: moving the cursor back by `n`
      after `n` appends returns it to where it was. */
  lemma ResetUndoesAdvance(index: int, n: nat, len: int)
    requires len > 0 && 0 <= index < len
    ensures (Advance(index, n, len) - n) % len == index
  {
    var q := (index + n) / len;
    assert index + n == q * len + Advance(index, n, len);
    assert Advance(index, n, len) - n == index + (-q) * len;
    ModShift(index, -q, len);
  }

  /** Adding a multiple of the modulus does not change the remainder. */
  lemma ModShift(x: int, k: int, len: int)
    requires len > 0 && 0 <= x < len
    ensures (x + k * len) % len == x
  {
    var r := (x + k * len) % len;
    var q := (x + k * len) / len;
    assert x - r == (q - k) * len;
    if q - k >= 1 {
      MulAtLeast(q - k, len);
    } else if q - k <= -1 {
      MulAtLeast(k - q, len);
    }
  }

  /** A positive multiple of a positive number is at least that number. */
  lemma {:induction false} MulAtLeast(d: int, len: int)
    requires d >= 1 && len > 0
    ensures d * len >= len
    decreases d
  {
    if d > 1 {
      MulAtLeast(d - 1, len);
      assert d * len == (d - 1) * len + len;
    }
  }

  /** The slot `game_over` writes (rl_agent.py:70): the one before the cursor,
      which for cursor 0 is numpy's index -1, the last slot. */
  function PreviousSlot(index: int, len: int): (r: int)
    requires 0 <= index < len
    ensures 0 <= r < len
    ensures r == if index == 0 then len - 1 else index - 1
    ensures Advance(r, 1, len) == index
  {
    (index - 1) % len
  }

  /** The all-zero state row of `sLen` features. */
  function Zero(sLen: nat): State
  {
    State(seq(sLen, _ => 0.0))
  }

  class ReplayBuf {
    const replayLen: nat
    const nActions: nat
    var index: int
    const sT: array<State>
    const sTPlus1: array<State>
    const action: array<seq<int>>
    const reward: array<int>
    var sCurrent: Option<State>
    var aCurrent: Option<int>
    var rCurrent: Option<int>

    /** The buffers have `replayLen` slots, the cursor is a slot (or 0 on a buffer
        without slots), and the current triple is set or cleared as a whole. */
    predicate Valid()
      reads this
    {
      && sT.Length == replayLen && sTPlus1.Length == replayLen
      && action.Length == replayLen && reward.Length == replayLen
      && sT != sTPlus1
      && (if replayLen > 0 then 0 <= index < replayLen else index == 0)
      && (sCurrent.None? <==> aCurrent.None?) && (sCurrent.None? <==> rCurrent.None?)
    }

    /** __init__ (rl_agent.py:26-39): zeroed buffers, cursor 0, no current
        triple. */
    constructor (replayLen: nat, sLen: nat, nActions: nat)
      ensures Valid()
      ensures this.replayLen == replayLen && this.nActions == nActions
      ensures index == 0 && sCurrent == None && aCurrent == None && rCurrent == None
      ensures fresh(sT) && fresh(sTPlus1) && fresh(action) && fresh(reward)
      ensures sT[..] == seq(replayLen, _ => Zero(sLen)) && sTPlus1[..] == seq(replayLen, _ => Zero(sLen))
      ensures action[..] == seq(replayLen, _ => seq(nActions, _ => 0)) && reward[..] == seq(replayLen, _ => 0)
    {
      this.replayLen := replayLen;
      this.nActions := nActions;
      index := 0;
      sT := new State[replayLen](_ => Zero(sLen));
      sTPlus1 := new State[replayLen](_ => Zero(sLen));
      action := new seq<int>[replayLen](_ => seq(nActions, _ => 0));
      reward := new int[replayLen](_ => 0);
      sCurrent := None;
      aCurrent := None;
      rCurrent := None;
    }

    /** append (rl_agent.py:41-51): writes one transition into slot `index` of
        each buffer and advances the cursor by one, wrapping around. */
    method Append(s: State, a: int, r: int, s1: State)
      requires Valid() && replayLen > 0 && -(nActions as int) <= a < nActions
      modifies this, sT, sTPlus1, action, reward
      ensures Valid()
      ensures sT[..] == old(sT[..])[old(index) := s]
      ensures sTPlus1[..] == old(sTPlus1[..])[old(index) := s1]
      ensures reward[..] == old(reward[..])[old(index) := r]
      ensures action[..] == old(action[..])[old(index) := OneHot(a, nActions)]
      ensures index == Advance(old(index), 1, replayLen)
      ensures sCurrent == old(sCurrent) && aCurrent == old(aCurrent) && rCurrent == old(rCurrent)
    {
      sT[index] := s;
      sTPlus1[index] := s1;
      reward[index] := r;
      action[index] := OneHot(a, nActions);
      index := index + 1;
      index := index % replayLen;
    }

    /** append_s_a_r (rl_agent.py:53-63): records the transition from the
        current triple to `s` (from `s` to itself when there is no current
        triple) and makes (s, a, r) the current triple. */
    method AppendSAR(s: State, a: int, r: int)
      requires Valid() && replayLen > 0
      requires -(nActions as int) <= a < nActions
      requires aCurrent.Some? ==> -(nActions as int) <= aCurrent.value < nActions
      modifies this, sT, sTPlus1, action, reward
      ensures Valid()
      ensures sCurrent == Some(s) && aCurrent == Some(a) && rCurrent == Some(r)
      ensures index == Advance(old(index), 1, replayLen)
      ensures old(sCurrent).None? ==>
        && sT[..] == old(sT[..])[old(index) := s]
        && sTPlus1[..] == old(sTPlus1[..])[old(index) := s]
        && reward[..] == old(reward[..])[old(index) := r]
        && action[..] == old(action[..])[old(index) := OneHot(a, nActions)]
      ensures old(sCurrent).Some? ==>
        && sT[..] == old(sT[..])[old(index) := old(sCurrent).value]
        && sTPlus1[..] == old(sTPlus1[..])[old(index) := s]
        && reward[..] == old(reward[..])[old(index) := old(rCurrent).value]
        && action[..] == old(action[..])[old(index) := OneHot(old(aCurrent).value, nActions)]
    {
      if sCurrent.None? {
        sCurrent := Some(s);
        aCurrent := Some(a);
        rCurrent := Some(r);
      }
      if sCurrent.Some? {
        Append(sCurrent.value, aCurrent.value, rCurrent.value, s);
        sCurrent := Some(s);
        aCurrent := Some(a);
        rCurrent := Some(r);
      }
    }

    /** game_over (rl_agent.py:65-70): clears the current triple and gives the
        most recently written slot reward 1. */
    method GameOver()
      requires Valid() && replayLen > 0
      modifies this, reward
      ensures Valid()
      ensures sCurrent == None && aCurrent == None && rCurrent == None
      ensures reward[..] == old(reward[..])[PreviousSlot(old(index), replayLen) := 1]
      ensures index == old(index)
    {
      sCurrent := None;
      aCurrent := None;
      rCurrent := None;
      reward[PreviousSlot(index, replayLen)] := 1;
    }

    /** reset_index_back_by_n (rl_agent.py:72-74): moves the cursor back by `n`
        slots, wrapping around; Python's `%` by a positive length is never
        negative. */
    method ResetIndexBackByN(n: int)
      requires Valid() && replayLen > 0
      modifies this`index
      ensures Valid()
      ensures index == (old(index) - n) % replayLen
      ensures 0 <= index < replayLen
    {
      index := index - n;
      index := index % replayLen;
    }
  }
}
