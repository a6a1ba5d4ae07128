/** Decimal rendering of integers, as Python's `'%d'` and `str` print them, and
    of the space-separated integer lists of the solver's output lines, each
    with a reading back that inverts it. */
module Decimal {
  import opened Wrappers

  predicate IsDigit(c: char)
  {
    '0' <= c <= '9'
  }

  predicate IsDigits(s: string)
  {
    forall i | 0 <= i < |s| :: IsDigit(s[i])
  }

  function DigitChar(d: nat): (c: char)
    requires d < 10
    ensures IsDigit(c)
  {
    "0123456789"[d]
  }

  function DigitValue(c: char): (d: nat)
    requires IsDigit(c)
    ensures d < 10
  {
    (c as int) - ('0' as int)
  }

  /** The decimal digits of `n`, most significant first, without leading zeros. */
  function NatToString(n: nat): (s: string)
    ensures |s| > 0 && IsDigits(s)
    ensures |s| > 1 ==> s[0] != '0'
    decreases n
  {
    if n < 10 then [DigitChar(n)] else NatToString(n / 10) + [DigitChar(n % 10)]
  }

  /** The number a string of digits denotes. */
  function DigitsValue(s: string): nat
    requires IsDigits(s)
    decreases |s|
  {
    if s == [] then 0 else DigitsValue(s[..|s| - 1]) * 10 + DigitValue(s[|s| - 1])
  }

  /** Reading the digits of `n` gives back `n`. */
  lemma {:induction false} NatToStringRoundTrip(n: nat)
    ensures DigitsValue(NatToString(n)) == n
    decreases n
  {
    var s := NatToString(n);
    if n < 10 {
      assert s[..0] == [];
      assert DigitValue(DigitChar(n)) == n by {
        assert "0123456789"[n] as int == '0' as int + n;
      }
    } else {
      NatToStringRoundTrip(n / 10);
      assert s[..|s| - 1] == NatToString(n / 10);
      assert DigitValue(DigitChar(n % 10)) == n % 10 by {
        assert "0123456789"[n % 10] as int == '0' as int + n % 10;
      }
    }
  }

  /** `'%d' % i`: a minus sign before the digits of a negative number. */
  function IntToString(i: int): (s: string)
    ensures |s| > 0 && (forall k | 0 <= k < |s| :: s[k] != ' ')
  {
    if i < 0 then "-" + NatToString(-i) else NatToString(i)
  }

  /** The integer a token denotes, if it is one. */
  function ParseInt(s: string): Option<int>
  {
    if |s| > 1 && s[0] == '-' && IsDigits(s[1..]) then Some(0 - DigitsValue(s[1..]))
    else if |s| > 0 && IsDigits(s) then Some(DigitsValue(s))
    else None
  }

  /** Reading the token of `i` gives back `i`. */
  lemma IntToStringRoundTrip(i: int)
    ensures ParseInt(IntToString(i)) == Some(i)
  {
    if i < 0 {
      NegativeRoundTrip(-i, NatToString(-i));
    } else {
      NonNegativeRoundTrip(i, NatToString(i));
    }
  }

  lemma NegativeRoundTrip(n: nat, t: string)
    requires t == NatToString(n)
    ensures ParseInt("-" + t) == Some(-(n as int))
  {
    var s := "-" + t;
    assert s[0] == '-' && s[1..] == t;
    NatToStringRoundTrip(n);
  }

  lemma NonNegativeRoundTrip(n: nat, t: string)
    requires t == NatToString(n)
    ensures ParseInt(t) == Some(n)
  {
    assert IsDigit(t[0]);
    NatToStringRoundTrip(n);
  }

  /** Each integer preceded by a space: `' %d'` repeated, as the `v` line and the
      clause lines are written. */
  function EncodeInts(xs: seq<int>): string
    decreases |xs|
  {
    if xs == [] then "" else " " + IntToString(xs[0]) + EncodeInts(xs[1..])
  }

  /** The number of characters before the next space. */
  function TokenLength(s: string): (k: nat)
    ensures k <= |s|
    decreases |s|
  {
    if s == [] || s[0] == ' ' then 0 else 1 + TokenLength(s[1..])
  }

  /** Reading back a string of space-prefixed integer tokens. */
  function DecodeInts(s: string): Option<seq<int>>
    decreases |s|
  {
    if s == [] then Some([])
    else if s[0] != ' ' then None
    else
      var k := TokenLength(s[1..]);
      match ParseInt(s[1..1 + k])
      case None => None
      case Some(x) =>
        match DecodeInts(s[1 + k..])
        case None => None
        case Some(xs) => Some([x] + xs)
  }

  /** A token without spaces followed by a space or the end is read whole. */
  lemma {:induction false} TokenLengthOf(w: string, rest: string)
    requires forall k | 0 <= k < |w| :: w[k] != ' '
    requires rest == [] || rest[0] == ' '
    ensures TokenLength(w + rest) == |w|
    decreases |w|
  {
    if w == [] {
      assert w + rest == rest;
    } else {
      assert (w + rest)[1..] == w[1..] + rest;
      TokenLengthOf(w[1..], rest);
    }
  }

  /** Reading an encoded list gives back the list. */
  lemma {:induction false} EncodeIntsRoundTrip(xs: seq<int>)
    ensures DecodeInts(EncodeInts(xs)) == Some(xs)
    decreases |xs|
  {
    if xs != [] {
      var rest := EncodeInts(xs[1..]);
      EncodeIntsRoundTrip(xs[1..]);
      EncodeIntsStart(xs[1..]);
      IntToStringRoundTrip(xs[0]);
      DecodeFirst(IntToString(xs[0]), xs[0], rest, xs[1..]);
      assert [xs[0]] + xs[1..] == xs;
    }
  }

  /** An encoded list is empty or starts with a space. */
  lemma EncodeIntsStart(xs: seq<int>)
    ensures EncodeInts(xs) == [] || EncodeInts(xs)[0] == ' '
  {
  }

  /** A first token that reads as `x` is read whole, and the rest is read after
      it. */
  lemma DecodeFirst(w: string, x: int, rest: string, xs: seq<int>)
    requires forall k | 0 <= k < |w| :: w[k] != ' '
    requires ParseInt(w) == Some(x)
    requires rest == [] || rest[0] == ' '
    requires DecodeInts(rest) == Some(xs)
    ensures DecodeInts(" " + w + rest) == Some([x] + xs)
  {
    var s := " " + w + rest;
    assert s[1..] == w + rest;
    TokenLengthOf(w, rest);
    assert s[1..1 + |w|] == w;
    assert s[1 + |w|..] == rest;
  }

  /** Encoding distributes over concatenation. */
  lemma {:induction false} EncodeIntsAppend(xs: seq<int>, ys: seq<int>)
    ensures EncodeInts(xs + ys) == EncodeInts(xs) + EncodeInts(ys)
    decreases |xs|
  {
    if xs == [] {
      assert xs + ys == ys;
    } else {
      assert (xs + ys)[1..] == xs[1..] + ys;
      EncodeIntsAppend(xs[1..], ys);
    }
  }
}
