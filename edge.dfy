/**
 * The edge record of chapter 4: a dataclass with two integer fields, the
 * index the edge leaves (`u`) and the index it reaches (`v`). Equality is
 * the dataclass field equality, which a datatype gives for free.
 */
module Edges {
  import opened Wrappers

  datatype Edge = Edge(u: int, v: int)

  /** `reversed()`: a new edge with the ends swapped. */
  function Reversed(e: Edge): (r: Edge)
    ensures r.u == e.v && r.v == e.u
  {
    Edge(e.v, e.u)
  }

  /** Reversing twice gives an equal edge. */
  lemma ReversedTwice(e: Edge)
    ensures Reversed(Reversed(e)) == e
  {
  }

  /** Only a self-loop is its own reversal. */
  lemma ReversedFixed(e: Edge)
    ensures Reversed(e) == e <==> e.u == e.v
  {
  }

  // ---------------------------------------------------------------------
  // `__str__`: "{u}->{v}" with Python's decimal rendering of int

  function DigitChar(d: int): char
    requires 0 <= d < 10
  {
    "0123456789"[d]
  }

  function DigitValue(c: char): int
  {
    c as int - '0' as int
  }

  predicate IsDigit(c: char)
  {
    '0' <= c <= '9'
  }

  lemma DigitRoundTrip(d: int)
    requires 0 <= d < 10
    ensures IsDigit(DigitChar(d)) && DigitValue(DigitChar(d)) == d
  {
  }

  /** The decimal digits of a natural number, most significant first, without leading zeros. */
  function NatToString(n: nat): (s: string)
    ensures |s| >= 1 && forall i :: 0 <= i < |s| ==> IsDigit(s[i])
  {
    DigitRoundTrip(n % 10);
    if n < 10 then [DigitChar(n)] else NatToString(n / 10) + [DigitChar(n % 10)]
  }

  /** `str(i)` for an int: a minus sign before the digits of a negative number. */
  function IntToString(i: int): (s: string)
    ensures |s| >= 1 && (s[0] == '-' <==> i < 0)
  {
    if i < 0 then "-" + NatToString(-i) else NatToString(i)
  }

  /** `str(edge)`. */
  function ToString(e: Edge): (s: string)
    ensures |s| >= 4 && (s[0] == '-' <==> e.u < 0) && IsDigit(s[|s| - 1])
  {
    IntToString(e.u) + "->" + IntToString(e.v)
  }

  /** The number a string of decimal digits denotes. */
  function ParseNat(s: string): int
  {
    if s == [] then 0 else 10 * ParseNat(s[..|s| - 1]) + DigitValue(s[|s| - 1])
  }

  lemma {:induction false} ParseNatToString(n: nat)
    ensures ParseNat(NatToString(n)) == n
  {
    var s := NatToString(n);
    DigitRoundTrip(n % 10);
    if n >= 10 {
      ParseNatToString(n / 10);
      assert s[..|s| - 1] == NatToString(n / 10);
    }
  }

  /** The number a string with an optional minus sign denotes. */
  function ParseInt(s: string): int
  {
    if s != [] && s[0] == '-' then -ParseNat(s[1..]) else ParseNat(s)
  }

  lemma IntRoundTrip(i: int)
    ensures ParseInt(IntToString(i)) == i
  {
    var s := IntToString(i);
    if i < 0 {
      assert s == "-" + NatToString(-i);
      assert s[1..] == NatToString(-i);
      ParseNatToString(-i);
    } else {
      assert s == NatToString(i);
      ParseNatToString(i);
    }
  }

  /** The length of the longest prefix of s made of digits. */
  function DigitRun(s: string): (k: nat)
    ensures k <= |s| && forall i :: 0 <= i < k ==> IsDigit(s[i])
    ensures k < |s| ==> !IsDigit(s[k])
  {
    if s == [] || !IsDigit(s[0]) then 0 else 1 + DigitRun(s[1..])
  }

  lemma {:induction false} DigitRunPrefix(d: string, rest: string)
    requires forall i :: 0 <= i < |d| ==> IsDigit(d[i])
    requires rest == [] || !IsDigit(rest[0])
    ensures DigitRun(d + rest) == |d|
  {
    if d != [] {
      assert (d + rest)[1..] == d[1..] + rest;
      DigitRunPrefix(d[1..], rest);
    }
  }

  /** The length of an optional minus sign followed by the longest run of digits. */
  function HeadLength(s: string): (k: nat)
    ensures k <= |s|
  {
    var sign := if s != [] && s[0] == '-' then 1 else 0;
    sign + DigitRun(s[sign..])
  }

  /**
   * Reading "{u}->{v}" back: an optional minus sign and the digits of u,
   * then the arrow, then v.
   */
  function Parse(s: string): Option<Edge>
  {
    var k := HeadLength(s);
    if k + 2 <= |s| && s[k..k + 2] == "->" then Some(Edge(ParseInt(s[..k]), ParseInt(s[k + 2..])))
    else None
  }

  /** The head of str(i) followed by anything that does not start with a digit is str(i). */
  lemma HeadOfIntToString(i: int, rest: string)
    requires rest == [] || !IsDigit(rest[0])
    ensures HeadLength(IntToString(i) + rest) == |IntToString(i)|
  {
    var a := IntToString(i);
    var s := a + rest;
    if i < 0 {
      var digits := NatToString(-i);
      assert s[0] == '-';
      assert s[1..] == digits + rest;
      DigitRunPrefix(digits, rest);
    } else {
      var digits := NatToString(i);
      assert s[0] == digits[0] && IsDigit(digits[0]);
      assert s[0..] == digits + rest;
      DigitRunPrefix(digits, rest);
    }
  }

  /** The rendering loses nothing: distinct edges print differently. */
  lemma ToStringRoundTrip(e: Edge)
    ensures Parse(ToString(e)) == Some(e)
  {
    var a := IntToString(e.u);
    var b := IntToString(e.v);
    HeadOfIntToString(e.u, "->" + b);
    ArrowSplit(a, b);
    IntRoundTrip(e.u);
    IntRoundTrip(e.v);
  }

  /** The pieces around the arrow of a + "->" + b. */
  lemma ArrowSplit(a: string, b: string)
    ensures a + "->" + b == a + ("->" + b)
    ensures var s := a + "->" + b; s[..|a|] == a && s[|a|..|a| + 2] == "->" && s[|a| + 2..] == b
  {
  }

  lemma ToStringInjective(e1: Edge, e2: Edge)
    ensures ToString(e1) == ToString(e2) ==> e1 == e2
  {
    ToStringRoundTrip(e1);
    ToStringRoundTrip(e2);
  }
}
