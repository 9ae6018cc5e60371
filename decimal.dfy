/**
 * Decimal text for integers: how JavaScript prints an integral number
 * (`String(n)`, used by `Array.prototype.join`) and how the peer reads one
 * back with a `%d` conversion.
 */
module Decimal {
  import opened Util

  predicate IsDigit(c: char) { '0' <= c <= '9' }

  predicate AllDigits(s: string) { forall i :: 0 <= i < |s| ==> IsDigit(s[i]) }

  function DigitChar(d: int): (c: char)
    requires 0 <= d < 10
    ensures IsDigit(c)
  {
    (d + '0' as int) as char
  }

  function DigitValue(c: char): (d: int)
    requires IsDigit(c)
    ensures 0 <= d < 10
  {
    c as int - '0' as int
  }

  /** The shortest decimal spelling of a natural number. */
  function NatToString(n: nat): (s: string)
    ensures |s| >= 1 && AllDigits(s)
  {
    if n < 10 then [DigitChar(n)] else NatToString(n / 10) + [DigitChar(n % 10)]
  }

  /** `String(n)` for an integral JavaScript number. */
  function IntToString(n: int): (s: string)
    ensures |s| >= 1
  {
    if n < 0 then "-" + NatToString(-n) else NatToString(n)
  }

  /** The value of a string of decimal digits. */
  function DigitsValue(s: string): (v: nat)
    requires AllDigits(s)
  {
    if s == [] then 0 else DigitsValue(s[..|s| - 1]) * 10 + DigitValue(s[|s| - 1])
  }

  lemma {:induction false} NatToStringValue(n: nat)
    ensures DigitsValue(NatToString(n)) == n
  {
    var s := NatToString(n);
    if n >= 10 {
      NatToStringValue(n / 10);
      assert s[..|s| - 1] == NatToString(n / 10);
    }
  }

  /** The number of leading digits of `s`. */
  function DigitRun(s: string): (k: nat)
    ensures k <= |s| && AllDigits(s[..k])
    ensures k < |s| ==> !IsDigit(s[k])
  {
    if s == [] || !IsDigit(s[0]) then 0 else 1 + DigitRun(s[1..])
  }

  lemma {:induction false} DigitRunOf(d: string, rest: string)
    requires AllDigits(d)
    requires rest == [] || !IsDigit(rest[0])
    ensures DigitRun(d + rest) == |d|
  {
    if d != [] {
      assert (d + rest)[1..] == d[1..] + rest;
      DigitRunOf(d[1..], rest);
    }
  }

  /** The unsigned part of a `%d` conversion: a maximal run of at least one digit. */
  function ScanNat(t: string): Option<(nat, string)>
  {
    var k := DigitRun(t);
    if k == 0 then None else Some((DigitsValue(t[..k]), t[k..]))
  }

  /** A `%d` conversion: an optional minus sign and a maximal run of at least one digit. */
  function ScanInt(s: string): Option<(int, string)>
  {
    if |s| > 0 && s[0] == '-' then
      match ScanNat(s[1..])
      case None => None
      case Some((v, rest)) => Some((-(v as int), rest))
    else
      match ScanNat(s)
      case None => None
      case Some((v, rest)) => Some((v as int, rest))
  }

  /** The digits of a run are read as its value, and the conversion stops after them. */
  lemma ScanDigits(d: string, rest: string)
    requires |d| >= 1 && AllDigits(d)
    requires rest == [] || !IsDigit(rest[0])
    ensures ScanNat(d + rest) == Some((DigitsValue(d), rest))
  {
    DigitRunOf(d, rest);
    assert (d + rest)[..|d|] == d && (d + rest)[|d|..] == rest;
  }

  /** A minus sign before an unsigned conversion negates the value read. */
  lemma ScanMinus(t: string, v: nat, rest: string)
    requires ScanNat(t) == Some((v, rest))
    ensures ScanInt(['-'] + t) == Some((-(v as int), rest))
  {
    assert (['-'] + t)[1..] == t;
  }

  /** Without a minus sign the conversion is the unsigned one. */
  lemma ScanPlain(t: string, v: nat, rest: string)
    requires |t| > 0 && IsDigit(t[0])
    requires ScanNat(t) == Some((v, rest))
    ensures ScanInt(t) == Some((v as int, rest))
  {
  }

  /** The printed form of a negative integer is read back as that integer. */
  lemma ScanNegativeToString(n: int, rest: string)
    requires n < 0
    requires rest == [] || !IsDigit(rest[0])
    ensures ScanInt(IntToString(n) + rest) == Some((n, rest))
  {
    var m: nat := -n;
    var d := NatToString(m);
    assert ScanNat(d + rest) == Some((m, rest)) by {
      NatToStringValue(m);
      ScanDigits(d, rest);
    }
    assert IntToString(n) + rest == ['-'] + (d + rest);
    ScanMinus(d + rest, m, rest);
  }

  /** The printed form of a non-negative integer is read back as that integer. */
  lemma ScanNaturalToString(n: nat, rest: string)
    requires rest == [] || !IsDigit(rest[0])
    ensures ScanInt(IntToString(n) + rest) == Some((n as int, rest))
  {
    var d := NatToString(n);
    NatToStringValue(n);
    ScanDigits(d, rest);
    assert (d + rest)[0] == d[0];
    ScanPlain(d + rest, n, rest);
  }

  /** Reading back the printed form of an integer, followed by a non-digit or the end, gives the integer. */
  lemma ScanIntToString(n: int, rest: string)
    requires rest == [] || !IsDigit(rest[0])
    ensures ScanInt(IntToString(n) + rest) == Some((n, rest))
  {
    if n < 0 {
      ScanNegativeToString(n, rest);
    } else {
      ScanNaturalToString(n, rest);
    }
  }

  /** `arr.join(",")` for integral numbers. */
  function JoinInts(ns: seq<int>): (s: string)
  {
    if ns == [] then "" else if |ns| == 1 then IntToString(ns[0]) else IntToString(ns[0]) + [','] + JoinInts(ns[1..])
  }

  /** A `%d,%d,...` conversion of exactly `count` integers, returning what follows them. */
  function ScanInts(s: string, count: nat): Option<(seq<int>, string)>
    decreases count
  {
    if count == 0 then Some(([], s))
    else match ScanInt(s)
      case None => None
      case Some((v, rest)) =>
        if count == 1 then Some(([v], rest))
        else if |rest| > 0 && rest[0] == ',' then
          match ScanInts(rest[1..], count - 1)
          case None => None
          case Some((vs, after)) => Some(([v] + vs, after))
        else None
  }

  /** One step of a multi-integer conversion: a number, a comma, then the remaining numbers. */
  lemma ScanIntsStep(s: string, count: nat, v: int, tail: string, vs: seq<int>)
    requires count >= 2
    requires ScanInt(s) == Some((v, [','] + tail))
    requires ScanInts(tail, count - 1) == Some((vs, ""))
    ensures ScanInts(s, count) == Some(([v] + vs, ""))
  {
    assert ([','] + tail)[1..] == tail;
  }

  /** Joining integers with commas and scanning them back yields the same integers. */
  lemma {:induction false} ScanJoinedInts(ns: seq<int>)
    requires |ns| >= 1
    ensures ScanInts(JoinInts(ns), |ns|) == Some((ns, ""))
  {
    if |ns| == 1 {
      ScanIntToString(ns[0], "");
      assert JoinInts(ns) == IntToString(ns[0]) + "";
      assert ns == [ns[0]];
    } else {
      var tail := JoinInts(ns[1..]);
      assert JoinInts(ns) == IntToString(ns[0]) + ([','] + tail);
      ScanIntToString(ns[0], [','] + tail);
      ScanJoinedInts(ns[1..]);
      ScanIntsStep(JoinInts(ns), |ns|, ns[0], tail, ns[1..]);
      assert [ns[0]] + ns[1..] == ns;
    }
  }
}
