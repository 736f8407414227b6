/** Decimal text of integers, as Go's `strconv.Itoa` and `strconv.Atoi`
    produce and accept it. Integers are unbounded, so the range errors of
    `Atoi` on 64-bit overflow are not modelled. */
module Decimal {
  import opened Wrappers

  predicate IsDigit(c: char) {
    '0' <= c <= '9'
  }

  function DigitOf(c: char): (d: nat)
    requires IsDigit(c)
    ensures d < 10
  {
    (c as int) - ('0' as int)
  }

  function CharOf(d: nat): (c: char)
    requires d < 10
    ensures IsDigit(c) && DigitOf(c) == d
  {
    (d + '0' as int) as char
  }

  predicate AllDigits(s: string) {
    forall i :: 0 <= i < |s| ==> IsDigit(s[i])
  }

  /** The form `Itoa` gives a non-negative number: digits, no leading zero. */
  predicate Canonical(s: string) {
    |s| >= 1 && AllDigits(s) && (|s| > 1 ==> s[0] != '0')
  }

  function Pow10(k: nat): (p: nat)
    ensures p >= 1
  {
    if k == 0 then 1 else 10 * Pow10(k - 1)
  }

  /** Value of a digit string, most significant digit first; leading zeros
      are allowed, as `Atoi` allows them. */
  function Value(s: string): nat
    requires AllDigits(s)
  {
    if s == [] then 0 else Value(s[..|s| - 1]) * 10 + DigitOf(s[|s| - 1])
  }

  /** `strconv.Itoa` of a non-negative number. */
  function Digits(n: nat): (s: string)
    ensures Canonical(s)
    ensures Value(s) == n
  {
    if n < 10 then [CharOf(n)]
    else
      var s := Digits(n / 10) + [CharOf(n % 10)];
      assert s[..|s| - 1] == Digits(n / 10);
      s
  }

  /** `strconv.Itoa` of any integer. */
  function Itoa(n: int): (s: string)
    ensures |s| >= 1
    ensures n >= 0 <==> s[0] != '-'
  {
    if n < 0 then "-" + Digits(-n) else Digits(n)
  }

  /** `strconv.Atoi`: an optional sign followed by at least one decimal
      digit; anything else is a syntax error (`None`). */
  function Atoi(s: string): (r: Option<int>)
    ensures r.Some? <==> (|s| > 0 && AllDigits(s)) ||
                         (|s| > 1 && (s[0] == '-' || s[0] == '+') && AllDigits(s[1..]))
    ensures |s| > 0 && AllDigits(s) ==> r == Some(Value(s))
  {
    if |s| > 0 && (s[0] == '-' || s[0] == '+') then
      if |s| > 1 && AllDigits(s[1..]) then
        var v: int := Value(s[1..]);
        Some(if s[0] == '-' then -v else v)
      else None
    else if |s| > 0 && AllDigits(s) then Some(Value(s))
    else None
  }

  /** `n, _ := strconv.Atoi(s)`: the solvers ignore the error, and Go then
      yields 0. */
  function AtoiOrZero(s: string): (n: int)
    ensures Atoi(s).None? ==> n == 0
    ensures Atoi(s).Some? ==> n == Atoi(s).value
  {
    match Atoi(s)
    case Some(v) => v
    case None => 0
  }

  lemma AllDigitsAppend(a: string, b: string)
    requires AllDigits(a) && AllDigits(b)
    ensures AllDigits(a + b)
  {
  }

  lemma ValueSnoc(s: string, c: char)
    requires AllDigits(s) && IsDigit(c)
    ensures AllDigits(s + [c])
    ensures Value(s + [c]) == Value(s) * 10 + DigitOf(c)
  {
    AllDigitsAppend(s, [c]);
    assert (s + [c])[..|s|] == s;
  }

  lemma Regroup(va: int, vb: int, p: int, d: int)
    ensures (va * p + vb) * 10 + d == va * (10 * p) + (vb * 10 + d)
  {
  }

  lemma {:induction false} ValueAppend(a: string, b: string)
    requires AllDigits(a) && AllDigits(b)
    ensures AllDigits(a + b)
    ensures Value(a + b) == Value(a) * Pow10(|b|) + Value(b)
    decreases |b|
  {
    AllDigitsAppend(a, b);
    if b == [] {
      assert a + b == a;
    } else {
      var b' := b[..|b| - 1];
      var c := b[|b| - 1];
      assert b == b' + [c];
      assert a + b == (a + b') + [c];
      ValueAppend(a, b');
      AllDigitsAppend(a, b');
      ValueSnoc(a + b', c);
      ValueSnoc(b', c);
      assert Pow10(|b|) == 10 * Pow10(|b'|);
      Regroup(Value(a), Value(b'), Pow10(|b'|), DigitOf(c));
    }
  }

  /** Reading back what `Itoa` wrote gives the number. */
  lemma AtoiItoa(n: int)
    ensures Atoi(Itoa(n)) == Some(n)
  {
    if n < 0 {
      assert Itoa(n)[1..] == Digits(-n);
    }
  }

  /** Writing out what was read gives back the text, when it has no leading
      zero. */
  lemma {:induction false} DigitsValue(s: string)
    requires Canonical(s)
    ensures Digits(Value(s)) == s
    decreases |s|
  {
    if |s| > 1 {
      var t := s[..|s| - 1];
      assert Canonical(t);
      DigitsValue(t);
      assert s == t + [s[|s| - 1]];
    }
  }

  /** A canonical string of length k is a number of exactly k digits. */
  lemma {:induction false} CanonicalBounds(s: string)
    requires Canonical(s)
    ensures |s| == 1 ==> Value(s) < 10
    ensures |s| > 1 ==> Pow10(|s| - 1) <= Value(s) < Pow10(|s|)
    decreases |s|
  {
    if |s| > 1 {
      var t := s[..|s| - 1];
      assert Canonical(t);
      CanonicalBounds(t);
      if |t| == 1 {
        assert t[0] == s[0];
        assert Value(t) == DigitOf(t[0]) by {
          assert t[..0] == [];
        }
      }
    }
  }

  /** `len(strconv.Itoa(n))` is the number of decimal digits of n. */
  lemma DigitsLength(n: nat)
    ensures n < Pow10(|Digits(n)|)
    ensures |Digits(n)| > 1 ==> Pow10(|Digits(n)| - 1) <= n
  {
    CanonicalBounds(Digits(n));
  }

  /** Two non-negative numbers compare as their lengths, then their texts. */
  lemma DigitsMonotone(m: nat, n: nat)
    requires m <= n
    ensures |Digits(m)| <= |Digits(n)|
  {
    DigitsLength(m);
    DigitsLength(n);
  }

  lemma Pow10Monotone(i: nat, j: nat)
    requires i <= j
    ensures Pow10(i) <= Pow10(j)
    decreases j
  {
    if i < j {
      Pow10Monotone(i, j - 1);
    }
  }

  /** `Itoa` of a non-negative number has no minus sign. */
  lemma NoDash(n: nat)
    ensures '-' !in Itoa(n)
  {
    var s := Itoa(n);
    assert Canonical(s);
    forall k | 0 <= k < |s| ensures s[k] != '-' {
      assert IsDigit(s[k]);
    }
  }

  /** Without a minus sign, what `Atoi` reads (or 0) is not negative. */
  lemma AtoiUnsigned(s: string)
    requires '-' !in s
    ensures AtoiOrZero(s) >= 0
  {
  }

  /** A number below 10^k has at most k digits. */
  lemma DigitsBelow(n: nat, k: nat)
    requires n < Pow10(k) && k >= 1
    ensures |Digits(n)| <= k
  {
    DigitsLength(n);
    var j := if |Digits(n)| > k then |Digits(n)| - 1 else k;
    Pow10Monotone(k, j);
  }

  /** The numbers with exactly t digits are those from 10^(t-1) to 10^t - 1. */
  lemma DigitsExactly(c: nat, t: nat)
    requires t >= 1 && Pow10(t - 1) <= c < Pow10(t)
    ensures |Digits(c)| == t
  {
    DigitsBelow(c, t);
    DigitsLength(c);
    if |Digits(c)| < t {
      Pow10Monotone(|Digits(c)|, t - 1);
    }
  }

  /** A canonical text of a positive number does not start with `0`. */
  lemma LeadingDigit(v: nat)
    requires v >= 1
    ensures Digits(v)[0] != '0'
  {
    var d := Digits(v);
    if |d| == 1 {
      assert d[..0] == [];
    }
  }
}
