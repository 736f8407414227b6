/** Day 2, part one: `reportInvalidIds`, which walks the numbers whose
    decimal text is one half written twice. */
module Day2Halves {
  import opened Wrappers
  import opened Decimal
  import opened Seqs
  import opened Day2Ids

  /** An invalid id: its decimal text is some digit string written twice. */
  predicate Invalid(id: int) {
    id >= 0 && var s := Digits(id); |s| % 2 == 0 && s[..|s| / 2] == s[|s| / 2..]
  }

  /** The text of v written twice, read as a number. */
  function Twice(v: nat): (t: nat)
    ensures t >= v
  {
    TwiceValue(v);
    MulMonotone(0, v, Pow10(|Digits(v)|));
    Value(Digits(v) + Digits(v))
  }

  /** Writing v twice shifts one copy up by the length of the other. */
  lemma TwiceValue(v: nat)
    ensures AllDigits(Digits(v) + Digits(v))
    ensures Value(Digits(v) + Digits(v)) == v * Pow10(|Digits(v)|) + v
  {
    ValueAppend(Digits(v), Digits(v));
  }

  /** `strconv.Atoi(s + s)` for s = `strconv.Itoa(x)`: a negative x puts a
      sign in the middle, which `Atoi` rejects. */
  lemma AtoiTwice(x: int)
    ensures AtoiOrZero(Itoa(x) + Itoa(x)) == if x >= 0 then Twice(x) else 0
  {
    var s := Itoa(x) + Itoa(x);
    if x < 0 {
      assert s[1..][|Itoa(x)| - 1] == '-';
    } else {
      AllDigitsAppend(Digits(x), Digits(x));
    }
  }

  /** The text of Twice(v) is the text of v twice. */
  lemma DigitsTwice(v: nat)
    requires v >= 1
    ensures Digits(Twice(v)) == Digits(v) + Digits(v)
  {
    var d := Digits(v);
    LeadingDigit(v);
    AllDigitsAppend(d, d);
    assert Canonical(d + d);
    DigitsValue(d + d);
  }

  /** The first half of an id's text, as a number. */
  function HalfOfId(id: nat): nat {
    var s := Digits(id);
    Value(s[..|s| / 2])
  }

  /** The invalid ids are exactly the numbers Twice(v) with v >= 1. */
  lemma InvalidIsTwice(id: int)
    requires Invalid(id)
    ensures HalfOfId(id) >= 1 && id == Twice(HalfOfId(id))
  {
    var s := Digits(id);
    var h := s[..|s| / 2];
    assert s == h + h;
    assert |s| >= 2;
    assert Canonical(h);
    DigitsValue(h);
  }

  lemma TwiceIsInvalid(v: nat)
    requires v >= 1
    ensures Invalid(Twice(v)) && HalfOfId(Twice(v)) == v
  {
    var d := Digits(v);
    var c := Digits(Twice(v));
    assert c == d + d by {
      DigitsTwice(v);
    }
    assert c[..|d|] == d && c[|d|..] == d;
  }

  lemma Pow10Add(a: nat, b: nat)
    ensures Pow10(a + b) == Pow10(a) * Pow10(b)
    decreases a
  {
    if a > 0 {
      Pow10Add(a - 1, b);
    }
  }

  lemma MulMonotone(x: int, y: int, z: nat)
    requires x <= y
    ensures x * z <= y * z
  {
  }

  lemma SquareStep(p: int)
    ensures (p - 1) * p + p == p * p
  {
  }

  lemma MulSucc(v: int, p: int)
    ensures (v + 1) * p == v * p + p
  {
  }

  /** v*p + v < hv*p + t when v < p and v < hv. */
  lemma TwiceBelowPrefix(v: nat, hv: nat, p: nat, t: nat)
    requires v < p && v < hv
    ensures v * p + v < hv * p + t
  {
    MulMonotone(v + 1, hv, p);
    MulSucc(v, p);
  }

  /** Twice(v) has exactly twice as many digits as v. */
  lemma TwiceBounds(v: nat)
    requires v >= 1
    ensures var a := |Digits(v)|; Pow10(2 * a - 1) <= Twice(v) < Pow10(2 * a)
  {
    var a := |Digits(v)|;
    var p := Pow10(a);
    var q := Pow10(a - 1);
    assert Twice(v) == v * p + v by {
      TwiceValue(v);
    }
    assert v < p && q <= v by {
      DigitsLength(v);
    }
    assert Pow10(2 * a) == p * p by {
      Pow10Add(a, a);
    }
    assert Pow10(2 * a - 1) == q * p by {
      Pow10Add(a - 1, a);
    }
    BelowSquare(v, p);
    MulMonotone(q, v, p);
  }

  /** v*p + v < p*p when v < p. */
  lemma BelowSquare(v: nat, p: nat)
    requires v < p
    ensures v * p + v < p * p
  {
    MulMonotone(v, p - 1, p);
    SquareStep(p);
  }

  /** A longer half gives a larger id; so does a larger half. */
  lemma TwiceMonotone(v: nat, w: nat)
    requires v < w
    ensures Twice(v) < Twice(w)
  {
    var a, b := |Digits(v)|, |Digits(w)|;
    DigitsMonotone(v, w);
    if a == b {
      TwiceValue(v);
      TwiceValue(w);
      MulMonotone(v, w, Pow10(a));
    } else if v == 0 {
      TwiceValue(0);
    } else {
      TwiceBounds(v);
      TwiceBounds(w);
      Pow10Monotone(2 * a, 2 * b - 1);
    }
  }

  /** Steps 1 and 2 of `reportInvalidIds` as written: the text of `lower`,
      with a `0` in front when its length is odd, cut in half. */
  function HalfAsWritten(lower: int): (h: string)
    ensures |h| >= 1
  {
    var c := Itoa(lower);
    var p := if |c| % 2 != 0 then "0" + c else c;
    p[..|p| / 2]
  }

  /** Steps 1 and 2 as the comment describes them: the first half of the
      first number at or above `lower` (and at or above 0) that has an even
      number of digits. */
  function HalfIntended(lower: int): (h: string)
    ensures Canonical(h)
  {
    if lower < 0 then Digits(1)
    else
      var c := Digits(lower);
      if |c| % 2 != 0 then Digits(Pow10(|c| / 2)) else c[..|c| / 2]
  }

  function Half(lower: int, intended: bool): string {
    if intended then HalfIntended(lower) else HalfAsWritten(lower)
  }

  /** `strconv.Atoi(halfCandidate)`. */
  function HalfValue(lower: int, intended: bool): int {
    AtoiOrZero(Half(lower, intended))
  }

  lemma IntendedHalfPositive(lower: int)
    ensures HalfValue(lower, true) == Value(HalfIntended(lower)) >= 1
  {
    var h := HalfIntended(lower);
    DigitsValue(h);
  }

  /** Once `lower` is the text of a positive half written twice, both rules
      take that half. */
  lemma HalfOfTwice(x: nat, intended: bool)
    requires x >= 1
    ensures Half(Twice(x), intended) == Digits(x)
    ensures HalfValue(Twice(x), intended) == x
  {
    var d := Digits(x);
    var c := Digits(Twice(x));
    assert c == d + d by {
      DigitsTwice(x);
    }
    assert c[..|c| / 2] == d by {
      assert (d + d)[..|d|] == d;
    }
    assert Itoa(Twice(x)) == c;
    assert Half(Twice(x), intended) == d;
    assert AtoiOrZero(d) == x by {
      AtoiItoa(x);
    }
  }

  /** Step 4 moves to the half one above, so the half's value grows at
      every pass and never passes the next candidate; the loop ends. */
  lemma HalfGrows(lower: int, intended: bool)
    ensures var x := HalfValue(lower, intended) + 1;
      var next := AtoiOrZero(Itoa(x) + Itoa(x));
      HalfValue(lower, intended) < HalfValue(next, intended) <= next
  {
    var x := HalfValue(lower, intended) + 1;
    AtoiTwice(x);
    if intended {
      IntendedHalfPositive(lower);
    }
    if x >= 1 {
      HalfOfTwice(x, intended);
      MulMonotone(0, x, Pow10(|Digits(x)|));
    } else {
      assert AtoiOrZero(Itoa(x) + Itoa(x)) == 0;
      assert Itoa(0) == Digits(0) == "0";
      assert HalfAsWritten(0) == "0";
      assert Atoi("0") == Some(0);
    }
  }

  function Left(r: IdRange, lower: int, intended: bool): nat {
    var h := HalfValue(lower, intended);
    if h <= r.upper then r.upper - h else 0
  }

  /** The loop of `reportInvalidIds` from `lower` on: the ids it adds to
      the sum, in order. Every one lies in the range. */
  function Scan(r: IdRange, lower: int, intended: bool): (ids: seq<int>)
    ensures forall id :: id in ids ==> Contains(r, id)
    decreases Left(r, lower, intended)
  {
    var half := Half(lower, intended);
    var candidate := AtoiOrZero(half + half);
    if candidate > r.upper then []
    else
      var found := if candidate >= r.lower then [candidate] else [];
      var next := AtoiOrZero(half) + 1;
      var nextCandidate := AtoiOrZero(Itoa(next) + Itoa(next));
      if nextCandidate > r.upper then found
      else
        HalfGrows(lower, intended);
        found + Scan(r, nextCandidate, intended)
  }

  /** A half shorter than `a` digits gives an id of fewer than 2a digits. */
  lemma TwiceShort(v: nat, a: nat)
    requires v >= 1 && v < Pow10(a)
    ensures Twice(v) < Pow10(2 * a)
  {
    var b := |Digits(v)|;
    DigitsLength(v);
    if b > a {
      Pow10Monotone(a, b - 1);
    }
    TwiceBounds(v);
    Pow10Monotone(2 * b, 2 * a);
  }

  /** For an odd number of digits, no half below 10^(L/2) reaches `lower`. */
  lemma FirstHalfOdd(lower: nat, v: nat)
    requires |Digits(lower)| % 2 != 0
    requires 1 <= v < Pow10(|Digits(lower)| / 2)
    ensures Twice(v) < lower
  {
    var n := |Digits(lower)|;
    TwiceShort(v, n / 2);
    DigitsLength(lower);
    assert 2 * (n / 2) == n - 1;
  }

  /** An even-length `lower` is its first half shifted up, plus the rest. */
  lemma SplitLower(lower: nat) returns (tv: nat)
    requires |Digits(lower)| % 2 == 0
    ensures var c := Digits(lower); var k := |c| / 2;
      && Value(c[..k]) < Pow10(k)
      && lower == Value(c[..k]) * Pow10(k) + tv
  {
    var c := Digits(lower);
    var k := |c| / 2;
    var h, t := c[..k], c[k..];
    assert c == h + t;
    ValueAppend(h, t);
    assert Canonical(h);
    DigitsValue(h);
    DigitsLength(Value(h));
    tv := Value(t);
  }

  /** For an even number of digits, no half below the first half of
      `lower` reaches `lower`. */
  lemma FirstHalfEven(lower: nat, v: nat)
    requires |Digits(lower)| % 2 == 0
    requires 1 <= v < Value(Digits(lower)[..|Digits(lower)| / 2])
    ensures Twice(v) < lower
  {
    var k := |Digits(lower)| / 2;
    var hv := Value(Digits(lower)[..k]);
    var tv := SplitLower(lower);
    if |Digits(v)| == k {
      assert Twice(v) == v * Pow10(k) + v by {
        TwiceValue(v);
      }
      TwiceBelowPrefix(v, hv, Pow10(k), tv);
    } else {
      ShorterHalf(lower, v, hv);
    }
  }

  lemma ShorterHalf(lower: nat, v: nat, hv: nat)
    requires |Digits(lower)| % 2 == 0
    requires 1 <= v < hv < Pow10(|Digits(lower)| / 2)
    requires |Digits(v)| != |Digits(lower)| / 2
    ensures Twice(v) < lower
  {
    var m := ShorterHalfBound(lower, v, hv);
    TwiceShort(v, m);
  }

  /** Such a half has at most k - 1 digits, for 2k digits in `lower`. */
  lemma ShorterHalfBound(lower: nat, v: nat, hv: nat) returns (m: nat)
    requires |Digits(lower)| % 2 == 0
    requires 1 <= v < hv < Pow10(|Digits(lower)| / 2)
    requires |Digits(v)| != |Digits(lower)| / 2
    ensures v < Pow10(m) && Pow10(2 * m) <= lower
  {
    var n := |Digits(lower)|;
    var k := n / 2;
    m := k - 1;
    assert |Digits(v)| <= m by {
      DigitsMonotone(v, hv);
      DigitsBelow(hv, k);
    }
    assert v < Pow10(m) by {
      DigitsLength(v);
      Pow10Monotone(|Digits(v)|, m);
    }
    assert Pow10(2 * m) <= lower by {
      DigitsLength(lower);
      Pow10Monotone(2 * m, n - 1);
    }
  }

  /** The intended first half is the least one whose id reaches `lower`. */
  lemma IntendedHalfFirst(lower: int, v: nat)
    requires v >= 1 && Twice(v) >= lower
    ensures v >= HalfValue(lower, true)
  {
    IntendedHalfPositive(lower);
    if lower >= 0 && v < HalfValue(lower, true) {
      var c := Digits(lower);
      if |c| % 2 != 0 {
        FirstHalfOdd(lower, v);
      } else {
        FirstHalfEven(lower, v);
      }
    }
  }

  /** An invalid id with a larger half than w is larger than Twice(w). */
  lemma AboveTwice(id: int, w: nat)
    requires Invalid(id) && HalfOfId(id) > w
    ensures id > Twice(w)
  {
    InvalidIsTwice(id);
    TwiceMonotone(w, HalfOfId(id));
  }

  /** The intended loop, on the values of the halves: from half v on,
      each id Twice(v) up to `r.upper`, kept when it reaches `r.lower`. */
  function HalfScan(r: IdRange, v: nat): seq<int>
    decreases r.upper - v
  {
    if Twice(v) > r.upper then []
    else
      var found := if Twice(v) >= r.lower then [Twice(v)] else [];
      if Twice(v + 1) > r.upper then found
      else
        MulMonotone(0, v + 1, Pow10(|Digits(v + 1)|));
        found + HalfScan(r, v + 1)
  }

  /** One pass of the intended loop, in terms of the half's value. */
  lemma ScanIntendedStep(r: IdRange, lower: int)
    ensures var hv := HalfValue(lower, true);
      Scan(r, lower, true) ==
        if Twice(hv) > r.upper then []
        else
          (if Twice(hv) >= r.lower then [Twice(hv)] else [])
          + (if Twice(hv + 1) > r.upper then [] else Scan(r, Twice(hv + 1), true))
  {
    var hv := HalfValue(lower, true);
    var half := Half(lower, true);
    IntendedHalfPositive(lower);
    DigitsValue(half);
    assert half == Itoa(hv);
    AtoiTwice(hv);
    AtoiTwice(hv + 1);
    assert AtoiOrZero(half + half) == Twice(hv);
    assert AtoiOrZero(half) + 1 == hv + 1;
  }

  /** Once the first half is fixed, the intended loop is the walk over
      the halves from there. */
  lemma {:induction false} ScanIsHalfScan(r: IdRange, lower: int)
    ensures Scan(r, lower, true) == HalfScan(r, HalfValue(lower, true))
    decreases Left(r, lower, true)
  {
    var hv := HalfValue(lower, true);
    ScanIntendedStep(r, lower);
    if Twice(hv) <= r.upper && Twice(hv + 1) <= r.upper {
      IntendedHalfPositive(lower);
      AtoiTwice(hv + 1);
      HalfGrows(lower, true);
      HalfOfTwice(hv + 1, true);
      ScanIsHalfScan(r, Twice(hv + 1));
    }
  }

  /** An invalid id whose half is at least v is at least Twice(v), and is
      Twice(v) when its half is v. */
  lemma InvalidAtLeast(id: int, v: nat)
    requires Invalid(id) && HalfOfId(id) >= v
    ensures id >= Twice(v)
    ensures HalfOfId(id) == v ==> id == Twice(v)
  {
    InvalidIsTwice(id);
    if HalfOfId(id) > v {
      AboveTwice(id, v);
    }
  }

  /** From half v >= 1 on, the walk yields only invalid ids of the range
      whose half is at least v. */
  lemma {:induction false} HalfScanSound(r: IdRange, v: nat)
    requires v >= 1
    ensures forall id :: id in HalfScan(r, v) ==> Invalid(id) && Contains(r, id) && HalfOfId(id) >= v
    decreases r.upper - v
  {
    TwiceIsInvalid(v);
    if Twice(v) <= r.upper && Twice(v + 1) <= r.upper {
      MulMonotone(0, v + 1, Pow10(|Digits(v + 1)|));
      HalfScanSound(r, v + 1);
      var found := if Twice(v) >= r.lower then [Twice(v)] else [];
      assert HalfScan(r, v) == found + HalfScan(r, v + 1);
    }
  }

  /** ... and every such id. */
  lemma {:induction false} HalfScanComplete(r: IdRange, v: nat, id: int)
    requires v >= 1
    requires Invalid(id) && Contains(r, id) && HalfOfId(id) >= v
    ensures id in HalfScan(r, v)
    decreases r.upper - v
  {
    InvalidAtLeast(id, v);
    var found := if Twice(v) >= r.lower then [Twice(v)] else [];
    if HalfOfId(id) == v {
      assert id in found;
    } else {
      InvalidAtLeast(id, v + 1);
      MulMonotone(0, v + 1, Pow10(|Digits(v + 1)|));
      HalfScanComplete(r, v + 1, id);
      assert HalfScan(r, v) == found + HalfScan(r, v + 1);
    }
  }

  /** The walk yields its ids in increasing order, each at least Twice(v). */
  lemma {:induction false} HalfScanIncreasing(r: IdRange, v: nat)
    ensures Increasing(HalfScan(r, v))
    ensures forall id :: id in HalfScan(r, v) ==> id >= Twice(v)
    decreases r.upper - v
  {
    if Twice(v) <= r.upper && Twice(v + 1) <= r.upper {
      MulMonotone(0, v + 1, Pow10(|Digits(v + 1)|));
      HalfScanIncreasing(r, v + 1);
      TwiceMonotone(v, v + 1);
      var rest := HalfScan(r, v + 1);
      if Twice(v) >= r.lower {
        IncreasingCons(Twice(v), rest);
      }
    }
  }

  /** With the intended first half, the loop adds every invalid id of the
      range, each once, and nothing else. */
  lemma IntendedIds(r: IdRange)
    ensures Increasing(Scan(r, r.lower, true))
    ensures forall id :: id in Scan(r, r.lower, true) <==> Invalid(id) && Contains(r, id)
  {
    var hv := HalfValue(r.lower, true);
    IntendedHalfPositive(r.lower);
    ScanIsHalfScan(r, r.lower);
    HalfScanSound(r, hv);
    HalfScanIncreasing(r, hv);
    forall id | Invalid(id) && Contains(r, id) ensures id in Scan(r, r.lower, true) {
      InvalidIsTwice(id);
      IntendedHalfFirst(r.lower, HalfOfId(id));
      HalfScanComplete(r, hv, id);
    }
  }

  lemma EvenTwice(x: nat)
    requires x >= 1
    ensures |Digits(Twice(x))| % 2 == 0
  {
    DigitsTwice(x);
  }

  /** With an even number of digits, the loop as written takes the
      intended half. */
  lemma AsWrittenStep(r: IdRange, lower: int)
    requires lower >= 0 && |Digits(lower)| % 2 == 0
    ensures var hv := HalfValue(lower, true);
      Scan(r, lower, false) ==
        if Twice(hv) > r.upper then []
        else
          (if Twice(hv) >= r.lower then [Twice(hv)] else [])
          + (if Twice(hv + 1) > r.upper then [] else Scan(r, Twice(hv + 1), false))
  {
    assert Half(lower, false) == Half(lower, true);
    var hv := HalfValue(lower, true);
    var half := Half(lower, true);
    IntendedHalfPositive(lower);
    DigitsValue(half);
    assert half == Itoa(hv);
    AtoiTwice(hv);
    AtoiTwice(hv + 1);
    assert AtoiOrZero(half + half) == Twice(hv);
  }

  /** When `lower` has an even number of digits the padding never
      happens, and the loop as written is the intended one. */
  lemma {:induction false} AsWrittenAgrees(r: IdRange, lower: int)
    requires lower >= 0 && |Digits(lower)| % 2 == 0
    ensures Scan(r, lower, false) == Scan(r, lower, true)
    decreases Left(r, lower, true)
  {
    var hv := HalfValue(lower, true);
    AsWrittenStep(r, lower);
    ScanIntendedStep(r, lower);
    var next := Twice(hv + 1);
    if Twice(hv) <= r.upper && next <= r.upper {
      assert HalfValue(next, true) == hv + 1 by {
        IntendedHalfPositive(lower);
        HalfOfTwice(hv + 1, true);
      }
      assert |Digits(next)| % 2 == 0 by {
        IntendedHalfPositive(lower);
        EvenTwice(hv + 1);
      }
      AsWrittenAgrees(r, next);
    }
  }

  /** `reportInvalidIds` as written: the sum of the ids its loop adds. */
  function ReportInvalidIds(r: IdRange): int {
    Sum(Scan(r, r.lower, false))
  }

  /** `reportInvalidIds` with steps 1 and 2 as the comment describes them. */
  function ReportInvalidIdsIntended(r: IdRange): int {
    Sum(Scan(r, r.lower, true))
  }

  /** The two agree whenever the lower bound has an even number of digits. */
  lemma EvenLowerAsIntended(r: IdRange)
    requires r.lower >= 0 && |Itoa(r.lower)| % 2 == 0
    ensures ReportInvalidIds(r) == ReportInvalidIdsIntended(r)
  {
    AsWrittenAgrees(r, r.lower);
  }

  /** No invalid id has three digits. */
  lemma NoThreeDigitInvalid(id: int)
    requires 100 <= id < 1000
    ensures !Invalid(id)
  {
    if Invalid(id) {
      InvalidIsTwice(id);
      var w := HalfOfId(id);
      TwiceBounds(w);
      var a := |Digits(w)|;
      if a > 1 {
        Pow10Monotone(3, 2 * a - 1);
      }
    }
  }

  /** The first pass from 100 pads "100" to "0100", whose halves give
      0101, which is 101, inside 100-200; the next half is 2. */
  lemma FirstPassFrom100()
    ensures Scan(IdRange(100, 200), 100, false) == [101] + Scan(IdRange(100, 200), 22, false)
  {
    assert Digits(100) == "100" by {
      assert Digits(1) == "1";
      assert Digits(10) == Digits(1) + "0";
    }
    assert HalfAsWritten(100) == "01";
    assert Value("0101") == 101 by {
      assert "0101"[..3] == "010" && "010"[..2] == "01" && "01"[..1] == "0";
    }
    assert AtoiOrZero("01") == 1 by {
      assert "01"[..1] == "0";
    }
    AtoiTwice(2);
    assert Twice(2) == 22;
    var half := Half(100, false);
    assert half == "01";
    assert half + half == "0101";
    assert AtoiOrZero(half + half) == 101;
    assert AtoiOrZero(half) + 1 == 2;
    assert AtoiOrZero(Itoa(2) + Itoa(2)) == 22;
  }

  /** No id of 100-200 is invalid, so every intended pass adds nothing. */
  lemma IntendedFindsNothing(lower: int)
    ensures Scan(IdRange(100, 200), lower, true) == []
  {
    var r := IdRange(100, 200);
    ScanIsHalfScan(r, lower);
    IntendedHalfPositive(lower);
    HalfScanSound(r, HalfValue(lower, true));
    var ids := Scan(r, lower, true);
    if ids != [] {
      assert ids[0] in ids;
      NoThreeDigitInvalid(ids[0]);
    }
  }

  /** From 22 on, the loop as written is the intended one and adds
      nothing to 100-200. */
  lemma AsWrittenFrom22()
    ensures Scan(IdRange(100, 200), 22, false) == []
  {
    assert Digits(22) == "22" by {
      assert Digits(2) == "2";
    }
    AsWrittenAgrees(IdRange(100, 200), 22);
    IntendedFindsNothing(22);
  }

  /** The loop as written, on the range 100-200, adds 101, whose text is no
      half written twice; the intended loop adds nothing. */
  lemma OddLowerCountsNonRepeat()
    ensures Scan(IdRange(100, 200), 100, false) == [101]
    ensures !Invalid(101)
    ensures ReportInvalidIds(IdRange(100, 200)) == 101
    ensures ReportInvalidIdsIntended(IdRange(100, 200)) == 0
  {
    var r := IdRange(100, 200);
    NoThreeDigitInvalid(101);
    FirstPassFrom100();
    AsWrittenFrom22();
    IntendedFindsNothing(100);
  }
}
