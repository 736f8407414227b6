/** Go's integer division and remainder. Go rounds the quotient toward
    zero, so the remainder takes the sign of the dividend; Dafny's `/` and
    `%` are Euclidean and never give a negative remainder. */
module GoInt {

  /** Go's `a / d` for a positive divisor. */
  function Quot(a: int, d: int): int
    requires d > 0
  {
    if a >= 0 then a / d else -((-a) / d)
  }

  /** Go's `a % d` for a positive divisor: smaller than d in size, and never
      of the opposite sign to a. */
  function Rem(a: int, d: int): (r: int)
    requires d > 0
    ensures -d < r < d
    ensures a >= 0 ==> r >= 0
    ensures a <= 0 ==> r <= 0
  {
    if a >= 0 then a % d else -((-a) % d)
  }

  /** `math.Abs` on an integer. */
  function Abs(x: int): (y: nat)
    ensures y == x || y == -x
  {
    if x < 0 then -x else x
  }

  /** Quotient and remainder put the dividend back together. */
  lemma QuotRem(a: int, d: int)
    requires d > 0
    ensures a == d * Quot(a, d) + Rem(a, d)
  {
    if a < 0 {
      var b := -a;
      assert b == d * (b / d) + b % d;
    }
  }

  /** A multiple of d strictly between -d and d is 0. */
  lemma SmallMultiple(d: int, k: int)
    requires d > 0 && -d < d * k < d
    ensures k == 0
  {
    var j := if k == 0 then 1 else k;
    AwayFromZero(d, j);
  }

  /** A non-zero multiple of d is at least d in size. */
  lemma AwayFromZero(d: int, k: int)
    requires d > 0 && k != 0
    ensures d * k >= d || d * k <= -d
  {
    if k >= 1 {
      ScaleLe(1, k, d);
    } else {
      ScaleLe(k, -1, d);
    }
  }

  lemma ScaleLe(x: int, y: int, d: nat)
    requires x <= y
    ensures d * x <= d * y
  {
  }

  /** Quot and Rem are the only pair with these properties: Go's division is
      fixed by the identity, the size of the remainder and its sign. */
  lemma QuotRemUnique(a: int, d: int, q: int, r: int)
    requires d > 0 && a == d * q + r && -d < r < d
    requires a > 0 ==> r >= 0
    requires a < 0 ==> r <= 0
    ensures q == Quot(a, d) && r == Rem(a, d)
  {
    var q', r' := Quot(a, d), Rem(a, d);
    QuotRem(a, d);
    assert d * (q' - q) == r - r' by {
      assert d * q' - d * q == d * (q' - q);
    }
    if a == 0 {
      SmallMultiple(d, q);
    }
    SmallMultiple(d, q' - q);
  }

  /** A Go remainder is 0 exactly when d divides the dividend, and it always
      lies in the same residue class as the dividend. */
  lemma RemResidue(a: int, d: int)
    requires d > 0
    ensures Rem(a, d) % d == a % d
    ensures Rem(a, d) == 0 <==> a % d == 0
  {
    QuotRem(a, d);
    var q := Quot(a, d);
    assert (d * q + Rem(a, d)) % d == Rem(a, d) % d by {
      ShiftResidue(Rem(a, d), d, q);
    }
  }

  /** Adding a multiple of d leaves the Euclidean residue alone. */
  lemma ShiftResidue(x: int, d: int, q: int)
    requires d > 0
    ensures (d * q + x) % d == x % d
  {
    var y := d * q + x;
    assert y == d * (q + x / d) + x % d by {
      assert x == d * (x / d) + x % d;
      assert d * q + d * (x / d) == d * (q + x / d);
    }
    EuclidUnique(y, d, q + x / d, x % d);
  }

  /** Dafny's `/` and `%` are fixed by the identity and 0 <= r < d. */
  lemma EuclidUnique(a: int, d: int, q: int, r: int)
    requires d > 0 && a == d * q + r && 0 <= r < d
    ensures a / d == q && a % d == r
  {
    var q', r' := a / d, a % d;
    assert d * (q - q') == r' - r by {
      assert d * q - d * q' == d * (q - q');
    }
    SmallMultiple(d, q - q');
  }
}
