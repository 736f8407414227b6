/** Day 2, follow-up: `reportInvalidIdsForTargetChainLength`, which builds
    the ids whose decimal text is one chain of digits repeated, and
    `reportInvalidIdsAnyChainLength`, which gathers them over all chain
    lengths. */
module Day2Chains {
  import opened Decimal
  import opened Seqs
  import opened Text
  import opened Day2Ids
  import opened Day2Halves

  /** 1 + 10^t + 10^2t + ..., k terms: a chain c of t digits written k
      times reads as c * RepUnit(t, k). */
  function RepUnit(t: nat, k: nat): (u: nat)
    ensures k >= 1 ==> u >= 1
  {
    if k == 0 then 0 else Pow10(t * (k - 1)) + RepUnit(t, k - 1)
  }

  lemma Distribute(x: int, y: int, v: int, p: int, q: int, u: int)
    requires x == v * p + y && y == v * q && u == p + q
    ensures x == v * u
  {
  }

  lemma {:induction false} RepeatDigits(w: string, k: nat)
    requires AllDigits(w)
    ensures AllDigits(Repeat(w, k))
    decreases k
  {
    if k > 0 {
      RepeatDigits(w, k - 1);
      AllDigitsAppend(w, Repeat(w, k - 1));
    }
  }

  /** Repeating a digit string multiplies its value by a RepUnit. */
  lemma {:induction false} RepeatValue(w: string, k: nat)
    requires AllDigits(w)
    ensures AllDigits(Repeat(w, k))
    ensures Value(Repeat(w, k)) == Value(w) * RepUnit(|w|, k)
    decreases k
  {
    RepeatDigits(w, k);
    if k > 0 {
      var rest := Repeat(w, k - 1);
      RepeatDigits(w, k - 1);
      var v, x, y := Value(w), Value(Repeat(w, k)), Value(rest);
      var p := Pow10(|rest|);
      assert x == v * p + y by {
        ValueAppend(w, rest);
      }
      assert |rest| == |w| * (k - 1) by {
        RepeatLength(w, k - 1);
      }
      assert y == v * RepUnit(|w|, k - 1) by {
        RepeatValue(w, k - 1);
      }
      Distribute(x, y, v, p, RepUnit(|w|, k - 1), RepUnit(|w|, k));
    }
  }

  /** A chain of exactly t digits written k >= 1 times is the canonical text
      of c * RepUnit(t, k), and `Atoi` reads that number back. */
  lemma ChainText(c: nat, t: nat, k: nat)
    requires t >= 1 && k >= 1 && Pow10(t - 1) <= c < Pow10(t)
    ensures |Digits(c)| == t
    ensures Digits(c * RepUnit(t, k)) == Repeat(Digits(c), k)
    ensures AtoiOrZero(Repeat(Digits(c), k)) == c * RepUnit(t, k)
  {
    DigitsExactly(c, t);
    var w := Digits(c);
    var s := Repeat(w, k);
    RepeatValue(w, k);
    LeadingDigit(c);
    assert s[0] == w[0];
    DigitsValue(s);
  }

  /** The innermost loop of `reportInvalidIdsForTargetChainLength`: the
      chain written `reps` times is the next potential id; the loop stops
      once it passes the upper bound, keeps it when in range, and moves on
      to the next chain, stopping after `maxChain`. */
  function ChainScan(r: IdRange, reps: nat, chain: string, maxChain: int): seq<int>
    decreases maxChain - AtoiOrZero(chain)
  {
    var id := AtoiOrZero(Repeat(chain, reps));
    if id > r.upper then []
    else
      var c := AtoiOrZero(chain);
      (if Contains(r, id) then [id] else [])
      + if c >= maxChain then []
        else
          AtoiItoa(c + 1);
          ChainScan(r, reps, Itoa(c + 1), maxChain)
  }

  /** One pass of the chain loop on the text of a t-digit chain c. */
  lemma ChainStep(r: IdRange, t: nat, k: nat, c: nat, last: int)
    requires t >= 1 && k >= 1 && Pow10(t - 1) <= c < Pow10(t)
    ensures ChainScan(r, k, Digits(c), last) ==
      var id := c * RepUnit(t, k);
      if id > r.upper then []
      else
        (if Contains(r, id) then [id] else [])
        + if c >= last then [] else ChainScan(r, k, Digits(c + 1), last)
  {
    ChainText(c, t, k);
    assert AtoiOrZero(Digits(c)) == c by {
      AtoiItoa(c);
    }
    assert Itoa(c + 1) == Digits(c + 1);
  }

  /** id's text is its first t digits written k times. */
  predicate ChainOf(id: int, t: nat, k: nat) {
    id >= 0 && t >= 1 && var s := Digits(id); t <= |s| && s == Repeat(s[..t], k)
  }

  /** The chain of a positive id of that form: a number of exactly t digits
      which, times RepUnit(t, k), gives the id. */
  lemma ChainPrefix(id: int, t: nat, k: nat) returns (p: nat)
    requires ChainOf(id, t, k) && id >= 1
    ensures Pow10(t - 1) <= p < Pow10(t)
    ensures Digits(p) == Digits(id)[..t]
    ensures id == p * RepUnit(t, k)
  {
    var s := Digits(id);
    var w := s[..t];
    assert Canonical(w) && w[0] != '0' by {
      LeadingDigit(id);
      assert w[0] == s[0];
    }
    p := Value(w);
    assert Pow10(t - 1) <= p < Pow10(t) by {
      CanonicalBounds(w);
      if t == 1 {
        assert w[..0] == [];
      }
    }
    DigitsValue(w);
    assert Value(Repeat(w, k)) == p * RepUnit(t, k) by {
      RepeatValue(w, k);
    }
  }

  /** The chain loop on numbers: the ids c * u, c * u + u, ... up to the
      chain `last`, stopping past the upper bound. */
  function ChainRun(r: IdRange, u: nat, c: nat, last: int): seq<int>
    decreases last - c
  {
    if c * u > r.upper then []
    else (if Contains(r, c * u) then [c * u] else []) + if c >= last then [] else ChainRun(r, u, c + 1, last)
  }

  /** Written out and read back, the chain loop is the loop on numbers. */
  lemma {:induction false} ChainScanRun(r: IdRange, t: nat, k: nat, c: nat, last: int)
    requires t >= 1 && k >= 1 && Pow10(t - 1) <= c < Pow10(t) && last < Pow10(t)
    ensures ChainScan(r, k, Digits(c), last) == ChainRun(r, RepUnit(t, k), c, last)
    decreases last - c
  {
    ChainStep(r, t, k, c, last);
    if c < last && c * RepUnit(t, k) <= r.upper {
      ChainScanRun(r, t, k, c + 1, last);
    }
  }

  lemma {:induction false} ChainRunSound(r: IdRange, u: nat, c: nat, last: int, id: int) returns (p: nat)
    requires id in ChainRun(r, u, c, last)
    ensures c <= p && (p == c || p <= last) && id == p * u && Contains(r, id)
    decreases last - c
  {
    if id == c * u && Contains(r, id) {
      p := c;
    } else {
      p := ChainRunSound(r, u, c + 1, last, id);
    }
  }

  lemma {:induction false} ChainRunComplete(r: IdRange, u: nat, c: nat, last: int, p: nat)
    requires c <= p <= last && Contains(r, p * u)
    ensures p * u in ChainRun(r, u, c, last)
    decreases last - c
  {
    MulMonotone(c, p, u);
    if c < p {
      ChainRunComplete(r, u, c + 1, last, p);
    }
  }

  /** The chain loop from the first t-digit chain to the last yields the
      ids in range whose text is a t-digit chain written k times. */
  lemma ChainScanMembers(r: IdRange, t: nat, k: nat, id: int)
    requires t >= 1 && k >= 1
    ensures id in ChainScan(r, k, Digits(Pow10(t - 1)), Pow10(t) - 1)
        <==> Contains(r, id) && ChainOf(id, t, k) && id >= 1
  {
    var u := RepUnit(t, k);
    var first, last := Pow10(t - 1), Pow10(t) - 1;
    Pow10Monotone(t - 1, t);
    ChainScanRun(r, t, k, first, last);
    if id in ChainRun(r, u, first, last) {
      var p := ChainRunSound(r, u, first, last, id);
      ChainText(p, t, k);
      MulMonotone(1, p, u);
      assert Digits(id)[..t] == Digits(p);
    }
    if Contains(r, id) && ChainOf(id, t, k) && id >= 1 {
      var p := ChainPrefix(id, t, k);
      ChainRunComplete(r, u, first, last, p);
    }
  }

  /** The first chain of t digits, `1` and then t - 1 zeros. */
  function FirstChain(t: nat): string
    requires t >= 1
  {
    "1" + Repeat("0", t - 1)
  }

  /** The last chain of t digits, t nines. */
  function MaxChain(t: nat): string {
    Repeat("9", t)
  }

  /** A run of zeros reads as 0. */
  lemma {:induction false} ZerosValue(k: nat)
    ensures |Repeat("0", k)| == k
    ensures AllDigits(Repeat("0", k)) && Value(Repeat("0", k)) == 0
    decreases k
  {
    if k > 0 {
      ZerosValue(k - 1);
      var z := Repeat("0", k - 1);
      assert Repeat("0", k) == z + ['0'] by {
        RepeatAdd("0", k - 1, 1);
      }
      ValueSnoc(z, '0');
    }
  }

  /** A one followed by k zeros is the canonical text of 10^k. */
  lemma OneThenZeros(k: nat)
    ensures Canonical("1" + Repeat("0", k))
    ensures AllDigits("1" + Repeat("0", k)) && Value("1" + Repeat("0", k)) == Pow10(k)
  {
    var z := Repeat("0", k);
    ZerosValue(k);
    assert AllDigits("1") && Value("1") == 1 by {
      assert "1"[..0] == [];
    }
    ValueAppend("1", z);
    assert ("1" + z)[0] == '1';
  }

  /** The first chain is the text of 10^(t-1). */
  lemma FirstChainText(t: nat)
    requires t >= 1
    ensures FirstChain(t) == Digits(Pow10(t - 1))
  {
    OneThenZeros(t - 1);
    DigitsValue(FirstChain(t));
  }

  lemma {:induction false} NinesValue(t: nat)
    ensures 9 * RepUnit(1, t) == Pow10(t) - 1
    decreases t
  {
    if t > 0 {
      NinesValue(t - 1);
      assert RepUnit(1, t) == Pow10(t - 1) + RepUnit(1, t - 1);
    }
  }

  /** The last chain reads as 10^t - 1. */
  lemma MaxChainValue(t: nat)
    requires t >= 1
    ensures AtoiOrZero(MaxChain(t)) == Pow10(t) - 1
  {
    assert AllDigits("9") && Value("9") == 9 by {
      assert "9"[..0] == [];
    }
    RepeatValue("9", t);
    NinesValue(t);
  }

  /** The loop over id lengths, from `len` up to the length of the upper
      bound. */
  function LengthScan(r: IdRange, t: nat, len: nat, intended: bool): seq<int>
    decreases |Itoa(r.upper)| + 1 - len
  {
    if len > |Itoa(r.upper)| then []
    else LengthPass(r, t, len, intended) + LengthScan(r, t, len + 1, intended)
  }

  /** Whatever the loop over lengths finds, one of its passes found. */
  lemma {:induction false} LengthScanFrom(r: IdRange, t: nat, len: nat, intended: bool, id: int) returns (n: nat)
    requires id in LengthScan(r, t, len, intended)
    ensures len <= n <= |Itoa(r.upper)| && id in LengthPass(r, t, n, intended)
    decreases |Itoa(r.upper)| + 1 - len
  {
    if id in LengthPass(r, t, len, intended) {
      n := len;
    } else {
      n := LengthScanFrom(r, t, len + 1, intended, id);
    }
  }

  /** Every pass from `len` to the length of the upper bound is made. */
  lemma {:induction false} LengthScanReaches(r: IdRange, t: nat, len: nat, intended: bool, id: int, n: nat)
    requires len <= n <= |Itoa(r.upper)| && id in LengthPass(r, t, n, intended)
    ensures id in LengthScan(r, t, len, intended)
    decreases n - len
  {
    if len < n {
      LengthScanReaches(r, t, len + 1, intended, id, n);
    }
  }

  /** One pass of the loop over lengths: a length the chain length t
      divides is searched with len / t repetitions of every t-digit chain.
      `intended` also skips lengths that would hold the chain only once. */
  function LengthPass(r: IdRange, t: nat, len: nat, intended: bool): seq<int> {
    if t >= 1 && len % t == 0 && (intended ==> len / t >= 2)
    then ChainScan(r, len / t, FirstChain(t), AtoiOrZero(MaxChain(t)))
    else []
  }

  function Max(a: int, b: int): int {
    if a >= b then a else b
  }

  /** `reportInvalidIdsForTargetChainLength`: nothing unless the upper
      bound has room for two chains of length t; otherwise the id lengths
      from that of the lower bound (at least 2) on. */
  function ForTarget(r: IdRange, t: nat, intended: bool): seq<int> {
    if |Itoa(r.upper)| >= t * 2 then LengthScan(r, t, Max(|Itoa(r.lower)|, 2), intended) else []
  }

  lemma DivExact(t: nat, k: nat)
    requires t >= 1
    ensures (t * k) % t == 0 && (t * k) / t == k
  {
    var q, m := (t * k) / t, (t * k) % t;
    assert t * k == q * t + m && 0 <= m < t;
    if q < k {
      MulMonotone(q + 1, k, t);
      MulSucc(q, t);
    } else if q > k {
      MulMonotone(k + 1, q, t);
      MulSucc(k, t);
    }
  }

  /** A t-digit chain written k times is t * k digits long. */
  lemma ChainOfLength(id: int, t: nat, k: nat)
    requires ChainOf(id, t, k)
    ensures |Digits(id)| == t * k
  {
    var s := Digits(id);
    RepeatLength(s[..t], k);
  }

  /** What the loop over lengths from `len` keeps: positive ids of at least
      `len` digits, a multiple of t, made of one t-digit chain repeated. */
  predicate Counted(id: int, t: nat, len: nat, intended: bool) {
    id >= 1 && t >= 1 && var n := |Digits(id)|;
    len <= n && n % t == 0 && (intended ==> n / t >= 2) && ChainOf(id, t, n / t)
  }

  /** The chain loop for one id length keeps the ids of exactly that
      length whose text is a t-digit chain repeated. */
  lemma LengthMembers(r: IdRange, t: nat, len: nat, id: int)
    requires t >= 1 && len >= 1 && len % t == 0
    ensures id in ChainScan(r, len / t, FirstChain(t), AtoiOrZero(MaxChain(t)))
        <==> Contains(r, id) && id >= 1 && |Digits(id)| == len && ChainOf(id, t, len / t)
  {
    var k := len / t;
    assert len == t * k && k >= 1 by {
      assert len == k * t;
      if k <= 0 {
        MulMonotone(k, 0, t);
      }
    }
    FirstChainText(t);
    MaxChainValue(t);
    ChainScanMembers(r, t, k, id);
    if ChainOf(id, t, k) {
      ChainOfLength(id, t, k);
    }
  }

  /** The loop over lengths from `len` keeps exactly the ids in range that
      are Counted from `len`. */
  lemma LengthScanMembers(r: IdRange, t: nat, len: nat, intended: bool, id: int)
    requires t >= 1 && len >= 1
    ensures id in LengthScan(r, t, len, intended) <==> Contains(r, id) && Counted(id, t, len, intended)
  {
    if id in LengthScan(r, t, len, intended) {
      var n := LengthScanFrom(r, t, len, intended, id);
      LengthMembers(r, t, n, id);
    }
    if Contains(r, id) && Counted(id, t, len, intended) {
      var n := |Digits(id)|;
      LengthMembers(r, t, n, id);
      DigitsMonotone(id, r.upper);
      LengthScanReaches(r, t, len, intended, id, n);
    }
  }

  /** What `reportInvalidIdsForTargetChainLength` keeps: the ids in range
      that are Counted from the length of the lower bound (at least 2),
      provided the upper bound has room for two chains. */
  lemma ForTargetMembers(r: IdRange, t: nat, intended: bool, id: int)
    requires t >= 1
    ensures id in ForTarget(r, t, intended)
        <==> |Itoa(r.upper)| >= t * 2 && Contains(r, id) && Counted(id, t, Max(|Itoa(r.lower)|, 2), intended)
  {
    LengthScanMembers(r, t, Max(|Itoa(r.lower)|, 2), intended, id);
  }

  /** The follow-up's invalid ids: the text is a chain of t digits written
      at least twice. */
  predicate Repeated(id: int, t: nat) {
    t >= 1 && id >= 0 && var n := |Digits(id)|;
    n % t == 0 && n / t >= 2 && ChainOf(id, t, n / t)
  }

  /** A repeated id has at least two chains' worth of digits. */
  lemma RepeatedLong(id: int, t: nat)
    requires Repeated(id, t)
    ensures |Digits(id)| >= 2 * t && id >= 1
  {
    var n := |Digits(id)|;
    var k := n / t;
    assert n == k * t;
    MulMonotone(2, k, t);
    DigitsLength(id);
  }

  /** A repeated id in range passes every test of the corrected search. */
  lemma RepeatedIsCounted(r: IdRange, t: nat, id: int)
    requires r.lower >= 0 && Contains(r, id) && Repeated(id, t)
    ensures |Itoa(r.upper)| >= t * 2 && Counted(id, t, Max(|Itoa(r.lower)|, 2), true)
  {
    RepeatedLong(id, t);
    DigitsMonotone(r.lower, id);
    DigitsMonotone(id, r.upper);
  }

  /** With a non-negative lower bound, the corrected search for chain
      length t finds exactly the ids in range made of a t-digit chain
      repeated. */
  lemma ForTargetIntended(r: IdRange, t: nat, id: int)
    requires t >= 1 && r.lower >= 0
    ensures id in ForTarget(r, t, true) <==> Contains(r, id) && Repeated(id, t)
  {
    ForTargetMembers(r, t, true, id);
    if Contains(r, id) && Repeated(id, t) {
      RepeatedIsCounted(r, t, id);
    }
  }

  /** An id the search as written keeps, but that is not repeated, is a
      lone chain: its length is the chain length. */
  lemma CountedOnce(id: int, t: nat, len: nat)
    requires len >= 2 && Counted(id, t, len, false) && !Repeated(id, t)
    ensures |Digits(id)| == t && t >= 2
  {
    var n := |Digits(id)|;
    var k := n / t;
    assert k == 1 && n == k * t;
  }

  /** A t-digit id in range, t >= 2, passes the tests of the search as
      written. */
  lemma OnceIsCounted(r: IdRange, t: nat, id: int)
    requires r.lower >= 0 && Contains(r, id) && t >= 2 && |Digits(id)| == t
    ensures Counted(id, t, Max(|Itoa(r.lower)|, 2), false)
  {
    var s := Digits(id);
    assert s == Repeat(s[..t], 1);
    assert t % t == 0 && t / t == 1;
    DigitsMonotone(r.lower, id);
    DigitsLength(id);
  }

  /** As written, the search for chain length t also keeps every t-digit
      id in range, the chain "repeated" once, whenever the upper bound has
      at least 2t digits. */
  lemma ForTargetAsWritten(r: IdRange, t: nat, id: int)
    requires t >= 1 && r.lower >= 0
    ensures id in ForTarget(r, t, false)
        <==> Contains(r, id) && (Repeated(id, t) || (t >= 2 && |Digits(id)| == t && |Itoa(r.upper)| >= t * 2))
  {
    ForTargetMembers(r, t, false, id);
    if Contains(r, id) && Repeated(id, t) {
      RepeatedIsCounted(r, t, id);
    }
    if Contains(r, id) && t >= 2 && |Digits(id)| == t {
      OnceIsCounted(r, t, id);
    }
    if id in ForTarget(r, t, false) && !Repeated(id, t) {
      CountedOnce(id, t, Max(|Itoa(r.lower)|, 2));
    }
  }

  /** The searches for chain lengths 1 to half the length of the upper
      bound, one after the other. */
  function Gathered(r: IdRange, intended: bool): seq<int> {
    GatherFrom(r, 1, intended)
  }

  /** The searches for chain lengths t to half the length of the upper
      bound. */
  function GatherFrom(r: IdRange, t: nat, intended: bool): seq<int>
    decreases |Itoa(r.upper)| / 2 + 1 - t
  {
    if t > |Itoa(r.upper)| / 2 then [] else ForTarget(r, t, intended) + GatherFrom(r, t + 1, intended)
  }

  /** `reportInvalidIdsAnyChainLength`: the sum of the distinct ids the
      searches found. */
  function AnyChainLength(r: IdRange, intended: bool): int {
    Sum(Dedup(Gathered(r, intended)))
  }

  /** An id the searches from chain length t on found was found by the one
      for some chain length from t to half the length of the upper bound. */
  lemma {:induction false} GatherFromFrom(r: IdRange, t: nat, intended: bool, id: int) returns (n: nat)
    requires id in GatherFrom(r, t, intended)
    ensures t <= n <= |Itoa(r.upper)| / 2 && id in ForTarget(r, n, intended)
    decreases |Itoa(r.upper)| / 2 + 1 - t
  {
    if id in ForTarget(r, t, intended) {
      n := t;
    } else {
      n := GatherFromFrom(r, t + 1, intended, id);
    }
  }

  /** Every search from chain length t on takes part. */
  lemma {:induction false} GatherFromReaches(r: IdRange, t: nat, intended: bool, id: int, n: nat)
    requires t <= n <= |Itoa(r.upper)| / 2 && id in ForTarget(r, n, intended)
    ensures id in GatherFrom(r, t, intended)
    decreases n - t
  {
    if t < n {
      GatherFromReaches(r, t + 1, intended, id, n);
    }
  }

  /** An id the searches found was found by the one for some chain length
      from 1 to half the length of the upper bound. */
  lemma GatheredFrom(r: IdRange, intended: bool, id: int) returns (t: nat)
    requires id in Gathered(r, intended)
    ensures 1 <= t <= |Itoa(r.upper)| / 2 && id in ForTarget(r, t, intended)
  {
    t := GatherFromFrom(r, 1, intended, id);
  }

  /** Every one of those searches takes part. */
  lemma GatheredReaches(r: IdRange, intended: bool, id: int, t: nat)
    requires 1 <= t <= |Itoa(r.upper)| / 2 && id in ForTarget(r, t, intended)
    ensures id in Gathered(r, intended)
  {
    GatherFromReaches(r, 1, intended, id, t);
  }

  /** The follow-up's invalid ids: some chain written at least twice. */
  predicate RepeatedId(id: int) {
    id >= 0 && exists t :: 1 <= t <= |Digits(id)| / 2 && Repeated(id, t)
  }

  /** With a non-negative lower bound, the corrected searches together find
      exactly the ids in range made of a chain repeated. */
  lemma GatheredIntended(r: IdRange, id: int)
    requires r.lower >= 0
    ensures id in Gathered(r, true) <==> Contains(r, id) && RepeatedId(id)
  {
    if id in Gathered(r, true) {
      var t := GatheredFrom(r, true, id);
      ForTargetIntended(r, t, id);
      RepeatedLong(id, t);
    }
    if Contains(r, id) && RepeatedId(id) {
      var t :| 1 <= t <= |Digits(id)| / 2 && Repeated(id, t);
      RepeatedIsCounted(r, t, id);
      ForTargetIntended(r, t, id);
      GatheredReaches(r, true, id, t);
    }
  }

  /** Go ranges over the set of found ids in no fixed order; every order
      gives the same sum. */
  lemma AnyChainLengthOrderFree(r: IdRange, intended: bool, order: seq<int>)
    requires Distinct(order) && forall id :: id in order <==> id in Gathered(r, intended)
    ensures AnyChainLength(r, intended) == Sum(order)
  {
    var d := Dedup(Gathered(r, intended));
    assert Elements(d) == Elements(Gathered(r, intended));
    assert Elements(d) == Elements(order) by {
      assert forall x :: x in Elements(d) <==> x in order;
    }
    SumOrderFree(d, order);
  }

  /** The corrected follow-up for one range is the sum of the ids in it
      made of a chain repeated, each counted once. */
  lemma AnyChainLengthIntended(r: IdRange, order: seq<int>)
    requires r.lower >= 0
    requires Distinct(order) && forall id :: id in order <==> Contains(r, id) && RepeatedId(id)
    ensures AnyChainLength(r, true) == Sum(order)
  {
    forall id ensures id in order <==> id in Gathered(r, true) {
      GatheredIntended(r, id);
    }
    AnyChainLengthOrderFree(r, true, order);
  }

  /** As written, the follow-up over 10-1000 keeps 10, whose text is no
      chain repeated; the corrected search does not. */
  lemma AsWrittenKeepsTen()
    ensures 10 in Gathered(IdRange(10, 1000), false)
    ensures !RepeatedId(10)
    ensures 10 !in Gathered(IdRange(10, 1000), true)
  {
    TenFoundAsWritten();
    TenNotRepeated();
    GatheredIntended(IdRange(10, 1000), 10);
  }

  lemma TenFoundAsWritten()
    ensures 10 in Gathered(IdRange(10, 1000), false)
  {
    var r := IdRange(10, 1000);
    assert |Itoa(1000)| == 4 by {
      assert Pow10(3) == 1000 && Pow10(4) == 10000;
      DigitsExactly(1000, 4);
    }
    assert Digits(10) == "10";
    ForTargetAsWritten(r, 2, 10);
    GatheredReaches(r, false, 10, 2);
  }

  /** 10 is not 1 written twice. */
  lemma TenNotRepeated()
    ensures !RepeatedId(10)
  {
    assert Digits(10) == "10";
    assert Repeat("1", 2) == "11";
  }

  /** Part one's invalid ids are the follow-up's ids of exactly two chains. */
  lemma InvalidIsTwoChains(id: int)
    ensures Invalid(id) <==> id >= 0 && |Digits(id)| % 2 == 0 && Repeated(id, |Digits(id)| / 2)
  {
    if id >= 0 && |Digits(id)| % 2 == 0 {
      var s := Digits(id);
      var t := |s| / 2;
      assert |s| == t * 2 && t >= 1;
      DivExact(t, 2);
      var h := s[..t];
      assert Repeat(h, 2) == h + h by {
        assert Repeat(h, 1) == h + "";
      }
      assert s == h + s[t..];
      assert s == h + h <==> s[t..] == h;
    }
  }
}
