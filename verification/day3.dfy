/** Day 3: banks of batteries, one digit each; a bank's joltage is the
    largest two-digit number made of two of its batteries in order. */
module Day3 {
  import opened Decimal
  import opened Seqs

  newtype Byte = x: int | 0 <= x < 256

  /** `parseBatteryBank`: every byte less the code of `0`. */
  function ParseBatteryBank(text: seq<Byte>): (bank: seq<int>)
    ensures |bank| == |text|
    ensures forall i :: 0 <= i < |text| ==> bank[i] + 48 == text[i] as int
    ensures DigitBank(bank) <==> forall i :: 0 <= i < |text| ==> 48 <= text[i] <= 57
  {
    seq(|text|, i requires 0 <= i < |text| => text[i] as int - 48)
  }

  predicate DigitBank(bank: seq<int>) {
    forall i :: 0 <= i < |bank| ==> 0 <= bank[i] <= 9
  }

  /** `maxTens` and `maxUnits` of `reportMaxBankJoltageTwoBatteries`. */
  datatype Picks = Picks(tens: int, units: int)

  /** The two picks after the loop has seen the first k batteries: a
      battery that beats the tens and is not the last becomes the tens and
      clears the units; otherwise it may raise the units. */
  function Pick(bank: seq<int>, k: nat): Picks
    requires k <= |bank|
  {
    if k == 0 then Picks(-1, -1)
    else
      var p := Pick(bank, k - 1);
      var b := bank[k - 1];
      if b > p.tens && k - 1 < |bank| - 1 then Picks(b, -1)
      else if b > p.units then Picks(p.tens, b)
      else p
  }

  /** `reportMaxBankJoltageTwoBatteries`: the two picks printed one after
      the other and read back as a number, 0 when that text is none. */
  function MaxBankJoltage(bank: seq<int>): int {
    var p := Pick(bank, |bank|);
    AtoiOrZero(Itoa(p.tens) + Itoa(p.units))
  }

  /** v is the largest 10 * bank[i] + bank[j] with i before j. */
  ghost predicate IsBest(bank: seq<int>, v: int) {
    && (exists i, j :: 0 <= i < j < |bank| && v == 10 * bank[i] + bank[j])
    && (forall i, j :: 0 <= i < j < |bank| ==> 10 * bank[i] + bank[j] <= v)
  }

  /** There is only one best value. */
  lemma BestUnique(bank: seq<int>, v: int, w: int)
    requires IsBest(bank, v) && IsBest(bank, w)
    ensures v == w
  {
    var i, j :| 0 <= i < j < |bank| && v == 10 * bank[i] + bank[j];
    var i', j' :| 0 <= i' < j' < |bank| && w == 10 * bank[i'] + bank[j'];
  }

  /** After k >= 1 batteries of a bank of at least two digits: the tens is
      the largest of the batteries that may be tens (all but the last),
      taken at its first position t, and the units is the largest battery
      seen after t, or -1 when there is none yet. */
  lemma {:induction false} PickScan(bank: seq<int>, k: nat) returns (t: nat, u: int)
    requires DigitBank(bank) && |bank| >= 2 && 1 <= k <= |bank|
    ensures var p := Pick(bank, k); var m := if k < |bank| - 1 then k else |bank| - 1;
      && t < m && p.tens == bank[t]
      && (forall i :: 0 <= i < m ==> bank[i] <= p.tens)
      && (forall i :: 0 <= i < t ==> bank[i] < p.tens)
      && ((t + 1 == k && p.units == -1) || (t < u < k && bank[u] == p.units))
      && (forall j :: t < j < k ==> bank[j] <= p.units)
    decreases k
  {
    if k == 1 {
      t, u := 0, -1;
    } else {
      var t0, u0 := PickScan(bank, k - 1);
      var p := Pick(bank, k - 1);
      var b := bank[k - 1];
      if b > p.tens && k - 1 < |bank| - 1 {
        t, u := k - 1, -1;
      } else if b > p.units {
        t, u := t0, k - 1;
      } else {
        t, u := t0, u0;
      }
    }
  }

  /** Two digits printed one after the other read back as a two-digit
      number. */
  lemma TwoDigitText(a: int, b: int)
    requires 0 <= a <= 9 && 0 <= b <= 9
    ensures AtoiOrZero(Itoa(a) + Itoa(b)) == 10 * a + b
  {
    var s := Itoa(a) + Itoa(b);
    assert s == [CharOf(a), CharOf(b)];
    assert s[..1] == [CharOf(a)] && s[..1][..0] == [];
  }

  /** For a bank of at least two digits the joltage is the best pair, a
      number from 0 to 99. */
  lemma MaxBankJoltageBest(bank: seq<int>)
    requires DigitBank(bank) && |bank| >= 2
    ensures IsBest(bank, MaxBankJoltage(bank))
    ensures 0 <= MaxBankJoltage(bank) <= 99
  {
    var n := |bank|;
    var p := Pick(bank, n);
    var t, u := PickScan(bank, n);
    TwoDigitText(p.tens, p.units);
    var v := 10 * p.tens + p.units;
    assert v == 10 * bank[t] + bank[u];
    forall i, j | 0 <= i < j < n ensures 10 * bank[i] + bank[j] <= v {
      if bank[i] == p.tens {
        assert bank[j] <= p.units;
      }
    }
  }

  /** A bank of one battery d prints as -1 followed by d; an empty bank
      prints as -1-1, which is no number. */
  lemma MaxBankJoltageShort(bank: seq<int>)
    requires |bank| <= 1 && DigitBank(bank)
    ensures |bank| == 0 ==> MaxBankJoltage(bank) == 0
    ensures |bank| == 1 ==> MaxBankJoltage(bank) == -10 - bank[0]
  {
    assert Itoa(-1) == "-1" by {
      assert Digits(1) == "1";
    }
    if |bank| == 0 {
      var s := Itoa(-1) + Itoa(-1);
      assert s[1..][1] == '-';
    } else {
      var d := bank[0];
      assert Pick(bank, 1) == Picks(-1, d);
      assert Itoa(d) == [CharOf(d)];
      var s := Itoa(-1) + Itoa(d);
      assert s == ['-', '1', CharOf(d)];
      assert s[1..] == ['1', CharOf(d)];
      assert Value(['1', CharOf(d)]) == 10 + d by {
        assert ['1', CharOf(d)][..1] == ['1'] && ['1'][..0] == [];
      }
    }
  }

  /** `readBatteryBanks`: one bank per line. */
  function ReadBatteryBanks(lines: seq<seq<Byte>>): (banks: seq<seq<int>>)
    ensures |banks| == |lines|
    ensures forall i :: 0 <= i < |lines| ==> banks[i] == ParseBatteryBank(lines[i])
  {
    seq(|lines|, i requires 0 <= i < |lines| => ParseBatteryBank(lines[i]))
  }

  /** The sum of the banks' joltages, as the receiving loop adds them. */
  function TotalJoltage(banks: seq<seq<int>>): int {
    if banks == [] then 0 else MaxBankJoltage(banks[0]) + TotalJoltage(banks[1..])
  }

  /** `day3Run`. */
  function Day3Run(lines: seq<seq<Byte>>): int {
    TotalJoltage(ReadBatteryBanks(lines))
  }

  /** With every bank of at least two digits, the answer is the sum of the
      banks' best pairs. */
  lemma {:induction false} TotalJoltageBest(banks: seq<seq<int>>, best: seq<int>)
    requires |best| == |banks|
    requires forall i :: 0 <= i < |banks| ==> DigitBank(banks[i]) && |banks[i]| >= 2 && IsBest(banks[i], best[i])
    ensures TotalJoltage(banks) == Sum(best)
    decreases |banks|
  {
    if banks != [] {
      MaxBankJoltageBest(banks[0]);
      BestUnique(banks[0], MaxBankJoltage(banks[0]), best[0]);
      TotalJoltageBest(banks[1..], best[1..]);
    }
  }

  lemma Day3RunBest(lines: seq<seq<Byte>>, best: seq<int>)
    requires |best| == |lines|
    requires forall i :: 0 <= i < |lines| ==> |lines[i]| >= 2 && forall k :: 0 <= k < |lines[i]| ==> 48 <= lines[i][k] <= 57
    requires forall i :: 0 <= i < |lines| ==> IsBest(ParseBatteryBank(lines[i]), best[i])
    ensures Day3Run(lines) == Sum(best)
  {
    TotalJoltageBest(ReadBatteryBanks(lines), best);
  }
}
