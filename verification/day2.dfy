/** Day 2, the command: every range is searched by its own goroutine and
    the totals they send back are added up. */
module Day2 {
  import opened Wrappers
  import opened Seqs
  import opened Text
  import opened Decimal
  import opened Day2Ids
  import opened Day2Halves
  import opened Day2Chains

  /** What one goroutine sends back for a range: part one's sum, or with
      the follow-up flag the sum over any chain length. `intended` picks
      the corrected searches instead of the ones as written. */
  function RangeTotal(r: IdRange, followUp: bool, intended: bool): int {
    if followUp then AnyChainLength(r, intended)
    else if intended then ReportInvalidIdsIntended(r)
    else ReportInvalidIds(r)
  }

  /** The receiving loop: the totals of all ranges added up. */
  function Total(ranges: seq<IdRange>, followUp: bool, intended: bool): int {
    if ranges == [] then 0 else RangeTotal(ranges[0], followUp, intended) + Total(ranges[1..], followUp, intended)
  }

  /** `runDay2`: the sum over all ranges of the input; the run stops at the
      first piece that is not a range. */
  function RunDay2(lines: seq<string>, followUp: bool, intended: bool): (answer: Result<int>)
    ensures answer.Ok? <==> forall j :: 0 <= j < |Pieces(lines)| ==> Occurrences(Pieces(lines)[j], '-') == 1
  {
    match ReadIdRanges(lines)
    case Fail(e) => Fail(e)
    case Ok(ranges) => Ok(Total(ranges, followUp, intended))
  }

  /** The ids a puzzle part calls invalid: one half written twice, or with
      the follow-up any chain written at least twice. */
  predicate InvalidFor(id: int, followUp: bool) {
    if followUp then RepeatedId(id) else Invalid(id)
  }

  /** `order` lists every invalid id of the range once. */
  ghost predicate Enumerates(order: seq<int>, r: IdRange, followUp: bool) {
    Distinct(order) && forall id :: id in order <==> Contains(r, id) && InvalidFor(id, followUp)
  }

  /** The sums of the lists, added up. */
  function SumAll(orders: seq<seq<int>>): int {
    if orders == [] then 0 else Sum(orders[0]) + SumAll(orders[1..])
  }

  /** With a non-negative lower bound, the corrected search of a range sums
      each of its invalid ids once. */
  lemma RangeTotalIntended(r: IdRange, followUp: bool, order: seq<int>)
    requires r.lower >= 0 && Enumerates(order, r, followUp)
    ensures RangeTotal(r, followUp, true) == Sum(order)
  {
    if followUp {
      AnyChainLengthIntended(r, order);
    } else {
      var found := Scan(r, r.lower, true);
      IntendedIds(r);
      assert Distinct(found);
      assert Elements(found) == Elements(order) by {
        assert forall x :: x in found <==> x in order;
      }
      SumOrderFree(found, order);
    }
  }

  lemma {:induction false} TotalIntended(ranges: seq<IdRange>, followUp: bool, orders: seq<seq<int>>)
    requires |orders| == |ranges|
    requires forall i :: 0 <= i < |ranges| ==> ranges[i].lower >= 0 && Enumerates(orders[i], ranges[i], followUp)
    ensures Total(ranges, followUp, true) == SumAll(orders)
    decreases |ranges|
  {
    if ranges != [] {
      RangeTotalIntended(ranges[0], followUp, orders[0]);
      TotalIntended(ranges[1..], followUp, orders[1..]);
    }
  }

  /** The corrected command answers the sum, over the ranges of the input,
      of each range's invalid ids counted once. */
  lemma RunDay2Intended(lines: seq<string>, followUp: bool, orders: seq<seq<int>>)
    requires ReadIdRanges(lines).Ok?
    requires var ranges := ReadIdRanges(lines).value;
      |orders| == |ranges| && forall i :: 0 <= i < |ranges| ==> Enumerates(orders[i], ranges[i], followUp)
    ensures RunDay2(lines, followUp, true) == Ok(SumAll(orders))
  {
    TotalIntended(ReadIdRanges(lines).value, followUp, orders);
  }

  lemma {:induction false} TotalEvenLowers(ranges: seq<IdRange>)
    requires forall i :: 0 <= i < |ranges| ==> ranges[i].lower >= 0 && |Itoa(ranges[i].lower)| % 2 == 0
    ensures Total(ranges, false, false) == Total(ranges, false, true)
    decreases |ranges|
  {
    if ranges != [] {
      EvenLowerAsIntended(ranges[0]);
      TotalEvenLowers(ranges[1..]);
    }
  }

  /** Part one as written answers correctly when every lower bound has an
      even number of digits. */
  lemma RunDay2EvenLowers(lines: seq<string>)
    requires ReadIdRanges(lines).Ok?
    requires var ranges := ReadIdRanges(lines).value;
      forall i :: 0 <= i < |ranges| ==> |Itoa(ranges[i].lower)| % 2 == 0
    ensures RunDay2(lines, false, false) == RunDay2(lines, false, true)
  {
    TotalEvenLowers(ReadIdRanges(lines).value);
  }
}
