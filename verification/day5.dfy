/** Day 5: fresh products. The input lists ranges of fresh product ids, one
    `lower-upper` per line, then a blank line, then one product id per line.
    The ranges are compacted (sorted by lower bound and merged where they
    overlap or touch); part one counts the products inside some range, the
    follow-up counts the ids the ranges cover. */
module Day5 {
  import opened Wrappers
  import opened Decimal
  import opened Text

  /** An inclusive range of product ids; `lower > upper` is allowed by the
      parser and covers nothing. */
  datatype Interval = Interval(lower: int, upper: int)

  predicate Valid(i: Interval) {
    i.lower <= i.upper
  }

  /** The ids the interval covers. */
  function Members(i: Interval): set<int>
    decreases if Valid(i) then i.upper - i.lower + 1 else 0
  {
    if !Valid(i) then {} else Members(i.(upper := i.upper - 1)) + {i.upper}
  }

  lemma {:induction false} MembersRange(i: Interval)
    ensures forall x :: x in Members(i) <==> i.lower <= x <= i.upper
    decreases if Valid(i) then i.upper - i.lower + 1 else 0
  {
    if Valid(i) {
      MembersRange(i.(upper := i.upper - 1));
    }
  }

  /** `Interval.Contains`. */
  function Contains(i: Interval, target: int): (r: bool)
    ensures r <==> target in Members(i)
  {
    MembersRange(i);
    target >= i.lower && target <= i.upper
  }

  /** Overlapping or directly adjacent (no id lies strictly between). */
  predicate Touches(i: Interval, other: Interval) {
    other.lower <= i.upper + 1 && i.lower <= other.upper + 1
  }

  /** `Interval.Merge`: the receiver after the call, and the returned flag.
      Three tests in sequence: extend to the right, extend to the left (with
      the possibly moved upper bound), and "already included" (with both
      possibly moved bounds). */
  function Merge(i: Interval, other: Interval): (res: (Interval, bool))
    ensures !res.1 ==> res.0 == i
    ensures Valid(i) ==> Valid(res.0)
    ensures Valid(i) && Valid(other) ==> (res.1 <==> Touches(i, other))
    ensures other.lower >= i.lower ==> res.0.lower == i.lower
  {
    var right := other.upper > i.upper && other.lower <= i.upper + 1;
    var up := if right then i.(upper := other.upper) else i;
    var left := other.lower < up.lower && other.upper >= up.lower - 1;
    var both := if left then up.(lower := other.lower) else up;
    if other.lower >= both.lower && other.upper <= both.upper then (both, true)
    else (both, right || left)
  }

  /** A merge that reports success leaves the receiver covering exactly the
      ids of both intervals. */
  lemma MergeUnion(i: Interval, other: Interval)
    requires Valid(i) && Merge(i, other).1
    ensures Members(Merge(i, other).0) == Members(i) + Members(other)
  {
    var m := Merge(i, other).0;
    MembersRange(i);
    MembersRange(other);
    MembersRange(m);
    forall x ensures x in Members(m) <==> x in Members(i) || x in Members(other) {
      if x in Members(m) && x !in Members(i) {
        assert x < i.lower || x > i.upper;
      }
    }
  }

  /** A reported merge with an interval that starts no lower covers exactly
      the ids of both intervals, whether or not either of them is inverted:
      the order `compactIntervals` sorts into is enough. */
  lemma MergeSortedUnion(i: Interval, other: Interval)
    requires other.lower >= i.lower && Merge(i, other).1
    ensures Members(Merge(i, other).0) == Members(i) + Members(other)
  {
    var m := Merge(i, other).0;
    MembersRange(i);
    MembersRange(other);
    MembersRange(m);
    if other.upper > i.upper && other.lower <= i.upper + 1 {
      assert m == i.(upper := other.upper);
      forall x ensures x in Members(m) <==> x in Members(i) || x in Members(other) {
        assert x in Members(m) <==> i.lower <= x <= other.upper;
      }
    } else {
      assert m == i;
      assert other.upper <= i.upper;
      forall x | x in Members(other) ensures x in Members(i) {
        assert i.lower <= other.lower <= x <= other.upper <= i.upper;
      }
    }
  }

  /** Every id some interval of the list covers. */
  function Cover(s: seq<Interval>): set<int> {
    if s == [] then {} else Members(s[0]) + Cover(s[1..])
  }

  lemma {:induction false} CoverMembership(s: seq<Interval>, x: int)
    ensures x in Cover(s) <==> exists iv :: iv in s && Contains(iv, x)
    decreases |s|
  {
    if s != [] {
      CoverMembership(s[1..], x);
      if Contains(s[0], x) {
        assert s[0] in s;
      } else if exists iv :: iv in s[1..] && Contains(iv, x) {
        var iv :| iv in s[1..] && Contains(iv, x);
        assert iv in s;
      } else {
        forall iv | iv in s ensures !Contains(iv, x) {
          assert iv == s[0] || iv in s[1..];
        }
      }
    }
  }

  lemma CoverCons(iv: Interval, s: seq<Interval>)
    ensures Cover([iv] + s) == Members(iv) + Cover(s)
  {
    assert ([iv] + s)[1..] == s;
  }

  /** The cover does not depend on the order or repetition of the list. */
  lemma CoverSameElements(a: seq<Interval>, b: seq<Interval>)
    requires forall iv :: iv in a <==> iv in b
    ensures Cover(a) == Cover(b)
  {
    forall x ensures x in Cover(a) <==> x in Cover(b) {
      CoverMembership(a, x);
      CoverMembership(b, x);
    }
  }

  lemma {:induction false} MembersCard(i: Interval)
    requires Valid(i)
    ensures |Members(i)| == i.upper - i.lower + 1
    decreases i.upper - i.lower
  {
    var j := i.(upper := i.upper - 1);
    if Valid(j) {
      MembersCard(j);
      MembersRange(j);
    }
  }

  predicate AllValid(s: seq<Interval>) {
    forall iv :: iv in s ==> Valid(iv)
  }

  predicate SortedByLower(s: seq<Interval>) {
    forall j, k :: 0 <= j < k < |s| ==> s[j].lower <= s[k].lower
  }

  /** Each interval ends more than one id before the next one starts. */
  predicate Separated(s: seq<Interval>) {
    forall k :: 0 <= k < |s| - 1 ==> s[k].upper + 1 < s[k + 1].lower
  }

  /** One step of an insertion sort on the lower bound. */
  function Insert(x: Interval, s: seq<Interval>): (r: seq<Interval>)
    requires SortedByLower(s)
    ensures SortedByLower(r)
    ensures multiset(r) == multiset(s) + multiset{x}
  {
    if s == [] || x.lower <= s[0].lower then [x] + s
    else
      var t := Insert(x, s[1..]);
      InsertBehind(x, s, t);
      [s[0]] + t
  }

  lemma InsertBehind(x: Interval, s: seq<Interval>, t: seq<Interval>)
    requires s != [] && SortedByLower(s) && s[0].lower < x.lower
    requires SortedByLower(t) && multiset(t) == multiset(s[1..]) + multiset{x}
    ensures SortedByLower([s[0]] + t)
    ensures multiset([s[0]] + t) == multiset(s) + multiset{x}
  {
    assert s == [s[0]] + s[1..];
    forall k | 0 <= k < |t| ensures s[0].lower <= t[k].lower {
      assert t[k] in multiset(t);
      assert t[k] == x || t[k] in s[1..];
    }
  }

  /** `sort.Slice` on the lower bound. Go's sort is not stable, so the order
      of intervals with equal lower bounds is unspecified; every theorem
      below about the sweep holds for any sorted order. */
  function SortByLower(s: seq<Interval>): (r: seq<Interval>)
    ensures SortedByLower(r)
    ensures multiset(r) == multiset(s)
  {
    if s == [] then []
    else
      assert s == [s[0]] + s[1..];
      Insert(s[0], SortByLower(s[1..]))
  }

  /** The loop of `compactIntervals` from `current` on: the intervals it
      adds to the result, in the order it adds them (an interval that later
      merges appears in its final, extended form, since the result shares
      it with the loop), and the number of merges. */
  function Sweep(current: Interval, rest: seq<Interval>): (r: (seq<Interval>, nat))
    ensures |r.0| + r.1 == |rest| + 1
    ensures |r.0| >= 1
    decreases |rest|
  {
    if rest == [] then ([current], 0)
    else
      var (merged, ok) := Merge(current, rest[0]);
      if ok then
        var t := Sweep(merged, rest[1..]);
        (t.0, t.1 + 1)
      else
        var t := Sweep(rest[0], rest[1..]);
        ([current] + t.0, t.1)
  }

  /** Whatever the bounds, sweeping a list sorted by lower bound keeps
      exactly the ids covered. */
  lemma {:induction false} SweepCover(current: Interval, rest: seq<Interval>)
    requires SortedByLower(rest)
    requires forall k :: 0 <= k < |rest| ==> current.lower <= rest[k].lower
    ensures Cover(Sweep(current, rest).0) == Members(current) + Cover(rest)
    decreases |rest|
  {
    if rest != [] {
      var next, tail := rest[0], rest[1..];
      assert rest == [next] + tail;
      CoverCons(next, tail);
      var (merged, ok) := Merge(current, next);
      if ok {
        MergeSortedUnion(current, next);
        SweepCover(merged, tail);
        assert Sweep(current, rest).0 == Sweep(merged, tail).0;
      } else {
        SweepCover(next, tail);
        var t := Sweep(next, tail).0;
        CoverCons(current, t);
        assert Sweep(current, rest).0 == [current] + t;
      }
    }
  }

  lemma SeparatedCons(iv: Interval, t: seq<Interval>)
    requires Valid(iv) && AllValid(t) && Separated(t)
    requires |t| >= 1 && iv.upper + 1 < t[0].lower
    ensures AllValid([iv] + t) && Separated([iv] + t)
  {
    assert forall x :: x in [iv] + t ==> x == iv || x in t;
    assert forall k :: 1 <= k < |t| + 1 ==> ([iv] + t)[k] == t[k - 1];
  }

  /** Sorted valid input leaves the sweep with separated valid intervals
      that cover exactly the ids of the input. */
  lemma {:induction false} SweepCompacts(current: Interval, rest: seq<Interval>)
    requires Valid(current) && AllValid(rest)
    requires SortedByLower(rest)
    requires forall k :: 0 <= k < |rest| ==> current.lower <= rest[k].lower
    ensures var out := Sweep(current, rest).0;
      && Cover(out) == Members(current) + Cover(rest)
      && AllValid(out)
      && Separated(out)
      && out[0].lower == current.lower
    decreases |rest|
  {
    if rest != [] {
      var next, tail := rest[0], rest[1..];
      assert rest == [next] + tail;
      CoverCons(next, tail);
      assert AllValid(tail) && SortedByLower(tail) by {
        assert forall iv :: iv in tail ==> iv in rest;
      }
      var (merged, ok) := Merge(current, next);
      if ok {
        MergeUnion(current, next);
        SweepCompacts(merged, tail);
        assert Sweep(current, rest).0 == Sweep(merged, tail).0;
      } else {
        assert next.lower > current.upper + 1;
        SweepCompacts(next, tail);
        var t := Sweep(next, tail).0;
        CoverCons(current, t);
        SeparatedCons(current, t);
        assert Sweep(current, rest).0 == [current] + t;
      }
    }
  }

  /** `compactIntervals`: the compacted intervals and the merge count. Zero
      or one interval comes back unchanged. */
  function CompactIntervals(items: seq<Interval>): (r: (seq<Interval>, nat))
    ensures |r.0| + r.1 == |items|
    ensures |items| <= 1 ==> r == (items, 0)
  {
    if |items| <= 1 then (items, 0)
    else
      var sorted := SortByLower(items);
      assert |sorted| == |multiset(sorted)| == |items|;
      Sweep(sorted[0], sorted[1..])
  }

  /** Sorting keeps exactly the intervals given. */
  lemma SortByLowerElements(items: seq<Interval>)
    ensures |SortByLower(items)| == |items|
    ensures forall iv :: iv in SortByLower(items) <==> iv in items
  {
    var sorted := SortByLower(items);
    assert |sorted| == |multiset(sorted)| == |items|;
    forall iv ensures iv in sorted <==> iv in items {
      assert iv in sorted <==> iv in multiset(sorted);
    }
  }

  /** Compaction keeps exactly the ids covered, inverted intervals
      included. */
  lemma CompactIntervalsKeepCover(items: seq<Interval>)
    ensures Cover(CompactIntervals(items).0) == Cover(items)
  {
    if |items| > 1 {
      var sorted := SortByLower(items);
      SortByLowerElements(items);
      var first, tail := sorted[0], sorted[1..];
      assert sorted == [first] + tail;
      CoverCons(first, tail);
      SweepCover(first, tail);
      CoverSameElements(sorted, items);
    }
  }

  /** Compaction of valid intervals covers exactly the ids of the input
      with valid intervals, each ending more than one id before the next
      one starts. */
  lemma CompactIntervalsCover(items: seq<Interval>)
    requires AllValid(items)
    ensures var out := CompactIntervals(items).0;
      Cover(out) == Cover(items) && AllValid(out) && Separated(out)
  {
    if |items| > 1 {
      var sorted := SortByLower(items);
      SortByLowerElements(items);
      var first, tail := sorted[0], sorted[1..];
      assert sorted == [first] + tail;
      CoverCons(first, tail);
      assert Valid(first) && AllValid(tail) by {
        assert forall iv :: iv in tail ==> iv in sorted;
      }
      SweepCompacts(first, tail);
      CoverSameElements(sorted, items);
    }
  }

  /** The follow-up answer: the sum of the interval sizes. */
  function FreshIdCount(s: seq<Interval>): int {
    if s == [] then 0 else s[0].upper - s[0].lower + 1 + FreshIdCount(s[1..])
  }

  lemma {:induction false} CoverAbove(s: seq<Interval>)
    requires |s| >= 1 && AllValid(s) && Separated(s)
    ensures forall x :: x in Cover(s) ==> x >= s[0].lower
    decreases |s|
  {
    MembersRange(s[0]);
    if |s| > 1 {
      assert forall iv :: iv in s[1..] ==> iv in s;
      CoverAbove(s[1..]);
      assert s[0] in s;
    }
  }

  /** Summing sizes counts every covered id once when the intervals are
      separated. */
  lemma {:induction false} FreshIdCountIsCover(s: seq<Interval>)
    requires AllValid(s) && Separated(s)
    ensures FreshIdCount(s) == |Cover(s)|
    decreases |s|
  {
    if s != [] {
      assert s[0] in s;
      assert forall iv :: iv in s[1..] ==> iv in s;
      FreshIdCountIsCover(s[1..]);
      MembersCard(s[0]);
      MembersRange(s[0]);
      if |s| > 1 {
        CoverAbove(s[1..]);
        assert s[0].upper + 1 < s[1].lower;
      } else {
        assert s[1..] == [];
      }
      assert Members(s[0]) * Cover(s[1..]) == {} by {
        forall x | x in Cover(s[1..]) ensures x !in Members(s[0]) {
          assert x > s[0].upper;
        }
      }
    }
  }

  /** The follow-up counts each id covered by some valid input interval
      exactly once. */
  lemma FreshIdsOfCompacted(items: seq<Interval>)
    requires AllValid(items)
    ensures FreshIdCount(CompactIntervals(items).0) == |Cover(items)|
  {
    CompactIntervalsCover(items);
    FreshIdCountIsCover(CompactIntervals(items).0);
  }

  /** The inner loop of `findStaleProducts`: some interval contains the
      product. */
  function AnyContains(intervals: seq<Interval>, p: int): (r: bool)
    ensures r <==> p in Cover(intervals)
  {
    if intervals == [] then false
    else Contains(intervals[0], p) || AnyContains(intervals[1..], p)
  }

  /** `findStaleProducts`: the products no interval contains, in their
      input order, repetitions kept. */
  function FindStaleProducts(intervals: seq<Interval>, products: seq<int>): (stale: seq<int>)
    ensures forall p :: multiset(stale)[p] == if p in Cover(intervals) then 0 else multiset(products)[p]
  {
    if products == [] then []
    else
      var rest := FindStaleProducts(intervals, products[1..]);
      assert products == [products[0]] + products[1..];
      if AnyContains(intervals, products[0]) then rest else [products[0]] + rest
  }

  /** The stale products keep their input order: the list for a + b is
      the list for a followed by the list for b. */
  lemma StaleInOrder(intervals: seq<Interval>, a: seq<int>, b: seq<int>)
    ensures FindStaleProducts(intervals, a + b) == FindStaleProducts(intervals, a) + FindStaleProducts(intervals, b)
  {
    StaleIsUncovered(intervals, a + b);
    StaleIsUncovered(intervals, a);
    StaleIsUncovered(intervals, b);
    UncoveredAppend(intervals, a, b);
  }

  /** The products `findStaleProducts` keeps, filtered one at a time. */
  function Uncovered(intervals: seq<Interval>, ps: seq<int>): seq<int>
  {
    if ps == [] then []
    else (if AnyContains(intervals, ps[0]) then [] else [ps[0]]) + Uncovered(intervals, ps[1..])
  }

  lemma {:induction false} StaleIsUncovered(intervals: seq<Interval>, ps: seq<int>)
    ensures FindStaleProducts(intervals, ps) == Uncovered(intervals, ps)
    decreases |ps|
  {
    if ps != [] {
      StaleIsUncovered(intervals, ps[1..]);
    }
  }

  lemma {:induction false} UncoveredAppend(intervals: seq<Interval>, a: seq<int>, b: seq<int>)
    ensures Uncovered(intervals, a + b) == Uncovered(intervals, a) + Uncovered(intervals, b)
    decreases |a|
  {
    if a == [] {
      assert a + b == b;
    } else {
      assert (a + b)[0] == a[0] && (a + b)[1..] == a[1..] + b;
      UncoveredAppend(intervals, a[1..], b);
    }
  }

  lemma StaleCons(intervals: seq<Interval>, ps: seq<int>)
    requires ps != []
    ensures FindStaleProducts(intervals, ps)
      == (if ps[0] in Cover(intervals) then [] else [ps[0]]) + FindStaleProducts(intervals, ps[1..])
  {
  }

  /** With `StaleInOrder`: the stale list is the products filtered one by
      one, a covered product dropped and any other kept. */
  lemma StaleSingle(intervals: seq<Interval>, p: int)
    ensures FindStaleProducts(intervals, [p]) == if p in Cover(intervals) then [] else [p]
  {
    StaleCons(intervals, [p]);
    assert [p][1..] == [];
  }

  /** Part one's answer on the compacted intervals equals the answer on the
      raw ones: compaction changes no product's verdict. */
  lemma StaleOfCompacted(items: seq<Interval>, products: seq<int>)
    ensures FindStaleProducts(CompactIntervals(items).0, products) == FindStaleProducts(items, products)
  {
    CompactIntervalsKeepCover(items);
    StaleByCover(CompactIntervals(items).0, items, products);
  }

  lemma {:induction false} StaleByCover(a: seq<Interval>, b: seq<Interval>, products: seq<int>)
    requires Cover(a) == Cover(b)
    ensures FindStaleProducts(a, products) == FindStaleProducts(b, products)
    decreases |products|
  {
    if products != [] {
      StaleByCover(a, b, products[1..]);
    }
  }

  /** `ParseInterval`: `lower-upper`; anything but exactly one `-` is fatal,
      and a bound that is not a number reads as 0. */
  function ParseInterval(input: string): (r: Result<Interval>)
    ensures r.Ok? <==> Occurrences(input, '-') == 1
  {
    var bounds := Split(input, '-');
    if |bounds| != 2 then Fail("Invalid interval format: " + input)
    else Ok(Interval(AtoiOrZero(bounds[0]), AtoiOrZero(bounds[1])))
  }

  /** An interval written back in the input format parses to itself. */
  lemma ParseIntervalFormat(lower: nat, upper: nat)
    ensures ParseInterval(Itoa(lower) + "-" + Itoa(upper)) == Ok(Interval(lower, upper))
  {
    var a, b := Itoa(lower), Itoa(upper);
    NoDash(lower);
    NoDash(upper);
    assert Join([a, b], '-') == a + "-" + b by {
      assert [a, b][1..] == [b];
    }
    SplitJoin([a, b], '-');
    AtoiItoa(lower);
    AtoiItoa(upper);
  }

  /** The input file: the raw intervals, in input order, and the products. */
  datatype Catalog = Catalog(intervals: seq<Interval>, products: seq<int>)

  /** Index of the first blank line (the section break), or the line count. */
  function FirstBlank(lines: seq<string>): (k: nat)
    ensures k <= |lines|
    ensures k < |lines| ==> lines[k] == ""
    ensures forall j :: 0 <= j < k ==> lines[j] != ""
  {
    if lines == [] || lines[0] == "" then 0 else 1 + FirstBlank(lines[1..])
  }

  /** Product lines: a line that is not a number reads as 0. */
  function ParseProducts(lines: seq<string>): (products: seq<int>)
    ensures |products| == |lines|
    ensures forall k :: 0 <= k < |lines| ==> products[k] == AtoiOrZero(lines[k])
  {
    if lines == [] then [] else [AtoiOrZero(lines[0])] + ParseProducts(lines[1..])
  }

  /** The reading loop of `parseInput`, before compaction: interval lines up
      to the first blank line, product lines after it (a later blank line is
      a product that reads as 0). */
  function ReadCatalog(lines: seq<string>): (r: Result<Catalog>)
    ensures r.Ok? <==> forall j :: 0 <= j < FirstBlank(lines) ==> ParseInterval(lines[j]).Ok?
    ensures r.Ok? ==> |r.value.intervals| == FirstBlank(lines)
    ensures r.Ok? ==> forall j :: 0 <= j < FirstBlank(lines) ==> r.value.intervals[j] == ParseInterval(lines[j]).value
    ensures r.Ok? ==> |r.value.products| == if FirstBlank(lines) < |lines| then |lines| - FirstBlank(lines) - 1 else 0
    ensures r.Ok? ==> forall k :: 0 <= k < |r.value.products| ==>
      r.value.products[k] == AtoiOrZero(lines[FirstBlank(lines) + 1 + k])
  {
    var k := FirstBlank(lines);
    var intervals := AllOk(IntervalResults(lines, k));
    var products := ProductsAfter(lines, k);
    if intervals.Fail? then Fail(intervals.reason) else Ok(Catalog(intervals.value, products))
  }

  /** The parse of each of the first `k` lines as an interval. */
  function IntervalResults(lines: seq<string>, k: nat): (rs: seq<Result<Interval>>)
    requires k <= |lines|
    ensures |rs| == k && forall j :: 0 <= j < k ==> rs[j] == ParseInterval(lines[j])
  {
    seq(k, j requires 0 <= j < k => ParseInterval(lines[j]))
  }

  /** The products on the lines after the blank line at `k`, if any. */
  function ProductsAfter(lines: seq<string>, k: nat): (products: seq<int>)
    requires k <= |lines|
    ensures |products| == if k < |lines| then |lines| - k - 1 else 0
    ensures forall j :: 0 <= j < |products| ==> products[j] == AtoiOrZero(lines[k + 1 + j])
  {
    if k < |lines| then
      var rest := lines[k + 1..];
      assert forall j :: 0 <= j < |rest| ==> rest[j] == lines[k + 1 + j];
      ParseProducts(rest)
    else []
  }

  /** The orders in which `ToSlice` may list the set of intervals read:
      any arrangement of them. The set holds pointers, so an interval
      added twice is listed twice. Since the arrangement is arbitrary, it
      also stands for every outcome of the unstable `sort.Slice` on equal
      lower bounds. */
  ghost predicate Lists(listing: seq<Interval> -> seq<Interval>) {
    forall s :: multiset(listing(s)) == multiset(s)
  }

  /** `parseInput`: the catalog with its intervals compacted, the set of
      intervals read being listed in the order `listing` gives. */
  function ParseInput(lines: seq<string>, listing: seq<Interval> -> seq<Interval>): (r: Result<Catalog>)
    requires Lists(listing)
    ensures r.Ok? <==> ReadCatalog(lines).Ok?
    ensures r.Ok? ==> r.value.products == ReadCatalog(lines).value.products
    ensures r.Ok? ==> Cover(r.value.intervals) == Cover(ReadCatalog(lines).value.intervals)
  {
    var c :- ReadCatalog(lines);
    var items := listing(c.intervals);
    SameListing(items, c.intervals);
    CompactIntervalsKeepCover(items);
    Ok(Catalog(CompactIntervals(items).0, c.products))
  }

  /** A listing holds exactly the intervals listed, so it covers the same
      ids and is valid when they are. */
  lemma SameListing(items: seq<Interval>, read: seq<Interval>)
    requires multiset(items) == multiset(read)
    ensures forall iv :: iv in items <==> iv in read
    ensures Cover(items) == Cover(read)
    ensures AllValid(items) <==> AllValid(read)
  {
    forall iv ensures iv in items <==> iv in read {
      assert iv in items <==> iv in multiset(items);
      assert iv in read <==> iv in multiset(read);
    }
    CoverSameElements(items, read);
  }

  /** Part one on a catalog: how many products are not stale. */
  function PartOne(c: Catalog): int {
    |c.products| - |FindStaleProducts(c.intervals, c.products)|
  }

  /** The follow-up on a catalog: the sum of the interval sizes. */
  function PartTwo(c: Catalog): int {
    FreshIdCount(c.intervals)
  }

  /** Part one of the puzzle from the input lines. */
  function FreshProducts(lines: seq<string>, listing: seq<Interval> -> seq<Interval>): Result<int>
    requires Lists(listing)
  {
    match ParseInput(lines, listing)
    case Fail(e) => Fail(e)
    case Ok(c) => Ok(PartOne(c))
  }

  /** The follow-up from the input lines. */
  function FreshIds(lines: seq<string>, listing: seq<Interval> -> seq<Interval>): Result<int>
    requires Lists(listing)
  {
    match ParseInput(lines, listing)
    case Fail(e) => Fail(e)
    case Ok(c) => Ok(PartTwo(c))
  }

  /** Compacting the catalog's intervals never changes part one; when the
      ranges are well formed the follow-up is the number of covered ids. */
  lemma AnswersOfCompacted(raw: Catalog)
    ensures var c := Catalog(CompactIntervals(raw.intervals).0, raw.products);
      && PartOne(c) == PartOne(raw)
      && (AllValid(raw.intervals) ==> PartTwo(c) == |Cover(raw.intervals)|)
  {
    StaleOfCompacted(raw.intervals, raw.products);
    if AllValid(raw.intervals) {
      FreshIdsOfCompacted(raw.intervals);
    }
  }

  /** Part one counts the products inside some range as read, in every
      listing order; with well-formed ranges the follow-up counts every
      covered id once, in every listing order too. */
  lemma AnswersOfValidCatalog(lines: seq<string>, listing: seq<Interval> -> seq<Interval>)
    requires Lists(listing) && ReadCatalog(lines).Ok?
    ensures FreshProducts(lines, listing) == Ok(PartOne(ReadCatalog(lines).value))
    ensures AllValid(ReadCatalog(lines).value.intervals) ==>
      FreshIds(lines, listing) == Ok(|Cover(ReadCatalog(lines).value.intervals)|)
  {
    var raw := ReadCatalog(lines).value;
    var items := listing(raw.intervals);
    var c := Catalog(CompactIntervals(items).0, raw.products);
    assert ParseInput(lines, listing) == Ok(c);
    SameListing(items, raw.intervals);
    AnswersOfCompacted(Catalog(items, raw.products));
    assert PartOne(Catalog(items, raw.products)) == PartOne(raw) by {
      StaleByCover(items, raw.intervals, raw.products);
    }
  }

  /** With an inverted interval the follow-up depends on the listing
      order: `10-3` listed before `10-20` stays apart from it and adds -6,
      while listed after it the merge finds it inside `10-20`. */
  lemma InvertedListingMatters()
    ensures FreshIdCount(CompactIntervals([Interval(10, 3), Interval(10, 20)]).0) == 5
    ensures FreshIdCount(CompactIntervals([Interval(10, 20), Interval(10, 3)]).0) == 11
  {
    InvertedFirst();
    InvertedLast();
  }

  lemma InvertedFirst()
    ensures CompactIntervals([Interval(10, 3), Interval(10, 20)]).0 == [Interval(10, 3), Interval(10, 20)]
  {
    var a, b := Interval(10, 3), Interval(10, 20);
    assert SortByLower([b]) == [b];
    assert SortByLower([a, b]) == Insert(a, [b]) == [a, b];
    assert Merge(a, b) == (a, false);
    assert Sweep(a, [b]) == ([a] + Sweep(b, []).0, 0);
  }

  lemma InvertedLast()
    ensures CompactIntervals([Interval(10, 20), Interval(10, 3)]).0 == [Interval(10, 20)]
  {
    var a, b := Interval(10, 20), Interval(10, 3);
    assert SortByLower([b]) == [b];
    assert SortByLower([a, b]) == Insert(a, [b]) == [a, b];
    assert Merge(a, b) == (a, true);
    assert Sweep(a, [b]) == (Sweep(a, []).0, 1);
  }
}
