/** Day 2, the id ranges: reading `lower-upper` pairs from comma-separated
    lists. */
module Day2Ids {
  import opened Wrappers
  import opened Decimal
  import opened Text

  /** `IdRange`: both bounds inclusive. */
  datatype IdRange = IdRange(lower: int, upper: int)

  /** `IdRange.contains`. */
  predicate Contains(r: IdRange, id: int) {
    r.lower <= id <= r.upper
  }

  /** `IdRangeFromString`: exactly two parts around `-` or the run is
      fatal; a part that is not a number reads as 0. `log.Fatal` prints its
      operands unformatted, so the message keeps the literal `%q`. */
  function IdRangeFromString(s: string): (r: Result<IdRange>)
    ensures r.Ok? <==> Occurrences(s, '-') == 1
    ensures r.Fail? ==> r.reason == "there's no id range on %q" + s
    ensures r.Ok? ==> r.value.lower >= 0 && r.value.upper >= 0
  {
    var pair := Split(s, '-');
    if |pair| != 2 then Fail("there's no id range on %q" + s)
    else
      AtoiUnsigned(pair[0]);
      AtoiUnsigned(pair[1]);
      Ok(IdRange(AtoiOrZero(pair[0]), AtoiOrZero(pair[1])))
  }

  /** A range written back as `lower-upper` reads as itself. */
  lemma IdRangeFormat(lower: nat, upper: nat)
    ensures IdRangeFromString(Itoa(lower) + "-" + Itoa(upper)) == Ok(IdRange(lower, upper))
  {
    var a, b := Itoa(lower), Itoa(upper);
    NoDash(lower);
    NoDash(upper);
    assert Join([a, b], '-') == a + "-" + b by {
      assert [a, b][1..] == [b];
    }
    SplitJoin([a, b], '-');
    AtoiItoa(lower);
    AtoiItoa(upper);
  }

  /** Every comma-separated piece of every line, in order. */
  function Pieces(lines: seq<string>): seq<string> {
    if lines == [] then [] else Split(lines[0], ',') + Pieces(lines[1..])
  }

  function RangeResults(pieces: seq<string>): (rs: seq<Result<IdRange>>)
    ensures |rs| == |pieces|
    ensures forall j :: 0 <= j < |pieces| ==> rs[j] == IdRangeFromString(pieces[j])
  {
    seq(|pieces|, j requires 0 <= j < |pieces| => IdRangeFromString(pieces[j]))
  }

  /** The ranges of the pieces, in order; any malformed piece is fatal. */
  function ParseRanges(pieces: seq<string>): (r: Result<seq<IdRange>>)
    ensures r.Ok? <==> forall j :: 0 <= j < |pieces| ==> Occurrences(pieces[j], '-') == 1
    ensures r.Ok? ==> |r.value| == |pieces|
    ensures r.Ok? ==> forall j :: 0 <= j < |pieces| ==> Ok(r.value[j]) == IdRangeFromString(pieces[j])
    ensures r.Ok? ==> forall j :: 0 <= j < |pieces| ==> r.value[j].lower >= 0 && r.value[j].upper >= 0
  {
    AllOk(RangeResults(pieces))
  }

  /** `readIdRanges`: every comma-separated piece of every line, an empty
      line included, must be a range. */
  function ReadIdRanges(lines: seq<string>): Result<seq<IdRange>> {
    ParseRanges(Pieces(lines))
  }
}
