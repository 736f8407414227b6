/** Day 6: a worksheet of numbers in columns with an operator under each
    column. The file is read from its end: the last line that is not blank
    holds the operators, every line above it holds one operand per column,
    and the answer is the sum of the column results. */
module Day6 {
  import opened Wrappers
  import opened Text
  import opened Decimal
  import opened Day6Ops

  /** The line without its spaces; other blanks are kept. */
  function NonSpaces(line: string): string {
    if line == [] then [] else (if line[0] == ' ' then [] else [line[0]]) + NonSpaces(line[1..])
  }

  /** The operator line: a fresh, initialized operation for every character
      but a space, in order; any character but a space, `+` or `*` is
      fatal. */
  function OperatorLine(line: string): (r: Result<seq<Operation>>)
    ensures r.Ok? <==> forall j :: 0 <= j < |line| ==> line[j] in " +*"
    ensures r.Ok? ==> |r.value| == |NonSpaces(line)|
    ensures r.Ok? ==> forall i :: 0 <= i < |r.value| ==>
      && r.value[i].operator != Unknown
      && r.value[i] == Init(Fresh(r.value[i].operator))
      && Symbol(r.value[i].operator) == NonSpaces(line)[i]
  {
    OperationsSound(line);
    Operations(line)
  }

  /** The loop over the operator line's runes. */
  function Operations(line: string): Result<seq<Operation>> {
    if line == [] then Ok([])
    else if line[0] == ' ' then Operations(line[1..])
    else
      match ParseOperator(line[0])
      case Fail(e) => Fail(e)
      case Ok(op) =>
        match Operations(line[1..])
        case Fail(e) => Fail(e)
        case Ok(rest) => Ok([Init(Fresh(op))] + rest)
  }

  lemma {:induction false} OperationsSound(line: string)
    ensures var r := Operations(line);
      && (r.Ok? <==> forall j :: 0 <= j < |line| ==> line[j] in " +*")
      && (r.Ok? ==> |r.value| == |NonSpaces(line)|)
      && (r.Ok? ==> forall i :: 0 <= i < |r.value| ==>
           && r.value[i].operator != Unknown
           && r.value[i] == Init(Fresh(r.value[i].operator))
           && Symbol(r.value[i].operator) == NonSpaces(line)[i])
    decreases |line|
  {
    if line != [] {
      OperationsSound(line[1..]);
      assert forall j :: 1 <= j < |line| ==> line[1..][j - 1] == line[j];
    }
  }

  /** One operand line: the i-th field is read with `Atoi` (0 when it is no
      number) and fed to the i-th operation; a field with no operation
      under it is an index out of range. */
  function FeedFrom(ops: seq<Operation>, fields: seq<string>, i: nat): Result<seq<Operation>>
    requires i <= |fields|
    decreases |fields| - i
  {
    if i == |fields| then Ok(ops)
    else if i >= |ops| then Fail("index out of range")
    else
      match Operate(ops[i], AtoiOrZero(fields[i]))
      case Fail(e) => Fail(e)
      case Ok(o) => FeedFrom(ops[i := o], fields, i + 1)
  }

  ghost predicate Known(ops: seq<Operation>) {
    forall i :: 0 <= i < |ops| ==> ops[i].operator != Unknown
  }

  /** From field i on, a line fits exactly when it has no more fields than
      there are operations; then the operations under those fields take
      one step and the others stay as they are. */
  lemma {:induction false} FeedFromCells(ops: seq<Operation>, fields: seq<string>, i: nat)
    requires Known(ops) && i <= |fields| && i <= |ops|
    ensures FeedFrom(ops, fields, i).Ok? <==> |fields| <= |ops|
    ensures FeedFrom(ops, fields, i).Ok? ==> var next := FeedFrom(ops, fields, i).value;
      && |next| == |ops| && Known(next)
      && forall j :: 0 <= j < |ops| ==>
           next[j] == if i <= j < |fields| then Operate(ops[j], AtoiOrZero(fields[j])).value else ops[j]
    decreases |fields| - i
  {
    if i < |fields| && i < |ops| {
      var o := Operate(ops[i], AtoiOrZero(fields[i])).value;
      FeedFromCells(ops[i := o], fields, i + 1);
    }
  }

  /** The operand lines, bottom-up, one after the other. */
  function FeedRows(ops: seq<Operation>, rows: seq<seq<string>>): Result<seq<Operation>>
    decreases |rows|
  {
    if rows == [] then Ok(ops)
    else
      match FeedFrom(ops, rows[0], 0)
      case Fail(e) => Fail(e)
      case Ok(next) => FeedRows(next, rows[1..])
  }

  /** A row's operand in column i, if it has one. */
  function Cell(row: seq<string>, i: nat): (c: seq<int>)
    ensures |c| <= 1
  {
    if i < |row| then [AtoiOrZero(row[i])] else []
  }

  /** Column i of the rows, top to bottom; rows too short are skipped. */
  function Column(rows: seq<seq<string>>, i: nat): seq<int>
    decreases |rows|
  {
    if rows == [] then [] else Cell(rows[0], i) + Column(rows[1..], i)
  }

  /** One operation fed its cell of a row and then the column below. */
  lemma OperateEachCell(o: Operation, row: seq<string>, i: nat, below: seq<seq<string>>, stepped: Operation)
    requires o.operator != Unknown
    requires stepped == if i < |row| then Operate(o, AtoiOrZero(row[i])).value else o
    ensures OperateEach(o, Cell(row, i) + Column(below, i)) == OperateEach(stepped, Column(below, i))
  {
    if i < |row| {
      var c := Cell(row, i) + Column(below, i);
      assert c[1..] == Column(below, i);
    } else {
      assert Cell(row, i) + Column(below, i) == Column(below, i);
    }
  }

  /** Feeding the rows one by one is feeding every operation its own
      column; it fails exactly when some row has more fields than there are
      operations. */
  lemma {:induction false} FeedRowsColumns(ops: seq<Operation>, rows: seq<seq<string>>)
    requires Known(ops)
    ensures FeedRows(ops, rows).Ok? <==> forall k :: 0 <= k < |rows| ==> |rows[k]| <= |ops|
    ensures FeedRows(ops, rows).Ok? ==> var done := FeedRows(ops, rows).value;
      && |done| == |ops|
      && forall i :: 0 <= i < |ops| ==> OperateEach(ops[i], Column(rows, i)) == Ok(done[i])
    decreases |rows|
  {
    if rows != [] {
      FeedFromCells(ops, rows[0], 0);
      if |rows[0]| <= |ops| {
        var next := FeedFrom(ops, rows[0], 0).value;
        FeedRowsColumns(next, rows[1..]);
        assert forall k :: 1 <= k < |rows| ==> rows[1..][k - 1] == rows[k];
        if FeedRows(ops, rows).Ok? {
          forall i | 0 <= i < |ops|
            ensures OperateEach(ops[i], Column(rows, i)) == Ok(FeedRows(ops, rows).value[i])
          {
            OperateEachCell(ops[i], rows[0], i, rows[1..], next[i]);
          }
        }
      }
    }
  }

  /** The aggregate loop: the results of all operations added up. */
  function SumResults(done: seq<Operation>): int {
    if done == [] then 0 else done[0].result + SumResults(done[1..])
  }

  /** The worksheet's answer from its columns: column i totalled with the
      i-th operator, from column `from` on. */
  function WorksheetFrom(symbols: string, rows: seq<seq<string>>, from: nat): int
    decreases |symbols| - from
  {
    if from >= |symbols| then 0
    else Total(symbols[from], Column(rows, from)) + WorksheetFrom(symbols, rows, from + 1)
  }

  function Worksheet(symbols: string, rows: seq<seq<string>>): int {
    WorksheetFrom(symbols, rows, 0)
  }

  lemma {:induction false} SumResultsWorksheet(done: seq<Operation>, symbols: string, rows: seq<seq<string>>, from: nat)
    requires |done| == |symbols| && from <= |done|
    requires forall i :: 0 <= i < |done| ==> done[i].result == Total(symbols[i], Column(rows, i))
    ensures SumResults(done[from..]) == WorksheetFrom(symbols, rows, from)
    decreases |done| - from
  {
    if from < |done| {
      SumResultsWorksheet(done, symbols, rows, from + 1);
      assert done[from..][1..] == done[from + 1..];
    }
  }

  lemma BackwardsAppend<T>(a: seq<T>, b: seq<T>)
    ensures Backwards(a + b) == Backwards(b) + Backwards(a)
  {
  }

  lemma {:induction false} ColumnAppend(a: seq<seq<string>>, b: seq<seq<string>>, i: nat)
    ensures Column(a + b, i) == Column(a, i) + Column(b, i)
    decreases |a|
  {
    if a != [] {
      assert (a + b)[1..] == a[1..] + b;
      ColumnAppend(a[1..], b, i);
    } else {
      assert a + b == b;
    }
  }

  /** The rows read bottom-up give each column bottom-up. */
  lemma {:induction false} ColumnBackwards(rows: seq<seq<string>>, i: nat)
    ensures Column(Backwards(rows), i) == Backwards(Column(rows, i))
    decreases |rows|
  {
    if rows != [] {
      var rest := rows[1..];
      assert Backwards(rows) == Backwards(rest) + [rows[0]];
      ColumnAppend(Backwards(rest), [rows[0]], i);
      ColumnBackwards(rest, i);
      BackwardsAppend(Cell(rows[0], i), Column(rest, i));
      assert Backwards(Cell(rows[0], i)) == Cell(rows[0], i);
    }
  }

  /** The scanner's first loop: skip blank lines, stop at the first line
      that is not blank, or at the end. */
  function FirstNonBlank(rev: seq<string>, k: nat): (n: nat)
    requires k <= |rev|
    ensures k <= n <= |rev|
    decreases |rev| - k
  {
    if k == |rev| || rev[k] != "" then k else FirstNonBlank(rev, k + 1)
  }

  function FieldRows(lines: seq<string>): (rows: seq<seq<string>>)
    ensures |rows| == |lines|
    ensures forall k :: 0 <= k < |lines| ==> rows[k] == Fields(lines[k])
  {
    seq(|lines|, k requires 0 <= k < |lines| => Fields(lines[k]))
  }

  /** The operations of the operator line fed the operand rows in the
      order given, then added up. */
  function Evaluate(opLine: string, rows: seq<seq<string>>): Result<int> {
    match OperatorLine(opLine)
    case Fail(e) => Fail(e)
    case Ok(ops) =>
      match FeedRows(ops, rows)
      case Fail(e) => Fail(e)
      case Ok(done) => Ok(SumResults(done))
  }

  /** `runDay6` on the file's lines, read from the last one up. */
  function Day6Run(lines: seq<string>): Result<int> {
    var rev := Backwards(lines);
    var k := FirstNonBlank(rev, 0);
    var opLine := if k < |rev| then rev[k] else "";
    var operands := if k < |rev| then rev[k + 1..] else [];
    Evaluate(opLine, FieldRows(operands))
  }

  function Blanks(n: nat): seq<string> {
    seq(n, _ => "")
  }

  lemma {:induction false} SkipBlanks(rev: seq<string>, k: nat, n: nat)
    requires k <= n <= |rev|
    requires forall j :: k <= j < n ==> rev[j] == ""
    requires n < |rev| ==> rev[n] != ""
    ensures FirstNonBlank(rev, k) == n
    decreases n - k
  {
    if k < n {
      SkipBlanks(rev, k + 1, n);
    }
  }

  /** Read from the end, a file of lines `above`, then the operator line,
      then n blank lines, gives the operator line after the blanks and
      `above` bottom-up after it. */
  lemma ScanFromEnd(above: seq<string>, opLine: string, n: nat)
    requires opLine != ""
    ensures var rev := Backwards(above + [opLine] + Blanks(n));
      && FirstNonBlank(rev, 0) == n && n < |rev| && rev[n] == opLine
      && rev[n + 1..] == Backwards(above)
  {
    var rev := Backwards(above + [opLine] + Blanks(n));
    assert rev == Blanks(n) + [opLine] + Backwards(above);
    SkipBlanks(rev, 0, n);
  }

  /** The column results of an operator line fed its columns add up to the
      worksheet's answer, whatever order the rows come in. */
  lemma ResultsWorksheet(ops: seq<Operation>, done: seq<Operation>, symbols: string, rows: seq<seq<string>>)
    requires |ops| == |done| == |symbols|
    requires forall i :: 0 <= i < |ops| ==>
      && ops[i].operator != Unknown
      && ops[i] == Init(Fresh(ops[i].operator))
      && Symbol(ops[i].operator) == symbols[i]
    requires forall i :: 0 <= i < |ops| ==> OperateEach(ops[i], Column(Backwards(rows), i)) == Ok(done[i])
    ensures SumResults(done) == Worksheet(symbols, rows)
  {
    forall i | 0 <= i < |done|
      ensures done[i].result == Total(symbols[i], Column(rows, i))
    {
      InitOperateEach(ops[i].operator, Column(Backwards(rows), i));
      ColumnBackwards(rows, i);
      TotalBackwards(symbols[i], Column(rows, i));
    }
    SumResultsWorksheet(done, symbols, rows, 0);
    assert done[0..] == done;
  }

  /** Evaluating the operator line on rows fed bottom-up: it succeeds
      exactly when the line holds only spaces, `+` and `*` and no row has
      more fields than there are operators, and then gives the worksheet's
      answer, column by column. */
  lemma EvaluateWorksheet(opLine: string, rows: seq<seq<string>>)
    ensures var ok := (forall j :: 0 <= j < |opLine| ==> opLine[j] in " +*")
                   && (forall k :: 0 <= k < |rows| ==> |rows[k]| <= |NonSpaces(opLine)|);
      && (Evaluate(opLine, Backwards(rows)).Ok? <==> ok)
      && (ok ==> Evaluate(opLine, Backwards(rows)) == Ok(Worksheet(NonSpaces(opLine), rows)))
  {
    var r := OperatorLine(opLine);
    if r.Ok? {
      var ops := r.value;
      FeedRowsColumns(ops, Backwards(rows));
      assert (forall k :: 0 <= k < |rows| ==> |rows[k]| <= |ops|)
        <==> (forall k :: 0 <= k < |Backwards(rows)| ==> |Backwards(rows)[k]| <= |ops|) by {
        assert forall k :: 0 <= k < |rows| ==> Backwards(rows)[|rows| - 1 - k] == rows[k];
      }
      var f := FeedRows(ops, Backwards(rows));
      if f.Ok? {
        ResultsWorksheet(ops, f.value, NonSpaces(opLine), rows);
      }
    }
  }

  /** A file whose last non-blank line is `opLine` is evaluated on the
      lines above it, bottom-up. */
  lemma Day6RunScan(above: seq<string>, opLine: string, n: nat)
    requires opLine != ""
    ensures Day6Run(above + [opLine] + Blanks(n)) == Evaluate(opLine, Backwards(FieldRows(above)))
  {
    var rev := Backwards(above + [opLine] + Blanks(n));
    ScanFromEnd(above, opLine, n);
    var k := FirstNonBlank(rev, 0);
    assert k < |rev| && rev[k] == opLine && rev[k + 1..] == Backwards(above);
    FieldRowsBackwards(above);
  }

  lemma FieldRowsBackwards(lines: seq<string>)
    ensures FieldRows(Backwards(lines)) == Backwards(FieldRows(lines))
  {
  }

  /** Together: the run succeeds exactly when the operator line holds only
      spaces, `+` and `*` and no line above has more fields than there are
      operators, and then answers the worksheet's total. */
  lemma Day6RunWorksheet(above: seq<string>, opLine: string, n: nat)
    requires opLine != ""
    ensures var ok := (forall j :: 0 <= j < |opLine| ==> opLine[j] in " +*")
                   && (forall k :: 0 <= k < |above| ==> |Fields(above[k])| <= |NonSpaces(opLine)|);
      && (Day6Run(above + [opLine] + Blanks(n)).Ok? <==> ok)
      && (ok ==> Day6Run(above + [opLine] + Blanks(n)) == Ok(Worksheet(NonSpaces(opLine), FieldRows(above))))
  {
    Day6RunScan(above, opLine, n);
    EvaluateWorksheet(opLine, FieldRows(above));
  }

  /** A file of blank lines has no operations and answers 0. */
  lemma Day6RunBlank(n: nat)
    ensures Day6Run(Blanks(n)) == Ok(0)
  {
    var rev := Backwards(Blanks(n));
    SkipBlanks(rev, 0, n);
  }
}
