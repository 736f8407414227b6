/** Day 4, part one: a roll is accessible when fewer than four of the eight
    cells around it hold rolls. Each row is judged from itself and the rows
    just above and below it. */
module Day4Rows {
  import opened Wrappers

  function Ind(b: bool): nat {
    if b then 1 else 0
  }

  /** The number of rolls in a stretch of cells. */
  function Rolls(w: seq<char>): nat {
    if w == [] then 0 else Ind(w[0] == '@') + Rolls(w[1..])
  }

  lemma RollsOfThree(w: seq<char>)
    requires |w| == 3
    ensures Rolls(w) == Ind(w[0] == '@') + Ind(w[1] == '@') + Ind(w[2] == '@')
  {
    assert w[1..][0] == w[1] && w[1..][1..] == w[2..];
    assert w[2..][0] == w[2] && w[2..][1..] == [];
    assert Rolls(w[2..]) == Ind(w[2] == '@') + Rolls([]);
    assert Rolls(w[1..]) == Ind(w[1] == '@') + Rolls(w[2..]);
  }

  lemma RollsOfTwo(a: char, b: char)
    ensures Rolls([a, b]) == Ind(a == '@') + Ind(b == '@')
  {
    assert [a, b][1..] == [b];
    assert [b][1..] == [];
    assert Rolls([b]) == Ind(b == '@') + Rolls([]);
  }

  /** `isRollAccessible` on the 3x3 window around a roll: the three cells
      above, the three below and the two beside it (never the roll itself)
      hold fewer than four rolls. */
  function IsRollAccessible(prev: seq<char>, cur: seq<char>, next: seq<char>): (accessible: bool)
    requires |prev| == 3 && |cur| == 3 && |next| == 3
    ensures accessible <==> Rolls(prev) + Rolls(next) + Rolls([cur[0], cur[2]]) < 4
  {
    RollsOfThree(prev);
    RollsOfThree(next);
    RollsOfTwo(cur[0], cur[2]);
    var adjacent := Ind(prev[0] == '@') + Ind(next[0] == '@') + Ind(cur[0] == '@')
      + Ind(prev[1] == '@') + Ind(next[1] == '@')
      + Ind(prev[2] == '@') + Ind(next[2] == '@') + Ind(cur[2] == '@');
    adjacent < 4
  }

  /** A nil neighbour row is read as a row of `.` as wide as the current one. */
  function Dots(n: nat): (row: string)
    ensures |row| == n && Rolls(row) == 0
  {
    if n == 0 then ""
    else
      var row := "." + Dots(n - 1);
      assert row[1..] == Dots(n - 1);
      row
  }

  /** Column i of a row, as the window of a roll in a row of the given width
      sees it: `.` outside the current row's columns. */
  function CellOf(row: string, j: int, width: nat): char {
    if 0 <= j < width && j < |row| then row[j] else '.'
  }

  /** The rolls among the eight cells around column i of cur. */
  function Around(prev: string, cur: string, next: string, i: int): nat {
    var w := |cur|;
    Ind(CellOf(prev, i - 1, w) == '@') + Ind(CellOf(prev, i, w) == '@') + Ind(CellOf(prev, i + 1, w) == '@')
    + Ind(CellOf(cur, i - 1, w) == '@') + Ind(CellOf(cur, i + 1, w) == '@')
    + Ind(CellOf(next, i - 1, w) == '@') + Ind(CellOf(next, i, w) == '@') + Ind(CellOf(next, i + 1, w) == '@')
  }

  /** The columns of cur that hold an accessible roll, from column i on. */
  function AccessibleFrom(prev: string, cur: string, next: string, i: nat): set<int> {
    set j | i <= j < |cur| && cur[j] == '@' && Around(prev, cur, next, j) < 4
  }

  /** The neighbour row holds every column the window of a roll at i reads:
      i itself, and i + 1 unless i is the last column of the current row. */
  predicate Reaches(row: string, i: nat, width: nat) {
    i < |row| && (i + 1 == width || i + 1 < |row|)
  }

  /** The 3-cell slice of a row around column i, padded with `.` at the
      edges of the current row. */
  function Triple(row: string, i: nat, width: nat): (t: seq<char>)
    requires i < width && Reaches(row, i, width)
    ensures |t| == 3
    ensures t[0] == CellOf(row, i - 1, width) && t[1] == CellOf(row, i, width) && t[2] == CellOf(row, i + 1, width)
  {
    [if i == 0 then '.' else row[i - 1], row[i], if i == width - 1 then '.' else row[i + 1]]
  }

  predicate ValidCell(c: char) {
    c == '.' || c == '@'
  }

  lemma WindowIsAround(prev: string, cur: string, next: string, i: nat)
    requires i < |cur| && Reaches(prev, i, |cur|) && Reaches(next, i, |cur|)
    ensures IsRollAccessible(Triple(prev, i, |cur|), Triple(cur, i, |cur|), Triple(next, i, |cur|))
            <==> Around(prev, cur, next, i) < 4
  {
    var p, c, n := Triple(prev, i, |cur|), Triple(cur, i, |cur|), Triple(next, i, |cur|);
    RollsOfThree(p);
    RollsOfThree(n);
    RollsOfTwo(c[0], c[2]);
  }

  lemma AccessibleFromStep(prev: string, cur: string, next: string, i: nat)
    requires i < |cur|
    ensures AccessibleFrom(prev, cur, next, i) ==
            (if cur[i] == '@' && Around(prev, cur, next, i) < 4 then {i} else {})
            + AccessibleFrom(prev, cur, next, i + 1)
    ensures i !in AccessibleFrom(prev, cur, next, i + 1)
  {
  }

  /** Column j of cur can be judged without a panic. */
  predicate Judgeable(prev: string, cur: string, next: string, j: nat)
    requires j < |cur|
  {
    ValidCell(cur[j]) && (cur[j] == '@' ==> Reaches(prev, j, |cur|) && Reaches(next, j, |cur|))
  }

  /** The loop of `countAccessibleRolls` from column i on. */
  function CountFrom(prev: string, cur: string, next: string, i: nat): (r: Result<nat>)
    requires i <= |cur|
    ensures r.Ok? <==> forall j :: i <= j < |cur| ==> Judgeable(prev, cur, next, j)
    decreases |cur| - i
  {
    if i == |cur| then Ok(0)
    else if cur[i] == '.' then CountFrom(prev, cur, next, i + 1)
    else if cur[i] == '@' then
      if !Reaches(prev, i, |cur|) || !Reaches(next, i, |cur|) then
        assert !Judgeable(prev, cur, next, i);
        Fail("index out of range")
      else
        var accessible := IsRollAccessible(Triple(prev, i, |cur|), Triple(cur, i, |cur|), Triple(next, i, |cur|));
        var rest := CountFrom(prev, cur, next, i + 1);
        if rest.Fail? then rest else Ok(Ind(accessible) + rest.value)
    else
      assert !Judgeable(prev, cur, next, i);
      Fail("unknown rune in the map")
  }

  /** The loop counts exactly the rolls with fewer than four rolls around. */
  lemma {:induction false} CountFromValue(prev: string, cur: string, next: string, i: nat)
    requires i <= |cur|
    ensures CountFrom(prev, cur, next, i).Ok? ==>
              CountFrom(prev, cur, next, i).value == |AccessibleFrom(prev, cur, next, i)|
    decreases |cur| - i
  {
    if i == |cur| {
      assert AccessibleFrom(prev, cur, next, i) == {};
    } else {
      CountFromValue(prev, cur, next, i + 1);
      AccessibleFromStep(prev, cur, next, i);
      if cur[i] == '@' && Reaches(prev, i, |cur|) && Reaches(next, i, |cur|) {
        WindowIsAround(prev, cur, next, i);
      }
    }
  }

  /** `countAccessibleRolls` for one row: a nil neighbour row reads as all
      `.`; an `@` whose window runs past the end of a shorter neighbour row
      is an index-out-of-range panic; any rune other than `.` and `@` is a
      panic. Otherwise the result is the number of rolls of the row with
      fewer than four rolls around them. */
  function CountAccessibleRolls(prev: Option<string>, cur: string, next: Option<string>): (r: Result<nat>)
    ensures
      var p := if prev.Some? then prev.value else Dots(|cur|);
      var n := if next.Some? then next.value else Dots(|cur|);
      && (r.Ok? <==> forall j :: 0 <= j < |cur| ==> Judgeable(p, cur, n, j))
      && (r.Ok? ==> r.value == |AccessibleFrom(p, cur, n, 0)|)
  {
    var p := if prev.Some? then prev.value else Dots(|cur|);
    var n := if next.Some? then next.value else Dots(|cur|);
    CountFromValue(p, cur, n, 0);
    CountFrom(p, cur, n, 0)
  }

  lemma AccessibleFromBound(prev: string, cur: string, next: string, i: nat)
    requires i <= |cur|
    ensures |AccessibleFrom(prev, cur, next, i)| <= Rolls(cur[i..])
    decreases |cur| - i
  {
    if i < |cur| {
      AccessibleFromBound(prev, cur, next, i + 1);
      assert cur[i..][1..] == cur[i + 1..];
      AccessibleFromStep(prev, cur, next, i);
    } else {
      assert AccessibleFrom(prev, cur, next, i) == {};
    }
  }

  /** A row never has more accessible rolls than rolls. */
  lemma CountAccessibleRollsBound(prev: Option<string>, cur: string, next: Option<string>)
    ensures CountAccessibleRolls(prev, cur, next).Ok? ==> CountAccessibleRolls(prev, cur, next).value <= Rolls(cur)
  {
    var p := if prev.Some? then prev.value else Dots(|cur|);
    var n := if next.Some? then next.value else Dots(|cur|);
    AccessibleFromBound(p, cur, n, 0);
    assert cur[0..] == cur;
  }

  /** The neighbour rows of row k, a row of `.` past either end. */
  function RowAbove(lines: seq<string>, k: nat): string
    requires k < |lines|
  {
    if k > 0 then lines[k - 1] else Dots(|lines[k]|)
  }

  function RowBelow(lines: seq<string>, k: nat): string
    requires k < |lines|
  {
    if k + 1 < |lines| then lines[k + 1] else Dots(|lines[k]|)
  }

  /** Every cell of row k can be judged without a panic. */
  predicate RowJudgeable(lines: seq<string>, k: nat)
    requires k < |lines|
  {
    forall j :: 0 <= j < |lines[k]| ==> Judgeable(RowAbove(lines, k), lines[k], RowBelow(lines, k), j)
  }

  /** The accessible rolls of rows i and below, as positions. */
  function AccessibleCells(lines: seq<string>, i: nat): set<(int, int)>
    requires i <= |lines|
  {
    set k, j | i <= k < |lines| && j in AccessibleFrom(RowAbove(lines, k), lines[k], RowBelow(lines, k), 0) :: (k, j)
  }

  /** Columns of row k, as positions. */
  function Tag(k: int, js: set<int>): set<(int, int)> {
    set j | j in js :: (k, j)
  }

  /** The accessible columns of a row, from column i on, paired with the
      row number: one position per column. */
  lemma {:induction false} RowCells(k: int, prev: string, cur: string, next: string, i: nat)
    requires i <= |cur|
    ensures |Tag(k, AccessibleFrom(prev, cur, next, i))| == |AccessibleFrom(prev, cur, next, i)|
    decreases |cur| - i
  {
    var js := AccessibleFrom(prev, cur, next, i);
    if i == |cur| {
      assert js == {};
      assert Tag(k, js) == {};
    } else {
      RowCells(k, prev, cur, next, i + 1);
      AccessibleFromStep(prev, cur, next, i);
      var rest := AccessibleFrom(prev, cur, next, i + 1);
      var image := Tag(k, js);
      var restImage := Tag(k, rest);
      assert |restImage| == |rest|;
      if i in js {
        assert js == rest + {i} && i !in rest;
        assert (k, i) !in restImage;
        assert image == restImage + {(k, i)};
        assert |image| == |restImage| + 1;
      } else {
        assert js == rest;
      }
    }
  }

  lemma AccessibleCellsStep(lines: seq<string>, i: nat)
    requires i < |lines|
    ensures |AccessibleCells(lines, i)| ==
      |AccessibleFrom(RowAbove(lines, i), lines[i], RowBelow(lines, i), 0)| + |AccessibleCells(lines, i + 1)|
  {
    var js := AccessibleFrom(RowAbove(lines, i), lines[i], RowBelow(lines, i), 0);
    var here := Tag(i, js);
    assert AccessibleCells(lines, i) == here + AccessibleCells(lines, i + 1);
    assert here !! AccessibleCells(lines, i + 1);
    RowCells(i, RowAbove(lines, i), lines[i], RowBelow(lines, i), 0);
  }

  /** Part one over the whole map: row i is judged with row i-1 above it (nil
      for the first row) and row i+1 below it (nil for the last row), and the
      per-row counts are added up. */
  function CountAccessibleMap(lines: seq<string>, i: nat): (r: Result<nat>)
    requires i <= |lines|
    ensures r.Ok? <==> forall k :: i <= k < |lines| ==> RowJudgeable(lines, k)
    ensures r.Ok? ==> r.value == |AccessibleCells(lines, i)|
    decreases |lines| - i
  {
    if i == |lines| then
      assert AccessibleCells(lines, i) == {};
      Ok(0)
    else
      var prev := if i > 0 then Some(lines[i - 1]) else None;
      var next := if i + 1 < |lines| then Some(lines[i + 1]) else None;
      var here := CountAccessibleRolls(prev, lines[i], next);
      var rest := CountAccessibleMap(lines, i + 1);
      AccessibleCellsStep(lines, i);
      assert RowAbove(lines, i) == (if prev.Some? then prev.value else Dots(|lines[i]|));
      assert RowBelow(lines, i) == (if next.Some? then next.value else Dots(|lines[i]|));
      assert here.Ok? <==> RowJudgeable(lines, i);
      if here.Fail? then Fail(here.reason)
      else if rest.Fail? then Fail(rest.reason)
      else Ok(here.value + rest.value)
  }
}
