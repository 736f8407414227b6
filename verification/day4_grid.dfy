/** Day 4, the paper-roll grid: cell coordinates, the neighbourhood of a
    cell, and reading the rolls (`@`) out of the text rows. */
module Day4Grid {
  import opened Seqs

  datatype Coordinates = Coordinates(row: int, col: int)

  /** d is one of the eight cells around c. */
  predicate Touching(c: Coordinates, d: Coordinates) {
    c != d && -1 <= d.row - c.row <= 1 && -1 <= d.col - c.col <= 1
  }

  predicate OnGrid(c: Coordinates) {
    c.row >= 0 && c.col >= 0
  }

  /** `Coordinates.Adjacent`: the cells below-right, right and below, then
      the ones above when the row is positive, the ones to the left when the
      column is positive, and above-left when both are. On the grid this is
      the whole Moore neighbourhood clipped to non-negative coordinates. */
  function Adjacent(c: Coordinates): (adj: seq<Coordinates>)
    ensures OnGrid(c) ==> forall d :: d in adj <==> Touching(c, d) && OnGrid(d)
    ensures c !in adj
    ensures Distinct(adj)
    ensures |adj| == if c.row > 0 && c.col > 0 then 8 else if c.row > 0 || c.col > 0 then 5 else 3
  {
    var (r, k) := (c.row, c.col);
    [Coordinates(r + 1, k + 1), Coordinates(r, k + 1), Coordinates(r + 1, k)]
    + (if r > 0 then [Coordinates(r - 1, k), Coordinates(r - 1, k + 1)] else [])
    + (if k > 0 then [Coordinates(r, k - 1), Coordinates(r + 1, k - 1)] else [])
    + (if r > 0 && k > 0 then [Coordinates(r - 1, k - 1)] else [])
  }

  /** Adjacency between grid cells is symmetric, although `Adjacent` lists
      the cells direction by direction. */
  lemma AdjacentSymmetric(c: Coordinates, d: Coordinates)
    requires OnGrid(c) && OnGrid(d)
    ensures d in Adjacent(c) <==> c in Adjacent(d)
  {
  }

  /** The rolls of one row, scanning from column k on. */
  function RollsFrom(row: int, s: string, k: nat): (rolls: seq<Coordinates>)
    requires k <= |s|
    ensures forall c :: c in rolls <==> c.row == row && k <= c.col < |s| && s[c.col] == '@'
    ensures forall i, j :: 0 <= i < j < |rolls| ==> rolls[i].col < rolls[j].col
    decreases |s| - k
  {
    if k == |s| then []
    else (if s[k] == '@' then [Coordinates(row, k)] else []) + RollsFrom(row, s, k + 1)
  }

  /** `parseRollsFromRow`: one roll per `@` at (row, rune index), in column
      order; every other rune is ignored. */
  function ParseRollsFromRow(row: int, s: string): (rolls: seq<Coordinates>)
    ensures forall c :: c in rolls <==> c.row == row && 0 <= c.col < |s| && s[c.col] == '@'
    ensures forall i, j :: 0 <= i < j < |rolls| ==> rolls[i].col < rolls[j].col
  {
    RollsFrom(row, s, 0)
  }

  /** There is a roll at c in the rows. */
  predicate RollAt(lines: seq<string>, c: Coordinates) {
    0 <= c.row < |lines| && 0 <= c.col < |lines[c.row]| && lines[c.row][c.col] == '@'
  }

  /** The rolls of rows i and below, row by row. */
  function RollsOfRows(lines: seq<string>, i: nat): (rolls: seq<Coordinates>)
    requires i <= |lines|
    ensures forall c :: c in rolls <==> i <= c.row && RollAt(lines, c)
    ensures Distinct(rolls)
    decreases |lines| - i
  {
    if i == |lines| then []
    else
      var here := ParseRollsFromRow(i, lines[i]);
      var below := RollsOfRows(lines, i + 1);
      DistinctAppend(here, below);
      here + below
  }

  /** `RollMap`: the number of rows and the positions of the rolls. The
      column count is used for display only and is left out. */
  datatype RollMap = RollMap(rows: nat, rolls: set<Coordinates>)

  /** `readMap`, with the per-row goroutines merged into one set. */
  function ReadMap(lines: seq<string>): (m: RollMap)
    ensures m.rows == |lines|
    ensures forall c :: c in m.rolls <==> RollAt(lines, c)
    ensures forall c :: c in m.rolls ==> OnGrid(c)
  {
    RollMap(|lines|, set c | c in RollsOfRows(lines, 0))
  }

  /** One order in which Go may range over the rolls: row-major. */
  function RowMajor(lines: seq<string>): (order: seq<Coordinates>)
    ensures Distinct(order)
    ensures forall c :: c in order <==> c in ReadMap(lines).rolls
  {
    RollsOfRows(lines, 0)
  }
}
