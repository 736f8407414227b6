/** Day 7: tachyon beams. The first line marks the beam's start column with
    `S`; every later line that holds splitters (`^`) is a row of the
    manifold. A beam that meets a splitter stops there and two beams go on
    from the columns either side; any other beam carries straight down.
    Part one counts the splits, the follow-up counts the distinct routes a
    single particle can take. */
module Day7 {
  import opened Wrappers
  import opened Seqs

  /** `findStart`: the first column holding `S`. */
  function FindStart(line: string): (r: Result<nat>)
    ensures r.Ok? <==> 'S' in line
    ensures r.Ok? ==> r.value < |line| && line[r.value] == 'S'
    ensures r.Ok? ==> forall j :: 0 <= j < r.value ==> line[j] != 'S'
  {
    if line == [] then Fail("starting position not found")
    else if line[0] == 'S' then Ok(0)
    else
      var rest := FindStart(line[1..]);
      assert forall j :: 1 <= j < |line| ==> line[j] == line[1..][j - 1];
      assert 'S' in line <==> 'S' in line[1..] by {
        assert line == [line[0]] + line[1..];
      }
      match rest
      case Fail(e) => Fail(e)
      case Ok(c) => Ok(c + 1)
  }

  /** The columns of the splitters on a line. */
  function Marks(line: string): set<int> {
    set c | 0 <= c < |line| && line[c] == '^'
  }

  /** The splitter columns from `i` on, left to right. */
  function ColumnsFrom(line: string, i: nat): (cols: seq<int>)
    requires i <= |line|
    ensures forall c :: c in cols <==> i <= c < |line| && line[c] == '^'
    ensures forall j, k :: 0 <= j < k < |cols| ==> cols[j] < cols[k]
    decreases |line| - i
  {
    if i == |line| then []
    else
      var rest := ColumnsFrom(line, i + 1);
      assert forall k :: 0 <= k < |rest| ==> rest[k] > i by {
        assert forall k :: 0 <= k < |rest| ==> rest[k] in rest;
      }
      if line[i] == '^' then [i] + rest else rest
  }

  /** `parseSplits`: the splitter columns, left to right; a line without
      any is an error. */
  function ParseSplits(line: string): (r: Result<seq<int>>)
    ensures r.Ok? <==> Marks(line) != {}
    ensures r.Ok? ==> Elements(r.value) == Marks(line)
    ensures r.Ok? ==> forall j, k :: 0 <= j < k < |r.value| ==> r.value[j] < r.value[k]
  {
    var cols := ColumnsFrom(line, 0);
    assert Elements(cols) == Marks(line);
    assert |cols| > 0 ==> cols[0] in Elements(cols);
    if |cols| == 0 then Fail("no splits found in line") else Ok(cols)
  }

  /** The manifold as `parseTachyonInput` leaves it: the start column and,
      for each counted row, the set of its splitter columns. Row 0 is the
      start line and has none. The number of rows is `rowCount`. */
  datatype Manifold = Manifold(start: int, rows: seq<set<int>>)

  /** The rows after the start line. A line without splitters is skipped
      before the row counter advances, so it gets no row of its own. */
  function SplitterRows(lines: seq<string>): (rows: seq<set<int>>)
    ensures forall k :: 0 <= k < |rows| ==> rows[k] != {}
  {
    if lines == [] then []
    else
      match ParseSplits(lines[0])
      case Fail(_) => SplitterRows(lines[1..])
      case Ok(cols) => [Elements(cols)] + SplitterRows(lines[1..])
  }

  /** `parseTachyonInput`: a missing `S` leaves the start at column 0. */
  function ParseTachyonInput(lines: seq<string>): (m: Manifold)
    ensures lines == [] ==> m == Manifold(0, [])
    ensures lines != [] ==> |m.rows| >= 1 && m.rows[0] == {}
    ensures lines != [] && 'S' in lines[0] ==> 0 <= m.start < |lines[0]| && lines[0][m.start] == 'S'
    ensures lines != [] && 'S' !in lines[0] ==> m.start == 0
  {
    if lines == [] then Manifold(0, [])
    else
      var start := match FindStart(lines[0]) case Ok(c) => c case Fail(_) => 0;
      Manifold(start, [{}] + SplitterRows(lines[1..]))
  }

  /** Every line as a row, splitters or not. */
  function PhysicalRows(lines: seq<string>): (rows: seq<set<int>>)
    ensures |rows| == |lines|
    ensures forall k :: 0 <= k < |lines| ==> rows[k] == Marks(lines[k])
  {
    if lines == [] then [] else [Marks(lines[0])] + PhysicalRows(lines[1..])
  }

  /** The rows with splitters, in order. */
  function Busy(rows: seq<set<int>>): (busy: seq<set<int>>)
    ensures forall k :: 0 <= k < |busy| ==> busy[k] != {}
    ensures |busy| <= |rows|
  {
    if rows == [] then []
    else if rows[0] == {} then Busy(rows[1..])
    else [rows[0]] + Busy(rows[1..])
  }

  /** The counted rows are exactly the physical rows that hold splitters. */
  lemma {:induction false} SplitterRowsAreBusy(lines: seq<string>)
    ensures SplitterRows(lines) == Busy(PhysicalRows(lines))
    decreases |lines|
  {
    if lines != [] {
      SplitterRowsAreBusy(lines[1..]);
      var rows := PhysicalRows(lines);
      assert rows[0] == Marks(lines[0]) && rows[1..] == PhysicalRows(lines[1..]);
      var parsed := ParseSplits(lines[0]);
      if parsed.Ok? {
        assert rows[0] != {};
      } else {
        assert SplitterRows(lines) == SplitterRows(lines[1..]);
        assert Busy(rows) == Busy(rows[1..]);
      }
    }
  }

  /** Every column of the set moved by `d`. */
  function Shift(s: set<int>, d: int): set<int> {
    set r | r in s :: r + d
  }

  lemma ShiftMember(s: set<int>, d: int, x: int)
    ensures x in Shift(s, d) <==> x - d in s
  {
    if x - d in s {
      assert x == (x - d) + d;
    }
  }

  /** The beams one row further down: a beam on a splitter gives way to a
      beam on each side of it, every other beam carries on. */
  function Spread(row: set<int>, rays: set<int>): set<int> {
    (rays - row) + Shift(rays * row, -1) + Shift(rays * row, 1)
  }

  lemma SpreadMember(row: set<int>, rays: set<int>, x: int)
    ensures x in Spread(row, rays) <==>
      (x in rays && x !in row) || (x + 1 in rays && x + 1 in row) || (x - 1 in rays && x - 1 in row)
  {
    ShiftMember(rays * row, -1, x);
    ShiftMember(rays * row, 1, x);
  }

  /** Column `x` has a beam one row below `row` when the beams are `rays`. */
  predicate Reaches(row: set<int>, rays: set<int>, x: int) {
    (x in rays && x !in row) || (x + 1 in rays && x + 1 in row) || (x - 1 in rays && x - 1 in row)
  }

  /** The inner loop of `traceRays`, over the beams in the order given (the
      set's iteration order): the beams of the next row and the number of
      splits. */
  function SplitRow(row: set<int>, order: seq<int>): (r: (set<int>, nat))
    requires Distinct(order)
    ensures r.1 == |Elements(order) * row|
  {
    if order == [] then ({}, 0)
    else
      var ray := order[0];
      var t := SplitRow(row, order[1..]);
      SplitRowStep(row, order);
      (t.0 + (if ray in row then {ray - 1, ray + 1} else {ray}), t.1 + if ray in row then 1 else 0)
  }

  /** The loop leaves a beam exactly on the columns the beams reach. */
  lemma {:induction false} SplitRowBeams(row: set<int>, order: seq<int>)
    requires Distinct(order)
    ensures forall x :: x in SplitRow(row, order).0 <==> Reaches(row, Elements(order), x)
    decreases |order|
  {
    if order != [] {
      SplitRowStep(row, order);
      SplitRowBeams(row, order[1..]);
    }
  }

  lemma SplitRowStep(row: set<int>, order: seq<int>)
    requires order != [] && Distinct(order)
    ensures Distinct(order[1..])
    ensures forall x :: Reaches(row, Elements(order), x) <==>
      Reaches(row, Elements(order[1..]), x) || x in (if order[0] in row then {order[0] - 1, order[0] + 1} else {order[0]})
    ensures |Elements(order) * row| == |Elements(order[1..]) * row| + if order[0] in row then 1 else 0
  {
    var ray, rest := order[0], Elements(order[1..]);
    ElementsSplit(order);
    ReachesStep(row, ray, rest);
    CountStep(row, ray, rest);
  }

  lemma ElementsSplit(order: seq<int>)
    requires order != [] && Distinct(order)
    ensures Distinct(order[1..])
    ensures Elements(order) == {order[0]} + Elements(order[1..]) && order[0] !in Elements(order[1..])
  {
    ElementsCons({}, order);
  }

  lemma ReachesStep(row: set<int>, ray: int, rest: set<int>)
    ensures forall x :: Reaches(row, {ray} + rest, x) <==>
      Reaches(row, rest, x) || x in (if ray in row then {ray - 1, ray + 1} else {ray})
  {
  }

  lemma CountStep(row: set<int>, ray: int, rest: set<int>)
    requires ray !in rest
    ensures |({ray} + rest) * row| == |rest * row| + if ray in row then 1 else 0
  {
    if ray in row {
      assert ({ray} + rest) * row == {ray} + rest * row;
    } else {
      assert ({ray} + rest) * row == rest * row;
    }
  }

  /** Whatever the order, the loop leaves exactly the beams `Spread` names. */
  lemma SplitRowSpreads(row: set<int>, order: seq<int>)
    requires Distinct(order)
    ensures SplitRow(row, order).0 == Spread(row, Elements(order))
  {
    SplitRowBeams(row, order);
    forall x ensures x in SplitRow(row, order).0 <==> x in Spread(row, Elements(order)) {
      SpreadMember(row, Elements(order), x);
    }
  }

  /** The orders in which Go happens to range over each row's set of
      beams: row `k` with beams `s` is visited in the order `pick(k, s)`. */
  ghost predicate Enumerates(pick: (nat, set<int>) -> seq<int>) {
    forall k, s :: Distinct(pick(k, s)) && Elements(pick(k, s)) == s
  }

  /** The splits counted from row `k` on, the beams being `rays`. */
  function TraceFrom(rows: seq<set<int>>, k: nat, rays: set<int>, pick: (nat, set<int>) -> seq<int>): (splits: nat)
    requires Enumerates(pick)
    ensures splits == SplitsBelow(rows, rays)
    decreases |rows|
  {
    if rows == [] then 0
    else
      var step := SplitRow(rows[0], pick(k, rays));
      SplitRowSpreads(rows[0], pick(k, rays));
      step.1 + TraceFrom(rows[1..], k + 1, step.0, pick)
  }

  /** The number of splitters some beam reaches, row by row. */
  function SplitsBelow(rows: seq<set<int>>, rays: set<int>): nat {
    if rows == [] then 0 else |rays * rows[0]| + SplitsBelow(rows[1..], Spread(rows[0], rays))
  }

  /** `traceRays`: the splits counted from the start beam down through all
      `rowCount` rows. */
  function TraceRays(m: Manifold, pick: (nat, set<int>) -> seq<int>): (splits: nat)
    requires Enumerates(pick)
    ensures splits == SplitsBelow(m.rows, {m.start})
  {
    TraceFrom(m.rows, 0, {m.start}, pick)
  }

  /** Rows without splitters pass every beam through and count nothing. */
  lemma {:induction false} QuietRowsSplitNothing(rows: seq<set<int>>, rays: set<int>)
    ensures SplitsBelow(Busy(rows), rays) == SplitsBelow(rows, rays)
    decreases |rows|
  {
    if rows != [] {
      if rows[0] == {} {
        assert Spread({}, rays) == rays;
        QuietRowsSplitNothing(rows[1..], rays);
      } else {
        QuietRowsSplitNothing(rows[1..], Spread(rows[0], rays));
        assert Busy(rows) == [rows[0]] + Busy(rows[1..]);
        assert Busy(rows)[1..] == Busy(rows[1..]);
      }
    }
  }

  /** Skipping the lines without splitters changes no count: the splits
      traced through the parsed manifold are those traced through every
      line below the start line. */
  lemma TraceRaysOfLines(lines: seq<string>, pick: (nat, set<int>) -> seq<int>)
    requires Enumerates(pick) && lines != []
    ensures TraceRays(ParseTachyonInput(lines), pick)
         == SplitsBelow(PhysicalRows(lines[1..]), {ParseTachyonInput(lines).start})
  {
    var m := ParseTachyonInput(lines);
    var rays := {m.start};
    SplitterRowsAreBusy(lines[1..]);
    QuietRowsSplitNothing(PhysicalRows(lines[1..]), rays);
    assert m.rows[1..] == SplitterRows(lines[1..]);
    assert Spread({}, rays) == rays;
  }

  /** The routes a particle entering `rows` at column `col` can take: each
      splitter it meets doubles the choices. */
  function Routes(rows: seq<set<int>>, col: int): nat
    decreases |rows|
  {
    if rows == [] then 1
    else if col in rows[0] then Routes(rows[1..], col - 1) + Routes(rows[1..], col + 1)
    else Routes(rows[1..], col)
  }

  /** One entry of `countPaths`' set: a column and how many routes end
      there. */
  datatype Path = Path(ray: int, origins: int)

  /** `addOrIncrease` on the map from columns to route counts. */
  function AddOrIncrease(m: map<int, int>, key: int, delta: int): (r: map<int, int>)
    ensures r.Keys == m.Keys + {key}
    ensures r[key] == if key in m then m[key] + delta else delta
    ensures forall k :: k in m && k != key ==> r[k] == m[k]
  {
    if key !in m then m[key := delta] else m[key := m[key] + delta]
  }

  /** The inner loop of `countPaths`: the paths of one row, in the order
      given, added into the next row's map. */
  function Advance(row: set<int>, paths: seq<Path>, acc: map<int, int>): map<int, int>
    decreases |paths|
  {
    if paths == [] then acc else Advance(row, paths[1..], Step(row, paths[0], acc))
  }

  /** One path through the row: split to both neighbours or carried on. */
  function Step(row: set<int>, p: Path, acc: map<int, int>): map<int, int> {
    if p.ray in row then AddOrIncrease(AddOrIncrease(acc, p.ray - 1, p.origins), p.ray + 1, p.origins)
    else AddOrIncrease(acc, p.ray, p.origins)
  }

  /** Every key listed is in the map. */
  predicate Within(keys: seq<int>, m: map<int, int>) {
    forall i :: 0 <= i < |keys| ==> keys[i] in m
  }

  /** The next row's set of paths, built from the map in the order `keys`. */
  function PathsOf(m: map<int, int>, keys: seq<int>): (paths: seq<Path>)
    requires Within(keys, m)
    ensures |paths| == |keys|
    ensures forall i :: 0 <= i < |keys| ==> paths[i] == Path(keys[i], m[keys[i]])
  {
    seq(|keys|, i requires 0 <= i < |keys| => Path(keys[i], m[keys[i]]))
  }

  /** The final sum over the paths' route counts. */
  function Total(paths: seq<Path>): int {
    if paths == [] then 0 else paths[0].origins + Total(paths[1..])
  }

  /** The rows from `k` on; each row's map is ranged over in the order
      `pick(k, keys)`. */
  function CountFrom(rows: seq<set<int>>, k: nat, paths: seq<Path>, pick: (nat, set<int>) -> seq<int>): int
    requires Enumerates(pick)
    decreases |rows|
  {
    if rows == [] then Total(paths)
    else
      var next := Advance(rows[0], paths, map[]);
      var order := pick(k, next.Keys);
      assert Within(order, next) by {
        assert forall i :: 0 <= i < |order| ==> order[i] in Elements(order);
      }
      CountFrom(rows[1..], k + 1, PathsOf(next, order), pick)
  }

  /** `countPaths`: one particle at the start column, followed through all
      `rowCount` rows. */
  function CountPaths(m: Manifold, pick: (nat, set<int>) -> seq<int>): int
    requires Enumerates(pick)
  {
    CountFrom(m.rows, 0, [Path(m.start, 1)], pick)
  }

  /** Each path's count times the routes left from its column. */
  function Weighted(paths: seq<Path>, rows: seq<set<int>>): int {
    if paths == [] then 0
    else paths[0].origins * Routes(rows, paths[0].ray) + Weighted(paths[1..], rows)
  }

  /** The same, over a map's entries in the order `keys`. */
  function Weight(m: map<int, int>, keys: seq<int>, rows: seq<set<int>>): int
    requires Within(keys, m)
  {
    if keys == [] then 0
    else m[keys[0]] * Routes(rows, keys[0]) + Weight(m, keys[1..], rows)
  }

  /** `keys` lists every key of the map once. */
  predicate EnumeratesKeys(keys: seq<int>, m: map<int, int>) {
    Distinct(keys) && Elements(keys) == m.Keys
  }

  lemma EnumeratedWithin(keys: seq<int>, m: map<int, int>)
    requires EnumeratesKeys(keys, m)
    ensures Within(keys, m)
  {
    assert forall i :: 0 <= i < |keys| ==> keys[i] in Elements(keys);
  }

  lemma {:induction false} WeightAppend(m: map<int, int>, keys: seq<int>, key: int, rows: seq<set<int>>)
    requires Within(keys, m) && key in m
    ensures Within(keys + [key], m)
    ensures Weight(m, keys + [key], rows) == Weight(m, keys, rows) + m[key] * Routes(rows, key)
    decreases |keys|
  {
    if keys == [] {
      assert [key][1..] == [];
    } else {
      assert (keys + [key])[1..] == keys[1..] + [key];
      WeightAppend(m, keys[1..], key, rows);
    }
  }

  lemma Distribute(a: int, b: int, c: int)
    ensures (a + b) * c == a * c + b * c
    ensures c * (a + b) == c * a + c * b
  {
  }

  /** Raising one entry by `d` raises the weight by `d` times its routes,
      when the key is listed. */
  lemma {:induction false} WeightUpdate(m: map<int, int>, m': map<int, int>, keys: seq<int>, key: int, d: int, rows: seq<set<int>>)
    requires Within(keys, m) && Distinct(keys)
    requires forall k :: k in m ==> k in m' && (k != key ==> m'[k] == m[k])
    requires key in m ==> m'[key] == m[key] + d
    ensures Within(keys, m')
    ensures Weight(m', keys, rows) == Weight(m, keys, rows) + if key in Elements(keys) then d * Routes(rows, key) else 0
    decreases |keys|
  {
    if keys != [] {
      assert keys[0] in m;
      WeightUpdate(m, m', keys[1..], key, d, rows);
      ElementsCons({}, keys);
      if keys[0] == key {
        assert key !in Elements(keys[1..]);
        Distribute(m[key], d, Routes(rows, key));
      }
    }
  }

  /** The keys of `addOrIncrease`'s map: a new key is listed last. */
  function AddKeys(m: map<int, int>, key: int, keys: seq<int>): seq<int> {
    if key in m then keys else keys + [key]
  }

  /** `addOrIncrease` adds `delta` routes ending at `key`. */
  lemma AddWeight(m: map<int, int>, key: int, delta: int, keys: seq<int>, rows: seq<set<int>>)
    requires EnumeratesKeys(keys, m)
    ensures EnumeratesKeys(AddKeys(m, key, keys), AddOrIncrease(m, key, delta))
    ensures Weight(AddOrIncrease(m, key, delta), AddKeys(m, key, keys), rows) == Weight(m, keys, rows) + delta * Routes(rows, key)
  {
    var m' := AddOrIncrease(m, key, delta);
    EnumeratedWithin(keys, m);
    WeightUpdate(m, m', keys, key, delta, rows);
    if key !in m {
      DistinctAppend(keys, [key]);
      assert Elements(keys + [key]) == Elements(keys) + {key};
      WeightAppend(m', keys, key, rows);
    }
  }

  /** Removing the entry at position `i` takes its share off the weight. */
  lemma {:induction false} WeightRemove(m: map<int, int>, keys: seq<int>, i: nat, rows: seq<set<int>>)
    requires Within(keys, m) && i < |keys|
    ensures Within(keys[..i] + keys[i + 1..], m)
    ensures Weight(m, keys, rows) == m[keys[i]] * Routes(rows, keys[i]) + Weight(m, keys[..i] + keys[i + 1..], rows)
    decreases i
  {
    var rest := keys[..i] + keys[i + 1..];
    assert forall j :: 0 <= j < |rest| ==> rest[j] == if j < i then keys[j] else keys[j + 1];
    if i == 0 {
      assert rest == keys[1..];
    } else {
      WeightRemove(m, keys[1..], i - 1, rows);
      assert rest == [keys[0]] + (keys[1..][..i - 1] + keys[1..][i..]);
      assert rest[1..] == keys[1..][..i - 1] + keys[1..][i..];
    }
  }

  /** The weight of a map does not depend on the order its keys are
      listed in. */
  lemma {:induction false} WeightOrderFree(m: map<int, int>, a: seq<int>, b: seq<int>, rows: seq<set<int>>)
    requires Within(a, m) && Distinct(a) && Distinct(b) && Elements(a) == Elements(b)
    ensures Within(b, m)
    ensures Weight(m, a, rows) == Weight(m, b, rows)
    decreases |a|
  {
    assert forall j :: 0 <= j < |b| ==> b[j] in Elements(b);
    if a != [] {
      assert a[0] in Elements(b);
      var i :| 0 <= i < |b| && b[i] == a[0];
      WeightRemove(m, b, i, rows);
      var b' := b[..i] + b[i + 1..];
      DistinctRemove(b, i);
      DistinctRemove(a, 0);
      assert a[..0] + a[1..] == a[1..];
      WeightOrderFree(m, a[1..], b', rows);
    }
  }

  /** One row more: a route from `col` through `row` continues from the
      neighbouring columns when `row` splits it. */
  lemma RoutesStep(row: set<int>, rows: seq<set<int>>, col: int)
    ensures Routes([row] + rows, col) == if col in row then Routes(rows, col - 1) + Routes(rows, col + 1) else Routes(rows, col)
  {
    assert ([row] + rows)[1..] == rows;
  }

  /** The keys of `Step`'s map, new ones listed after the old. */
  function StepKeys(row: set<int>, p: Path, acc: map<int, int>, keys: seq<int>): seq<int> {
    if p.ray in row then
      AddKeys(AddOrIncrease(acc, p.ray - 1, p.origins), p.ray + 1, AddKeys(acc, p.ray - 1, keys))
    else AddKeys(acc, p.ray, keys)
  }

  /** A split path adds its count to both neighbours' routes. */
  lemma SplitWeight(p: Path, acc: map<int, int>, keys: seq<int>, rows: seq<set<int>>)
    requires EnumeratesKeys(keys, acc)
    ensures var a1 := AddOrIncrease(acc, p.ray - 1, p.origins);
      var k2 := AddKeys(a1, p.ray + 1, AddKeys(acc, p.ray - 1, keys));
      && EnumeratesKeys(k2, AddOrIncrease(a1, p.ray + 1, p.origins))
      && Weight(AddOrIncrease(a1, p.ray + 1, p.origins), k2, rows)
         == Weight(acc, keys, rows) + p.origins * (Routes(rows, p.ray - 1) + Routes(rows, p.ray + 1))
  {
    var a1 := AddOrIncrease(acc, p.ray - 1, p.origins);
    AddWeight(acc, p.ray - 1, p.origins, keys, rows);
    AddWeight(a1, p.ray + 1, p.origins, AddKeys(acc, p.ray - 1, keys), rows);
    Distribute(Routes(rows, p.ray - 1), Routes(rows, p.ray + 1), p.origins);
  }

  /** One step adds the path's routes from `row` on to the weight. */
  lemma StepWeight(row: set<int>, p: Path, acc: map<int, int>, keys: seq<int>, rows: seq<set<int>>)
    requires EnumeratesKeys(keys, acc)
    ensures EnumeratesKeys(StepKeys(row, p, acc, keys), Step(row, p, acc))
    ensures Weight(Step(row, p, acc), StepKeys(row, p, acc, keys), rows) == Weight(acc, keys, rows) + p.origins * Routes([row] + rows, p.ray)
  {
    RoutesStep(row, rows, p.ray);
    if p.ray in row {
      var a1 := AddOrIncrease(acc, p.ray - 1, p.origins);
      var k2 := AddKeys(a1, p.ray + 1, AddKeys(acc, p.ray - 1, keys));
      assert Step(row, p, acc) == AddOrIncrease(a1, p.ray + 1, p.origins);
      assert StepKeys(row, p, acc, keys) == k2;
      SplitWeight(p, acc, keys, rows);
    } else {
      assert Step(row, p, acc) == AddOrIncrease(acc, p.ray, p.origins);
      assert StepKeys(row, p, acc, keys) == AddKeys(acc, p.ray, keys);
      AddWeight(acc, p.ray, p.origins, keys, rows);
    }
  }

  /** Pushing the paths through one row keeps their weight: what the map
      gains is the routes of the paths from `row` on. */
  lemma {:induction false} AdvanceWeight(row: set<int>, paths: seq<Path>, acc: map<int, int>, keys: seq<int>, final: seq<int>, rows: seq<set<int>>)
    requires EnumeratesKeys(keys, acc)
    requires EnumeratesKeys(final, Advance(row, paths, acc))
    ensures Within(final, Advance(row, paths, acc))
    ensures Weight(Advance(row, paths, acc), final, rows) == Weight(acc, keys, rows) + Weighted(paths, [row] + rows)
    decreases |paths|
  {
    EnumeratedWithin(final, Advance(row, paths, acc));
    EnumeratedWithin(keys, acc);
    if paths == [] {
      WeightOrderFree(acc, keys, final, rows);
    } else {
      StepWeight(row, paths[0], acc, keys, rows);
      AdvanceWeight(row, paths[1..], Step(row, paths[0], acc), StepKeys(row, paths[0], acc, keys), final, rows);
    }
  }

  lemma {:induction false} WeightedPaths(m: map<int, int>, keys: seq<int>, rows: seq<set<int>>)
    requires Within(keys, m)
    ensures Weighted(PathsOf(m, keys), rows) == Weight(m, keys, rows)
    decreases |keys|
  {
    if keys != [] {
      assert PathsOf(m, keys)[1..] == PathsOf(m, keys[1..]);
      WeightedPaths(m, keys[1..], rows);
    }
  }

  lemma {:induction false} WeightedAtEnd(paths: seq<Path>)
    ensures Weighted(paths, []) == Total(paths)
    decreases |paths|
  {
    if paths != [] {
      WeightedAtEnd(paths[1..]);
    }
  }

  /** Whatever order each row's map is ranged over in, `countPaths` from
      row `k` on sums every path's count times its routes to the bottom. */
  lemma {:induction false} CountFromRoutes(rows: seq<set<int>>, k: nat, paths: seq<Path>, pick: (nat, set<int>) -> seq<int>)
    requires Enumerates(pick)
    ensures CountFrom(rows, k, paths, pick) == Weighted(paths, rows)
    decreases |rows|
  {
    if rows == [] {
      WeightedAtEnd(paths);
    } else {
      var next := Advance(rows[0], paths, map[]);
      var order := pick(k, next.Keys);
      assert EnumeratesKeys([], map[]);
      AdvanceWeight(rows[0], paths, map[], [], order, rows[1..]);
      assert [rows[0]] + rows[1..] == rows;
      WeightedPaths(next, order, rows[1..]);
      CountFromRoutes(rows[1..], k + 1, PathsOf(next, order), pick);
    }
  }

  /** Part two: the number of timelines is the number of routes from the
      start column down through the splitter rows. */
  lemma CountPathsRoutes(m: Manifold, pick: (nat, set<int>) -> seq<int>)
    requires Enumerates(pick)
    ensures CountPaths(m, pick) == Routes(m.rows, m.start)
  {
    CountFromRoutes(m.rows, 0, [Path(m.start, 1)], pick);
  }

  /** A row without splitters lets every particle through unchanged. */
  lemma {:induction false} QuietRowsAddNoRoutes(rows: seq<set<int>>, col: int)
    ensures Routes(Busy(rows), col) == Routes(rows, col)
    decreases |rows|
  {
    if rows != [] {
      if rows[0] == {} {
        QuietRowsAddNoRoutes(rows[1..], col);
      } else {
        QuietRowsAddNoRoutes(rows[1..], col - 1);
        QuietRowsAddNoRoutes(rows[1..], col + 1);
        QuietRowsAddNoRoutes(rows[1..], col);
        assert Busy(rows)[1..] == Busy(rows[1..]);
      }
    }
  }

  /** Part two on the text: the timelines counted through the parsed
      manifold are the routes from the start through every line below the
      start line. */
  lemma CountPathsOfLines(lines: seq<string>, pick: (nat, set<int>) -> seq<int>)
    requires Enumerates(pick) && lines != []
    ensures CountPaths(ParseTachyonInput(lines), pick)
         == Routes(PhysicalRows(lines[1..]), ParseTachyonInput(lines).start)
  {
    var m := ParseTachyonInput(lines);
    CountPathsRoutes(m, pick);
    SplitterRowsAreBusy(lines[1..]);
    QuietRowsAddNoRoutes(PhysicalRows(lines[1..]), m.start);
    assert m.rows[1..] == SplitterRows(lines[1..]);
  }

  /** `runDay7`: the split count, or with the follow-up flag the number of
      timelines, of the manifold read from the lines. */
  function RunDay7(lines: seq<string>, followUp: bool, pick: (nat, set<int>) -> seq<int>): (answer: int)
    requires Enumerates(pick)
    ensures lines == [] ==> answer == if followUp then 1 else 0
    ensures lines != [] ==> answer == if followUp then Routes(PhysicalRows(lines[1..]), ParseTachyonInput(lines).start)
                                      else SplitsBelow(PhysicalRows(lines[1..]), {ParseTachyonInput(lines).start})
  {
    var m := ParseTachyonInput(lines);
    CountPathsRoutes(m, pick);
    if lines != [] then
      CountPathsOfLines(lines, pick);
      TraceRaysOfLines(lines, pick);
      if followUp then CountPaths(m, pick) else TraceRays(m, pick)
    else if followUp then CountPaths(m, pick) else TraceRays(m, pick)
  }

  /** The columns of a row's paths. */
  function Rays(paths: seq<Path>): set<int> {
    if paths == [] then {} else {paths[0].ray} + Rays(paths[1..])
  }

  lemma SpreadUnion(row: set<int>, a: set<int>, b: set<int>)
    ensures Spread(row, a + b) == Spread(row, a) + Spread(row, b)
  {
    forall x ensures x in Spread(row, a + b) <==> x in Spread(row, a) + Spread(row, b) {
      SpreadMember(row, a + b, x);
      SpreadMember(row, a, x);
      SpreadMember(row, b, x);
    }
  }

  lemma SpreadOne(row: set<int>, ray: int)
    ensures Spread(row, {ray}) == if ray in row then {ray - 1, ray + 1} else {ray}
  {
    forall x ensures x in Spread(row, {ray}) <==> x in (if ray in row then {ray - 1, ray + 1} else {ray}) {
      SpreadMember(row, {ray}, x);
    }
  }

  /** One path through the row adds to the map exactly the columns its
      beam spreads to. */
  lemma StepSpreads(row: set<int>, p: Path, acc: map<int, int>)
    ensures Step(row, p, acc).Keys == acc.Keys + Spread(row, {p.ray})
  {
    SpreadOne(row, p.ray);
  }

  /** The inner loop of `countPaths` fills the next row's map with exactly
      the beams `traceRays` spreads the same columns to. */
  lemma {:induction false} AdvanceKeys(row: set<int>, paths: seq<Path>, acc: map<int, int>)
    ensures Advance(row, paths, acc).Keys == acc.Keys + Spread(row, Rays(paths))
    decreases |paths|
  {
    if paths == [] {
      assert Spread(row, {}) == {};
    } else {
      StepSpreads(row, paths[0], acc);
      AdvanceKeys(row, paths[1..], Step(row, paths[0], acc));
      SpreadUnion(row, {paths[0].ray}, Rays(paths[1..]));
    }
  }

  lemma {:induction false} RaysOf(m: map<int, int>, keys: seq<int>)
    requires Within(keys, m)
    ensures Rays(PathsOf(m, keys)) == Elements(keys)
    decreases |keys|
  {
    if keys != [] {
      assert PathsOf(m, keys)[1..] == PathsOf(m, keys[1..]);
      RaysOf(m, keys[1..]);
      assert Elements(keys) == {keys[0]} + Elements(keys[1..]) by {
        assert keys == [keys[0]] + keys[1..];
      }
    }
  }

  /** The paths `countPaths` passes to the next row sit on the beams
      `traceRays` passes to it. */
  lemma NextRowBeams(row: set<int>, paths: seq<Path>, order: seq<int>)
    requires EnumeratesKeys(order, Advance(row, paths, map[]))
    ensures Within(order, Advance(row, paths, map[]))
    ensures Rays(PathsOf(Advance(row, paths, map[]), order)) == Spread(row, Rays(paths))
  {
    EnumeratedWithin(order, Advance(row, paths, map[]));
    AdvanceKeys(row, paths, map[]);
    RaysOf(Advance(row, paths, map[]), order);
  }

  /** The paths `countPaths` holds after `j` of the rows from `k` on. */
  function PathsAfter(rows: seq<set<int>>, k: nat, paths: seq<Path>, pick: (nat, set<int>) -> seq<int>, j: nat): seq<Path>
    requires Enumerates(pick) && j <= |rows|
    decreases j
  {
    if j == 0 then paths
    else
      var next := Advance(rows[0], paths, map[]);
      var order := pick(k, next.Keys);
      EnumeratedWithin(order, next);
      PathsAfter(rows[1..], k + 1, PathsOf(next, order), pick, j - 1)
  }

  /** The beams `traceRays` holds after `j` of the rows. */
  function BeamsAfter(rows: seq<set<int>>, rays: set<int>, j: nat): set<int>
    requires j <= |rows|
    decreases j
  {
    if j == 0 then rays else BeamsAfter(rows[1..], Spread(rows[0], rays), j - 1)
  }

  /** Row by row, the keys of `countPaths`' map are the beams of
      `traceRays`. */
  lemma {:induction false} PathsFollowBeams(rows: seq<set<int>>, k: nat, paths: seq<Path>, pick: (nat, set<int>) -> seq<int>, j: nat)
    requires Enumerates(pick) && j <= |rows|
    ensures Rays(PathsAfter(rows, k, paths, pick, j)) == BeamsAfter(rows, Rays(paths), j)
    decreases j
  {
    if j > 0 {
      var next := Advance(rows[0], paths, map[]);
      var order := pick(k, next.Keys);
      NextRowBeams(rows[0], paths, order);
      PathsFollowBeams(rows[1..], k + 1, PathsOf(next, order), pick, j - 1);
    }
  }

  /** The route counts of the paths standing on a splitter. */
  function SplitOrigins(row: set<int>, paths: seq<Path>): int {
    if paths == [] then 0
    else (if paths[0].ray in row then paths[0].origins else 0) + SplitOrigins(row, paths[1..])
  }

  lemma {:induction false} WeightedOneRow(row: set<int>, paths: seq<Path>)
    ensures Weighted(paths, [row]) == Total(paths) + SplitOrigins(row, paths)
    decreases |paths|
  {
    if paths != [] {
      var x := paths[0].ray;
      assert [row][1..] == [];
      assert Routes([row], x) == if x in row then 2 else 1 by {
        assert Routes([], x - 1) == Routes([], x + 1) == Routes([], x) == 1;
      }
      WeightedOneRow(row, paths[1..]);
    }
  }

  lemma {:induction false} SplitOriginsNonNegative(row: set<int>, paths: seq<Path>)
    requires forall i :: 0 <= i < |paths| ==> paths[i].origins >= 0
    ensures SplitOrigins(row, paths) >= 0
    decreases |paths|
  {
    if paths != [] {
      SplitOriginsNonNegative(row, paths[1..]);
    }
  }

  /** One row of `countPaths` keeps every path's count and adds it once
      more for each path that stands on a splitter; with counts that are
      not negative the total never drops. */
  lemma OriginsGrow(row: set<int>, paths: seq<Path>, order: seq<int>)
    requires EnumeratesKeys(order, Advance(row, paths, map[]))
    ensures Within(order, Advance(row, paths, map[]))
    ensures Total(PathsOf(Advance(row, paths, map[]), order)) == Total(paths) + SplitOrigins(row, paths)
    ensures (forall i :: 0 <= i < |paths| ==> paths[i].origins >= 0) ==>
              Total(PathsOf(Advance(row, paths, map[]), order)) >= Total(paths)
  {
    var next := Advance(row, paths, map[]);
    assert EnumeratesKeys([], map[]);
    AdvanceWeight(row, paths, map[], [], order, []);
    assert [row] + [] == [row];
    WeightedPaths(next, order, []);
    WeightedAtEnd(PathsOf(next, order));
    WeightedOneRow(row, paths);
    if forall i :: 0 <= i < |paths| ==> paths[i].origins >= 0 {
      SplitOriginsNonNegative(row, paths);
    }
  }

  lemma {:induction false} QuietSplits(rows: seq<set<int>>, rays: set<int>)
    requires forall k :: 0 <= k < |rows| ==> rows[k] == {}
    ensures SplitsBelow(rows, rays) == 0
    decreases |rows|
  {
    if rows != [] {
      QuietSplits(rows[1..], Spread(rows[0], rays));
    }
  }

  lemma {:induction false} QuietRoutes(rows: seq<set<int>>, col: int)
    requires forall k :: 0 <= k < |rows| ==> rows[k] == {}
    ensures Routes(rows, col) == 1
    decreases |rows|
  {
    if rows != [] {
      QuietRoutes(rows[1..], col);
    }
  }

  /** Without a splitter below the start line, `traceRays` counts no split
      and `countPaths` one timeline, whatever the lines hold. */
  lemma NoSplitters(lines: seq<string>, pick: (nat, set<int>) -> seq<int>)
    requires Enumerates(pick)
    requires forall k :: 1 <= k < |lines| ==> '^' !in lines[k]
    ensures RunDay7(lines, false, pick) == 0 && RunDay7(lines, true, pick) == 1
  {
    if lines != [] {
      var rows := PhysicalRows(lines[1..]);
      forall k | 0 <= k < |rows| ensures rows[k] == {} {
        assert lines[1..][k] == lines[k + 1];
        var line := lines[k + 1];
        forall c | 0 <= c < |line| ensures line[c] != '^' {
          assert line[c] in line;
        }
      }
      QuietSplits(rows, {ParseTachyonInput(lines).start});
      QuietRoutes(rows, ParseTachyonInput(lines).start);
    }
  }
}
