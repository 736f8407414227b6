/** Day 1: a safe's dial with the numbers 0 to 99, turned by a list of
    rotations from 50 on. The password counts the times the dial shows 0:
    after a rotation in part one, at any click in the follow-up. */
module Day1 {
  import opened Wrappers
  import opened Decimal
  import opened GoInt

  datatype Rotation = Left | Right

  /** One line of the input: a direction and a number of clicks. */
  datatype Instruction = Instruction(rotation: Rotation, distance: int)

  /** `RotationFromRune`: `L` or `R`; any other rune panics. */
  function RotationFromRune(c: char): (r: Result<Rotation>)
    ensures r.Ok? <==> c == 'L' || c == 'R'
    ensures r.Ok? ==> RuneOf(r.value) == c
  {
    if c == 'L' then Ok(Left)
    else if c == 'R' then Ok(Right)
    else Fail("invalid rotation rune")
  }

  /** The letter a rotation is written with. */
  function RuneOf(rot: Rotation): char {
    match rot
    case Left => 'L'
    case Right => 'R'
  }

  /** `parseInstruction`: the rotation from the first rune, the distance
      from `Atoi` of the rest, 0 when that is no number. An empty line has
      no first rune and panics. */
  function ParseInstruction(s: string): (r: Result<Instruction>)
    ensures r.Ok? <==> |s| >= 1 && (s[0] == 'L' || s[0] == 'R')
    ensures r.Ok? ==> RuneOf(r.value.rotation) == s[0] && r.value.distance == AtoiOrZero(s[1..])
  {
    if |s| == 0 then Fail("index out of range")
    else
      match RotationFromRune(s[0])
      case Fail(e) => Fail(e)
      case Ok(rot) => Ok(Instruction(rot, AtoiOrZero(s[1..])))
  }

  /** An instruction as the input writes it, e.g. `L68`. */
  function Format(i: Instruction): string {
    [RuneOf(i.rotation)] + Itoa(i.distance)
  }

  /** Reading back a written instruction gives the instruction. */
  lemma ParseFormat(i: Instruction)
    ensures ParseInstruction(Format(i)) == Ok(i)
  {
    var s := Format(i);
    assert s[1..] == Itoa(i.distance);
    AtoiItoa(i.distance);
  }

  function InstructionResults(lines: seq<string>): (rs: seq<Result<Instruction>>)
    ensures |rs| == |lines|
    ensures forall j :: 0 <= j < |lines| ==> rs[j] == ParseInstruction(lines[j])
  {
    seq(|lines|, j requires 0 <= j < |lines| => ParseInstruction(lines[j]))
  }

  /** `readRotations`: one instruction per line; a bad line is fatal. */
  function ReadRotations(lines: seq<string>): (r: Result<seq<Instruction>>)
    ensures r.Ok? <==> forall j :: 0 <= j < |lines| ==> |lines[j]| >= 1 && (lines[j][0] == 'L' || lines[j][0] == 'R')
    ensures r.Ok? ==> |r.value| == |lines| && forall j :: 0 <= j < |lines| ==> Ok(r.value[j]) == ParseInstruction(lines[j])
  {
    AllOk(InstructionResults(lines))
  }

  /** The dial's state in the loop of `day1run`: the reduced position,
      which Go's `%` keeps between -99 and 99, and the password so far. */
  datatype Dial = Dial(position: int, password: int)

  /** Left subtracts the distance, Right adds it. */
  function Delta(i: Instruction): int {
    if i.rotation == Left then -i.distance else i.distance
  }

  /** The follow-up's sign test: a step from above 0 to 0 or below, or from
      below 0 to 0 or above. The two never both hold. */
  function Crossings(prev: int, cur: int): (n: nat)
    ensures n <= 1
  {
    (if prev > 0 && cur <= 0 then 1 else 0) + (if prev < 0 && cur >= 0 then 1 else 0)
  }

  /** What one step adds to the password: in part one 1 when the
      unreduced position is a multiple of 100; in the follow-up the sign
      crossing plus the size of the truncated quotient by 100. */
  function Clicks(prev: int, cur: int, followUp: bool): nat {
    if !followUp then (if Rem(cur, 100) == 0 then 1 else 0)
    else Crossings(prev, cur) + Abs(Quot(cur, 100))
  }

  /** One pass of the loop: move, count, then reduce with Go's `%`. */
  function Step(d: Dial, i: Instruction, followUp: bool): (e: Dial)
    ensures -100 < e.position < 100
    ensures e.password >= d.password
    ensures d.position + Delta(i) >= 0 ==> e.position >= 0
    ensures d.position + Delta(i) <= 0 ==> e.position <= 0
  {
    var cur := d.position + Delta(i);
    Dial(Rem(cur, 100), d.password + Clicks(d.position, cur, followUp))
  }

  /** The loop over the instructions. */
  function Turn(instrs: seq<Instruction>, d: Dial, followUp: bool): (e: Dial)
    ensures e.password >= d.password
    ensures instrs != [] ==> -100 < e.position < 100
  {
    if instrs == [] then d else Turn(instrs[1..], Step(d, instrs[0], followUp), followUp)
  }

  /** The password: the dial starts at 50 with nothing counted. */
  function Password(instrs: seq<Instruction>, followUp: bool): (n: int)
    ensures n >= 0
  {
    Turn(instrs, Dial(50, 0), followUp).password
  }

  /** `day1run`. */
  function Day1Run(lines: seq<string>, followUp: bool): Result<int> {
    match ReadRotations(lines)
    case Fail(e) => Fail(e)
    case Ok(instrs) => Ok(Password(instrs, followUp))
  }

  // The dial turned click by click, on the unreduced positions.

  function AtZero(x: int): nat {
    if x % 100 == 0 then 1 else 0
  }

  /** The clicks that show 0 while turning from p to q: every position
      passed after p, up to and including q. */
  function Visits(p: int, q: int): nat
    decreases if q >= p then q - p else p - q
  {
    if q == p then 0
    else if q > p then Visits(p, q - 1) + AtZero(q)
    else Visits(p, q + 1) + AtZero(q)
  }

  /** Part one's reference: the rotations after which the dial shows 0,
      starting from the unreduced position w. */
  function Landings(instrs: seq<Instruction>, w: int): nat {
    if instrs == [] then 0
    else
      var w' := w + Delta(instrs[0]);
      AtZero(w') + Landings(instrs[1..], w')
  }

  /** The follow-up's reference: every click that shows 0, starting from
      the unreduced position w. */
  function Passes(instrs: seq<Instruction>, w: int): nat {
    if instrs == [] then 0
    else
      var w' := w + Delta(instrs[0]);
      Visits(w, w') + Passes(instrs[1..], w')
  }

  /** The multiples of 100 in (p, q] or [q, p), in closed form with floor
      division. */
  function Hits(p: int, q: int): int {
    if q >= p then q / 100 - p / 100 else (p - 1) / 100 - (q - 1) / 100
  }

  /** Floor division by 100 steps up by one exactly at the multiples. */
  lemma FloorStep(x: int)
    ensures x / 100 == (x - 1) / 100 + AtZero(x)
  {
    var q, r := (x - 1) / 100, (x - 1) % 100;
    if r == 99 {
      EuclidUnique(x, 100, q + 1, 0);
    } else {
      EuclidUnique(x, 100, q, r + 1);
    }
  }

  /** Turning click by click counts what the closed form counts. */
  lemma {:induction false} VisitsHits(p: int, q: int)
    ensures Visits(p, q) == Hits(p, q)
    decreases if q >= p then q - p else p - q
  {
    if q > p {
      VisitsHits(p, q - 1);
      FloorStep(q);
    } else if q < p {
      VisitsHits(p, q + 1);
      FloorStep(q + 1);
    }
  }

  /** Moving both ends by whole turns of the dial changes nothing. */
  lemma HitsShift(p: int, q: int, c: int)
    ensures Hits(p + 100 * c, q + 100 * c) == Hits(p, q)
  {
    DivShift(p, c);
    DivShift(q, c);
    DivShift(p - 1, c);
    DivShift(q - 1, c);
  }

  lemma DivShift(x: int, c: int)
    ensures (x + 100 * c) / 100 == x / 100 + c
  {
    EuclidUnique(x + 100 * c, 100, x / 100 + c, x % 100);
  }

  /** From a reduced position, the follow-up's count for a step is the
      number of clicks that show 0. */
  lemma ClicksVisits(p: int, cur: int)
    requires -100 < p < 100
    ensures Clicks(p, cur, true) == Visits(p, cur)
  {
    VisitsHits(p, cur);
    if cur >= p {
      ClicksRight(p, cur);
    } else {
      ClicksLeft(p, cur);
    }
  }

  /** Floor division of a reduced position by 100. */
  lemma FloorReduced(p: int)
    requires -100 <= p < 100
    ensures p / 100 == if p >= 0 then 0 else -1
  {
    if p >= 0 {
      EuclidUnique(p, 100, 0, p);
    } else {
      EuclidUnique(p, 100, -1, p + 100);
    }
  }

  /** At or below 0, flooring one less is the truncated quotient less one. */
  lemma FloorBelow(x: int)
    requires x <= 0
    ensures (x - 1) / 100 == -((-x) / 100) - 1
  {
    var b := -x;
    EuclidUnique(b, 100, b / 100, b % 100);
    EuclidUnique(x - 1, 100, -(b / 100) - 1, 99 - b % 100);
  }

  lemma ClicksRight(p: int, cur: int)
    requires -100 < p < 100 && cur >= p
    ensures Clicks(p, cur, true) == Hits(p, cur)
  {
    FloorReduced(p);
    if cur < 0 {
      FloorReduced(cur);
      FloorReduced(-cur);
    }
  }

  lemma ClicksLeft(p: int, cur: int)
    requires -100 < p < 100 && cur < p
    ensures Clicks(p, cur, true) == Hits(p, cur)
  {
    FloorReduced(p - 1);
    if cur <= 0 {
      FloorBelow(cur);
    } else {
      FloorReduced(cur - 1);
    }
  }

  /** The reduced dial and the unreduced walk stay a whole number of turns
      apart, and the part-one count follows the walk's landings. */
  lemma {:induction false} TurnLandings(instrs: seq<Instruction>, d: Dial, w: int, c: int)
    requires w == d.position + 100 * c
    ensures Turn(instrs, d, false).password == d.password + Landings(instrs, w)
    decreases |instrs|
  {
    if instrs != [] {
      var cur := d.position + Delta(instrs[0]);
      var e := Step(d, instrs[0], false);
      assert Rem(cur, 100) == 0 <==> AtZero(cur + 100 * c) == 1 by {
        RemResidue(cur, 100);
        ShiftResidue(cur, 100, c);
      }
      QuotRem(cur, 100);
      TurnLandings(instrs[1..], e, w + Delta(instrs[0]), c + Quot(cur, 100));
    }
  }

  /** The follow-up count follows the walk's clicks on 0. */
  lemma {:induction false} TurnPasses(instrs: seq<Instruction>, d: Dial, w: int, c: int)
    requires -100 < d.position < 100 && w == d.position + 100 * c
    ensures Turn(instrs, d, true).password == d.password + Passes(instrs, w)
    decreases |instrs|
  {
    if instrs != [] {
      var cur := d.position + Delta(instrs[0]);
      var e := Step(d, instrs[0], true);
      assert Clicks(d.position, cur, true) == Visits(w, cur + 100 * c) by {
        ClicksVisits(d.position, cur);
        VisitsHits(d.position, cur);
        VisitsHits(w, cur + 100 * c);
        HitsShift(d.position, cur, c);
      }
      QuotRem(cur, 100);
      TurnPasses(instrs[1..], e, w + Delta(instrs[0]), c + Quot(cur, 100));
    }
  }

  /** Part one's password is the number of rotations that leave the dial
      at 0. */
  lemma PasswordLandings(instrs: seq<Instruction>)
    ensures Password(instrs, false) == Landings(instrs, 50)
  {
    TurnLandings(instrs, Dial(50, 0), 50, 0);
  }

  /** The follow-up's password is the number of clicks that show 0. */
  lemma PasswordPasses(instrs: seq<Instruction>)
    ensures Password(instrs, true) == Passes(instrs, 50)
  {
    TurnPasses(instrs, Dial(50, 0), 50, 0);
  }

  /** `day1run` on the file's lines: it answers exactly when every line
      starts with `L` or `R`, with the rotations that end on 0, or with the
      follow-up flag the clicks that show 0; otherwise it fails with the
      reading error. */
  lemma Day1RunAnswers(lines: seq<string>, followUp: bool)
    ensures Day1Run(lines, followUp).Ok? <==>
      forall j :: 0 <= j < |lines| ==> |lines[j]| >= 1 && (lines[j][0] == 'L' || lines[j][0] == 'R')
    ensures ReadRotations(lines).Ok? ==>
      Day1Run(lines, followUp) == Ok(if followUp then Passes(ReadRotations(lines).value, 50)
                                      else Landings(ReadRotations(lines).value, 50))
    ensures ReadRotations(lines).Fail? ==> Day1Run(lines, followUp) == Fail(ReadRotations(lines).reason)
  {
    if ReadRotations(lines).Ok? {
      PasswordLandings(ReadRotations(lines).value);
      PasswordPasses(ReadRotations(lines).value);
    }
  }
}
