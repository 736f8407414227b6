/** Day 6, the operations: every column of the worksheet is summed or
    multiplied, starting from the operation's neutral value. */
module Day6Ops {
  import opened Wrappers
  import Seqs

  datatype Operator = Unknown | Multiply | Sum

  /** A column's running result; `initialized` guards `Init`. */
  datatype Operation = Operation(operator: Operator, result: int, initialized: bool)

  /** `Operator.String`: the symbol an operator is written with. */
  function Symbol(op: Operator): char {
    match op
    case Multiply => '*'
    case Sum => '+'
    case Unknown => '?'
  }

  /** `ParseOperator`: `+` is Sum, `*` is Multiply, anything else an
      error. */
  function ParseOperator(c: char): (r: Result<Operator>)
    ensures r.Ok? <==> c == '+' || c == '*'
    ensures r.Ok? ==> r.value != Unknown && Symbol(r.value) == c
  {
    if c == '+' then Ok(Sum)
    else if c == '*' then Ok(Multiply)
    else Fail("unknown operator")
  }

  /** Parsing undoes writing for the two real operators. */
  lemma ParseSymbol(op: Operator)
    requires op != Unknown
    ensures ParseOperator(Symbol(op)) == Ok(op)
  {
  }

  /** `Operator.Apply`: a + b or a * b; the unknown operator is fatal. */
  function Apply(op: Operator, a: int, b: int): (r: Result<int>)
    ensures r.Ok? <==> op != Unknown
  {
    match op
    case Multiply => Ok(a * b)
    case Sum => Ok(a + b)
    case Unknown => Fail("unknown operator")
  }

  /** The value an operation starts from. */
  function Neutral(op: Operator): int {
    if op == Multiply then 1 else 0
  }

  /** The starting value changes nothing: applying it to x gives x. */
  lemma ApplyNeutral(op: Operator, x: int)
    requires op != Unknown
    ensures Apply(op, Neutral(op), x) == Ok(x)
    ensures Apply(op, x, Neutral(op)) == Ok(x)
  {
  }

  /** An operation as Go's zero value leaves it: result 0, not initialized. */
  function Fresh(op: Operator): Operation {
    Operation(op, 0, false)
  }

  /** `Operation.Init`: once only, a product starts from 1; a sum keeps its
      0. */
  function Init(o: Operation): (p: Operation)
    ensures p.initialized && p.operator == o.operator
    ensures o.initialized ==> p == o
  {
    if o.initialized then o
    else if o.operator == Multiply then o.(result := 1, initialized := true)
    else o.(initialized := true)
  }

  /** A second `Init` has no effect, and a fresh operation starts from its
      neutral value. */
  lemma InitIdempotent(o: Operation)
    ensures Init(Init(o)) == Init(o)
    ensures Init(Fresh(o.operator)).result == Neutral(o.operator)
  {
  }

  /** `Operation.Operate`: the result becomes `Apply(result, operand)`;
      nothing else changes. */
  function Operate(o: Operation, operand: int): (r: Result<Operation>)
    ensures r.Ok? <==> o.operator != Unknown
    ensures r.Ok? ==> r.value.operator == o.operator && r.value.initialized == o.initialized
  {
    match Apply(o.operator, o.result, operand)
    case Fail(e) => Fail(e)
    case Ok(v) => Ok(o.(result := v))
  }

  /** The operation fed the operands one after the other. */
  function OperateEach(o: Operation, xs: seq<int>): Result<Operation>
    decreases |xs|
  {
    if xs == [] then Ok(o)
    else
      match Operate(o, xs[0])
      case Fail(e) => Fail(e)
      case Ok(p) => OperateEach(p, xs[1..])
  }

  function Product(xs: seq<int>): int {
    if xs == [] then 1 else xs[0] * Product(xs[1..])
  }

  /** The column total an operator written as `c` stands for. */
  function Total(c: char, xs: seq<int>): int {
    if c == '*' then Product(xs) else Seqs.Sum(xs)
  }

  lemma MulAssoc(a: int, b: int, c: int)
    ensures (a * b) * c == a * (b * c)
  {
  }

  /** Feeding operands to a sum adds their total to the result so far. */
  lemma {:induction false} OperateEachSum(o: Operation, xs: seq<int>)
    requires o.operator == Sum
    ensures OperateEach(o, xs) == Ok(o.(result := o.result + Seqs.Sum(xs)))
    decreases |xs|
  {
    if xs != [] {
      OperateEachSum(o.(result := o.result + xs[0]), xs[1..]);
    }
  }

  /** Feeding operands to a product multiplies the result so far by their
      product. */
  lemma {:induction false} OperateEachProduct(o: Operation, xs: seq<int>)
    requires o.operator == Multiply
    ensures OperateEach(o, xs) == Ok(o.(result := o.result * Product(xs)))
    decreases |xs|
  {
    if xs != [] {
      OperateEachProduct(o.(result := o.result * xs[0]), xs[1..]);
      MulAssoc(o.result, xs[0], Product(xs[1..]));
    }
  }

  /** An initialized fresh operation fed xs ends with the sum of xs for `+`
      and the product of xs for `*`. */
  lemma InitOperateEach(op: Operator, xs: seq<int>)
    requires op != Unknown
    ensures OperateEach(Init(Fresh(op)), xs) == Ok(Operation(op, Total(Symbol(op), xs), true))
  {
    if op == Sum {
      OperateEachSum(Init(Fresh(op)), xs);
    } else {
      OperateEachProduct(Init(Fresh(op)), xs);
    }
  }

  /** The unknown operator fails at its first operand. */
  lemma OperateEachUnknown(o: Operation, xs: seq<int>)
    requires o.operator == Unknown
    ensures OperateEach(o, xs).Ok? <==> xs == []
  {
  }

  /** An operand appended at the end is added or multiplied in last. */
  lemma {:induction false} SumSnoc(xs: seq<int>, x: int)
    ensures Seqs.Sum(xs + [x]) == Seqs.Sum(xs) + x
    decreases |xs|
  {
    if xs != [] {
      assert (xs + [x])[1..] == xs[1..] + [x];
      SumSnoc(xs[1..], x);
    }
  }

  lemma {:induction false} ProductSnoc(xs: seq<int>, x: int)
    ensures Product(xs + [x]) == Product(xs) * x
    decreases |xs|
  {
    if xs != [] {
      assert (xs + [x])[1..] == xs[1..] + [x];
      ProductSnoc(xs[1..], x);
      MulAssoc(xs[0], Product(xs[1..]), x);
    }
  }

  function Backwards<T>(s: seq<T>): (r: seq<T>)
    ensures |r| == |s|
  {
    seq(|s|, i requires 0 <= i < |s| => s[|s| - 1 - i])
  }

  /** A column read bottom-up totals the same as read top-down. */
  lemma {:induction false} TotalBackwards(c: char, xs: seq<int>)
    ensures Total(c, Backwards(xs)) == Total(c, xs)
    decreases |xs|
  {
    if xs != [] {
      var rest := xs[1..];
      assert Backwards(xs) == Backwards(rest) + [xs[0]];
      TotalBackwards(c, rest);
      SumSnoc(Backwards(rest), xs[0]);
      ProductSnoc(Backwards(rest), xs[0]);
    }
  }
}
