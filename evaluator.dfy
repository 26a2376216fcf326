/** The evaluator as the C code runs it: three mutually recursive procedures
  * that share one cursor cell (`int *position`) and advance it in place,
  * with `while` loops that update a running result, and the validating
  * `for` loop of `calculate`.  Each procedure is proved to agree with its
  * specification function in module Grammar; the two `exit(EXIT_FAILURE)`
  * paths return an error instead.
  */
module Evaluator {
  import opened Arith
  import opened Grammar

  /** The cursor shared by reference across the grammar levels. */
  class Cursor {
    var position: nat

    constructor (start: nat)
      ensures position == start
    {
      position := start;
    }
  }

  /** A procedure returned `r` and left the cursor at `position`, exactly as
    * the specification `spec` says. */
  predicate Agrees(spec: Result<Step>, r: Result<int>, position: nat)
  {
    match spec
    case Ok(st) => r == Ok(st.value) && position == st.next
    case Err(e) => r == Err(e)
  }

  /** `get_natural`. */
  method GetNatural(expr: seq<char>, cursor: Cursor) returns (r: Result<int>)
    modifies cursor
    decreases Measure(expr, cursor.position), 0
    ensures Agrees(FactorAt(expr, old(cursor.position)), r, cursor.position)
    ensures r.Ok? ==> old(cursor.position) <= cursor.position
  {
    ghost var start := cursor.position;
    var natural := 0;
    var sign := 1;
    if Peek(expr, cursor.position) == '-' {
      sign := sign * -1;
      cursor.position := cursor.position + 1;
    }
    assert sign == SignAt(expr, start) && cursor.position == BodyAt(expr, start);
    if Peek(expr, cursor.position) == '(' {
      cursor.position := cursor.position + 1;
      var inner := EvaluateExpression(expr, cursor);
      if inner.Err? {
        FactorOfGroup(expr, start);
        return inner;
      }
      natural := inner.value;
      cursor.position := cursor.position + 1;
      FactorOfGroup(expr, start);
    } else {
      natural := ReadDigits(expr, cursor);
      FactorOfDigits(expr, start);
    }
    return Ok(natural * sign);
  }

  /** The digit loop of `get_natural`: accumulates `natural * 10 + digit`
    * over the maximal digit run at the cursor and leaves the cursor just
    * past it. */
  method ReadDigits(expr: seq<char>, cursor: Cursor) returns (natural: int)
    modifies cursor
    ensures natural == DecimalValue(DigitRun(expr, old(cursor.position)))
    ensures cursor.position == old(cursor.position) + |DigitRun(expr, old(cursor.position))|
  {
    ghost var first := cursor.position;
    ghost var consumed: seq<char> := [];
    natural := 0;
    while IsDigit(Peek(expr, cursor.position))
      invariant cursor.position == first + |consumed|
      invariant DigitRun(expr, first) == consumed + DigitRun(expr, cursor.position)
      invariant natural == DecimalValue(consumed)
      decreases |expr| - cursor.position
    {
      ghost var digit := expr[cursor.position];
      assert DigitRun(expr, cursor.position) == [digit] + DigitRun(expr, cursor.position + 1);
      assert consumed + ([digit] + DigitRun(expr, cursor.position + 1))
          == (consumed + [digit]) + DigitRun(expr, cursor.position + 1);
      DecimalValueAppend(consumed, digit);
      natural := natural * 10 + expr[cursor.position] as int - '0' as int;
      consumed := consumed + [expr[cursor.position]];
      cursor.position := cursor.position + 1;
      if cursor.position >= |expr| {
        break;
      }
    }
    assert DigitRun(expr, cursor.position) == [];
    assert consumed + [] == consumed;
  }

  /** `evaluate_term`; a zero divisor ends evaluation with DivByZero. */
  method EvaluateTerm(expr: seq<char>, cursor: Cursor) returns (r: Result<int>)
    modifies cursor
    decreases Measure(expr, cursor.position), 2
    ensures Agrees(TermAt(expr, old(cursor.position)), r, cursor.position)
    ensures r.Ok? ==> old(cursor.position) <= cursor.position
  {
    ghost var start := cursor.position;
    var first := GetNatural(expr, cursor);
    if first.Err? {
      return first;
    }
    var result := first.value;
    while Peek(expr, cursor.position) == '*' || Peek(expr, cursor.position) == '/'
      invariant start <= cursor.position
      invariant TermAt(expr, start) == TermLoop(expr, cursor.position, result)
      decreases Measure(expr, cursor.position)
    {
      var operator := Peek(expr, cursor.position);
      cursor.position := cursor.position + 1;
      if operator == '*' {
        var operand := GetNatural(expr, cursor);
        if operand.Err? {
          return operand;
        }
        result := result * operand.value;
      } else {
        var operand := GetNatural(expr, cursor);
        if operand.Err? {
          return operand;
        }
        if operand.value == 0 {
          return Err(DivByZero);
        }
        result := TruncDiv(result, operand.value);
      }
    }
    return Ok(result);
  }

  /** `evaluate_expression`. */
  method EvaluateExpression(expr: seq<char>, cursor: Cursor) returns (r: Result<int>)
    modifies cursor
    decreases Measure(expr, cursor.position), 4
    ensures Agrees(ExpressionAt(expr, old(cursor.position)), r, cursor.position)
    ensures r.Ok? ==> old(cursor.position) <= cursor.position
  {
    ghost var start := cursor.position;
    var first := EvaluateTerm(expr, cursor);
    if first.Err? {
      return first;
    }
    var result := first.value;
    while Peek(expr, cursor.position) == '+' || Peek(expr, cursor.position) == '-'
      invariant start <= cursor.position
      invariant ExpressionAt(expr, start) == ExpressionLoop(expr, cursor.position, result)
      decreases Measure(expr, cursor.position)
    {
      var operator := Peek(expr, cursor.position);
      cursor.position := cursor.position + 1;
      var operand := EvaluateTerm(expr, cursor);
      if operand.Err? {
        return operand;
      }
      if operator == '+' {
        result := result + operand.value;
      } else {
        result := result - operand.value;
      }
    }
    return Ok(result);
  }

  /** `calculate`: rejects the text with InvalidChar when a character other
    * than the last is not admitted, before anything is parsed; otherwise
    * evaluates it from a fresh cursor at 0. */
  method Calculate(expression: seq<char>) returns (r: Result<int>)
    requires |expression| > 0
    ensures (exists i | 0 <= i < |expression| - 1 :: !IsRightChar(expression[i])) ==> r == Err(InvalidChar)
    ensures (forall i | 0 <= i < |expression| - 1 :: IsRightChar(expression[i])) ==>
      match ExpressionAt(expression, 0)
      case Ok(st) => r == Ok(st.value)
      case Err(e) => r == Err(e)
    ensures r == Calculation(expression)
  {
    for i := 0 to |expression| - 1
      invariant forall j | 0 <= j < i :: IsRightChar(expression[j])
    {
      if !IsRightChar(expression[i]) {
        return Err(InvalidChar);
      }
    }
    var position := new Cursor(0);
    r := EvaluateExpression(expression, position);
  }
}
