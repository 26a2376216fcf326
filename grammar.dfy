/** The calculator's grammar as functions over the text and a cursor.
  *
  *   expression := term { ('+' | '-') term }
  *   term       := factor { ('*' | '/') factor }
  *   factor     := ['-'] ( '(' expression <any one character> | digit* )
  *
  * Each function takes the text and the cursor position at which the C
  * function is entered and yields either the value together with the cursor
  * position it leaves behind, or the error that stops evaluation.  Parsing
  * and evaluation happen in one pass; no tree is built.
  */
module Grammar {
  import opened Arith

  datatype Error = DivByZero | InvalidChar

  datatype Result<T> = Ok(value: T) | Err(error: Error)

  /** A value together with the cursor position after it. */
  datatype Step = Step(value: int, next: nat)

  /** What the C code reads from `expr[i]`: the character, or the NUL
    * terminator at and beyond the end of the text. */
  function Peek(s: seq<char>, i: nat): (c: char)
    ensures i < |s| ==> c == s[i]
    ensures |s| <= i ==> c == '\0'
  {
    if i < |s| then s[i] else '\0'
  }

  /** `isdigit` in the C locale: the ten ASCII digits. */
  predicate IsDigit(c: char): (b: bool)
    ensures b <==> c in {'0', '1', '2', '3', '4', '5', '6', '7', '8', '9'}
  {
    '0' <= c <= '9'
  }

  function DigitValue(c: char): int
  {
    c as int - '0' as int
  }

  /** Every element of `ds` is a digit. */
  predicate AllDigits(ds: seq<char>)
  {
    forall i | 0 <= i < |ds| :: IsDigit(ds[i])
  }

  function Pow10(k: nat): (r: nat)
    ensures r >= 1
  {
    if k == 0 then 1 else 10 * Pow10(k - 1)
  }

  /** The base-10 value of a string of digits, most significant first: a
    * number of at most `|ds|` decimal digits. */
  function DecimalValue(ds: seq<char>): (v: int)
    ensures AllDigits(ds) ==> 0 <= v < Pow10(|ds|)
  {
    if ds == [] then 0 else DecimalValue(ds[..|ds| - 1]) * 10 + DigitValue(ds[|ds| - 1])
  }

  /** Appending a digit shifts the value one decimal place. */
  lemma {:induction false} DecimalValueAppend(ds: seq<char>, c: char)
    ensures DecimalValue(ds + [c]) == DecimalValue(ds) * 10 + DigitValue(c)
  {
    assert (ds + [c])[..|ds|] == ds;
  }

  /** The maximal run of digits that starts at position `p`. */
  function DigitRun(s: seq<char>, p: nat): (ds: seq<char>)
    decreases |s| - p
    ensures ds == [] || p + |ds| <= |s|
    ensures forall i | 0 <= i < |ds| :: p + i < |s| && ds[i] == s[p + i] && IsDigit(ds[i])
    ensures !IsDigit(Peek(s, p + |ds|))
  {
    if IsDigit(Peek(s, p)) then [s[p]] + DigitRun(s, p + 1) else []
  }

  /** The characters the validator admits (`is_right_char`): the six
    * operator and parenthesis characters and the ten ASCII digits. */
  predicate IsRightChar(c: char): (b: bool)
    ensures b <==> c in {'(', ')', '+', '-', '*', '/', '0', '1', '2', '3', '4', '5', '6', '7', '8', '9'}
  {
    c == '(' || c == ')' || c == '+' || c == '-' || c == '*' || c == '/' || IsDigit(c)
  }

  /** Every character of `w` is admitted by the validator. */
  predicate AllRight(w: seq<char>)
  {
    forall i | 0 <= i < |w| :: IsRightChar(w[i])
  }

  /** Input still to be read from position `p`; the cursor may run past the
    * end of the text, after which nothing is left. */
  function Measure(s: seq<char>, p: nat): nat
  {
    if p <= |s| then |s| - p else 0
  }

  /** `get_natural`: an optional single `-`, then either a parenthesised
    * expression followed by one more character, consumed whatever it is,
    * or the maximal digit run (possibly empty, giving 0). */
  function FactorAt(s: seq<char>, p: nat): (r: Result<Step>)
    decreases Measure(s, p), 0
    ensures r.Ok? ==> p <= r.value.next
    ensures r.Err? ==> r.error == DivByZero
  {
    var sign := SignAt(s, p);
    var q := BodyAt(s, p);
    if Peek(s, q) == '(' then
      match ExpressionAt(s, q + 1)
      case Ok(inner) => Ok(Step(inner.value * sign, inner.next + 1))
      case Err(e) => Err(e)
    else
      var ds := DigitRun(s, q);
      Ok(Step(DecimalValue(ds) * sign, q + |ds|))
  }

  /** The sign of a factor starting at `p`, and where its body starts. */
  function SignAt(s: seq<char>, p: nat): int
  {
    if Peek(s, p) == '-' then -1 else 1
  }

  /** A C string holds no NUL, so the terminator is read exactly at and past
    * its end. */
  lemma {:induction false} PeekNulAtEnd(s: seq<char>, i: nat)
    requires '\0' !in s
    ensures Peek(s, i) == '\0' <==> |s| <= i
  {
    if i < |s| {
      assert s[i] in s;
    }
  }

  function BodyAt(s: seq<char>, p: nat): nat
  {
    if Peek(s, p) == '-' then p + 1 else p
  }

  /** Multiplying by the sign negates exactly when a minus is present. */
  lemma {:induction false} TimesSign(v: int, s: seq<char>, p: nat)
    ensures v * SignAt(s, p) == if Peek(s, p) == '-' then -v else v
  {
  }

  /** A factor whose body is not parenthesised is its signed digit run. */
  lemma {:induction false} FactorOfDigits(s: seq<char>, p: nat)
    requires Peek(s, BodyAt(s, p)) != '('
    ensures var ds := DigitRun(s, BodyAt(s, p));
      FactorAt(s, p) == Ok(Step(DecimalValue(ds) * SignAt(s, p), BodyAt(s, p) + |ds|))
  {
  }

  /** A parenthesised factor is its signed inner expression, with one more
    * character consumed after it. */
  lemma {:induction false} FactorOfGroup(s: seq<char>, p: nat)
    requires Peek(s, BodyAt(s, p)) == '('
    ensures FactorAt(s, p) == match ExpressionAt(s, BodyAt(s, p) + 1)
      case Ok(inner) => Ok(Step(inner.value * SignAt(s, p), inner.next + 1))
      case Err(e) => Err(e)
  {
  }

  /** The `while` loop of `evaluate_term`, entered at cursor `p` with the
    * running result `acc`. */
  function TermLoop(s: seq<char>, p: nat, acc: int): (r: Result<Step>)
    decreases Measure(s, p), 1
    ensures r.Ok? ==> p <= r.value.next
    ensures r.Ok? ==> Peek(s, r.value.next) != '*' && Peek(s, r.value.next) != '/'
    ensures r.Err? ==> r.error == DivByZero
  {
    var op := Peek(s, p);
    if op == '*' || op == '/' then
      match FactorAt(s, p + 1)
      case Err(e) => Err(e)
      case Ok(f) =>
        if op == '*' then TermLoop(s, f.next, acc * f.value)
        else if f.value == 0 then Err(DivByZero)
        else TermLoop(s, f.next, TruncDiv(acc, f.value))
    else
      Ok(Step(acc, p))
  }

  /** One iteration of `evaluate_term`'s loop at an operator. */
  lemma {:induction false} TermLoopStep(s: seq<char>, p: nat, acc: int)
    requires Peek(s, p) == '*' || Peek(s, p) == '/'
    ensures FactorAt(s, p + 1).Err? ==> TermLoop(s, p, acc) == FactorAt(s, p + 1)
    ensures FactorAt(s, p + 1).Ok? ==> var f := FactorAt(s, p + 1).value;
      TermLoop(s, p, acc) ==
        if Peek(s, p) == '*' then TermLoop(s, f.next, acc * f.value)
        else if f.value == 0 then Err(DivByZero)
        else TermLoop(s, f.next, TruncDiv(acc, f.value))
  {
  }

  /** `evaluate_term`. */
  function TermAt(s: seq<char>, p: nat): (r: Result<Step>)
    decreases Measure(s, p), 2
    ensures r.Ok? ==> p <= r.value.next
    ensures r.Ok? ==> Peek(s, r.value.next) != '*' && Peek(s, r.value.next) != '/'
    ensures r.Err? ==> r.error == DivByZero
  {
    match FactorAt(s, p)
    case Err(e) => Err(e)
    case Ok(f) => TermLoop(s, f.next, f.value)
  }

  /** The `while` loop of `evaluate_expression`, entered at cursor `p` with
    * the running result `acc`. */
  function ExpressionLoop(s: seq<char>, p: nat, acc: int): (r: Result<Step>)
    decreases Measure(s, p), 3
    ensures r.Ok? ==> p <= r.value.next
    ensures r.Ok? ==> Peek(s, r.value.next) != '+' && Peek(s, r.value.next) != '-'
    ensures r.Err? ==> r.error == DivByZero
  {
    var op := Peek(s, p);
    if op == '+' || op == '-' then
      match TermAt(s, p + 1)
      case Err(e) => Err(e)
      case Ok(t) =>
        if op == '+' then ExpressionLoop(s, t.next, acc + t.value)
        else ExpressionLoop(s, t.next, acc - t.value)
    else
      Ok(Step(acc, p))
  }

  /** One iteration of `evaluate_expression`'s loop at an operator. */
  lemma {:induction false} ExpressionLoopStep(s: seq<char>, p: nat, acc: int)
    requires Peek(s, p) == '+' || Peek(s, p) == '-'
    ensures TermAt(s, p + 1).Err? ==> ExpressionLoop(s, p, acc) == TermAt(s, p + 1)
    ensures TermAt(s, p + 1).Ok? ==> var t := TermAt(s, p + 1).value;
      ExpressionLoop(s, p, acc) ==
        if Peek(s, p) == '+' then ExpressionLoop(s, t.next, acc + t.value)
        else ExpressionLoop(s, t.next, acc - t.value)
  {
  }

  /** `evaluate_expression`, the grammar's entry point. */
  function ExpressionAt(s: seq<char>, p: nat): (r: Result<Step>)
    decreases Measure(s, p), 4
    ensures r.Ok? ==> p <= r.value.next
    ensures r.Ok? ==> Peek(s, r.value.next) != '+' && Peek(s, r.value.next) != '-'
    ensures r.Err? ==> r.error == DivByZero
  {
    match TermAt(s, p)
    case Err(e) => Err(e)
    case Ok(t) => ExpressionLoop(s, t.next, t.value)
  }

  /** Every character but the last is admitted by the validator. */
  predicate ValidPrefix(s: seq<char>)
    requires |s| > 0
  {
    AllRight(s[..|s| - 1])
  }

  /** `calculate`: validate, then evaluate the expression from cursor 0.  The
    * last character is not validated (it is meant to be the newline that
    * `fgets` keeps). */
  function Calculation(s: seq<char>): (r: Result<int>)
    requires |s| > 0
    ensures r == Err(InvalidChar) <==> exists i | 0 <= i < |s| - 1 :: !IsRightChar(s[i])
    ensures r != Err(InvalidChar) ==> match ExpressionAt(s, 0)
      case Ok(st) => r == Ok(st.value)
      case Err(e) => r == Err(e)
  {
    if !ValidPrefix(s) then Err(InvalidChar)
    else match ExpressionAt(s, 0)
      case Ok(st) => Ok(st.value)
      case Err(e) => Err(e)
  }
}
