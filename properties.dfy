/** Properties of the calculator's grammar functions, one lemma per claim
  * that the C code makes about a grammar level or the validator.
  */
module Properties {
  import opened Arith
  import opened Grammar

  /** Digit run: at a digit, `get_natural` yields the base-10 value of the
    * maximal run of digits there and leaves the cursor just past it; the
    * run is never empty. */
  lemma {:induction false} FactorOfDigitRun(s: seq<char>, p: nat)
    requires IsDigit(Peek(s, p))
    ensures var ds := DigitRun(s, p);
      |ds| >= 1 && FactorAt(s, p) == Ok(Step(DecimalValue(ds), p + |ds|))
  {
    FactorOfDigits(s, p);
  }

  /** Zero fallback: a factor that starts with none of `-`, `(` or a digit
    * is 0 and consumes nothing. */
  lemma {:induction false} FactorZeroFallback(s: seq<char>, p: nat)
    requires Peek(s, p) != '-' && Peek(s, p) != '(' && !IsDigit(Peek(s, p))
    ensures FactorAt(s, p) == Ok(Step(0, p))
  {
    FactorOfDigits(s, p);
  }

  /** Leading minus: a single `-` takes one character and negates the
    * factor that follows it. */
  lemma {:induction false} FactorLeadingMinus(s: seq<char>, p: nat)
    requires Peek(s, p) == '-' && Peek(s, p + 1) != '-'
    ensures FactorAt(s, p) == match FactorAt(s, p + 1)
      case Ok(st) => Ok(Step(-st.value, st.next))
      case Err(e) => Err(e)
  {
    assert BodyAt(s, p + 1) == p + 1 == BodyAt(s, p);
    if Peek(s, p + 1) == '(' {
      FactorOfGroup(s, p);
      FactorOfGroup(s, p + 1);
    } else {
      FactorOfDigits(s, p);
      FactorOfDigits(s, p + 1);
    }
  }

  /** Only one minus is read: `--` starts a factor that is 0 and ends on the
    * second minus, so `--3` is not 3. */
  lemma {:induction false} FactorDoubleMinus(s: seq<char>, p: nat)
    requires Peek(s, p) == '-' && Peek(s, p + 1) == '-'
    ensures FactorAt(s, p) == Ok(Step(0, p + 1))
  {
    FactorOfDigits(s, p);
  }

  /** Division by zero: a `/` whose right factor is 0 stops the term with
    * DivByZero, whatever was computed before it. */
  lemma {:induction false} DivisionByZeroStops(s: seq<char>, p: nat, acc: int)
    requires Peek(s, p) == '/'
    requires FactorAt(s, p + 1).Ok? && FactorAt(s, p + 1).value.value == 0
    ensures TermLoop(s, p, acc) == Err(DivByZero)
  {
    TermLoopStep(s, p, acc);
  }

  /** An error inside a term ends the whole expression with that error: the
    * expression loop never resumes after a failed term. */
  lemma {:induction false} ErrorPropagates(s: seq<char>, p: nat, acc: int)
    requires Peek(s, p) == '+' || Peek(s, p) == '-'
    requires TermAt(s, p + 1).Err?
    ensures ExpressionLoop(s, p, acc) == Err(DivByZero)
  {
    ExpressionLoopStep(s, p, acc);
  }

  /** Cursor is monotone, and each turn of the term loop consumes at least
    * its operator. */
  lemma {:induction false} TermLoopConsumesOperator(s: seq<char>, p: nat, acc: int)
    requires Peek(s, p) == '*' || Peek(s, p) == '/'
    requires TermLoop(s, p, acc).Ok?
    ensures TermLoop(s, p, acc).value.next >= p + 1
  {
    TermLoopStep(s, p, acc);
  }

  /** Each turn of the expression loop consumes at least its operator. */
  lemma {:induction false} ExpressionLoopConsumesOperator(s: seq<char>, p: nat, acc: int)
    requires Peek(s, p) == '+' || Peek(s, p) == '-'
    requires ExpressionLoop(s, p, acc).Ok?
    ensures ExpressionLoop(s, p, acc).value.next >= p + 1
  {
    ExpressionLoopStep(s, p, acc);
  }

  /** Validator rejects early: a text with an invalid character anywhere
    * before its last one fails with InvalidChar, whatever evaluating it
    * would give. */
  lemma {:induction false} InvalidCharWins(s: seq<char>, i: nat)
    requires i < |s| - 1 && !IsRightChar(s[i])
    ensures Calculation(s) == Err(InvalidChar)
  {
  }

  /** The last character is not validated: any character may end a line
    * whose other characters are admitted, and it never turns the result
    * into InvalidChar. */
  lemma {:induction false} LastCharNotValidated(s: seq<char>, last: char)
    requires AllRight(s)
    ensures Calculation(s + [last]) != Err(InvalidChar)
  {
    assert forall i | 0 <= i < |s + [last]| - 1 :: (s + [last])[i] == s[i];
  }
}
