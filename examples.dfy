/** The values that the C file's own tests expect, derived from the model.
  * Each text is written as a tree of module Reference whose value is
  * computed first; the printed-text round trip then carries that value over
  * to the grammar function.  The two texts that no tree prints (a factor
  * starting with a letter, and a group whose `)` is missing) follow from
  * the grammar lemmas directly.
  */
module Examples {
  import opened Grammar
  import opened Reference
  import opened Properties

  function Num(n: nat): Factor { Lit(false, 0, n) }
  function Neg(n: nat): Factor { Lit(true, 0, n) }
  function Single(f: Factor): Expr { OneTerm(OneFactor(f)) }

  /** `get_natural` at the start of a text that begins with the printed
    * factor `f`, whose value is `v`. */
  lemma {:induction false} FactorOfText(s: seq<char>, f: Factor, rest: seq<char>, v: int)
    requires s == PrintF(f) + rest && !IsDigit(Peek(rest, 0)) && EvalF(f) == Ok(v)
    ensures FactorAt(s, 0) == Ok(Step(v, |PrintF(f)|))
  {
    TextStartsWith(PrintF(f), rest);
    FactorOfPrinted(s, 0, f);
  }

  /** Text made of `w` then `rest` holds `w` at its start, and after `w`
    * comes what `rest` starts with. */
  lemma {:induction false} TextStartsWith(w: seq<char>, rest: seq<char>)
    ensures At(w + rest, 0, w) && Peek(w + rest, |w|) == Peek(rest, 0)
  {
    forall i | 0 <= i < |w| ensures (w + rest)[i] == w[i] {
    }
  }

  /** A whole text is at its own start, and only the terminator follows it. */
  lemma {:induction false} WholeText(s: seq<char>)
    ensures At(s, 0, s) && Peek(s, |s|) == '\0'
  {
  }

  /** `evaluate_term` on the text of the printed term `t`. */
  lemma {:induction false} TermOfTree(t: Term)
    ensures TermAt(PrintT(t), 0) == Lift(EvalT(t), |PrintT(t)|)
  {
    WholeText(PrintT(t));
    TermOfPrinted(PrintT(t), 0, t);
  }

  /** `evaluate_term` on the text `s` of the printed term `t`, whose value is
    * `v`. */
  lemma {:induction false} TermOfText(s: seq<char>, t: Term, v: int)
    requires s == PrintT(t) && EvalT(t) == Ok(v)
    ensures TermAt(s, 0) == Ok(Step(v, |s|))
  {
    TermOfTree(t);
  }

  /** `evaluate_expression` on the text of the printed expression `e`. */
  lemma {:induction false} ExpressionOfTree(e: Expr)
    ensures ExpressionAt(PrintE(e), 0) == Lift(EvalE(e), |PrintE(e)|)
  {
    WholeText(PrintE(e));
    ExpressionOfPrinted(PrintE(e), 0, e);
  }

  /** `evaluate_expression` on the text `s` of the printed expression `e`,
    * whose value is `v`. */
  lemma {:induction false} ExpressionOfText(s: seq<char>, e: Expr, v: int)
    requires s == PrintE(e) && EvalE(e) == Ok(v)
    ensures ExpressionAt(s, 0) == Ok(Step(v, |s|))
  {
    ExpressionOfTree(e);
  }

  /** `calculate` on the printed expression `e`, whose value is `v`. */
  lemma {:induction false} CalculationOfText(s: seq<char>, e: Expr, v: int)
    requires s == PrintE(e) && EvalE(e) == Ok(v)
    ensures Calculation(s) == Ok(v)
  {
    CalculationOfPrinted(s, e);
  }

  // test_get_natural

  lemma GetNaturalMinusOne()
    ensures FactorAt("-1", 0) == Ok(Step(-1, 2))
  {
    FactorOfText("-1", Neg(1), "", -1);
  }

  lemma GetNaturalStopsAtPoint()
    ensures FactorAt("8.0", 0) == Ok(Step(8, 1))
  {
    FactorOfText("8.0", Num(8), ".0", 8);
  }

  lemma GetNaturalStopsAtLetter()
    ensures FactorAt("2f", 0) == Ok(Step(2, 1))
  {
    FactorOfText("2f", Num(2), "f", 2);
  }

  lemma GetNaturalOfLetter()
    ensures FactorAt("xf", 0) == Ok(Step(0, 0))
  {
    FactorZeroFallback("xf", 0);
  }

  lemma GetNaturalGroupOfOne()
    ensures FactorAt("(1)", 0) == Ok(Step(1, 3))
  {
    var f := Group(false, Single(Num(1)));
    FactorOfText("(1)", f, "", 1);
  }

  lemma GetNaturalGroupOfSum()
    ensures FactorAt("(1+1)", 0) == Ok(Step(2, 5))
  {
    var f := Group(false, Add(Single(Num(1)), OneFactor(Num(1))));
    FactorOfText("(1+1)", f, "", 2);
  }

  lemma GetNaturalNestedGroup()
    ensures FactorAt("((-1)+1)", 0) == Ok(Step(0, 8))
  {
    var minusOne := Single(Group(false, Single(Neg(1))));
    var f := Group(false, Add(minusOne, OneFactor(Num(1))));
    FactorOfText("((-1)+1)", f, "", 0);
  }

  // test_evaluate_term

  lemma EvaluateTermProduct()
    ensures TermAt("1*2", 0) == Ok(Step(2, 3))
  {
    var t := Mul(OneFactor(Num(1)), Num(2));
    TermOfText("1*2", t, 2);
  }

  lemma EvaluateTermNegativeLeft()
    ensures TermAt("-3*4", 0) == Ok(Step(-12, 4))
  {
    var t := Mul(OneFactor(Neg(3)), Num(4));
    TermOfText("-3*4", t, -12);
  }

  lemma EvaluateTermBothNegative()
    ensures TermAt("-1*-4", 0) == Ok(Step(4, 5))
  {
    var t := Mul(OneFactor(Neg(1)), Neg(4));
    TermOfText("-1*-4", t, 4);
  }

  lemma EvaluateTermZeroTimes()
    ensures TermAt("0*-4", 0) == Ok(Step(0, 4))
  {
    var t := Mul(OneFactor(Num(0)), Neg(4));
    TermOfText("0*-4", t, 0);
  }

  // test_evaluate_expression

  lemma EvaluateExpressionSum()
    ensures ExpressionAt("1+2", 0) == Ok(Step(3, 3))
  {
    var e := Add(Single(Num(1)), OneFactor(Num(2)));
    ExpressionOfText("1+2", e, 3);
  }

  lemma EvaluateExpressionProductRight()
    ensures ExpressionAt("3+2*1", 0) == Ok(Step(5, 5))
  {
    var e := Add(Single(Num(3)), Mul(OneFactor(Num(2)), Num(1)));
    ExpressionOfText("3+2*1", e, 5);
  }

  lemma EvaluateExpressionProductLeft()
    ensures ExpressionAt("1*4+2", 0) == Ok(Step(6, 5))
  {
    var e := Add(OneTerm(Mul(OneFactor(Num(1)), Num(4))), OneFactor(Num(2)));
    ExpressionOfText("1*4+2", e, 6);
  }

  lemma EvaluateExpressionDifference()
    ensures ExpressionAt("4*4-3*2", 0) == Ok(Step(10, 7))
  {
    DifferenceText();
    DifferenceValue();
    ExpressionOfText("4*4-3*2", Difference(), 10);
  }

  function Difference(): Expr
  {
    Sub(OneTerm(Mul(OneFactor(Num(4)), Num(4))), Mul(OneFactor(Num(3)), Num(2)))
  }

  lemma DifferenceText() ensures PrintE(Difference()) == "4*4-3*2" { }
  lemma DifferenceValue() ensures EvalE(Difference()) == Ok(10) { }

  lemma EvaluateExpressionLeftToRight()
    ensures ExpressionAt("0*4-3*2+1", 0) == Ok(Step(-5, 9))
  {
    LeftToRightText();
    LeftToRightValue();
    ExpressionOfText("0*4-3*2+1", LeftToRight(), -5);
  }

  function LeftToRight(): Expr
  {
    Add(Sub(OneTerm(Mul(OneFactor(Num(0)), Num(4))), Mul(OneFactor(Num(3)), Num(2))), OneFactor(Num(1)))
  }

  lemma LeftToRightText() ensures PrintE(LeftToRight()) == "0*4-3*2+1" { }
  lemma LeftToRightValue() ensures EvalE(LeftToRight()) == Ok(-5) { }

  // test_calculate

  lemma CalculateGroupOverTwo()
    ensures Calculation("(1+3*(-4))/2") == Ok(-5)
  {
    GroupOverTwoText();
    GroupOverTwoValue();
    CalculationOfText("(1+3*(-4))/2", GroupOverTwo(), -5);
  }

  function GroupOverTwo(): Expr
  {
    var inner := Add(Single(Num(1)), Mul(OneFactor(Num(3)), Group(false, Single(Neg(4)))));
    OneTerm(Div(OneFactor(Group(false, inner)), Num(2)))
  }

  lemma GroupOverTwoText() ensures PrintE(GroupOverTwo()) == "(1+3*(-4))/2" { }
  lemma GroupOverTwoValue() ensures EvalE(GroupOverTwo()) == Ok(-5) { }

  lemma CalculateMixed()
    ensures Calculation("(1*(-2))*(-2)-1*(2+4*2)/3+1") == Ok(2)
  {
    MixedText();
    MixedValue();
    CalculationOfText("(1*(-2))*(-2)-1*(2+4*2)/3+1", Mixed(), 2);
  }

  /** The longest text of `test_calculate`, from its two products. */
  function Mixed(): Expr
  {
    Add(MixedDifference(), OneFactor(Num(1)))
  }

  function MixedDifference(): Expr
  {
    Sub(OneTerm(MixedLeft()), MixedRight())
  }

  function MixedLeft(): Term
  {
    Mul(OneFactor(Group(false, OneTerm(Mul(OneFactor(Num(1)), Group(false, Single(Neg(2))))))),
      Group(false, Single(Neg(2))))
  }

  function MixedRight(): Term
  {
    Div(Mul(OneFactor(Num(1)), Group(false, Add(Single(Num(2)), Mul(OneFactor(Num(4)), Num(2))))), Num(3))
  }

  lemma MixedLeftText() ensures PrintT(MixedLeft()) == "(1*(-2))*(-2)" { }
  lemma MixedRightText() ensures PrintT(MixedRight()) == "1*(2+4*2)/3" { }

  lemma MixedDifferenceText()
    ensures PrintE(MixedDifference()) == "(1*(-2))*(-2)-1*(2+4*2)/3"
  {
    MixedLeftText();
    MixedRightText();
  }

  lemma MixedText()
    ensures PrintE(Mixed()) == "(1*(-2))*(-2)-1*(2+4*2)/3+1"
  {
    MixedDifferenceText();
  }

  lemma MixedValue()
    ensures EvalE(Mixed()) == Ok(2)
  {
    assert EvalT(MixedLeft()) == Ok(4);
    assert EvalT(MixedRight()) == Ok(3);
    assert EvalE(MixedDifference()) == Ok(1);
  }

  /** The closing parenthesis is missing: the character consumed in its
    * place lies past the end of the text. */
  lemma CalculateUnclosedGroup()
    ensures Calculation("(1*(-1+2*1)/3") == Ok(0)
  {
    UnclosedText();
    UnclosedValue();
    CalculationOfUnclosedGroup("(1*(-1+2*1)/3", Unclosed());
  }

  /** The text after the unclosed `(`. */
  function Unclosed(): Expr
  {
    OneTerm(Div(Mul(OneFactor(Num(1)), Group(false, Add(Single(Neg(1)), Mul(OneFactor(Num(2)), Num(1))))), Num(3)))
  }

  lemma UnclosedText() ensures "(" + PrintE(Unclosed()) == "(1*(-1+2*1)/3" { }
  lemma UnclosedValue() ensures EvalE(Unclosed()) == Ok(0) { }

  lemma CalculateQuotient()
    ensures Calculation("2/2") == Ok(1)
  {
    var e := OneTerm(Div(OneFactor(Num(2)), Num(2)));
    CalculationOfText("2/2", e, 1);
  }

  lemma CalculateTruncatedThird()
    ensures Calculation("1+2/(1*3)-2") == Ok(-1)
  {
    TruncatedThirdText();
    TruncatedThirdValue();
    CalculationOfText("1+2/(1*3)-2", TruncatedThird(), -1);
  }

  /** The last text of `test_calculate`. */
  function TruncatedThird(): Expr
  {
    var third := Div(OneFactor(Num(2)), Group(false, OneTerm(Mul(OneFactor(Num(1)), Num(3)))));
    Sub(Add(Single(Num(1)), third), OneFactor(Num(2)))
  }

  lemma TruncatedThirdText() ensures PrintE(TruncatedThird()) == "1+2/(1*3)-2" { }
  lemma TruncatedThirdValue() ensures EvalE(TruncatedThird()) == Ok(-1) { }

  /** Leading zeros are read as part of the number. */
  lemma CalculateLeadingZeros()
    ensures Calculation("10/005") == Ok(2)
  {
    LeadingZerosText();
    LeadingZerosEval();
    CalculationOfText("10/005", LeadingZeros(), 2);
  }

  function LeadingZeros(): Expr
  {
    OneTerm(Div(OneFactor(Num(10)), Lit(false, 2, 5)))
  }

  lemma LeadingZerosText() ensures PrintE(LeadingZeros()) == "10/005" { }
  lemma LeadingZerosEval() ensures EvalE(LeadingZeros()) == Ok(2) { }

  // Division by zero stops evaluation wherever it occurs.

  lemma CalculateDivisionByZero()
    ensures Calculation("1/0") == Err(DivByZero)
  {
    var e := OneTerm(Div(OneFactor(Num(1)), Num(0)));
    assert EvalE(e) == Err(DivByZero);
    CalculationOfPrinted("1/0", e);
  }

  lemma CalculateDivisionByZeroGroup()
    ensures Calculation("(1+1)/(1-1)") == Err(DivByZero)
  {
    ZeroGroupText();
    ZeroGroupValue();
    CalculationOfPrinted("(1+1)/(1-1)", ZeroGroup());
  }

  /** `(1+1)/(1-1)`, whose divisor is 0. */
  function ZeroGroup(): Expr
  {
    var two := Group(false, Add(Single(Num(1)), OneFactor(Num(1))));
    var zero := Group(false, Sub(Single(Num(1)), OneFactor(Num(1))));
    OneTerm(Div(OneFactor(two), zero))
  }

  lemma ZeroGroupText() ensures PrintE(ZeroGroup()) == "(1+1)/(1-1)" { }
  lemma ZeroGroupValue() ensures EvalE(ZeroGroup()) == Err(DivByZero) { }

  // Invalid characters are rejected before any evaluation.

  lemma CalculateRejectsPoint()
    ensures Calculation("8.0+1") == Err(InvalidChar)
    ensures Calculation("1/0 x") == Err(InvalidChar)
  {
    InvalidCharWins("8.0+1", 1);
    InvalidCharWins("1/0 x", 3);
  }

  // The last character is never validated.

  /** A line as `fgets` delivers it, newline included. */
  lemma CalculateLineWithNewline()
    ensures Calculation("2/2\n") == Ok(1)
  {
    var e := OneTerm(Div(OneFactor(Num(2)), Num(2)));
    assert EvalE(e) == Ok(1);
    CalculationOfPrintedLine("2/2\n", e, '\n');
  }

  /** A letter in the last position escapes the validator and is simply
    * where evaluation stops. */
  lemma CalculateLetterAtEnd()
    ensures Calculation("1+2x") == Ok(3)
  {
    var e := Add(Single(Num(1)), OneFactor(Num(2)));
    assert EvalE(e) == Ok(3);
    CalculationOfPrintedLine("1+2x", e, 'x');
  }
}
