/** An independent reference for what the calculator computes.
  *
  * Well-formed calculator input is described by a tree whose shape encodes
  * precedence and left associativity: an expression is a left-nested chain
  * of terms under `+`/`-`, a term a left-nested chain of factors under
  * `*`/`/`, and a factor a literal or a parenthesised expression, each with
  * an optional single minus.  A literal is a number written with a given
  * count of leading zeros.  `Eval` gives the tree's value by structural
  * recursion; `Print*` writes the tree as text.  The main theorem states
  * that the one-pass evaluator, run on the printed text, computes exactly
  * the tree's value, or DivByZero exactly when the tree divides by zero.
  */
module Reference {
  import opened Arith
  import opened Grammar

  datatype Expr = OneTerm(t: Term) | Add(l: Expr, rt: Term) | Sub(l: Expr, rt: Term)
  datatype Term = OneFactor(f: Factor) | Mul(l: Term, rf: Factor) | Div(l: Term, rf: Factor)
  datatype Factor = Lit(neg: bool, zeros: nat, n: nat) | Group(neg: bool, e: Expr)

  function Negate(neg: bool, v: int): int
  {
    if neg then -v else v
  }

  /** The four binary operators and the character each is written as. */
  datatype Op = Plus | Minus | Times | Over

  function Symbol(o: Op): char
  {
    match o
    case Plus => '+'
    case Minus => '-'
    case Times => '*'
    case Over => '/'
  }

  /** Applies `o` to two operand results, the left one's error first; a
    * zero divisor is DivByZero and division truncates as C's does. */
  function Combine(o: Op, ra: Result<int>, rb: Result<int>): Result<int>
  {
    match ra
    case Err(x) => Err(x)
    case Ok(a) =>
      match rb
      case Err(x) => Err(x)
      case Ok(b) =>
        match o
        case Plus => Ok(a + b)
        case Minus => Ok(a - b)
        case Times => Ok(a * b)
        case Over => if b == 0 then Err(DivByZero) else Ok(TruncDiv(a, b))
  }

  function EvalE(e: Expr): Result<int>
  {
    match e
    case OneTerm(t) => EvalT(t)
    case Add(l, t) => Combine(Plus, EvalE(l), EvalT(t))
    case Sub(l, t) => Combine(Minus, EvalE(l), EvalT(t))
  }

  function EvalT(t: Term): Result<int>
  {
    match t
    case OneFactor(f) => EvalF(f)
    case Mul(l, f) => Combine(Times, EvalT(l), EvalF(f))
    case Div(l, f) => Combine(Over, EvalT(l), EvalF(f))
  }

  function EvalF(f: Factor): Result<int>
  {
    match f
    case Lit(neg, _, n) => Ok(Negate(neg, n))
    case Group(neg, e) =>
      match EvalE(e) case Err(x) => Err(x) case Ok(v) => Ok(Negate(neg, v))
  }

  /** The decimal digits of `n`, most significant first, without leading
    * zeros. */
  function Decimal(n: nat): (ds: seq<char>)
    ensures |ds| > 0
    ensures AllDigits(ds)
  {
    var last := ('0' as int + n % 10) as char;
    if n < 10 then [last] else Decimal(n / 10) + [last]
  }

  /** Reading the printed digits back gives the number. */
  lemma {:induction false} DecimalRoundTrip(n: nat)
    ensures DecimalValue(Decimal(n)) == n
  {
    var last := ('0' as int + n % 10) as char;
    if n < 10 {
      assert Decimal(n) == [] + [last];
      DecimalValueAppend([], last);
    } else {
      DecimalRoundTrip(n / 10);
      DecimalValueAppend(Decimal(n / 10), last);
    }
  }

  /** A numeral as it may be written: `zeros` leading zeros, then the
    * decimal digits of `n`. */
  function Numeral(zeros: nat, n: nat): (ds: seq<char>)
    ensures |ds| > 0 && AllDigits(ds)
  {
    ZerosAreZeros(zeros);
    Zeros(zeros) + Decimal(n)
  }

  function Zeros(k: nat): (zs: seq<char>)
    ensures |zs| == k
  {
    if k == 0 then [] else Zeros(k - 1) + ['0']
  }

  lemma {:induction false} ZerosAreZeros(k: nat)
    ensures forall i | 0 <= i < k :: Zeros(k)[i] == '0'
  {
    if k > 0 {
      ZerosAreZeros(k - 1);
      assert forall i | 0 <= i < k - 1 :: Zeros(k)[i] == Zeros(k - 1)[i];
    }
  }

  /** A string of zeros has the value 0. */
  lemma {:induction false} ZerosValue(zs: seq<char>)
    requires forall i | 0 <= i < |zs| :: zs[i] == '0'
    ensures DecimalValue(zs) == 0
  {
    if zs != [] {
      ZerosValue(zs[..|zs| - 1]);
    }
  }

  /** Leading zeros do not change the value of a digit string. */
  lemma {:induction false} LeadingZerosValue(zs: seq<char>, ds: seq<char>)
    requires forall i | 0 <= i < |zs| :: zs[i] == '0'
    ensures DecimalValue(zs + ds) == DecimalValue(ds)
  {
    if ds == [] {
      assert zs + ds == zs;
      ZerosValue(zs);
    } else {
      var init := ds[..|ds| - 1];
      LeadingZerosValue(zs, init);
      assert (zs + ds)[..|zs + ds| - 1] == zs + init;
    }
  }

  /** Reading back a numeral gives its number, whatever its leading
    * zeros. */
  lemma {:induction false} NumeralValue(zeros: nat, n: nat)
    ensures DecimalValue(Numeral(zeros, n)) == n
  {
    ZerosAreZeros(zeros);
    LeadingZerosValue(Zeros(zeros), Decimal(n));
    DecimalRoundTrip(n);
  }

  function MinusIf(neg: bool): string
  {
    if neg then "-" else ""
  }

  function PrintE(e: Expr): (w: string)
    ensures |w| > 0
  {
    match e
    case OneTerm(t) => PrintT(t)
    case Add(l, t) => PrintE(l) + "+" + PrintT(t)
    case Sub(l, t) => PrintE(l) + "-" + PrintT(t)
  }

  function PrintT(t: Term): (w: string)
    ensures |w| > 0
  {
    match t
    case OneFactor(f) => PrintF(f)
    case Mul(l, f) => PrintT(l) + "*" + PrintF(f)
    case Div(l, f) => PrintT(l) + "/" + PrintF(f)
  }

  function PrintF(f: Factor): (w: string)
    ensures |w| > 0
  {
    match f
    case Lit(neg, zeros, n) => MinusIf(neg) + Numeral(zeros, n)
    case Group(neg, e) => MinusIf(neg) + "(" + PrintE(e) + ")"
  }

  /** The text `s` holds `w` from position `p` on. */
  predicate At(s: seq<char>, p: nat, w: seq<char>)
  {
    p + |w| <= |s| && forall i | 0 <= i < |w| :: s[p + i] == w[i]
  }

  lemma {:induction false} AtSplit(s: seq<char>, p: nat, a: seq<char>, b: seq<char>)
    requires At(s, p, a + b)
    ensures At(s, p, a) && At(s, p + |a|, b)
  {
    forall i | 0 <= i < |a| ensures s[p + i] == a[i] {
      assert (a + b)[i] == a[i];
    }
    forall i | 0 <= i < |b| ensures s[p + |a| + i] == b[i] {
      assert (a + b)[|a| + i] == b[i];
    }
  }

  lemma {:induction false} AtChar(s: seq<char>, p: nat, w: seq<char>, i: nat)
    requires At(s, p, w) && i < |w|
    ensures p + i < |s| && s[p + i] == w[i]
  {
  }

  /** Text holding `left`, an operator and `right` holds each part. */
  lemma {:induction false} SplitAtOperator(s: seq<char>, p: nat, left: seq<char>, op: char, right: seq<char>)
    requires At(s, p, left + [op] + right)
    ensures At(s, p, left) && Peek(s, p + |left|) == op && At(s, p + |left| + 1, right)
  {
    AtSplit(s, p, left + [op], right);
    AtSplit(s, p, left, [op]);
    AtChar(s, p + |left|, [op], 0);
  }

  /** A character that may follow a factor, a term or an expression without
    * being taken as part of it. */
  predicate EndsFactor(c: char) { !IsDigit(c) }
  predicate EndsTerm(c: char) { EndsFactor(c) && c != '*' && c != '/' }
  predicate EndsExpr(c: char) { EndsTerm(c) && c != '+' && c != '-' }

  /** The evaluator's result for a value `r` whose text ends at `next`. */
  function Lift(r: Result<int>, next: nat): Result<Step>
  {
    match r case Ok(v) => Ok(Step(v, next)) case Err(x) => Err(x)
  }

  /** `get_natural` on a printed factor gives the factor's value and stops
    * right after the printed text. */
  lemma {:induction false} FactorOfPrinted(s: seq<char>, p: nat, f: Factor)
    requires At(s, p, PrintF(f)) && EndsFactor(Peek(s, p + |PrintF(f)|))
    ensures FactorAt(s, p) == Lift(EvalF(f), p + |PrintF(f)|)
    decreases |PrintF(f)|, 1
  {
    match f
    case Lit(neg, zeros, n) => LiteralOfPrinted(s, p, neg, zeros, n);
    case Group(neg, e) => GroupOfPrinted(s, p, neg, e);
  }

  /** Where the parts of a printed literal lie in the text. */
  lemma {:induction false} LiteralLayout(s: seq<char>, p: nat, neg: bool, zeros: nat, n: nat)
    requires var w := PrintF(Lit(neg, zeros, n)); At(s, p, w) && EndsFactor(Peek(s, p + |w|))
    ensures var q := p + |MinusIf(neg)|; var ds := Numeral(zeros, n);
      BodyAt(s, p) == q && (Peek(s, p) == '-' <==> neg) && IsDigit(Peek(s, q))
      && DigitRun(s, q) == ds && q + |ds| == p + |PrintF(Lit(neg, zeros, n))|
  {
    var q := p + |MinusIf(neg)|;
    var ds := Numeral(zeros, n);
    AtSplit(s, p, MinusIf(neg), ds);
    AtChar(s, q, ds, 0);
    if neg { AtChar(s, p, MinusIf(neg), 0); }
    DigitRunOfDigits(s, q, ds);
  }

  lemma {:induction false} LiteralOfPrinted(s: seq<char>, p: nat, neg: bool, zeros: nat, n: nat)
    requires var w := PrintF(Lit(neg, zeros, n)); At(s, p, w) && EndsFactor(Peek(s, p + |w|))
    ensures FactorAt(s, p) == Lift(EvalF(Lit(neg, zeros, n)), p + |PrintF(Lit(neg, zeros, n))|)
  {
    LiteralLayout(s, p, neg, zeros, n);
    NumeralValue(zeros, n);
    LiteralResult(s, p, neg, zeros, n, p + |MinusIf(neg)|, Numeral(zeros, n));
  }

  /** The digits `ds` after the sign, read as `n`, end where the printed
    * literal ends. */
  lemma {:induction false} LiteralResult(s: seq<char>, p: nat, neg: bool, zeros: nat, n: nat, q: nat, ds: seq<char>)
    requires BodyAt(s, p) == q && (Peek(s, p) == '-' <==> neg) && IsDigit(Peek(s, q))
    requires DigitRun(s, q) == ds && DecimalValue(ds) == n && q + |ds| == p + |PrintF(Lit(neg, zeros, n))|
    ensures FactorAt(s, p) == Lift(EvalF(Lit(neg, zeros, n)), p + |PrintF(Lit(neg, zeros, n))|)
  {
    LiteralStep(s, p, neg, zeros, n, q + |ds|);
    SignedDigits(s, p, q, ds, n, Lift(EvalF(Lit(neg, zeros, n)), p + |PrintF(Lit(neg, zeros, n))|));
  }

  /** The evaluator's result for a literal whose sign is read at `p` and
    * whose text ends at `end`. */
  lemma {:induction false} LiteralStep(s: seq<char>, p: nat, neg: bool, zeros: nat, n: nat, end: nat)
    requires Peek(s, p) == '-' <==> neg
    requires end == p + |PrintF(Lit(neg, zeros, n))|
    ensures Lift(EvalF(Lit(neg, zeros, n)), p + |PrintF(Lit(neg, zeros, n))|)
      == Ok(Step(if Peek(s, p) == '-' then -(n as int) else n, end))
  {
  }

  /** A factor whose digit run `ds` after the sign reads as `v` gives `r`,
    * the signed value of `ds` and the cursor after it. */
  lemma {:induction false} SignedDigits(s: seq<char>, p: nat, q: nat, ds: seq<char>, v: int, r: Result<Step>)
    requires BodyAt(s, p) == q && Peek(s, q) != '(' && DigitRun(s, q) == ds && DecimalValue(ds) == v
    requires r == Ok(Step(if Peek(s, p) == '-' then -v else v, q + |ds|))
    ensures FactorAt(s, p) == r
  {
    FactorOfDigits(s, p);
    TimesSign(v, s, p);
  }

  /** Where the parts of a printed parenthesised factor lie in the text. */
  lemma {:induction false} GroupLayout(s: seq<char>, p: nat, neg: bool, e: Expr)
    requires At(s, p, PrintF(Group(neg, e)))
    ensures var q := p + |MinusIf(neg)|;
      BodyAt(s, p) == q && SignAt(s, p) == (if neg then -1 else 1)
      && Peek(s, q) == '(' && At(s, q + 1, PrintE(e)) && Peek(s, q + 1 + |PrintE(e)|) == ')'
      && q + 1 + |PrintE(e)| + 1 == p + |PrintF(Group(neg, e))|
  {
    var w, sign := PrintE(e), MinusIf(neg);
    var q := p + |sign|;
    assert PrintF(Group(neg, e)) == sign + ("(" + (w + ")"));
    AtSplit(s, p, sign, "(" + (w + ")"));
    AtSplit(s, q, "(", w + ")");
    AtSplit(s, q + 1, w, ")");
    AtChar(s, q, "(", 0);
    AtChar(s, q + 1 + |w|, ")", 0);
    if neg {
      AtChar(s, p, sign, 0);
      assert Peek(s, p) == '-';
    } else {
      assert q == p && Peek(s, p) == '(';
    }
  }

  lemma {:induction false} GroupOfPrinted(s: seq<char>, p: nat, neg: bool, e: Expr)
    requires At(s, p, PrintF(Group(neg, e))) && EndsFactor(Peek(s, p + |PrintF(Group(neg, e))|))
    ensures FactorAt(s, p) == Lift(EvalF(Group(neg, e)), p + |PrintF(Group(neg, e))|)
    decreases |PrintF(Group(neg, e))|, 0
  {
    var q := p + |MinusIf(neg)|;
    GroupLayout(s, p, neg, e);
    ExpressionOfPrinted(s, q + 1, e);
    FactorOfGroup(s, p);
    if EvalE(e).Ok? {
      TimesSign(EvalE(e).value, s, p);
    }
  }

  /** The term loop entered at `m` with the result so far, or that result's
    * error. */
  function TermAfter(s: seq<char>, m: nat, r: Result<int>): Result<Step>
  {
    match r case Ok(a) => TermLoop(s, m, a) case Err(x) => Err(x)
  }

  /** The expression loop entered at `m` with the result so far, or that
    * result's error. */
  function ExpressionAfter(s: seq<char>, m: nat, r: Result<int>): Result<Step>
  {
    match r case Ok(a) => ExpressionLoop(s, m, a) case Err(x) => Err(x)
  }

  /** One turn of `evaluate_term`'s loop over an operator and a factor that
    * ends at `end` combines the two results. */
  lemma {:induction false} TermLoopOverFactor(s: seq<char>, m: nat, end: nat, o: Op, ra: Result<int>, rb: Result<int>, r: Result<int>)
    requires o == Times || o == Over
    requires Peek(s, m) == Symbol(o)
    requires FactorAt(s, m + 1) == Lift(rb, end) && r == Combine(o, ra, rb)
    ensures TermAfter(s, m, ra) == TermAfter(s, end, r)
  {
    if ra.Ok? {
      TermLoopStep(s, m, ra.value);
    }
  }

  /** One turn of `evaluate_expression`'s loop over an operator and a term
    * that ends at `end` combines the two results. */
  lemma {:induction false} ExpressionLoopOverTerm(s: seq<char>, m: nat, end: nat, o: Op, ra: Result<int>, rb: Result<int>, r: Result<int>)
    requires o == Plus || o == Minus
    requires Peek(s, m) == Symbol(o)
    requires TermAt(s, m + 1) == Lift(rb, end) && r == Combine(o, ra, rb)
    ensures ExpressionAfter(s, m, ra) == ExpressionAfter(s, end, r)
  {
    if ra.Ok? {
      ExpressionLoopStep(s, m, ra.value);
    }
  }

  /** A printed term, followed by a non-digit, is evaluated and the term loop
    * continues from its end with the term's value. */
  lemma {:induction false} TermPrefixOfPrinted(s: seq<char>, p: nat, t: Term)
    requires At(s, p, PrintT(t)) && EndsFactor(Peek(s, p + |PrintT(t)|))
    ensures TermAt(s, p) == TermAfter(s, p + |PrintT(t)|, EvalT(t))
    decreases |PrintT(t)|, 3
  {
    match t
    case OneFactor(f) => FactorOfPrinted(s, p, f);
    case Mul(l, f) => ProductPrefixOfPrinted(s, p, t);
    case Div(l, f) => ProductPrefixOfPrinted(s, p, t);
  }

  /** Where the parts of a printed product or quotient lie in the text, and
    * its value in terms of theirs. */
  lemma {:induction false} ProductLayout(s: seq<char>, p: nat, t: Term)
    requires t.Mul? || t.Div?
    requires At(s, p, PrintT(t))
    ensures var o := if t.Mul? then Times else Over;
      var m := p + |PrintT(t.l)|;
      At(s, p, PrintT(t.l)) && Peek(s, m) == Symbol(o) && At(s, m + 1, PrintF(t.rf))
      && m + 1 + |PrintF(t.rf)| == p + |PrintT(t)| && EvalT(t) == Combine(o, EvalT(t.l), EvalF(t.rf))
  {
    var o := if t.Mul? then Times else Over;
    assert PrintT(t) == PrintT(t.l) + [Symbol(o)] + PrintF(t.rf);
    SplitAtOperator(s, p, PrintT(t.l), Symbol(o), PrintF(t.rf));
  }

  lemma {:induction false} ProductPrefixOfPrinted(s: seq<char>, p: nat, t: Term)
    requires t.Mul? || t.Div?
    requires At(s, p, PrintT(t)) && EndsFactor(Peek(s, p + |PrintT(t)|))
    ensures TermAt(s, p) == TermAfter(s, p + |PrintT(t)|, EvalT(t))
    decreases |PrintT(t)|, 2
  {
    ProductLayout(s, p, t);
    TermPrefixOfPrinted(s, p, t.l);
    ProductRightOperand(s, p, t);
  }

  /** After the left operand of a printed product, the term loop takes the
    * operator and the right operand and combines the two. */
  lemma {:induction false} ProductRightOperand(s: seq<char>, p: nat, t: Term)
    requires t.Mul? || t.Div?
    requires At(s, p, PrintT(t)) && EndsFactor(Peek(s, p + |PrintT(t)|))
    ensures TermAfter(s, p + |PrintT(t.l)|, EvalT(t.l)) == TermAfter(s, p + |PrintT(t)|, EvalT(t))
    decreases |PrintT(t)|, 1
  {
    ProductLayout(s, p, t);
    RightFactor(s, p + |PrintT(t.l)|, p + |PrintT(t)|, t, if t.Mul? then Times else Over);
  }

  /** The right factor of a printed product or quotient, read between the
    * operator at `m` and `end`, completes the term's value. */
  lemma {:induction false} RightFactor(s: seq<char>, m: nat, end: nat, t: Term, o: Op)
    requires (t.Mul? || t.Div?) && o == (if t.Mul? then Times else Over)
    requires Peek(s, m) == Symbol(o) && At(s, m + 1, PrintF(t.rf))
    requires end == m + 1 + |PrintF(t.rf)| && EndsFactor(Peek(s, end))
    requires EvalT(t) == Combine(o, EvalT(t.l), EvalF(t.rf))
    ensures TermAfter(s, m, EvalT(t.l)) == TermAfter(s, end, EvalT(t))
    decreases |PrintT(t)|, 0
  {
    FactorOfPrinted(s, m + 1, t.rf);
    TermLoopOverFactor(s, m, end, o, EvalT(t.l), EvalF(t.rf), EvalT(t));
  }

  /** `evaluate_term` on a printed term is the term's left fold under `*`
    * and truncating `/`, failing exactly when a divisor is zero. */
  lemma {:induction false} TermOfPrinted(s: seq<char>, p: nat, t: Term)
    requires At(s, p, PrintT(t)) && EndsTerm(Peek(s, p + |PrintT(t)|))
    ensures TermAt(s, p) == Lift(EvalT(t), p + |PrintT(t)|)
    decreases |PrintT(t)|, 4
  {
    TermPrefixOfPrinted(s, p, t);
  }

  lemma {:induction false} ExpressionPrefixOfPrinted(s: seq<char>, p: nat, e: Expr)
    requires At(s, p, PrintE(e)) && EndsTerm(Peek(s, p + |PrintE(e)|))
    ensures ExpressionAt(s, p) == ExpressionAfter(s, p + |PrintE(e)|, EvalE(e))
    decreases |PrintE(e)|, 6
  {
    match e
    case OneTerm(t) => TermOfPrinted(s, p, t);
    case Add(l, t) => SumPrefixOfPrinted(s, p, e);
    case Sub(l, t) => SumPrefixOfPrinted(s, p, e);
  }

  /** Where the parts of a printed sum or difference lie in the text, and its
    * value in terms of theirs. */
  lemma {:induction false} SumLayout(s: seq<char>, p: nat, e: Expr)
    requires e.Add? || e.Sub?
    requires At(s, p, PrintE(e))
    ensures var o := if e.Add? then Plus else Minus;
      var m := p + |PrintE(e.l)|;
      At(s, p, PrintE(e.l)) && Peek(s, m) == Symbol(o) && At(s, m + 1, PrintT(e.rt))
      && m + 1 + |PrintT(e.rt)| == p + |PrintE(e)| && EvalE(e) == Combine(o, EvalE(e.l), EvalT(e.rt))
  {
    var o := if e.Add? then Plus else Minus;
    assert PrintE(e) == PrintE(e.l) + [Symbol(o)] + PrintT(e.rt);
    SplitAtOperator(s, p, PrintE(e.l), Symbol(o), PrintT(e.rt));
  }

  lemma {:induction false} SumPrefixOfPrinted(s: seq<char>, p: nat, e: Expr)
    requires e.Add? || e.Sub?
    requires At(s, p, PrintE(e)) && EndsTerm(Peek(s, p + |PrintE(e)|))
    ensures ExpressionAt(s, p) == ExpressionAfter(s, p + |PrintE(e)|, EvalE(e))
    decreases |PrintE(e)|, 5
  {
    SumLayout(s, p, e);
    ExpressionPrefixOfPrinted(s, p, e.l);
    SumRightOperand(s, p, e);
  }

  /** After the left operand of a printed sum, the expression loop takes the
    * operator and the right operand and combines the two. */
  lemma {:induction false} SumRightOperand(s: seq<char>, p: nat, e: Expr)
    requires e.Add? || e.Sub?
    requires At(s, p, PrintE(e)) && EndsTerm(Peek(s, p + |PrintE(e)|))
    ensures ExpressionAfter(s, p + |PrintE(e.l)|, EvalE(e.l)) == ExpressionAfter(s, p + |PrintE(e)|, EvalE(e))
    decreases |PrintE(e)|, 4
  {
    SumLayout(s, p, e);
    RightTerm(s, p + |PrintE(e.l)|, p + |PrintE(e)|, e, if e.Add? then Plus else Minus);
  }

  /** The right term of a printed sum or difference, read between the
    * operator at `m` and `end`, completes the expression's value. */
  lemma {:induction false} RightTerm(s: seq<char>, m: nat, end: nat, e: Expr, o: Op)
    requires (e.Add? || e.Sub?) && o == (if e.Add? then Plus else Minus)
    requires Peek(s, m) == Symbol(o) && At(s, m + 1, PrintT(e.rt))
    requires end == m + 1 + |PrintT(e.rt)| && EndsTerm(Peek(s, end))
    requires EvalE(e) == Combine(o, EvalE(e.l), EvalT(e.rt))
    ensures ExpressionAfter(s, m, EvalE(e.l)) == ExpressionAfter(s, end, EvalE(e))
    decreases |PrintE(e)|, 3
  {
    TermOfPrinted(s, m + 1, e.rt);
    ExpressionLoopOverTerm(s, m, end, o, EvalE(e.l), EvalT(e.rt), EvalE(e));
  }

  /** `evaluate_expression` on a printed expression is the expression's value
    * under the usual precedence and left associativity, and stops right
    * after the printed text. */
  lemma {:induction false} ExpressionOfPrinted(s: seq<char>, p: nat, e: Expr)
    requires At(s, p, PrintE(e)) && EndsExpr(Peek(s, p + |PrintE(e)|))
    ensures ExpressionAt(s, p) == Lift(EvalE(e), p + |PrintE(e)|)
    decreases |PrintE(e)|, 7
  {
    ExpressionPrefixOfPrinted(s, p, e);
  }

  /** Digits followed by a non-digit are exactly the digit run. */
  lemma {:induction false} DigitRunOfDigits(s: seq<char>, p: nat, ds: seq<char>)
    requires At(s, p, ds) && AllDigits(ds)
    requires !IsDigit(Peek(s, p + |ds|))
    ensures DigitRun(s, p) == ds
    decreases |ds|
  {
    if ds != [] {
      assert s[p] == ds[0];
      forall i | 0 <= i < |ds| - 1 ensures s[p + 1 + i] == ds[1..][i] {
        assert s[p + (i + 1)] == ds[i + 1];
      }
      DigitRunOfDigits(s, p + 1, ds[1..]);
      assert ds == [ds[0]] + ds[1..];
    }
  }

  lemma {:induction false} AllRightConcat(a: seq<char>, b: seq<char>)
    requires AllRight(a) && AllRight(b)
    ensures AllRight(a + b)
  {
    forall i | 0 <= i < |a + b| ensures IsRightChar((a + b)[i]) {
      if i < |a| { assert (a + b)[i] == a[i]; } else { assert (a + b)[i] == b[i - |a|]; }
    }
  }

  /** Printed text uses only characters the validator admits. */
  lemma {:induction false} PrintedCharsAdmitted(e: Expr)
    ensures AllRight(PrintE(e))
  {
    match e
    case OneTerm(t) => PrintedTermCharsAdmitted(t);
    case Add(l, t) =>
      PrintedCharsAdmitted(l); PrintedTermCharsAdmitted(t);
      AllRightConcat(PrintE(l), "+"); AllRightConcat(PrintE(l) + "+", PrintT(t));
    case Sub(l, t) =>
      PrintedCharsAdmitted(l); PrintedTermCharsAdmitted(t);
      AllRightConcat(PrintE(l), "-"); AllRightConcat(PrintE(l) + "-", PrintT(t));
  }

  lemma {:induction false} PrintedTermCharsAdmitted(t: Term)
    ensures AllRight(PrintT(t))
  {
    match t
    case OneFactor(f) => PrintedFactorCharsAdmitted(f);
    case Mul(l, f) =>
      PrintedTermCharsAdmitted(l); PrintedFactorCharsAdmitted(f);
      AllRightConcat(PrintT(l), "*"); AllRightConcat(PrintT(l) + "*", PrintF(f));
    case Div(l, f) =>
      PrintedTermCharsAdmitted(l); PrintedFactorCharsAdmitted(f);
      AllRightConcat(PrintT(l), "/"); AllRightConcat(PrintT(l) + "/", PrintF(f));
  }

  lemma {:induction false} PrintedFactorCharsAdmitted(f: Factor)
    ensures AllRight(PrintF(f))
  {
    match f
    case Lit(neg, zeros, n) =>
      AllRightConcat(MinusIf(neg), Numeral(zeros, n));
    case Group(neg, e) =>
      PrintedCharsAdmitted(e);
      AllRightConcat(MinusIf(neg), "(");
      AllRightConcat(MinusIf(neg) + "(", PrintE(e));
      AllRightConcat(MinusIf(neg) + "(" + PrintE(e), ")");
  }

  /** `calculate` on a printed expression yields the expression's value, or
    * DivByZero exactly when the expression divides by zero. */
  lemma {:induction false} CalculationOfPrinted(s: seq<char>, e: Expr)
    requires s == PrintE(e)
    ensures Calculation(s) == EvalE(e)
  {
    PrintedCharsAdmitted(e);
    ExpressionOfPrinted(s, 0, e);
  }

  /** The same for a line as `fgets` delivers it: the printed expression and
    * one final character, which is not validated. */
  lemma {:induction false} CalculationOfPrintedLine(s: seq<char>, e: Expr, last: char)
    requires EndsExpr(last) && s == PrintE(e) + [last]
    ensures Calculation(s) == EvalE(e)
  {
    PrintedCharsAdmitted(e);
    assert forall i | 0 <= i < |s| - 1 :: s[i] == PrintE(e)[i];
    assert s[|PrintE(e)|] == last;
    ExpressionOfPrinted(s, 0, e);
  }

  /** A group that runs to the end of the text is the whole expression:
    * its value is the group's, with the cursor one past the end. */
  lemma {:induction false} ExpressionOfGroupToEnd(s: seq<char>, r: Result<int>)
    requires Peek(s, 0) == '(' && ExpressionAt(s, 1) == Lift(r, |s|)
    ensures ExpressionAt(s, 0) == Lift(r, |s| + 1)
  {
    FactorOfGroup(s, 0);
    match r
    case Err(x) =>
      assert FactorAt(s, 0) == Err(x);
      assert TermAt(s, 0) == Err(x);
    case Ok(v) =>
      assert FactorAt(s, 0) == Ok(Step(v, |s| + 1));
      assert TermAt(s, 0) == Ok(Step(v, |s| + 1));
  }

  /** A group whose `)` is missing at the end of the text is tolerated:
    * the character consumed in its place lies past the end, and the text
    * evaluates to the group's inner expression. */
  lemma {:induction false} CalculationOfUnclosedGroup(s: seq<char>, e: Expr)
    requires s == "(" + PrintE(e)
    ensures Calculation(s) == EvalE(e)
  {
    UnclosedLayout(s, e);
    ExpressionOfPrinted(s, 1, e);
    ExpressionOfGroupToEnd(s, EvalE(e));
  }

  /** Where the printed expression lies in a text that opens a group before
    * it, and that every character but the last is admitted. */
  lemma {:induction false} UnclosedLayout(s: seq<char>, e: Expr)
    requires s == "(" + PrintE(e)
    ensures Peek(s, 0) == '(' && At(s, 1, PrintE(e)) && |s| == 1 + |PrintE(e)| && Peek(s, |s|) == '\0'
    ensures forall i | 0 <= i < |s| - 1 :: IsRightChar(s[i])
  {
    var w := PrintE(e);
    PrintedCharsAdmitted(e);
    assert forall i | 0 <= i < |w| :: s[1 + i] == w[i];
    forall i | 0 <= i < |s| - 1 ensures IsRightChar(s[i]) {
      if i > 0 { assert s[i] == w[i - 1]; }
    }
  }

  /** Some `/` in the expression has a right operand that evaluates to 0,
    * at any depth and position. */
  predicate DividesByZeroE(e: Expr)
  {
    match e
    case OneTerm(t) => DividesByZeroT(t)
    case Add(l, t) => DividesByZeroE(l) || DividesByZeroT(t)
    case Sub(l, t) => DividesByZeroE(l) || DividesByZeroT(t)
  }

  predicate DividesByZeroT(t: Term)
  {
    match t
    case OneFactor(f) => DividesByZeroF(f)
    case Mul(l, f) => DividesByZeroT(l) || DividesByZeroF(f)
    case Div(l, f) => DividesByZeroT(l) || DividesByZeroF(f) || EvalF(f) == Ok(0)
  }

  predicate DividesByZeroF(f: Factor)
  {
    match f
    case Lit(_, _, _) => false
    case Group(_, e) => DividesByZeroE(e)
  }

  /** Evaluation fails exactly when some division has a zero divisor, and
    * the failure is then always DivByZero. */
  lemma {:induction false} FailsIffDividesByZero(e: Expr)
    ensures EvalE(e).Err? <==> DividesByZeroE(e)
    ensures EvalE(e).Err? ==> EvalE(e).error == DivByZero
  {
    match e
    case OneTerm(t) => TermFailsIffDividesByZero(t);
    case Add(l, t) => FailsIffDividesByZero(l); TermFailsIffDividesByZero(t);
    case Sub(l, t) => FailsIffDividesByZero(l); TermFailsIffDividesByZero(t);
  }

  lemma {:induction false} TermFailsIffDividesByZero(t: Term)
    ensures EvalT(t).Err? <==> DividesByZeroT(t)
    ensures EvalT(t).Err? ==> EvalT(t).error == DivByZero
  {
    match t
    case OneFactor(f) => FactorFailsIffDividesByZero(f);
    case Mul(l, f) => TermFailsIffDividesByZero(l); FactorFailsIffDividesByZero(f);
    case Div(l, f) => TermFailsIffDividesByZero(l); FactorFailsIffDividesByZero(f);
  }

  lemma {:induction false} FactorFailsIffDividesByZero(f: Factor)
    ensures EvalF(f).Err? <==> DividesByZeroF(f)
    ensures EvalF(f).Err? ==> EvalF(f).error == DivByZero
  {
    match f
    case Lit(_, _, _) =>
    case Group(_, e) => FailsIffDividesByZero(e);
  }

  /** Division by zero anywhere in a printed expression makes `calculate`
    * fail with DivByZero, and nothing else makes it fail. */
  lemma {:induction false} CalculationDivByZero(e: Expr)
    ensures Calculation(PrintE(e)) == Err(DivByZero) <==> DividesByZeroE(e)
    ensures Calculation(PrintE(e)).Ok? <==> !DividesByZeroE(e)
  {
    CalculationOfPrinted(PrintE(e), e);
    FailsIffDividesByZero(e);
  }
}
