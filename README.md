# Recursive-descent calculator, modelled in Dafny

The calculator evaluates integer arithmetic written as text: `+`, `-`, `*`,
truncating `/`, a single unary minus per factor, and parentheses, with `*`
and `/` binding tighter than `+` and `-` and all four left-associative.
It parses and evaluates in one pass, without a syntax tree. Three mutually
recursive procedures, `get_natural`, `evaluate_term` and
`evaluate_expression`, share one cursor (`int *position`) and advance it as
they consume characters. `calculate` first checks the characters of the
line, then evaluates from position 0.

The project has five modules:

- `Arith` (`arith.dfy`): `TruncDiv`, C's integer division, which truncates
  toward zero (section 6.5.5 of ISO/IEC 9899:1999). Dafny's own `/` is
  Euclidean.
- `Grammar` (`grammar.dfy`): the specification. It has one function per C
  procedure and per `while` loop, over the text (`seq<char>`) and a cursor
  position. Each function returns the value together with the position it
  leaves the cursor at, or the error that stops evaluation. `Peek` reads
  `'\0'` at and past the end of the text, as the C code reads the string's
  terminator.
- `Evaluator` (`evaluator.dfy`): the C procedures as imperative methods.
  The cursor is a `Cursor` object that each method advances in place.
  Each method's loops carry invariants, and each method is proved to return
  what its `Grammar` function says and to leave the cursor where that
  function says. The two `exit(EXIT_FAILURE)` paths become the error results
  `DivByZero` (main.c:98) and `InvalidChar` (main.c:149).
- `Reference` (`reference.dfy`): an independent definition of what the
  calculator should compute. It has syntax trees whose shape encodes
  precedence and associativity, a structural evaluator `EvalE`, and a
  printer `PrintE`. A number literal carries its count of leading zeros,
  so the trees print every digit string the digit loop accepts, `007`
  included. The main theorem says that the one-pass grammar, run on
  a printed tree, gives exactly the tree's value, or `DivByZero` exactly
  when some divisor in the tree is zero.
- `Properties` (`properties.dfy`) and `Examples` (`examples.dfy`):
  - `Properties` proves one lemma for each behaviour of a grammar level or
    of the validator.
  - `Examples` derives every value that the file's own tests assert, plus a
    few more cases (division by zero, invalid characters, the unchecked
    last character, leading zeros).

`Calculation` is a function of the text alone, and `Calculate` is proved
equal to it. So evaluating the same text twice always gives the same result.

Three behaviours of the code are easy to misread, and the model follows
the code in each:

- The comment on `get_natural` (main.c:37-38) speaks of gluing digits into
  a number, but the digit loop (main.c:62) runs zero or more times. A factor
  that starts with none of `-`, `(` or a digit is 0 and consumes nothing.
- After a parenthesised sub-expression, one character is consumed
  unconditionally, whether or not it is `)` (main.c:58).
- The comment at main.c:143 says the characters of the expression are
  checked, but the loop stops before the last one (main.c:144), so the last
  character is never checked.

## Model

| member | source | states |
|---|---|---|
| `Arith.TruncDiv` | main.c:99 | C's `/`: the remainder `a - q*b` is smaller than the divisor in magnitude, and `q*b` lies between 0 and the dividend, so the quotient is truncated toward zero |
| `Arith.TruncDivExamples` | main.c:99 | `7/2 = 3`, `-7/2 = -3`, `7/-2 = -3`; `-11/2` is `-5` in C where Euclidean division gives `-6` |
| `Grammar.PeekNulAtEnd` | main.c:62-68 | in a text without NUL characters, the character read is the terminator exactly at and past the end, so the `strlen` break in the digit loop stops it where the non-digit terminator would |
| `Grammar.IsDigit` | main.c:62 | `isdigit` holds exactly for the ten characters `0`..`9` |
| `Grammar.DecimalValue` | main.c:62-64 | the value that `natural * 10 + digit` accumulates over a digit string of length k is at least 0 and below 10^k |
| `Grammar.DigitRun` | main.c:62-69 | the digits read from a position are exactly the text there, all digits, and the character after them is not a digit (the run is maximal) |
| `Grammar.FactorAt` | main.c:44-72 | `get_natural` never moves the cursor backwards and can fail only with `DivByZero` |
| `Grammar.TermLoop` | main.c:86-101 | the loop of `evaluate_term` never moves the cursor backwards, exits only at a character that is neither `*` nor `/`, and fails only with `DivByZero` |
| `Grammar.TermAt` | main.c:82-103 | `evaluate_term` returns only at a character that is neither `*` nor `/`, never moves the cursor backwards, and fails only with `DivByZero` |
| `Grammar.ExpressionLoop` | main.c:117-129 | the loop of `evaluate_expression` exits only at a character that is neither `+` nor `-` and never moves the cursor backwards |
| `Grammar.ExpressionAt` | main.c:113-131 | `evaluate_expression` returns only at a character that is neither `+` nor `-` and never moves the cursor backwards |
| `Grammar.IsRightChar` | main.c:156-160 | `is_right_char` holds exactly for the sixteen characters `()+-*/0123456789` |
| `Grammar.Calculation` | main.c:141-154 | the result is `InvalidChar` if and only if some character before the last fails `is_right_char`; otherwise it is the expression's value, or its error, evaluated from position 0 |
| `Evaluator.Cursor.constructor` | main.c:152 | `calculate` starts the shared cursor at the given position (0) |
| `Evaluator.ReadDigits` | main.c:62-69 | the digit loop accumulates `natural * 10 + digit` over the maximal digit run and leaves the cursor just past it, stopping at the end of the text |
| `Evaluator.GetNatural` | main.c:44-72 | returns the value and leaves the cursor at the position `FactorAt` gives, or the error it gives |
| `Evaluator.EvaluateTerm` | main.c:82-103 | returns the value and cursor position `TermAt` gives, or `DivByZero` where a divisor is zero |
| `Evaluator.EvaluateExpression` | main.c:113-131 | returns the value and cursor position `ExpressionAt` gives, or its error |
| `Evaluator.Calculate` | main.c:141-154 | rejects with `InvalidChar` when a character other than the last is not admitted; otherwise returns what the expression evaluates to from a fresh cursor at 0 |
| `Properties.FactorOfDigitRun` | main.c:62-69 | at a digit, `get_natural` gives the base-10 value of the maximal non-empty digit run and advances exactly past it |
| `Properties.FactorZeroFallback` | main.c:46-70 | a factor starting with none of `-`, `(` or a digit is 0 and leaves the cursor unchanged |
| `Properties.FactorLeadingMinus` | main.c:49-53 | a single leading `-` consumes one character and negates the following factor's value |
| `Properties.FactorDoubleMinus` | main.c:49-62 | only one `-` is read: `--` starts a factor that is 0 and stops on the second minus |
| `Properties.DivisionByZeroStops` | main.c:94-99 | a `/` whose right factor is 0 ends the term with `DivByZero`, whatever the left operand |
| `Properties.ErrorPropagates` | main.c:121-128 | a failing term ends the enclosing expression with `DivByZero`; no value is returned |
| `Properties.TermLoopConsumesOperator` | main.c:86-92 | a turn of the term loop consumes at least its operator |
| `Properties.ExpressionLoopConsumesOperator` | main.c:117-123 | a turn of the expression loop consumes at least its operator |
| `Properties.InvalidCharWins` | main.c:144-151 | an invalid character at any position before the last makes `calculate` fail with `InvalidChar`, whatever the expression would evaluate to |
| `Properties.LastCharNotValidated` | main.c:144 | whatever the last character is, it never causes `InvalidChar` |
| `Reference.DecimalRoundTrip` | main.c:64 | reading back the decimal digits of `n` gives `n` |
| `Reference.LeadingZerosValue` | main.c:62-64 | leading zeros do not change the value the digit loop accumulates |
| `Reference.NumeralValue` | main.c:62-64 | a numeral written with any number of leading zeros reads back as its number |
| `Reference.DigitRunOfDigits` | main.c:62-69 | digits followed by a non-digit are exactly the digit run that `get_natural` reads |
| `Reference.FactorOfPrinted` | main.c:44-72 | `get_natural` on a printed factor gives the factor's value and stops right after it |
| `Reference.TermLoopOverFactor` | main.c:86-101 | one turn of the term loop over an operator and a factor combines the two results, left error first |
| `Reference.ExpressionLoopOverTerm` | main.c:117-129 | one turn of the expression loop over an operator and a term combines the two results |
| `Reference.TermOfPrinted` | main.c:82-103 | `evaluate_term` on a printed term is the term's left fold under `*` and truncating `/`, failing exactly where a divisor is zero |
| `Reference.ExpressionOfPrinted` | main.c:113-131 | `evaluate_expression` on a printed expression is its value under the usual precedence and left associativity, and stops right after the text |
| `Reference.PrintedCharsAdmitted` | main.c:156-160 | printed expressions use only characters that `is_right_char` admits |
| `Reference.CalculationOfPrinted` | main.c:141-154 | `calculate` on a printed expression gives the expression's value, or `DivByZero` |
| `Reference.CalculationOfPrintedLine` | main.c:141-154 | the same for a line with one more final character that ends an expression (the newline `fgets` keeps), which is not validated |
| `Reference.ExpressionOfGroupToEnd` | main.c:54-58 | a group that runs to the end of the text is the whole expression, with the cursor one past the end |
| `Reference.CalculationOfUnclosedGroup` | main.c:54-58 | a `(` whose `)` is missing at the end of the text is tolerated: the text evaluates to the inner expression |
| `Reference.FailsIffDividesByZero` | main.c:94-99 | an expression fails if and only if some `/` at any depth has a zero divisor, and the failure is always `DivByZero` |
| `Reference.CalculationDivByZero` | main.c:94-99 | `calculate` on a printed expression fails with `DivByZero` exactly when it divides by zero somewhere, and returns a value otherwise |
| `Examples.GetNaturalMinusOne` | main.c:167 | `get_natural("-1")` is -1 |
| `Examples.GetNaturalStopsAtPoint` | main.c:169 | `get_natural("8.0")` is 8, cursor at 1 |
| `Examples.GetNaturalStopsAtLetter` | main.c:171 | `get_natural("2f")` is 2, cursor at 1 |
| `Examples.GetNaturalOfLetter` | main.c:173 | `get_natural("xf")` is 0, cursor at 0 |
| `Examples.GetNaturalGroupOfOne` | main.c:175 | `get_natural("(1)")` is 1 |
| `Examples.GetNaturalGroupOfSum` | main.c:177 | `get_natural("(1+1)")` is 2 |
| `Examples.GetNaturalNestedGroup` | main.c:179 | `get_natural("((-1)+1)")` is 0 |
| `Examples.EvaluateTermProduct` | main.c:187 | `evaluate_term("1*2")` is 2 |
| `Examples.EvaluateTermNegativeLeft` | main.c:189 | `evaluate_term("-3*4")` is -12 |
| `Examples.EvaluateTermBothNegative` | main.c:191 | `evaluate_term("-1*-4")` is 4 |
| `Examples.EvaluateTermZeroTimes` | main.c:193 | `evaluate_term("0*-4")` is 0 |
| `Examples.EvaluateExpressionSum` | main.c:201 | `evaluate_expression("1+2")` is 3 |
| `Examples.EvaluateExpressionProductRight` | main.c:203 | `evaluate_expression("3+2*1")` is 5 |
| `Examples.EvaluateExpressionProductLeft` | main.c:205 | `evaluate_expression("1*4+2")` is 6 |
| `Examples.EvaluateExpressionDifference` | main.c:207 | `evaluate_expression("4*4-3*2")` is 10 |
| `Examples.EvaluateExpressionLeftToRight` | main.c:209 | `evaluate_expression("0*4-3*2+1")` is -5 |
| `Examples.CalculateGroupOverTwo` | main.c:216 | `calculate("(1+3*(-4))/2")` is -5 |
| `Examples.CalculateMixed` | main.c:217 | `calculate("(1*(-2))*(-2)-1*(2+4*2)/3+1")` is 2 |
| `Examples.CalculateUnclosedGroup` | main.c:218 | `calculate("(1*(-1+2*1)/3")` is 0, although its `)` is missing |
| `Examples.CalculateQuotient` | main.c:219 | `calculate("2/2")` is 1 |
| `Examples.CalculateTruncatedThird` | main.c:220 | `calculate("1+2/(1*3)-2")` is -1 |
| `Examples.CalculateLeadingZeros` | main.c:62-64 | `calculate("10/005")` is 2: leading zeros are read as part of the number |
| `Examples.CalculateDivisionByZero` | main.c:94-98 | `calculate("1/0")` fails with `DivByZero` |
| `Examples.CalculateDivisionByZeroGroup` | main.c:94-98 | `calculate("(1+1)/(1-1)")` fails with `DivByZero` |
| `Examples.CalculateRejectsPoint` | main.c:144-151 | `"8.0+1"` and `"1/0 x"` fail with `InvalidChar` before any evaluation |
| `Examples.CalculateLineWithNewline` | main.c:144 | `calculate("2/2\n")` is 1: the newline kept by `fgets` is not validated |
| `Examples.CalculateLetterAtEnd` | main.c:144 | `calculate("1+2x")` is 3: a letter in the last position is not rejected |

## Left out

- `main` (main.c:233-243) is not modelled: it reads a line with `fgets` into a 100-byte buffer and prints the result with `printf`. The text is a parameter of `Calculate`.
- The `printf` diagnostic before the invalid-character exit (main.c:148) is not modelled. The failure becomes the result `InvalidChar`.
- Process termination with `exit(EXIT_FAILURE)` is not modelled. Both exits become error results that are passed up to `Calculate`.
- Signed `int` overflow in `natural * 10 + digit` and in `*`, `+`, `-` and `/` is not modelled (`/` overflows for `INT_MIN / -1`, reachable as `(-2147483647-1)/-1`, where `TruncDiv` gives 2147483648). It is undefined behaviour in C. The model computes with unbounded integers.
- Reading past the terminating NUL is not modelled as memory behaviour. After a `(` whose `)` is missing, `get_natural` consumes one character unconditionally (main.c:58), which can move the cursor past the terminator; the test at main.c:218 does exactly this. The model reads `'\0'` at every position at or past the end of the text.
- `Evaluator.Calculate` and `Grammar.Calculation` require non-empty text, so they do not cover one well-defined case: on the empty string, `strlen(expression) - 1` wraps around as an unsigned value (main.c:144), the loop reads the terminator at index 0, `is_right_char` rejects it, and the C code takes the invalid-character exit.
- A NUL character inside the text is not treated as the end of the string. A C string cannot contain one, and `Peek` only reads `'\0'` past the end.
- Each Dafny `char` of the text stands for one C `char`, that is one byte. A multi-byte UTF-8 character is several C characters; only its last byte can escape validation in the last position, whereas one Dafny character for it would escape whole. Non-ASCII text is not modelled beyond this byte-per-character reading.
- `isdigit` is taken as the ASCII digits `'0'`..`'9'`; locale-dependent digit sets are not modelled.
- The test drivers `test_get_natural`, `test_evaluate_term`, `test_evaluate_expression`, `test_calculate` and `test_overall` are not modelled as code. Their assertions are proved as the `Examples` lemmas.
