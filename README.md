# calcy: the expression engine, modelled in Dafny

calcy evaluates infix arithmetic with variables. It works in three stages:

- **Tokenizer.** One left-to-right pass turns the input characters into a flat list of tokens: numbers, variables, brackets and the operators `+ - * / ^`. Along the way it inserts the implicit multiplication of `2a`, `ab` or `a(…)`.
- **Tree builder.** It has no grammar. It finds the *major operand*: the non-bracket token at the shallowest bracket level with the loosest priority, where a tie goes to the later token. It splits the list there and strips as many brackets from each end as that level. Then it recurses on both halves.
- **Evaluator.** It reduces the tree left operand first, looking up variables in a map.

The entry points `solve_with` and `solve_vars_with` chain the three stages. They wrap a tokenizer or tree-builder failure as a parse error and a missing variable as an evaluation error. A small fixed-point `Decimal` type has its own parser and display.

The engine is generic over its numeric type. Rust states this with trait bounds; here it is the record `Numeric.Domain<T>`, which holds:

- the type's literal parser;
- its name;
- its five operations.

The tokenizer, parser, evaluator and entry points are proved for every domain. The arithmetic examples of the test suite are checked on `Numeric.IntDomain` (mathematical integers with truncating division). Their values are all whole numbers.

The modules are:

| module | file |
|---|---|
| `Wrappers` | `wrappers.dfy` |
| `Digits` | `digits.dfy` |
| `Numeric` | `numeric.dfy` |
| `Syntax` | `syntax.dfy` |
| `Tokenizer` | `tokenizer.dfy` |
| `TreeBuilder` | `treebuilder.dfy` |
| `Evaluator` | `eval.dfy` |
| `Decimals` | `decimal.dfy` |
| `Solve` | `solve.dfy` |
| `Examples` | `examples.dfy` (the unit tests, as lemmas) |

Where the Rust code loops, the model has a method with a loop:

- `tokenize`, `parse_num` and `parse_variable` become `Tokenizer.Tokenize`, `ParseNum` and `ParseVariable`;
- `split_at_major_operand` becomes `TreeBuilder.SplitAtMajorOperand`.

Each method is proved to compute a specification function: `Scan`, `RunEnd`/`NumLiteral`, `VariableName` and `MajorSplit`. The recursive code is modelled by functions: `parse_string`, `eval_expr`, the `Decimal` code and the entry points. The Rust code panics in several places: a `usize` underflow, a slice out of range, `unreachable!()`. The underflow of `level` (src/parse.rs:172) panics only in a build with overflow checks on, such as a debug build; the model follows that build, and a release build, where `level` wraps around instead, is not modelled. The model returns each panic as the extra error `ParseError.Panicked(defect)`, which the source does not have.

## Model

| member | source | states |
|---|---|---|
| Tokenizer.Tokenize | src/parse.rs:48-86 | the loop over the characters returns exactly the outcome of the scan `Tokenization` |
| Tokenizer.ParseNum | src/parse.rs:88-100 | reads the maximal run of digits and dots from the given position; the result is the numeric type's parse of that run, or `ValueError` with the run and the type name |
| Tokenizer.ParseVariable | src/parse.rs:102-121 | a letter is a one-letter variable; after `"` the letters up to the closing `"` (or the end of input) make the name; any other character inside the quotes is `UnexpectedTokenError` at its position, with `"` as the character |
| Tokenizer.VariableName | src/parse.rs:102-118 | a letter reads as itself; after `"` the name is all letters and is the text up to the closing `"`, which the read moves past, or up to the end of the input; a failure happens only after `"`, at the first character after it that is neither a letter nor `"` |
| Tokenizer.TokenizationWellFormed | src/parse.rs:53-80 | every token list the tokenizer returns has each operator first or after a value, variable or `)`; never has a value or variable directly before `(` or a variable; and has only ASCII-letter variable names |
| Tokenizer.TokenizationMulsImplicit | src/parse.rs:67-80 | without `*` in the input, every `MulSymbol` is an implicit one: between a value or variable and a `(` or variable |
| Tokenizer.TokenizationErrorExplained | src/parse.rs:53-121 | every tokenizer error is justified by the input. An `UnexpectedTokenError` points at an operator that follows another operator or `(` with only spaces between, at an unrecognized character, or at a non-letter inside quotes. A `ValueError` carries a digit-and-dot run of the input that the numeric type rejects. The tokenizer never returns `EmptyError` or a panic |
| Tokenizer.TokenizationRejectsUnrecognized | src/parse.rs:82 | an input holding any character without a rule does not tokenize |
| Tokenizer.TokenizationRejectsMisplacedOperator | src/parse.rs:53-71 | an operator after another operator or after `(`, with only spaces between, makes the input fail (there is no unary minus, even after `(`) |
| TreeBuilder.OperandValue | src/parse.rs:194-203 | priority is positive exactly for operators, and lies in 6..10 for them |
| TreeBuilder.SplitAtMajorOperand | src/parse.rs:158-192 | the scan-and-slice loop returns exactly `MajorSplit` of the list |
| TreeBuilder.MajorSplit | src/parse.rs:158-192 | a successful split's two sides are shorter than the list and made of its tokens |
| TreeBuilder.SelectFindsMajor | src/parse.rs:166-186 | the scan fails exactly when some prefix closes more brackets than it opens; otherwise it ends holding the token that every other non-bracket token ranks below (deeper, or tighter-bound (lower priority), or earlier on a tie), or the placeholder if there is none |
| TreeBuilder.MajorSplitRule | src/parse.rs:158-192 | without the scan: underflow when the brackets go below zero; out of range when no candidate exists; otherwise there is a major operand, and the list is split at it with its level's brackets cut from both ends |
| TreeBuilder.MajorUnique | src/parse.rs:176 | the replacement rule leaves at most one major operand |
| TreeBuilder.ParseString | src/parse.rs:123-146 | the empty list is `EmptyError`; a single value or variable is that leaf; a tree never has more nodes than the list has tokens, and each of its variables is a variable token of the list |
| TreeBuilder.FramedSplit | src/parse.rs:158-192 | an operator between two operands, bare or inside one pair of brackets, is where the list is split, with the operands as the two sides |
| TreeBuilder.ParsePrint | src/parse.rs:123-146 | parsing inverts printing: every tree, printed with brackets around each non-leaf operand (bare or bracketed as a whole), parses back to itself |
| TreeBuilder.FlatSplit | src/parse.rs:166-189 | in a list without brackets, the split lands on the operator whose priority is at least that of every token before it and above that of every token after it, with the tokens before and after it as the two sides |
| TreeBuilder.ChainOfTwo | src/parse.rs:123-203 | `t0 o1 t1 o2 t2` parses to `o2` over `(t0 o1 t1)` and `t2` when `o2` binds at least as loosely as `o1` (so equal operators group to the left), and otherwise to `o1` over `t0` and `(t1 o2 t2)` |
| Evaluator.EvalExpr | src/eval.rs:21-35 | succeeds exactly when every variable of the tree has a value; a failure names a variable of the tree without a value |
| Evaluator.EvalReportsFirstMissing | src/eval.rs:25-34 | the variable a failure names is the leftmost variable of the tree without a value |
| Evaluator.EvalFrame | src/eval.rs:21-35 | two maps that agree on the tree's variables give the same outcome |
| Decimals.New | src/decimal.rs:16-18 | the decimal has the three given fields |
| Decimals.Find | src/decimal.rs:37 | the index of the first occurrence, `None` exactly when the character is absent |
| Decimals.Strip | src/decimal.rs:46 | the result holds no `.` and no `-`, and is no longer than the input |
| Decimals.ParseU128 | src/decimal.rs:47 | succeeds exactly on an optional `+` followed by a non-empty run of digits whose value is below 2^128, and the value is that of the digits |
| Decimals.ScaleOf | src/decimal.rs:37-42 | 0 without a dot; with a dot, an error exactly when the input is 256 characters or longer |
| Decimals.FromStr | src/decimal.rs:36-50 | succeeds exactly when the scale fits and the text without dots and minus signs parses as a `u128`; the sign is a leading `-`, and the scale is the text's length after the first dot |
| Decimals.FromStrFraction | src/decimal.rs:36-50 | `[-]digits.digits` parses to all its digits as one integer, the count after the dot as scale, and its sign |
| Decimals.FromStrInteger | src/decimal.rs:36-50 | `[-]digits` parses to its value with scale 0 and its sign |
| Decimals.SplitValue | src/decimal.rs:23-27 | the integer part and the remainder at the scale recombine to the value |
| Decimals.PartsOfDigits | src/decimal.rs:23-27 | for a value read from digits, the parts at scale `|frac|` are the digits before and after that point |
| Decimals.Display | src/decimal.rs:21-31 | no output exactly from scale 39 on, where `10_u128.pow(scale)` overflows (a panic with overflow checks on); the output is never signed |
| Decimals.DisplaysDigits | src/decimal.rs:21-31 | a decimal whose integer and fraction digits have no redundant leading zeros is shown as those digits around a dot |
| Decimals.DisplayRoundTrip | src/decimal.rs:21-50 | for a non-negative decimal whose remainder has exactly `scale` digits, display then parse returns the decimal |
| Decimals.DisplayDropsFractionZeros | src/decimal.rs:27-28 | `1.05` parses to (105, 2) and is displayed as `1.5`, which parses to (15, 1) |
| Decimals.DisplayDropsSign | src/decimal.rs:22-29 | `-1.5` parses to a negative decimal that is displayed as `1.5` |
| Decimals.DisplayOverflows | src/decimal.rs:23 | `0.` followed by 38 zeros and a 1 parses to scale 39, where display has no output |
| Decimals.DisplayCorrected | src/decimal.rs:21-31 | the corrected display starts with `-` exactly for negative decimals |
| Decimals.DisplayCorrectedRoundTrip | src/decimal.rs:21-50 | parsing the corrected display returns the decimal exactly when the display is shorter than 256 characters (scale up to 253, or 252 for a negative decimal); beyond that parsing fails |
| Decimals.DisplayCorrectedOfDigits | src/decimal.rs:21-31 | the corrected display of a decimal read from `[-]whole.frac` is that text, when `whole` has no redundant leading zeros |
| Decimals.ParseThenDisplayCorrected | src/decimal.rs:36-50 | the other direction: such a literal parses, and the corrected display of the result is the literal |
| Decimals.DisplayCorrectedExamples | src/decimal.rs:21-31 | the corrected display shows (105, 2) as `1.05` and negative (15, 1) as `-1.5` |
| Decimals.ParseTests | src/tests/decimal.rs:7-12 | the six literals parse to the decimals the test expects |
| Decimals.DisplayTests | src/tests/decimal.rs:17-22 | those six decimals are displayed as the literals they came from |
| Solve.SolveVarsWith | src/lib.rs:68-78 | a tokenizer or tree-builder failure is returned as `ParseError` carrying that error; after a successful parse the result is a value exactly when every variable has one, and an `EvalError` names a variable of the tree without a value |
| Solve.SolveWith | src/lib.rs:61-66 | succeeds exactly when the input parses to a tree without variables; a tree with variables fails on its leftmost one; parse failures are passed on |
| Solve.SolveFrame | src/lib.rs:68-78 | two maps that agree on the variable tokens of the input give the same result |
| Solve.SolveWithoutVariables | src/lib.rs:61-66 | for an input without variable tokens, `solve_vars_with` with any map equals `solve_with` |
| Solve.BlankInputIsEmpty | src/lib.rs:73-75 | an input of spaces only, the empty one included, is `ParseError(EmptyError)` |
| Examples.TokenizeTests | src/tests/tokenize.rs:6 | `2+2` tokenizes to value, `AddSymbol`, value, under any domain that reads `2` |
| Examples.LetterTokenizeTests | src/tests/tokenize.rs:7-8 | `a` is one variable; `ab` is `a`, `MulSymbol`, `b` |
| Examples.QuotedPair | src/parse.rs:75-79 | for any two letter names `x` and `y`, `"x""y"` tokenizes to `x`, `MulSymbol`, `y` |
| Examples.QuotedProductTokenizeTest | src/tests/tokenize.rs:9 | two quoted names side by side are multiplied |
| Examples.QuotedSumTokenizeTest | src/tests/tokenize.rs:10 | two quoted names around `+` are added |
| Examples.ParseTestLetters | src/tests/parse.rs:10 | `ab` parses to `Mul(a, b)` |
| Examples.ParseTestQuotedQuoted | src/tests/parse.rs:11 | `"a""b"` parses to `Mul(a, b)` |
| Examples.ParseTestQuotedLetter | src/tests/parse.rs:12 | `"a"b` parses to `Mul(a, b)` |
| Examples.ParseTestLetterQuoted | src/tests/parse.rs:13 | `a"b"` parses to `Mul(a, b)` |
| Examples.ParseTestQuotedPair | src/tests/parse.rs:14 | `"ab""cd"` parses to `Mul(ab, cd)` |
| Examples.ParseTestLongQuotedLetter | src/tests/parse.rs:15 | `"abcdefg"h` parses to `Mul(abcdefg, h)` |
| Examples.ParseTestLeftAssociative | src/parse.rs:166-186 | `10-3-2` parses to `Sub(Sub(10, 3), 2)`, under any domain that reads the three literals |
| Examples.ParseTestPrecedence | src/parse.rs:194-203 | `2+3*4` parses to `Add(2, Mul(3, 4))` |
| Examples.ParseTestBrackets | src/parse.rs:166-189 | `(2+3)*4` parses to `Mul(Add(2, 3), 4)`: the bracketed `+` is deeper than the `*` |
| Examples.SolveLeftAssociativeTest | src/parse.rs:166-186 | `10-3-2` solves to 5, not 9 |
| Examples.SolvePrecedenceTest | src/parse.rs:194-203 | `2+3*4` solves to 14 |
| Examples.SolveBracketsTest | src/parse.rs:166-189 | `(2+3)*4` solves to 20 |
| Examples.SolveSumTest | src/tests/solve.rs:9 | `5 + 3` solves to 8 |
| Examples.SolveDifferenceTest | src/tests/solve.rs:27 | `4 - 11` solves to -7 |
| Examples.SolveProductTest | src/tests/solve.rs:38 | `12 * 9` solves to 108 |
| Examples.SolveQuotientTest | src/tests/solve.rs:59 | `49 / 7` solves to 7 |
| Examples.SolveDanglingOperatorTest | src/tests/solve.rs:65 | `6 /` is `ParseError(EmptyError)` under every domain that reads `6`, and `ValueError` under the others; never a panic |
| Examples.SolveTrailingOperatorTest | src/tests/solve.rs:66 | `27*` is `ParseError(EmptyError)` under every domain that reads `27`, and `ValueError` under the others; never a panic |
| Examples.SolveAdjacentOperatorTests | src/tests/solve.rs:67-71 | `18+++`, `50--2` and `8++ß` are parse errors, not panics, under every domain |
| Examples.SolveOperatorAfterBracketTests | src/parse.rs:53-71 | `2*(-3)` and `( +1)` are parse errors, not panics, under every domain: an operator may not follow `(` |
| Examples.SolveLongAdjacentOperatorTest | src/tests/solve.rs:68 | `39--12-343ü24ü234` is a parse error, not a panic, under every domain |
| Examples.SolveUnrecognizedTests | src/tests/solve.rs:69-73 | `25&+1` and `afk#sdmf` are parse errors, not panics, and the empty input is `ParseError(EmptyError)` |

## Left out

- The command-line front end, the REPL and file input (src/main.rs, src/bin/, src/cli.rs): they are I/O around the engine.
- Logging (`info!`, `debug!`, `trace!`): it has no effect on results.
- `f64`/`f32` as numeric types: floating point is not modelled. Every result is proved for an arbitrary `Numeric.Domain`, and the arithmetic tests are checked on integers. The `assert_nearly_eq` tests (`0.1+0.2`) and the other fractional edge cases of src/tests/solve.rs:76-83 are not modelled.
- `type_name::<T>()`: the domain carries the name as an opaque string.
- The `Display` implementations of `ParseError`, `EvalError` and `Error`, which are message formatting. The `From` conversions are the constructors of `Solve.Error`.
- The `Expr::Rem` case of `eval_expr` (src/eval.rs:33). The `Expr` enum (src/parse.rs:30-46) has no `Rem` variant and the tokenizer never produces `%`, so that arm names nothing the engine can build. The model follows the enum.
- The `Decimal` tests that use a two-argument `Decimal::new`, a `scale` method and arithmetic through `solve_with` (src/tests/decimal.rs:25-56). src/decimal.rs has none of these: `new` takes three arguments and the type has no arithmetic. `Decimals.ParseTests` states the expected decimals with the sign field `false`.
- Character versus byte positions. `UnexpectedTokenError` carries the character index, as `chars().enumerate()` gives it. `Decimal::from_str` measures in bytes; that is the same thing there, because any non-ASCII character makes the `u128` parse fail.
- The `unreachable!()`-like fallback of `parse_variable` (src/parse.rs:119). The tokenizer calls it only on a letter or `"`, and `Tokenizer.ParseVariable` requires the same.
- Tokenizer.ParseNum and Tokenizer.ParseVariable take the input string and a position instead of a shared peekable iterator; the position they return is where the iterator is left.
- Panics are modelled as the error `ParseError.Panicked`, with one `Defect` for each cause. Several inputs that the source turns into panics or drops silently are modelled as the source behaves:
  - `(1)` hits `unreachable!()`;
  - `(1*2 3` and `(1+2*` lose tokens to the bracket slicing;
  - `a2` makes the split land on a value.

  These are behaviours of the source, not altered by the model.
- Evaluator.EvalExpr: the operations of a `Numeric.Domain` are total functions, so a panic raised by the numeric type itself is not modelled: Rust integer `/` by zero, and overflow of the fixed-width integer types when overflow checks are on. "Succeeds exactly when every variable has a value" holds for operations that return a value. `Numeric.IntDomain` gives 0 for a division by zero where Rust panics; no example divides by zero.
- Decimals.Display: the model follows a build with overflow checks on, where `10_u128.pow(scale)` panics from scale 39 on (no output). In a release build the power wraps instead, and the display prints a wrong number or divides by zero; that behaviour is not modelled.
- Decimals.DisplayCorrectedRoundTrip: the round trip does not hold from scale 254 on (253 for a negative decimal). From scale 39 on the integer part is 0, so the corrected display is `[-]0.` followed by `scale` digits. That text then has 256 characters or more, and `from_str` rejects it (`u8::from_usize(s.len())`). The lemma proves that failure as well.
- Decimals.DisplayRoundTrip: stated for non-negative decimals whose remainder has exactly `scale` digits, because the display as written loses the others (see Findings).
- `from_str` accepts several dots, and minus signs anywhere, because it strips them all. The model follows that code, which differs from the documented intent that such text is rejected.

## Findings

| source | as written | input that shows it | evidently intended | confidence | as-written member | corrected member |
|---|---|---|---|---|---|---|
| src/decimal.rs:27-28 | the remainder is written as a plain number, so its leading zeros are lost | `1.05` parses to (105, 2) and is displayed as `1.5` | the remainder padded with zeros to `scale` digits, so that display and parse are inverse | not executed | Decimals.DisplayDropsFractionZeros | Decimals.DisplayCorrectedRoundTrip |
| src/decimal.rs:22-29 | the `negative` field is never written | `-1.5` parses to a negative decimal that is displayed as `1.5` | a leading `-` for negative decimals | not executed | Decimals.DisplayDropsSign | Decimals.ParseThenDisplayCorrected |
| src/decimal.rs:23 | `10_u128.pow(scale)` overflows from scale 39 on: with overflow checks on (a debug build) the display panics, and without them (a release build) the power wraps, so it prints a wrong number, and from scale 128 on divides by 0 | `0.` followed by 38 zeros and `1` parses to scale 39 | a display for every decimal that `from_str` produces | not executed | Decimals.DisplayOverflows | Decimals.DisplayCorrected |
