/**
 * The cases of the repository's tests (src/tests/tokenize.rs,
 * src/tests/parse.rs, src/tests/solve.rs), stated over the model.  The tests
 * run with `f64`; the arithmetic ones here use the integer domain, on
 * operands where the two agree.
 */
module Examples {
  import opened Wrappers
  import opened Syntax
  import Numeric
  import Digits
  import Tokenizer
  import TreeBuilder
  import Evaluator
  import Solve

  // One step of the scan per kind of character.

  lemma ScanOperator<T>(d: Numeric.Domain<T>, s: string, i: nat, tokens: seq<Token<T>>, t: Token<T>, next: seq<Token<T>>)
    requires i < |s| && Tokenizer.IsOperatorChar(s[i]) && Tokenizer.MayPrecedeOperator(tokens)
    requires t == Tokenizer.OperatorToken(s[i]) && next == tokens + [t]
    ensures Tokenizer.Scan(d, s, i, tokens) == Tokenizer.Scan(d, s, i + 1, next)
  {
  }

  lemma ScanNumber<T>(d: Numeric.Domain<T>, s: string, i: nat, j: nat, tokens: seq<Token<T>>, v: T, next: seq<Token<T>>)
    requires i < j <= |s| && (forall k :: i <= k < j ==> Tokenizer.IsNumChar(s[k]))
    requires j == |s| || !Tokenizer.IsNumChar(s[j])
    requires d.parse(s[i..j]) == Some(v) && next == tokens + [Token.Value(v)]
    ensures Tokenizer.Scan(d, s, i, tokens) == Tokenizer.Scan(d, s, j, next)
  {
    var e := Tokenizer.RunEnd(s, i + 1, Tokenizer.IsNumChar);
    assert e == |s| || !Tokenizer.IsNumChar(s[e]);
    assert forall k :: i + 1 <= k < e ==> Tokenizer.IsNumChar(s[k]);
    assert e == j;
  }

  lemma ScanLetter<T>(d: Numeric.Domain<T>, s: string, i: nat, tokens: seq<Token<T>>, next: seq<Token<T>>)
    requires i < |s| && Tokenizer.IsLetter(s[i])
    requires next == tokens + Tokenizer.ImplicitMul(tokens) + [Token.Variable([s[i]])]
    ensures Tokenizer.Scan(d, s, i, tokens) == Tokenizer.Scan(d, s, i + 1, next)
  {
  }

  lemma ScanQuoted<T>(d: Numeric.Domain<T>, s: string, i: nat, j: nat, tokens: seq<Token<T>>, next: seq<Token<T>>)
    requires i < j < |s| && s[i] == '"' && s[j] == '"'
    requires Tokenizer.AllLetters(s[i + 1..j])
    requires next == tokens + Tokenizer.ImplicitMul(tokens) + [Token.Variable(s[i + 1..j])]
    ensures Tokenizer.Scan(d, s, i, tokens) == Tokenizer.Scan(d, s, j + 1, next)
  {
    QuotedName(s, i, j);
  }

  /** The name between two quotes, and the position after the second. */
  lemma QuotedName(s: string, i: nat, j: nat)
    requires i < j < |s| && s[i] == '"' && s[j] == '"'
    requires Tokenizer.AllLetters(s[i + 1..j])
    ensures Tokenizer.VariableName(s, i) == Ok((s[i + 1..j], j + 1))
  {
    assert forall k :: i < k < j ==> s[k] == s[i + 1..j][k - i - 1];
    var e := Tokenizer.RunEnd(s, i + 1, Tokenizer.IsLetter);
    assert !Tokenizer.IsLetter(s[j]);
    assert e == j by {
      assert e == |s| || !Tokenizer.IsLetter(s[e]);
      assert forall k :: i + 1 <= k < e ==> Tokenizer.IsLetter(s[k]);
    }
  }

  lemma ScanSpace<T>(d: Numeric.Domain<T>, s: string, i: nat, tokens: seq<Token<T>>)
    requires i < |s| && s[i] == ' '
    ensures Tokenizer.Scan(d, s, i, tokens) == Tokenizer.Scan(d, s, i + 1, tokens)
  {
  }

  /** Two numbers around an operator, under any domain that reads the literal `2`. */
  lemma TokenizeTests<T>(d: Numeric.Domain<T>, two: T)
    requires d.parse("2") == Some(two)
    ensures Tokenizer.Tokenization(d, "2+2") == Ok([Token.Value(two), AddSymbol, Token.Value(two)])
  {
    var s := "2+2";
    var v := [Token.Value(two)];
    assert s[0..1] == "2" && s[2..3] == "2";
    ScanNumber(d, s, 0, 1, [], two, v);
    ScanOperator(d, s, 1, v, AddSymbol, v + [AddSymbol]);
    ScanNumber(d, s, 2, 3, v + [AddSymbol], two, v + [AddSymbol, Token.Value(two)]);
    assert v + [AddSymbol, Token.Value(two)] == [Token.Value(two), AddSymbol, Token.Value(two)];
  }

  /** Letters are one-letter variables, and two of them side by side are multiplied. */
  lemma LetterTokenizeTests<T>(d: Numeric.Domain<T>)
    ensures Tokenizer.Tokenization(d, "a") == Ok([Token.Variable("a")])
    ensures Tokenizer.Tokenization(d, "ab") == Ok([Token.Variable("a"), MulSymbol, Token.Variable("b")])
  {
    var a := [Token.Variable("a")];
    ScanLetter(d, "a", 0, [], a);
    ScanLetter(d, "ab", 0, [], a);
    ScanLetter(d, "ab", 1, a, a + [MulSymbol, Token.Variable("b")]);
    assert a + [MulSymbol, Token.Variable("b")] == [Token.Variable("a"), MulSymbol, Token.Variable("b")];
  }

  /** Where the quotes and names of `"x""y"` are. */
  lemma QuotedPairText(x: string, y: string, s: string)
    requires s == "\"" + x + "\"\"" + y + "\""
    ensures |s| == |x| + |y| + 4
    ensures s[0] == '"' && s[|x| + 1] == '"' && s[|x| + 2] == '"' && s[|s| - 1] == '"'
    ensures s[1..|x| + 1] == x && s[|x| + 3..|s| - 1] == y
  {
  }

  /** Two quoted names side by side: the tokenizer multiplies them. */
  lemma QuotedPair<T>(d: Numeric.Domain<T>, x: string, y: string)
    requires Tokenizer.AllLetters(x) && Tokenizer.AllLetters(y)
    ensures Tokenizer.Tokenization(d, "\"" + x + "\"\"" + y + "\"") == Ok([Token.Variable(x), MulSymbol, Token.Variable(y)])
  {
    var s := "\"" + x + "\"\"" + y + "\"";
    QuotedPairText(x, y, s);
    QuotedPairScan(d, s, x, y);
  }

  lemma QuotedPairScan<T>(d: Numeric.Domain<T>, s: string, x: string, y: string)
    requires Tokenizer.AllLetters(x) && Tokenizer.AllLetters(y)
    requires |s| == |x| + |y| + 4
    requires s[0] == '"' && s[|x| + 1] == '"' && s[|x| + 2] == '"' && s[|s| - 1] == '"'
    requires s[1..|x| + 1] == x && s[|x| + 3..|s| - 1] == y
    ensures Tokenizer.Tokenization(d, s) == Ok([Token.Variable(x), MulSymbol, Token.Variable(y)])
  {
    var first := [Token.Variable(x)];
    var all := [Token.Variable(x), MulSymbol, Token.Variable(y)];
    assert Tokenizer.ImplicitMul<T>([]) == [] && [] + [] + [Token.Variable(x)] == first;
    ScanQuoted(d, s, 0, |x| + 1, [], first);
    assert Tokenizer.ImplicitMul(first) == [MulSymbol] && first + [MulSymbol] + [Token.Variable(y)] == all;
    ScanQuoted(d, s, |x| + 2, |s| - 1, first, all);
  }

  lemma QuotedProductTokenizeTest<T>(d: Numeric.Domain<T>)
    ensures Tokenizer.Tokenization(d, "\"abc\"\"bcd\"") == Ok([Token.Variable("abc"), MulSymbol, Token.Variable("bcd")])
  {
    assert "\"abc\"\"bcd\"" == "\"" + "abc" + "\"\"" + "bcd" + "\"";
    QuotedPair(d, "abc", "bcd");
  }

  lemma QuotedSumTokenizeTest<T>(d: Numeric.Domain<T>)
    ensures Tokenizer.Tokenization(d, "\"ab\"+\"bc\"") == Ok([Token.Variable("ab"), AddSymbol, Token.Variable("bc")])
  {
    var t := "\"ab\"+\"bc\"";
    var ab := [Token.Variable("ab")];
    var sum := ab + [AddSymbol];
    assert t[1..3] == "ab" && t[6..8] == "bc";
    assert Tokenizer.ImplicitMul<T>([]) == [] && Tokenizer.ImplicitMul(sum) == [];
    ScanQuoted(d, t, 0, 3, [], ab);
    ScanOperator(d, t, 4, ab, AddSymbol, sum);
    ScanQuoted(d, t, 5, 8, sum, sum + [Token.Variable("bc")]);
    assert sum + [Token.Variable("bc")] == ab + [AddSymbol, Token.Variable("bc")];
    assert ab + [AddSymbol, Token.Variable("bc")] == [Token.Variable("ab"), AddSymbol, Token.Variable("bc")];
  }

  /** An input whose tokens are the printed form of a tree parses to that tree. */
  lemma ParsesAsPrinted<T>(d: Numeric.Domain<T>, s: string, e: Expr<T>)
    requires Tokenizer.Tokenization(d, s) == Ok(TreeBuilder.Print(e))
    ensures Solve.Parse(d, s) == Ok(e)
  {
    TreeBuilder.ParsePrint(e);
  }

  /** The printed form of an operator applied to two leaves. */
  lemma PrintBinary<T>(e: Expr<T>)
    requires !e.IsLeaf() && e.left.IsLeaf() && e.right.IsLeaf()
    ensures TreeBuilder.Print(e) == [TreeBuilder.LeafToken(e.left), TreeBuilder.OperatorOf(e), TreeBuilder.LeafToken(e.right)]
  {
    assert TreeBuilder.Group(e.left) == [TreeBuilder.LeafToken(e.left)];
    assert TreeBuilder.Group(e.right) == [TreeBuilder.LeafToken(e.right)];
  }

  /** The tree of a product of two variables, from its tokens. */
  lemma ParsesToProduct<T>(d: Numeric.Domain<T>, s: string, x: string, y: string)
    requires Tokenizer.Tokenization(d, s) == Ok([Token.Variable(x), MulSymbol, Token.Variable(y)])
    ensures Solve.Parse(d, s) == Ok(Expr.Mul(Expr.Variable(x), Expr.Variable(y)))
  {
    PrintBinary(Expr<T>.Mul(Expr.Variable(x), Expr.Variable(y)));
    ParsesAsPrinted(d, s, Expr.Mul(Expr.Variable(x), Expr.Variable(y)));
  }

  lemma ParseTestLetters<T>(d: Numeric.Domain<T>)
    ensures Solve.Parse(d, "ab") == Ok(Expr.Mul(Expr.Variable("a"), Expr.Variable("b")))
  {
    LetterTokenizeTests(d);
    ParsesToProduct(d, "ab", "a", "b");
  }

  lemma ParseTestQuotedQuoted<T>(d: Numeric.Domain<T>)
    ensures Solve.Parse(d, "\"a\"\"b\"") == Ok(Expr.Mul(Expr.Variable("a"), Expr.Variable("b")))
  {
    assert "\"a\"\"b\"" == "\"" + "a" + "\"\"" + "b" + "\"";
    QuotedPair(d, "a", "b");
    ParsesToProduct(d, "\"a\"\"b\"", "a", "b");
  }

  lemma ParseTestQuotedPair<T>(d: Numeric.Domain<T>)
    ensures Solve.Parse(d, "\"ab\"\"cd\"") == Ok(Expr.Mul(Expr.Variable("ab"), Expr.Variable("cd")))
  {
    assert "\"ab\"\"cd\"" == "\"" + "ab" + "\"\"" + "cd" + "\"";
    QuotedPair(d, "ab", "cd");
    ParsesToProduct(d, "\"ab\"\"cd\"", "ab", "cd");
  }

  lemma ParseTestQuotedLetter<T>(d: Numeric.Domain<T>)
    ensures Solve.Parse(d, "\"a\"b") == Ok(Expr.Mul(Expr.Variable("a"), Expr.Variable("b")))
  {
    var s := "\"a\"b";
    assert s[1..2] == "a";
    ScanQuoted(d, s, 0, 2, [], [Token.Variable("a")]);
    ScanLetter(d, s, 3, [Token.Variable("a")], [Token.Variable("a"), MulSymbol, Token.Variable("b")]);
    ParsesToProduct(d, s, "a", "b");
  }

  lemma ParseTestLongQuotedLetter<T>(d: Numeric.Domain<T>)
    ensures Solve.Parse(d, "\"abcdefg\"h") == Ok(Expr.Mul(Expr.Variable("abcdefg"), Expr.Variable("h")))
  {
    var t := "\"abcdefg\"h";
    assert t[1..8] == "abcdefg";
    ScanQuoted(d, t, 0, 8, [], [Token.Variable("abcdefg")]);
    ScanLetter(d, t, 9, [Token.Variable("abcdefg")], [Token.Variable("abcdefg"), MulSymbol, Token.Variable("h")]);
    ParsesToProduct(d, t, "abcdefg", "h");
  }

  lemma ParseTestLetterQuoted<T>(d: Numeric.Domain<T>)
    ensures Solve.Parse(d, "a\"b\"") == Ok(Expr.Mul(Expr.Variable("a"), Expr.Variable("b")))
  {
    var s := "a\"b\"";
    assert s[2..3] == "b";
    ScanLetter(d, s, 0, [], [Token.Variable("a")]);
    ScanQuoted(d, s, 1, 3, [Token.Variable("a")], [Token.Variable("a"), MulSymbol, Token.Variable("b")]);
    ParsesToProduct(d, s, "a", "b");
  }

  // The arithmetic tests of src/tests/solve.rs, over the integers

  lemma OneDigit(s: string)
    requires |s| == 1 && Digits.IsDigit(s[0])
    ensures Numeric.ParseInt(s) == Some(Digits.DigitValue(s[0]))
  {
    assert s[..0] == [];
  }

  lemma TwoDigits(s: string)
    requires |s| == 2 && Digits.IsDigit(s[0]) && Digits.IsDigit(s[1])
    ensures Numeric.ParseInt(s) == Some(10 * Digits.DigitValue(s[0]) + Digits.DigitValue(s[1]))
  {
    OneDigit(s[..1]);
  }

  /** An input whose tokens print a tree without variables solves to the tree's value. */
  lemma SolvesTo<T>(d: Numeric.Domain<T>, s: string, e: Expr<T>, v: T)
    requires Tokenizer.Tokenization(d, s) == Ok(TreeBuilder.Print(e))
    requires Evaluator.EvalExpr(d, e, map[]) == Ok(v)
    ensures Solve.SolveWith(d, s) == Ok(v)
  {
    ParsesAsPrinted(d, s, e);
  }

  /**
   * The tokens of a number, an operator and a number, each separated by one
   * space, under any domain that reads the two literals.
   */
  lemma TokenizeSpacedBinary<T>(d: Numeric.Domain<T>, s: string, n: nat, m: nat, x: T, y: T, op: Token<T>)
    requires 1 <= n && n + 3 < m == |s| && s[n] == ' ' && s[n + 2] == ' '
    requires forall k :: 0 <= k < n ==> Digits.IsDigit(s[k])
    requires forall k :: n + 3 <= k < m ==> Digits.IsDigit(s[k])
    requires Tokenizer.IsOperatorChar(s[n + 1]) && op == Tokenizer.OperatorToken(s[n + 1])
    requires d.parse(s[..n]) == Some(x) && d.parse(s[n + 3..]) == Some(y)
    ensures Tokenizer.Tokenization(d, s) == Ok([Token.Value(x), op, Token.Value(y)])
  {
    var v := [Token.Value(x)];
    assert s[0..n] == s[..n] && s[n + 3..m] == s[n + 3..];
    ScanNumber(d, s, 0, n, [], x, v);
    ScanSpace(d, s, n, v);
    ScanOperator(d, s, n + 1, v, op, v + [op]);
    ScanSpace(d, s, n + 2, v + [op]);
    ScanNumber(d, s, n + 3, m, v + [op], y, [Token.Value(x), op, Token.Value(y)]);
  }

  lemma SolveDifferenceTest()
    ensures Solve.SolveWith(Numeric.IntDomain(), "4 - 11") == Ok(-7)
  {
    var d, s := Numeric.IntDomain(), "4 - 11";
    var e: Expr<int> := Expr.Sub(Expr.Value(4), Expr.Value(11));
    assert s[..1] == "4" && s[4..] == "11";
    OneDigit("4");
    TwoDigits("11");
    TokenizeSpacedBinary(d, s, 1, 6, 4, 11, SubSymbol);
    PrintBinary(e);
    SolvesTo(d, s, e, -7);
  }


  lemma SolveProductTest()
    ensures Solve.SolveWith(Numeric.IntDomain(), "12 * 9") == Ok(108)
  {
    var d, s := Numeric.IntDomain(), "12 * 9";
    var e: Expr<int> := Expr.Mul(Expr.Value(12), Expr.Value(9));
    assert s[..2] == "12" && s[5..] == "9";
    TwoDigits("12");
    OneDigit("9");
    TokenizeSpacedBinary(d, s, 2, 6, 12, 9, MulSymbol);
    PrintBinary(e);
    SolvesTo(d, s, e, 108);
  }


  lemma SolveQuotientTest()
    ensures Solve.SolveWith(Numeric.IntDomain(), "49 / 7") == Ok(7)
  {
    var d, s := Numeric.IntDomain(), "49 / 7";
    var e: Expr<int> := Expr.Div(Expr.Value(49), Expr.Value(7));
    assert s[..2] == "49" && s[5..] == "7";
    TwoDigits("49");
    OneDigit("7");
    TokenizeSpacedBinary(d, s, 2, 6, 49, 7, DivSymbol);
    PrintBinary(e);
    assert Numeric.TruncDiv(49, 7) == 7;
    SolvesTo(d, s, e, 7);
  }


  lemma SolveSumTest()
    ensures Solve.SolveWith(Numeric.IntDomain(), "5 + 3") == Ok(8)
  {
    var d, s := Numeric.IntDomain(), "5 + 3";
    var e: Expr<int> := Expr.Add(Expr.Value(5), Expr.Value(3));
    assert s[..1] == "5" && s[4..] == "3";
    OneDigit("5");
    OneDigit("3");
    TokenizeSpacedBinary(d, s, 1, 5, 5, 3, AddSymbol);
    PrintBinary(e);
    SolvesTo(d, s, e, 8);
  }


  // Precedence and associativity, from the tree the input parses to

  lemma ScanOpen<T>(d: Numeric.Domain<T>, s: string, i: nat, tokens: seq<Token<T>>, next: seq<Token<T>>)
    requires i < |s| && s[i] == '(' && next == tokens + Tokenizer.ImplicitMul(tokens) + [OpeningBrackets]
    ensures Tokenizer.Scan(d, s, i, tokens) == Tokenizer.Scan(d, s, i + 1, next)
  {
  }

  lemma ScanClose<T>(d: Numeric.Domain<T>, s: string, i: nat, tokens: seq<Token<T>>, next: seq<Token<T>>)
    requires i < |s| && s[i] == ')' && next == tokens + [ClosingBrackets]
    ensures Tokenizer.Scan(d, s, i, tokens) == Tokenizer.Scan(d, s, i + 1, next)
  {
  }

  /** An input that parses to a tree without variables solves to the tree's value. */
  lemma SolvesAs<T>(d: Numeric.Domain<T>, s: string, e: Expr<T>, v: T)
    requires Solve.Parse(d, s) == Ok(e) && Evaluator.EvalExpr(d, e, map[]) == Ok(v)
    ensures Solve.SolveWith(d, s) == Ok(v)
  {
  }

  /** The tokens of `x o1 y o2 z` for three literals of one or two digits. */
  lemma TokenizeChain<T>(d: Numeric.Domain<T>, s: string, n: nat, x: T, y: T, z: T, o1: Token<T>, o2: Token<T>)
    requires 1 <= n <= 2 && |s| == n + 4
    requires forall k :: 0 <= k < n ==> Digits.IsDigit(s[k])
    requires Digits.IsDigit(s[n + 1]) && Digits.IsDigit(s[n + 3])
    requires Tokenizer.IsOperatorChar(s[n]) && o1 == Tokenizer.OperatorToken(s[n])
    requires Tokenizer.IsOperatorChar(s[n + 2]) && o2 == Tokenizer.OperatorToken(s[n + 2])
    requires d.parse(s[..n]) == Some(x) && d.parse(s[n + 1..n + 2]) == Some(y) && d.parse(s[n + 3..]) == Some(z)
    ensures Tokenizer.Tokenization(d, s) == Ok([Token.Value(x), o1, Token.Value(y), o2, Token.Value(z)])
  {
    var v := [Token.Value(x)];
    var w := v + [o1, Token.Value(y)];
    assert s[0..n] == s[..n] && s[n + 3..n + 4] == s[n + 3..];
    ScanNumber(d, s, 0, n, [], x, v);
    ScanOperator(d, s, n, v, o1, v + [o1]);
    ScanNumber(d, s, n + 1, n + 2, v + [o1], y, w);
    ScanOperator(d, s, n + 2, w, o2, w + [o2]);
    ScanNumber(d, s, n + 3, n + 4, w + [o2], z, [Token.Value(x), o1, Token.Value(y), o2, Token.Value(z)]);
  }

  /** Equal operators group to the left: `10-3-2` is `(10-3)-2`. */
  lemma ParseTestLeftAssociative<T>(d: Numeric.Domain<T>, ten: T, three: T, two: T)
    requires d.parse("10") == Some(ten) && d.parse("3") == Some(three) && d.parse("2") == Some(two)
    ensures Solve.Parse(d, "10-3-2") == Ok(Expr.Sub(Expr.Sub(Expr.Value(ten), Expr.Value(three)), Expr.Value(two)))
  {
    var s := "10-3-2";
    assert s[..2] == "10" && s[3..4] == "3" && s[5..] == "2";
    TokenizeChain(d, s, 2, ten, three, two, SubSymbol, SubSymbol);
    TreeBuilder.ChainLeft(Token.Value(ten), SubSymbol, Token.Value(three), SubSymbol, Token.Value(two));
  }

  /** `*` binds tighter than `+`: `2+3*4` is `2+(3*4)`. */
  lemma ParseTestPrecedence<T>(d: Numeric.Domain<T>, two: T, three: T, four: T)
    requires d.parse("2") == Some(two) && d.parse("3") == Some(three) && d.parse("4") == Some(four)
    ensures Solve.Parse(d, "2+3*4") == Ok(Expr.Add(Expr.Value(two), Expr.Mul(Expr.Value(three), Expr.Value(four))))
  {
    var s := "2+3*4";
    assert s[..1] == "2" && s[2..3] == "3" && s[4..] == "4";
    TokenizeChain(d, s, 1, two, three, four, AddSymbol, MulSymbol);
    TreeBuilder.ChainRight(Token.Value(two), AddSymbol, Token.Value(three), MulSymbol, Token.Value(four));
  }

  /** The tokens of `(2+3)*4`, under any domain that reads the three literals. */
  lemma TokenizeBracketed<T>(d: Numeric.Domain<T>, two: T, three: T, four: T)
    requires d.parse("2") == Some(two) && d.parse("3") == Some(three) && d.parse("4") == Some(four)
    ensures Tokenizer.Tokenization(d, "(2+3)*4") ==
      Ok([OpeningBrackets, Token.Value(two), AddSymbol, Token.Value(three), ClosingBrackets, MulSymbol, Token.Value(four)])
  {
    var s := "(2+3)*4";
    var a := [OpeningBrackets, Token.Value(two)];
    var b := a + [AddSymbol, Token.Value(three)];
    var c := b + [ClosingBrackets, MulSymbol];
    assert s[1..2] == "2" && s[3..4] == "3" && s[6..7] == "4";
    assert Tokenizer.ImplicitMul<T>([]) == [];
    ScanOpen(d, s, 0, [], [OpeningBrackets]);
    ScanNumber(d, s, 1, 2, [OpeningBrackets], two, a);
    ScanOperator(d, s, 2, a, AddSymbol, a + [AddSymbol]);
    ScanNumber(d, s, 3, 4, a + [AddSymbol], three, b);
    ScanClose(d, s, 4, b, b + [ClosingBrackets]);
    ScanOperator(d, s, 5, b + [ClosingBrackets], MulSymbol, c);
    ScanNumber(d, s, 6, 7, c, four, c + [Token.Value(four)]);
    assert c + [Token.Value(four)] ==
      [OpeningBrackets, Token.Value(two), AddSymbol, Token.Value(three), ClosingBrackets, MulSymbol, Token.Value(four)];
  }

  /** Brackets override priority: `(2+3)*4` is the sum times 4. */
  lemma ParseTestBrackets<T>(d: Numeric.Domain<T>, two: T, three: T, four: T)
    requires d.parse("2") == Some(two) && d.parse("3") == Some(three) && d.parse("4") == Some(four)
    ensures Solve.Parse(d, "(2+3)*4") == Ok(Expr.Mul(Expr.Add(Expr.Value(two), Expr.Value(three)), Expr.Value(four)))
  {
    var sum: Expr<T> := Expr.Add(Expr.Value(two), Expr.Value(three));
    var e := Expr.Mul(sum, Expr.Value(four));
    TokenizeBracketed(d, two, three, four);
    PrintBinary(sum);
    TreeBuilder.PrintParts(e);
    assert TreeBuilder.Group(sum) == [OpeningBrackets] + TreeBuilder.Print(sum) + [ClosingBrackets];
    assert TreeBuilder.Group(e.right) == [Token.Value(four)];
    assert TreeBuilder.Print(e) ==
      [OpeningBrackets, Token.Value(two), AddSymbol, Token.Value(three), ClosingBrackets, MulSymbol, Token.Value(four)];
    ParsesAsPrinted(d, "(2+3)*4", e);
  }

  lemma SolveLeftAssociativeTest()
    ensures Solve.SolveWith(Numeric.IntDomain(), "10-3-2") == Ok(5)
  {
    TwoDigits("10");
    OneDigit("3");
    OneDigit("2");
    ParseTestLeftAssociative(Numeric.IntDomain(), 10, 3, 2);
    SolvesAs(Numeric.IntDomain(), "10-3-2", Expr.Sub(Expr.Sub(Expr.Value(10), Expr.Value(3)), Expr.Value(2)), 5);
  }

  lemma SolvePrecedenceTest()
    ensures Solve.SolveWith(Numeric.IntDomain(), "2+3*4") == Ok(14)
  {
    OneDigit("2");
    OneDigit("3");
    OneDigit("4");
    ParseTestPrecedence(Numeric.IntDomain(), 2, 3, 4);
    SolvesAs(Numeric.IntDomain(), "2+3*4", Expr.Add(Expr.Value(2), Expr.Mul(Expr.Value(3), Expr.Value(4))), 14);
  }

  lemma SolveBracketsTest()
    ensures Solve.SolveWith(Numeric.IntDomain(), "(2+3)*4") == Ok(20)
  {
    OneDigit("2");
    OneDigit("3");
    OneDigit("4");
    ParseTestBrackets(Numeric.IntDomain(), 2, 3, 4);
    SolvesAs(Numeric.IntDomain(), "(2+3)*4", Expr.Mul(Expr.Add(Expr.Value(2), Expr.Value(3)), Expr.Value(4)), 20);
  }

  // The inputs src/tests/solve.rs expects to fail, under any numeric type

  /** A value followed by an operator splits at the operator and finds nothing on its right. */
  lemma TrailingOperatorIsEmpty<T>(t: Token<T>, op: Token<T>)
    requires t.IsTerm() && op.IsOperator()
    ensures TreeBuilder.ParseString([t, op]) == Err(EmptyError)
  {
    var ts := [t, op];
    var first := TreeBuilder.Operand(t, 0, 0, 0);
    assert TreeBuilder.Consider(TreeBuilder.NoOperand(), t, 0, 0) == first;
    var last := TreeBuilder.Operand(op, 1, TreeBuilder.OperandValue(op), 0);
    assert TreeBuilder.Consider(first, op, 1, 0) == last;
    assert TreeBuilder.Select(ts, 0, 0, TreeBuilder.NoOperand()) == TreeBuilder.Select(ts, 1, 0, first);
    assert TreeBuilder.Select(ts, 1, 0, first) == Ok(last);
    assert ts[0..1] == [t] && ts[2..2] == [];
    assert TreeBuilder.MajorSplit(ts) == Ok(TreeBuilder.Split(op, [t], []));
  }

  /**
   * A number and an operator with nothing after it: the right operand is
   * empty, or the number does not parse.  Either way an error value, never a
   * panic.
   */
  lemma SolveDanglingOperatorTest<T>(d: Numeric.Domain<T>)
    ensures d.parse("6").Some? ==> Solve.SolveWith(d, "6 /") == Err(Solve.ParseError(EmptyError))
    ensures d.parse("6").None? ==> Solve.SolveWith(d, "6 /") == Err(Solve.ParseError(ValueError("6", d.typeName)))
  {
    var s := "6 /";
    assert Tokenizer.RunEnd(s, 1, Tokenizer.IsNumChar) == 1 && s[0..1] == "6";
    match d.parse("6")
    case None =>
    case Some(x) =>
      ScanNumber(d, s, 0, 1, [], x, [Token.Value(x)]);
      ScanSpace(d, s, 1, [Token.Value(x)]);
      ScanOperator(d, s, 2, [Token.Value(x)], DivSymbol, [Token.Value(x), DivSymbol]);
      TrailingOperatorIsEmpty(Token.Value(x), DivSymbol);
  }

  lemma SolveTrailingOperatorTest<T>(d: Numeric.Domain<T>)
    ensures d.parse("27").Some? ==> Solve.SolveWith(d, "27*") == Err(Solve.ParseError(EmptyError))
    ensures d.parse("27").None? ==> Solve.SolveWith(d, "27*") == Err(Solve.ParseError(ValueError("27", d.typeName)))
  {
    var t := "27*";
    assert t[0..2] == "27";
    assert Tokenizer.RunEnd(t, 1, Tokenizer.IsNumChar) == 2;
    match d.parse("27")
    case None =>
    case Some(y) =>
      ScanNumber(d, t, 0, 2, [], y, [Token.Value(y)]);
      ScanOperator(d, t, 2, [Token.Value(y)], MulSymbol, [Token.Value(y), MulSymbol]);
      TrailingOperatorIsEmpty(Token.Value(y), MulSymbol);
  }

  /** An input the tokenizer rejects fails with that error, which is never a panic. */
  lemma TokenizerRejects<T>(d: Numeric.Domain<T>, s: string)
    requires Tokenizer.Tokenization(d, s).Err?
    ensures Solve.SolveWith(d, s) == Err(Solve.ParseError(Tokenizer.Tokenization(d, s).error))
    ensures !Tokenizer.Tokenization(d, s).error.Panicked?
  {
    Tokenizer.TokenizationErrorExplained(d, s);
  }

  /** The failure of an input the tokenizer rejects: a parse error that is not a panic. */
  ghost predicate FailsCleanly<T>(d: Numeric.Domain<T>, s: string) {
    var r := Solve.SolveWith(d, s);
    r.Err? && r.error.ParseError? && !r.error.parse.Panicked?
  }

  /** Two operators in a row fail in the tokenizer: there is no unary minus. */
  lemma SolveAdjacentOperatorTests<T>(d: Numeric.Domain<T>)
    ensures FailsCleanly(d, "18+++")
    ensures FailsCleanly(d, "50--2")
    ensures FailsCleanly(d, "8++ß")
  {
    Tokenizer.TokenizationRejectsMisplacedOperator(d, "18+++", 2, 3);
    TokenizerRejects(d, "18+++");
    Tokenizer.TokenizationRejectsMisplacedOperator(d, "50--2", 2, 3);
    TokenizerRejects(d, "50--2");
    Tokenizer.TokenizationRejectsMisplacedOperator(d, "8++ß", 1, 2);
    TokenizerRejects(d, "8++ß");
  }

  /** An operator straight after `(` fails too: a bracket does not start a signed number. */
  lemma SolveOperatorAfterBracketTests<T>(d: Numeric.Domain<T>)
    ensures FailsCleanly(d, "2*(-3)")
    ensures FailsCleanly(d, "( +1)")
  {
    Tokenizer.TokenizationRejectsMisplacedOperator(d, "2*(-3)", 2, 3);
    TokenizerRejects(d, "2*(-3)");
    Tokenizer.TokenizationRejectsMisplacedOperator(d, "( +1)", 0, 2);
    TokenizerRejects(d, "( +1)");
  }

  lemma SolveLongAdjacentOperatorTest<T>(d: Numeric.Domain<T>)
    ensures FailsCleanly(d, "39--12-343ü24ü234")
  {
    Tokenizer.TokenizationRejectsMisplacedOperator(d, "39--12-343ü24ü234", 2, 3);
    TokenizerRejects(d, "39--12-343ü24ü234");
  }

  /** A character without a rule fails in the tokenizer, and the empty input is `EmptyError`. */
  lemma SolveUnrecognizedTests<T>(d: Numeric.Domain<T>)
    ensures FailsCleanly(d, "25&+1")
    ensures FailsCleanly(d, "afk#sdmf")
    ensures Solve.SolveWith(d, "") == Err(Solve.ParseError(EmptyError))
  {
    Tokenizer.TokenizationRejectsUnrecognized(d, "25&+1", 2);
    TokenizerRejects(d, "25&+1");
    Tokenizer.TokenizationRejectsUnrecognized(d, "afk#sdmf", 3);
    TokenizerRejects(d, "afk#sdmf");
    Solve.BlankInputIsEmpty(d, "", map[]);
  }
}
