/**
 * The tokenizer of src/parse.rs: one left-to-right pass over the characters
 * of the input that pushes tokens onto a growing list.  `Scan` states what
 * the pass computes; the methods `Tokenize`, `ParseNum` and `ParseVariable`
 * are the loops of the source, each proved to compute it.
 */
module Tokenizer {
  import opened Wrappers
  import opened Syntax
  import Numeric
  import Digits

  predicate IsOperatorChar(c: char) {
    c == '+' || c == '-' || c == '*' || c == '/' || c == '^'
  }

  predicate IsNumChar(c: char) {
    Digits.IsDigit(c) || c == '.'
  }

  predicate IsLetter(c: char) {
    'a' <= c <= 'z' || 'A' <= c <= 'Z'
  }

  predicate AllLetters(s: string) {
    forall k :: 0 <= k < |s| ==> IsLetter(s[k])
  }

  /** The characters the tokenizer has a rule for. */
  predicate IsRecognized(c: char) {
    IsOperatorChar(c) || c == '(' || c == ')' || IsNumChar(c) || IsLetter(c) || c == '"' || c == ' '
  }

  function OperatorToken<T>(c: char): (t: Token<T>)
    requires IsOperatorChar(c)
  {
    if c == '+' then AddSymbol
    else if c == '-' then SubSymbol
    else if c == '*' then MulSymbol
    else if c == '/' then DivSymbol
    else PowSymbol
  }

  /** An operator may open the list or follow a value, a variable or a closing bracket. */
  predicate MayPrecedeOperator<T>(tokens: seq<Token<T>>) {
    |tokens| == 0 || tokens[|tokens| - 1].IsTerm() || tokens[|tokens| - 1].ClosingBrackets?
  }

  /** The `MulSymbol` pushed before `(`, a letter or `"` that follows a value or a variable. */
  function ImplicitMul<T>(tokens: seq<Token<T>>): seq<Token<T>> {
    if |tokens| > 0 && tokens[|tokens| - 1].IsTerm() then [MulSymbol] else []
  }

  /** The end of the maximal run of `inRun` characters that starts at `i`. */
  function RunEnd(s: string, i: nat, inRun: char -> bool): (j: nat)
    requires i <= |s|
    ensures i <= j <= |s|
    ensures forall k :: i <= k < j ==> inRun(s[k])
    ensures j == |s| || !inRun(s[j])
    decreases |s| - i
  {
    if i < |s| && inRun(s[i]) then RunEnd(s, i + 1, inRun) else i
  }

  /** What `parse_num` makes of the run of digits and dots it has read. */
  function NumLiteral<T>(d: Numeric.Domain<T>, literal: string): Result<Token<T>, ParseError> {
    match d.parse(literal)
    case Some(v) => Ok(Token.Value(v))
    case None => Err(ValueError(literal, d.typeName))
  }

  /**
   * What `parse_variable` reads from position `i`: the variable's name and the
   * position after it.  A bare letter is a name by itself; `"` starts a name
   * made of the letters up to the next `"` (or the end of the input).
   */
  function VariableName(s: string, i: nat): (r: Result<(string, nat), ParseError>)
    requires i < |s| && (IsLetter(s[i]) || s[i] == '"')
    ensures r.Ok? ==> i < r.value.1 <= |s| && AllLetters(r.value.0)
    ensures r.Ok? && IsLetter(s[i]) ==> r.value == ([s[i]], i + 1)
    ensures r.Ok? && s[i] == '"' ==>
      (r.value.1 == |s| && r.value.0 == s[i + 1..]) ||
      (r.value.1 - 1 > i && s[r.value.1 - 1] == '"' && r.value.0 == s[i + 1..r.value.1 - 1])
    ensures r.Err? ==> s[i] == '"' && r.error.UnexpectedTokenError? && r.error.character == '"'
    ensures r.Err? ==> i < r.error.position < |s| && !IsLetter(s[r.error.position]) && s[r.error.position] != '"'
    ensures r.Err? ==> AllLetters(s[i + 1..r.error.position])
  {
    if IsLetter(s[i]) then Ok(([s[i]], i + 1))
    else
      var j := RunEnd(s, i + 1, IsLetter);
      if j == |s| then Ok((s[i + 1..j], j))
      else if s[j] == '"' then Ok((s[i + 1..j], j + 1))
      else Err(UnexpectedTokenError(j, '"'))
  }

  /** The tokens of `s`, given that `tokens` came from `s[..i]`. */
  function Scan<T>(d: Numeric.Domain<T>, s: string, i: nat, tokens: seq<Token<T>>): Result<seq<Token<T>>, ParseError>
    requires i <= |s|
    decreases |s| - i
  {
    if i == |s| then Ok(tokens)
    else
      var c := s[i];
      if IsOperatorChar(c) then
        if MayPrecedeOperator(tokens) then Scan(d, s, i + 1, tokens + [OperatorToken(c)])
        else Err(UnexpectedTokenError(i, c))
      else if c == '(' then Scan(d, s, i + 1, tokens + ImplicitMul(tokens) + [OpeningBrackets])
      else if c == ')' then Scan(d, s, i + 1, tokens + [ClosingBrackets])
      else if IsNumChar(c) then
        var j := RunEnd(s, i + 1, IsNumChar);
        match NumLiteral(d, s[i..j])
        case Ok(t) => Scan(d, s, j, tokens + [t])
        case Err(e) => Err(e)
      else if IsLetter(c) || c == '"' then
        match VariableName(s, i)
        case Ok((name, j)) => Scan(d, s, j, tokens + ImplicitMul(tokens) + [Token.Variable(name)])
        case Err(e) => Err(e)
      else if c == ' ' then Scan(d, s, i + 1, tokens)
      else Err(UnexpectedTokenError(i, c))
  }

  /** The outcome of `tokenize(s)`. */
  function Tokenization<T>(d: Numeric.Domain<T>, s: string): Result<seq<Token<T>>, ParseError> {
    Scan(d, s, 0, [])
  }

  method Tokenize<T>(d: Numeric.Domain<T>, input: string) returns (r: Result<seq<Token<T>>, ParseError>)
    ensures r == Tokenization(d, input)
  {
    var tokens: seq<Token<T>> := [];
    var i := 0;
    while i < |input|
      invariant i <= |input|
      invariant Scan(d, input, i, tokens) == Tokenization(d, input)
      decreases |input| - i
    {
      var c := input[i];
      if IsOperatorChar(c) {
        if !MayPrecedeOperator(tokens) {
          return Err(UnexpectedTokenError(i, c));
        }
        tokens := tokens + [OperatorToken(c)];
        i := i + 1;
      } else if c == '(' {
        ghost var before := tokens;
        if |tokens| > 0 && tokens[|tokens| - 1].IsTerm() {
          tokens := tokens + [MulSymbol];
        }
        assert tokens == before + ImplicitMul(before);
        tokens := tokens + [OpeningBrackets];
        i := i + 1;
      } else if c == ')' {
        tokens := tokens + [ClosingBrackets];
        i := i + 1;
      } else if IsNumChar(c) {
        var t, next := ParseNum(d, input, i);
        if t.Err? {
          return Err(t.error);
        }
        tokens := tokens + [t.value];
        i := next;
      } else if IsLetter(c) || c == '"' {
        ghost var before := tokens;
        if |tokens| > 0 && tokens[|tokens| - 1].IsTerm() {
          tokens := tokens + [MulSymbol];
        }
        assert tokens == before + ImplicitMul(before);
        var t, next := ParseVariable<T>(input, i);
        if t.Err? {
          return Err(t.error);
        }
        ghost var read := VariableName(input, i).value;
        assert Scan(d, input, i, before) == Scan(d, input, read.1, before + ImplicitMul(before) + [Token.Variable(read.0)]);
        tokens := tokens + [t.value];
        i := next;
      } else if c == ' ' {
        i := i + 1;
      } else {
        return Err(UnexpectedTokenError(i, c));
      }
    }
    return Ok(tokens);
  }

  /** Reads the run of digits and dots that starts at `i` and hands it to the numeric type's parser. */
  method ParseNum<T>(d: Numeric.Domain<T>, s: string, i: nat) returns (r: Result<Token<T>, ParseError>, next: nat)
    requires i < |s| && IsNumChar(s[i])
    ensures next == RunEnd(s, i + 1, IsNumChar)
    ensures r == NumLiteral(d, s[i..next])
  {
    var numStr := [s[i]];
    next := i + 1;
    while next < |s| && IsNumChar(s[next])
      invariant i < next <= |s|
      invariant numStr == s[i..next]
      invariant RunEnd(s, next, IsNumChar) == RunEnd(s, i + 1, IsNumChar)
      decreases |s| - next
    {
      numStr := numStr + [s[next]];
      next := next + 1;
    }
    match d.parse(numStr)
    case Some(v) => r := Ok(Token.Value(v));
    case None => r := Err(ValueError(numStr, d.typeName));
  }

  /** Reads the variable that starts at `i`: a bare letter, or a quoted run of letters. */
  method ParseVariable<T>(s: string, i: nat) returns (r: Result<Token<T>, ParseError>, next: nat)
    requires i < |s| && (IsLetter(s[i]) || s[i] == '"')
    ensures VariableName(s, i).Ok? ==> r == Ok(Token.Variable(VariableName(s, i).value.0)) && next == VariableName(s, i).value.1
    ensures VariableName(s, i).Err? ==> r == Err(VariableName(s, i).error)
  {
    if IsLetter(s[i]) {
      return Ok(Token.Variable([s[i]])), i + 1;
    }
    var name := "";
    next := i + 1;
    while next < |s|
      invariant i < next <= |s|
      invariant name == s[i + 1..next]
      invariant RunEnd(s, next, IsLetter) == RunEnd(s, i + 1, IsLetter)
      decreases |s| - next
    {
      var c := s[next];
      if IsLetter(c) {
        name := name + [c];
        next := next + 1;
      } else if c == '"' {
        return Ok(Token.Variable(name)), next + 1;
      } else {
        return Err(UnexpectedTokenError(next, '"')), next;
      }
    }
    return Ok(Token.Variable(name)), next;
  }

  // ---------------------------------------------------------------------
  // Properties of the token list

  /** Every operator token follows a value, a variable or a closing bracket, unless it is first. */
  ghost predicate OperatorsPlaced<T>(ts: seq<Token<T>>) {
    forall k :: 0 < k < |ts| && ts[k].IsOperator() ==> ts[k - 1].IsTerm() || ts[k - 1].ClosingBrackets?
  }

  /** No opening bracket and no variable directly follows a value or a variable. */
  ghost predicate NoJuxtaposition<T>(ts: seq<Token<T>>) {
    forall k :: 0 < k < |ts| && (ts[k].OpeningBrackets? || ts[k].Variable?) ==> !ts[k - 1].IsTerm()
  }

  /** Every variable name is made of ASCII letters. */
  ghost predicate LetterNames<T>(ts: seq<Token<T>>) {
    forall k :: 0 <= k < |ts| && ts[k].Variable? ==> AllLetters(ts[k].name)
  }

  ghost predicate WellFormed<T>(ts: seq<Token<T>>) {
    OperatorsPlaced(ts) && NoJuxtaposition(ts) && LetterNames(ts)
  }

  /**
   * Every `MulSymbol` sits between a value or variable and an opening bracket
   * or a variable: what an implicit multiplication looks like.
   */
  ghost predicate MulsImplicit<T>(ts: seq<Token<T>>) {
    forall k :: 0 <= k < |ts| && ts[k].MulSymbol? ==>
      0 < k < |ts| - 1 && ts[k - 1].IsTerm() && (ts[k + 1].OpeningBrackets? || ts[k + 1].Variable?)
  }

  /** Pushing one token after `ts`, as the tokenizer does, keeps the list well formed. */
  lemma PushWellFormed<T>(ts: seq<Token<T>>, t: Token<T>)
    requires WellFormed(ts)
    requires t.IsOperator() ==> MayPrecedeOperator(ts)
    requires t.OpeningBrackets? || t.Variable? ==> ImplicitMul(ts) == []
    requires t.Variable? ==> AllLetters(t.name)
    ensures WellFormed(ts + [t])
  {
    var ts' := ts + [t];
    forall k | 0 < k < |ts'| ensures (ts'[k].IsOperator() ==> ts'[k - 1].IsTerm() || ts'[k - 1].ClosingBrackets?)
      && ((ts'[k].OpeningBrackets? || ts'[k].Variable?) ==> !ts'[k - 1].IsTerm())
    {
      if k < |ts| {
        assert ts'[k] == ts[k] && ts'[k - 1] == ts[k - 1];
      }
    }
    forall k | 0 <= k < |ts'| && ts'[k].Variable? ensures AllLetters(ts'[k].name) {
      if k < |ts| {
        assert ts'[k] == ts[k];
      }
    }
  }

  /** The implicit `MulSymbol` and the token it announces keep the list well formed. */
  lemma PushTermWellFormed<T>(ts: seq<Token<T>>, t: Token<T>)
    requires WellFormed(ts)
    requires t.OpeningBrackets? || (t.Variable? && AllLetters(t.name))
    ensures WellFormed(ts + ImplicitMul(ts) + [t])
  {
    if ImplicitMul(ts) == [] {
      assert ts + ImplicitMul(ts) == ts;
      PushWellFormed(ts, t);
    } else {
      PushWellFormed(ts, MulSymbol);
      assert ImplicitMul(ts + [MulSymbol]) == [];
      PushWellFormed(ts + [MulSymbol], t);
    }
  }

  lemma {:induction false} ScanWellFormed<T>(d: Numeric.Domain<T>, s: string, i: nat, tokens: seq<Token<T>>)
    requires i <= |s| && WellFormed(tokens)
    requires Scan(d, s, i, tokens).Ok?
    ensures WellFormed(Scan(d, s, i, tokens).value)
    decreases |s| - i
  {
    if i < |s| {
      var c := s[i];
      if IsOperatorChar(c) {
        PushWellFormed(tokens, OperatorToken(c));
        ScanWellFormed(d, s, i + 1, tokens + [OperatorToken(c)]);
      } else if c == '(' {
        PushTermWellFormed(tokens, OpeningBrackets);
        ScanWellFormed(d, s, i + 1, tokens + ImplicitMul(tokens) + [OpeningBrackets]);
      } else if c == ')' {
        PushWellFormed(tokens, ClosingBrackets);
        ScanWellFormed(d, s, i + 1, tokens + [ClosingBrackets]);
      } else if IsNumChar(c) {
        var j := RunEnd(s, i + 1, IsNumChar);
        var t := NumLiteral(d, s[i..j]).value;
        PushWellFormed(tokens, t);
        ScanWellFormed(d, s, j, tokens + [t]);
      } else if IsLetter(c) || c == '"' {
        var (name, j) := VariableName(s, i).value;
        PushTermWellFormed(tokens, Token.Variable(name));
        ScanWellFormed(d, s, j, tokens + ImplicitMul(tokens) + [Token.Variable(name)]);
      } else {
        ScanWellFormed(d, s, i + 1, tokens);
      }
    }
  }

  /**
   * The token list of every input the tokenizer accepts is well formed: operators
   * are never misplaced, juxtaposed values and variables are always separated by
   * a `MulSymbol`, and names are letters only.
   */
  lemma TokenizationWellFormed<T>(d: Numeric.Domain<T>, s: string)
    requires Tokenization(d, s).Ok?
    ensures WellFormed(Tokenization(d, s).value)
  {
    ScanWellFormed(d, s, 0, []);
  }

  lemma PushKeepsMulsImplicit<T>(ts: seq<Token<T>>, t: Token<T>)
    requires MulsImplicit(ts) && !t.MulSymbol?
    ensures MulsImplicit(ts + [t])
  {
    var ts' := ts + [t];
    forall k | 0 <= k < |ts'| && ts'[k].MulSymbol?
      ensures 0 < k < |ts'| - 1 && ts'[k - 1].IsTerm() && (ts'[k + 1].OpeningBrackets? || ts'[k + 1].Variable?)
    {
      assert ts'[k] == ts[k];
      assert ts'[k - 1] == ts[k - 1] && ts'[k + 1] == ts[k + 1];
    }
  }

  lemma PushTermKeepsMulsImplicit<T>(ts: seq<Token<T>>, t: Token<T>)
    requires MulsImplicit(ts)
    requires t.OpeningBrackets? || t.Variable?
    ensures MulsImplicit(ts + ImplicitMul(ts) + [t])
  {
    if ImplicitMul(ts) == [] {
      assert ts + ImplicitMul(ts) == ts;
      PushKeepsMulsImplicit(ts, t);
    } else {
      var ts' := ts + [MulSymbol] + [t];
      forall k | 0 <= k < |ts'| && ts'[k].MulSymbol?
        ensures 0 < k < |ts'| - 1 && ts'[k - 1].IsTerm() && (ts'[k + 1].OpeningBrackets? || ts'[k + 1].Variable?)
      {
        if k < |ts| {
          assert ts'[k] == ts[k];
          assert ts'[k - 1] == ts[k - 1] && ts'[k + 1] == (ts + [MulSymbol])[k + 1];
        }
      }
    }
  }

  lemma {:induction false} ScanMulsImplicit<T>(d: Numeric.Domain<T>, s: string, i: nat, tokens: seq<Token<T>>)
    requires i <= |s| && MulsImplicit(tokens)
    requires forall k :: i <= k < |s| ==> s[k] != '*'
    requires Scan(d, s, i, tokens).Ok?
    ensures MulsImplicit(Scan(d, s, i, tokens).value)
    decreases |s| - i
  {
    if i < |s| {
      var c := s[i];
      if IsOperatorChar(c) {
        PushKeepsMulsImplicit(tokens, OperatorToken(c));
        ScanMulsImplicit(d, s, i + 1, tokens + [OperatorToken(c)]);
      } else if c == '(' {
        PushTermKeepsMulsImplicit(tokens, OpeningBrackets);
        ScanMulsImplicit(d, s, i + 1, tokens + ImplicitMul(tokens) + [OpeningBrackets]);
      } else if c == ')' {
        PushKeepsMulsImplicit(tokens, ClosingBrackets);
        ScanMulsImplicit(d, s, i + 1, tokens + [ClosingBrackets]);
      } else if IsNumChar(c) {
        var j := RunEnd(s, i + 1, IsNumChar);
        var t := NumLiteral(d, s[i..j]).value;
        PushKeepsMulsImplicit(tokens, t);
        ScanMulsImplicit(d, s, j, tokens + [t]);
      } else if IsLetter(c) || c == '"' {
        var (name, j) := VariableName(s, i).value;
        PushTermKeepsMulsImplicit(tokens, Token.Variable(name));
        ScanMulsImplicit(d, s, j, tokens + ImplicitMul(tokens) + [Token.Variable(name)]);
      } else {
        ScanMulsImplicit(d, s, i + 1, tokens);
      }
    }
  }

  /**
   * Without a `*` in the input, every `MulSymbol` is an implicit one: it stands
   * between a value or variable and the opening bracket or variable that follows it.
   * With WellFormed (no opening bracket or variable directly after a value or a
   * variable) this says the implicit `MulSymbol` is pushed exactly in that case.
   */
  lemma TokenizationMulsImplicit<T>(d: Numeric.Domain<T>, s: string)
    requires '*' !in s
    requires Tokenization(d, s).Ok?
    ensures MulsImplicit(Tokenization(d, s).value)
  {
    ScanMulsImplicit(d, s, 0, []);
  }

  /** A character after which an operator is misplaced: an operator or an opening bracket. */
  predicate IsOpener(c: char) {
    IsOperatorChar(c) || c == '('
  }

  /** Position `p` comes after an operator or `(`, with only spaces in between. */
  ghost predicate AfterOpener(s: string, p: nat)
    requires p <= |s|
  {
    exists q: nat :: q < p && IsOpener(s[q]) && forall j :: q < j < p ==> s[j] == ' '
  }

  /** Where the last token pushed makes an operator misplaced, the input shows why. */
  ghost predicate OpenerTrail<T>(s: string, i: nat, tokens: seq<Token<T>>)
    requires i <= |s|
  {
    !MayPrecedeOperator(tokens) ==> AfterOpener(s, i)
  }

  /** What an error of the tokenizer says about its input. */
  ghost predicate ExplainedBy<T>(d: Numeric.Domain<T>, s: string, e: ParseError) {
    match e
    case UnexpectedTokenError(p, c) =>
      p < |s| &&
      ((c == s[p] && ((IsOperatorChar(c) && AfterOpener(s, p)) || !IsRecognized(c))) ||
       (c == '"' && !IsLetter(s[p]) && s[p] != '"'))
    case ValueError(literal, name) =>
      name == d.typeName && d.parse(literal).None? && |literal| > 0 &&
      (forall k :: 0 <= k < |literal| ==> IsNumChar(literal[k])) &&
      exists p: nat :: p < |s| && IsNumChar(s[p]) && literal == s[p..RunEnd(s, p + 1, IsNumChar)]
    case EmptyError => false
    case Panicked(_) => false
  }

  /** An operator or `(` at `i` puts position `i + 1` after an opener. */
  lemma OpenerAt(s: string, i: nat)
    requires i < |s| && IsOpener(s[i])
    ensures AfterOpener(s, i + 1)
  {
    var q: nat := i;
    assert q < i + 1 && IsOpener(s[q]);
  }

  /** A space keeps a position after an opener. */
  lemma OpenerPastSpace(s: string, i: nat)
    requires i < |s| && s[i] == ' ' && AfterOpener(s, i)
    ensures AfterOpener(s, i + 1)
  {
    var q: nat :| q < i && IsOpener(s[q]) && forall j :: q < j < i ==> s[j] == ' ';
    assert q < i + 1 && IsOpener(s[q]) && forall j :: q < j < i + 1 ==> s[j] == ' ';
  }

  lemma {:induction false} ScanErrorExplained<T>(d: Numeric.Domain<T>, s: string, i: nat, tokens: seq<Token<T>>)
    requires i <= |s| && OpenerTrail(s, i, tokens)
    requires Scan(d, s, i, tokens).Err?
    ensures ExplainedBy(d, s, Scan(d, s, i, tokens).error)
    decreases |s| - i
  {
    var c := s[i];
    if IsOperatorChar(c) {
      if MayPrecedeOperator(tokens) {
        OpenerAt(s, i);
        ScanErrorExplained(d, s, i + 1, tokens + [OperatorToken(c)]);
      }
    } else if c == '(' {
      OpenerAt(s, i);
      ScanErrorExplained(d, s, i + 1, tokens + ImplicitMul(tokens) + [OpeningBrackets]);
    } else if c == ')' {
      ScanErrorExplained(d, s, i + 1, tokens + [ClosingBrackets]);
    } else if IsNumChar(c) {
      var j := RunEnd(s, i + 1, IsNumChar);
      match NumLiteral(d, s[i..j])
      case Ok(t) => ScanErrorExplained(d, s, j, tokens + [t]);
      case Err(e) =>
    } else if IsLetter(c) || c == '"' {
      match VariableName(s, i)
      case Ok((name, j)) => ScanErrorExplained(d, s, j, tokens + ImplicitMul(tokens) + [Token.Variable(name)]);
      case Err(e) =>
    } else if c == ' ' {
      if !MayPrecedeOperator(tokens) {
        OpenerPastSpace(s, i);
      }
      ScanErrorExplained(d, s, i + 1, tokens);
    }
  }

  /**
   * A failed tokenization names a position of the input: an operator that
   * follows another operator or `(` with only spaces between, or an unknown
   * character, with that character; a non-letter inside quotes with
   * `"`, or a run of digits and dots of the input that the numeric type rejects.
   */
  lemma TokenizationErrorExplained<T>(d: Numeric.Domain<T>, s: string)
    requires Tokenization(d, s).Err?
    ensures ExplainedBy(d, s, Tokenization(d, s).error)
  {
    ScanErrorExplained(d, s, 0, []);
  }

  lemma {:induction false} ScanRejectsUnrecognized<T>(d: Numeric.Domain<T>, s: string, i: nat, tokens: seq<Token<T>>, k: nat)
    requires i <= k < |s| && !IsRecognized(s[k])
    ensures Scan(d, s, i, tokens).Err?
    decreases |s| - i
  {
    var c := s[i];
    if IsOperatorChar(c) {
      if MayPrecedeOperator(tokens) {
        ScanRejectsUnrecognized(d, s, i + 1, tokens + [OperatorToken(c)], k);
      }
    } else if c == '(' {
      ScanRejectsUnrecognized(d, s, i + 1, tokens + ImplicitMul(tokens) + [OpeningBrackets], k);
    } else if c == ')' {
      ScanRejectsUnrecognized(d, s, i + 1, tokens + [ClosingBrackets], k);
    } else if IsNumChar(c) {
      var j := RunEnd(s, i + 1, IsNumChar);
      if NumLiteral(d, s[i..j]).Ok? {
        ScanRejectsUnrecognized(d, s, j, tokens + [NumLiteral(d, s[i..j]).value], k);
      }
    } else if IsLetter(c) || c == '"' {
      if VariableName(s, i).Ok? {
        var (name, j) := VariableName(s, i).value;
        if IsLetter(c) {
          assert j == i + 1;
        } else {
          assert RunEnd(s, i + 1, IsLetter) <= k;
        }
        ScanRejectsUnrecognized(d, s, j, tokens + ImplicitMul(tokens) + [Token.Variable(name)], k);
      }
    } else if c == ' ' {
      ScanRejectsUnrecognized(d, s, i + 1, tokens, k);
    }
  }

  /** An input with a character the tokenizer has no rule for never tokenizes, even inside quotes. */
  lemma TokenizationRejectsUnrecognized<T>(d: Numeric.Domain<T>, s: string, k: nat)
    requires k < |s| && !IsRecognized(s[k])
    ensures Tokenization(d, s).Err?
  {
    ScanRejectsUnrecognized(d, s, 0, [], k);
  }

  lemma {:induction false} ScanRejectsOperatorAfterOpener<T>(d: Numeric.Domain<T>, s: string, i: nat, tokens: seq<Token<T>>, m: nat)
    requires i <= m < |s| && IsOperatorChar(s[m])
    requires |tokens| > 0 && (tokens[|tokens| - 1].IsOperator() || tokens[|tokens| - 1].OpeningBrackets?)
    requires forall j :: i <= j < m ==> s[j] == ' '
    ensures Scan(d, s, i, tokens).Err?
    decreases m - i
  {
    if i < m {
      ScanRejectsOperatorAfterOpener(d, s, i + 1, tokens, m);
    }
  }

  lemma {:induction false} ScanRejectsMisplacedOperator<T>(d: Numeric.Domain<T>, s: string, i: nat, tokens: seq<Token<T>>, k: nat, m: nat)
    requires i <= k < m < |s| && IsOpener(s[k]) && IsOperatorChar(s[m])
    requires forall j :: k < j < m ==> s[j] == ' '
    ensures Scan(d, s, i, tokens).Err?
    decreases |s| - i
  {
    var c := s[i];
    if i == k {
      if c == '(' {
        ScanRejectsOperatorAfterOpener(d, s, k + 1, tokens + ImplicitMul(tokens) + [OpeningBrackets], m);
      } else if MayPrecedeOperator(tokens) {
        ScanRejectsOperatorAfterOpener(d, s, k + 1, tokens + [OperatorToken(c)], m);
      }
    } else if IsOperatorChar(c) {
      if MayPrecedeOperator(tokens) {
        ScanRejectsMisplacedOperator(d, s, i + 1, tokens + [OperatorToken(c)], k, m);
      }
    } else if c == '(' {
      ScanRejectsMisplacedOperator(d, s, i + 1, tokens + ImplicitMul(tokens) + [OpeningBrackets], k, m);
    } else if c == ')' {
      ScanRejectsMisplacedOperator(d, s, i + 1, tokens + [ClosingBrackets], k, m);
    } else if IsNumChar(c) {
      var j := RunEnd(s, i + 1, IsNumChar);
      if NumLiteral(d, s[i..j]).Ok? {
        ScanRejectsMisplacedOperator(d, s, j, tokens + [NumLiteral(d, s[i..j]).value], k, m);
      }
    } else if IsLetter(c) || c == '"' {
      if VariableName(s, i).Ok? {
        var (name, j) := VariableName(s, i).value;
        if IsLetter(c) {
          assert j == i + 1;
        } else {
          assert RunEnd(s, i + 1, IsLetter) <= k;
        }
        ScanRejectsMisplacedOperator(d, s, j, tokens + ImplicitMul(tokens) + [Token.Variable(name)], k, m);
      }
    } else if c == ' ' {
      ScanRejectsMisplacedOperator(d, s, i + 1, tokens, k, m);
    }
  }

  /**
   * An operator character after another operator or an opening bracket, with
   * nothing but spaces between them, never tokenizes: it finds an operator or
   * `(` as the last token.  There is no unary minus, even after `(`.
   */
  lemma TokenizationRejectsMisplacedOperator<T>(d: Numeric.Domain<T>, s: string, k: nat, m: nat)
    requires k < m < |s| && IsOpener(s[k]) && IsOperatorChar(s[m])
    requires forall j :: k < j < m ==> s[j] == ' '
    ensures Tokenization(d, s).Err?
  {
    ScanRejectsMisplacedOperator(d, s, 0, [], k, m);
  }
}
