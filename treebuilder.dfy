/**
 * The tree builder of src/parse.rs.  It has no grammar: it scans the tokens
 * for the "major operand" (the non-bracket token at the lowest bracket level
 * with the highest priority, the later one on a tie), splits the list there,
 * drops as many bracket tokens from the outer ends as the operand's level,
 * and recurses on both sides.
 */
module TreeBuilder {
  import opened Wrappers
  import opened Syntax

  /** The priority of a token as split point: a higher number binds more loosely. */
  function OperandValue<T>(t: Token<T>): (v: nat)
    ensures v > 0 <==> t.IsOperator()
    ensures t.IsOperator() ==> 6 <= v <= 10
  {
    match t
    case AddSymbol => 10
    case SubSymbol => 9
    case MulSymbol => 8
    case DivSymbol => 7
    case PowSymbol => 6
    case _ => 0
  }

  /** The split point found so far, with its priority and bracket level. */
  datatype Operand<T> = Operand(token: Token<T>, index: nat, value: nat, level: nat)

  const InitialLevel: nat := 1000

  /** The placeholder the scan starts from: any candidate at level 1000 or less replaces it. */
  function NoOperand<T>(): Operand<T> {
    Operand(Token.Variable("no operands"), 0, 0, InitialLevel)
  }

  /** The scan's replacement rule: a shallower level wins, then a priority at least as high. */
  function Consider<T>(best: Operand<T>, t: Token<T>, index: nat, level: nat): Operand<T> {
    var value := OperandValue(t);
    if level < best.level || (level == best.level && value >= best.value) then Operand(t, index, value, level)
    else best
  }

  /** The scan over `ts[k..]`, entered at bracket level `level` with `best` found before `k`. */
  function Select<T>(ts: seq<Token<T>>, k: nat, level: nat, best: Operand<T>): Result<Operand<T>, Defect>
    requires k <= |ts|
    decreases |ts| - k
  {
    if k == |ts| then Ok(best)
    else if ts[k].OpeningBrackets? then Select(ts, k + 1, level + 1, best)
    else if ts[k].ClosingBrackets? then
      if level == 0 then Err(LevelUnderflow) else Select(ts, k + 1, level - 1, best)
    else Select(ts, k + 1, level, Consider(best, ts[k], k, level))
  }

  /** The operator the list is split at, and the two sides to recurse on. */
  datatype Split<T> = Split(operator: Token<T>, left: seq<Token<T>>, right: seq<Token<T>>)

  /** The outcome of split_at_major_operand. */
  function MajorSplit<T>(ts: seq<Token<T>>): (r: Result<Split<T>, Defect>)
    ensures r.Ok? ==> |r.value.left| < |ts| && |r.value.right| < |ts|
    ensures r.Ok? ==> forall k :: 0 <= k < |r.value.left| ==> r.value.left[k] in ts
    ensures r.Ok? ==> forall k :: 0 <= k < |r.value.right| ==> r.value.right[k] in ts
  {
    var op :- Select(ts, 0, 0, NoOperand());
    if op.level <= op.index && op.index + op.level < |ts| then
      Ok(Split(op.token, ts[op.level..op.index], ts[op.index + 1..|ts| - op.level]))
    else Err(SliceOutOfRange)
  }

  method SplitAtMajorOperand<T>(input: seq<Token<T>>) returns (r: Result<Split<T>, Defect>)
    ensures r == MajorSplit(input)
  {
    var level: nat := 0;
    var operand := NoOperand();
    for index := 0 to |input|
      invariant Select(input, index, level, operand) == Select(input, 0, 0, NoOperand())
    {
      var expr := input[index];
      if expr.OpeningBrackets? {
        level := level + 1;
      } else if expr.ClosingBrackets? {
        if level == 0 {
          return Err(LevelUnderflow);
        }
        level := level - 1;
      } else {
        var value := OperandValue(expr);
        if level < operand.level || (level == operand.level && value >= operand.value) {
          operand := Operand(expr, index, value, level);
        }
      }
    }
    assert Select(input, 0, 0, NoOperand()) == Ok(operand);
    if !(operand.level <= operand.index && operand.index + operand.level < |input|) {
      return Err(SliceOutOfRange);
    }
    var left := input[..operand.index];
    var right := input[operand.index..];
    assert left[operand.level..] == input[operand.level..operand.index];
    assert right[1..|right| - operand.level] == input[operand.index + 1..|input| - operand.level];
    return Ok(Split(operand.token, left[operand.level..], right[1..|right| - operand.level]));
  }

  function Leaf<T>(t: Token<T>): Expr<T>
    requires t.IsTerm()
  {
    if t.Value? then Expr.Value(t.value) else Expr.Variable(t.name)
  }

  function Node<T>(op: Token<T>, left: Expr<T>, right: Expr<T>): Expr<T>
    requires op.IsOperator()
  {
    match op
    case AddSymbol => Add(left, right)
    case SubSymbol => Sub(left, right)
    case MulSymbol => Mul(left, right)
    case DivSymbol => Div(left, right)
    case PowSymbol => Pow(left, right)
  }

  /** The number of nodes of a tree. */
  function Size<T>(e: Expr<T>): nat {
    match e
    case Value(_) => 1
    case Variable(_) => 1
    case Add(l, r) => Size(l) + Size(r) + 1
    case Sub(l, r) => Size(l) + Size(r) + 1
    case Mul(l, r) => Size(l) + Size(r) + 1
    case Div(l, r) => Size(l) + Size(r) + 1
    case Pow(l, r) => Size(l) + Size(r) + 1
  }

  /**
   * `parse_string`: the tree of a token list.  The empty list is `EmptyError`;
   * a single value or variable is a leaf; anything else is split at its major
   * operand, left side first.
   */
  function ParseString<T>(ts: seq<Token<T>>): (r: Result<Expr<T>, ParseError>)
    ensures |ts| == 0 ==> r == Err(EmptyError)
    ensures |ts| == 1 && ts[0].IsTerm() ==> r == Ok(Leaf(ts[0]))
    ensures r.Ok? ==> Size(r.value) <= |ts|
    ensures r.Ok? ==> forall n :: n in Names(r.value) ==> Token.Variable(n) in ts
    decreases |ts|
  {
    if |ts| == 0 then Err(EmptyError)
    else if |ts| == 1 then
      if ts[0].IsTerm() then Ok(Leaf(ts[0])) else Err(Panicked(Unreachable))
    else
      match MajorSplit(ts)
      case Err(defect) => Err(Panicked(defect))
      case Ok(Split(op, left, right)) =>
        if !op.IsOperator() then Err(Panicked(Unreachable))
        else
          var l :- ParseString(left);
          var r :- ParseString(right);
          Ok(Node(op, l, r))
  }

  // ---------------------------------------------------------------------
  // The split rule, stated without the scan

  /** The change of bracket level a token makes. */
  function Change<T>(t: Token<T>): int {
    if t.OpeningBrackets? then 1 else if t.ClosingBrackets? then -1 else 0
  }

  /** The bracket level after `ts`: opening minus closing brackets. */
  function Depth<T>(ts: seq<Token<T>>): int {
    if |ts| == 0 then 0 else Depth(ts[..|ts| - 1]) + Change(ts[|ts| - 1])
  }

  /** The bracket level at which the scan meets the token at `j`. */
  function LevelAt<T>(ts: seq<Token<T>>, j: nat): int
    requires j <= |ts|
  {
    Depth(ts[..j])
  }

  /** No prefix of `ts[..n]` closes more brackets than it opens. */
  ghost predicate NeverBelowZero<T>(ts: seq<Token<T>>, n: nat)
    requires n <= |ts|
  {
    forall m: nat :: m <= n ==> LevelAt(ts, m) >= 0
  }

  /**
   * Candidate `j` does not displace candidate `i`: it is deeper, or as deep with
   * a lower priority, or as deep with the same priority and not later.
   */
  ghost predicate RanksBelow<T>(ts: seq<Token<T>>, j: nat, i: nat)
    requires j < |ts| && i < |ts|
  {
    LevelAt(ts, j) > LevelAt(ts, i) ||
    (LevelAt(ts, j) == LevelAt(ts, i) &&
     (OperandValue(ts[j]) < OperandValue(ts[i]) ||
      (OperandValue(ts[j]) == OperandValue(ts[i]) && j <= i)))
  }

  /**
   * The token at `i` is the major operand of `ts`: a non-bracket token, at a
   * level no deeper than the scan's initial 1000, that every other non-bracket
   * token ranks below.
   */
  ghost predicate IsMajor<T>(ts: seq<Token<T>>, i: nat) {
    i < |ts| && !ts[i].IsBracket() && LevelAt(ts, i) <= InitialLevel as int &&
    forall j: nat :: j < |ts| && !ts[j].IsBracket() ==> RanksBelow(ts, j, i)
  }

  /** Some non-bracket token of `ts[..n]` is at a level the scan can accept. */
  ghost predicate HasEligible<T>(ts: seq<Token<T>>, n: nat)
    requires n <= |ts|
  {
    exists i: nat :: i < n && !ts[i].IsBracket() && LevelAt(ts, i) <= InitialLevel as int
  }

  /** `op` is what the scan should hold after the tokens `ts[..n]`. */
  ghost predicate ChosenAmong<T>(ts: seq<Token<T>>, n: nat, op: Operand<T>)
    requires n <= |ts|
  {
    if HasEligible(ts, n) then
      op.index < n && !ts[op.index].IsBracket() && op.token == ts[op.index] &&
      op.value == OperandValue(ts[op.index]) && op.level as int == LevelAt(ts, op.index) &&
      op.level <= InitialLevel &&
      forall j: nat :: j < n && !ts[j].IsBracket() ==> RanksBelow(ts, j, op.index)
    else op == NoOperand()
  }

  lemma LevelStep<T>(ts: seq<Token<T>>, k: nat)
    requires k < |ts|
    ensures LevelAt(ts, k + 1) == LevelAt(ts, k) + Change(ts[k])
  {
    assert ts[..k + 1][..k] == ts[..k];
  }

  lemma ConsiderChooses<T>(ts: seq<Token<T>>, k: nat, level: nat, best: Operand<T>)
    requires k < |ts| && !ts[k].IsBracket() && level as int == LevelAt(ts, k)
    requires ChosenAmong(ts, k, best)
    ensures ChosenAmong(ts, k + 1, Consider(best, ts[k], k, level))
  {
    LevelStep(ts, k);
    var op := Consider(best, ts[k], k, level);
    if !HasEligible(ts, k) {
      if level <= InitialLevel {
        assert HasEligible(ts, k + 1);
        assert op == Operand(ts[k], k, OperandValue(ts[k]), level);
        forall j: nat | j < k + 1 && !ts[j].IsBracket() ensures RanksBelow(ts, j, k) {
          if j < k {
            assert !(j < k && !ts[j].IsBracket() && LevelAt(ts, j) <= InitialLevel as int);
          }
        }
      } else {
        assert !HasEligible(ts, k + 1) by {
          forall i: nat | i < k + 1 && !ts[i].IsBracket() ensures LevelAt(ts, i) > InitialLevel as int {
            if i < k {
              assert !(i < k && !ts[i].IsBracket() && LevelAt(ts, i) <= InitialLevel as int);
            }
          }
        }
      }
    } else {
      assert HasEligible(ts, k + 1) by {
        assert best.index < k + 1 && !ts[best.index].IsBracket() && LevelAt(ts, best.index) <= InitialLevel as int;
      }
      if op != best {
        forall j: nat | j < k + 1 && !ts[j].IsBracket() ensures RanksBelow(ts, j, k) {
          if j < k {
            assert RanksBelow(ts, j, best.index);
          }
        }
      }
    }
  }

  lemma {:induction false} SelectChooses<T>(ts: seq<Token<T>>, k: nat, level: nat, best: Operand<T>)
    requires k <= |ts| && level as int == LevelAt(ts, k)
    requires NeverBelowZero(ts, k) && ChosenAmong(ts, k, best)
    ensures Select(ts, k, level, best).Ok? <==> NeverBelowZero(ts, |ts|)
    ensures Select(ts, k, level, best).Ok? ==> ChosenAmong(ts, |ts|, Select(ts, k, level, best).value)
    ensures Select(ts, k, level, best).Err? ==> Select(ts, k, level, best).error == LevelUnderflow
    decreases |ts| - k
  {
    if k < |ts| {
      LevelStep(ts, k);
      if ts[k].ClosingBrackets? && level == 0 {
        assert LevelAt(ts, k + 1) < 0;
      } else {
        var level' := if ts[k].OpeningBrackets? then level + 1 else if ts[k].ClosingBrackets? then level - 1 else level;
        var best' := if ts[k].IsBracket() then best else Consider(best, ts[k], k, level);
        if !ts[k].IsBracket() {
          ConsiderChooses(ts, k, level, best);
        } else {
          assert HasEligible(ts, k + 1) == HasEligible(ts, k);
        }
        assert NeverBelowZero(ts, k + 1);
        SelectChooses(ts, k + 1, level', best');
      }
    }
  }

  /**
   * The scan of split_at_major_operand fails only by a closing bracket that
   * takes the level below zero; otherwise it ends holding the major operand,
   * or the placeholder when no non-bracket token is at level 1000 or less.
   */
  lemma SelectFindsMajor<T>(ts: seq<Token<T>>)
    ensures Select(ts, 0, 0, NoOperand()).Ok? <==> NeverBelowZero(ts, |ts|)
    ensures Select(ts, 0, 0, NoOperand()).Err? ==> Select(ts, 0, 0, NoOperand()).error == LevelUnderflow
    ensures Select(ts, 0, 0, NoOperand()).Ok? ==> ChosenAmong(ts, |ts|, Select(ts, 0, 0, NoOperand()).value)
  {
    assert ts[..0] == [];
    SelectChooses(ts, 0, 0, NoOperand());
  }

  /** The token of split_at_major_operand's result, stated without the scan. */
  function SplitAt<T>(ts: seq<Token<T>>, i: nat): Result<Split<T>, Defect>
    requires i < |ts|
  {
    var dropped := LevelAt(ts, i);
    if 0 <= dropped <= i && i + dropped < |ts| then
      Ok(Split(ts[i], ts[dropped..i], ts[i + 1..|ts| - dropped]))
    else Err(SliceOutOfRange)
  }

  /**
   * split_at_major_operand without the scan: a list whose brackets go below
   * level zero underflows; a list with no non-bracket token at level 1000 or
   * less has only the placeholder and its slices are out of range; otherwise
   * there is a major operand, and the list is split at it with its level's
   * worth of brackets taken off both ends.
   */
  lemma MajorSplitRule<T>(ts: seq<Token<T>>)
    ensures !NeverBelowZero(ts, |ts|) ==> MajorSplit(ts) == Err(LevelUnderflow)
    ensures NeverBelowZero(ts, |ts|) && !HasEligible(ts, |ts|) ==> MajorSplit(ts) == Err(SliceOutOfRange)
    ensures NeverBelowZero(ts, |ts|) && HasEligible(ts, |ts|) ==> exists i: nat :: IsMajor(ts, i)
    ensures forall i: nat :: NeverBelowZero(ts, |ts|) && IsMajor(ts, i) ==> MajorSplit(ts) == SplitAt(ts, i)
  {
    SelectFindsMajor(ts);
    forall i: nat | IsMajor(ts, i) ensures HasEligible(ts, |ts|) {
      assert i < |ts| && !ts[i].IsBracket() && LevelAt(ts, i) <= InitialLevel as int;
    }
    if NeverBelowZero(ts, |ts|) && HasEligible(ts, |ts|) {
      var op := Select(ts, 0, 0, NoOperand()).value;
      SplitAtChosen(ts, op);
      forall i: nat | IsMajor(ts, i) ensures MajorSplit(ts) == SplitAt(ts, i) {
        MajorUnique(ts, i, op.index);
      }
    }
  }

  /** There is at most one major operand. */
  lemma MajorUnique<T>(ts: seq<Token<T>>, i: nat, k: nat)
    requires IsMajor(ts, i) && IsMajor(ts, k)
    ensures i == k
  {
    assert RanksBelow(ts, i, k) && RanksBelow(ts, k, i);
  }

  /** The operand the scan ends with is the major one, and the list is split at it. */
  lemma SplitAtChosen<T>(ts: seq<Token<T>>, op: Operand<T>)
    requires Select(ts, 0, 0, NoOperand()) == Ok(op)
    requires HasEligible(ts, |ts|) && ChosenAmong(ts, |ts|, op)
    ensures IsMajor(ts, op.index) && MajorSplit(ts) == SplitAt(ts, op.index)
  {
    ChosenIsMajor(ts, op);
    SplitAtScanned(ts, op);
  }

  lemma ChosenIsMajor<T>(ts: seq<Token<T>>, op: Operand<T>)
    requires HasEligible(ts, |ts|) && ChosenAmong(ts, |ts|, op)
    ensures op.index < |ts| && op.token == ts[op.index] && op.level as int == LevelAt(ts, op.index)
    ensures IsMajor(ts, op.index)
  {
  }

  lemma SplitAtScanned<T>(ts: seq<Token<T>>, op: Operand<T>)
    requires Select(ts, 0, 0, NoOperand()) == Ok(op)
    requires op.index < |ts| && op.token == ts[op.index] && op.level as int == LevelAt(ts, op.index)
    ensures MajorSplit(ts) == SplitAt(ts, op.index)
  {
    var i, dropped := op.index, op.level;
    assert MajorSplit(ts) ==
      if dropped <= i && i + dropped < |ts| then Ok(Split(op.token, ts[dropped..i], ts[i + 1..|ts| - dropped]))
      else Err(SliceOutOfRange);
  }

  // ---------------------------------------------------------------------
  // Printing a tree and parsing it back

  /** The operator token of an inner node. */
  function OperatorOf<T>(e: Expr<T>): (t: Token<T>)
    requires !e.IsLeaf()
    ensures t.IsOperator() && Node(t, e.left, e.right) == e
  {
    match e
    case Add(_, _) => AddSymbol
    case Sub(_, _) => SubSymbol
    case Mul(_, _) => MulSymbol
    case Div(_, _) => DivSymbol
    case Pow(_, _) => PowSymbol
  }

  function LeafToken<T>(e: Expr<T>): (t: Token<T>)
    requires e.IsLeaf()
    ensures t.IsTerm() && Leaf(t) == e
  {
    if e.Value? then Token.Value(e.value) else Token.Variable(e.name)
  }

  /** The tokens of a tree: each side of an operator bracketed unless it is a leaf. */
  function Print<T>(e: Expr<T>): seq<Token<T>>
    decreases e, 1
  {
    if e.IsLeaf() then [LeafToken(e)]
    else Group(e.left) + [OperatorOf(e)] + Group(e.right)
  }

  /** A tree as an operand: a leaf as it is, any other tree in brackets. */
  function Group<T>(e: Expr<T>): seq<Token<T>>
    decreases e, 2
  {
    if e.IsLeaf() then Print(e) else [OpeningBrackets] + Print(e) + [ClosingBrackets]
  }

  lemma {:induction false} DepthConcat<T>(a: seq<Token<T>>, b: seq<Token<T>>)
    ensures Depth(a + b) == Depth(a) + Depth(b)
    decreases |b|
  {
    if |b| == 0 {
      assert a + b == a;
    } else {
      assert (a + b)[..|a + b| - 1] == a + b[..|b| - 1];
      DepthConcat(a, b[..|b| - 1]);
    }
  }

  lemma LevelInConcat<T>(a: seq<Token<T>>, b: seq<Token<T>>, m: nat)
    requires m <= |a| + |b|
    ensures m <= |a| ==> LevelAt(a + b, m) == LevelAt(a, m)
    ensures m >= |a| ==> LevelAt(a + b, m) == Depth(a) + LevelAt(b, m - |a|)
  {
    if m <= |a| {
      assert (a + b)[..m] == a[..m];
    } else {
      assert (a + b)[..m] == a + b[..m - |a|];
      DepthConcat(a, b[..m - |a|]);
    }
    if m == |a| {
      assert a[..m] == a && b[..0] == [];
    }
  }

  /** The whole list returns to level zero and no prefix goes below it. */
  ghost predicate Balanced<T>(ts: seq<Token<T>>) {
    Depth(ts) == 0 && NeverBelowZero(ts, |ts|)
  }

  lemma BalancedConcat<T>(a: seq<Token<T>>, b: seq<Token<T>>)
    requires Balanced(a) && Balanced(b)
    ensures Balanced(a + b)
  {
    DepthConcat(a, b);
    forall m: nat | m <= |a + b| ensures LevelAt(a + b, m) >= 0 {
      LevelInConcat(a, b, m);
    }
  }

  lemma SingleBalanced<T>(t: Token<T>)
    requires !t.IsBracket()
    ensures Balanced([t])
  {
    assert [t][..0] == [] && [t][..1] == [t];
  }

  /** A balanced list in one pair of brackets is balanced, and at level 1 or more inside. */
  lemma BracketedBalanced<T>(p: seq<Token<T>>)
    requires Balanced(p)
    ensures Balanced([OpeningBrackets] + p + [ClosingBrackets])
    ensures forall j: nat :: 0 < j < |p| + 2 ==> LevelAt([OpeningBrackets] + p + [ClosingBrackets], j) >= 1
  {
    var open: seq<Token<T>> := [OpeningBrackets];
    var close: seq<Token<T>> := [ClosingBrackets];
    assert open[..0] == [] && open[..1] == open;
    assert close[..0] == [] && close[..1] == close;
    DepthConcat(open, p);
    DepthConcat(open + p, close);
    forall m: nat | m <= |p| + 2
      ensures LevelAt(open + p + close, m) >= 0
      ensures 0 < m < |p| + 2 ==> LevelAt(open + p + close, m) >= 1
    {
      LevelInConcat(open + p, close, m);
      if m <= |open + p| {
        LevelInConcat(open, p, m);
      }
    }
  }

  lemma {:induction false} PrintBalanced<T>(e: Expr<T>)
    ensures Balanced(Print(e)) && Balanced(Group(e))
  {
    if e.IsLeaf() {
      SingleBalanced(LeafToken(e));
    } else {
      PrintBalanced(e.left);
      PrintBalanced(e.right);
      SingleBalanced(OperatorOf(e));
      BalancedConcat(Group(e.left), [OperatorOf(e)]);
      BalancedConcat(Group(e.left) + [OperatorOf(e)], Group(e.right));
      BracketedBalanced(Print(e));
    }
  }

  /** The tokens in a bracketed subtree are deeper than the subtree; a leaf's token has priority 0. */
  lemma GroupLevels<T>(x: Expr<T>, j: nat)
    requires j < |Group(x)| && !Group(x)[j].IsBracket()
    ensures LevelAt(Group(x), j) >= 1 || (LevelAt(Group(x), j) == 0 && OperandValue(Group(x)[j]) == 0)
  {
    if x.IsLeaf() {
      assert Group(x)[..0] == [];
    } else {
      PrintBalanced(x);
      BracketedBalanced(Print(x));
      assert j != 0;
    }
  }

  /** The level and the token at a position inside the middle part of a list. */
  lemma InMiddle<T>(a: seq<Token<T>>, b: seq<Token<T>>, c: seq<Token<T>>, j: nat)
    requires |a| <= j < |a| + |b|
    ensures LevelAt(a + b + c, j) == Depth(a) + LevelAt(b, j - |a|)
    ensures (a + b + c)[j] == b[j - |a|]
  {
    assert a + b + c == a + (b + c);
    LevelInConcat(a, b + c, j);
    LevelInConcat(b, c, j - |a|);
  }

  /** The lists an inner node is printed as: bare, or in one pair of brackets. */
  ghost predicate Frame<T>(pre: seq<Token<T>>, post: seq<Token<T>>) {
    (pre == [] && post == []) || (pre == [OpeningBrackets] && post == [ClosingBrackets])
  }

  /**
   * What an operand's printed form offers the split: it is balanced, and a
   * non-bracket token in it is deeper than the operand or is a leaf's token.
   */
  ghost predicate OperandShaped<T>(g: seq<Token<T>>) {
    Balanced(g) &&
    forall j: nat :: j < |g| && !g[j].IsBracket() ==>
      LevelAt(g, j) >= 1 || (LevelAt(g, j) == 0 && OperandValue(g[j]) == 0)
  }

  lemma GroupShaped<T>(x: Expr<T>)
    ensures OperandShaped(Group(x))
  {
    PrintBalanced(x);
    forall j: nat | j < |Group(x)| && !Group(x)[j].IsBracket()
      ensures LevelAt(Group(x), j) >= 1 || (LevelAt(Group(x), j) == 0 && OperandValue(Group(x)[j]) == 0)
    {
      GroupLevels(x, j);
    }
  }

  lemma FrameDepth<T>(pre: seq<Token<T>>, post: seq<Token<T>>)
    requires Frame(pre, post)
    ensures Depth(pre) == |pre| && |pre| == |post|
  {
    assert pre[..0] == [] && pre[..|pre|] == pre;
  }

  /** An operator between two balanced lists, bare or framed, is balanced. */
  lemma FramedBalanced<T>(pre: seq<Token<T>>, gl: seq<Token<T>>, op: Token<T>, gr: seq<Token<T>>, post: seq<Token<T>>)
    requires Frame(pre, post) && Balanced(gl) && Balanced(gr) && !op.IsBracket()
    ensures Balanced(pre + gl + [op] + gr + post)
  {
    var body := gl + [op] + gr;
    SingleBalanced(op);
    BalancedConcat(gl, [op]);
    BalancedConcat(gl + [op], gr);
    if pre == [] {
      assert pre + gl + [op] + gr + post == body;
    } else {
      BracketedBalanced(body);
      assert pre + gl + [op] + gr + post == [OpeningBrackets] + body + [ClosingBrackets];
    }
  }

  /** The operator between the two lists is at the frame's level. */
  lemma FramedOperatorLevel<T>(pre: seq<Token<T>>, gl: seq<Token<T>>, op: Token<T>, gr: seq<Token<T>>, post: seq<Token<T>>)
    requires Frame(pre, post) && Balanced(gl)
    ensures var ts := pre + gl + [op] + gr + post;
      LevelAt(ts, |pre| + |gl|) == |pre| && ts[|pre| + |gl|] == op
  {
    var ts := pre + gl + [op] + gr + post;
    assert ts == (pre + gl) + [op] + (gr + post);
    FrameDepth(pre, post);
    DepthConcat(pre, gl);
    InMiddle(pre + gl, [op], gr + post, |pre| + |gl|);
    assert [op][..0] == [];
  }

  /** A token inside an operand's form ranks below an operator at the operand's level. */
  lemma InOperandRanksBelow<T>(ts: seq<Token<T>>, a: seq<Token<T>>, g: seq<Token<T>>, c: seq<Token<T>>, j: nat, i: nat)
    requires ts == a + g + c && OperandShaped(g)
    requires |a| <= j < |a| + |g| && !ts[j].IsBracket()
    requires i < |ts| && ts[i].IsOperator() && LevelAt(ts, i) == Depth(a)
    ensures RanksBelow(ts, j, i)
  {
    InMiddle(a, g, c, j);
    assert !g[j - |a|].IsBracket();
  }

  lemma LeftOperandRanksBelow<T>(pre: seq<Token<T>>, gl: seq<Token<T>>, op: Token<T>, gr: seq<Token<T>>, post: seq<Token<T>>, j: nat)
    requires Frame(pre, post) && OperandShaped(gl) && op.IsOperator()
    requires |pre| <= j < |pre| + |gl| && !(pre + gl + [op] + gr + post)[j].IsBracket()
    ensures RanksBelow(pre + gl + [op] + gr + post, j, |pre| + |gl|)
  {
    var ts := pre + gl + [op] + gr + post;
    FramedOperatorLevel(pre, gl, op, gr, post);
    FrameDepth(pre, post);
    assert ts == pre + gl + ([op] + gr + post);
    InOperandRanksBelow(ts, pre, gl, [op] + gr + post, j, |pre| + |gl|);
  }

  lemma RightOperandRanksBelow<T>(pre: seq<Token<T>>, gl: seq<Token<T>>, op: Token<T>, gr: seq<Token<T>>, post: seq<Token<T>>, j: nat)
    requires Frame(pre, post) && Balanced(gl) && OperandShaped(gr) && op.IsOperator()
    requires |pre| + |gl| < j < |pre| + |gl| + 1 + |gr| && !(pre + gl + [op] + gr + post)[j].IsBracket()
    ensures RanksBelow(pre + gl + [op] + gr + post, j, |pre| + |gl|)
  {
    var a := pre + gl + [op];
    var ts := pre + gl + [op] + gr + post;
    assert Depth(a) == |pre| by {
      FrameDepth(pre, post);
      SingleBalanced(op);
      DepthConcat(pre, gl);
      DepthConcat(pre + gl, [op]);
    }
    FramedOperatorLevel(pre, gl, op, gr, post);
    InOperandRanksBelow(ts, a, gr, post, j, |pre| + |gl|);
  }

  /** Only the tokens between the frame's brackets can be split at. */
  lemma InsideFrame<T>(pre: seq<Token<T>>, body: seq<Token<T>>, post: seq<Token<T>>, j: nat)
    requires Frame(pre, post)
    requires j < |pre + body + post| && !(pre + body + post)[j].IsBracket()
    ensures |pre| <= j < |pre| + |body|
  {
    var ts := pre + body + post;
    assert forall m :: 0 <= m < |pre| ==> ts[m].IsBracket();
    assert forall m :: |pre| + |body| <= m < |ts| ==> ts[m].IsBracket();
  }

  /** Every non-bracket token of the list ranks below the operator between the two operands. */
  lemma OperandRanksBelow<T>(pre: seq<Token<T>>, gl: seq<Token<T>>, op: Token<T>, gr: seq<Token<T>>, post: seq<Token<T>>, j: nat)
    requires Frame(pre, post) && OperandShaped(gl) && OperandShaped(gr) && op.IsOperator()
    requires j < |pre + gl + [op] + gr + post| && !(pre + gl + [op] + gr + post)[j].IsBracket()
    ensures RanksBelow(pre + gl + [op] + gr + post, j, |pre| + |gl|)
  {
    var i := |pre| + |gl|;
    assert pre + gl + [op] + gr + post == pre + (gl + [op] + gr) + post;
    InsideFrame(pre, gl + [op] + gr, post, j);
    if j < i {
      LeftOperandRanksBelow(pre, gl, op, gr, post, j);
    } else if i < j {
      RightOperandRanksBelow(pre, gl, op, gr, post, j);
    } else {
      FramedOperatorLevel(pre, gl, op, gr, post);
    }
  }

  lemma FramedIsMajor<T>(pre: seq<Token<T>>, gl: seq<Token<T>>, op: Token<T>, gr: seq<Token<T>>, post: seq<Token<T>>)
    requires Frame(pre, post) && OperandShaped(gl) && OperandShaped(gr) && op.IsOperator()
    ensures IsMajor(pre + gl + [op] + gr + post, |pre| + |gl|)
  {
    var ts := pre + gl + [op] + gr + post;
    var i := |pre| + |gl|;
    FramedOperatorLevel(pre, gl, op, gr, post);
    forall j: nat | j < |ts| && !ts[j].IsBracket() ensures RanksBelow(ts, j, i) {
      OperandRanksBelow(pre, gl, op, gr, post, j);
    }
  }

  lemma SplitAtMajor<T>(ts: seq<Token<T>>, i: nat, left: seq<Token<T>>, right: seq<Token<T>>)
    requires NeverBelowZero(ts, |ts|) && IsMajor(ts, i)
    requires LevelAt(ts, i) <= i && i + LevelAt(ts, i) < |ts|
    requires ts[LevelAt(ts, i)..i] == left && ts[i + 1..|ts| - LevelAt(ts, i)] == right
    ensures MajorSplit(ts) == Ok(Split(ts[i], left, right))
  {
    MajorSplitRule(ts);
  }

  lemma SlicesAround<T>(a: seq<Token<T>>, b: seq<Token<T>>, t: Token<T>, c: seq<Token<T>>, d: seq<Token<T>>)
    requires |a| == |d|
    ensures var s := a + b + [t] + c + d;
      (a + b + [t] + c + d)[|a|..|a| + |b|] == b && s[|a| + |b| + 1..|s| - |a|] == c
  {
    var s := a + b + [t] + c + d;
    assert s == a + b + ([t] + c + d);
    assert s == (a + b + [t]) + c + d;
  }

  /** An operator between two operand forms, bare or framed, is where the list splits. */
  lemma FramedSplit<T>(pre: seq<Token<T>>, gl: seq<Token<T>>, op: Token<T>, gr: seq<Token<T>>, post: seq<Token<T>>)
    requires Frame(pre, post) && OperandShaped(gl) && OperandShaped(gr) && op.IsOperator()
    ensures MajorSplit(pre + gl + [op] + gr + post) == Ok(Split(op, gl, gr))
  {
    var ts := pre + gl + [op] + gr + post;
    FramedBalanced(pre, gl, op, gr, post);
    FramedOperatorLevel(pre, gl, op, gr, post);
    FramedIsMajor(pre, gl, op, gr, post);
    FrameDepth(pre, post);
    SlicesAround(pre, gl, op, gr, post);
    SplitAtMajor(ts, |pre| + |gl|, gl, gr);
  }

  lemma PrintParts<T>(e: Expr<T>)
    requires !e.IsLeaf()
    ensures Print(e) == Group(e.left) + [OperatorOf(e)] + Group(e.right)
  {
  }

  lemma Regroup<T>(pre: seq<Token<T>>, gl: seq<Token<T>>, op: Token<T>, gr: seq<Token<T>>, post: seq<Token<T>>)
    ensures pre + (gl + [op] + gr) + post == pre + gl + [op] + gr + post
  {
  }

  /**
   * An inner node's printed form, bare or in one pair of brackets, splits at
   * the node's operator into its two operands' printed forms.
   */
  lemma SplitPrinted<T>(e: Expr<T>, pre: seq<Token<T>>, post: seq<Token<T>>)
    requires !e.IsLeaf() && Frame(pre, post)
    ensures MajorSplit(pre + Print(e) + post) == Ok(Split(OperatorOf(e), Group(e.left), Group(e.right)))
  {
    var gl, op, gr := Group(e.left), OperatorOf(e), Group(e.right);
    PrintParts(e);
    Regroup(pre, gl, op, gr, post);
    GroupShaped(e.left);
    GroupShaped(e.right);
    FramedSplit(pre, gl, op, gr, post);
  }

  /** A list that splits into two lists with trees parses to the node joining them. */
  lemma ParseSplit<T>(ts: seq<Token<T>>, op: Token<T>, left: seq<Token<T>>, right: seq<Token<T>>, l: Expr<T>, r: Expr<T>)
    requires |ts| >= 2 && op.IsOperator() && MajorSplit(ts) == Ok(Split(op, left, right))
    requires ParseString(left) == Ok(l) && ParseString(right) == Ok(r)
    ensures ParseString(ts) == Ok(Node(op, l, r))
  {
  }

  /**
   * Parsing inverts printing: the printed form of every tree, bare or as an
   * operand, parses back to that tree.
   */
  lemma {:induction false} ParsePrint<T>(e: Expr<T>)
    ensures ParseString(Print(e)) == Ok(e)
    ensures ParseString(Group(e)) == Ok(e)
  {
    if e.IsLeaf() {
      assert Print(e) == [LeafToken(e)] && Group(e) == Print(e);
    } else {
      var gl, op, gr := Group(e.left), OperatorOf(e), Group(e.right);
      ParsePrint(e.left);
      ParsePrint(e.right);
      assert Print(e) == gl + [op] + gr;
      SplitPrinted(e, [], []);
      assert [] + Print(e) + [] == Print(e);
      ParseSplit(Print(e), op, gl, gr, e.left, e.right);
      SplitPrinted(e, [OpeningBrackets], [ClosingBrackets]);
      ParseSplit(Group(e), op, gl, gr, e.left, e.right);
    }
  }

  // ---------------------------------------------------------------------
  // Precedence and associativity in a list without brackets

  ghost predicate NoBrackets<T>(ts: seq<Token<T>>) {
    forall k :: 0 <= k < |ts| ==> !ts[k].IsBracket()
  }

  lemma {:induction false} FlatLevel<T>(ts: seq<Token<T>>, j: nat)
    requires NoBrackets(ts) && j <= |ts|
    ensures LevelAt(ts, j) == 0
    decreases j
  {
    if j == 0 {
      assert ts[..0] == [];
    } else {
      FlatLevel(ts, j - 1);
      LevelStep(ts, j - 1);
    }
  }

  /**
   * Without brackets the list is split at the operator whose priority is at
   * least that of every token before it and above that of every token after
   * it: the loosest-binding operator, and the last one among equals.
   */
  lemma FlatSplit<T>(ts: seq<Token<T>>, i: nat)
    requires NoBrackets(ts) && i < |ts| && ts[i].IsOperator()
    requires forall j :: 0 <= j < i ==> OperandValue(ts[j]) <= OperandValue(ts[i])
    requires forall j :: i < j < |ts| ==> OperandValue(ts[j]) < OperandValue(ts[i])
    ensures MajorSplit(ts) == Ok(Split(ts[i], ts[..i], ts[i + 1..]))
  {
    forall m: nat | m <= |ts| ensures LevelAt(ts, m) >= 0 {
      FlatLevel(ts, m);
    }
    FlatLevel(ts, i);
    forall j: nat | j < |ts| && !ts[j].IsBracket() ensures RanksBelow(ts, j, i) {
      FlatLevel(ts, j);
    }
    assert ts[0..i] == ts[..i] && ts[i + 1..|ts| - 0] == ts[i + 1..];
    SplitAtMajor(ts, i, ts[..i], ts[i + 1..]);
  }

  /** An operator between two terms parses to the node over their leaves. */
  lemma FlatBinary<T>(t0: Token<T>, o: Token<T>, t1: Token<T>)
    requires t0.IsTerm() && t1.IsTerm() && o.IsOperator()
    ensures ParseString([t0, o, t1]) == Ok(Node(o, Leaf(t0), Leaf(t1)))
  {
    var ts := [t0, o, t1];
    FlatSplit(ts, 1);
    assert ts[..1] == [t0] && ts[2..] == [t1];
    ParseSplit(ts, o, [t0], [t1], Leaf(t0), Leaf(t1));
  }

  /** `t0 o1 t1 o2 t2` with `o2` at least as loose as `o1` groups to the left. */
  lemma ChainLeft<T>(t0: Token<T>, o1: Token<T>, t1: Token<T>, o2: Token<T>, t2: Token<T>)
    requires t0.IsTerm() && t1.IsTerm() && t2.IsTerm() && o1.IsOperator() && o2.IsOperator()
    requires OperandValue(o2) >= OperandValue(o1)
    ensures ParseString([t0, o1, t1, o2, t2]) == Ok(Node(o2, Node(o1, Leaf(t0), Leaf(t1)), Leaf(t2)))
  {
    var ts := [t0, o1, t1, o2, t2];
    FlatBinary(t0, o1, t1);
    FlatSplit(ts, 3);
    assert ts[..3] == [t0, o1, t1] && ts[4..] == [t2];
    ParseSplit(ts, o2, [t0, o1, t1], [t2], Node(o1, Leaf(t0), Leaf(t1)), Leaf(t2));
  }

  /** `t0 o1 t1 o2 t2` with `o2` binding tighter than `o1` groups to the right. */
  lemma ChainRight<T>(t0: Token<T>, o1: Token<T>, t1: Token<T>, o2: Token<T>, t2: Token<T>)
    requires t0.IsTerm() && t1.IsTerm() && t2.IsTerm() && o1.IsOperator() && o2.IsOperator()
    requires OperandValue(o2) < OperandValue(o1)
    ensures ParseString([t0, o1, t1, o2, t2]) == Ok(Node(o1, Leaf(t0), Node(o2, Leaf(t1), Leaf(t2))))
  {
    var ts := [t0, o1, t1, o2, t2];
    FlatBinary(t1, o2, t2);
    FlatSplit(ts, 1);
    assert ts[..1] == [t0] && ts[2..] == [t1, o2, t2];
    ParseSplit(ts, o1, [t0], [t1, o2, t2], Leaf(t0), Node(o2, Leaf(t1), Leaf(t2)));
  }

  /**
   * Precedence and associativity of `t0 o1 t1 o2 t2`: when `o2` binds at least
   * as loosely as `o1` it is the root, so equal operators group to the left;
   * otherwise `o1` is the root and `o2` groups the last two terms.
   */
  lemma ChainOfTwo<T>(t0: Token<T>, o1: Token<T>, t1: Token<T>, o2: Token<T>, t2: Token<T>)
    requires t0.IsTerm() && t1.IsTerm() && t2.IsTerm() && o1.IsOperator() && o2.IsOperator()
    ensures OperandValue(o2) >= OperandValue(o1) ==>
      ParseString([t0, o1, t1, o2, t2]) == Ok(Node(o2, Node(o1, Leaf(t0), Leaf(t1)), Leaf(t2)))
    ensures OperandValue(o2) < OperandValue(o1) ==>
      ParseString([t0, o1, t1, o2, t2]) == Ok(Node(o1, Leaf(t0), Node(o2, Leaf(t1), Leaf(t2))))
  {
    if OperandValue(o2) >= OperandValue(o1) {
      ChainLeft(t0, o1, t1, o2, t2);
    } else {
      ChainRight(t0, o1, t1, o2, t2);
    }
  }
}
