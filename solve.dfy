/**
 * The entry points of src/lib.rs: an input is tokenized, built into a tree
 * and evaluated, and the first stage that fails decides the error.  Errors of
 * the two first stages are wrapped as `Error.ParseError`, a missing variable
 * as `Error.EvalError`.
 */
module Solve {
  import opened Wrappers
  import Syntax
  import Numeric
  import Tokenizer
  import TreeBuilder
  import Evaluator

  datatype Error =
    | ParseError(parse: Syntax.ParseError)
    | EvalError(eval: Evaluator.EvalError)

  /** `parse_string(tokenize(input)?)`: the tree of an input. */
  function Parse<T>(d: Numeric.Domain<T>, input: string): Result<Syntax.Expr<T>, Syntax.ParseError> {
    var tokens :- Tokenizer.Tokenization(d, input);
    TreeBuilder.ParseString(tokens)
  }

  /**
   * `solve_vars_with`: the value of an input under a map of variables.  A
   * failure to tokenize or to build the tree is reported as that parse error;
   * after a successful parse the outcome is a value exactly when every
   * variable of the tree has one, and an evaluation error names a variable of
   * the tree without a value.
   */
  function SolveVarsWith<T>(d: Numeric.Domain<T>, input: string, vars: map<string, T>): (r: Result<T, Error>)
    ensures (r.Err? && r.error.ParseError?) <==> Parse(d, input).Err?
    ensures r.Err? && r.error.ParseError? ==> r.error.parse == Parse(d, input).error
    ensures Parse(d, input).Ok? ==>
      (r.Ok? <==> forall n :: n in Syntax.Names(Parse(d, input).value) ==> n in vars)
    ensures r.Err? && r.error.EvalError? ==>
      Parse(d, input).Ok? && r.error.eval.name in Syntax.Names(Parse(d, input).value) && r.error.eval.name !in vars
  {
    match Parse(d, input)
    case Err(e) => Err(ParseError(e))
    case Ok(tree) =>
      match Evaluator.EvalExpr(d, tree, vars)
      case Err(e) => Err(EvalError(e))
      case Ok(v) => Ok(v)
  }

  /**
   * `solve_with`: the value of an input without variables.  It succeeds
   * exactly when the input parses to a tree with no variable, and when the
   * tree has variables the error names the leftmost one.
   */
  function SolveWith<T>(d: Numeric.Domain<T>, input: string): (r: Result<T, Error>)
    ensures r.Ok? <==> Parse(d, input).Ok? && |Syntax.Names(Parse(d, input).value)| == 0
    ensures Parse(d, input).Ok? && |Syntax.Names(Parse(d, input).value)| > 0 ==>
      r == Err(EvalError(Evaluator.VariableNotFound(Syntax.Names(Parse(d, input).value)[0])))
    ensures Parse(d, input).Err? ==> r == Err(ParseError(Parse(d, input).error))
  {
    match Parse(d, input)
    case Err(_) => SolveVarsWith(d, input, map[])
    case Ok(tree) =>
      Evaluator.EvalReportsFirstMissing(d, tree, map[]);
      NoneGiven<T>(Syntax.Names(tree), map[]);
      SolveVarsWith(d, input, map[])
  }

  /** With no variables given, the first missing one is the first one. */
  lemma NoneGiven<T>(ns: seq<string>, vars: map<string, T>)
    requires vars == map[]
    ensures Evaluator.FirstMissing(ns, vars) == if |ns| == 0 then None else Some(ns[0])
  {
  }

  /** Two maps of variables that agree on every variable token of the input. */
  ghost predicate AgreeOnInput<T>(d: Numeric.Domain<T>, input: string, v1: map<string, T>, v2: map<string, T>) {
    Tokenizer.Tokenization(d, input).Ok? ==>
      forall n :: Syntax.Token.Variable(n) in Tokenizer.Tokenization(d, input).value ==>
        (n in v1 <==> n in v2) && (n in v1 ==> v1[n] == v2[n])
  }

  /** Only the variables the input names matter: maps that agree on them give the same outcome. */
  lemma SolveFrame<T>(d: Numeric.Domain<T>, input: string, v1: map<string, T>, v2: map<string, T>)
    requires AgreeOnInput(d, input, v1, v2)
    ensures SolveVarsWith(d, input, v1) == SolveVarsWith(d, input, v2)
  {
    if Parse(d, input).Ok? {
      var tree := Parse(d, input).value;
      assert forall n :: n in Syntax.Names(tree) ==> Syntax.Token.Variable(n) in Tokenizer.Tokenization(d, input).value;
      Evaluator.EvalFrame(d, tree, v1, v2);
    }
  }

  /** Without variables in the input, the map of variables plays no part. */
  lemma SolveWithoutVariables<T>(d: Numeric.Domain<T>, input: string, vars: map<string, T>)
    requires Tokenizer.Tokenization(d, input).Ok?
    requires forall t :: t in Tokenizer.Tokenization(d, input).value ==> !t.Variable?
    ensures SolveVarsWith(d, input, vars) == SolveWith(d, input)
  {
    SolveFrame(d, input, vars, map[]);
  }

  predicate AllSpaces(s: string) {
    forall k :: 0 <= k < |s| ==> s[k] == ' '
  }

  lemma {:induction false} ScanSpaces<T>(d: Numeric.Domain<T>, s: string, i: nat)
    requires i <= |s| && AllSpaces(s)
    ensures Tokenizer.Scan(d, s, i, []) == Ok([])
    decreases |s| - i
  {
    if i < |s| {
      ScanSpaces(d, s, i + 1);
    }
  }

  /** An input of nothing but spaces, the empty one included, is `EmptyError`. */
  lemma BlankInputIsEmpty<T>(d: Numeric.Domain<T>, input: string, vars: map<string, T>)
    requires AllSpaces(input)
    ensures SolveVarsWith(d, input, vars) == Err(ParseError(Syntax.EmptyError))
  {
    ScanSpaces(d, input, 0);
  }
}
