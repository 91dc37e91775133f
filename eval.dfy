/**
 * The evaluator of src/eval.rs: a tree is reduced bottom-up, left operand
 * first, with the value of each variable looked up in a map.  The first
 * variable without a value stops the evaluation.
 */
module Evaluator {
  import opened Wrappers
  import opened Syntax
  import opened Numeric

  datatype EvalError = VariableNotFound(name: string)

  /**
   * `eval_expr`: the value of a tree.  It succeeds exactly when every variable
   * of the tree has a value, and a failure names a variable of the tree that
   * has none.
   */
  function EvalExpr<T>(d: Domain<T>, e: Expr<T>, vars: map<string, T>): (r: Result<T, EvalError>)
    ensures r.Ok? <==> forall n :: n in Names(e) ==> n in vars
    ensures r.Err? ==> r.error.name in Names(e) && r.error.name !in vars
  {
    match e
    case Value(v) => Ok(v)
    case Variable(n) => if n in vars then Ok(vars[n]) else Err(VariableNotFound(n))
    case Add(a, b) =>
      var x :- EvalExpr(d, a, vars);
      var y :- EvalExpr(d, b, vars);
      Ok(d.add(x, y))
    case Sub(a, b) =>
      var x :- EvalExpr(d, a, vars);
      var y :- EvalExpr(d, b, vars);
      Ok(d.sub(x, y))
    case Mul(a, b) =>
      var x :- EvalExpr(d, a, vars);
      var y :- EvalExpr(d, b, vars);
      Ok(d.mul(x, y))
    case Div(a, b) =>
      var x :- EvalExpr(d, a, vars);
      var y :- EvalExpr(d, b, vars);
      Ok(d.div(x, y))
    case Pow(a, b) =>
      var x :- EvalExpr(d, a, vars);
      var y :- EvalExpr(d, b, vars);
      Ok(d.pow(x, y))
  }

  /** The first name of `ns` that `vars` has no value for. */
  function FirstMissing<T>(ns: seq<string>, vars: map<string, T>): (r: Option<string>)
    ensures r.None? <==> forall k :: 0 <= k < |ns| ==> ns[k] in vars
    ensures r.Some? ==> r.value in ns && r.value !in vars
  {
    if |ns| == 0 then None
    else if ns[0] !in vars then Some(ns[0])
    else FirstMissing(ns[1..], vars)
  }

  lemma {:induction false} FirstMissingConcat<T>(a: seq<string>, b: seq<string>, vars: map<string, T>)
    ensures FirstMissing(a + b, vars) == if FirstMissing(a, vars).Some? then FirstMissing(a, vars) else FirstMissing(b, vars)
    decreases |a|
  {
    if |a| == 0 {
      assert a + b == b;
    } else {
      assert (a + b)[1..] == a[1..] + b;
      FirstMissingConcat(a[1..], b, vars);
    }
  }

  /**
   * The failure of an evaluation names the leftmost variable of the tree that
   * has no value, as the left-first order of the `?` operators makes it.
   */
  lemma {:induction false} EvalReportsFirstMissing<T>(d: Domain<T>, e: Expr<T>, vars: map<string, T>)
    ensures EvalExpr(d, e, vars).Ok? <==> FirstMissing(Names(e), vars).None?
    ensures EvalExpr(d, e, vars).Err? ==> FirstMissing(Names(e), vars) == Some(EvalExpr(d, e, vars).error.name)
  {
    match e
    case Value(_) =>
    case Variable(n) =>
      assert Names(e)[1..] == [];
    case Add(a, b) =>
      EvalReportsFirstMissing(d, a, vars);
      EvalReportsFirstMissing(d, b, vars);
      FirstMissingConcat(Names(a), Names(b), vars);
    case Sub(a, b) =>
      EvalReportsFirstMissing(d, a, vars);
      EvalReportsFirstMissing(d, b, vars);
      FirstMissingConcat(Names(a), Names(b), vars);
    case Mul(a, b) =>
      EvalReportsFirstMissing(d, a, vars);
      EvalReportsFirstMissing(d, b, vars);
      FirstMissingConcat(Names(a), Names(b), vars);
    case Div(a, b) =>
      EvalReportsFirstMissing(d, a, vars);
      EvalReportsFirstMissing(d, b, vars);
      FirstMissingConcat(Names(a), Names(b), vars);
    case Pow(a, b) =>
      EvalReportsFirstMissing(d, a, vars);
      EvalReportsFirstMissing(d, b, vars);
      FirstMissingConcat(Names(a), Names(b), vars);
  }

  /** Two maps that agree on the variables of a tree. */
  ghost predicate AgreeOn<T>(e: Expr<T>, v1: map<string, T>, v2: map<string, T>) {
    forall n :: n in Names(e) ==> (n in v1 <==> n in v2) && (n in v1 ==> v1[n] == v2[n])
  }

  /** Only the variables of a tree matter: maps that agree on them give the same outcome. */
  lemma {:induction false} EvalFrame<T>(d: Domain<T>, e: Expr<T>, v1: map<string, T>, v2: map<string, T>)
    requires AgreeOn(e, v1, v2)
    ensures EvalExpr(d, e, v1) == EvalExpr(d, e, v2)
  {
    match e
    case Value(_) =>
    case Variable(n) =>
      assert n in Names(e);
    case Add(a, b) =>
      EvalFrame(d, a, v1, v2);
      EvalFrame(d, b, v1, v2);
    case Sub(a, b) =>
      EvalFrame(d, a, v1, v2);
      EvalFrame(d, b, v1, v2);
    case Mul(a, b) =>
      EvalFrame(d, a, v1, v2);
      EvalFrame(d, b, v1, v2);
    case Div(a, b) =>
      EvalFrame(d, a, v1, v2);
      EvalFrame(d, b, v1, v2);
    case Pow(a, b) =>
      EvalFrame(d, a, v1, v2);
      EvalFrame(d, b, v1, v2);
  }
}
