/**
 * The numeric-type contract the engine is generic over.  Rust expresses it
 * with trait bounds (`FromStr + Add + Sub + Mul + Div + Pow`); here it is a
 * record of the literal parser, the type's name and the five operations,
 * passed to the tokenizer and the evaluator.
 */
module Numeric {
  import opened Wrappers
  import Digits

  datatype Domain<!T> = Domain(
    typeName: string,           // what `type_name::<T>()` yields; opaque to the engine
    parse: string -> Option<T>,  // `T::from_str`; `None` stands for its `Err`
    add: (T, T) -> T,
    sub: (T, T) -> T,
    mul: (T, T) -> T,
    div: (T, T) -> T,
    pow: (T, T) -> T)

  /**
   * The literal parser of Rust's integer types on the text
   * the tokenizer hands it (digits and dots only): it succeeds exactly on a
   * non-empty run of digits.
   */
  function ParseInt(s: string): (r: Option<int>)
    ensures r.Some? <==> |s| > 0 && Digits.AllDigits(s)
    ensures r.Some? ==> r.value == Digits.ValueOf(s) && r.value < Digits.Pow10(|s|)
  {
    if |s| > 0 && Digits.AllDigits(s) then
      Digits.ValueOfBound(s);
      Some(Digits.ValueOf(s))
    else None
  }

  /**
   * Integer division truncating toward zero, as Rust's `/` for a non-zero
   * divisor.  Rust panics on a zero divisor; this total stand-in gives 0 there.
   */
  function TruncDiv(a: int, b: int): int {
    if b == 0 then 0
    else
      var q := (if a < 0 then -a else a) / (if b < 0 then -b else b);
      if (a < 0) != (b < 0) then -q else q
  }

  /** `b` to the power `e` for `e >= 0`; 0 for a negative exponent. */
  function IntPow(b: int, e: int): int
    decreases e
  {
    if e < 0 then 0 else if e == 0 then 1 else b * IntPow(b, e - 1)
  }

  /** Mathematical integers: the numeric type of the examples, whose values are all whole numbers. */
  function IntDomain(): Domain<int> {
    Domain("int", ParseInt,
      (a: int, b: int) => a + b,
      (a: int, b: int) => a - b,
      (a: int, b: int) => a * b,
      TruncDiv,
      IntPow)
  }
}
