/**
 * Decimal digit strings: their numeric value and the shortest decimal
 * rendering of a natural number (what Rust's `{}` prints for an unsigned
 * integer).
 */
module Digits {

  predicate IsDigit(c: char) {
    '0' <= c <= '9'
  }

  predicate AllDigits(s: string) {
    forall k :: 0 <= k < |s| ==> IsDigit(s[k])
  }

  function DigitValue(c: char): (v: nat)
    requires IsDigit(c)
    ensures v < 10
  {
    c as int - '0' as int
  }

  function DigitChar(v: nat): (c: char)
    requires v < 10
    ensures IsDigit(c) && DigitValue(c) == v
  {
    ('0' as int + v) as char
  }

  function Pow10(n: nat): (p: nat)
    ensures p >= 1
  {
    if n == 0 then 1 else 10 * Pow10(n - 1)
  }

  /** The number a digit string denotes, most significant digit first; "" denotes 0. */
  function ValueOf(s: string): nat
    requires AllDigits(s)
  {
    if s == [] then 0 else ValueOf(s[..|s| - 1]) * 10 + DigitValue(s[|s| - 1])
  }

  lemma {:induction false} ValueOfBound(s: string)
    requires AllDigits(s)
    ensures ValueOf(s) < Pow10(|s|)
  {
    if s != [] {
      ValueOfBound(s[..|s| - 1]);
    }
  }

  /** Appending digits shifts the value of the prefix left by their count. */
  lemma {:induction false} ValueOfConcat(a: string, b: string)
    requires AllDigits(a) && AllDigits(b)
    ensures AllDigits(a + b)
    ensures ValueOf(a + b) == ValueOf(a) * Pow10(|b|) + ValueOf(b)
  {
    assert AllDigits(a + b) by {
      forall k | 0 <= k < |a + b| ensures IsDigit((a + b)[k]) {
        if k >= |a| { assert (a + b)[k] == b[k - |a|]; }
      }
    }
    if b == [] {
      assert a + b == a;
    } else {
      var b' := b[..|b| - 1];
      assert (a + b)[..|a + b| - 1] == a + b';
      ValueOfConcat(a, b');
      ShiftStep(ValueOf(a), ValueOf(b'), Pow10(|b'|), DigitValue(b[|b| - 1]));
    }
  }

  lemma ShiftStep(x: nat, y: nat, p: nat, d: nat)
    ensures (x * p + y) * 10 + d == x * (10 * p) + (y * 10 + d)
  {
  }

  /** The shortest decimal rendering of `n`: "0" for zero, no leading zeros otherwise. */
  function Show(n: nat): (s: string)
    ensures |s| >= 1 && AllDigits(s)
    ensures n > 0 ==> s[0] != '0'
  {
    if n < 10 then [DigitChar(n)] else Show(n / 10) + [DigitChar(n % 10)]
  }

  lemma {:induction false} ValueOfShow(n: nat)
    ensures ValueOf(Show(n)) == n
  {
    if n >= 10 {
      var s := Show(n);
      assert s[..|s| - 1] == Show(n / 10);
      ValueOfShow(n / 10);
    }
  }

  lemma {:induction false} ShowLength(n: nat, k: nat)
    requires k >= 1 && n < Pow10(k)
    ensures |Show(n)| <= k
  {
    if n >= 10 {
      ShowLength(n / 10, k - 1);
    }
  }

  /** A digit string that does not start with `0` denotes a positive number. */
  lemma {:induction false} LeadingDigitPositive(s: string)
    requires |s| >= 1 && AllDigits(s) && s[0] != '0'
    ensures ValueOf(s) >= 1
  {
    if |s| > 1 {
      LeadingDigitPositive(s[..|s| - 1]);
    } else {
      assert s[..0] == [];
    }
  }

  /** Reading a digit string without redundant leading zeros and showing its value gives it back. */
  lemma {:induction false} ShowValueOf(s: string)
    requires |s| >= 1 && AllDigits(s)
    requires s[0] != '0' || |s| == 1
    ensures Show(ValueOf(s)) == s
  {
    var c := s[|s| - 1];
    var p := s[..|s| - 1];
    var n := ValueOf(s);
    assert n == ValueOf(p) * 10 + DigitValue(c);
    assert DigitChar(DigitValue(c)) == c;
    if |s| > 1 {
      ShowValueOf(p);
      LeadingDigitPositive(p);
      assert n / 10 == ValueOf(p) && n % 10 == DigitValue(c);
      assert s == p + [c];
    } else {
      assert p == [];
    }
  }

  function Zeros(k: nat): (s: string)
    ensures |s| == k && AllDigits(s) && ValueOf(s) == 0
  {
    if k == 0 then [] else
      var s := Zeros(k - 1) + ['0'];
      assert s[..|s| - 1] == Zeros(k - 1);
      s
  }

  /** `n` rendered in exactly `width` digits, with leading zeros. */
  function Padded(n: nat, width: nat): (s: string)
    requires width >= 1 && n < Pow10(width)
    ensures |s| == width && AllDigits(s) && ValueOf(s) == n
  {
    ShowLength(n, width);
    ValueOfShow(n);
    ValueOfConcat(Zeros(width - |Show(n)|), Show(n));
    Zeros(width - |Show(n)|) + Show(n)
  }

  /** Two digit strings of the same length with the same value are the same string. */
  lemma {:induction false} DigitsUnique(a: string, b: string)
    requires |a| == |b| && AllDigits(a) && AllDigits(b) && ValueOf(a) == ValueOf(b)
    ensures a == b
    decreases |a|
  {
    if |a| > 0 {
      var n := |a| - 1;
      assert DigitValue(a[n]) == DigitValue(b[n]) && ValueOf(a[..n]) == ValueOf(b[..n]);
      DigitsUnique(a[..n], b[..n]);
      assert a == a[..n] + [a[n]] && b == b[..n] + [b[n]];
    }
  }

  /** Padding the value of a digit string to its own length gives the string back. */
  lemma PaddedOfDigits(f: string)
    requires |f| >= 1 && AllDigits(f)
    ensures ValueOf(f) < Pow10(|f|)
    ensures Padded(ValueOf(f), |f|) == f
  {
    ValueOfBound(f);
    DigitsUnique(Padded(ValueOf(f), |f|), f);
  }
}
