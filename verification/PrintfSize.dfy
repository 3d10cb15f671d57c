/** Saturating size arithmetic (intl/xsize.h). */
module PrintfSize {
  import opened Basics

  const SIZE_MAX: nat := 0xffff_ffff

  type Size = x: int | 0 <= x <= SIZE_MAX

  /** The sum of two sizes in wrapping machine arithmetic, with the overflow check after it. */
  function Xsum(size1: Size, size2: Size): (r: Size)
    ensures r == if size1 + size2 <= SIZE_MAX then size1 + size2 else SIZE_MAX
  {
    var sum := (size1 + size2) % (SIZE_MAX + 1);
    if sum >= size1 then sum else SIZE_MAX
  }

  function Xsum4(a: Size, b: Size, c: Size, d: Size): (r: Size)
    ensures r == if a + b + c + d <= SIZE_MAX then a + b + c + d else SIZE_MAX
  {
    Xsum(Xsum(Xsum(a, b), c), d)
  }

  function Xmax(a: Size, b: Size): Size { if a >= b then a else b }

  /** The check divides, so the product cannot wrap. */
  function Xtimes(n: Size, elsize: nat): (r: Size)
    requires elsize > 0
    ensures r == if n * elsize <= SIZE_MAX then n * elsize else SIZE_MAX
  {
    XtimesBound(n, elsize);
    if n <= SIZE_MAX / elsize then n * elsize else SIZE_MAX
  }

  lemma {:induction false} XtimesBound(n: nat, e: nat)
    requires e > 0
    ensures n <= SIZE_MAX / e <==> n * e <= SIZE_MAX
  {
    Quotient(SIZE_MAX, n, e);
  }

  lemma {:induction false} Quotient(m: nat, n: nat, e: nat)
    requires e > 0
    ensures n <= m / e <==> n * e <= m
  {
    var q := m / e;
    assert q * e <= m < q * e + e;
    if n <= q {
      Grows(n, q, e);
    } else {
      Grows(q + 1, n, e);
      assert (q + 1) * e == q * e + e;
    }
  }

  lemma {:induction false} Grows(a: nat, b: nat, e: nat)
    requires a <= b
    ensures a * e <= b * e
  {
  }

  predicate Overflow(size: Size) { size == SIZE_MAX }

  function Saturated(n: nat): Size { if n <= SIZE_MAX then n else SIZE_MAX }

  /** One more digit, as all digit loops of the parser take it. */
  lemma {:induction false} DigitStep(s: string, c: char)
    requires IsDigit(c)
    ensures DigitsValue(s + [c]) == 10 * DigitsValue(s) + Digit(c)
    ensures Saturated(DigitsValue(s + [c])) == Xsum(Xtimes(Saturated(DigitsValue(s)), 10), Digit(c))
  {
    var t := s + [c];
    assert t[..|t|-1] == s;
  }
}
