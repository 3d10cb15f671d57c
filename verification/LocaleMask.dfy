/** Bit masks of locale name parts (intl/loadinfo.h) and the bit count of intl/l10nflist.c. */
module LocaleMask {

  const CEN_REVISION := 1
  const CEN_SPONSOR := 2
  const CEN_SPECIAL := 4
  const XPG_NORM_CODESET := 8
  const XPG_CODESET := 16
  const TERRITORY := 32
  const CEN_AUDIENCE := 64
  const XPG_MODIFIER := 128

  /** `(mask & bit) != 0` for a single bit. */
  predicate Has(mask: nat, bit: nat)
    requires bit > 0
  {
    (mask / bit) % 2 == 1
  }

  /** `(cnt & ~mask) == 0`. */
  predicate Sub(cnt: nat, mask: nat) {
    cnt == 0 || (cnt % 2 <= mask % 2 && Sub(cnt / 2, mask / 2))
  }

  predicate Cen(m: nat) { Has(m, CEN_REVISION) || Has(m, CEN_SPONSOR) || Has(m, CEN_SPECIAL) || Has(m, CEN_AUDIENCE) }

  predicate Xpg(m: nat) { Has(m, XPG_CODESET) || Has(m, XPG_NORM_CODESET) || Has(m, XPG_MODIFIER) }

  /** The bit patterns the inheritance list runs over. */
  predicate Allowed(cnt: nat, mask: nat) {
    Sub(cnt, mask) && (!Cen(cnt) || !Xpg(cnt)) && (!Has(cnt, XPG_CODESET) || !Has(cnt, XPG_NORM_CODESET))
  }

  // Counting

  function PopCount(m: nat): nat { if m == 0 then 0 else m % 2 + PopCount(m / 2) }

  function Pow2(k: nat): nat { if k == 0 then 1 else 2 * Pow2(k - 1) }

  /** How many numbers below `n` have no bit outside `mask`. */
  function Subsets(n: nat, mask: nat): nat {
    if n == 0 then 0 else Subsets(n - 1, mask) + if Sub(n - 1, mask) then 1 else 0
  }

  lemma {:induction false} SubHalf(n: nat, mask: nat)
    ensures Sub(2 * n, mask) <==> Sub(n, mask / 2)
    ensures Sub(2 * n + 1, mask) <==> mask % 2 == 1 && Sub(n, mask / 2)
  {
    assert (2 * n) / 2 == n && (2 * n) % 2 == 0 && (2 * n + 1) / 2 == n && (2 * n + 1) % 2 == 1;
  }

  lemma {:induction false} SubsetsHalf(n: nat, mask: nat)
    ensures Subsets(2 * n, mask) == (1 + mask % 2) * Subsets(n, mask / 2)
  {
    if n > 0 {
      SubsetsHalf(n - 1, mask);
      SubHalf(n - 1, mask);
      assert Subsets(2 * n, mask) == Subsets(2 * n - 2, mask) + (if Sub(2 * n - 2, mask) then 1 else 0) + (if Sub(2 * n - 1, mask) then 1 else 0);
    }
  }

  lemma {:induction false} SubsetsOdd(half: nat, mask: nat)
    requires mask == 2 * half + 1
    ensures Subsets(mask + 1, mask) == 2 * Subsets(half + 1, half)
  {
    SubsetsHalf(half + 1, mask);
  }

  lemma {:induction false} SubsetsEven(half: nat, mask: nat)
    requires mask == 2 * half
    ensures Subsets(mask + 1, mask) == Subsets(half + 1, half)
  {
    SubsetsHalf(half + 1, mask);
    SubHalf(half, mask);
    assert Subsets(mask + 2, mask) == Subsets(mask + 1, mask) + (if Sub(2 * half + 1, mask) then 1 else 0);
  }

  /** A mask with k bits has 2^k subsets among the numbers up to itself. */
  lemma {:induction false} SubsetsAll(mask: nat)
    ensures Subsets(mask + 1, mask) == Pow2(PopCount(mask)) && Sub(mask, mask)
  {
    if mask == 0 {
      assert Subsets(1, 0) == 1;
    } else {
      hide Subsets;
      var half := mask / 2;
      SubsetsAll(half);
      if mask % 2 == 1 {
        SubsetsOdd(half, mask);
      } else {
        SubsetsEven(half, mask);
      }
    }
  }

  // `pop`, on the 16 bits it is made for

  /** `x & y`. */
  function And(x: nat, y: nat): nat {
    if x == 0 || y == 0 then 0 else 2 * And(x / 2, y / 2) + if x % 2 == 1 && y % 2 == 1 then 1 else 0
  }

  /** `pop`: add up neighbouring fields of 1, 2, 4 and 8 bits. */
  method Pop(mask: nat) returns (x: nat)
    requires mask < 0x1_0000
    ensures x == PopCount(mask)
  {
    hide *;
    ghost var h := Split(mask);
    x := And(mask, 0xaaaa) / 2 + And(mask, 0x5555);
    PairStep(h);
    x := And(x, 0xcccc) / 4 + And(x, 0x3333);
    NibbleStep(h);
    x := And(x / 16 + x, 0x0f0f);
    ByteStep(h);
    x := And(x / 256 + x, 0xff);
    WordStep(h);
    CountSplit(h);
  }

  /** A hexadecimal digit, lowest bit first. */
  datatype Digit = Digit(p: nat, q: nat, r: nat, s: nat) {
    predicate Ok() { p < 2 && q < 2 && r < 2 && s < 2 }

    function Value(): nat { p + 2 * q + 4 * r + 8 * s }

    function Low(): nat { p + q }

    function Up(): nat { r + s }

    function Count(): nat { p + q + r + s }
  }

  function ToDigit(n: nat): (d: Digit)
    requires n < 16
    ensures d.Ok() && d.Value() == n
  {
    var s := if n >= 8 then 1 else 0;
    var n3 := n - 8 * s;
    var r := if n3 >= 4 then 1 else 0;
    var n2 := n3 - 4 * r;
    var q := if n2 >= 2 then 1 else 0;
    Digit(n2 - 2 * q, q, r, s)
  }

  /** Four digits, lowest first. */
  function Number(a: nat, b: nat, c: nat, d: nat): nat { a + 16 * b + 256 * c + 4096 * d }

  datatype Hex = Hex(a: Digit, b: Digit, c: Digit, d: Digit) {
    predicate Ok() { a.Ok() && b.Ok() && c.Ok() && d.Ok() }

    function Value(): nat { Number(a.Value(), b.Value(), c.Value(), d.Value()) }

    function Pairs(): nat {
      Number(a.Low() + 4 * a.Up(), b.Low() + 4 * b.Up(), c.Low() + 4 * c.Up(), d.Low() + 4 * d.Up())
    }

    function Nibbles(): nat { Number(a.Count(), b.Count(), c.Count(), d.Count()) }

    function Bytes(): nat { a.Count() + b.Count() + 256 * (c.Count() + d.Count()) }

    function Count(): nat { a.Count() + b.Count() + c.Count() + d.Count() }
  }

  function Split(x: nat): (h: Hex)
    requires x < 0x1_0000
    ensures h.Ok() && h.Value() == x
  {
    Hex(ToDigit(x % 16), ToDigit(x / 16 % 16), ToDigit(x / 16 / 16 % 16), ToDigit(x / 16 / 16 / 16))
  }

  lemma {:induction false} AndBit(x: nat, y: nat, a: nat, b: nat)
    requires a < 2 && b < 2
    ensures And(2 * x + a, 2 * y + b) == 2 * And(x, y) + Both(a, b)
  {
    assert (2 * x + a) / 2 == x && (2 * x + a) % 2 == a && (2 * y + b) / 2 == y && (2 * y + b) % 2 == b;
  }

  function Both(a: nat, b: nat): nat { if a == 1 && b == 1 then 1 else 0 }

  function Meet(n: Digit, m: Digit): Digit { Digit(Both(n.p, m.p), Both(n.q, m.q), Both(n.r, m.r), Both(n.s, m.s)) }

  /** And works on each binary digit of a hexadecimal digit. */
  lemma {:induction false} AndDigit(x: nat, y: nat, n: Digit, m: Digit)
    requires n.Ok() && m.Ok()
    ensures And(16 * x + n.Value(), 16 * y + m.Value()) == 16 * And(x, y) + Meet(n, m).Value()
  {
    hide And;
    AndBit(8 * x + n.q + 2 * n.r + 4 * n.s, 8 * y + m.q + 2 * m.r + 4 * m.s, n.p, m.p);
    AndBit(4 * x + n.r + 2 * n.s, 4 * y + m.r + 2 * m.s, n.q, m.q);
    AndBit(2 * x + n.s, 2 * y + m.s, n.r, m.r);
    AndBit(x, y, n.s, m.s);
  }

  lemma {:induction false} AndHex(x: Hex, y: Hex)
    requires x.Ok() && y.Ok()
    ensures And(x.Value(), y.Value()) ==
      Number(Meet(x.a, y.a).Value(), Meet(x.b, y.b).Value(), Meet(x.c, y.c).Value(), Meet(x.d, y.d).Value())
  {
    hide And, Meet, Digit.Value;
    var x1, y1 := x.b.Value() + 16 * x.c.Value() + 256 * x.d.Value(), y.b.Value() + 16 * y.c.Value() + 256 * y.d.Value();
    var x2, y2 := x.c.Value() + 16 * x.d.Value(), y.c.Value() + 16 * y.d.Value();
    AndDigit(x1, y1, x.a, y.a);
    AndDigit(x2, y2, x.b, y.b);
    AndDigit(x.d.Value(), y.d.Value(), x.c, y.c);
    AndDigit(0, 0, x.d, y.d);
    AndNone();
  }

  lemma {:induction false} AndNone()
    ensures And(0, 0) == 0
  {
  }

  function Zero(): Digit { Digit(0, 0, 0, 0) }

  function Full(): Digit { Digit(1, 1, 1, 1) }

  lemma {:induction false} BothIs(a: nat)
    requires a < 2
    ensures Both(a, 1) == a && Both(a, 0) == 0
  {
  }

  lemma {:induction false} MeetConstants(n: Digit)
    requires n.Ok()
    ensures Meet(n, Digit(0, 1, 0, 1)).Value() == 2 * n.q + 8 * n.s && Meet(n, Digit(1, 0, 1, 0)).Value() == n.p + 4 * n.r
    ensures Meet(n, Digit(0, 0, 1, 1)).Value() == 4 * n.r + 8 * n.s && Meet(n, Digit(1, 1, 0, 0)).Value() == n.p + 2 * n.q
    ensures Meet(n, Full()).Value() == n.Value() && Meet(n, Zero()).Value() == 0
  {
    hide Both;
    BothIs(n.p);
    BothIs(n.q);
    BothIs(n.r);
    BothIs(n.s);
  }

  lemma {:induction false} PairStep(h: Hex)
    requires h.Ok()
    ensures And(h.Value(), 0xaaaa) / 2 + And(h.Value(), 0x5555) == h.Pairs()
  {
    hide And, Meet;
    var a, f := Digit(0, 1, 0, 1), Digit(1, 0, 1, 0);
    assert Hex(a, a, a, a).Value() == 0xaaaa && Hex(f, f, f, f).Value() == 0x5555;
    AndHex(h, Hex(a, a, a, a));
    AndHex(h, Hex(f, f, f, f));
    MeetConstants(h.a);
    MeetConstants(h.b);
    MeetConstants(h.c);
    MeetConstants(h.d);
    assert And(h.Value(), 0xaaaa) == 2 * Number(h.a.q + 4 * h.a.s, h.b.q + 4 * h.b.s, h.c.q + 4 * h.c.s, h.d.q + 4 * h.d.s);
  }

  /** The two counts of a digit, as a digit. */
  function Counts(n: Digit): (d: Digit)
    requires n.Ok()
    ensures d.Ok() && d.Value() == n.Low() + 4 * n.Up() && d.p + 2 * d.q == n.Low() && d.r + 2 * d.s == n.Up()
  {
    Digit(if n.Low() == 1 then 1 else 0, if n.Low() == 2 then 1 else 0, if n.Up() == 1 then 1 else 0, if n.Up() == 2 then 1 else 0)
  }

  lemma {:induction false} NibbleStep(h: Hex)
    requires h.Ok()
    ensures And(h.Pairs(), 0xcccc) / 4 + And(h.Pairs(), 0x3333) == h.Nibbles()
  {
    hide And, Meet, Counts;
    var x := Hex(Counts(h.a), Counts(h.b), Counts(h.c), Counts(h.d));
    var c, t := Digit(0, 0, 1, 1), Digit(1, 1, 0, 0);
    assert Hex(c, c, c, c).Value() == 0xcccc && Hex(t, t, t, t).Value() == 0x3333;
    AndHex(x, Hex(c, c, c, c));
    AndHex(x, Hex(t, t, t, t));
    MeetConstants(x.a);
    MeetConstants(x.b);
    MeetConstants(x.c);
    MeetConstants(x.d);
    assert x.Value() == h.Pairs();
    assert And(x.Value(), 0xcccc) == 4 * Number(h.a.Up(), h.b.Up(), h.c.Up(), h.d.Up());
  }

  function HexOf(a: nat, b: nat, c: nat, d: nat): (h: Hex)
    requires a < 16 && b < 16 && c < 16 && d < 16
    ensures h.Ok() && h.Value() == Number(a, b, c, d)
    ensures h.a.Value() == a && h.b.Value() == b && h.c.Value() == c && h.d.Value() == d
  {
    Hex(ToDigit(a), ToDigit(b), ToDigit(c), ToDigit(d))
  }

  lemma {:induction false} DigitsIs()
    ensures Full().Ok() && Zero().Ok() && Full().Value() == 15 && Zero().Value() == 0 && Full() != Zero()
  {
  }

  lemma {:induction false} HexIs(x: Hex)
    ensures x.Value() == x.a.Value() + 16 * x.b.Value() + 256 * x.c.Value() + 4096 * x.d.Value()
  {
    hide Digit.Value;
  }

  lemma {:induction false} NumberIs(a: nat, b: nat, c: nat, d: nat)
    ensures Number(a, b, c, d) == a + 16 * b + 256 * c + 4096 * d
  {
  }

  /** And keeps a digit under 15 and drops one under 0. */
  lemma {:induction false} KeepDigits(x: Hex, m: Hex)
    requires x.Ok() && (m.a == Full() || m.a == Zero()) && (m.b == Full() || m.b == Zero()) && (m.c == Full() || m.c == Zero()) && (m.d == Full() || m.d == Zero())
    ensures And(x.Value(), m.Value()) == Number(if m.a == Full() then x.a.Value() else 0, if m.b == Full() then x.b.Value() else 0,
                                                if m.c == Full() then x.c.Value() else 0, if m.d == Full() then x.d.Value() else 0)
  {
    hide And, Meet, Digit.Value, Hex.Value, Number, Full, Zero;
    DigitsIs();
    AndHex(x, m);
    MeetConstants(x.a);
    MeetConstants(x.b);
    MeetConstants(x.c);
    MeetConstants(x.d);
  }

  /** And with 0x0f0f keeps the first and the third digit. */
  lemma {:induction false} KeepOdd(a: nat, b: nat, c: nat, d: nat)
    requires a < 16 && b < 16 && c < 16 && d < 16
    ensures And(Number(a, b, c, d), 0x0f0f) == a + 256 * c
  {
    hide *;
    DigitsIs();
    var x, m := HexOf(a, b, c, d), Hex(Full(), Zero(), Full(), Zero());
    HexIs(m);
    KeepDigits(x, m);
    NumberIs(a, 0, c, 0);
  }

  /** And with 0xff keeps the first two digits. */
  lemma {:induction false} KeepLow(a: nat, b: nat, c: nat, d: nat)
    requires a < 16 && b < 16 && c < 16 && d < 16
    ensures And(Number(a, b, c, d), 0xff) == a + 16 * b
  {
    hide *;
    DigitsIs();
    var x, m := HexOf(a, b, c, d), Hex(Full(), Full(), Zero(), Zero());
    HexIs(m);
    KeepDigits(x, m);
    NumberIs(a, b, 0, 0);
  }

  lemma {:induction false} ByteStep(h: Hex)
    requires h.Ok()
    ensures And(h.Nibbles() / 16 + h.Nibbles(), 0x0f0f) == h.Bytes()
  {
    hide And, Number;
    var a, b, c, d := h.a.Count(), h.b.Count(), h.c.Count(), h.d.Count();
    ShiftDigits(a, b, c, d);
    KeepOdd(a + b, b + c, c + d, d);
  }

  lemma {:induction false} ShiftDigits(a: nat, b: nat, c: nat, d: nat)
    requires a < 16
    ensures Number(a, b, c, d) / 16 + Number(a, b, c, d) == Number(a + b, b + c, c + d, d)
  {
    var n := b + 16 * c + 256 * d;
    assert Number(a, b, c, d) == 16 * n + a;
    assert (16 * n + a) / 16 == n;
  }

  lemma {:induction false} WordStep(h: Hex)
    requires h.Ok()
    ensures And(h.Bytes() / 256 + h.Bytes(), 0xff) == h.Count()
  {
    hide And;
    var low, high := h.a.Count() + h.b.Count(), h.c.Count() + h.d.Count();
    assert h.Bytes() / 256 == high;
    var k := low + high;
    if k < 16 {
      KeepLow(k, 0, high, 0);
    } else {
      KeepLow(k - 16, 1, high, 0);
    }
  }

  lemma {:induction false} CountBit(x: nat, b: nat, y: nat)
    requires b < 2 && y == 2 * x + b
    ensures PopCount(y) == PopCount(x) + b
  {
    assert y / 2 == x && y % 2 == b;
  }

  lemma {:induction false} CountDigit(x: nat, n: Digit, y: nat)
    requires n.Ok() && y == 16 * x + n.Value()
    ensures PopCount(y) == PopCount(x) + n.Count()
  {
    hide PopCount;
    var x1, x2, x3 := 8 * x + n.q + 2 * n.r + 4 * n.s, 4 * x + n.r + 2 * n.s, 2 * x + n.s;
    CountBit(x1, n.p, y);
    CountBit(x2, n.q, x1);
    CountBit(x3, n.r, x2);
    CountBit(x, n.s, x3);
  }

  lemma {:induction false} CountSplit(h: Hex)
    requires h.Ok()
    ensures PopCount(h.Value()) == h.Count()
  {
    assert PopCount(0) == 0;
    hide PopCount, Digit.Count, Digit.Value;
    var x3 := h.d.Value();
    var x2 := h.c.Value() + 16 * x3;
    var x1 := h.b.Value() + 16 * x2;
    CountDigit(x1, h.a, h.Value());
    CountDigit(x2, h.b, x1);
    CountDigit(x3, h.c, x2);
    CountDigit(0, h.d, x3);
  }
}
