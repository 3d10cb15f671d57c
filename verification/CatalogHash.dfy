/** The hash index of message catalogs (intl/hash-string.h, intl/dcigettext.c, intl/loadmsgcat.c):
    the string hash, and the probe sequence shared by lookup and augmentation. */
module CatalogHash {
  import opened Basics

  const WORD := 0x1_0000_0000
  const TOP := 0x1000_0000

  /** Exclusive or, bit by bit. */
  function Xor(x: nat, y: nat): nat {
    if x == 0 then y else if y == 0 then x else (x + y) % 2 + 2 * Xor(x / 2, y / 2)
  }

  /** One round of hash_string, in 32-bit words. */
  function HashStep(hval: nat, c: nat): nat {
    var h := (hval * 16 % WORD + c) % WORD;
    var g := h - h % TOP;
    if g != 0 then Xor(Xor(h, g / 0x100_0000), g) else h
  }

  /** The hash of the first `n` characters. */
  function HashTo(s: CString, n: nat): nat
    requires n <= |s|
  {
    if n == 0 then 0 else HashStep(HashTo(s, n - 1), s[n-1])
  }

  function Hash(s: CString): nat { HashTo(s, |s|) }

  method HashString(s: CString) returns (hval: nat)
    ensures hval == Hash(s)
  {
    hide Xor;
    hval := 0;
    var i := 0;
    while i < |s|
      invariant 0 <= i <= |s| && hval == HashTo(s, i)
    {
      hval := hval * 16 % WORD;
      hval := (hval + s[i]) % WORD;
      var g := hval - hval % TOP;
      if g != 0 {
        hval := Xor(hval, g / 0x100_0000);
        hval := Xor(hval, g);
      }
      i := i + 1;
    }
  }

  // What the hash is

  function Pow2(k: nat): nat { if k == 0 then 1 else 2 * Pow2(k - 1) }

  lemma {:induction false} TopIs()
    ensures Pow2(28) == TOP
  {
    assert Pow2(7) == 128;
    assert Pow2(14) == 0x4000;
    assert Pow2(21) == 0x20_0000;
  }

  lemma {:induction false} XorStep(x: nat, y: nat)
    ensures Xor(x, y) == (x + y) % 2 + 2 * Xor(x / 2, y / 2)
  {
    assert x == x % 2 + 2 * (x / 2) && y == y % 2 + 2 * (y / 2);
  }

  /** The low `k` bits and the others are combined separately. */
  lemma {:induction false} XorSplit(x: nat, y: nat, low: nat, high: nat, k: nat)
    requires low < Pow2(k) && high < Pow2(k)
    ensures Xor(low + Pow2(k) * x, high + Pow2(k) * y) == Xor(low, high) + Pow2(k) * Xor(x, y)
    ensures Xor(low, high) < Pow2(k)
  {
    hide Xor;
    if k == 0 {
      XorNone(0);
    } else {
      var p := Pow2(k - 1);
      Halves(low, p, x);
      Halves(high, p, y);
      XorStep(low + 2 * p * x, high + 2 * p * y);
      XorStep(low, high);
      XorSplit(x, y, low / 2, high / 2, k - 1);
      SameParity(low, high, p * x, p * y);
      Doubled(p, Xor(x, y));
    }
  }

  lemma {:induction false} Halves(low: nat, p: nat, x: nat)
    requires low < 2 * p
    ensures low / 2 < p && 2 * p * x == 2 * (p * x) && (low + 2 * p * x) / 2 == low / 2 + p * x
  {
    assert 2 * p * x == 2 * (p * x);
  }

  lemma {:induction false} SameParity(a: nat, b: nat, c: nat, d: nat)
    ensures (a + 2 * c + (b + 2 * d)) % 2 == (a + b) % 2
  {
    assert a + 2 * c + (b + 2 * d) == (a + b) + 2 * (c + d);
  }

  lemma {:induction false} Doubled(p: nat, x: nat)
    ensures 2 * (p * x) == 2 * p * x
  {
  }

  function BitAt(n: nat, k: nat): nat { if k == 0 then n % 2 else BitAt(n / 2, k - 1) }

  /** Each bit of the exclusive or is set when exactly one of the two is. */
  lemma {:induction false} XorBits(x: nat, y: nat, k: nat)
    ensures BitAt(Xor(x, y), k) == if BitAt(x, k) != BitAt(y, k) then 1 else 0
  {
    hide Xor;
    XorStep(x, y);
    if k > 0 {
      XorBits(x / 2, y / 2, k - 1);
    }
  }

  lemma {:induction false} XorNone(x: nat)
    ensures Xor(x, 0) == x && Xor(0, x) == x
  {
  }

  lemma {:induction false} XorSelf(x: nat)
    ensures Xor(x, x) == 0
  {
    if x > 0 {
      XorSelf(x / 2);
    }
  }

  /** The two exclusive ors of a round fold the top four bits into bits 4 to 7. */
  lemma {:induction false} FoldIs(h: nat)
    requires h < WORD
    ensures var t := h / TOP;
      && h - h % TOP == TOP * t && (TOP * t) / 0x100_0000 == 16 * t && t < 16
      && Xor(Xor(h, 16 * t), TOP * t) == Xor(h % TOP, 16 * t) < TOP
  {
    hide Xor, Pow2;
    TopIs();
    var t, low := h / TOP, h % TOP;
    XorSplit(t, 0, low, 16 * t, 28);
    XorNone(t);
    var x := Xor(low, 16 * t);
    XorSplit(t, t, x, 0, 28);
    XorSelf(t);
    XorNone(x);
  }

  /** What a round makes of h = 16 * hash + c: h itself while that stays below 2^28; otherwise the top
      four of its 32 bits are folded into bits 4 to 7; and what does not fit into 32 bits is lost. */
  function Rolled(h: nat): nat {
    if h < TOP then h else if h < WORD then Xor(h % TOP, 16 * (h / TOP)) else h - WORD
  }

  lemma {:induction false} StepRolls(hval: nat, c: nat)
    requires hval < TOP && c < 256
    ensures HashStep(hval, c) == Rolled(16 * hval + c) < TOP
  {
    hide Xor;
    var h := 16 * hval + c;
    if h < WORD {
      FoldIs(h);
    }
  }

  /** One character more. */
  lemma {:induction false} HashNext(s: CString, c: int)
    requires 0 < c < 256
    ensures var h := 16 * Hash(s) + c;
      && Hash(s) < 0x1000_0000
      && (h < 0x1000_0000 ==> Hash(s + [c]) == h)
      && (0x1000_0000 <= h < 0x1_0000_0000 ==> Hash(s + [c]) == Xor(h % 0x1000_0000, 16 * (h / 0x1000_0000)))
      && (h >= 0x1_0000_0000 ==> Hash(s + [c]) == h - 0x1_0000_0000)
  {
    hide Xor, HashStep;
    HashPrefix(s, [c], |s|);
    HashClear(s, |s|);
    assert (s + [c])[|s|] == c;
    StepRolls(Hash(s), c);
  }

  lemma {:induction false} HashPrefix(s: CString, t: CString, n: nat)
    requires n <= |s|
    ensures HashTo(s + t, n) == HashTo(s, n)
  {
    hide HashStep;
    if n > 0 {
      HashPrefix(s, t, n - 1);
    }
  }

  /** The top four bits of a hash are always clear, so the next shift loses nothing. */
  lemma {:induction false} HashClear(s: CString, n: nat)
    requires n <= |s|
    ensures HashTo(s, n) < 0x1000_0000
  {
    hide HashStep, Rolled;
    if n > 0 {
      HashClear(s, n - 1);
      StepRolls(HashTo(s, n - 1), s[n-1]);
    }
  }

  /** The characters as the digits of a number to the base 16, most significant first. */
  function Positional(s: CString): nat {
    if s == [] then 0 else 16 * Positional(s[..|s|-1]) + s[|s|-1]
  }

  /** The hash is this number exactly as long as it has no more than 28 bits. */
  lemma {:induction false} HashPositional(s: CString)
    ensures Hash(s) == Positional(s) <==> Positional(s) < 0x1000_0000
  {
    hide HashTo, HashStep;
    HashClear(s, |s|);
    if Positional(s) < 0x1000_0000 {
      if s == [] {
        HashEmpty();
      } else {
        var front := s[..|s|-1];
        HashPositional(front);
        HashNext(front, s[|s|-1]);
        assert front + [s[|s|-1]] == s;
      }
    }
  }

  lemma {:induction false} HashEmpty()
    ensures Hash([]) == 0
  {
  }

  /** In particular for five characters, and for six that are not above 240. */
  lemma {:induction false} ShortHash(s: CString)
    requires |s| <= 5 || (|s| == 6 && forall i :: 0 <= i < 6 ==> s[i] <= 240)
    ensures Hash(s) == Positional(s)
  {
    hide Hash, Positional;
    HashPositional(s);
    PositionalBound(s, if |s| == 6 then 240 else 255);
    assert Pow16(3) == 4096 && Pow16(6) == 0x100_0000;
    PowersGrow(|s|, if |s| == 6 then 6 else 5);
  }

  function Pow16(n: nat): nat { if n == 0 then 1 else 16 * Pow16(n - 1) }

  lemma {:induction false} PowersGrow(m: nat, n: nat)
    requires m <= n
    ensures Pow16(m) <= Pow16(n)
  {
    if m < n {
      PowersGrow(m, n - 1);
    }
  }

  lemma {:induction false} PositionalBound(s: CString, top: nat)
    requires forall i :: 0 <= i < |s| ==> s[i] <= top
    ensures 15 * Positional(s) <= top * (Pow16(|s|) - 1)
  {
    if s != [] {
      PositionalBound(s[..|s|-1], top);
      assert top * (16 * Pow16(|s| - 1) - 1) == 16 * (top * (Pow16(|s| - 1) - 1)) + 15 * top;
    }
  }

  lemma {:induction false} PositionalNext(s: CString, c: int)
    requires 0 < c < 256
    ensures Positional(s + [c]) == 16 * Positional(s) + c && Positional([]) == 0
  {
    assert (s + [c])[..|s|] == s;
  }

  /** The last case of a round is real: after these six characters one more makes 33 bits. */
  lemma {:induction false} RollsOver()
    ensures Hash([255, 15, 15, 15, 15, 15]) == 0xfff_ffff
    ensures Hash([255, 15, 15, 15, 15, 15, 255]) == 239
  {
    hide Hash, Positional;
    var s: CString := [255, 15, 15, 15, 15, 15];
    PositionalNext([], 255);
    assert [] + [255] == [255];
    PositionalNext([255], 15);
    assert [255] + [15] == [255, 15];
    PositionalNext([255, 15], 15);
    assert [255, 15] + [15] == [255, 15, 15];
    PositionalNext([255, 15, 15], 15);
    assert [255, 15, 15] + [15] == [255, 15, 15, 15];
    PositionalNext([255, 15, 15, 15], 15);
    assert [255, 15, 15, 15] + [15] == [255, 15, 15, 15, 15];
    PositionalNext([255, 15, 15, 15, 15], 15);
    assert [255, 15, 15, 15, 15] + [15] == s;
    HashPositional(s);
    HashNext(s, 255);
    assert s + [255] == [255, 15, 15, 15, 15, 15, 255];
  }

  // Primes

  predicate Prime(p: nat) {
    p >= 2 && forall d :: 1 < d < p ==> p % d != 0
  }

  /** A prime that divides a product but is larger than one factor cannot be larger than the other. */
  lemma {:induction false} PrimeProduct(p: nat, a: nat, b: nat, m: int)
    requires Prime(p) && 0 < a < p && 0 < b && a * b == p * m
    ensures b >= p
    decreases a
  {
    if a == 1 {
      Multiple(p, b, m);
    } else {
      var q, r := p / a, p % a;
      Residue(p, a, b, q, r, m);
      PrimeProduct(p, r, b, b - q * m);
    }
  }

  lemma {:induction false} Multiple(p: nat, b: nat, m: int)
    requires 0 < b && b == p * m
    ensures b >= p
  {
    assert m > 0;
  }

  lemma {:induction false} Residue(p: nat, a: nat, b: nat, q: nat, r: nat, m: int)
    requires p == a * q + r && a * b == p * m
    ensures r * b == p * (b - q * m)
  {
    assert (a * q) * b == q * (a * b);
    assert r * b == p * b - (a * q) * b;
    assert q * (p * m) == p * (q * m);
    assert p * (b - q * m) == p * b - p * (q * m);
  }

  // The probe sequence

  predicate Sized(size: nat) { size > 2 && Prime(size) }

  function Increment(h: nat, size: nat): (i: nat)
    requires size > 2
    ensures 0 < i < size
  {
    1 + h % (size - 2)
  }

  /** How both loops step; never larger than `size` in between. */
  function Next(idx: nat, incr: nat, size: nat): (r: nat)
    requires idx < size && 0 < incr < size
    ensures r < size
  {
    if idx >= size - incr then idx - (size - incr) else idx + incr
  }

  /** The slot visited in round `j` for hash value `h`. */
  function Slot(h: nat, size: nat, j: nat): (r: nat)
    requires size > 2
    ensures r < size
  {
    if j == 0 then h % size else Next(Slot(h, size, j - 1), Increment(h, size), size)
  }

  lemma {:induction false} MulNext(j: int, c: int)
    ensures (j + 1) * c == j * c + c
  {
  }

  lemma {:induction false} SlotIs(h: nat, size: nat, j: nat) returns (m: nat)
    requires size > 2
    ensures h % size + j * Increment(h, size) == Slot(h, size, j) + m * size
  {
    if j == 0 {
      m := 0;
    } else {
      var k := SlotIs(h, size, j - 1);
      var c, s, t := Increment(h, size), Slot(h, size, j - 1), Slot(h, size, j);
      assert t == Next(s, c, size);
      hide Increment, Slot;
      MulNext(j - 1, c);
      MulNext(k, size);
      m := if s >= size - c then k + 1 else k;
    }
  }

  /** Round `j` visits the slot `j` increments behind the first, around the table. */
  lemma {:induction false} SlotAt(h: nat, size: nat, j: nat)
    requires size > 2
    ensures Slot(h, size, j) == (h + j * (1 + h % (size - 2))) % size
  {
    hide Slot;
    var m := SlotIs(h, size, j);
    Remainder(h + j * Increment(h, size), h / size + m, size, Slot(h, size, j));
  }

  lemma {:induction false} Remainder(n: nat, q: nat, size: nat, r: nat)
    requires size > 0 && r < size && n == q * size + r
    ensures n % size == r
  {
    assert n / size == q by {
      if n / size < q {
        Bigger(n / size + 1, q, size);
      } else if n / size > q {
        Bigger(q + 1, n / size, size);
      }
    }
  }

  lemma {:induction false} Bigger(a: nat, b: nat, size: nat)
    requires a <= b
    ensures a * size <= b * size
  {
  }

  /** No slot is visited twice within `size` rounds. */
  lemma {:induction false} SlotsDiffer(h: nat, size: nat, i: nat, j: nat)
    requires Sized(size) && i < j < size
    ensures Slot(h, size, i) != Slot(h, size, j)
  {
    hide Slot, Increment, Prime;
    if Slot(h, size, i) == Slot(h, size, j) {
      var c := Increment(h, size);
      var m := SlotIs(h, size, i);
      var n := SlotIs(h, size, j);
      Difference(i, j, c, m, n, size);
      PrimeProduct(size, j - i, c, n - m);
    }
  }

  lemma {:induction false} Difference(i: int, j: int, c: int, m: int, n: int, size: int)
    requires j * c - i * c == n * size - m * size
    ensures (j - i) * c == size * (n - m)
  {
    assert (j - i) * c == j * c - i * c;
    assert size * (n - m) == n * size - m * size;
  }

  function Visited(h: nat, size: nat, n: nat): set<nat>
    requires size > 2
  {
    if n == 0 then {} else Visited(h, size, n - 1) + {Slot(h, size, n - 1)}
  }

  lemma {:induction false} VisitedFrom(h: nat, size: nat, n: nat, x: nat) returns (j: nat)
    requires size > 2 && x in Visited(h, size, n)
    ensures j < n && Slot(h, size, j) == x && x < size
  {
    if x == Slot(h, size, n - 1) {
      j := n - 1;
    } else {
      j := VisitedFrom(h, size, n - 1, x);
    }
  }

  lemma {:induction false} VisitedMany(h: nat, size: nat, n: nat)
    requires Sized(size) && n <= size
    ensures |Visited(h, size, n)| == n
  {
    hide Prime, Slot;
    if n > 0 {
      VisitedMany(h, size, n - 1);
      if Slot(h, size, n - 1) in Visited(h, size, n - 1) {
        var j := VisitedFrom(h, size, n - 1, Slot(h, size, n - 1));
        SlotsDiffer(h, size, j, n - 1);
      }
    }
  }

  function Below(n: nat): (s: set<nat>)
    ensures forall x: nat :: x in s <==> x < n
    ensures |s| == n
  {
    if n == 0 then {} else Below(n - 1) + {n - 1}
  }

  lemma {:induction false} SameSize(a: set<nat>, b: set<nat>)
    requires a <= b && |a| == |b|
    ensures a == b
  {
    if !(b <= a) {
      var x :| x in b && x !in a;
      assert a + {x} <= b;
      SubsetSize(a + {x}, b);
    }
  }

  lemma {:induction false} SubsetSize(a: set<nat>, b: set<nat>)
    requires a <= b
    ensures |a| <= |b|
  {
    assert b == a + (b - a);
  }

  /** For a prime size the probe sequence reaches every slot. */
  lemma {:induction false} EverySlot(h: nat, size: nat, slot: nat) returns (j: nat)
    requires Sized(size) && slot < size
    ensures j < size && Slot(h, size, j) == slot
  {
    hide Prime, Slot, Visited;
    var v := Visited(h, size, size);
    VisitedMany(h, size, size);
    forall x | x in v ensures x in Below(size) {
      var i := VisitedFrom(h, size, size, x);
    }
    SameSize(v, Below(size));
    j := VisitedFrom(h, size, size, slot);
  }
}
