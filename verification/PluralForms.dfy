/** From a catalog header to a plural variant: intl/plural-exp.c, intl/eval-plural.h and
    `plural_lookup` of intl/dcigettext.c.  */
module PluralForms {
  import opened Basics
  import opened PluralSyntax
  import opened PluralTables
  import opened PluralLexer
  import opened PluralText
  import opened PluralParser

  // ---------------------------------------------------------------- plural_eval

  function Truth(b: bool): nat { if b then 1 else 0 }

  /** `plural_eval` on unsigned long arithmetic; None when a division by zero is raised. */
  function Eval(e: Expr, n: nat): Option<nat> {
    match e
    case Var => Some(n)
    case Num(k) => Some(k)
    case Not(a) =>
      var v := Eval(a, n);
      if v.None? then None else Some(Truth(v.value == 0))
    case Cond(c, t, f) =>
      var v := Eval(c, n);
      if v.None? then None else if v.value != 0 then Eval(t, n) else Eval(f, n)
    case Bin(op, l, r) =>
      var v := Eval(l, n);
      if v.None? then None
      else if op == LOr && v.value != 0 then Some(1)
      else if op == LAnd && v.value == 0 then Some(0)
      else
        var w := Eval(r, n);
        if w.None? then None else Apply(op, v.value, w.value)
  }

  function Apply(op: BinOp, a: nat, b: nat): Option<nat> {
    match op
    case LOr => Some(Truth(b != 0))
    case LAnd => Some(Truth(b != 0))
    case Mult => Some(a * b % ULONG_MODULUS)
    case Divide => if b == 0 then None else Some(a / b)
    case Modulo => if b == 0 then None else Some(a % b)
    case Plus => Some((a + b) % ULONG_MODULUS)
    case Minus => Some((a - b) % ULONG_MODULUS)
    case LessThan => Some(Truth(a < b))
    case GreaterThan => Some(Truth(a > b))
    case LessOrEqual => Some(Truth(a <= b))
    case GreaterOrEqual => Some(Truth(a >= b))
    case Equal => Some(Truth(a == b))
    case NotEqual => Some(Truth(a != b))
  }

  /** Evaluation stays within unsigned long. */
  lemma {:induction false} EvalInRange(e: Expr, n: nat)
    requires LiteralsFit(e) && n < ULONG_MODULUS && Eval(e, n).Some?
    ensures Eval(e, n).value < ULONG_MODULUS
  {
    match e
    case Var =>
    case Num(_) =>
    case Not(_) =>
    case Cond(c, t, f) =>
      if Eval(c, n).value != 0 { EvalInRange(t, n); } else { EvalInRange(f, n); }
    case Bin(op, l, r) =>
      EvalInRange(l, n);
      if Eval(r, n).Some? {
        EvalInRange(r, n);
        ApplyInRange(op, Eval(l, n).value, Eval(r, n).value);
      }
  }

  lemma {:induction false} ApplyInRange(op: BinOp, a: nat, b: nat)
    requires a < ULONG_MODULUS && b < ULONG_MODULUS && Apply(op, a, b).Some?
    ensures Apply(op, a, b).value < ULONG_MODULUS
  {
    match op
    case Divide => QuotientSmall(a, b);
    case _ =>
  }

  lemma {:induction false} QuotientSmall(a: nat, b: nat)
    requires b > 0
    ensures 0 <= a / b <= a
  {
    assert a == (a / b) * b + a % b;
    TimesAtLeast(a / b, b);
  }

  lemma {:induction false} TimesAtLeast(q: nat, b: nat)
    requires b > 0
    ensures q * b >= q
  {
    if b > 1 {
      TimesAtLeast(q, b - 1);
      assert q * b == q * (b - 1) + q;
    }
  }

  // ---------------------------------------------------------------- what each node means

  /** The second operand of "?:" when the first is not 0, the third when it is. */
  lemma {:induction false} Branches(c: Expr, t: Expr, f: Expr, n: nat)
    ensures Eval(c, n).Some? && Eval(c, n).value > 0 ==> Eval(Cond(c, t, f), n) == Eval(t, n)
    ensures Eval(c, n) == Some(0) ==> Eval(Cond(c, t, f), n) == Eval(f, n)
    ensures Eval(c, n).None? ==> Eval(Cond(c, t, f), n).None?
  {
  }

  lemma {:induction false} Leaves(k: nat, a: Expr, n: nat)
    ensures Eval(Var, n) == Some(n) && Eval(Num(k), n) == Some(k)
    ensures Eval(a, n) == Some(0) ==> Eval(Not(a), n) == Some(1)
    ensures Eval(a, n).Some? && Eval(a, n).value > 0 ==> Eval(Not(a), n) == Some(0)
    ensures Eval(a, n).None? ==> Eval(Not(a), n).None?
  {
  }

  /** The left operand of "||" and "&&" may decide alone, and then the right one is not evaluated. */
  lemma {:induction false} Connects(l: Expr, r: Expr, n: nat)
    ensures Eval(l, n).Some? && Eval(l, n).value > 0 ==> Eval(Bin(LOr, l, r), n) == Some(1)
    ensures Eval(l, n) == Some(0) ==> Eval(Bin(LAnd, l, r), n) == Some(0)
    ensures Eval(l, n) == Some(0) && Eval(r, n).Some? ==> Eval(Bin(LOr, l, r), n) == Some(if Eval(r, n).value > 0 then 1 else 0)
    ensures Eval(l, n).Some? && Eval(l, n).value > 0 && Eval(r, n).Some? ==> Eval(Bin(LAnd, l, r), n) == Some(if Eval(r, n).value > 0 then 1 else 0)
    ensures Eval(l, n) == Some(0) && Eval(r, n).None? ==> Eval(Bin(LOr, l, r), n).None?
    ensures Eval(l, n).Some? && Eval(l, n).value > 0 && Eval(r, n).None? ==> Eval(Bin(LAnd, l, r), n).None?
    ensures Eval(l, n).None? ==> Eval(Bin(LOr, l, r), n).None? && Eval(Bin(LAnd, l, r), n).None?
  {
  }

  /** Comparisons are 1 exactly when the relation holds, and 0 otherwise. */
  lemma {:induction false} Compares(l: Expr, r: Expr, n: nat, a: nat, b: nat)
    requires Eval(l, n) == Some(a) && Eval(r, n) == Some(b)
    ensures Eval(Bin(Equal, l, r), n) == Some(if a == b then 1 else 0)
    ensures Eval(Bin(NotEqual, l, r), n) == Some(if a == b then 0 else 1)
    ensures Eval(Bin(LessThan, l, r), n) == Some(if a < b then 1 else 0)
    ensures Eval(Bin(LessOrEqual, l, r), n) == Some(if b < a then 0 else 1)
    ensures Eval(Bin(GreaterThan, l, r), n) == Some(if b < a then 1 else 0)
    ensures Eval(Bin(GreaterOrEqual, l, r), n) == Some(if a < b then 0 else 1)
  {
  }

  /** Sum, difference and product up to multiples of 2^32, quotient and remainder; a division by zero
      has no value. */
  lemma {:induction false} Computes(l: Expr, r: Expr, n: nat, a: nat, b: nat) returns (s: nat, d: nat, p: nat, i: int, j: int, k: int)
    requires Eval(l, n) == Some(a) && Eval(r, n) == Some(b)
    ensures Eval(Bin(Plus, l, r), n) == Some(s) && s < 0x1_0000_0000 && a + b == s + i * 0x1_0000_0000
    ensures Eval(Bin(Minus, l, r), n) == Some(d) && d < 0x1_0000_0000 && a - b == d + j * 0x1_0000_0000
    ensures Eval(Bin(Mult, l, r), n) == Some(p) && p < 0x1_0000_0000 && a * b == p + k * 0x1_0000_0000
    ensures b == 0 ==> Eval(Bin(Divide, l, r), n).None? && Eval(Bin(Modulo, l, r), n).None?
    ensures b > 0 ==>
      && Eval(Bin(Divide, l, r), n).Some? && Eval(Bin(Modulo, l, r), n).Some?
      && Eval(Bin(Modulo, l, r), n).value < b
      && a == Eval(Bin(Divide, l, r), n).value * b + Eval(Bin(Modulo, l, r), n).value
  {
    s, i := Wrapped(a + b);
    d, j := Wrapped(a - b);
    p, k := Wrapped(a * b);
    if b > 0 {
      Divides(a, b);
    }
  }

  lemma {:induction false} Wrapped(x: int) returns (r: nat, q: int)
    ensures r == x % ULONG_MODULUS && r < ULONG_MODULUS && x == r + q * ULONG_MODULUS
  {
    r, q := x % ULONG_MODULUS, x / ULONG_MODULUS;
  }

  lemma {:induction false} Divides(a: nat, b: nat)
    requires b > 0
    ensures a == (a / b) * b + a % b && 0 <= a % b < b && a / b >= 0
  {
    QuotientSmall(a, b);
  }

  /** An operator on an operand without a value has none, unless the left operand decides. */
  lemma {:induction false} Propagates(op: BinOp, l: Expr, r: Expr, n: nat)
    requires op != LOr && op != LAnd && (Eval(l, n).None? || Eval(r, n).None?)
    ensures Eval(Bin(op, l, r), n).None?
  {
  }

  // ---------------------------------------------------------------- the header

  const GERMANIC_PLURAL := Bin(NotEqual, Var, Num(1))

  /** The Germanic rule: two forms, the first for one and the second for everything else. */
  lemma GermanicRule(n: nat)
    ensures Eval(GERMANIC_PLURAL, n) == Some(if n == 1 then 0 else 1)
  {
    assert Eval(Num(1), n) == Some(1);
  }

  predicate OccursAt(text: string, pat: string, i: nat) {
    i + |pat| <= |text| && text[i..i+|pat|] == pat
  }

  /** strstr: the first occurrence at or after `i`. */
  function Find(text: string, pat: string, i: nat): (r: Option<nat>)
    ensures r.Some? ==> i <= r.value && OccursAt(text, pat, r.value)
    ensures forall k :: i <= k && (r.Some? ==> k < r.value) ==> !OccursAt(text, pat, k)
    decreases |text| - i
  {
    if OccursAt(text, pat, i) then Some(i)
    else if i >= |text| then None
    else Find(text, pat, i + 1)
  }

  predicate IsSpace(c: char) {
    c == ' ' || '\t' <= c <= '\r'
  }

  function SkipSpace(text: string, i: nat): (p: nat)
    ensures i <= p && (i <= |text| ==> p <= |text|)
    decreases |text| - i
  {
    if i < |text| && IsSpace(text[i]) then SkipSpace(text, i + 1) else i
  }

  /** strtoul on a digit string. */
  function Saturated(v: nat): nat {
    if v < ULONG_MODULUS then v else ULONG_MODULUS - 1
  }

  /** Where the number of forms starts, if the header declares one. */
  function CountAt(text: string): Option<nat> {
    var p := Find(text, "nplurals=", 0);
    if p.None? then None
    else
      var q := SkipSpace(text, p.value + 9);
      if IsDigit(Peek(text, q)) then Some(q) else None
  }

  /** The header declares a number of forms and a plural expression. */
  predicate Declares(text: string) {
    Find(text, "plural=", 0).Some? && CountAt(text).Some?
  }

  /** The plural expression of the header is the phrase `s`. */
  ghost predicate Specifies(text: string, s: Syn) {
    && Declares(text)
    && Phrase(s, Tokens(text, Find(text, "plural=", 0).value + 7))
    && 1 + Height(s) < YYMAXDEPTH
  }

  lemma {:induction false} VerdictSpecifies(text: string, result: int, res: Expr)
    requires Declares(text) && Verdict(Tokens(text, Find(text, "plural=", 0).value + 7), result, res)
    ensures forall s :: Specifies(text, s) ==> result == 0 && res == Strip(s)
    ensures result == 0 ==> exists s :: Specifies(text, s)
  {
    if result == 0 {
      var s :| Phrase(s, Tokens(text, Find(text, "plural=", 0).value + 7)) && 1 + Height(s) < YYMAXDEPTH;
      assert Specifies(text, s);
    }
  }

  /** `EXTRACT_PLURAL_EXPRESSION`: the declared rule if the header specifies one that parses,
      and the Germanic rule with two forms in every other case. */
  method ExtractPluralExpression(nullentry: Option<string>) returns (plural: Expr, nplurals: nat)
    ensures nullentry.None? || (forall s :: !Specifies(nullentry.value, s)) ==> plural == GERMANIC_PLURAL && nplurals == 2
    ensures nullentry.Some? ==> forall s :: Specifies(nullentry.value, s) ==>
      && plural == Strip(s)
      && var q := CountAt(nullentry.value).value;
         nplurals == Saturated(DigitsValue(nullentry.value[q..SkipDigits(nullentry.value, q)]))
  {
    hide Verdict, Phrase, Tokens, Find, DigitsValue, Saturated;
    plural, nplurals := GERMANIC_PLURAL, 2;
    if nullentry.Some? {
      var text := nullentry.value;
      var p := Find(text, "plural=", 0);
      var np := Find(text, "nplurals=", 0);
      if p.None? || np.None? {
        return;
      }
      var q := np.value + 9;
      while Peek(text, q) != '\0' && IsSpace(Peek(text, q))
        invariant q <= |text| && SkipSpace(text, q) == SkipSpace(text, np.value + 9)
        decreases |text| - q
      {
        q := q + 1;
      }
      if !('0' <= Peek(text, q) <= '9') {
        return;
      }
      var n := Saturated(DigitsValue(text[q..SkipDigits(text, q)]));
      var result, res := YyParse(text, p.value + 7, GERMANIC_PLURAL);
      VerdictSpecifies(text, result, res);
      if result != 0 {
        return;
      }
      plural, nplurals := res, n;
    }
  }

  // ---------------------------------------------------------------- plural_lookup

  /** Index of the first NUL at or after `i`. */
  function NulFrom(block: string, i: nat): (p: nat)
    requires i < |block| && block[|block|-1] == '\0'
    ensures i <= p < |block| && block[p] == '\0' && '\0' !in block[i..p]
    decreases |block| - i
  {
    if block[i] == '\0' then i
    else
      var p := NulFrom(block, i + 1);
      assert block[i..p] == [block[i]] + block[i+1..p];
      p
  }

  /** The strings a block of NUL-terminated strings holds, from offset `i` on. */
  function Variants(block: string, i: nat): (vs: seq<string>)
    requires i <= |block| && (block != "" ==> block[|block|-1] == '\0')
    decreases |block| - i
  {
    if i == |block| then []
    else [block[i..NulFrom(block, i)]] + Variants(block, NulFrom(block, i) + 1)
  }

  /** The C string at offset `p`. */
  function StringAt(block: string, p: nat): string
    requires p < |block| && block[|block|-1] == '\0'
  {
    block[p..NulFrom(block, p)]
  }

  /** Splitting loses nothing: the variants with their terminators are the block. */
  function Joined(vs: seq<string>): string {
    if vs == [] then "" else vs[0] + "\0" + Joined(vs[1..])
  }

  lemma {:induction false} VariantsCover(block: string, i: nat)
    requires i <= |block| && (block != "" ==> block[|block|-1] == '\0')
    ensures Joined(Variants(block, i)) == block[i..]
    decreases |block| - i
  {
    hide NulFrom, Joined;
    if i == |block| {
      assert block[i..] == "" && Joined([]) == "" by { JoinedNil(); }
    } else {
      var p := NulFrom(block, i);
      VariantsCover(block, p + 1);
      JoinedCons(block[i..p], Variants(block, p + 1));
    }
  }

  /** No variant contains a NUL. */
  lemma {:induction false} VariantsPlain(block: string, i: nat, k: nat)
    requires i <= |block| && (block != "" ==> block[|block|-1] == '\0')
    requires k < |Variants(block, i)|
    ensures '\0' !in Variants(block, i)[k]
    decreases |block| - i
  {
    hide NulFrom;
    if k > 0 {
      VariantsPlain(block, NulFrom(block, i) + 1, k - 1);
    }
  }

  lemma JoinedNil()
    ensures Joined([]) == ""
  {
  }

  lemma {:induction false} JoinedCons(v: string, vs: seq<string>)
    ensures Joined([v] + vs) == v + "\0" + Joined(vs)
  {
    assert ([v] + vs)[1..] == vs;
  }

  /** `plural_lookup`: an offset into the translation block, at which the selected variant starts.
      The variant is the one the plural expression selects if both the declared number of forms
      and the stored variants reach that far, and the first one otherwise. */
  method PluralLookup(plural: Expr, nplurals: nat, n: nat, translation: string) returns (p: nat)
    requires translation != "" && translation[|translation|-1] == '\0'
    requires Eval(plural, n).Some?
    ensures p < |translation|
    ensures var k, vs := Eval(plural, n).value, Variants(translation, 0);
      |vs| > 0 && StringAt(translation, p) == vs[if k < nplurals && k < |vs| then k else 0]
  {
    var index: nat := Eval(plural, n).value;
    if index >= nplurals {
      index := 0;
    }
    ghost var vs := Variants(translation, 0);
    ghost var i := 0;
    p := 0;
    while index > 0
      invariant p < |translation| && i <= |vs| && vs[i..] == Variants(translation, p)
      invariant i + index == (if Eval(plural, n).value < nplurals then Eval(plural, n).value else 0)
    {
      assert vs[i+1..] == vs[i..][1..];
      index := index - 1;
      p := NulFrom(translation, p) + 1;
      i := i + 1;
      if p >= |translation| {
        return 0;
      }
    }
    assert vs[i] == vs[i..][0];
  }

  // ---------------------------------------------------------------- the whole chain

  /** Parse/print round trip: writing `e` with minimal parentheses and any blanks, inside any
      text, and parsing it yields exactly `e`, as long as the parser's stack can hold it. */
  lemma {:induction false} RoundTrip(pre: string, e: Expr, gaps: seq<string>, tail: string, result: int, res: Expr)
    requires LiteralsFit(e) && EndsPhrase(tail)
    requires |gaps| == |Yield(Minimal(e))| && forall i :: 0 <= i < |gaps| ==> Blank(gaps[i])
    requires forall i :: 0 <= i < |gaps| ==> Spellable(Yield(Minimal(e))[i])
    requires Verdict(Tokens(pre + Text(Yield(Minimal(e)), gaps, tail), |pre|), result, res)
    ensures if 1 + Height(Minimal(e)) < YYMAXDEPTH then result == 0 && res == e else result == 2
  {
    MinimalDenotes(e);
    PhraseScans(pre, Minimal(e), gaps, tail);
    assert Phrase(Minimal(e), Tokens(pre + Text(Yield(Minimal(e)), gaps, tail), |pre|));
  }
}
