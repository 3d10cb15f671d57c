/** The plural rules of the catalogs in po/, from the header text to the variant that is shown. */
module PluralCatalogs {
  import opened Basics
  import opened PluralSyntax
  import opened PluralTables
  import opened PluralLexer
  import opened PluralText
  import opened PluralParser
  import opened PluralForms
  import opened PluralWriting

  // Pieces of the rules

  function Mod(m: nat): Syn { SBin(Modulo, SVar, SNum(m)) }

  lemma {:induction false} Decimals()
    ensures Decimal(0) == "0" && Decimal(1) == "1" && Decimal(2) == "2" && Decimal(3) == "3" && Decimal(4) == "4" && Decimal(5) == "5"
    ensures Decimal(10) == "10" && Decimal(11) == "11" && Decimal(19) == "19" && Decimal(20) == "20" && Decimal(99) == "99" && Decimal(100) == "100"
  {
    assert Decimal(9) == "9";
  }

  /** "n%m" compared with `k`. */
  lemma {:induction false} Remainder(m: nat, gap: string, op: BinOp, sign: string, k: nat)
    requires m < ULONG_MODULUS && k < ULONG_MODULUS && 3 <= Prec(op) <= 4
    requires Blank(gap) && Mark(sign, Binary(op), gap, gap)
    ensures Shows(SBin(op, Mod(m), SNum(k)), "n" + (gap + "%" + gap) + Decimal(m) + sign + Decimal(k))
  {
    hide Shows, Decimal;
    ShowsAtoms(m);
    ShowsAtoms(k);
    Infix(Modulo, SVar, "n", gap, gap, gap + "%" + gap, SNum(m), Decimal(m));
    Infix(op, Mod(m), "n" + (gap + "%" + gap) + Decimal(m), gap, gap, sign, SNum(k), Decimal(k));
  }

  /** "n" compared with `k`. */
  lemma {:induction false} Itself(gap: string, op: BinOp, sign: string, k: nat)
    requires k < ULONG_MODULUS && 3 <= Prec(op) <= 4 && Blank(gap) && Mark(sign, Binary(op), gap, gap)
    ensures Shows(SBin(op, SVar, SNum(k)), "n" + sign + Decimal(k))
  {
    hide Shows, Decimal;
    ShowsAtoms(k);
    Infix(op, SVar, "n", gap, gap, sign, SNum(k), Decimal(k));
  }

  lemma {:induction false} Both(l: Syn, u: string, r: Syn, v: string)
    requires Shows(l, u) && Shows(r, v) && Level(l) >= 2 && Level(r) > 2
    ensures Shows(SBin(LAnd, l, r), u + " && " + v)
  {
    hide Shows, Level;
    assert " " + "&&" + " " == " && ";
    Infix(LAnd, l, u, " ", " ", " && ", r, v);
  }

  lemma {:induction false} Either(l: Syn, u: string, r: Syn, v: string)
    requires Shows(l, u) && Shows(r, v) && Level(l) >= 1 && Level(r) > 1
    ensures Shows(SBin(LOr, l, r), u + " || " + v)
  {
    hide Shows, Level;
    assert " " + "||" + " " == " || ";
    Infix(LOr, l, u, " ", " ", " || ", r, v);
  }

  /** A choice of a number, otherwise another phrase. */
  lemma {:induction false} Pick(c: Syn, u: string, k: nat, before: string, mid: string, f: Syn, w: string)
    requires Shows(c, u) && Shows(f, w) && Level(c) >= 1 && k < ULONG_MODULUS && Blank(before)
    requires mid == " ? " + Decimal(k) + (before + ": ")
    ensures Shows(SCond(c, SNum(k), f), u + mid + w)
  {
    hide Shows, Level, Decimal;
    ShowsAtoms(k);
    ColonMark(before);
    Choice(c, u, SNum(k), Decimal(k), before, before + ": ", f, w);
    assert u + " ? " + Decimal(k) + (before + ": ") + w == u + mid + w;
  }

  lemma {:induction false} ColonMark(before: string)
    requires Blank(before)
    ensures Mark(before + ": ", Colon, before, " ")
  {
    assert ":" + " " == ": ";
    assert before + ":" + " " == before + ": ";
  }

  lemma {:induction false} Mids()
    ensures " ? 0 : " == " ? " + "0" + (" " + ": ") && " ? 1 : " == " ? " + "1" + (" " + ": ") && " ? 2 : " == " ? " + "2" + (" " + ": ")
    ensures " ? 3 : " == " ? " + "3" + (" " + ": ") && " ? 4 : " == " ? " + "4" + (" " + ": ")
    ensures " ? 0: " == " ? " + "0" + ("" + ": ") && " ? 2: " == " ? " + "2" + ("" + ": ")
  {
  }

  const ONE := SBin(LAnd, SBin(Equal, Mod(10), SNum(1)), SBin(NotEqual, Mod(100), SNum(11)))
  const FEW := SParen(SBin(LOr, SBin(LessThan, Mod(100), SNum(10)), SBin(GreaterOrEqual, Mod(100), SNum(20))))
  const PAUCAL := SBin(LAnd, SBin(LAnd, SBin(GreaterOrEqual, Mod(10), SNum(2)), SBin(LessOrEqual, Mod(10), SNum(4))), FEW)

  const ONE_TEXT := "n%10==1" + " && " + "n%100!=11"
  const FEW_TEXT := "(" + ("n%100<10" + " || " + "n%100>=20") + ")"
  const PAUCAL_TEXT := "n%10>=2" + " && " + "n%10<=4" + " && " + FEW_TEXT

  lemma {:induction false} TightTexts()
    ensures "n" + ("" + "%" + "") + "10" + "==" + "1" == "n%10==1" && "n" + ("" + "%" + "") + "100" + "!=" + "11" == "n%100!=11"
    ensures "n" + ("" + "%" + "") + "100" + "<" + "10" == "n%100<10" && "n" + ("" + "%" + "") + "100" + ">=" + "20" == "n%100>=20"
    ensures "n" + ("" + "%" + "") + "10" + ">=" + "2" == "n%10>=2" && "n" + ("" + "%" + "") + "10" + "<=" + "4" == "n%10<=4"
  {
  }

  /** "n%m" compared with `k`, without blanks. */
  lemma {:induction false} Tight(m: nat, op: BinOp, k: nat)
    requires m < ULONG_MODULUS && k < ULONG_MODULUS && 3 <= Prec(op) <= 4
    ensures Shows(SBin(op, Mod(m), SNum(k)), "n" + ("" + "%" + "") + Decimal(m) + Spell(Binary(op)) + Decimal(k))
  {
    hide Shows, Decimal, Spell, Prec;
    TightMarks(op);
    Remainder(m, "", op, Spell(Binary(op)), k);
  }

  lemma {:induction false} OneShows()
    ensures Shows(ONE, ONE_TEXT) && Level(ONE) == 2
  {
    hide Shows;
    Decimals();
    TightTexts();
    Tight(10, Equal, 1);
    Tight(100, NotEqual, 11);
    Both(ONE.left, "n%10==1", ONE.right, "n%100!=11");
  }

  lemma {:induction false} FewShows()
    ensures Shows(FEW, FEW_TEXT) && Level(FEW) == 7
  {
    hide Shows;
    Decimals();
    TightTexts();
    Tight(100, LessThan, 10);
    Tight(100, GreaterOrEqual, 20);
    Either(FEW.inner.left, "n%100<10", FEW.inner.right, "n%100>=20");
    Enclosed(FEW.inner, "n%100<10" + " || " + "n%100>=20");
  }

  lemma {:induction false} PaucalShows()
    ensures Shows(PAUCAL, PAUCAL_TEXT) && Level(PAUCAL) == 2
  {
    hide Shows, FEW_TEXT;
    Decimals();
    TightTexts();
    FewShows();
    Tight(10, GreaterOrEqual, 2);
    Tight(10, LessOrEqual, 4);
    Both(PAUCAL.left.left, "n%10>=2", PAUCAL.left.right, "n%10<=4");
    Both(PAUCAL.left, "n%10>=2" + " && " + "n%10<=4", FEW, FEW_TEXT);
  }

  // The rules

  /** The catalogs of po/ by their rules: Croatian, Serbian and Ukrainian have the Russian one, and most
      others one of the last five. */
  datatype Language =
    | Arabic | Belarusian | Czech | Russian | Lithuanian | Latvian | Macedonian | Polish | Romanian | Slovak | Slovenian
    | German | Sardinian | French | Javanese | Japanese

  /** The plural expression as it stands in the catalog. */
  function Expression(l: Language): string {
    match l
    case Arabic =>
      "n==0" + " ? 0 : " + ("n==1" + " ? 1 : " + ("n==2" + " ? 2 : " +
      ("n % 100 >= 3" + " && " + "n % 100 <= 10" + " ? 3 : " + ("n % 100 >= 11" + " && " + "n % 100 <= 99" + " ? 4 : " + "5"))))
    case Belarusian => "(" + (ONE_TEXT + " ? 0 : " + (PAUCAL_TEXT + " ? 1 : " + "2")) + ")"
    case Czech => "(n==1)" + " ? 0 : " + ("(n>=2 && n<=4)" + " ? 1 : " + "2")
    case Russian => ONE_TEXT + " ? 0 : " + (PAUCAL_TEXT + " ? 1 : " + "2")
    case Lithuanian => ONE_TEXT + " ? 0 : " + ("n%10>=2" + " && " + FEW_TEXT + " ? 1 : " + "2")
    case Latvian => ONE_TEXT + " ? 0 : " + ("n != 0" + " ? 1 : " + "2")
    case Macedonian => "(" + ("n % 10 == 1" + " && " + "n % 100 != 11") + ")" + " ? 0 : " + "1"
    case Polish => "n==1" + " ? 0 : " + (PAUCAL_TEXT + " ? 1 : " + "2")
    case Romanian => "(" + ("n == 1" + " ? 0: " + ("(" + ("(" + (TEENS_TEXT + " || " + ROUND_TEXT) + ")" + " ? 2: " + "1") + ")")) + ")"
    case Slovak => "(n==1)" + " ? 1 : " + ("(n>=2 && n<=4)" + " ? 2 : " + "0")
    case Slovenian =>
      "(" + ("n%100==1" + " ? 1 : " + ("n%100==2" + " ? 2 : " + ("n%100==3" + " || " + "n%100==4" + " ? 3 : " + "0"))) + ")"
    case German => "n != 1"
    case Sardinian => "n!=1"
    case French => "n > 1"
    case Javanese => "n != 0"
    case Japanese => "0"
  }

  const TEENS_TEXT := "(" + "n % 100 > 19" + ")"
  const ROUND_TEXT := "(" + ("(" + "n % 100 == 0" + ")" + " && " + ("(" + "n != 0" + ")")) + ")"

  /** The number of forms as it stands there. */
  function Count(l: Language): nat {
    match l
    case Arabic => 6
    case Slovenian => 4
    case Macedonian => 2
    case German => 2
    case Sardinian => 2
    case French => 2
    case Javanese => 2
    case Japanese => 1
    case _ => 3
  }

  /** The form for `n`. */
  function Rule(l: Language, n: nat): nat {
    var ten, hundred := n % 10, n % 100;
    match l
    case Arabic =>
      if n <= 2 then n else if 3 <= hundred <= 10 then 3 else if 11 <= hundred then 4 else 5
    case Czech => if n == 1 then 0 else if 2 <= n <= 4 then 1 else 2
    case Slovak => if n == 1 then 1 else if 2 <= n <= 4 then 2 else 0
    case Polish => if n == 1 then 0 else if 2 <= ten <= 4 && !(10 <= hundred <= 19) then 1 else 2
    case Lithuanian => if ten == 1 && hundred != 11 then 0 else if 2 <= ten && !(10 <= hundred <= 19) then 1 else 2
    case Latvian => if ten == 1 && hundred != 11 then 0 else if n > 0 then 1 else 2
    case Macedonian => if ten == 1 && hundred != 11 then 0 else 1
    case Romanian => if n == 1 then 0 else if hundred >= 20 || (hundred == 0 && n > 0) then 2 else 1
    case Slovenian => if hundred == 1 then 1 else if hundred == 2 then 2 else if 3 <= hundred <= 4 then 3 else 0
    case German => if n == 1 then 0 else 1
    case Sardinian => if n == 1 then 0 else 1
    case French => if n <= 1 then 0 else 1
    case Javanese => if n == 0 then 0 else 1
    case Japanese => 0
    case _ => if ten == 1 && hundred != 11 then 0 else if 2 <= ten <= 4 && !(10 <= hundred <= 19) then 1 else 2
  }

  /** The phrases that the expressions are. */
  function Parse(l: Language): Syn {
    match l
    case Arabic =>
      SCond(SBin(Equal, SVar, SNum(0)), SNum(0),
        SCond(SBin(Equal, SVar, SNum(1)), SNum(1),
          SCond(SBin(Equal, SVar, SNum(2)), SNum(2),
            SCond(SBin(LAnd, SBin(GreaterOrEqual, Mod(100), SNum(3)), SBin(LessOrEqual, Mod(100), SNum(10))), SNum(3),
              SCond(SBin(LAnd, SBin(GreaterOrEqual, Mod(100), SNum(11)), SBin(LessOrEqual, Mod(100), SNum(99))), SNum(4), SNum(5))))))
    case Belarusian => SParen(Slavic(ONE))
    case Czech => SCond(SParen(SBin(Equal, SVar, SNum(1))), SNum(0), SCond(SParen(SMALL), SNum(1), SNum(2)))
    case Russian => Slavic(ONE)
    case Lithuanian => SCond(ONE, SNum(0), SCond(SBin(LAnd, SBin(GreaterOrEqual, Mod(10), SNum(2)), FEW), SNum(1), SNum(2)))
    case Latvian => SCond(ONE, SNum(0), SCond(SBin(NotEqual, SVar, SNum(0)), SNum(1), SNum(2)))
    case Macedonian => SCond(SParen(ONE), SNum(0), SNum(1))
    case Polish => Slavic(SBin(Equal, SVar, SNum(1)))
    case Romanian =>
      SParen(SCond(SBin(Equal, SVar, SNum(1)), SNum(0), SParen(SCond(SParen(SBin(LOr, TEENS, ROUND)), SNum(2), SNum(1)))))
    case Slovak => SCond(SParen(SBin(Equal, SVar, SNum(1))), SNum(1), SCond(SParen(SMALL), SNum(2), SNum(0)))
    case Slovenian =>
      SParen(SCond(SBin(Equal, Mod(100), SNum(1)), SNum(1),
        SCond(SBin(Equal, Mod(100), SNum(2)), SNum(2),
          SCond(SBin(LOr, SBin(Equal, Mod(100), SNum(3)), SBin(Equal, Mod(100), SNum(4))), SNum(3), SNum(0)))))
    case German => SBin(NotEqual, SVar, SNum(1))
    case Sardinian => SBin(NotEqual, SVar, SNum(1))
    case French => SBin(GreaterThan, SVar, SNum(1))
    case Javanese => SBin(NotEqual, SVar, SNum(0))
    case Japanese => SNum(0)
  }

  function Slavic(one: Syn): Syn { SCond(one, SNum(0), SCond(PAUCAL, SNum(1), SNum(2))) }

  const SMALL := SBin(LAnd, SBin(GreaterOrEqual, SVar, SNum(2)), SBin(LessOrEqual, SVar, SNum(4)))

  const TEENS := SParen(SBin(GreaterThan, Mod(100), SNum(19)))
  const ROUND := SParen(SBin(LAnd, SParen(SBin(Equal, Mod(100), SNum(0))), SParen(SBin(NotEqual, SVar, SNum(0)))))

  // What the phrases mean

  lemma {:induction false} RemainderIs(m: nat, k: nat, n: nat)
    requires m > 0
    ensures var l, r := Strip(Mod(m)), Strip(SNum(k)); Eval(l, n) == Some(n % m) && Eval(r, n) == Some(k)
    ensures Eval(Var, n) == Some(n)
  {
  }

  /** A comparison of "n%m" or "n" with a number. */
  lemma {:induction false} Relates(m: nat, k: nat, n: nat)
    requires m > 0
    ensures var l, r := Strip(Mod(m)), Num(k);
      && Eval(Bin(Equal, l, r), n) == Some(if n % m == k then 1 else 0) && Eval(Bin(NotEqual, l, r), n) == Some(if n % m == k then 0 else 1)
      && Eval(Bin(LessThan, l, r), n) == Some(if n % m < k then 1 else 0) && Eval(Bin(LessOrEqual, l, r), n) == Some(if k < n % m then 0 else 1)
      && Eval(Bin(GreaterThan, l, r), n) == Some(if k < n % m then 1 else 0) && Eval(Bin(GreaterOrEqual, l, r), n) == Some(if n % m < k then 0 else 1)
    ensures
      && Eval(Bin(Equal, Var, Num(k)), n) == Some(if n == k then 1 else 0) && Eval(Bin(NotEqual, Var, Num(k)), n) == Some(if n == k then 0 else 1)
      && Eval(Bin(GreaterThan, Var, Num(k)), n) == Some(if k < n then 1 else 0)
      && Eval(Bin(LessOrEqual, Var, Num(k)), n) == Some(if k < n then 0 else 1) && Eval(Bin(GreaterOrEqual, Var, Num(k)), n) == Some(if n < k then 0 else 1)
  {
    RemainderIs(m, k, n);
    hide Eval;
    Leaves(k, Var, n);
    Compares(Strip(Mod(m)), Num(k), n, n % m, k);
    Compares(Var, Num(k), n, n, k);
  }

  predicate Holds(c: Syn, n: nat, b: bool) { Eval(Strip(c), n) == Some(if b then 1 else 0) }

  lemma {:induction false} BothHold(l: Syn, r: Syn, n: nat, a: bool, b: bool)
    requires Holds(l, n, a) && Holds(r, n, b)
    ensures Holds(SBin(LAnd, l, r), n, a && b) && Holds(SBin(LOr, l, r), n, a || b) && Holds(SParen(l), n, a)
  {
    hide Eval;
    Connects(Strip(l), Strip(r), n);
  }

  lemma {:induction false} Chosen(c: Syn, t: Syn, f: Syn, n: nat, b: bool)
    requires Holds(c, n, b)
    ensures Eval(Strip(SCond(c, t, f)), n) == if b then Eval(Strip(t), n) else Eval(Strip(f), n)
  {
    hide Eval;
    Branches(Strip(c), Strip(t), Strip(f), n);
  }

  lemma {:induction false} OneHolds(n: nat)
    ensures Holds(ONE, n, n % 10 == 1 && n % 100 != 11)
  {
    hide Eval;
    Relates(10, 1, n);
    Relates(100, 11, n);
    BothHold(ONE.left, ONE.right, n, n % 10 == 1, n % 100 != 11);
  }

  lemma {:induction false} FewHolds(n: nat)
    ensures Holds(FEW, n, !(10 <= n % 100 <= 19))
  {
    hide Eval;
    Relates(100, 10, n);
    Relates(100, 20, n);
    var few := FEW.inner;
    BothHold(few.left, few.right, n, n % 100 < 10, n % 100 >= 20);
    BothHold(few, few, n, n % 100 < 10 || n % 100 >= 20, n % 100 < 10 || n % 100 >= 20);
  }

  lemma {:induction false} PaucalHolds(n: nat)
    ensures Holds(PAUCAL, n, 2 <= n % 10 <= 4 && !(10 <= n % 100 <= 19))
  {
    hide Eval;
    FewHolds(n);
    Relates(10, 2, n);
    Relates(10, 4, n);
    BothHold(PAUCAL.left.left, PAUCAL.left.right, n, n % 10 >= 2, n % 10 <= 4);
    BothHold(PAUCAL.left, FEW, n, 2 <= n % 10 <= 4, !(10 <= n % 100 <= 19));
  }

  lemma {:induction false} SmallHolds(n: nat)
    ensures Holds(SParen(SMALL), n, 2 <= n <= 4)
  {
    hide Eval;
    Relates(10, 2, n);
    Relates(10, 4, n);
    BothHold(SMALL.left, SMALL.right, n, n >= 2, n <= 4);
    BothHold(SMALL, SMALL, n, 2 <= n <= 4, 2 <= n <= 4);
  }

  lemma {:induction false} RoundHolds(n: nat)
    ensures Holds(ROUND, n, n % 100 == 0 && n > 0)
  {
    hide Eval;
    Relates(100, 0, n);
    var zero, some := ROUND.inner.left, ROUND.inner.right;
    BothHold(zero.inner, some.inner, n, n % 100 == 0, n != 0);
    BothHold(some.inner, some.inner, n, n != 0, n != 0);
    BothHold(zero, some, n, n % 100 == 0, n != 0);
    BothHold(ROUND.inner, ROUND.inner, n, n % 100 == 0 && n != 0, n % 100 == 0 && n != 0);
  }

  // The expressions are written as they stand

  lemma {:induction false} Numbers()
    ensures Shows(SNum(0), "0") && Shows(SNum(1), "1") && Shows(SNum(2), "2") && Shows(SNum(5), "5")
  {
    hide Shows, Decimal;
    Decimals();
    ShowsAtoms(0);
    ShowsAtoms(1);
    ShowsAtoms(2);
    ShowsAtoms(5);
  }

  lemma {:induction false} SlavicShows(one: Syn, u: string)
    requires Shows(one, u) && Level(one) >= 1
    ensures Shows(Slavic(one), u + " ? 0 : " + (PAUCAL_TEXT + " ? 1 : " + "2"))
  {
    hide Shows, Decimal, PAUCAL, PAUCAL_TEXT, Level;
    Decimals();
    Numbers();
    Mids();
    PaucalShows();
    Pick(PAUCAL, PAUCAL_TEXT, 1, " ", " ? 1 : ", SNum(2), "2");
    Pick(one, u, 0, " ", " ? 0 : ", SCond(PAUCAL, SNum(1), SNum(2)), PAUCAL_TEXT + " ? 1 : " + "2");
  }

  lemma {:induction false} Equals(k: nat, w: string)
    requires k < ULONG_MODULUS && w == "n" + "==" + Decimal(k)
    ensures Shows(SBin(Equal, SVar, SNum(k)), w)
  {
    hide Shows, Decimal, Spell;
    TightMarks(Equal);
    EqualSign();
    Itself("", Equal, "==", k);
  }

  lemma {:induction false} EqualSign()
    ensures Spell(Binary(Equal)) == "=="
  {
  }

  lemma {:induction false} WideMarks()
    ensures Mark(" == ", Binary(Equal), " ", " ") && Mark(" != ", Binary(NotEqual), " ", " ")
    ensures Mark(" > ", Binary(GreaterThan), " ", " ") && Mark(" >= ", Binary(GreaterOrEqual), " ", " ") && Mark(" <= ", Binary(LessOrEqual), " ", " ")
  {
    assert " " + "==" + " " == " == " && " " + "!=" + " " == " != ";
    assert " " + ">" + " " == " > " && " " + ">=" + " " == " >= " && " " + "<=" + " " == " <= ";
  }

  /** "n % m" compared with `k`, with blanks. */
  lemma {:induction false} Wide(m: nat, op: BinOp, sign: string, k: nat, w: string)
    requires m < ULONG_MODULUS && k < ULONG_MODULUS && 3 <= Prec(op) <= 4 && Mark(sign, Binary(op), " ", " ")
    requires w == "n" + (" " + "%" + " ") + Decimal(m) + sign + Decimal(k)
    ensures Shows(SBin(op, Mod(m), SNum(k)), w)
  {
    hide Shows, Decimal, Spell, Prec;
    Remainder(m, " ", op, sign, k);
  }

  lemma {:induction false} WideTexts()
    ensures "n" + (" " + "%" + " ") + "10" + " == " + "1" == "n % 10 == 1" && "n" + (" " + "%" + " ") + "100" + " != " + "11" == "n % 100 != 11"
    ensures "n" + (" " + "%" + " ") + "100" + " > " + "19" == "n % 100 > 19" && "n" + (" " + "%" + " ") + "100" + " == " + "0" == "n % 100 == 0"
  {
  }

  lemma {:induction false} ArabicTexts()
    ensures "n" + (" " + "%" + " ") + "100" + " >= " + "3" == "n % 100 >= 3" && "n" + (" " + "%" + " ") + "100" + " <= " + "10" == "n % 100 <= 10"
    ensures "n" + (" " + "%" + " ") + "100" + " >= " + "11" == "n % 100 >= 11" && "n" + (" " + "%" + " ") + "100" + " <= " + "99" == "n % 100 <= 99"
    ensures "n" + "==" + "0" == "n==0" && "n" + "==" + "1" == "n==1" && "n" + "==" + "2" == "n==2"
  {
  }

  lemma {:induction false} ArabicShows()
    ensures Shows(Parse(Arabic), Expression(Arabic))
  {
    hide Shows, Mark;
    Decimals();
    Numbers();
    Mids();
    WideMarks();
    ArabicTexts();
    Equals(0, "n==0");
    Equals(1, "n==1");
    Equals(2, "n==2");
    Wide(100, GreaterOrEqual, " >= ", 3, "n % 100 >= 3");
    Wide(100, LessOrEqual, " <= ", 10, "n % 100 <= 10");
    Wide(100, GreaterOrEqual, " >= ", 11, "n % 100 >= 11");
    Wide(100, LessOrEqual, " <= ", 99, "n % 100 <= 99");
    var d0 := Parse(Arabic);
    var d1 := d0.els;
    var d2 := d1.els;
    var d3 := d2.els;
    var d4 := d3.els;
    Both(d3.test.left, "n % 100 >= 3", d3.test.right, "n % 100 <= 10");
    Both(d4.test.left, "n % 100 >= 11", d4.test.right, "n % 100 <= 99");
    var w4 := "n % 100 >= 11" + " && " + "n % 100 <= 99" + " ? 4 : " + "5";
    Pick(d4.test, "n % 100 >= 11" + " && " + "n % 100 <= 99", 4, " ", " ? 4 : ", d4.els, "5");
    var w3 := "n % 100 >= 3" + " && " + "n % 100 <= 10" + " ? 3 : " + w4;
    Pick(d3.test, "n % 100 >= 3" + " && " + "n % 100 <= 10", 3, " ", " ? 3 : ", d4, w4);
    Pick(d2.test, "n==2", 2, " ", " ? 2 : ", d3, w3);
    Pick(d1.test, "n==1", 1, " ", " ? 1 : ", d2, "n==2" + " ? 2 : " + w3);
    Pick(d0.test, "n==0", 0, " ", " ? 0 : ", d1, "n==1" + " ? 1 : " + ("n==2" + " ? 2 : " + w3));
  }

  lemma {:induction false} SmallTexts()
    ensures "(" + "n==1" + ")" == "(n==1)" && "n" + ">=" + "2" == "n>=2" && "n" + "<=" + "4" == "n<=4"
    ensures "(" + ("n>=2" + " && " + "n<=4") + ")" == "(n>=2 && n<=4)" && "n" + "==" + "1" == "n==1"
  {
  }

  lemma {:induction false} SmallShows()
    ensures Shows(SParen(SMALL), "(n>=2 && n<=4)") && Shows(SParen(SBin(Equal, SVar, SNum(1))), "(n==1)")
  {
    hide Shows, Mark;
    Decimals();
    SmallTexts();
    Equals(1, "n==1");
    Enclosed(SBin(Equal, SVar, SNum(1)), "n==1");
    TightMarks(GreaterOrEqual);
    TightMarks(LessOrEqual);
    Itself("", GreaterOrEqual, ">=", 2);
    Itself("", LessOrEqual, "<=", 4);
    Both(SMALL.left, "n>=2", SMALL.right, "n<=4");
    Enclosed(SMALL, "n>=2" + " && " + "n<=4");
  }

  lemma {:induction false} CzechShows()
    ensures Shows(Parse(Czech), Expression(Czech)) && Shows(Parse(Slovak), Expression(Slovak))
  {
    hide Shows, SMALL;
    Decimals();
    Numbers();
    Mids();
    SmallShows();
    var one, few := SParen(SBin(Equal, SVar, SNum(1))), SParen(SMALL);
    Pick(few, "(n>=2 && n<=4)", 1, " ", " ? 1 : ", SNum(2), "2");
    Pick(one, "(n==1)", 0, " ", " ? 0 : ", SCond(few, SNum(1), SNum(2)), "(n>=2 && n<=4)" + " ? 1 : " + "2");
    Pick(few, "(n>=2 && n<=4)", 2, " ", " ? 2 : ", SNum(0), "0");
    Pick(one, "(n==1)", 1, " ", " ? 1 : ", SCond(few, SNum(2), SNum(0)), "(n>=2 && n<=4)" + " ? 2 : " + "0");
  }

  lemma {:induction false} RussianShows()
    ensures Shows(Parse(Russian), Expression(Russian)) && Shows(Parse(Belarusian), Expression(Belarusian)) && Shows(Parse(Polish), Expression(Polish))
  {
    hide Shows, PAUCAL, PAUCAL_TEXT, ONE, ONE_TEXT, Decimal, Slavic;
    OneShows();
    SlavicShows(ONE, ONE_TEXT);
    Enclosed(Slavic(ONE), ONE_TEXT + " ? 0 : " + (PAUCAL_TEXT + " ? 1 : " + "2"));
    Decimals();
    SmallTexts();
    Equals(1, "n==1");
    SlavicShows(SBin(Equal, SVar, SNum(1)), "n==1");
  }

  lemma {:induction false} LithuanianShows()
    ensures Shows(Parse(Lithuanian), Expression(Lithuanian))
  {
    hide Shows, FEW, FEW_TEXT, ONE, ONE_TEXT;
    Decimals();
    Numbers();
    Mids();
    OneShows();
    FewShows();
    TightTexts();
    Tight(10, GreaterOrEqual, 2);
    var two := SBin(GreaterOrEqual, Mod(10), SNum(2));
    Both(two, "n%10>=2", FEW, FEW_TEXT);
    Pick(SBin(LAnd, two, FEW), "n%10>=2" + " && " + FEW_TEXT, 1, " ", " ? 1 : ", SNum(2), "2");
    Pick(ONE, ONE_TEXT, 0, " ", " ? 0 : ", SCond(SBin(LAnd, two, FEW), SNum(1), SNum(2)), "n%10>=2" + " && " + FEW_TEXT + " ? 1 : " + "2");
  }

  lemma {:induction false} LatvianShows()
    ensures Shows(Parse(Latvian), Expression(Latvian))
  {
    hide Shows, ONE, ONE_TEXT, Mark;
    Decimals();
    Numbers();
    Mids();
    OneShows();
    WideMarks();
    Itself(" ", NotEqual, " != ", 0);
    assert "n" + " != " + "0" == "n != 0";
    Pick(SBin(NotEqual, SVar, SNum(0)), "n != 0", 1, " ", " ? 1 : ", SNum(2), "2");
    Pick(ONE, ONE_TEXT, 0, " ", " ? 0 : ", SCond(SBin(NotEqual, SVar, SNum(0)), SNum(1), SNum(2)), "n != 0" + " ? 1 : " + "2");
  }

  lemma {:induction false} MacedonianShows()
    ensures Shows(Parse(Macedonian), Expression(Macedonian))
  {
    hide Shows, Mark;
    Decimals();
    Numbers();
    Mids();
    WideMarks();
    WideTexts();
    Wide(10, Equal, " == ", 1, "n % 10 == 1");
    Wide(100, NotEqual, " != ", 11, "n % 100 != 11");
    Both(ONE.left, "n % 10 == 1", ONE.right, "n % 100 != 11");
    Enclosed(ONE, "n % 10 == 1" + " && " + "n % 100 != 11");
    Pick(SParen(ONE), "(" + ("n % 10 == 1" + " && " + "n % 100 != 11") + ")", 0, " ", " ? 0 : ", SNum(1), "1");
  }

  lemma {:induction false} RoundShows()
    ensures Shows(ROUND, ROUND_TEXT) && Shows(TEENS, TEENS_TEXT)
  {
    hide Shows, Mark;
    Decimals();
    WideMarks();
    WideTexts();
    Wide(100, GreaterThan, " > ", 19, "n % 100 > 19");
    Enclosed(TEENS.inner, "n % 100 > 19");
    Wide(100, Equal, " == ", 0, "n % 100 == 0");
    Itself(" ", NotEqual, " != ", 0);
    assert "n" + " != " + "0" == "n != 0";
    var zero, some := ROUND.inner.left, ROUND.inner.right;
    Enclosed(zero.inner, "n % 100 == 0");
    Enclosed(some.inner, "n != 0");
    Both(zero, "(" + "n % 100 == 0" + ")", some, "(" + "n != 0" + ")");
    Enclosed(ROUND.inner, "(" + "n % 100 == 0" + ")" + " && " + ("(" + "n != 0" + ")"));
  }

  lemma {:induction false} RomanianShows()
    ensures Shows(Parse(Romanian), Expression(Romanian))
  {
    hide Shows, Mark, ROUND_TEXT, TEENS_TEXT;
    Decimals();
    Numbers();
    Mids();
    WideMarks();
    RoundShows();
    Itself(" ", Equal, " == ", 1);
    assert "n" + " == " + "1" == "n == 1";
    Either(TEENS, TEENS_TEXT, ROUND, ROUND_TEXT);
    var many := SBin(LOr, TEENS, ROUND);
    Enclosed(many, TEENS_TEXT + " || " + ROUND_TEXT);
    var inner := "(" + (TEENS_TEXT + " || " + ROUND_TEXT) + ")" + " ? 2: " + "1";
    Pick(SParen(many), "(" + (TEENS_TEXT + " || " + ROUND_TEXT) + ")", 2, "", " ? 2: ", SNum(1), "1");
    Enclosed(SCond(SParen(many), SNum(2), SNum(1)), inner);
    var all := SCond(SBin(Equal, SVar, SNum(1)), SNum(0), SParen(SCond(SParen(many), SNum(2), SNum(1))));
    Pick(SBin(Equal, SVar, SNum(1)), "n == 1", 0, "", " ? 0: ", all.els, "(" + inner + ")");
    Enclosed(all, "n == 1" + " ? 0: " + ("(" + inner + ")"));
  }

  lemma {:induction false} SlovenianTexts()
    ensures "n" + ("" + "%" + "") + "100" + "==" + "1" == "n%100==1" && "n" + ("" + "%" + "") + "100" + "==" + "2" == "n%100==2"
    ensures "n" + ("" + "%" + "") + "100" + "==" + "3" == "n%100==3" && "n" + ("" + "%" + "") + "100" + "==" + "4" == "n%100==4"
  {
  }

  lemma {:induction false} SlovenianShows()
    ensures Shows(Parse(Slovenian), Expression(Slovenian))
  {
    hide Shows, Mark;
    Decimals();
    Numbers();
    Mids();
    SlovenianTexts();
    Tight(100, Equal, 1);
    Tight(100, Equal, 2);
    Tight(100, Equal, 3);
    Tight(100, Equal, 4);
    var d1 := Parse(Slovenian).inner;
    var d2 := d1.els;
    var d3 := d2.els;
    Either(d3.test.left, "n%100==3", d3.test.right, "n%100==4");
    var w3 := "n%100==3" + " || " + "n%100==4" + " ? 3 : " + "0";
    Pick(d3.test, "n%100==3" + " || " + "n%100==4", 3, " ", " ? 3 : ", SNum(0), "0");
    var w2 := "n%100==2" + " ? 2 : " + w3;
    Pick(d2.test, "n%100==2", 2, " ", " ? 2 : ", d3, w3);
    Pick(d1.test, "n%100==1", 1, " ", " ? 1 : ", d2, w2);
    Enclosed(d1, "n%100==1" + " ? 1 : " + w2);
  }

  lemma {:induction false} SimpleShows(l: Language)
    requires l.German? || l.Sardinian? || l.French? || l.Javanese? || l.Japanese?
    ensures Shows(Parse(l), Expression(l))
  {
    hide Shows, Mark;
    Decimals();
    Numbers();
    WideMarks();
    TightMarks(NotEqual);
    Itself(" ", NotEqual, " != ", 1);
    Itself(" ", NotEqual, " != ", 0);
    Itself(" ", GreaterThan, " > ", 1);
    Itself("", NotEqual, "!=", 1);
    assert "n" + " != " + "1" == "n != 1" && "n" + " != " + "0" == "n != 0" && "n" + " > " + "1" == "n > 1" && "n" + "!=" + "1" == "n!=1";
  }

  lemma {:induction false} Written(l: Language)
    ensures Shows(Parse(l), Expression(l))
  {
    hide Shows, Parse, Expression;
    match l
    case Arabic => ArabicShows();
    case Belarusian => RussianShows();
    case Czech => CzechShows();
    case Russian => RussianShows();
    case Lithuanian => LithuanianShows();
    case Latvian => LatvianShows();
    case Macedonian => MacedonianShows();
    case Polish => RussianShows();
    case Romanian => RomanianShows();
    case Slovak => CzechShows();
    case Slovenian => SlovenianShows();
    case German => SimpleShows(l);
    case Sardinian => SimpleShows(l);
    case French => SimpleShows(l);
    case Javanese => SimpleShows(l);
    case Japanese => SimpleShows(l);
  }

  // The rules are what the expressions evaluate to

  lemma {:induction false} PickIs(c: Syn, k: nat, f: Syn, n: nat, b: bool)
    requires Holds(c, n, b)
    ensures Eval(Strip(SCond(c, SNum(k), f)), n) == if b then Some(k) else Eval(Strip(f), n)
  {
    Chosen(c, SNum(k), f, n, b);
  }

  lemma {:induction false} SlavicIs(one: Syn, n: nat, b: bool)
    requires Holds(one, n, b)
    ensures Eval(Strip(Slavic(one)), n) == Some(if b then 0 else if 2 <= n % 10 <= 4 && !(10 <= n % 100 <= 19) then 1 else 2)
  {
    hide Eval, PAUCAL;
    PaucalHolds(n);
    Leaves(2, Var, n);
    PickIs(PAUCAL, 1, SNum(2), n, 2 <= n % 10 <= 4 && !(10 <= n % 100 <= 19));
    PickIs(one, 0, SCond(PAUCAL, SNum(1), SNum(2)), n, b);
  }

  lemma {:induction false} ArabicIs(n: nat)
    ensures Eval(Strip(Parse(Arabic)), n) == Some(Rule(Arabic, n))
  {
    hide Eval;
    Relates(100, 0, n);
    Relates(100, 1, n);
    Relates(100, 2, n);
    Relates(100, 3, n);
    Relates(100, 10, n);
    Relates(100, 11, n);
    Relates(100, 99, n);
    Leaves(5, Var, n);
    var d0 := Parse(Arabic);
    var d1 := d0.els;
    var d2 := d1.els;
    var d3 := d2.els;
    var d4 := d3.els;
    BothHold(d3.test.left, d3.test.right, n, n % 100 >= 3, n % 100 <= 10);
    BothHold(d4.test.left, d4.test.right, n, n % 100 >= 11, n % 100 <= 99);
    PickIs(d4.test, 4, d4.els, n, n % 100 >= 11);
    PickIs(d3.test, 3, d4, n, 3 <= n % 100 <= 10);
    PickIs(d2.test, 2, d3, n, n == 2);
    PickIs(d1.test, 1, d2, n, n == 1);
    PickIs(d0.test, 0, d1, n, n == 0);
  }

  lemma {:induction false} OneIs(n: nat)
    ensures Holds(SBin(Equal, SVar, SNum(1)), n, n == 1) && Holds(SParen(SBin(Equal, SVar, SNum(1))), n, n == 1)
  {
    hide Eval;
    Relates(1, 1, n);
  }

  lemma {:induction false} CzechIs(n: nat)
    ensures Eval(Strip(Parse(Czech)), n) == Some(Rule(Czech, n)) && Eval(Strip(Parse(Slovak)), n) == Some(Rule(Slovak, n))
  {
    hide Eval, SMALL;
    OneIs(n);
    SmallHolds(n);
    Leaves(2, Var, n);
    Leaves(0, Var, n);
    var one, few := SParen(SBin(Equal, SVar, SNum(1))), SParen(SMALL);
    PickIs(few, 1, SNum(2), n, 2 <= n <= 4);
    PickIs(one, 0, SCond(few, SNum(1), SNum(2)), n, n == 1);
    PickIs(few, 2, SNum(0), n, 2 <= n <= 4);
    PickIs(one, 1, SCond(few, SNum(2), SNum(0)), n, n == 1);
  }

  lemma {:induction false} RussianIs(n: nat)
    ensures Eval(Strip(Parse(Russian)), n) == Some(Rule(Russian, n))
    ensures Eval(Strip(Parse(Belarusian)), n) == Some(Rule(Belarusian, n))
    ensures Eval(Strip(Parse(Polish)), n) == Some(Rule(Polish, n))
  {
    hide Eval, ONE, Slavic;
    OneHolds(n);
    SlavicIs(ONE, n, n % 10 == 1 && n % 100 != 11);
    OneIs(n);
    SlavicIs(SBin(Equal, SVar, SNum(1)), n, n == 1);
  }

  lemma {:induction false} BalticIs(n: nat)
    ensures Eval(Strip(Parse(Lithuanian)), n) == Some(Rule(Lithuanian, n))
    ensures Eval(Strip(Parse(Latvian)), n) == Some(Rule(Latvian, n))
    ensures Eval(Strip(Parse(Macedonian)), n) == Some(Rule(Macedonian, n))
  {
    hide Eval, ONE, FEW;
    OneHolds(n);
    FewHolds(n);
    Relates(10, 2, n);
    Relates(10, 0, n);
    Leaves(2, Var, n);
    Leaves(1, Var, n);
    var two, some := SBin(GreaterOrEqual, Mod(10), SNum(2)), SBin(NotEqual, SVar, SNum(0));
    BothHold(two, FEW, n, n % 10 >= 2, !(10 <= n % 100 <= 19));
    PickIs(SBin(LAnd, two, FEW), 1, SNum(2), n, n % 10 >= 2 && !(10 <= n % 100 <= 19));
    PickIs(ONE, 0, SCond(SBin(LAnd, two, FEW), SNum(1), SNum(2)), n, n % 10 == 1 && n % 100 != 11);
    PickIs(some, 1, SNum(2), n, n != 0);
    PickIs(ONE, 0, SCond(some, SNum(1), SNum(2)), n, n % 10 == 1 && n % 100 != 11);
    PickIs(SParen(ONE), 0, SNum(1), n, n % 10 == 1 && n % 100 != 11);
  }

  lemma {:induction false} RomanianIs(n: nat)
    ensures Eval(Strip(Parse(Romanian)), n) == Some(Rule(Romanian, n))
  {
    hide Eval, ROUND;
    OneIs(n);
    Relates(100, 19, n);
    RoundHolds(n);
    Leaves(1, Var, n);
    BothHold(TEENS, ROUND, n, n % 100 > 19, n % 100 == 0 && n > 0);
    var many := SParen(SBin(LOr, TEENS, ROUND));
    PickIs(many, 2, SNum(1), n, n % 100 > 19 || (n % 100 == 0 && n > 0));
    PickIs(SBin(Equal, SVar, SNum(1)), 0, SParen(SCond(many, SNum(2), SNum(1))), n, n == 1);
  }

  lemma {:induction false} SlovenianIs(n: nat)
    ensures Eval(Strip(Parse(Slovenian)), n) == Some(Rule(Slovenian, n))
  {
    hide Eval;
    Relates(100, 1, n);
    Relates(100, 2, n);
    Relates(100, 3, n);
    Relates(100, 4, n);
    Leaves(0, Var, n);
    var d1 := Parse(Slovenian).inner;
    var d2 := d1.els;
    var d3 := d2.els;
    BothHold(d3.test.left, d3.test.right, n, n % 100 == 3, n % 100 == 4);
    PickIs(d3.test, 3, SNum(0), n, 3 <= n % 100 <= 4);
    PickIs(d2.test, 2, d3, n, n % 100 == 2);
    PickIs(d1.test, 1, d2, n, n % 100 == 1);
  }

  /** Each expression of po/ evaluates to the form that its rule says. */
  lemma {:induction false} Ruled(l: Language, n: nat)
    ensures Eval(Strip(Parse(l)), n) == Some(Rule(l, n)) && Rule(l, n) < Count(l)
  {
    hide Eval;
    Leaves(0, Var, n);
    Relates(1, 0, n);
    Relates(1, 1, n);
    hide Parse;
    match l
    case Arabic => ArabicIs(n);
    case Belarusian => RussianIs(n);
    case Czech => CzechIs(n);
    case Russian => RussianIs(n);
    case Lithuanian => BalticIs(n);
    case Latvian => BalticIs(n);
    case Macedonian => BalticIs(n);
    case Polish => RussianIs(n);
    case Romanian => RomanianIs(n);
    case Slovak => CzechIs(n);
    case Slovenian => SlovenianIs(n);
    case _ => SimpleIs(l, n);
  }

  lemma {:induction false} SimpleIs(l: Language, n: nat)
    requires l.German? || l.Sardinian? || l.French? || l.Javanese? || l.Japanese?
    ensures Eval(Strip(Parse(l)), n) == Some(Rule(l, n))
  {
    hide Eval;
    Leaves(0, Var, n);
    Relates(1, 0, n);
    Relates(1, 1, n);
  }

  // From the header to the variant

  /** The header entry of a catalog, with what stands before and behind the plural rule. */
  function Header(l: Language, before: string, after: string): string {
    before + "nplurals=" + Decimal(Count(l)) + "; plural=" + Expression(l) + ";" + after
  }

  /** Neither word stands in `before` or across its end. */
  predicate Free(before: string, text: string) {
    forall k :: 0 <= k < |before| ==> !OccursAt(text, "nplurals=", k) && !OccursAt(text, "plural=", k)
  }

  lemma {:induction false} FindIs(text: string, pat: string, i: nat, k: nat)
    requires i <= k && OccursAt(text, pat, k) && forall j :: i <= j < k ==> !OccursAt(text, pat, j)
    ensures Find(text, pat, i) == Some(k)
  {
    hide OccursAt;
    var r := Find(text, pat, i);
    assert r.Some?;
  }

  lemma {:induction false} Parts(l: Language, before: string, after: string)
    ensures var text, b := Header(l, before, after), |before|;
      && text == (before + "nplurals=" + Decimal(Count(l)) + "; plural=") + (Expression(l) + (";" + after))
      && b + 19 <= |text| && text[b..b+9] == "nplurals=" && text[b+9..b+10] == Decimal(Count(l)) && text[b+10..b+19] == "; plural="
  {
    hide Expression;
    Decimals();
    CountDigits(l);
    var text, b, c := Header(l, before, after), |before|, Decimal(Count(l));
    var x := Expression(l) + (";" + after);
    assert text == before + "nplurals=" + c + "; plural=" + x;
    assert text == before + ("nplurals=" + (c + ("; plural=" + x)));
    assert text[b..] == "nplurals=" + (c + ("; plural=" + x));
  }

  lemma {:induction false} CountDigits(l: Language)
    ensures |Decimal(Count(l))| == 1 && IsDigit(Decimal(Count(l))[0]) && Decimal(Count(l))[0] != 'p' && Count(l) < 10
  {
  }

  /** The two words are found where the rule stands. */
  lemma {:induction false} WordsFound(l: Language, before: string, after: string)
    requires Free(before, Header(l, before, after))
    ensures var text := Header(l, before, after);
      && Find(text, "nplurals=", 0) == Some(|before|) && Find(text, "plural=", 0) == Some(|before| + 12)
  {
    hide Header, Decimal, Count, Expression;
    var text, b := Header(l, before, after), |before|;
    Parts(l, before, after);
    CountDigits(l);
    FindIs(text, "nplurals=", 0, b);
    NoWord(text, b);
    FindIs(text, "plural=", 0, b + 12);
  }

  lemma {:induction false} Ends(text: string, k: nat)
    ensures OccursAt(text, "plural=", k) ==> text[k] == 'p' && text[k+6] == '='
  {
    if OccursAt(text, "plural=", k) {
      var w := text[k..k+7];
      assert w[0] == text[k] && w[6] == text[k+6];
    }
  }

  lemma {:induction false} NoWord(text: string, b: nat)
    requires b + 19 <= |text| && text[b..b+9] == "nplurals=" && text[b+9] != 'p' && text[b+10..b+19] == "; plural="
    ensures OccursAt(text, "plural=", b + 12) && forall k :: b <= k < b + 12 ==> !OccursAt(text, "plural=", k)
  {
    var u, v := text[b..b+9], text[b+10..b+19];
    assert forall k :: 0 <= k < 9 ==> text[b+k] == u[k] && text[b+10+k] == v[k];
    assert text[b+12..b+19] == v[2..] == "plural=";
    forall k | b <= k < b + 12 ensures !OccursAt(text, "plural=", k) {
      Ends(text, k);
      if k < b + 9 {
        assert text[k] == u[k-b] && u[7] == text[b+7];
        assert u[0] == 'n' && u[2] == 'l' && u[3] == 'u' && u[4] == 'r' && u[5] == 'a' && u[6] == 'l' && u[7] == 's' && u[8] == '=';
      } else if k > b + 9 {
        assert text[k] == v[k-b-10] && v[0] == ';' && v[1] == ' ';
      }
    }
  }

  lemma {:induction false} CountFound(l: Language, before: string, after: string)
    requires Free(before, Header(l, before, after))
    ensures var text, b := Header(l, before, after), |before|;
      && CountAt(text) == Some(b + 9) && SkipDigits(text, b + 9) == b + 10
      && Saturated(DigitsValue(text[b+9..b+10])) == Count(l)
  {
    hide Header, Decimal, Count, Expression;
    var text, b := Header(l, before, after), |before|;
    WordsFound(l, before, after);
    Parts(l, before, after);
    CountDigits(l);
    assert text[b+9] == text[b+9..b+10][0] && text[b+10] == text[b+10..b+19][0];
    assert SkipSpace(text, b + 9) == b + 9;
  }

  lemma {:induction false} HeightYield(s: Syn)
    ensures Height(s) <= 4 * |Yield(s)|
  {
    match s
    case SVar =>
    case SNum(_) =>
    case SNot(a) => HeightYield(a);
    case SBin(_, a, b) =>
      HeightYield(a);
      HeightYield(b);
    case SCond(c, t, f) =>
      HeightYield(c);
      HeightYield(t);
      HeightYield(f);
    case SParen(i) => HeightYield(i);
  }

  lemma {:induction false} TextLong(toks: seq<Tok>, gaps: seq<string>)
    requires |gaps| == |toks| && forall i :: 0 <= i < |toks| ==> Spellable(toks[i])
    ensures |Text(toks, gaps, "")| >= |toks|
  {
    hide Spell;
    if toks != [] {
      TextLong(toks[1..], gaps[1..]);
    }
  }

  lemma {:induction false} ExpressionShort(l: Language)
    ensures |Expression(l)| < 200
  {
  }

  lemma {:induction false} Shallow(l: Language)
    ensures 1 + Height(Parse(l)) < YYMAXDEPTH
  {
    hide Parse, Expression, Text, Yield, Height, Strip, WellFormed;
    Written(l);
    ExpressionShort(l);
    HeightYield(Parse(l));
    var gaps :| Spaced(Yield(Parse(l)), gaps, Expression(l));
    TextLong(Yield(Parse(l)), gaps);
  }

  /** The header specifies its phrase. */
  lemma {:induction false} Specified(l: Language, before: string, after: string)
    requires Free(before, Header(l, before, after))
    ensures Specifies(Header(l, before, after), Parse(l))
  {
    hide Header, Parse, Expression, Decimal, Count, Tokens, Find, Yield, CountAt, Text, OccursAt, Strip;
    var text := Header(l, before, after);
    WordsFound(l, before, after);
    CountFound(l, before, after);
    Parts(l, before, after);
    Written(l);
    Shallow(l);
    var tail := ";" + after;
    var pre := before + "nplurals=" + Decimal(Count(l)) + "; plural=";
    CountDigits(l);
    var gaps := WritesText(Yield(Parse(l)), Expression(l), tail);
    Ending(after);
    PhraseScans(pre, Parse(l), gaps, tail);
    assert text == pre + Text(Yield(Parse(l)), gaps, tail);
    assert |pre| == |before| + 12 + 7;
  }

  /** From the header of a catalog to the variant that is shown for `n`: the one that the rule says, or
      the first one when the catalog has fewer. */
  method Shown(l: Language, before: string, after: string, n: nat, translation: string) returns (p: nat)
    requires Free(before, Header(l, before, after))
    requires translation != "" && translation[|translation|-1] == '\0'
    ensures p < |translation|
    ensures var k, vs := Rule(l, n), Variants(translation, 0);
      |vs| > 0 && StringAt(translation, p) == vs[if k < |vs| then k else 0]
  {
    hide Header, Parse, Find, CountAt, Free, Rule, Count, Eval, DigitsValue, Saturated, SkipDigits, Specifies;
    Specified(l, before, after);
    WordsFound(l, before, after);
    CountFound(l, before, after);
    Ruled(l, n);
    var plural, nplurals := ExtractPluralExpression(Some(Header(l, before, after)));
    assert plural == Strip(Parse(l)) && nplurals == Count(l);
    p := PluralLookup(plural, nplurals, n, translation);
  }
}
