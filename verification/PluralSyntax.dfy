/** Plural-form expressions and the grammar they are written in.

    `Expr` is the tree the parser builds and the evaluator walks.  `Syn` is a concrete
    syntax tree: an `Expr` plus the parentheses that were written.  A `WellFormed` `Syn`
    respects the grammar's precedences; its `Yield` is the token sequence it spells and
    `Strip` forgets the parentheses.  */
module PluralSyntax {

  datatype BinOp =
    | LOr | LAnd
    | Equal | NotEqual
    | LessThan | GreaterThan | LessOrEqual | GreaterOrEqual
    | Plus | Minus
    | Mult | Divide | Modulo

  datatype Expr =
    | Var
    | Num(n: nat)
    | Not(arg: Expr)
    | Bin(op: BinOp, left: Expr, right: Expr)
    | Cond(test: Expr, thn: Expr, els: Expr)

  datatype Tok =
    | End | Bad
    | Query | Colon | LPar | RPar | Bang | VarN
    | Number(n: nat)
    | Binary(op: BinOp)

  datatype Syn =
    | SVar
    | SNum(n: nat)
    | SNot(arg: Syn)
    | SBin(op: BinOp, left: Syn, right: Syn)
    | SCond(test: Syn, thn: Syn, els: Syn)
    | SParen(inner: Syn)

  /** Precedence of a binary operator: 1 binds loosest, 6 tightest. */
  function Prec(op: BinOp): (p: nat)
    ensures 1 <= p <= 6
  {
    match op
    case LOr => 1
    case LAnd => 2
    case Equal => 3
    case NotEqual => 3
    case LessThan => 4
    case GreaterThan => 4
    case LessOrEqual => 4
    case GreaterOrEqual => 4
    case Plus => 5
    case Minus => 5
    case Mult => 6
    case Divide => 6
    case Modulo => 6
  }

  /** How tightly a phrase holds together: 0 for ?:, 1 to 6 for binary operators, 7 otherwise. */
  function Level(s: Syn): nat {
    match s
    case SCond(_, _, _) => 0
    case SBin(op, _, _) => Prec(op)
    case _ => 7
  }

  /** Precedence and associativity: binary operators group to the left, ?: to the right,
      the middle of ?: may be anything, and ! applies to the shortest operand. */
  predicate WellFormed(s: Syn) {
    match s
    case SVar => true
    case SNum(_) => true
    case SNot(a) => WellFormed(a) && Level(a) == 7
    case SBin(op, l, r) => WellFormed(l) && WellFormed(r) && Level(l) >= Prec(op) && Level(r) > Prec(op)
    case SCond(c, t, f) => WellFormed(c) && WellFormed(t) && WellFormed(f) && Level(c) >= 1
    case SParen(i) => WellFormed(i)
  }

  function Yield(s: Syn): seq<Tok> {
    match s
    case SVar => [VarN]
    case SNum(n) => [Number(n)]
    case SNot(a) => [Bang] + Yield(a)
    case SBin(op, l, r) => Yield(l) + [Binary(op)] + Yield(r)
    case SCond(c, t, f) => Yield(c) + [Query] + Yield(t) + [Colon] + Yield(f)
    case SParen(i) => [LPar] + Yield(i) + [RPar]
  }

  function Strip(s: Syn): Expr {
    match s
    case SVar => Var
    case SNum(n) => Num(n)
    case SNot(a) => Not(Strip(a))
    case SBin(op, l, r) => Bin(op, Strip(l), Strip(r))
    case SCond(c, t, f) => Cond(Strip(c), Strip(t), Strip(f))
    case SParen(i) => Strip(i)
  }

  /** The largest number of stack entries the phrase occupies while it is being parsed. */
  function Height(s: Syn): (h: nat)
    ensures h >= 1
  {
    match s
    case SVar => 1
    case SNum(_) => 1
    case SNot(a) => 1 + Height(a)
    case SBin(_, l, r) => Max(Height(l), 2 + Height(r))
    case SCond(c, t, f) => Max(Height(c), Max(2 + Height(t), 4 + Height(f)))
    case SParen(i) => Max(1 + Height(i), 3)
  }

  function Max(a: nat, b: nat): nat { if a >= b then a else b }

  // ---------------------------------------------------------------- minimal parentheses

  /** Parenthesise `s` only where a phrase of level at least `level` is needed. */
  function Guard(s: Syn, level: nat): Syn {
    if Level(s) >= level then s else SParen(s)
  }

  /** The concrete tree of `e` with no more parentheses than precedence demands. */
  function Minimal(e: Expr): Syn {
    match e
    case Var => SVar
    case Num(n) => SNum(n)
    case Not(a) => SNot(Guard(Minimal(a), 7))
    case Bin(op, l, r) => SBin(op, Guard(Minimal(l), Prec(op)), Guard(Minimal(r), Prec(op) + 1))
    case Cond(c, t, f) => SCond(Guard(Minimal(c), 1), Minimal(t), Minimal(f))
  }

  lemma {:induction false} GuardKeeps(s: Syn, level: nat)
    requires WellFormed(s) && level <= 7
    ensures var g := Guard(s, level); WellFormed(g) && Strip(g) == Strip(s) && Level(g) >= level
  {
    hide Prec;
  }

  /** Minimal printing obeys the grammar and denotes the tree it was made from. */
  lemma {:induction false} MinimalDenotes(e: Expr)
    ensures WellFormed(Minimal(e)) && Strip(Minimal(e)) == e
  {
    hide Guard, Level, Prec;
    match e
    case Var =>
    case Num(_) =>
    case Not(a) =>
      MinimalDenotes(a);
      GuardKeeps(Minimal(a), 7);
      AtomLevel(Guard(Minimal(a), 7));
    case Bin(op, l, r) =>
      MinimalDenotes(l);
      MinimalDenotes(r);
      GuardKeeps(Minimal(l), Prec(op));
      GuardKeeps(Minimal(r), Prec(op) + 1);
    case Cond(c, t, f) =>
      MinimalDenotes(c);
      MinimalDenotes(t);
      MinimalDenotes(f);
      GuardKeeps(Minimal(c), 1);
  }

  lemma {:induction false} AtomLevel(s: Syn)
    ensures Level(s) <= 7
  {
  }

  /** Number of pairs of parentheses in a concrete tree. */
  function Parens(s: Syn): nat {
    match s
    case SVar => 0
    case SNum(_) => 0
    case SNot(a) => Parens(a)
    case SBin(_, l, r) => Parens(l) + Parens(r)
    case SCond(c, t, f) => Parens(c) + Parens(t) + Parens(f)
    case SParen(i) => 1 + Parens(i)
  }

  /** What `MinimalIsMinimal` says of `s`, `m` being the minimal way of writing the same tree. */
  predicate NoBetter(s: Syn, m: Syn) {
    && (Level(s) == 7 || Level(s) == Level(m))
    && Parens(s) >= Parens(m)
    && (Level(s) != Level(m) ==> Parens(s) > Parens(m))
  }

  lemma {:induction false} GuardNoBetter(s: Syn, m: Syn, level: nat)
    requires NoBetter(s, m) && Level(s) >= level
    ensures Parens(s) >= Parens(Guard(m, level))
  {
    hide Prec;
    assert Parens(SParen(m)) == 1 + Parens(m);
  }

  /** No well-formed way of writing `e` uses fewer parentheses than `Minimal(e)`, and one
      that holds together less tightly than `Minimal(e)` does not exist. */
  lemma {:induction false} MinimalIsMinimal(s: Syn)
    requires WellFormed(s)
    ensures Level(s) == 7 || Level(s) == Level(Minimal(Strip(s)))
    ensures Parens(s) >= Parens(Minimal(Strip(s)))
    ensures Level(s) != Level(Minimal(Strip(s))) ==> Parens(s) > Parens(Minimal(Strip(s)))
  {
    hide Guard, Prec;
    match s
    case SVar =>
    case SNum(_) =>
    case SNot(a) =>
      MinimalIsMinimal(a);
      GuardNoBetter(a, Minimal(Strip(a)), 7);
    case SBin(op, l, r) =>
      MinimalIsMinimal(l);
      MinimalIsMinimal(r);
      GuardNoBetter(l, Minimal(Strip(l)), Prec(op));
      GuardNoBetter(r, Minimal(Strip(r)), Prec(op) + 1);
    case SCond(c, t, f) =>
      MinimalIsMinimal(c);
      MinimalIsMinimal(t);
      MinimalIsMinimal(f);
      GuardNoBetter(c, Minimal(Strip(c)), 1);
    case SParen(i) =>
      MinimalIsMinimal(i);
  }
}
