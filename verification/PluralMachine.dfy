/** The shift-reduce machine that intl/plural.c runs, one `Step` per pass through yybackup,
    and the proof that it recognises exactly the well-formed phrases.

    A stack keeps, beside each state, the symbol that led to it; a nonterminal carries the
    concrete tree it stands for, so that what has been read can always be recovered.  */
module PluralMachine {
  import opened PluralSyntax
  import opened PluralTables

  /** A terminal, an expression, or the start symbol. */
  datatype Sym = T(tok: Tok) | E(syn: Syn) | S(syn: Syn)

  /** The parser stack, topmost entry first; state 0 lies at the bottom. */
  datatype Stack = Bottom | Push(state: nat, sym: Sym, below: Stack)

  datatype Config = Config(stack: Stack, rest: seq<Tok>)

  function Initial(toks: seq<Tok>): Config {
    Config(Bottom, toks)
  }

  datatype Outcome = Running(c: Config) | Accepted(syn: Syn) | Rejected | Overflow

  function Top(st: Stack): nat {
    if st.Bottom? then 0 else st.state
  }

  /** Number of entries, the bottom one included. */
  function Depth(st: Stack): (d: nat)
    ensures d >= 1
  {
    if st.Bottom? then 1 else 1 + Depth(st.below)
  }

  /** The nonterminal that `rule` makes of the top of the stack, and the stack beneath it. */
  datatype Handle = Handle(sym: Sym, base: Stack) | NoHandle

  function Handled(rule: nat, st: Stack): Handle {
    if rule == 10 then (if st.Push? then Handle(E(SVar), st.below) else NoHandle)
    else if rule == 11 then
      (if st.Push? && st.sym.T? && st.sym.tok.Number? then Handle(E(SNum(st.sym.tok.n)), st.below) else NoHandle)
    else if rule == 12 then
      (if st.Push? && st.below.Push? && st.below.sym.E? && st.below.below.Push?
       then Handle(E(SParen(st.below.sym.syn)), st.below.below.below) else NoHandle)
    else if !st.Push? || !st.sym.E? then NoHandle
    else if rule == 1 then Handle(S(st.sym.syn), st.below)
    else if !st.below.Push? then NoHandle
    else if rule == 9 then Handle(E(SNot(st.sym.syn)), st.below.below)
    else if !st.below.below.Push? || !st.below.below.sym.E? then NoHandle
    else if 3 <= rule <= 8 then
      (if st.below.sym.T? && st.below.sym.tok.Binary?
       then Handle(E(SBin(st.below.sym.tok.op, st.below.below.sym.syn, st.sym.syn)), st.below.below.below)
       else NoHandle)
    else
      var b := st.below.below.below;
      if rule == 2 && b.Push? && b.below.Push? && b.below.sym.E?
      then Handle(E(SCond(b.below.sym.syn, st.below.below.sym.syn, st.sym.syn)), b.below.below)
      else NoHandle
  }

  function Enter(base: Stack, sym: Sym): Stack {
    Push(if sym.S? then 25 else GotoExp(Top(base)), sym, base)
  }

  /** One pass, where the stack overflows with `max` entries. */
  function Step(max: nat, c: Config): Outcome
    requires c.rest != []
  {
    if Depth(c.stack) >= max then Overflow
    else
      match Act(Top(c.stack), c.rest[0])
      case Shift(s) => Running(Config(Push(s, T(c.rest[0]), c.stack), if c.rest[0].End? then c.rest else c.rest[1..]))
      case Reduce(r) =>
        var h := Handled(r, c.stack);
        if h.NoHandle? then Rejected else Running(Config(Enter(h.base, h.sym), c.rest))
      case Accept =>
        (match c.stack
         case Push(_, T(End), Push(_, S(s), Bottom)) => Accepted(s)
         case _ => Rejected)
      case Error => Rejected
  }

  // ---------------------------------------------------------------- soundness

  function Spelled(y: Sym): seq<Tok> {
    match y
    case T(t) => if t.End? then [] else [t]
    case E(s) => Yield(s)
    case S(s) => Yield(s)
  }

  /** The tokens consumed so far. */
  function Flat(st: Stack): seq<Tok> {
    if st.Bottom? then [] else Flat(st.below) + Spelled(st.sym)
  }

  /** May operator or delimiter `t` follow the complete phrase `s`? */
  predicate Follows(t: Tok, s: Syn) {
    (t.Query? ==> Level(s) >= 1) && (t.Binary? ==> Level(s) >= Prec(t.op))
  }

  /** State `s'` is entered from `s` by shifting `t`. */
  predicate Entered(s: nat, t: Tok, s': nat) {
    match t
    case Bang => s' == 1 && Operand(s)
    case Number(_) => s' == 2 && Operand(s)
    case VarN => s' == 3 && Operand(s)
    case LPar => s' == 4 && Operand(s)
    case Query => s' == 8 && Extensible(s) && MinLevel(s) == 0
    case Binary(op) => s' == 8 + Prec(op) && Extensible(s) && MinLevel(s) <= Prec(op)
    case RPar => s' == 15 && s == 7
    case Colon => s' == 23 && s == 16
    case End => s' == 26 && s == 25
    case Bad => false
  }

  lemma {:induction false} ShiftEnters(s: nat, t: Tok, s': nat)
    requires Act(s, t) == Shift(s')
    ensures Entered(s, t, s')
  {
  }

  predicate Linked(s: nat, y: Sym, s': nat) {
    match y
    case T(t) => Entered(s, t, s')
    case E(e) => Operand(s) && s' == GotoExp(s) && WellFormed(e) && Level(e) >= MinLevel(s')
    case S(e) => s == 0 && s' == 25 && WellFormed(e)
  }

  predicate ValidStack(st: Stack) {
    st.Push? ==>
      && Linked(Top(st.below), st.sym, st.state)
      && (st.sym.T? && st.below.Push? && st.below.sym.E? ==> Follows(st.sym.tok, st.below.sym.syn))
      && ValidStack(st.below)
  }

  /** A token sequence as the scanner delivers it: one end marker, at the end. */
  predicate Ended(toks: seq<Tok>) {
    toks != [] && forall i :: 0 <= i < |toks| ==> (toks[i] == End <==> i == |toks| - 1)
  }

  predicate Valid(c: Config) {
    && Ended(c.rest)
    && ValidStack(c.stack)
    && (c.stack.Push? && c.stack.sym.E? ==> Follows(c.rest[0], c.stack.sym.syn))
  }

  /** The state on top and the next token tell which reduction is due. */
  lemma {:induction false} ReduceState(s: nat, look: Tok, rule: nat)
    requires Act(s, look) == Reduce(rule)
    ensures 1 <= rule <= 12
    ensures s == (match rule
                  case 1 => 5 case 2 => 24 case 9 => 6 case 10 => 3 case 11 => 2 case 12 => 15
                  case _ => rule + 14)
    ensures rule == 2 ==> !look.Query? && !look.Binary?
    ensures 3 <= rule <= 8 && look.Binary? ==> Prec(look.op) <= rule - 2
  {
  }

  /** `h` may stand on the state beneath it. */
  predicate Fits(h: Handle, look: Tok) {
    && h.Handle? && !h.sym.T?
    && Linked(Top(h.base), h.sym, if h.sym.S? then 25 else GotoExp(Top(h.base)))
    && ValidStack(h.base)
    && (h.sym.E? ==> Follows(look, h.sym.syn))
  }

  lemma {:induction false} Assoc(w: seq<Tok>, a: seq<Tok>, b: seq<Tok>, c: seq<Tok>)
    ensures w + a + b + c == w + (a + b + c)
  {
  }

  lemma {:induction false} FlatThree(st: Stack)
    requires st.Push? && st.below.Push? && st.below.below.Push?
    ensures Flat(st) == Flat(st.below.below.below) +
                        (Spelled(st.below.below.sym) + Spelled(st.below.sym) + Spelled(st.sym))
  {
    assert Flat(st.below) == Flat(st.below.below) + Spelled(st.below.sym);
    Assoc(Flat(st.below.below.below), Spelled(st.below.below.sym), Spelled(st.below.sym), Spelled(st.sym));
  }

  lemma {:induction false} PopValid(st: Stack)
    requires ValidStack(st) && st.Push?
    ensures Linked(Top(st.below), st.sym, st.state) && ValidStack(st.below)
    ensures st.sym.T? && st.below.Push? && st.below.sym.E? ==> Follows(st.sym.tok, st.below.sym.syn)
  {
    hide Linked, Follows, Top;
  }

  lemma {:induction false} PopFlat(st: Stack)
    requires st.Push?
    ensures Flat(st) == Flat(st.below) + Spelled(st.sym)
  {
    hide Spelled;
  }

  lemma {:induction false} Atom(st: Stack, look: Tok, rule: nat)
    requires ValidStack(st) && Top(st) == (if rule == 1 then 5 else if rule == 10 then 3 else 2)
    requires rule == 1 || rule == 10 || rule == 11
    ensures Fits(Handled(rule, st), look)
    ensures Flat(st) == Flat(Handled(rule, st).base) + Spelled(Handled(rule, st).sym)
  {
    hide ValidStack, Flat, Act;
    PopValid(st);
    PopFlat(st);
  }

  lemma {:induction false} UnaryShape(st: Stack)
    requires ValidStack(st) && Top(st) == 6
    ensures st.Push? && st.sym.E? && st.below.Push? && st.below.sym == T(Bang)
    ensures WellFormed(SNot(st.sym.syn)) && ValidStack(st.below.below) && Operand(Top(st.below.below))
  {
    hide ValidStack;
    PopValid(st);
    PopValid(st.below);
  }

  lemma {:induction false} Unary(st: Stack, look: Tok)
    requires ValidStack(st) && Top(st) == 6
    ensures Fits(Handled(9, st), look)
    ensures Flat(st) == Flat(Handled(9, st).base) + Spelled(Handled(9, st).sym)
  {
    hide ValidStack, Flat, Fits;
    UnaryShape(st);
    NotFits(st.below.below, st.sym.syn, look);
    FlatTwo(st);
  }

  lemma {:induction false} NotFits(base: Stack, e: Syn, look: Tok)
    requires ValidStack(base) && Operand(Top(base)) && WellFormed(SNot(e))
    ensures Fits(Handle(E(SNot(e)), base), look)
  {
    hide ValidStack;
  }

  lemma {:induction false} FlatTwo(st: Stack)
    requires st.Push? && st.below.Push?
    ensures Flat(st) == Flat(st.below.below) + (Spelled(st.below.sym) + Spelled(st.sym))
  {
    hide Flat, Spelled;
    PopFlat(st);
    PopFlat(st.below);
  }

  lemma {:induction false} Parenthesised(st: Stack, look: Tok)
    requires ValidStack(st) && Top(st) == 15
    ensures Fits(Handled(12, st), look)
    ensures Flat(st) == Flat(Handled(12, st).base) + Spelled(Handled(12, st).sym)
  {
    hide ValidStack, Flat;
    var b := st.below;
    PopValid(st);
    PopValid(b);
    PopValid(b.below);
    FlatThree(st);
  }

  lemma {:induction false} InfixFits(base: Stack, op: BinOp, l: Syn, r: Syn, look: Tok)
    requires ValidStack(base) && Operand(Top(base)) && MinLevel(GotoExp(Top(base))) <= Prec(op)
    requires WellFormed(SBin(op, l, r))
    requires look.Binary? ==> Prec(look.op) <= Prec(op)
    ensures Fits(Handle(E(SBin(op, l, r)), base), look)
  {
  }

  lemma {:induction false} InfixShape(st: Stack, p: nat)
    requires ValidStack(st) && 1 <= p <= 6 && Top(st) == p + 16
    ensures st.Push? && st.sym.E? && st.below.Push? && st.below.sym.T? && st.below.sym.tok.Binary?
    ensures Prec(st.below.sym.tok.op) == p && st.below.below.Push? && st.below.below.sym.E?
    ensures WellFormed(SBin(st.below.sym.tok.op, st.below.below.sym.syn, st.sym.syn))
    ensures var base := st.below.below.below;
      ValidStack(base) && Operand(Top(base)) && MinLevel(GotoExp(Top(base))) <= p
  {
    var b := st.below;
    assert Top(b) == p + 8 && ValidStack(b);
    assert b.sym.T? && b.sym.tok.Binary? && Prec(b.sym.tok.op) == p;
    assert Extensible(Top(b.below)) && ValidStack(b.below);
    assert b.below.sym.E? && Follows(b.sym.tok, b.below.sym.syn);
  }

  lemma {:induction false} Infix(st: Stack, look: Tok, rule: nat)
    requires ValidStack(st) && 3 <= rule <= 8 && Top(st) == rule + 14
    requires look.Binary? ==> Prec(look.op) <= rule - 2
    ensures Fits(Handled(rule, st), look)
    ensures Flat(st) == Flat(Handled(rule, st).base) + Spelled(Handled(rule, st).sym)
  {
    InfixShape(st, rule - 2);
    var b := st.below;
    InfixFits(b.below.below, b.sym.tok.op, b.below.sym.syn, st.sym.syn, look);
    FlatThree(st);
  }

  lemma {:induction false} Conditional(st: Stack, look: Tok)
    requires ValidStack(st) && Top(st) == 24 && !look.Query? && !look.Binary?
    ensures Fits(Handled(2, st), look)
    ensures Flat(st) == Flat(Handled(2, st).base) + Spelled(Handled(2, st).sym)
  {
    hide ValidStack, Flat;
    var b := st.below;
    PopValid(st);
    PopValid(b);
    PopValid(b.below);
    var d := b.below.below;
    PopValid(d);
    PopValid(d.below);
    FlatThree(b.below);
    PopFlat(st);
    PopFlat(b);
    Assoc(Flat(d.below.below), Yield(d.below.sym.syn) + [Query] + Yield(b.below.sym.syn), [Colon], Yield(st.sym.syn));
  }

  /** The reductions the machine takes always find their handle, and the phrase they build is
      well formed, spells the tokens it replaces, and fits the state beneath. */
  lemma {:induction false} ReduceKeeps(st: Stack, look: Tok, rule: nat)
    requires ValidStack(st) && Act(Top(st), look) == Reduce(rule)
    ensures 1 <= rule <= 12 && Fits(Handled(rule, st), look)
    ensures Flat(st) == Flat(Handled(rule, st).base) + Spelled(Handled(rule, st).sym)
  {
    ReduceState(Top(st), look, rule);
    if rule == 1 || rule == 10 || rule == 11 {
      Atom(st, look, rule);
    } else if rule == 9 {
      Unary(st, look);
    } else if rule == 12 {
      Parenthesised(st, look);
    } else if rule == 2 {
      Conditional(st, look);
    } else {
      Infix(st, look, rule);
    }
  }

  /** Where the machine accepts, the stack holds the whole input as one phrase. */
  lemma {:induction false} AcceptShape(c: Config)
    requires Valid(c) && Act(Top(c.stack), c.rest[0]) == Accept
    ensures c.stack.Push? && c.stack.below.Push? && c.stack.sym == T(End) && c.stack.below.sym.S?
    ensures c.stack.below.below == Bottom && c.rest == [End]
    ensures WellFormed(c.stack.below.sym.syn)
    ensures Flat(c.stack) == Yield(c.stack.below.sym.syn)
  {
    var b := c.stack.below;
    assert ValidStack(c.stack) && ValidStack(b) && ValidStack(b.below);
    assert Flat(b) == Flat(Bottom) + Yield(b.sym.syn);
  }

  lemma {:induction false} ShiftKeeps(c: Config, s: nat)
    requires Valid(c) && Act(Top(c.stack), c.rest[0]) == Shift(s)
    ensures var c' := Config(Push(s, T(c.rest[0]), c.stack), if c.rest[0].End? then c.rest else c.rest[1..]);
      Valid(c') && Flat(c'.stack) + c'.rest == Flat(c.stack) + c.rest
  {
    ShiftEnters(Top(c.stack), c.rest[0], s);
    if !c.rest[0].End? {
      assert c.rest == [c.rest[0]] + c.rest[1..];
    }
  }

  /** Every step keeps the configuration valid and loses no token; what is accepted is well
      formed and spells the whole input. */
  lemma {:induction false} StepKeeps(max: nat, c: Config)
    requires Valid(c)
    ensures Step(max, c).Running? ==> Valid(Step(max, c).c) && Flat(Step(max, c).c.stack) + Step(max, c).c.rest == Flat(c.stack) + c.rest
    ensures Step(max, c).Accepted? ==> WellFormed(Step(max, c).syn) && Yield(Step(max, c).syn) + [End] == Flat(c.stack) + c.rest
  {
    match Act(Top(c.stack), c.rest[0])
    case Shift(s) => ShiftKeeps(c, s);
    case Reduce(r) => ReduceKeeps(c.stack, c.rest[0], r);
    case Accept => AcceptShape(c);
    case Error =>
  }

  /** What has become of `c` after at most `n` steps. */
  function Run(max: nat, c: Config, n: nat): Outcome
    requires Valid(c)
    decreases n
  {
    if n == 0 then Running(c)
    else
      StepKeeps(max, c);
      match Step(max, c)
      case Running(c') => Run(max, c', n - 1)
      case halted => halted
  }

  /** Soundness: a phrase the machine accepts is well formed and spells the whole input. */
  lemma {:induction false} RunSound(max: nat, c: Config, n: nat)
    requires Valid(c)
    ensures Run(max, c, n).Running? ==> Valid(Run(max, c, n).c) && Flat(Run(max, c, n).c.stack) + Run(max, c, n).c.rest == Flat(c.stack) + c.rest
    ensures Run(max, c, n).Accepted? ==> WellFormed(Run(max, c, n).syn) && Yield(Run(max, c, n).syn) + [End] == Flat(c.stack) + c.rest
    decreases n
  {
    hide Step, ValidStack, Follows, Flat, Yield, WellFormed;
    if n > 0 {
      StepKeeps(max, c);
      match Step(max, c)
      case Running(c') => RunSound(max, c', n - 1);
      case _ =>
    }
  }
}
