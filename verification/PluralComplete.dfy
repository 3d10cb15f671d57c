/** Completeness of the shift-reduce machine: every well-formed phrase is recognised, in a number
    of steps and a stack depth that can be read off the phrase.  */
module PluralComplete {
  import opened PluralSyntax
  import opened PluralTables
  import opened PluralMachine

  /** Shifts and reductions spent on a phrase. */
  function Steps(s: Syn): nat {
    match s
    case SVar => 2
    case SNum(_) => 2
    case SNot(a) => 1 + (Steps(a) + 1)
    case SBin(_, l, r) => Steps(l) + (1 + (Steps(r) + 1))
    case SCond(c, t, f) => Steps(c) + (1 + (Steps(t) + (1 + (Steps(f) + 1))))
    case SParen(i) => 1 + (Steps(i) + 2)
  }

  lemma YieldTokens(s: Syn)
    ensures Yield(s) != [] && End !in Yield(s)
  {
  }

  lemma {:induction false} EndedAfter(w: seq<Tok>, rest: seq<Tok>)
    requires End !in w && Ended(rest)
    ensures Ended(w + rest)
  {
    forall i | 0 <= i < |w + rest| ensures (w + rest)[i] == End <==> i == |w + rest| - 1 {
      if i < |w| {
        assert (w + rest)[i] == w[i];
      }
    }
  }

  /** A stack waiting for an operand, in front of a phrase. */
  lemma {:induction false} ReadyValid(st: Stack, s: Syn, rest: seq<Tok>)
    requires ValidStack(st) && Operand(Top(st)) && Ended(rest)
    ensures Valid(Config(st, Yield(s) + rest))
  {
    YieldTokens(s);
    EndedAfter(Yield(s), rest);
  }

  // ---------------------------------------------------------------- composing runs

  /** `n` steps from `c` lead to `o`. */
  ghost predicate Leads(max: nat, c: Config, n: nat, o: Outcome) {
    Valid(c) && Run(max, c, n) == o
  }

  /** Steps that follow one another. */
  lemma {:induction false} Then(max: nat, c: Config, a: nat, b: nat, o: Outcome)
    requires Valid(c)
    requires Run(max, c, a).Running? ==> Leads(max, Run(max, c, a).c, b, o)
    requires !Run(max, c, a).Running? ==> o == Run(max, c, a)
    ensures Leads(max, c, a + b, o)
    decreases a
  {
    hide Act, Depth, Follows, ValidStack, Handled;
    if a > 0 {
      StepKeeps(max, c);
      if Step(max, c).Running? {
        Then(max, Step(max, c).c, a - 1, b, o);
      }
    }
  }

  lemma {:induction false} RunningValid(max: nat, c: Config, n: nat, c': Config)
    requires Leads(max, c, n, Running(c'))
    ensures Valid(c')
  {
    RunSound(max, c, n);
  }

  lemma {:induction false} ThenRunning(max: nat, c: Config, a: nat, c': Config, b: nat, o: Outcome)
    requires Leads(max, c, a, Running(c')) && Leads(max, c', b, o)
    ensures Leads(max, c, a + b, o)
  {
    Then(max, c, a, b, o);
  }

  lemma {:induction false} ThenOverflow(max: nat, c: Config, a: nat, b: nat)
    requires Leads(max, c, a, Overflow)
    ensures Leads(max, c, a + b, Overflow)
  {
    Then(max, c, a, b, Overflow);
  }

  lemma {:induction false} ShiftLeads(max: nat, st: Stack, t: Tok, w: seq<Tok>, s': nat, n: nat, o: Outcome)
    requires Valid(Config(st, [t] + w)) && !t.End? && Act(Top(st), t) == Shift(s')
    requires Leads(max, Config(Push(s', T(t), st), w), n, o)
    ensures Leads(max, Config(st, [t] + w), 1 + n, if Depth(st) >= max then Overflow else o)
  {
    var c := Config(st, [t] + w);
    assert c.rest[1..] == w;
    StepKeeps(max, c);
  }

  lemma {:induction false} ShiftValid(st: Stack, t: Tok, w: seq<Tok>, s': nat)
    requires Valid(Config(st, [t] + w)) && !t.End? && Act(Top(st), t) == Shift(s')
    ensures Valid(Config(Push(s', T(t), st), w))
  {
    ShiftKeeps(Config(st, [t] + w), s');
    assert ([t] + w)[1..] == w;
  }

  lemma {:induction false} ReduceLeads(max: nat, st: Stack, w: seq<Tok>, rule: nat, sym: Sym, base: Stack)
    requires Valid(Config(st, w)) && Act(Top(st), w[0]) == Reduce(rule)
    requires Handled(rule, st) == Handle(sym, base)
    ensures Valid(Config(Enter(base, sym), w))
    ensures Leads(max, Config(st, w), 1, if Depth(st) >= max then Overflow else Running(Config(Enter(base, sym), w)))
  {
    StepKeeps(max, Config(st, w));
    ReduceKeeps(st, w[0], rule);
  }

  // ---------------------------------------------------------------- reading a phrase

  /** Where reading the phrase `s` on top of `st` leads. */
  function Parsed(max: nat, st: Stack, s: Syn, rest: seq<Tok>): Outcome {
    if Depth(st) + Height(s) < max then Running(Config(Enter(st, E(s)), rest)) else Overflow
  }

  /** `s` may be read on top of `st` when `rest` comes next. */
  predicate Admits(st: Stack, s: Syn, rest: seq<Tok>) {
    && ValidStack(st) && Operand(Top(st)) && Ended(rest)
    && WellFormed(s) && Level(s) >= MinLevel(GotoExp(Top(st))) && Follows(rest[0], s)
  }

  /** Completeness, and exactly how deep a stack it takes. */
  lemma {:induction false} PhraseParses(max: nat, st: Stack, s: Syn, rest: seq<Tok>)
    requires Admits(st, s, rest)
    ensures Leads(max, Config(st, Yield(s) + rest), Steps(s), Parsed(max, st, s, rest))
    decreases s, 1
  {
    hide Leads, Valid, Admits, Depth, Parsed;
    Admitted(st, s, rest);
    match s
    case SVar => AtomParses(max, st, s, rest);
    case SNum(_) => AtomParses(max, st, s, rest);
    case SNot(a) =>
      UnaryAdmits(st, a, rest);
      PhraseParses(max, Push(1, T(Bang), st), a, rest);
      assert Yield(s) + rest == [Bang] + (Yield(a) + rest);
      NotParses(max, st, a, Yield(a) + rest, rest);
    case SParen(i) =>
      ParenAdmits(st, i, rest);
      PhraseParses(max, Push(4, T(LPar), st), i, [RPar] + rest);
      assert Yield(s) + rest == [LPar] + (Yield(i) + ([RPar] + rest));
      ParenParses(max, st, i, Yield(i) + ([RPar] + rest), rest);
    case SBin(_, _, _) => InfixPhrase(max, st, s, rest);
    case SCond(_, _, _) => CondPhrase(max, st, s, rest);
  }

  lemma {:induction false} InfixPhrase(max: nat, st: Stack, s: Syn, rest: seq<Tok>)
    requires Admits(st, s, rest) && s.SBin?
    ensures Leads(max, Config(st, Yield(s) + rest), Steps(s), Parsed(max, st, s, rest))
    decreases s, 0
  {
    hide Leads, Valid, Admits, Depth, Parsed, Act, Operand;
    InfixAdmits(st, s.op, s.left, s.right, rest);
    var w2 := Yield(s.right) + rest;
    var w := Yield(s.left) + ([Binary(s.op)] + w2);
    PhraseParses(max, st, s.left, [Binary(s.op)] + w2);
    PhraseParses(max, Push(8 + Prec(s.op), T(Binary(s.op)), Enter(st, E(s.left))), s.right, rest);
    InfixParses(max, st, s.op, s.left, s.right, w, w2, rest);
    assert Yield(s) + rest == w;
  }

  lemma {:induction false} CondPhrase(max: nat, st: Stack, s: Syn, rest: seq<Tok>)
    requires Admits(st, s, rest) && s.SCond?
    ensures Leads(max, Config(st, Yield(s) + rest), Steps(s), Parsed(max, st, s, rest))
    decreases s, 0
  {
    hide Leads, Valid, Admits, Depth, Parsed, Act, Operand, Yield;
    CondAdmits(st, s.test, s.thn, s.els, rest);
    var w4 := Yield(s.els) + rest;
    var w2 := Yield(s.thn) + ([Colon] + w4);
    var w := Yield(s.test) + ([Query] + w2);
    var st2 := Push(8, T(Query), Enter(st, E(s.test)));
    PhraseParses(max, st, s.test, [Query] + w2);
    PhraseParses(max, st2, s.thn, [Colon] + w4);
    PhraseParses(max, Push(23, T(Colon), Enter(st2, E(s.thn))), s.els, rest);
    CondParses(max, st, s.test, s.thn, s.els, w, w2, w4, rest);
    CondYield(s.test, s.thn, s.els, rest);
  }

  lemma {:induction false} CondYield(c: Syn, t: Syn, f: Syn, rest: seq<Tok>)
    ensures Yield(SCond(c, t, f)) + rest == Yield(c) + ([Query] + (Yield(t) + ([Colon] + (Yield(f) + rest))))
  {
  }

  lemma {:induction false} Admitted(st: Stack, s: Syn, rest: seq<Tok>)
    requires Admits(st, s, rest)
    ensures rest != [] && Valid(Config(st, Yield(s) + rest))
  {
    ReadyValid(st, s, rest);
  }

  lemma {:induction false} AtomParses(max: nat, st: Stack, s: Syn, rest: seq<Tok>)
    requires Admits(st, s, rest) && (s.SVar? || s.SNum?)
    ensures Leads(max, Config(st, Yield(s) + rest), 2, Parsed(max, st, s, rest))
  {
    hide Leads;
    ReadyValid(st, s, rest);
    var t := Yield(s)[0];
    var q := if s.SVar? then 3 else 2;
    var st1 := Push(q, T(t), st);
    ShiftValid(st, t, rest, q);
    ReduceLeads(max, st1, rest, if s.SVar? then 10 else 11, E(s), st);
    ShiftLeads(max, st, t, rest, q, 1, Parsed(max, st, s, rest));
  }

  lemma {:induction false} UnaryAdmits(st: Stack, a: Syn, rest: seq<Tok>)
    requires Admits(st, SNot(a), rest)
    ensures rest != [] && Operand(Top(st))
    ensures Admits(Push(1, T(Bang), st), a, rest)
  {
  }

  /** `!` and its operand, given that the operand is read from the tokens `w`. */
  lemma {:induction false} NotParses(max: nat, st: Stack, a: Syn, w: seq<Tok>, rest: seq<Tok>)
    requires Valid(Config(st, [Bang] + w)) && Operand(Top(st)) && rest != []
    requires Leads(max, Config(Push(1, T(Bang), st), w), Steps(a), Parsed(max, Push(1, T(Bang), st), a, rest))
    ensures Leads(max, Config(st, [Bang] + w), 1 + (Steps(a) + 1), Parsed(max, st, SNot(a), rest))
  {
    hide Leads, Valid, Steps;
    var st1 := Push(1, T(Bang), st);
    if Depth(st1) + Height(a) < max {
      RunningValid(max, Config(st1, w), Steps(a), Config(Enter(st1, E(a)), rest));
      ReduceLeads(max, Enter(st1, E(a)), rest, 9, E(SNot(a)), st);
      ThenRunning(max, Config(st1, w), Steps(a), Config(Enter(st1, E(a)), rest), 1, Parsed(max, st, SNot(a), rest));
    } else {
      ThenOverflow(max, Config(st1, w), Steps(a), 1);
    }
    ShiftLeads(max, st, Bang, w, 1, Steps(a) + 1, Parsed(max, st, SNot(a), rest));
  }

  lemma {:induction false} ParenAdmits(st: Stack, i: Syn, rest: seq<Tok>)
    requires Admits(st, SParen(i), rest)
    ensures rest != [] && Operand(Top(st))
    ensures Admits(Push(4, T(LPar), st), i, [RPar] + rest)
  {
    EndedAfter([RPar], rest);
  }

  lemma {:induction false} ParenParses(max: nat, st: Stack, i: Syn, w: seq<Tok>, rest: seq<Tok>)
    requires Valid(Config(st, [LPar] + w)) && Operand(Top(st)) && rest != []
    requires Leads(max, Config(Push(4, T(LPar), st), w), Steps(i), Parsed(max, Push(4, T(LPar), st), i, [RPar] + rest))
    ensures Leads(max, Config(st, [LPar] + w), 1 + (Steps(i) + 2), Parsed(max, st, SParen(i), rest))
  {
    hide Leads, Valid, Steps;
    var st1 := Push(4, T(LPar), st);
    var o := Parsed(max, st, SParen(i), rest);
    if Depth(st1) + Height(i) < max {
      var st2 := Enter(st1, E(i));
      assert Depth(st2) == Depth(st) + 2;
      RunningValid(max, Config(st1, w), Steps(i), Config(st2, [RPar] + rest));
      ShiftValid(st2, RPar, rest, 15);
      ReduceLeads(max, Push(15, T(RPar), st2), rest, 12, E(SParen(i)), st);
      ShiftLeads(max, st2, RPar, rest, 15, 1, o);
      ThenRunning(max, Config(st1, w), Steps(i), Config(st2, [RPar] + rest), 2, o);
    } else {
      ThenOverflow(max, Config(st1, w), Steps(i), 2);
    }
    ShiftLeads(max, st, LPar, w, 4, Steps(i) + 2, o);
  }

  lemma {:induction false} InfixAdmits(st: Stack, op: BinOp, l: Syn, r: Syn, rest: seq<Tok>)
    requires Admits(st, SBin(op, l, r), rest)
    ensures rest != []
    ensures Admits(st, l, [Binary(op)] + (Yield(r) + rest))
    ensures Admits(Push(8 + Prec(op), T(Binary(op)), Enter(st, E(l))), r, rest)
    ensures Act(Top(Enter(st, E(l))), Binary(op)) == Shift(8 + Prec(op))
    ensures Operand(8 + Prec(op)) && Act(16 + Prec(op), rest[0]) == Reduce(2 + Prec(op))
  {
    hide Yield, ValidStack, Act;
    EndedSome(rest);
    YieldTokens(r);
    EndedAfter(Yield(r), rest);
    EndedAfter([Binary(op)], Yield(r) + rest);
    OperatorActs(Top(st), op, rest[0]);
    PushValid(st, E(l), Enter(st, E(l)).state);
    PushValid(Enter(st, E(l)), T(Binary(op)), 8 + Prec(op));
  }

  lemma {:induction false} OperatorActs(s: nat, op: BinOp, look: Tok)
    requires Operand(s) && Prec(op) >= MinLevel(GotoExp(s))
    requires look.Binary? ==> Prec(look.op) <= Prec(op)
    ensures Act(GotoExp(s), Binary(op)) == Shift(8 + Prec(op))
    ensures Act(16 + Prec(op), look) == Reduce(2 + Prec(op))
  {
  }

  /** An infix phrase, given that its operands are read from the tokens `w` and `w2`. */
  lemma {:induction false} InfixParses(max: nat, st: Stack, op: BinOp, l: Syn, r: Syn, w: seq<Tok>, w2: seq<Tok>, rest: seq<Tok>)
    requires rest != [] && Act(Top(Enter(st, E(l))), Binary(op)) == Shift(8 + Prec(op))
    requires Operand(8 + Prec(op)) && Act(16 + Prec(op), rest[0]) == Reduce(2 + Prec(op))
    requires Leads(max, Config(st, w), Steps(l), Parsed(max, st, l, [Binary(op)] + w2))
    requires var st2 := Push(8 + Prec(op), T(Binary(op)), Enter(st, E(l)));
      Leads(max, Config(st2, w2), Steps(r), Parsed(max, st2, r, rest))
    ensures Leads(max, Config(st, w), Steps(l) + (1 + (Steps(r) + 1)), Parsed(max, st, SBin(op, l, r), rest))
  {
    hide Leads, Valid, Steps, Act, Prec;
    var o := Parsed(max, st, SBin(op, l, r), rest);
    var st1 := Enter(st, E(l));
    var st2 := Push(8 + Prec(op), T(Binary(op)), st1);
    assert Depth(st1) == Depth(st) + 1 && Depth(st2) == Depth(st1) + 1;
    if Depth(st) + Height(l) < max {
      RunningValid(max, Config(st, w), Steps(l), Config(st1, [Binary(op)] + w2));
      if Depth(st2) + Height(r) < max {
        RunningValid(max, Config(st2, w2), Steps(r), Config(Enter(st2, E(r)), rest));
        ReduceLeads(max, Enter(st2, E(r)), rest, 2 + Prec(op), E(SBin(op, l, r)), st);
        ThenRunning(max, Config(st2, w2), Steps(r), Config(Enter(st2, E(r)), rest), 1, o);
      } else {
        ThenOverflow(max, Config(st2, w2), Steps(r), 1);
      }
      ShiftLeads(max, st1, Binary(op), w2, 8 + Prec(op), Steps(r) + 1, o);
      ThenRunning(max, Config(st, w), Steps(l), Config(st1, [Binary(op)] + w2), 1 + (Steps(r) + 1), o);
    } else {
      ThenOverflow(max, Config(st, w), Steps(l), 1 + (Steps(r) + 1));
    }
  }

  lemma {:induction false} PushValid(st: Stack, y: Sym, s: nat)
    requires ValidStack(st) && Linked(Top(st), y, s)
    requires y.T? && st.Push? && st.sym.E? ==> Follows(y.tok, st.sym.syn)
    ensures ValidStack(Push(s, y, st))
  {
    hide Linked, Follows, Top;
  }

  lemma {:induction false} CondEnds(t: Syn, f: Syn, rest: seq<Tok>)
    requires Ended(rest)
    ensures Ended(Yield(f) + rest) && Ended([Colon] + (Yield(f) + rest)) && Ended(Yield(t) + ([Colon] + (Yield(f) + rest)))
    ensures Ended([Query] + (Yield(t) + ([Colon] + (Yield(f) + rest))))
  {
    hide Yield;
    YieldTokens(t);
    YieldTokens(f);
    EndedAfter(Yield(f), rest);
    EndedAfter([Colon], Yield(f) + rest);
    EndedAfter(Yield(t), [Colon] + (Yield(f) + rest));
    EndedAfter([Query], Yield(t) + ([Colon] + (Yield(f) + rest)));
  }

  lemma {:induction false} CondAdmits(st: Stack, c: Syn, t: Syn, f: Syn, rest: seq<Tok>)
    requires Admits(st, SCond(c, t, f), rest)
    ensures Admits(st, c, [Query] + (Yield(t) + ([Colon] + (Yield(f) + rest))))
    ensures Admits(Push(8, T(Query), Enter(st, E(c))), t, [Colon] + (Yield(f) + rest))
    ensures Admits(Push(23, T(Colon), Enter(Push(8, T(Query), Enter(st, E(c))), E(t))), f, rest)
    ensures Act(Top(Enter(st, E(c))), Query) == Shift(8)
    ensures rest != [] && !rest[0].Query? && !rest[0].Binary?
  {
    hide Yield, ValidStack, Ended;
    CondEnds(t, f, rest);
    var st1 := Enter(st, E(c));
    PushValid(st, E(c), st1.state);
    var st2 := Push(8, T(Query), st1);
    PushValid(st1, T(Query), 8);
    var st3 := Enter(st2, E(t));
    PushValid(st2, E(t), st3.state);
    PushValid(st3, T(Colon), 23);
    assert rest != [] by { EndedSome(rest); }
  }

  lemma {:induction false} EndedSome(rest: seq<Tok>)
    requires Ended(rest)
    ensures rest != []
  {
  }

  lemma {:induction false} ColonActs(look: Tok)
    requires !look.Query? && !look.Binary?
    ensures Act(16, Colon) == Shift(23) && Act(24, look) == Reduce(2)
  {
  }

  /** What remains of a conditional from its colon on; `w4` is read as the last operand. */
  lemma {:induction false} CondTail(max: nat, st: Stack, c: Syn, t: Syn, f: Syn, w4: seq<Tok>, rest: seq<Tok>)
    requires rest != [] && !rest[0].Query? && !rest[0].Binary?
    requires var st3 := Enter(Push(8, T(Query), Enter(st, E(c))), E(t));
      && Depth(st3) < max && Valid(Config(st3, [Colon] + w4))
      && Leads(max, Config(Push(23, T(Colon), st3), w4), Steps(f), Parsed(max, Push(23, T(Colon), st3), f, rest))
    ensures Leads(max, Config(Enter(Push(8, T(Query), Enter(st, E(c))), E(t)), [Colon] + w4), 1 + (Steps(f) + 1),
      if Depth(st) + (4 + Height(f)) < max then Running(Config(Enter(st, E(SCond(c, t, f))), rest)) else Overflow)
  {
    hide Leads, Valid, Steps, Act, Height;
    ColonActs(rest[0]);
    var st3 := Enter(Push(8, T(Query), Enter(st, E(c))), E(t));
    var st4 := Push(23, T(Colon), st3);
    var o := if Depth(st) + (4 + Height(f)) < max then Running(Config(Enter(st, E(SCond(c, t, f))), rest)) else Overflow;
    assert Depth(st3.below) == Depth(st) + 2;
    assert Depth(st4) == Depth(st) + 4;
    if Depth(st4) + Height(f) < max {
      RunningValid(max, Config(st4, w4), Steps(f), Config(Enter(st4, E(f)), rest));
      ReduceLeads(max, Enter(st4, E(f)), rest, 2, E(SCond(c, t, f)), st);
      ThenRunning(max, Config(st4, w4), Steps(f), Config(Enter(st4, E(f)), rest), 1, o);
    } else {
      ThenOverflow(max, Config(st4, w4), Steps(f), 1);
    }
    ShiftLeads(max, st3, Colon, w4, 23, Steps(f) + 1, o);
  }

  lemma {:induction false} CondHeight(max: nat, st: Stack, c: Syn, t: Syn, f: Syn, rest: seq<Tok>)
    ensures Parsed(max, st, SCond(c, t, f), rest) ==
      if Depth(st) + Height(c) < max && Depth(st) + (2 + Height(t)) < max && Depth(st) + (4 + Height(f)) < max
      then Running(Config(Enter(st, E(SCond(c, t, f))), rest)) else Overflow
  {
  }

  /** A conditional, given that its operands are read from the tokens `w`, `w2` and `w4`. */
  lemma {:induction false} CondParses(max: nat, st: Stack, c: Syn, t: Syn, f: Syn, w: seq<Tok>, w2: seq<Tok>, w4: seq<Tok>, rest: seq<Tok>)
    requires rest != [] && !rest[0].Query? && !rest[0].Binary?
    requires Act(Top(Enter(st, E(c))), Query) == Shift(8)
    requires Leads(max, Config(st, w), Steps(c), Parsed(max, st, c, [Query] + w2))
    requires var st2 := Push(8, T(Query), Enter(st, E(c)));
      Leads(max, Config(st2, w2), Steps(t), Parsed(max, st2, t, [Colon] + w4))
    requires var st4 := Push(23, T(Colon), Enter(Push(8, T(Query), Enter(st, E(c))), E(t)));
      Leads(max, Config(st4, w4), Steps(f), Parsed(max, st4, f, rest))
    ensures Leads(max, Config(st, w), Steps(c) + (1 + (Steps(t) + (1 + (Steps(f) + 1)))), Parsed(max, st, SCond(c, t, f), rest))
  {
    hide Leads, Valid, Steps, Act, Height;
    CondHeight(max, st, c, t, f, rest);
    var o := Parsed(max, st, SCond(c, t, f), rest);
    var st1 := Enter(st, E(c));
    var st2 := Push(8, T(Query), st1);
    var st3 := Enter(st2, E(t));
    if Depth(st) + Height(c) < max {
      RunningValid(max, Config(st, w), Steps(c), Config(st1, [Query] + w2));
      assert Depth(st2) == Depth(st) + 2;
      if Depth(st2) + Height(t) < max {
        RunningValid(max, Config(st2, w2), Steps(t), Config(st3, [Colon] + w4));
        CondTail(max, st, c, t, f, w4, rest);
        ThenRunning(max, Config(st2, w2), Steps(t), Config(st3, [Colon] + w4), 1 + (Steps(f) + 1), o);
      } else {
        ThenOverflow(max, Config(st2, w2), Steps(t), 1 + (Steps(f) + 1));
      }
      ShiftLeads(max, st1, Query, w2, 8, Steps(t) + (1 + (Steps(f) + 1)), o);
      ThenRunning(max, Config(st, w), Steps(c), Config(st1, [Query] + w2), 1 + (Steps(t) + (1 + (Steps(f) + 1))), o);
    } else {
      ThenOverflow(max, Config(st, w), Steps(c), 1 + (Steps(t) + (1 + (Steps(f) + 1))));
    }
  }

  // ---------------------------------------------------------------- whole inputs

  /** A whole input that is a well-formed phrase is accepted as that phrase, unless the phrase
      needs a stack of `max` entries, and then the stack overflows.  (The end marker alone takes a
      stack of three.) */
  lemma {:induction false} InputParses(max: nat, s: Syn)
    requires WellFormed(s) && max > 3
    ensures Leads(max, Initial(Yield(s) + [End]), Steps(s) + 3, if 1 + Height(s) < max then Accepted(s) else Overflow)
  {
    hide Leads;
    PhraseParses(max, Bottom, s, [End]);
    if 1 + Height(s) < max {
      InputEnds(max, s);
      ThenRunning(max, Initial(Yield(s) + [End]), Steps(s), Config(Enter(Bottom, E(s)), [End]), 3, Accepted(s));
    } else {
      ThenOverflow(max, Initial(Yield(s) + [End]), Steps(s), 3);
    }
  }

  lemma {:induction false} InputEnds(max: nat, s: Syn)
    requires WellFormed(s) && max > 3
    ensures Leads(max, Config(Enter(Bottom, E(s)), [End]), 3, Accepted(s))
  {
    ReduceLeads(max, Enter(Bottom, E(s)), [End], 1, S(s), Bottom);
    var c2 := Config(Enter(Bottom, S(s)), [End]);
    var c3 := Config(Push(26, T(End), c2.stack), [End]);
    StepKeeps(max, c2);
    assert Step(max, c2) == Running(c3);
    assert Run(max, c3, 1) == Accepted(s);
    assert Leads(max, c2, 2, Accepted(s));
    ThenRunning(max, Config(Enter(Bottom, E(s)), [End]), 1, c2, 2, Accepted(s));
  }

  /** Two runs of one configuration that both halt, halt alike. */
  lemma {:induction false} Deterministic(max: nat, c: Config, a: nat, o: Outcome, b: nat, o': Outcome)
    requires Leads(max, c, a, o) && !o.Running? && Leads(max, c, b, o') && !o'.Running?
    ensures o == o'
  {
    hide Run;
    Then(max, c, a, b, o);
    Then(max, c, b, a, o');
  }

  /** The machine is deterministic, so two ways of reading the same tokens coincide: the grammar
      with its precedences is unambiguous.  A stack with room for both phrases shows it. */
  lemma {:induction false} Unambiguous(s: Syn, s': Syn)
    requires WellFormed(s) && WellFormed(s') && Yield(s) == Yield(s')
    ensures s == s'
  {
    hide *;
    var max := 4 + Height(s) + Height(s');
    InputParses(max, s);
    InputParses(max, s');
    Deterministic(max, Initial(Yield(s) + [End]), Steps(s) + 3, Accepted(s), Steps(s') + 3, Accepted(s'));
  }
}
