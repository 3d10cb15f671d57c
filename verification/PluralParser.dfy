/** `yyparse` of intl/plural.c: the table-driven loop over growing state and value stacks. */
module PluralParser {
  import opened Basics
  import opened PluralSyntax
  import opened PluralTables
  import opened PluralLexer
  import opened PluralText
  import opened PluralMachine
  import opened PluralComplete

  const YYEMPTY := -2

  // ---------------------------------------------------------------- what the stacks hold

  /** The state stack, bottom first. */
  function States(st: Stack): (ss: seq<int>)
    ensures |ss| == Depth(st) && ss[|ss|-1] == Top(st)
  {
    if st.Bottom? then [0] else States(st.below) + [st.state]
  }

  /** `v` is the semantic value of symbol `y`. */
  predicate Carries(v: Value, y: Sym) {
    match y
    case T(t) => (t.Number? ==> v == NumV(t.n)) && (t.Binary? && t.op != LOr && t.op != LAnd ==> v == OpV(t.op))
    case E(s) => v == ExpV(Strip(s))
    case S(s) => v == ExpV(Strip(s))
  }

  /** The value stack; its lowest entry is never used. */
  predicate Values(st: Stack, vs: seq<Value>) {
    |vs| == Depth(st) && (st.Push? ==> Carries(vs[|vs|-1], st.sym) && Values(st.below, vs[..|vs|-1]))
  }

  /** Once the start symbol has been reduced, `res` holds its tree. */
  predicate Delivered(st: Stack, res: Expr) {
    st.Push? ==> (st.sym.S? ==> res == Strip(st.sym.syn)) && Delivered(st.below, res)
  }

  function Exp(v: Value): Expr { if v.ExpV? then v.e else Var }

  /** The value a rule computes from the top of the value stack. */
  function Semantic(rule: int, vs: seq<Value>): Value
    requires |vs| > 0 && (1 <= rule <= 12 ==> |vs| > YYR2(rule))
  {
    var n := |vs| - 1;
    match rule
    case 2 => ExpV(Cond(Exp(vs[n-4]), Exp(vs[n-2]), Exp(vs[n])))
    case 3 => ExpV(Bin(LOr, Exp(vs[n-2]), Exp(vs[n])))
    case 4 => ExpV(Bin(LAnd, Exp(vs[n-2]), Exp(vs[n])))
    case 5 => if vs[n-1].OpV? then ExpV(Bin(vs[n-1].op, Exp(vs[n-2]), Exp(vs[n]))) else NoValue
    case 6 => if vs[n-1].OpV? then ExpV(Bin(vs[n-1].op, Exp(vs[n-2]), Exp(vs[n]))) else NoValue
    case 7 => if vs[n-1].OpV? then ExpV(Bin(vs[n-1].op, Exp(vs[n-2]), Exp(vs[n]))) else NoValue
    case 8 => if vs[n-1].OpV? then ExpV(Bin(vs[n-1].op, Exp(vs[n-2]), Exp(vs[n]))) else NoValue
    case 9 => ExpV(Not(Exp(vs[n])))
    case 10 => ExpV(Var)
    case 11 => if vs[n].NumV? then ExpV(Num(vs[n].n)) else NoValue
    case 12 => ExpV(Exp(vs[n-1]))
    case _ => vs[n]
  }

  lemma {:induction false} ValuesBelow(st: Stack, vs: seq<Value>)
    requires Values(st, vs) && st.Push?
    ensures |vs| > 1 && Carries(vs[|vs|-1], st.sym) && Values(st.below, vs[..|vs|-1])
  {
  }

  /** Three entries down. */
  lemma {:induction false} ValuesThree(st: Stack, vs: seq<Value>)
    requires Values(st, vs) && st.Push? && st.below.Push? && st.below.below.Push?
    ensures |vs| > 3 && Carries(vs[|vs|-1], st.sym) && Carries(vs[|vs|-2], st.below.sym) && Carries(vs[|vs|-3], st.below.below.sym)
    ensures Values(st.below.below.below, vs[..|vs|-3])
  {
    var n := |vs|;
    ValuesBelow(st, vs);
    ValuesBelow(st.below, vs[..n-1]);
    assert vs[..n-1][..n-2] == vs[..n-2];
    ValuesBelow(st.below.below, vs[..n-2]);
    assert vs[..n-2][..n-3] == vs[..n-3];
  }

  /** A reduction finds its operands' values and leaves the value of what it builds. */
  predicate Carried(st: Stack, vs: seq<Value>, rule: nat)
    requires 1 <= rule <= 12 && Handled(rule, st).Handle?
  {
    var h := Handled(rule, st);
    && |vs| > YYR2(rule) && Depth(h.base) == |vs| - YYR2(rule)
    && Carries(Semantic(rule, vs), h.sym)
    && Values(h.base, vs[..|vs|-YYR2(rule)])
    && (rule == 1 <==> h.sym.S?)
    && (rule == 1 ==> Carries(vs[|vs|-1], st.sym) && st.sym.E? && h.base == Bottom && h.sym.syn == st.sym.syn)
  }

  lemma {:induction false} CarriedParen(st: Stack, vs: seq<Value>, look: Tok)
    requires ValidStack(st) && Act(Top(st), look) == Reduce(12) && Values(st, vs) && Handled(12, st).Handle?
    ensures Carried(st, vs, 12)
  {
    hide Act, WellFormed, Values, Depth;
    RulesRealise(12);
    ReduceState(Top(st), look, 12);
    ValidTop(st);
    ValidTop(st.below);
    ValidTop(st.below.below);
    ValuesThree(st, vs);
    DepthBelow(st.below.below.below, vs[..|vs|-3]);
  }

  lemma {:induction false} CarriedInfix(st: Stack, vs: seq<Value>, look: Tok, rule: nat)
    requires 3 <= rule <= 8
    requires ValidStack(st) && Act(Top(st), look) == Reduce(rule) && Values(st, vs) && Handled(rule, st).Handle?
    ensures Carried(st, vs, rule)
  {
    hide Act, WellFormed, Values, Depth;
    RulesRealise(rule);
    ReduceState(Top(st), look, rule);
    InfixShape(st, rule - 2);
    ValuesThree(st, vs);
    DepthBelow(st.below.below.below, vs[..|vs|-3]);
  }

  lemma {:induction false} CarriedCond(st: Stack, vs: seq<Value>, look: Tok)
    requires ValidStack(st) && Act(Top(st), look) == Reduce(2) && Values(st, vs) && Handled(2, st).Handle?
    ensures Carried(st, vs, 2)
  {
    hide Act, WellFormed, Values, Depth;
    RulesRealise(2);
    ReduceState(Top(st), look, 2);
    var n := |vs|;
    ValidTop(st);
    ValidTop(st.below);
    ValidTop(st.below.below);
    var d := st.below.below.below;
    ValidTop(d);
    ValidTop(d.below);
    ValuesThree(st, vs);
    ValuesBelow(d, vs[..n-3]);
    assert vs[..n-3][..n-4] == vs[..n-4];
    ValuesBelow(d.below, vs[..n-4]);
    assert vs[..n-4][..n-5] == vs[..n-5];
    DepthBelow(d.below.below, vs[..n-5]);
  }

  lemma {:induction false} CarriedNot(st: Stack, vs: seq<Value>, look: Tok)
    requires ValidStack(st) && Act(Top(st), look) == Reduce(9) && Values(st, vs) && Handled(9, st).Handle?
    ensures Carried(st, vs, 9)
  {
    hide Act, WellFormed, Values, Depth;
    RulesRealise(9);
    ReduceState(Top(st), look, 9);
    var n := |vs|;
    ValidTop(st);
    ValuesBelow(st, vs);
    ValidTop(st.below);
    ValuesBelow(st.below, vs[..n-1]);
    assert vs[..n-1][..n-2] == vs[..n-2];
    DepthBelow(st.below.below, vs[..n-2]);
  }

  lemma {:induction false} CarriedOne(st: Stack, vs: seq<Value>, look: Tok, rule: nat)
    requires rule == 1 || rule == 10 || rule == 11
    requires ValidStack(st) && Act(Top(st), look) == Reduce(rule) && Values(st, vs) && Handled(rule, st).Handle?
    ensures Carried(st, vs, rule)
  {
    hide Act, WellFormed, Values, Depth;
    RulesRealise(rule);
    ReduceState(Top(st), look, rule);
    ValidTop(st);
    ValidTop(st.below);
    ValuesBelow(st, vs);
    DepthBelow(st.below, vs[..|vs|-1]);
  }

  lemma {:induction false} SemanticCarries(st: Stack, vs: seq<Value>, look: Tok, rule: nat)
    requires ValidStack(st) && Act(Top(st), look) == Reduce(rule) && Values(st, vs)
    requires 1 <= rule <= 12 && Handled(rule, st).Handle?
    ensures Carried(st, vs, rule)
  {
    hide *;
    if rule == 12 {
      CarriedParen(st, vs, look);
    } else if 3 <= rule <= 8 {
      CarriedInfix(st, vs, look, rule);
    } else if rule == 2 {
      CarriedCond(st, vs, look);
    } else if rule == 9 {
      CarriedNot(st, vs, look);
    } else {
      CarriedOne(st, vs, look, rule);
    }
  }

  lemma {:induction false} DepthBelow(st: Stack, vs: seq<Value>)
    requires Values(st, vs)
    ensures Depth(st) == |vs|
  {
  }

  lemma {:induction false} ValidTop(st: Stack)
    requires ValidStack(st)
    ensures Top(st) <= 26 && (Top(st) != 0 <==> st.Push?)
    ensures st.Push? ==> ValidStack(st.below) && Linked(Top(st.below), st.sym, st.state)
  {
  }

  // ---------------------------------------------------------------- the verdict on an input

  /** `s` is a well-formed phrase spelled by the tokens `toks` and an end marker. */
  ghost predicate Phrase(s: Syn, toks: seq<Tok>) {
    WellFormed(s) && toks == Yield(s) + [End]
  }

  /** `result` and `res` are what parsing `toks` must give. */
  ghost predicate Verdict(toks: seq<Tok>, result: int, res: Expr) {
    && 0 <= result <= 2
    && (forall s :: Phrase(s, toks) ==>
          if 1 + Height(s) < YYMAXDEPTH then result == 0 && res == Strip(s) else result == 2)
    && (result == 0 ==> exists s :: Phrase(s, toks) && 1 + Height(s) < YYMAXDEPTH && res == Strip(s))
  }

  lemma {:induction false} HaltedVerdict(toks: seq<Tok>, n: nat, o: Outcome, result: int, res: Expr)
    requires Ended(toks) && Leads(YYMAXDEPTH, Initial(toks), n, o) && !o.Running?
    requires result == (match o case Accepted(_) => 0 case Overflow => 2 case _ => 1)
    requires o.Accepted? ==> res == Strip(o.syn)
    ensures Verdict(toks, result, res)
  {
    hide Run;
    forall s | Phrase(s, toks)
      ensures o == if 1 + Height(s) < YYMAXDEPTH then Accepted(s) else Overflow
    {
      InputParses(YYMAXDEPTH, s);
      Deterministic(YYMAXDEPTH, Initial(toks), n, o, Steps(s) + 3, if 1 + Height(s) < YYMAXDEPTH then Accepted(s) else Overflow);
    }
    if o.Accepted? {
      RunSound(YYMAXDEPTH, Initial(toks), n);
      assert Flat(Bottom) + toks == toks;
      assert Phrase(o.syn, toks);
    }
  }

  /** Stack and remaining tokens shrink in this measure whenever the machine moves. */
  function Weight(st: Stack): nat {
    if st.Bottom? then 0 else (if st.sym.T? then 2 else if st.sym.E? then 1 else 0) + Weight(st.below)
  }

  /** `base` is what is left of `st` after some pops. */
  predicate Beneath(base: Stack, st: Stack) {
    base == st || (st.Push? && Beneath(base, st.below))
  }

  lemma {:induction false} WeightBeneath(base: Stack, st: Stack)
    requires Beneath(base, st)
    ensures Weight(base) <= Weight(st) && Depth(base) <= Depth(st)
    ensures Depth(base) == Depth(st) ==> base == st
  {
    if base != st {
      WeightBeneath(base, st.below);
    }
  }

  /** The base of a handle lies beneath the symbols it replaces. */
  lemma {:induction false} HandleBeneath(rule: nat, st: Stack)
    requires Handled(rule, st).Handle?
    ensures Beneath(Handled(rule, st).base, st)
    ensures Handled(rule, st).base != st.below ==> st.below.Push? && Beneath(Handled(rule, st).base, st.below.below)
  {
    var b := Handled(rule, st).base;
    assert Beneath(b, b);
    var one := st.below;
    if b != one {
      var two := one.below;
      if b != two {
        var three := two.below;
        if b != three {
          assert Beneath(b, three.below);
          assert Beneath(b, three);
        }
        assert Beneath(b, two);
      }
      assert Beneath(b, one);
    }
  }

  lemma {:induction false} ReduceShrinks(st: Stack, look: Tok, rule: nat)
    requires ValidStack(st) && Act(Top(st), look) == Reduce(rule) && Handled(rule, st).Handle?
    ensures Weight(Enter(Handled(rule, st).base, Handled(rule, st).sym)) < Weight(st)
    ensures Top(st) != 26 && Top(Enter(Handled(rule, st).base, Handled(rule, st).sym)) != 26
  {
    hide WellFormed;
    ReduceState(Top(st), look, rule);
    ReduceKeeps(st, look, rule);
    FitsTop(Handled(rule, st), look);
    HandleBeneath(rule, st);
    ValidTop(st);
    if Handled(rule, st).base != st.below {
      WeightBeneath(Handled(rule, st).base, st.below.below);
      ValidTop(st.below);
      assert Weight(st.below) >= 1 + Weight(st.below.below);
    }
  }

  lemma {:induction false} FitsTop(h: Handle, look: Tok)
    requires Fits(h, look)
    ensures var s := Top(Enter(h.base, h.sym)); 5 <= s <= 25
    ensures HandleGoto(h) == Top(Enter(h.base, h.sym))
  {
    if h.sym.E? {
      GotosRealise(Top(h.base));
    } else {
      GotosRealise(0);
    }
  }

  /** The transition the tables make on the nonterminal of a handle. */
  function HandleGoto(h: Handle): int
    requires h.Handle?
  {
    Goto(Top(h.base), if h.sym.S? then 16 else 17)
  }

  predicate AllStates(ss: seq<int>) {
    forall i :: 0 <= i < |ss| ==> 0 <= ss[i] < 27
  }

  /** yyerrlab to yyerrhandle: pop states in search of one that accepts the error token. */
  method Recover(yyss: array<int>, top: nat) returns (result: int)
    requires top < yyss.Length && AllStates(yyss[..top+1])
    ensures result == 1
  {
    assert forall i :: 0 <= i <= top ==> yyss[i] == yyss[..top+1][i];
    var yyssp := top;
    while true
      invariant 0 <= yyssp <= top
      decreases yyssp
    {
      var yyn := YYPACT(yyss[yyssp]);
      if yyn != YYFLAG {
        NoErrorShift(yyss[yyssp]);
        yyn := yyn + YYTERROR;
        if 0 <= yyn <= YYLAST && YYCHECK(yyn) == YYTERROR {
          assert false;  // no state shifts the error token
        }
      }
      if yyssp == 0 {
        return 1;
      }
      yyssp := yyssp - 1;
    }
    result := 1;
  }

  lemma {:induction false} StatesInRange(st: Stack)
    requires ValidStack(st)
    ensures AllStates(States(st))
  {
    ValidTop(st);
    if st.Push? {
      StatesInRange(st.below);
    }
  }

  /** The tokens still to come: the lookahead, if one has been read, and what follows the cursor. */
  function Remaining(text: string, cp: nat, yychar: int, look: Tok): seq<Tok>
    requires cp <= |text|
  {
    if yychar == YYEMPTY then Tokens(text, cp)
    else if look.End? then [End]
    else [look] + Tokens(text, cp)
  }

  /** A shift uses up the lookahead, except that the end marker stays. */
  lemma {:induction false} ShiftRemaining(text: string, cp: nat, yychar: int, look: Tok)
    requires cp <= |text| && yychar == Code(look)
    ensures var r := Remaining(text, cp, yychar, look);
      && r != [] && r[0] == look
      && (if look.End? then r else r[1..]) == Remaining(text, cp, if yychar != 0 then YYEMPTY else yychar, look)
  {
  }

  lemma {:induction false} StartRemaining(text: string, cp: nat, look: Tok)
    requires cp <= |text|
    ensures Remaining(text, cp, YYEMPTY, look) == Tokens(text, cp)
  {
  }

  /** yysetstate: store the state, and move both stacks to larger arrays when they are full. */
  method EnsureRoom(yyss0: array<int>, yyvs0: array<Value>, yyssp: nat)
    returns (overflow: bool, yyss: array<int>, yyvs: array<Value>)
    requires yyss0.Length == yyvs0.Length && YYINITDEPTH <= yyss0.Length <= YYMAXDEPTH && yyssp < yyss0.Length
    ensures overflow <==> yyssp + 1 >= YYMAXDEPTH
    ensures yyss == yyss0 || fresh(yyss)
    ensures yyvs == yyvs0 || fresh(yyvs)
    ensures yyss.Length == yyvs.Length && YYINITDEPTH <= yyss.Length <= YYMAXDEPTH
    ensures !overflow ==> yyssp + 1 < yyss.Length && yyss[..yyssp+1] == yyss0[..yyssp+1] && yyvs[..yyssp+1] == yyvs0[..yyssp+1]
  {
    overflow, yyss, yyvs := false, yyss0, yyvs0;
    var yystacksize := yyss.Length;
    if yyssp >= yystacksize - 1 {
      if yystacksize >= YYMAXDEPTH {
        overflow := true;
        return;
      }
      yystacksize := yystacksize * 2;
      if yystacksize > YYMAXDEPTH {
        yystacksize := YYMAXDEPTH;
      }
      yyss := new int[yystacksize](_ => 0);
      yyvs := new Value[yystacksize](_ => NoValue);
      for i := 0 to yyssp + 1
        invariant fresh(yyss) && fresh(yyvs) && yyss.Length == yyvs.Length == yystacksize > yyssp + 1
        invariant yyss[..i] == yyss0[..i] && yyvs[..i] == yyvs0[..i]
      {
        yyss[i] := yyss0[i];
        yyvs[i] := yyvs0[i];
      }
      assert yyssp < yystacksize - 1;  // so the second test for room never aborts the parse
    }
  }

  /** The table look-up for an internal token number. */
  method LookUp(yystate: nat, yychar1: nat) returns (action: Action)
    ensures action == Decide(yystate, yychar1)
  {
    hide YYPACT, YYCHECK, YYTABLE, YYDEFACT;
    var yyn := YYPACT(yystate);
    var default := yyn == YYFLAG;
    if !default {
      yyn := yyn + yychar1;
      default := yyn < 0 || yyn > YYLAST || YYCHECK(yyn) != yychar1;
    }
    if default {
      yyn := YYDEFACT(yystate);
      action := if yyn <= 0 then Error else Reduce(yyn);
    } else {
      yyn := YYTABLE(yyn);
      if yyn < 0 {
        action := if yyn == YYFLAG then Error else Reduce(-yyn);
      } else if yyn == 0 {
        action := Error;
      } else {
        action := if yyn == YYFINAL then Accept else Shift(yyn);
      }
    }
  }

  /** yybackup: read a token unless the state decides without one, and look the action up. */
  method Backup(text: string, cp0: nat, yystate: nat, yychar0: int, yylval0: Value, ghost look0: Tok)
    returns (action: Action, cp: nat, yychar: int, yylval: Value, ghost look: Tok)
    requires cp0 <= |text| && yystate < 27
    requires yychar0 != YYEMPTY ==> yychar0 == Code(look0) && Carries(yylval0, T(look0))
    ensures cp <= |text|
    ensures Remaining(text, cp, yychar, look) == Remaining(text, cp0, yychar0, look0)
    ensures yychar != YYEMPTY ==> yychar == Code(look) && Carries(yylval, T(look))
    ensures action.Shift? || action.Accept? ==> yychar != YYEMPTY
    ensures action == Act(yystate, Remaining(text, cp0, yychar0, look0)[0])
  {
    hide Act, Scan, Decide, YYPACT, YYDEFACT;
    cp, yychar, yylval, look := cp0, yychar0, yylval0, look0;
    TablesRealise(yystate, Remaining(text, cp0, yychar0, look0)[0]);
    if YYPACT(yystate) == YYFLAG {
      action := LookUp(yystate, 0);
      DefaultAlways(yystate, 0, Translate(Code(Remaining(text, cp0, yychar0, look0)[0])));
    } else {
      if yychar == YYEMPTY {
        look := Scan(text, cp).0;
        yychar, yylval, cp := YyLex(text, cp, yylval);
      }
      var yychar1;
      if yychar <= 0 {
        yychar1 := 0;
        yychar := 0;
      } else {
        yychar1 := Translate(yychar);
      }
      action := LookUp(yystate, yychar1);
    }
  }

  lemma {:induction false} DefaultAlways(s: nat, a: nat, b: nat)
    requires YYPACT(s) == YYFLAG
    ensures Decide(s, a) == Decide(s, b) && !Decide(s, a).Shift? && !Decide(s, a).Accept?
  {
  }

  /** What one pass of the loop does to the machine. */
  lemma {:induction false} Advance(toks: seq<Tok>, n: nat, c: Config, c': Config)
    requires Leads(YYMAXDEPTH, Initial(toks), n, Running(c)) && Valid(c) && Step(YYMAXDEPTH, c) == Running(c')
    ensures Leads(YYMAXDEPTH, Initial(toks), n + 1, Running(c')) && Valid(c')
  {
    StepKeeps(YYMAXDEPTH, c);
    assert Leads(YYMAXDEPTH, c, 1, Running(c'));
    ThenRunning(YYMAXDEPTH, Initial(toks), n, c, 1, Running(c'));
  }

  lemma {:induction false} Halt(toks: seq<Tok>, n: nat, c: Config)
    requires Leads(YYMAXDEPTH, Initial(toks), n, Running(c)) && Valid(c) && !Step(YYMAXDEPTH, c).Running?
    ensures Leads(YYMAXDEPTH, Initial(toks), n + 1, Step(YYMAXDEPTH, c))
  {
    assert Leads(YYMAXDEPTH, c, 1, Step(YYMAXDEPTH, c));
    ThenRunning(YYMAXDEPTH, Initial(toks), n, c, 1, Step(YYMAXDEPTH, c));
  }

  lemma {:induction false} AcceptDelivered(c: Config, ss: seq<int>, vs: seq<Value>, res: Expr)
    requires Valid(c) && Act(Top(c.stack), c.rest[0]) == Accept && Depth(c.stack) < YYMAXDEPTH
    requires Represents(c.stack, ss, vs, res)
    ensures Step(YYMAXDEPTH, c).Accepted? && res == Strip(Step(YYMAXDEPTH, c).syn)
  {
    AcceptShape(c);
    assert Delivered(c.stack.below, res);
  }

  lemma {:induction false} StatesPrefix(st: Stack, base: Stack, k: nat)
    requires Depth(base) == Depth(st) - k && Beneath(base, st)
    ensures States(st)[..Depth(base)] == States(base)
  {
    if k > 0 {
      StatesPrefix(st.below, base, k - 1);
      assert States(st)[..Depth(base)] == States(st.below)[..Depth(base)];
    } else {
      WeightBeneath(base, st);
    }
  }

  lemma {:induction false} DeliveredBeneath(base: Stack, st: Stack, res: Expr)
    requires Beneath(base, st) && Delivered(st, res)
    ensures Delivered(base, res)
  {
    if base != st {
      DeliveredBeneath(base, st.below, res);
    }
  }

  /** The arrays represent the stack. */
  ghost predicate Represents(st: Stack, ss: seq<int>, vs: seq<Value>, res: Expr) {
    ss == States(st) && Values(st, vs) && Delivered(st, res)
  }

  /** Entering a symbol adds one entry to each stack. */
  lemma {:induction false} EnterRepresents(base: Stack, y: Sym, vs: seq<Value>, v: Value, res: Expr)
    requires Values(base, vs) && Carries(v, y) && Delivered(base, res) && (y.S? ==> res == Strip(y.syn))
    ensures Represents(Enter(base, y), States(base) + [Top(Enter(base, y))], vs + [v], res)
  {
    hide Carries, Strip;
    DepthBelow(base, vs);
    assert (vs + [v])[..|vs|] == vs;
  }

  /** The tree is handed over when the start symbol is built, and at no other time. */
  lemma {:induction false} ReduceDelivers(st: Stack, vs: seq<Value>, res: Expr, rule: nat)
    requires 1 <= rule <= 12 && Handled(rule, st).Handle? && Carried(st, vs, rule) && Delivered(st, res)
    ensures var h := Handled(rule, st);
      var res' := if rule == 1 then Exp(vs[|vs|-1]) else res;
      Delivered(h.base, res') && (h.sym.S? ==> res' == Strip(h.sym.syn))
  {
    hide Handled, Semantic, YYR2, Strip;
    HandleBeneath(rule, st);
    if rule != 1 {
      DeliveredBeneath(Handled(rule, st).base, st, res);
    }
  }

  lemma {:induction false} ReduceRepresents(st: Stack, ss: seq<int>, vs: seq<Value>, res: Expr, look: Tok, rule: nat)
    requires ValidStack(st) && Act(Top(st), look) == Reduce(rule) && Represents(st, ss, vs, res)
    ensures 1 <= rule <= 12 && Handled(rule, st).Handle? && |ss| == |vs| > YYR2(rule) >= 1
    ensures var h, k := Handled(rule, st), |ss| - YYR2(rule);
      && ss[k-1] == Top(h.base) && Goto(ss[k-1], YYR1(rule)) == Top(Enter(h.base, h.sym))
      && Represents(Enter(h.base, h.sym), ss[..k] + [Goto(ss[k-1], YYR1(rule))], vs[..k] + [Semantic(rule, vs)],
                    if rule == 1 then Exp(vs[|vs|-1]) else res)
  {
    hide Act, Semantic, Handled, ValidStack, Carries, YYR1, YYR2, Strip, Values, Delivered, Enter, States, Goto, Exp, Beneath, Linked, WellFormed, Top, Flat, GotoExp, YYPGOTO, YYDEFGOTO, Depth;
    ReduceKeeps(st, look, rule);
    SemanticCarries(st, vs, look, rule);
    RulesRealise(rule);
    var h, k := Handled(rule, st), |ss| - YYR2(rule);
    FitsTop(h, look);
    HandleBeneath(rule, st);
    DepthBelow(st, vs);
    StatesPrefix(st, h.base, YYR2(rule));
    ReduceDelivers(st, vs, res, rule);
    EnterRepresents(h.base, h.sym, vs[..k], Semantic(rule, vs), if rule == 1 then Exp(vs[|vs|-1]) else res);
    assert ss[..k][k-1] == Top(h.base);
    assert Goto(ss[k-1], YYR1(rule)) == HandleGoto(h);
  }

  lemma {:induction false} ShiftRepresents(st: Stack, ss: seq<int>, vs: seq<Value>, res: Expr, t: Tok, v: Value, s: nat)
    requires Represents(st, ss, vs, res) && Carries(v, T(t))
    ensures Represents(Push(s, T(t), st), ss + [s], vs + [v], res)
  {
    assert (vs + [v])[..|vs|] == vs;
  }

  // ---------------------------------------------------------------- the machine behind a pass

  /** The machine has come from its start to `c`, and the arrays represent its stack. */
  ghost predicate Stands(toks: seq<Tok>, n: nat, c: Config, ss: seq<int>, vs: seq<Value>, res: Expr) {
    Ended(toks) && Leads(YYMAXDEPTH, Initial(toks), n, Running(c)) && Valid(c) && Represents(c.stack, ss, vs, res)
  }

  lemma {:induction false} StandsShape(toks: seq<Tok>, n: nat, c: Config, ss: seq<int>, vs: seq<Value>, res: Expr)
    requires Stands(toks, n, c, ss, vs, res)
    ensures c.rest != [] && Depth(c.stack) == |ss| && Top(c.stack) == ss[|ss|-1]
    ensures AllStates(ss) && 0 <= ss[|ss|-1] < 27
  {
    StatesInRange(c.stack);
  }

  lemma {:induction false} OverflowVerdict(toks: seq<Tok>, n: nat, c: Config, ss: seq<int>, vs: seq<Value>, res: Expr)
    requires Stands(toks, n, c, ss, vs, res) && |ss| >= YYMAXDEPTH
    ensures Verdict(toks, 2, res)
  {
    StandsShape(toks, n, c, ss, vs, res);
    Halt(toks, n, c);
    HaltedVerdict(toks, n + 1, Step(YYMAXDEPTH, c), 2, res);
  }

  lemma {:induction false} ErrorVerdict(toks: seq<Tok>, n: nat, c: Config, ss: seq<int>, vs: seq<Value>, res: Expr)
    requires Stands(toks, n, c, ss, vs, res) && |ss| < YYMAXDEPTH
    requires c.rest != [] && Act(Top(c.stack), c.rest[0]) == Error
    ensures Verdict(toks, 1, res)
  {
    StandsShape(toks, n, c, ss, vs, res);
    Halt(toks, n, c);
    HaltedVerdict(toks, n + 1, Step(YYMAXDEPTH, c), 1, res);
  }

  lemma {:induction false} AcceptVerdict(toks: seq<Tok>, n: nat, c: Config, ss: seq<int>, vs: seq<Value>, res: Expr)
    requires Stands(toks, n, c, ss, vs, res) && |ss| < YYMAXDEPTH
    requires c.rest != [] && Act(Top(c.stack), c.rest[0]) == Accept
    ensures Verdict(toks, 0, res)
  {
    StandsShape(toks, n, c, ss, vs, res);
    AcceptDelivered(c, ss, vs, res);
    Halt(toks, n, c);
    HaltedVerdict(toks, n + 1, Step(YYMAXDEPTH, c), 0, res);
  }

  lemma {:induction false} ShiftMoves(toks: seq<Tok>, n: nat, c: Config, s: nat) returns (c': Config)
    requires Leads(YYMAXDEPTH, Initial(toks), n, Running(c)) && Valid(c) && Depth(c.stack) < YYMAXDEPTH
    requires Act(Top(c.stack), c.rest[0]) == Shift(s)
    ensures Leads(YYMAXDEPTH, Initial(toks), n + 1, Running(c')) && Valid(c')
    ensures c' == Config(Push(s, T(c.rest[0]), c.stack), if c.rest[0].End? then c.rest else c.rest[1..])
    ensures Top(c.stack) != 26 && (s != 26 ==> 3 * |c'.rest| + Weight(c'.stack) < 3 * |c.rest| + Weight(c.stack))
  {
    ShiftEnters(Top(c.stack), c.rest[0], s);
    c' := Step(YYMAXDEPTH, c).c;
    Advance(toks, n, c, c');
  }

  lemma {:induction false} ReduceMoves(toks: seq<Tok>, n: nat, c: Config, rule: nat) returns (c': Config)
    requires Leads(YYMAXDEPTH, Initial(toks), n, Running(c)) && Valid(c) && Depth(c.stack) < YYMAXDEPTH
    requires Act(Top(c.stack), c.rest[0]) == Reduce(rule)
    ensures Leads(YYMAXDEPTH, Initial(toks), n + 1, Running(c')) && Valid(c')
    ensures Handled(rule, c.stack).Handle?
    ensures c' == Config(Enter(Handled(rule, c.stack).base, Handled(rule, c.stack).sym), c.rest)
    ensures Top(c.stack) != 26 && Top(c'.stack) != 26 && Weight(c'.stack) < Weight(c.stack)
  {
    hide WellFormed;
    ReduceKeeps(c.stack, c.rest[0], rule);
    ReduceShrinks(c.stack, c.rest[0], rule);
    c' := Config(Enter(Handled(rule, c.stack).base, Handled(rule, c.stack).sym), c.rest);
    Advance(toks, n, c, c');
  }

  /** How far the parse still has to go. */
  function Todo(c: Config): nat {
    3 * |c.rest| + Weight(c.stack)
  }

  /** yyreduce: run the rule's action and enter the state its left-hand side leads to. */
  method ReduceBy(rule: nat, yyss: array<int>, yyvs: array<Value>, top: nat, res0: Expr, ghost toks: seq<Tok>, ghost n: nat, ghost c: Config)
    returns (yyssp: nat, yystate: nat, res: Expr, ghost c': Config)
    requires yyss.Length == yyvs.Length && top + 1 < yyss.Length <= YYMAXDEPTH
    requires Stands(toks, n, c, yyss[..top+1], yyvs[..top+1], res0)
    requires c.rest != [] && Act(Top(c.stack), c.rest[0]) == Reduce(rule)
    modifies yyvs
    ensures Handled(rule, c.stack).Handle? && 0 < yyssp <= top
    ensures c' == Config(Enter(Handled(rule, c.stack).base, Handled(rule, c.stack).sym), c.rest) && yystate == Top(c'.stack)
    ensures Stands(toks, n + 1, c', yyss[..yyssp] + [yystate], yyvs[..yyssp+1], res)
    ensures Top(c.stack) != 26 && yystate != 26 && Todo(c') < Todo(c)
  {
    hide Act, Semantic, Handled, ValidStack, Represents, Leads, Weight, Enter, Follows, Depth, Top;
    ghost var ss, vs := yyss[..top+1], yyvs[..top+1];
    StandsShape(toks, n, c, ss, vs, res0);
    c' := ReduceMoves(toks, n, c, rule);
    ReduceRepresents(c.stack, ss, vs, res0, c.rest[0], rule);
    var yylen := YYR2(rule);
    var yyval := Semantic(rule, yyvs[..top+1]);
    res := if rule == 1 then Exp(yyvs[top]) else res0;
    yyssp := top - yylen;
    yystate := Goto(yyss[yyssp], YYR1(rule));
    yyssp := yyssp + 1;
    yyvs[yyssp] := yyval;
    assert yyss[..yyssp] == ss[..yyssp];
    assert yyvs[..yyssp+1] == vs[..yyssp] + [yyval];
  }

  /** Push a shifted token's value; its state is stored by the next pass. */
  method ShiftBy(s: nat, yyss: array<int>, yyvs: array<Value>, top: nat, yylval: Value, ghost res: Expr, ghost toks: seq<Tok>, ghost n: nat, ghost c: Config)
    returns (yyssp: nat, ghost c': Config)
    requires yyss.Length == yyvs.Length && top + 1 < yyss.Length <= YYMAXDEPTH
    requires Stands(toks, n, c, yyss[..top+1], yyvs[..top+1], res)
    requires c.rest != [] && Act(Top(c.stack), c.rest[0]) == Shift(s) && Carries(yylval, T(c.rest[0]))
    modifies yyvs
    ensures yyssp == top + 1
    ensures c' == Config(Push(s, T(c.rest[0]), c.stack), if c.rest[0].End? then c.rest else c.rest[1..])
    ensures Stands(toks, n + 1, c', yyss[..yyssp] + [s], yyvs[..yyssp+1], res)
    ensures Top(c.stack) != 26 && (s != 26 ==> Todo(c') < Todo(c))
  {
    hide Act, ValidStack, Represents, Carries, Leads, Weight, Follows, Depth, Top;
    ghost var vs := yyvs[..top+1];
    StandsShape(toks, n, c, yyss[..top+1], vs, res);
    c' := ShiftMoves(toks, n, c, s);
    ShiftRepresents(c.stack, yyss[..top+1], vs, res, c.rest[0], yylval, s);
    yyssp := top + 1;
    yyvs[yyssp] := yylval;
    assert yyvs[..yyssp+1] == vs + [yylval];
  }

  lemma {:induction false} Begin(toks: seq<Tok>, vs: seq<Value>, res: Expr)
    requires Ended(toks) && |vs| == 1
    ensures Stands(toks, 0, Initial(toks), [0], vs, res)
  {
  }

  /** `yyparse`.  The result is 0 exactly when the tokens from `start` up to the end marker are a
      well-formed phrase that fits the stack, and then `res` is its tree. */
  method YyParse(text: string, start: nat, res0: Expr) returns (result: int, res: Expr)
    requires start <= |text|
    ensures Verdict(Tokens(text, start), result, res)
  {
    hide Verdict, Act, Stands, Handled, Tokens, Carries, Todo, Code, Top, Enter, Scan, AllStates, Remaining, Depth;
    ghost var toks := Tokens(text, start);
    ghost var c := Initial(toks);
    ghost var n: nat := 0;
    ghost var look := End;
    res := res0;
    var cp: nat := start;
    var yychar := YYEMPTY;
    var yylval := NoValue;
    var yystate: nat := 0;
    var yyss := new int[YYINITDEPTH](_ => 0);
    var yyvs := new Value[YYINITDEPTH](_ => NoValue);
    var yyssp := 0;
    Begin(toks, yyvs[..1], res);
    StartRemaining(text, cp, look);
    assert yyss[..0] + [0] == [0];
    while true
      invariant cp <= |text|
      invariant fresh(yyss) && fresh(yyvs) && yyss.Length == yyvs.Length
      invariant YYINITDEPTH <= yyss.Length <= YYMAXDEPTH && yyssp < yyss.Length
      invariant Stands(toks, n, c, yyss[..yyssp] + [yystate], yyvs[..yyssp+1], res)
      invariant c.rest == Remaining(text, cp, yychar, look)
      invariant yychar != YYEMPTY ==> yychar == Code(look) && Carries(yylval, T(look))
      decreases if yystate == 26 then 0 else 1, Todo(c)
    {
      yyss[yyssp] := yystate;
      assert yyss[..yyssp+1] == yyss[..yyssp] + [yystate];
      ghost var ss, vs := yyss[..yyssp+1], yyvs[..yyssp+1];
      StandsShape(toks, n, c, ss, vs, res);
      var overflow;
      overflow, yyss, yyvs := EnsureRoom(yyss, yyvs, yyssp);
      if overflow {
        OverflowVerdict(toks, n, c, ss, vs, res);
        return 2, res;
      }
      var action;
      action, cp, yychar, yylval, look := Backup(text, cp, yystate, yychar, yylval, look);
      match action
      case Error =>
        ErrorVerdict(toks, n, c, ss, vs, res);
        result := Recover(yyss, yyssp);
        return;
      case Accept =>
        AcceptVerdict(toks, n, c, ss, vs, res);
        return 0, res;
      case Shift(s) =>
        ShiftRemaining(text, cp, yychar, look);
        ghost var c';
        yyssp, c' := ShiftBy(s, yyss, yyvs, yyssp, yylval, res, toks, n, c);
        if yychar != 0 {
          yychar := YYEMPTY;
        }
        yystate := s;
        c, n := c', n + 1;
      case Reduce(rule) =>
        ghost var c';
        yyssp, yystate, res, c' := ReduceBy(rule, yyss, yyvs, yyssp, res, toks, n, c);
        c, n := c', n + 1;
    }
    result := 1;
  }
}
