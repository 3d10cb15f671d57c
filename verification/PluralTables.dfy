/** The generated automaton of intl/plural.c: its tables, the decision it takes from them,
    and what those decisions amount to. */
module PluralTables {
  import opened PluralSyntax

  const YYFINAL := 27
  const YYFLAG := -32768
  const YYNTBASE := 16
  const YYLAST := 53
  const YYTERROR := 1
  const YYERRCODE := 256
  const YYINITDEPTH := 200
  const YYMAXDEPTH := 10000

  /** yytranslate, without the entries that hold its filler value 2. */
  const YYTRANSLATE: map<int, nat> :=
    map[0 := 0, 33 := 10, 38 := 5, 40 := 14, 41 := 15, 58 := 12, 63 := 3, 110 := 13, 124 := 4,
        256 := 1, 257 := 6, 258 := 7, 259 := 8, 260 := 9, 261 := 11]

  // The tables, entry by entry; an index outside a table yields 0 and is never used.

  function YYR1(k: int): int {
    match k
    case 0 => 0 case 1 => 16 case 2 => 17 case 3 => 17 case 4 => 17 case 5 => 17 case 6 => 17 case 7 => 17 case 8 => 17
    case 9 => 17 case 10 => 17 case 11 => 17 case 12 => 17
    case _ => 0
  }

  function YYR2(k: int): int {
    match k
    case 0 => 0 case 1 => 1 case 2 => 5 case 3 => 3 case 4 => 3 case 5 => 3 case 6 => 3 case 7 => 3 case 8 => 3
    case 9 => 2 case 10 => 1 case 11 => 1 case 12 => 3
    case _ => 0
  }

  function YYDEFACT(k: int): int {
    match k
    case 0 => 0 case 1 => 0 case 2 => 11 case 3 => 10 case 4 => 0 case 5 => 1 case 6 => 9 case 7 => 0 case 8 => 0
    case 9 => 0 case 10 => 0 case 11 => 0 case 12 => 0 case 13 => 0 case 14 => 0 case 15 => 12 case 16 => 0 case 17 => 3
    case 18 => 4 case 19 => 5 case 20 => 6 case 21 => 7 case 22 => 8 case 23 => 0 case 24 => 2 case 25 => 0 case 26 => 0
    case 27 => 0
    case _ => 0
  }

  function YYDEFGOTO(k: int): int {
    match k
    case 0 => 25 case 1 => 5
    case _ => 0
  }

  function YYPACT(k: int): int {
    match k
    case 0 => -9 case 1 => -9 case 2 => -32768 case 3 => -32768 case 4 => -9 case 5 => 34 case 6 => -32768 case 7 => 11 case 8 => -9
    case 9 => -9 case 10 => -9 case 11 => -9 case 12 => -9 case 13 => -9 case 14 => -9 case 15 => -32768 case 16 => 24 case 17 => 39
    case 18 => 43 case 19 => 16 case 20 => 26 case 21 => -3 case 22 => -32768 case 23 => -9 case 24 => 34 case 25 => 21 case 26 => 53
    case 27 => -32768
    case _ => 0
  }

  function YYPGOTO(k: int): int {
    match k
    case 0 => -32768 case 1 => -1
    case _ => 0
  }

  function YYTABLE(k: int): int {
    match k
    case 0 => 6 case 1 => 1 case 2 => 2 case 3 => 7 case 4 => 3 case 5 => 4 case 6 => 14 case 7 => 16 case 8 => 17
    case 9 => 18 case 10 => 19 case 11 => 20 case 12 => 21 case 13 => 22 case 14 => 8 case 15 => 9 case 16 => 10 case 17 => 11
    case 18 => 12 case 19 => 13 case 20 => 14 case 21 => 26 case 22 => 24 case 23 => 12 case 24 => 13 case 25 => 14 case 26 => 15
    case 27 => 8 case 28 => 9 case 29 => 10 case 30 => 11 case 31 => 12 case 32 => 13 case 33 => 14 case 34 => 13 case 35 => 14
    case 36 => 23 case 37 => 8 case 38 => 9 case 39 => 10 case 40 => 11 case 41 => 12 case 42 => 13 case 43 => 14 case 44 => 10
    case 45 => 11 case 46 => 12 case 47 => 13 case 48 => 14 case 49 => 11 case 50 => 12 case 51 => 13 case 52 => 14 case 53 => 27
    case _ => 0
  }

  function YYCHECK(k: int): int {
    match k
    case 0 => 1 case 1 => 10 case 2 => 11 case 3 => 4 case 4 => 13 case 5 => 14 case 6 => 9 case 7 => 8 case 8 => 9
    case 9 => 10 case 10 => 11 case 11 => 12 case 12 => 13 case 13 => 14 case 14 => 3 case 15 => 4 case 16 => 5 case 17 => 6
    case 18 => 7 case 19 => 8 case 20 => 9 case 21 => 0 case 22 => 23 case 23 => 7 case 24 => 8 case 25 => 9 case 26 => 15
    case 27 => 3 case 28 => 4 case 29 => 5 case 30 => 6 case 31 => 7 case 32 => 8 case 33 => 9 case 34 => 8 case 35 => 9
    case 36 => 12 case 37 => 3 case 38 => 4 case 39 => 5 case 40 => 6 case 41 => 7 case 42 => 8 case 43 => 9 case 44 => 5
    case 45 => 6 case 46 => 7 case 47 => 8 case 48 => 9 case 49 => 6 case 50 => 7 case 51 => 8 case 52 => 9 case 53 => 0
    case _ => 0
  }

  /** The number the scanner returns for a token. */
  function Code(t: Tok): (c: nat)
    ensures t.End? <==> c == 0
  {
    match t
    case End => 0
    case Bad => YYERRCODE
    case Query => 63
    case Colon => 58
    case LPar => 40
    case RPar => 41
    case Bang => 33
    case VarN => 110
    case Number(_) => 261
    case Binary(op) =>
      match op
      case LOr => 124
      case LAnd => 38
      case Equal => 257
      case NotEqual => 257
      case LessThan => 258
      case GreaterThan => 258
      case LessOrEqual => 258
      case GreaterOrEqual => 258
      case Plus => 259
      case Minus => 259
      case Mult => 260
      case Divide => 260
      case Modulo => 260
  }

  /** YYTRANSLATE: the internal number of an external token code. */
  function Translate(code: nat): nat {
    if code > 261 then 18 else if code in YYTRANSLATE then YYTRANSLATE[code] else 2
  }

  datatype Action = Shift(state: nat) | Reduce(rule: nat) | Accept | Error

  /** The decision of yybackup and yydefault in `state` on internal token number `sym`. */
  function Decide(state: nat, sym: nat): Action {
    var base := YYPACT(state);
    if base == YYFLAG then Default(state)
    else
      var k := base + sym;
      if k < 0 || k > YYLAST || YYCHECK(k) != sym then Default(state)
      else
        var n := YYTABLE(k);
        if n < 0 then (if n == YYFLAG then Error else Reduce(-n))
        else if n == 0 then Error
        else if n == YYFINAL then Accept
        else Shift(n)
  }

  function Default(state: nat): Action {
    var n := YYDEFACT(state);
    if n <= 0 then Error else Reduce(n)
  }

  /** The state entered after reducing to nonterminal `lhs` on top of `state`. */
  function Goto(state: nat, lhs: nat): int {
    var k := YYPGOTO(lhs - YYNTBASE) + state;
    if 0 <= k <= YYLAST && YYCHECK(k) == state then YYTABLE(k) else YYDEFGOTO(lhs - YYNTBASE)
  }

  // ---------------------------------------------------------------- what the tables mean

  /** States in which an operand must follow. */
  predicate Operand(s: nat) {
    s == 0 || s == 1 || s == 4 || 8 <= s <= 14 || s == 23
  }

  /** States whose topmost symbol is an expression that an operator may extend. */
  predicate Extensible(s: nat) {
    s == 5 || s == 7 || 16 <= s <= 21 || s == 24
  }

  /** The loosest phrase that can be on top of the stack in state `s`. */
  function MinLevel(s: nat): nat {
    if s == 6 then 7 else if 17 <= s <= 22 then s - 15 else 0
  }

  /** The state after an expression has been recognised in operand state `s`. */
  function GotoExp(s: nat): nat {
    if s == 0 then 5 else if s == 1 then 6 else if s == 4 then 7 else if s == 23 then 24 else s + 8
  }

  /** Precedence of a token used as an infix operator, 0 for `?`. */
  function InfixPrec(t: Tok): nat
    requires t.Query? || t.Binary?
  {
    if t.Query? then 0 else Prec(t.op)
  }

  /** What each state does: wait for an operand, extend the expression on top when the operator
      binds more tightly than the phrase being completed, or reduce. */
  function Act(s: nat, t: Tok): Action {
    if s == 2 then Reduce(11)
    else if s == 3 then Reduce(10)
    else if s == 6 then Reduce(9)
    else if s == 15 then Reduce(12)
    else if s == 22 then Reduce(8)
    else if Operand(s) then
      (match t
       case Bang => Shift(1)
       case Number(_) => Shift(2)
       case VarN => Shift(3)
       case LPar => Shift(4)
       case _ => Error)
    else if Extensible(s) && (t.Query? || t.Binary?) && InfixPrec(t) >= MinLevel(s) then
      Shift(8 + InfixPrec(t))
    else if s == 7 && t.RPar? then Shift(15)
    else if s == 16 && t.Colon? then Shift(23)
    else if s == 5 then Reduce(1)
    else if 17 <= s <= 21 then Reduce(s - 14)
    else if s == 24 then Reduce(2)
    else if s == 25 && t.End? then Shift(26)
    else if s == 26 && t.End? then Accept
    else Error
  }

  /** The internal number of each token. */
  function Symbol(t: Tok): nat {
    match t
    case End => 0
    case Bad => 1
    case Query => 3
    case Bang => 10
    case Number(_) => 11
    case Colon => 12
    case VarN => 13
    case LPar => 14
    case RPar => 15
    case Binary(op) => 3 + Prec(op)
  }

  lemma {:induction false} TranslateCode(t: Tok)
    ensures Translate(Code(t)) == Symbol(t)
  {
  }

  /** The tables decide exactly what `Act` says, in every state and for every token. */
  lemma {:induction false} TablesRealise(s: nat, t: Tok)
    requires s < 27
    ensures Decide(s, Translate(Code(t))) == Act(s, t)
  {
    TranslateCode(t);
    if Operand(s) {
      OperandRows(s, t);
    } else if Extensible(s) {
      ExtensibleRows(s, t);
    }
  }

  lemma {:induction false} OperandBase(s: nat)
    requires Operand(s)
    ensures YYPACT(s) == -9 && Default(s) == Error
  {
  }

  lemma {:induction false} OperandRows(s: nat, t: Tok)
    requires Operand(s)
    ensures Decide(s, Symbol(t)) == Act(s, t)
  {
    hide YYPACT, Default;
    OperandBase(s);
  }

  lemma {:induction false} ExtensibleRows(s: nat, t: Tok)
    requires Extensible(s)
    ensures Decide(s, Symbol(t)) == Act(s, t)
  {
    if 17 <= s <= 21 {
      BinaryRows(s, t);
    } else if s == 5 || s == 24 {
      CompleteRows(s, t);
    } else {
      OpenRows(s, t);
    }
  }

  lemma {:induction false} CompleteRows(s: nat, t: Tok)
    requires s == 5 || s == 24
    ensures Decide(s, Symbol(t)) == Act(s, t)
  {
  }

  lemma {:induction false} OpenRows(s: nat, t: Tok)
    requires s == 7 || s == 16
    ensures Decide(s, Symbol(t)) == Act(s, t)
  {
  }

  lemma {:induction false} BinaryBase(s: nat)
    requires 17 <= s <= 21
    ensures YYPACT(s) == (if s == 17 then 39 else if s == 18 then 43 else if s == 19 then 16 else if s == 20 then 26 else -3)
    ensures Default(s) == Reduce(s - 14)
  {
  }

  lemma {:induction false} BinaryRows(s: nat, t: Tok)
    requires 17 <= s <= 21
    ensures Decide(s, Symbol(t)) == Act(s, t)
  {
    hide *;
    if s <= 19 {
      WeakRows(s, t);
    } else {
      StrongRows(s, t);
    }
  }

  lemma {:induction false} WeakRows(s: nat, t: Tok)
    requires 17 <= s <= 19
    ensures Decide(s, Symbol(t)) == Act(s, t)
  {
    hide YYPACT, Default;
    BinaryBase(s);
  }

  lemma {:induction false} StrongRows(s: nat, t: Tok)
    requires 20 <= s <= 21
    ensures Decide(s, Symbol(t)) == Act(s, t)
  {
    hide YYPACT, Default;
    BinaryBase(s);
  }

  /** Likewise for the transitions on nonterminals. */
  lemma {:induction false} GotosRealise(s: nat)
    requires Operand(s)
    ensures Goto(s, 17) == GotoExp(s)
    ensures Goto(0, 16) == 25
  {
  }

  /** No state has a transition on the error token, so error recovery can only pop. */
  lemma {:induction false} NoErrorShift(s: nat)
    requires s < 27 && YYPACT(s) != YYFLAG
    ensures var k := YYPACT(s) + YYTERROR; k < 0 || k > YYLAST || YYCHECK(k) != YYTERROR
  {
  }

  /** Rule lengths and left-hand sides, as the reductions use them. */
  lemma {:induction false} RulesRealise(rule: nat)
    requires 1 <= rule <= 12
    ensures YYR1(rule) == if rule == 1 then 16 else 17
    ensures YYR2(rule) == if rule == 2 then 5 else if 3 <= rule <= 8 || rule == 12 then 3
                          else if rule == 9 then 2 else 1
  {
  }
}
