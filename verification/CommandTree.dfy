/** Integer expression trees, how they are written for navit/command.c, and the proof that
    evaluating the text gives the value of the tree. */
module CommandTree {
  import opened Basics
  import opened CommandEval
  import opened CommandRun

  /** An expression as written: every token may have white space in front of it. */
  datatype Tree =
    | Lit(gap: string, numeral: string)
    | Paren(open: string, e: Tree, close: string)
    | Index(e: Tree, gap: string, inner: string)
    | Dot(l: Tree, gap: string, r: Tree)
    | Inv(gap: string, e: Tree)
    | Not(gap: string, e: Tree)
    | Bin(op: Op, l: Tree, gap: string, r: Tree)
    | Cond(c: Tree, question: string, a: Tree, colon: string, b: Tree)
    | Seq(first: Tree, gap: string, rest: Tree)

  const COMMA := 1
  const POSTFIX := 12
  const OPERAND := 13

  /** The digits of a number behind its sign. */
  function Unsigned(t: string): string { if t != "" && t[0] == '-' then t[1..] else t }

  predicate IsNumeral(t: string) {
    Unsigned(t) != "" && forall i :: 0 <= i < |Unsigned(t)| ==> IsDigit(Unsigned(t)[i])
  }

  function NumeralValue(t: string): int {
    if t != "" && t[0] == '-' then -(DigitsValue(t[1..]) as int) else DigitsValue(t)
  }

  /** Every number has a numeral. */
  function Numeral(n: int): (t: string)
    ensures IsNumeral(t) && NumeralValue(t) == n
  {
    if n < 0 then "-" + Decimal(-n) else assert !IsDigit('-'); Decimal(n)
  }

  function Text(e: Tree): string {
    match e
    case Lit(gap, t) => gap + t
    case Paren(open, x, close) => open + ("(" + (Text(x) + (close + ")")))
    case Index(x, gap, inner) => Text(x) + (gap + ("[" + (inner + "]")))
    case Dot(l, gap, x) => Text(l) + (gap + ("." + Text(x)))
    case Inv(gap, x) => gap + ("~" + Text(x))
    case Not(gap, x) => gap + ("!" + Text(x))
    case Bin(op, l, gap, r) => Text(l) + (gap + (Spell(op) + Text(r)))
    case Cond(c, question, a, colon, b) => Text(c) + (question + ("?" + (Text(a) + (colon + (":" + Text(b))))))
    case Seq(first, gap, rest) => Text(first) + (gap + ("," + Text(rest)))
  }

  function Prec(e: Tree): (k: nat)
    ensures COMMA <= k <= OPERAND
  {
    match e
    case Lit(_, _) => OPERAND
    case Paren(_, _, _) => OPERAND
    case Index(_, _, _) => POSTFIX
    case Dot(_, _, _) => POSTFIX
    case Inv(_, _) => UNARY
    case Not(_, _) => UNARY
    case Bin(op, _, _, _) => Level(op)
    case Cond(_, _, _, _, _) => CONDITIONAL
    case Seq(_, _, _) => COMMA
  }

  predicate Spaces(s: string) { forall i :: 0 <= i < |s| ==> IsSpace(s[i]) }

  /** The last token is a number, which a "." right behind it would belong to. */
  predicate LastDigit(e: Tree) {
    match e
    case Lit(_, _) => true
    case Dot(_, _, x) => x.Lit?
    case _ => false
  }

  /** Parentheses stand wherever the grammar needs them; operators of one level group to the left,
      and an alternative of "?:" is no conditional itself.  Numbers may have leading zeros. */
  predicate WellFormed(e: Tree) {
    match e
    case Lit(gap, t) => Spaces(gap) && IsNumeral(t) && IsInt(NumeralValue(t))
    case Paren(open, x, close) => Spaces(open) && Spaces(close) && WellFormed(x)
    case Index(x, gap, inner) => Spaces(gap) && Spaces(inner) && WellFormed(x) && Prec(x) >= POSTFIX
    case Dot(l, gap, x) =>
      && Spaces(gap) && WellFormed(l) && WellFormed(x) && Prec(l) >= POSTFIX && Prec(x) >= OPERAND
      && (LastDigit(l) ==> gap != "")
    case Inv(gap, x) => Spaces(gap) && WellFormed(x) && Prec(x) >= UNARY
    case Not(gap, x) => Spaces(gap) && WellFormed(x) && Prec(x) >= UNARY
    case Bin(op, l, gap, r) => Spaces(gap) && WellFormed(l) && WellFormed(r) && Prec(l) >= Level(op) && Prec(r) > Level(op)
    case Cond(c, question, a, colon, b) =>
      && Spaces(question) && Spaces(colon) && WellFormed(c) && WellFormed(a) && WellFormed(b)
      && Prec(c) >= LOWEST && Prec(a) >= LOWEST && Prec(b) >= LOWEST
    case Seq(first, gap, rest) => Spaces(gap) && WellFormed(first) && WellFormed(rest) && Prec(first) >= CONDITIONAL
  }

  /** The value of a tree; every part is evaluated, also the operands of "&&", "||", "?:", "," and
      "." that do not matter. */
  function Meaning(e: Tree): (v: Option<int>)
    ensures v.Some? ==> IsInt(v.value)
  {
    match e
    case Lit(_, t) => Checked(NumeralValue(t))
    case Paren(_, x, _) => Meaning(x)
    case Index(x, _, _) => Meaning(x)
    case Dot(l, _, x) => if Meaning(x).Some? then Meaning(l) else None
    case Inv(_, x) => (match Meaning(x) case None => None case Some(v) => Some(-v - 1))
    case Not(_, x) => (match Meaning(x) case None => None case Some(v) => Some(Truth(v == 0)))
    case Bin(op, l, _, r) =>
      var x, y := Meaning(l), Meaning(r);
      if x.Some? && y.Some? then Apply(op, x.value, y.value) else None
    case Cond(c, _, a, _, b) =>
      var x, y, z := Meaning(c), Meaning(a), Meaning(b);
      if x.Some? && y.Some? && z.Some? then (if x.value != 0 then y else z) else None
    case Seq(first, _, rest) => if Meaning(first).Some? then Meaning(rest) else None
  }

  // Recognising operators by their first two characters

  function Sees(a: char, b: char, k: nat): Option<Op> {
    if k == 10 then (if a == '*' then Some(Mul) else if a == '/' then Some(Div) else if a == '%' then Some(Rem) else None)
    else if k == 9 then (if a == '-' then Some(Sub) else if a == '+' then Some(Add) else None)
    else if k == 8 then
      (if a == '=' && b == '=' then Some(Equal)
       else if a == '!' && b == '=' then Some(NotEqual)
       else if a == '<' then Some(if b == '=' then LessEqual else Less)
       else if a == '>' then Some(if b == '=' then GreaterEqual else Greater)
       else None)
    else if k == 7 then (if a == '&' && b != '&' then Some(BitAnd) else None)
    else if k == 6 then (if a == '^' then Some(BitXor) else None)
    else if k == 5 then (if a == '|' && b != '|' then Some(BitOr) else None)
    else if k == 4 then (if a == '&' && b == '&' then Some(LogAnd) else None)
    else if k == 3 then (if a == '|' && b == '|' then Some(LogOr) else None)
    else None
  }

  lemma {:induction false} StartsOne(s: string, p: nat, c: char)
    requires p <= |s| && c != '\0'
    ensures Starts(s, p, [c]) <==> Peek(s, p) == c
  {
  }

  lemma {:induction false} StartsTwo(s: string, p: nat, c: char, d: char)
    requires p <= |s| && c != '\0' && d != '\0'
    ensures Starts(s, p, [c, d]) <==> Peek(s, p) == c && Peek(s, p + 1) == d
  {
    if p + 2 <= |s| {
      assert s[p..p+2] == [s[p], s[p+1]];
    }
  }

  lemma {:induction false} FirstOfStep(s: string, p: nat, op: Op, ops: seq<Op>)
    requires p <= |s|
    ensures FirstOf(s, p, [op] + ops) == if Starts(s, p, Spell(op)) then Some(op) else FirstOf(s, p, ops)
    ensures FirstOf(s, p, []) == None
  {
    assert ([op] + ops)[1..] == ops;
  }

  lemma {:induction false} FirstOfLast(s: string, p: nat, op: Op)
    requires p <= |s|
    ensures FirstOf(s, p, [op]) == if Starts(s, p, Spell(op)) then Some(op) else None
  {
    FirstOfStep(s, p, op, []);
    assert [op] + [] == [op];
  }

  lemma {:induction false} NextOpIs(s: string, p: nat, k: nat)
    requires p <= |s|
    ensures NextOp(s, p, k) == Sees(Peek(s, p), Peek(s, p + 1), k)
  {
    hide Starts, FirstOf, Peek;
    if k == 10 {
      assert [Mul, Div, Rem] == [Mul] + [Div, Rem] && [Div, Rem] == [Div] + [Rem];
      FirstOfStep(s, p, Mul, [Div, Rem]);
      FirstOfStep(s, p, Div, [Rem]);
      FirstOfLast(s, p, Rem);
      StartsOne(s, p, '*');
      StartsOne(s, p, '/');
      StartsOne(s, p, '%');
    } else if k == 9 {
      assert [Sub, Add] == [Sub] + [Add];
      FirstOfStep(s, p, Sub, [Add]);
      FirstOfLast(s, p, Add);
      StartsOne(s, p, '-');
      StartsOne(s, p, '+');
    } else if k == 8 {
      NextComparison(s, p);
    } else if k == 7 {
      FirstOfLast(s, p, BitAnd);
      StartsTwo(s, p, '&', '&');
      StartsOne(s, p, '&');
    } else if k == 6 {
      FirstOfLast(s, p, BitXor);
      StartsOne(s, p, '^');
    } else if k == 5 {
      FirstOfLast(s, p, BitOr);
      StartsTwo(s, p, '|', '|');
      StartsOne(s, p, '|');
    } else if k == 4 {
      FirstOfLast(s, p, LogAnd);
      StartsTwo(s, p, '&', '&');
    } else if k == 3 {
      FirstOfLast(s, p, LogOr);
      StartsTwo(s, p, '|', '|');
    } else {
      FirstOfStep(s, p, Mul, []);
    }
  }

  lemma {:induction false} NextComparison(s: string, p: nat)
    requires p <= |s|
    ensures NextOp(s, p, 8) == Sees(Peek(s, p), Peek(s, p + 1), 8)
  {
    hide Starts, FirstOf, Peek;
    assert Candidates(8) == [Equal] + [NotEqual, LessEqual, GreaterEqual, Less, Greater];
    assert [NotEqual, LessEqual, GreaterEqual, Less, Greater] == [NotEqual] + [LessEqual, GreaterEqual, Less, Greater];
    assert [LessEqual, GreaterEqual, Less, Greater] == [LessEqual] + [GreaterEqual, Less, Greater];
    assert [GreaterEqual, Less, Greater] == [GreaterEqual] + [Less, Greater];
    assert [Less, Greater] == [Less] + [Greater];
    FirstOfStep(s, p, Equal, [NotEqual, LessEqual, GreaterEqual, Less, Greater]);
    FirstOfStep(s, p, NotEqual, [LessEqual, GreaterEqual, Less, Greater]);
    FirstOfStep(s, p, LessEqual, [GreaterEqual, Less, Greater]);
    FirstOfStep(s, p, GreaterEqual, [Less, Greater]);
    FirstOfStep(s, p, Less, [Greater]);
    FirstOfLast(s, p, Greater);
    StartsTwo(s, p, '=', '=');
    StartsTwo(s, p, '!', '=');
    StartsTwo(s, p, '<', '=');
    StartsTwo(s, p, '>', '=');
    StartsOne(s, p, '<');
    StartsOne(s, p, '>');
  }

  // Stretches of the text

  /** The text from `p` to `q` is `a`. */
  predicate Has(s: string, p: nat, q: nat, a: string) { p <= q <= |s| && s[p..q] == a }

  lemma {:induction false} Cut(s: string, p: nat, q: nat, a: string, b: string)
    requires Has(s, p, q, a + b)
    ensures Has(s, p, p + |a|, a) && Has(s, p + |a|, q, b) && q == p + |a| + |b| <= |s|
  {
    var t := s[p..q];
    assert s[p..p+|a|] == t[..|a|];
    assert s[p+|a|..q] == t[|a|..];
  }

  lemma {:induction false} HasChars(s: string, p: nat, q: nat, a: string)
    requires Has(s, p, q, a)
    ensures q == p + |a| <= |s|
    ensures a != "" ==> Peek(s, p) == a[0]
    ensures |a| > 1 ==> Peek(s, p + 1) == a[1]
  {
    var t := s[p..q];
    assert a != "" ==> t[0] == s[p];
    assert |a| > 1 ==> t[1] == s[p+1];
  }

  lemma {:induction false} SkipIs(s: string, p: nat, q: nat, gap: string)
    requires Has(s, p, q, gap) && Spaces(gap) && !IsSpace(Peek(s, q))
    ensures SkipSpace(s, p) == q
    decreases q - p
  {
    if p < q {
      assert s[p] == gap[0];
      assert s[p+1..q] == gap[1..];
      SkipIs(s, p + 1, q, gap[1..]);
    }
  }

  /** What an operand may start with. */
  predicate Starting(c: char) { IsSpace(c) || IsDigit(c) || c in "-(~!" }

  lemma {:induction false} TextStarts(e: Tree)
    requires WellFormed(e)
    ensures Text(e) != "" && Starting(Text(e)[0])
  {
    match e
    case Lit(gap, t) =>
      if gap == "" { NumeralStarts(t); }
    case Paren(_, _, _) =>
    case Index(x, _, _) => TextStarts(x);
    case Dot(l, _, _) => TextStarts(l);
    case Inv(_, _) =>
    case Not(_, _) =>
    case Bin(_, l, _, _) => TextStarts(l);
    case Cond(c, _, _, _, _) => TextStarts(c);
    case Seq(first, _, _) => TextStarts(first);
  }

  lemma {:induction false} NumeralStarts(t: string)
    requires IsNumeral(t)
    ensures t != "" && (t[0] == '-' || IsDigit(t[0]))
  {
  }

  /** After an operand at `q`, no operator of level `k` or higher follows, and the operand is over. */
  ghost predicate Follow(k: nat, s: string, q: nat)
    requires q <= |s|
  {
    var z := SkipSpace(s, q);
    && !IsDigit(Peek(s, q)) && Peek(s, q) != '.'
    && Peek(s, z) !in "[(."
    && NoOpAbove(Peek(s, z), Peek(s, z + 1), k)
  }

  predicate NoOpAbove(a: char, b: char, k: nat) {
    forall j :: k <= j < UNARY ==> Sees(a, b, j) == None
  }

  lemma {:induction false} FollowMore(k: nat, s: string, q: nat)
    requires q <= |s| && Follow(k, s, q)
    ensures Follow(k + 1, s, q)
    ensures k < UNARY ==> NextOp(s, SkipSpace(s, q), k) == None
  {
    hide SkipSpace, Sees;
    NextOpIs(s, SkipSpace(s, q), k);
  }

  /** Between two operands stands exactly their operator. */
  lemma {:induction false} OperatorSeen(op: Op, b: char)
    requires Starting(b)
    ensures var t := Spell(op) + [b]; Sees(t[0], t[1], Level(op)) == Some(op) && NoOpAbove(t[0], t[1], Level(op) + 1)
  {
  }

  lemma {:induction false} TwoChars(s: string, z: nat, end: nat, op: Op, r: string)
    requires Has(s, z, end, Spell(op) + r) && r != ""
    ensures var t := Spell(op) + [r[0]]; Peek(s, z) == t[0] && Peek(s, z + 1) == t[1]
  {
    HasChars(s, z, end, Spell(op) + r);
    SpellShape(op);
  }

  lemma {:induction false} OperatorFollows(s: string, q: nat, end: nat, gap: string, op: Op, r: string)
    requires Has(s, q, end, gap + (Spell(op) + r)) && Spaces(gap) && r != "" && Starting(r[0])
    ensures var z := q + |gap|;
      && q <= |s| && z <= |s| && SkipSpace(s, q) == z && NextOp(s, z, Level(op)) == Some(op) && Follow(Level(op) + 1, s, q)
      && Has(s, z + |Spell(op)|, end, r)
  {
    hide Sees, Starting, NextOp, Has, SkipSpace, Peek, Spell, Spaces, IsSpace, IsDigit, NoOpAbove;
    var z := q + |gap|;
    Cut(s, q, end, gap, Spell(op) + r);
    Cut(s, z, end, Spell(op), r);
    TwoChars(s, z, end, op, r);
    SpellShape(op);
    SkipIs(s, q, z, gap);
    OperatorSeen(op, r[0]);
    NextOpIs(s, z, Level(op));
    AfterGap(s, q, z, gap);
  }

  /** The character after an operand is white space or the next token. */
  lemma {:induction false} AfterGap(s: string, q: nat, z: nat, gap: string)
    requires Has(s, q, z, gap) && Spaces(gap) && !IsDigit(Peek(s, z)) && Peek(s, z) != '.'
    ensures !IsDigit(Peek(s, q)) && Peek(s, q) != '.'
  {
    HasChars(s, q, z, gap);
    SpaceChars(Peek(s, q));
  }

  lemma {:induction false} SpaceChars(c: char)
    ensures IsSpace(c) ==> !IsDigit(c) && c != '.'
  {
  }

  lemma {:induction false} SpellShape(op: Op)
    ensures 0 < |Spell(op)| <= 2 && !IsSpace(Spell(op)[0]) && !IsDigit(Spell(op)[0]) && Spell(op)[0] !in "[(."
  {
  }

  // Evaluating the text of a tree

  predicate Spelled(e: Tree, s: string, p: nat, q: nat) {
    Has(s, p, q, Text(e)) && WellFormed(e) && Meaning(e).Some?
  }

  /** An expression is complete at `q`: the end of the text or a closing parenthesis follows. */
  ghost predicate Ends(s: string, q: nat)
    requires q <= |s|
  {
    var z := SkipSpace(s, q);
    !IsDigit(Peek(s, q)) && Peek(s, q) != '.' && (Peek(s, z) == '\0' || Peek(s, z) == ')')
  }

  /** One expression of a list is complete at `q`. */
  ghost predicate Stops(s: string, q: nat)
    requires q <= |s|
  {
    Ends(s, q) || (!IsDigit(Peek(s, q)) && Peek(s, q) != '.' && Peek(s, SkipSpace(s, q)) == ',')
  }

  lemma {:induction false} StopsFollow(s: string, q: nat)
    requires q <= |s| && Stops(s, q)
    ensures Follow(LOWEST, s, q)
  {
    hide SkipSpace;
  }

  function Succ(k: nat): nat { if k < UNARY then k + 1 else UNARY }

  /** What the functions from unary up to level `k` do with the text of `e`: they read all of it,
      and level `k` goes on with its loop. */
  predicate Reads(e: Tree, k: nat, s: string, p: nat, q: nat)
    requires Spelled(e, s, p, q) && LOWEST <= k <= UNARY
  {
    var v, z := Meaning(e).value, SkipSpace(s, q);
    Chain(k, s, p) == if k == UNARY then Outcome(v, NoError, z) else Loop(k, s, z, v)
  }

  lemma {:induction false} SkipSkip(s: string, q: nat)
    requires q <= |s|
    ensures SkipSpace(s, SkipSpace(s, q)) == SkipSpace(s, q)
  {
    SkipTwice(s, q);
  }

  /** When no operator of level `k` follows either, its loop is over. */
  lemma {:induction false} LoopEnds(k: nat, s: string, q: nat, v: int)
    requires q <= |s| && LOWEST <= k < UNARY && IsInt(v) && Follow(k, s, q)
    ensures Loop(k, s, SkipSpace(s, q), v) == Outcome(v, NoError, SkipSpace(s, q))
  {
    hide Chain, NextOp, Apply, SkipSpace, Follow;
    FollowMore(k, s, q);
    SkipSkip(s, q);
    LoopIs(k, s, SkipSpace(s, q), v);
  }

  lemma {:induction false} FullRead(e: Tree, k: nat, s: string, p: nat, q: nat)
    requires Spelled(e, s, p, q) && LOWEST <= k <= UNARY && Reads(e, k, s, p, q) && Follow(k, s, q)
    ensures Chain(k, s, p) == Outcome(Meaning(e).value, NoError, SkipSpace(s, q))
  {
    hide Chain, Loop, SkipSpace, Follow, Text, WellFormed, Meaning;
    if k < UNARY {
      LoopEnds(k, s, q, Meaning(e).value);
    }
  }

  /** From a level to the one below. */
  lemma {:induction false} Lower(e: Tree, k: nat, s: string, p: nat, q: nat)
    requires Spelled(e, s, p, q) && LOWEST <= k < UNARY && Reads(e, k + 1, s, p, q) && Follow(k + 1, s, q)
    ensures Reads(e, k, s, p, q)
  {
    hide Spelled, SkipSpace, Follow, Loop, Unary;
    FullRead(e, k + 1, s, p, q);
    ChainIs(k, s, p);
  }

  lemma {:induction false} ValueRead(s: string, z: nat, q: nat, t: string)
    requires Has(s, z, q, t) && IsNumeral(t) && IsInt(NumeralValue(t)) && SkipSpace(s, z) == z
    requires !IsDigit(Peek(s, q)) && Peek(s, q) != '.'
    ensures Value(s, z) == Outcome(NumeralValue(t), NoError, q)
    ensures IsDigit(Peek(s, z)) || Peek(s, z) == '-'
  {
    hide SkipSpace, DigitsValue;
    NumeralStarts(t);
    HasChars(s, z, q, t);
    var d := if t[0] == '-' then z + 1 else z;
    if t[0] == '-' {
      assert t == "-" + t[1..];
      Cut(s, z, q, "-", t[1..]);
    }
    DigitsRun(s, d, q, Unsigned(t));
    NumeralChar(Peek(s, z));
  }

  /** What an operand without prefix operators starts with, after white space. */
  predicate Opens(c: char) { IsDigit(c) || c == '-' || c == '(' }

  lemma {:induction false} BraceSkips(s: string, p: nat)
    requires p <= |s|
    ensures Brace(s, p) == Brace(s, SkipSpace(s, p))
    ensures Postfix(s, p) == Postfix(s, SkipSpace(s, p))
  {
    hide SkipSpace, Comma, Value, Suffixes;
    SkipSkip(s, p);
  }

  /** An operand that is no prefix operator. */
  lemma {:induction false} PostfixEnds(s: string, p: nat, q: nat, v: int)
    requires p <= |s| && q <= |s| && Opens(Peek(s, SkipSpace(s, p))) && IsInt(v)
    requires Postfix(s, p) == Suffixes(s, q, v) && Peek(s, SkipSpace(s, q)) !in "[(."
    ensures Unary(s, p) == Outcome(v, NoError, SkipSpace(s, q))
  {
    hide SkipSpace, Postfix, Suffixes;
    BraceSkips(s, p);
    SuffixesIs(s, q, v);
  }

  lemma {:induction false} NumberRead(s: string, p: nat, q: nat, gap: string, t: string)
    requires Has(s, p, q, gap + t) && Spaces(gap) && IsNumeral(t) && IsInt(NumeralValue(t))
    requires !IsDigit(Peek(s, q)) && Peek(s, q) != '.'
    ensures Brace(s, p) == Outcome(NumeralValue(t), NoError, q) && Opens(Peek(s, SkipSpace(s, p)))
  {
    hide SkipSpace, Comma, Value, Spaces;
    Cut(s, p, q, gap, t);
    var z := p + |gap|;
    HasChars(s, z, q, t);
    NumeralStarts(t);
    NumeralChar(Peek(s, z));
    SkipIs(s, p, z, gap);
    SkipSkip(s, p);
    ValueRead(s, z, q, t);
  }

  lemma {:induction false} NumeralChar(c: char)
    ensures IsDigit(c) || c == '-' ==> !IsSpace(c) && c != '~' && c != '!' && c != '(' && c != '"' && !IsName(c)
  {
  }

  lemma {:induction false} DigitsRun(s: string, d: nat, q: nat, t: string)
    requires Has(s, d, q, t) && t != "" && (forall i :: 0 <= i < |t| ==> IsDigit(t[i])) && !IsDigit(Peek(s, q))
    ensures SkipDigits(s, d) == q && s[d..q] == t && IsDigit(Peek(s, d))
  {
    forall i | d <= i < q ensures IsDigit(s[i]) {
      assert s[i] == t[i-d];
    }
    assert s[d] == t[0];
    RunEnds(s, d, q);
  }

  lemma {:induction false} RunEnds(s: string, d: nat, q: nat)
    requires d <= q <= |s| && (forall i :: d <= i < q ==> IsDigit(s[i])) && !IsDigit(Peek(s, q))
    ensures SkipDigits(s, d) == q
    decreases q - d
  {
    if d < q {
      RunEnds(s, d + 1, q);
    }
  }

  /** A prefix operator. */
  lemma {:induction false} PrefixRead(s: string, p: nat, q: nat, gap: string, c: char, x: Tree)
    requires Has(s, p, q, gap + ([c] + Text(x))) && Spaces(gap) && (c == '~' || c == '!')
    requires WellFormed(x) && Meaning(x).Some? && Unary(s, p + |gap| + 1) == Outcome(Meaning(x).value, NoError, SkipSpace(s, q))
    ensures Unary(s, p) == Outcome(if c == '~' then -Meaning(x).value - 1 else Truth(Meaning(x).value == 0), NoError, SkipSpace(s, q))
  {
    hide SkipSpace, Postfix, Meaning, Text, WellFormed;
    Cut(s, p, q, gap, [c] + Text(x));
    HasChars(s, p + |gap|, q, [c] + Text(x));
    SkipIs(s, p, p + |gap|, gap);
  }

  /** Where the parts of a parenthesis are. */
  lemma {:induction false} ParenParts(s: string, p: nat, q: nat, open: string, x: string, close: string)
    requires Has(s, p, q, open + ("(" + (x + (close + ")")))) && Spaces(open) && Spaces(close)
    ensures var z, m := p + |open|, p + |open| + 1 + |x|;
      && z < m <= q == m + |close| + 1 <= |s|
      && SkipSpace(s, p) == z && Peek(s, z) == '(' && Has(s, z + 1, m, x)
      && SkipSpace(s, m) == q - 1 && Peek(s, q - 1) == ')' && Has(s, m, q, close + ")")
  {
    hide SkipSpace, Spaces, Peek, Has;
    var t3 := close + ")";
    var t2 := x + t3;
    var t1 := "(" + t2;
    var z := p + |open|;
    var m := z + 1 + |x|;
    Cut(s, p, q, open, t1);
    Cut(s, z, q, "(", t2);
    HasChars(s, z, z + 1, "(");
    Cut(s, z + 1, q, x, t3);
    Cut(s, m, q, close, ")");
    HasChars(s, q - 1, q, ")");
    MarkChar();
    SkipIs(s, p, z, open);
    SkipIs(s, m, m + |close|, close);
  }

  lemma {:induction false} MarkChar()
    ensures !IsSpace('(') && !IsSpace(')') && !IsSpace('[') && !IsSpace(']') && !IsSpace('.')
    ensures !IsDigit('[') && !IsDigit(']')
  {
  }

  /** A parenthesis. */
  lemma {:induction false} ParenRead(s: string, p: nat, q: nat, open: string, x: string, close: string, v: int)
    requires Has(s, p, q, open + ("(" + (x + (close + ")")))) && Spaces(open) && Spaces(close) && IsInt(v)
    requires var m := p + |open| + 1 + |x|; m <= |s| && Comma(s, p + |open| + 1) == Outcome(v, NoError, SkipSpace(s, m))
    ensures Brace(s, p) == Outcome(v, NoError, q) && Peek(s, SkipSpace(s, p)) == '('
  {
    hide SkipSpace, Comma, Spaces, Brace, Peek, Has;
    ParenParts(s, p, q, open, x, close);
    var z, m := p + |open|, p + |open| + 1 + |x|;
    SkipSkip(s, p);
    SkipSkip(s, m);
    BraceRead(s, z, q - 1, v);
    BraceSkips(s, p);
  }

  lemma {:induction false} BraceRead(s: string, z: nat, c: nat, v: int)
    requires z < c < |s| && IsInt(v) && SkipSpace(s, z) == z && SkipSpace(s, c) == c && Peek(s, z) == '(' && Peek(s, c) == ')'
    requires Comma(s, z + 1) == Outcome(v, NoError, c)
    ensures Brace(s, z) == Outcome(v, NoError, c + 1)
  {
    hide SkipSpace, Comma;
  }

  /** White space and a character after an operand. */
  lemma {:induction false} MarkFollows(s: string, q: nat, end: nat, gap: string, mark: string, rest: string)
    requires Has(s, q, end, gap + (mark + rest)) && Spaces(gap) && (mark == ")" || mark == "?" || mark == ":" || mark == ",")
    ensures var z := q + |gap|;
      && q <= |s| && z + 1 <= end <= |s| && SkipSpace(s, q) == z && Peek(s, z) == mark[0] && Has(s, z + 1, end, rest) && Follow(LOWEST, s, q)
      && (mark == ")" ==> Ends(s, q)) && (mark == "," ==> Stops(s, q))
  {
    hide Has, SkipSpace, Peek, Spaces;
    Cut(s, q, end, gap, mark + rest);
    var z := q + |gap|;
    Cut(s, z, end, mark, rest);
    HasChars(s, z, z + 1, mark);
    SkipIs(s, q, z, gap);
    AfterGap(s, q, z, gap);
  }

  lemma {:induction false} FollowUp(j: nat, k: nat, s: string, q: nat)
    requires q <= |s| && j <= k && Follow(j, s, q)
    ensures Follow(k, s, q)
  {
    hide SkipSpace, Sees;
  }

  /** Operands and operators: reading the text of an expression that binds at least as tightly as
      level `k`, when only looser operators follow. */
  lemma {:induction false} ReadsText(e: Tree, k: nat, s: string, p: nat, q: nat)
    requires Spelled(e, s, p, q) && LOWEST <= k <= UNARY && Prec(e) >= k && Follow(Succ(k), s, q)
    ensures Reads(e, k, s, p, q)
    decreases e, 1, UNARY - k
  {
    hide SkipSpace, Follow, Loop, Chain, Unary, Comma, Reads, NextOp, Spell, Level, IsInt;
    if k < UNARY && Prec(e) > k {
      FollowUp(k + 1, Succ(k + 1), s, q);
      ReadsText(e, k + 1, s, p, q);
      Lower(e, k, s, p, q);
    } else if k == UNARY {
      ReadsUnary(e, s, p, q);
    } else {
      assert e.Bin? && Level(e.op) == k by { PrecIs(e, k); }
      ReadsBinary(e, k, s, p, q);
    }
  }

  lemma {:induction false} PrecIs(e: Tree, k: nat)
    requires Prec(e) == k && LOWEST <= k < UNARY
    ensures e.Bin? && Level(e.op) == k
  {
    hide Level;
  }

  lemma {:induction false} ReadsUnary(e: Tree, s: string, p: nat, q: nat)
    requires Spelled(e, s, p, q) && Prec(e) >= UNARY && Follow(UNARY, s, q)
    ensures Reads(e, UNARY, s, p, q)
    decreases e, 1, 0, 0
  {
    hide SkipSpace, Loop, Chain, Unary, Postfix, Suffixes, Comma, NextOp, Spell, Level, Follow, Opens;
    ChainIs(UNARY, s, p);
    FollowChar(UNARY, s, q);
    if e.Inv? {
      PrefixReads(s, p, q, e.gap, '~', e.e);
    } else if e.Not? {
      PrefixReads(s, p, q, e.gap, '!', e.e);
    } else {
      ReadsPostfix(e, s, p, q);
      PostfixEnds(s, p, q, Meaning(e).value);
    }
  }

  /** The last number of `e` is over at `q`. */
  predicate Over(e: Tree, s: string, q: nat) {
    LastDigit(e) ==> !IsDigit(Peek(s, q)) && Peek(s, q) != '.'
  }

  lemma {:induction false} ReadsBrace(e: Tree, s: string, p: nat, q: nat)
    requires Spelled(e, s, p, q) && Prec(e) >= OPERAND && Over(e, s, q)
    ensures Brace(s, p) == Outcome(Meaning(e).value, NoError, q) && Opens(Peek(s, SkipSpace(s, p)))
    decreases e, 0, 0
  {
    hide SkipSpace, Comma, Level, Value, Brace;
    match e
    case Lit(gap, t) => NumberRead(s, p, q, gap, t);
    case Paren(open, x, close) => ParenReads(s, p, q, open, x, close);
  }

  /** An operand with the "[ ]" and "." behind it. */
  lemma {:induction false} ReadsPostfix(e: Tree, s: string, p: nat, q: nat)
    requires Spelled(e, s, p, q) && Prec(e) >= POSTFIX && Over(e, s, q)
    ensures Postfix(s, p) == Suffixes(s, q, Meaning(e).value) && Opens(Peek(s, SkipSpace(s, p)))
    decreases e, 0, 1
  {
    hide SkipSpace, Brace, Suffixes, Text, Level, Opens;
    if e.Index? {
      ReadsIndex(e, s, p, q);
    } else if e.Dot? {
      ReadsDot(e, s, p, q);
    } else {
      ReadsBrace(e, s, p, q);
    }
  }

  lemma {:induction false} ReadsIndex(e: Tree, s: string, p: nat, q: nat)
    requires Spelled(e, s, p, q) && e.Index?
    ensures Postfix(s, p) == Suffixes(s, q, Meaning(e).value) && Opens(Peek(s, SkipSpace(s, p)))
    decreases e, 0, 0
  {
    hide SkipSpace, Brace, Suffixes, Postfix, Opens, Has, Spaces;
    var x, gap, inner := e.e, e.gap, e.inner;
    var m := p + |Text(x)|;
    var z := m + |gap|;
    Cut(s, p, q, Text(x), gap + ("[" + (inner + "]")));
    Bracket(s, m, q, gap, inner);
    SpelledIs(x, s, p, m);
    ReadsPostfix(x, s, p, m);
    SuffixesIs(s, m, Meaning(x).value);
  }

  /** Where the parts of a pair of brackets are. */
  lemma {:induction false} Bracket(s: string, m: nat, q: nat, gap: string, inner: string)
    requires Has(s, m, q, gap + ("[" + (inner + "]"))) && Spaces(gap) && Spaces(inner)
    ensures var z := m + |gap|;
      && m <= z < q <= |s| && SkipSpace(s, m) == z && Peek(s, z) == '['
      && SkipSpace(s, z + 1) == q - 1 && Peek(s, q - 1) == ']'
      && !IsDigit(Peek(s, m)) && Peek(s, m) != '.'
  {
    hide SkipSpace, Spaces, Peek, Has;
    var z := m + |gap|;
    Cut(s, m, q, gap, "[" + (inner + "]"));
    Cut(s, z, q, "[", inner + "]");
    HasChars(s, z, z + 1, "[");
    Cut(s, z + 1, q, inner, "]");
    HasChars(s, q - 1, q, "]");
    MarkChar();
    SkipIs(s, m, z, gap);
    SkipIs(s, z + 1, q - 1, inner);
    AfterGap(s, m, z, gap);
  }

  lemma {:induction false} ReadsDot(e: Tree, s: string, p: nat, q: nat)
    requires Spelled(e, s, p, q) && e.Dot? && Over(e, s, q)
    ensures Postfix(s, p) == Suffixes(s, q, Meaning(e).value) && Opens(Peek(s, SkipSpace(s, p)))
    decreases e, 0, 0
  {
    hide SkipSpace, Brace, Suffixes, Postfix, Opens, Has, Spaces;
    var l, gap, x := e.l, e.gap, e.r;
    var m := p + |Text(l)|;
    var z := m + |gap|;
    Cut(s, p, q, Text(l), gap + ("." + Text(x)));
    DotAt(s, m, q, gap, Text(x));
    SpelledIs(l, s, p, m);
    ReadsPostfix(l, s, p, m);
    SuffixesIs(s, m, Meaning(l).value);
    SpelledIs(x, s, z + 1, q);
    ReadsBrace(x, s, z + 1, q);
  }

  lemma {:induction false} DotAt(s: string, m: nat, q: nat, gap: string, x: string)
    requires Has(s, m, q, gap + ("." + x)) && Spaces(gap)
    ensures var z := m + |gap|;
      && m <= z < q <= |s| && SkipSpace(s, m) == z && Peek(s, z) == '.' && Has(s, z + 1, q, x)
      && (gap != "" ==> !IsDigit(Peek(s, m)) && Peek(s, m) != '.')
  {
    hide SkipSpace, Spaces, Peek, Has;
    var z := m + |gap|;
    Cut(s, m, q, gap, "." + x);
    Cut(s, z, q, ".", x);
    HasChars(s, z, z + 1, ".");
    MarkChar();
    SkipIs(s, m, z, gap);
    if gap != "" {
      HasChars(s, m, z, gap);
      FirstSpace(gap);
      SpaceChars(Peek(s, m));
    }
  }

  lemma {:induction false} FirstSpace(gap: string)
    requires Spaces(gap) && gap != ""
    ensures IsSpace(gap[0])
  {
  }

  lemma {:induction false} FollowChar(k: nat, s: string, q: nat)
    requires q <= |s| && Follow(k, s, q)
    ensures !IsDigit(Peek(s, q)) && Peek(s, q) != '.' && Peek(s, SkipSpace(s, q)) !in "[(."
  {
    hide SkipSpace, Sees;
  }

  lemma {:induction false} PrefixReads(s: string, p: nat, q: nat, gap: string, c: char, x: Tree)
    requires Has(s, p, q, gap + ([c] + Text(x))) && Spaces(gap) && (c == '~' || c == '!')
    requires WellFormed(x) && Prec(x) >= UNARY && Meaning(x).Some? && Follow(UNARY, s, q)
    ensures Unary(s, p) == Outcome(if c == '~' then -Meaning(x).value - 1 else Truth(Meaning(x).value == 0), NoError, SkipSpace(s, q))
    decreases x, 2
  {
    hide *;
    Levels();
    Cut(s, p, q, gap, [c] + Text(x));
    Cut(s, p + |gap|, q, [c], Text(x));
    SpelledIs(x, s, p + |gap| + 1, q);
    ReadsText(x, UNARY, s, p + |gap| + 1, q);
    ReadsIs(x, UNARY, s, p + |gap| + 1, q);
    ChainIs(UNARY, s, p + |gap| + 1);
    PrefixRead(s, p, q, gap, c, x);
  }

  lemma {:induction false} Levels()
    ensures LOWEST == 3 && UNARY == 11 && Succ(UNARY) == UNARY && forall k: nat :: k < UNARY ==> Succ(k) == k + 1
  {
  }

  lemma {:induction false} SpelledIs(e: Tree, s: string, p: nat, q: nat)
    requires Has(s, p, q, Text(e)) && WellFormed(e) && Meaning(e).Some?
    ensures Spelled(e, s, p, q)
  {
    hide Text, WellFormed, Meaning;
  }

  lemma {:induction false} ReadsIs(e: Tree, k: nat, s: string, p: nat, q: nat)
    requires Spelled(e, s, p, q) && LOWEST <= k <= UNARY && Reads(e, k, s, p, q)
    ensures Meaning(e).Some?
    ensures Chain(k, s, p) == if k == UNARY then Outcome(Meaning(e).value, NoError, SkipSpace(s, q)) else Loop(k, s, SkipSpace(s, q), Meaning(e).value)
  {
    hide Text, WellFormed, Meaning, Chain, Loop, SkipSpace;
  }

  lemma {:induction false} ParenReads(s: string, p: nat, q: nat, open: string, x: Tree, close: string)
    requires Has(s, p, q, open + ("(" + (Text(x) + (close + ")")))) && Spaces(open) && Spaces(close)
    requires WellFormed(x) && Meaning(x).Some?
    ensures Brace(s, p) == Outcome(Meaning(x).value, NoError, q) && Peek(s, SkipSpace(s, p)) == '('
    decreases x, 6
  {
    hide *;
    Levels();
    var z, m := p + |open| + 1, p + |open| + 1 + |Text(x)|;
    ParenParts(s, p, q, open, Text(x), close);
    assert close + ")" == close + (")" + "");
    MarkFollows(s, m, q, close, ")", "");
    SpelledIs(x, s, z, m);
    ReadsComma(x, s, z, m);
    ParenRead(s, p, q, open, Text(x), close, Meaning(x).value);
  }

  lemma {:induction false} BinParts(e: Tree, s: string, p: nat, q: nat)
    requires e.Bin? && Spelled(e, s, p, q)
    ensures WellFormed(e.l) && WellFormed(e.r) && Prec(e) == Level(e.op) && Prec(e.l) >= Level(e.op) && Prec(e.r) >= Level(e.op) + 1 && Spaces(e.gap)
    ensures Meaning(e.l).Some? && Meaning(e.r).Some? && Apply(e.op, Meaning(e.l).value, Meaning(e.r).value) == Meaning(e) && Meaning(e).Some?
    ensures Has(s, p, q, Text(e.l) + (e.gap + (Spell(e.op) + Text(e.r))))
  {
    hide Apply, Spell, Level;
  }

  lemma {:induction false} ReadsBinary(e: Tree, k: nat, s: string, p: nat, q: nat)
    requires Spelled(e, s, p, q) && LOWEST <= k < UNARY && e.Bin? && Level(e.op) == k && Follow(k + 1, s, q)
    ensures Reads(e, k, s, p, q)
    decreases e, 0
  {
    hide *;
    Levels();
    var op, l, gap, r := e.op, e.l, e.gap, e.r;
    BinParts(e, s, p, q);
    var m := p + |Text(l)|;
    TextStarts(r);
    Cut(s, p, q, Text(l), gap + (Spell(op) + Text(r)));
    OperatorFollows(s, m, q, gap, op, Text(r));
    var z := m + |gap|;
    var a := z + |Spell(op)|;
    SpelledIs(l, s, p, m);
    SpelledIs(r, s, a, q);
    ReadsText(l, k, s, p, m);
    ReadsIs(l, k, s, p, m);
    FollowUp(k + 1, Succ(k + 1), s, q) by { SuccOrder(k + 1); }
    ReadsText(r, k + 1, s, a, q);
    FullRead(r, k + 1, s, a, q);
    SkipSkip(s, m);
    LoopIs(k, s, z, Meaning(l).value);
    MakeReads(e, k, s, p, q);
  }

  lemma {:induction false} SuccOrder(k: nat)
    requires k <= UNARY
    ensures k <= Succ(k) <= UNARY
  {
  }

  lemma {:induction false} MakeReads(e: Tree, k: nat, s: string, p: nat, q: nat)
    requires Spelled(e, s, p, q) && LOWEST <= k < UNARY
    requires Meaning(e).Some? && Chain(k, s, p) == Loop(k, s, SkipSpace(s, q), Meaning(e).value)
    ensures Reads(e, k, s, p, q)
  {
    hide Text, WellFormed, Meaning, Chain, Loop, SkipSpace;
  }

  lemma {:induction false} ReadsConditional(e: Tree, s: string, p: nat, q: nat)
    requires Spelled(e, s, p, q) && Prec(e) >= CONDITIONAL && Stops(s, q)
    ensures Conditional(s, p) == Outcome(Meaning(e).value, NoError, SkipSpace(s, q))
    decreases e, 3
  {
    hide SkipSpace, Follow, Loop, Chain, Apply, Spell, Text, Meaning, Conditional, WellFormed;
    StopsFollow(s, q);
    if Prec(e) >= LOWEST {
      OperandRead(e, s, p, q);
      assert Conditional(s, p) == Outcome(Meaning(e).value, NoError, SkipSpace(s, q)) by { PlainConditional(s, p, q, Meaning(e).value); }
    } else {
      ChoiceReads(e, s, p, q);
    }
  }

  lemma {:induction false} PlainConditional(s: string, p: nat, q: nat, v: int)
    requires p <= q <= |s| && IsInt(v) && Stops(s, q) && Chain(LOWEST, s, p) == Outcome(v, NoError, SkipSpace(s, q))
    ensures Conditional(s, p) == Outcome(v, NoError, SkipSpace(s, q))
  {
    hide SkipSpace, Chain;
    SkipSkip(s, q);
  }

  lemma {:induction false} CondParts(e: Tree, s: string, p: nat, q: nat)
    requires e.Cond? && Spelled(e, s, p, q)
    ensures WellFormed(e.c) && WellFormed(e.a) && WellFormed(e.b) && Spaces(e.question) && Spaces(e.colon)
    ensures Prec(e.c) >= LOWEST && Prec(e.a) >= LOWEST && Prec(e.b) >= LOWEST
    ensures Meaning(e.c).Some? && Meaning(e.a).Some? && Meaning(e.b).Some? && Meaning(e).Some?
    ensures Meaning(e) == if Meaning(e.c).value != 0 then Meaning(e.a) else Meaning(e.b)
    ensures Has(s, p, q, Text(e.c) + (e.question + ("?" + (Text(e.a) + (e.colon + (":" + Text(e.b)))))))
  {
    hide Apply;
  }

  lemma {:induction false} ChoiceReads(e: Tree, s: string, p: nat, q: nat)
    requires Spelled(e, s, p, q) && e.Cond? && Follow(LOWEST, s, q)
    ensures Meaning(e).Some? && Conditional(s, p) == Outcome(Meaning(e).value, NoError, SkipSpace(s, q))
    decreases e, 1
  {
    hide *;
    Levels();
    CondParts(e, s, p, q);
    var c, a, b := e.c, e.a, e.b;
    var m := p + |Text(c)|;
    var zq := m + |e.question|;
    var ma := zq + 1 + |Text(a)|;
    var zc := ma + |e.colon|;
    ChoiceParts(s, p, q, Text(c), e.question, Text(a), e.colon, Text(b));
    SpelledIs(c, s, p, m);
    OperandRead(c, s, p, m);
    SpelledIs(a, s, zq + 1, ma);
    OperandRead(a, s, zq + 1, ma);
    SpelledIs(b, s, zc + 1, q);
    OperandRead(b, s, zc + 1, q);
    Choice(s, p, zq, zc, SkipSpace(s, q), Meaning(c).value, Meaning(a).value, Meaning(b).value);
  }

  /** Where the parts of a conditional are. */
  lemma {:induction false} ChoiceParts(s: string, p: nat, q: nat, c: string, question: string, a: string, colon: string, b: string)
    requires Has(s, p, q, c + (question + ("?" + (a + (colon + (":" + b)))))) && Spaces(question) && Spaces(colon)
    ensures var m := p + |c|;
      var zq := m + |question|;
      var ma := zq + 1 + |a|;
      var zc := ma + |colon|;
      && m <= zq < ma <= zc < q && zc + 1 + |b| == q
      && Has(s, p, m, c) && Has(s, zq + 1, ma, a) && Has(s, zc + 1, q, b)
      && SkipSpace(s, m) == zq == SkipSpace(s, zq) && Peek(s, zq) == '?' && Follow(LOWEST, s, m)
      && SkipSpace(s, ma) == zc == SkipSpace(s, zc) && Peek(s, zc) == ':' && Follow(LOWEST, s, ma)
  {
    hide SkipSpace, Spaces, Peek, Follow, Has;
    var t3 := ":" + b;
    var t2 := colon + t3;
    var t1 := a + t2;
    var m := p + |c|;
    var zq := m + |question|;
    var ma := zq + 1 + |a|;
    Cut(s, p, q, c, question + ("?" + t1));
    MarkFollows(s, m, q, question, "?", t1);
    Cut(s, zq + 1, q, a, t2);
    MarkFollows(s, ma, q, colon, ":", b);
    SkipSkip(s, m);
    SkipSkip(s, ma);
  }

  /** A conditional whose parts are read one after the other. */
  lemma {:induction false} Choice(s: string, p: nat, m: nat, n: nat, z: nat, x: int, y: int, w: int)
    requires p <= m < n < |s| && z <= |s| && Peek(s, m) == '?' && Peek(s, n) == ':' && SkipSpace(s, m) == m && SkipSpace(s, n) == n
    requires Chain(LOWEST, s, p) == Outcome(x, NoError, m)
    requires Chain(LOWEST, s, m + 1) == Outcome(y, NoError, n)
    requires Chain(LOWEST, s, n + 1) == Outcome(w, NoError, z)
    ensures Conditional(s, p) == Outcome(if x != 0 then y else w, NoError, z)
  {
    hide SkipSpace, Chain;
  }

  lemma {:induction false} SpelledRange(e: Tree, s: string, p: nat, q: nat)
    requires Spelled(e, s, p, q)
    ensures p <= q <= |s|
  {
  }

  lemma {:induction false} OperandRead(e: Tree, s: string, p: nat, q: nat)
    requires Spelled(e, s, p, q) && Prec(e) >= LOWEST && Follow(LOWEST, s, q)
    ensures Meaning(e).Some? && Chain(LOWEST, s, p) == Outcome(Meaning(e).value, NoError, SkipSpace(s, q))
    decreases e, 2
  {
    hide *;
    Levels();
    SpelledRange(e, s, p, q);
    FollowUp(LOWEST, Succ(LOWEST), s, q);
    ReadsText(e, LOWEST, s, p, q);
    ReadsIs(e, LOWEST, s, p, q);
    FullRead(e, LOWEST, s, p, q);
  }

  lemma {:induction false} ReadsOne(e: Tree, s: string, p: nat, q: nat)
    requires Spelled(e, s, p, q) && Prec(e) >= CONDITIONAL && Stops(s, q)
    ensures Assignment(s, p) == Outcome(Meaning(e).value, NoError, SkipSpace(s, q))
    decreases e, 4
  {
    hide SkipSpace, Conditional, Text, Meaning, WellFormed;
    ReadsConditional(e, s, p, q);
    SkipSkip(s, q);
  }

  lemma {:induction false} SeqParts(e: Tree, s: string, p: nat, q: nat)
    requires e.Seq? && Spelled(e, s, p, q)
    ensures WellFormed(e.first) && WellFormed(e.rest) && Prec(e.first) >= CONDITIONAL && Spaces(e.gap)
    ensures Meaning(e.first).Some? && Meaning(e.rest).Some? && Meaning(e) == Meaning(e.rest)
    ensures Has(s, p, q, Text(e.first) + (e.gap + ("," + Text(e.rest))))
  {
  }

  lemma {:induction false} ReadsComma(e: Tree, s: string, p: nat, q: nat)
    requires Spelled(e, s, p, q) && Ends(s, q)
    ensures Comma(s, p) == Outcome(Meaning(e).value, NoError, SkipSpace(s, q))
    decreases e, 5
  {
    hide SkipSpace, Assignment, Text, Meaning, WellFormed, Spaces, Has;
    SkipSkip(s, q);
    if e.Seq? {
      SeqParts(e, s, p, q);
      var m := p + |Text(e.first)|;
      Cut(s, p, q, Text(e.first), e.gap + ("," + Text(e.rest)));
      MarkFollows(s, m, q, e.gap, ",", Text(e.rest));
      SpelledIs(e.first, s, p, m);
      ReadsOne(e.first, s, p, m);
      var z := m + |e.gap|;
      SkipSkip(s, m);
      SpelledIs(e.rest, s, z + 1, q);
      ReadsComma(e.rest, s, z + 1, q);
    } else {
      ReadsOne(e, s, p, q);
    }
  }

  /** The whole text: the value of the tree, no error, and the cursor at the end. */
  lemma {:induction false} EvaluatesTree(e: Tree, trailing: string)
    requires WellFormed(e) && Meaning(e).Some? && Spaces(trailing)
    ensures var s := Text(e) + trailing; Comma(s, 0) == Outcome(Meaning(e).value, NoError, |s|)
  {
    hide Text, WellFormed, Meaning, Comma;
    var s, q := Text(e) + trailing, |Text(e)|;
    assert s[0..q] == Text(e) && s[q..|s|] == trailing;
    SkipIs(s, q, |s|, trailing);
    AfterGap(s, q, |s|, trailing);
    ReadsComma(e, s, 0, q);
  }

  // Minimal parentheses

  predicate Bare(e: Tree) {
    match e
    case Lit(gap, t) => gap == "" && IsNumeral(t) && IsInt(NumeralValue(t))
    case Paren(_, _, _) => false
    case Index(x, gap, inner) => gap == "" && inner == "" && Bare(x)
    case Dot(l, gap, x) => gap == "" && Bare(l) && Bare(x)
    case Inv(gap, x) => gap == "" && Bare(x)
    case Not(gap, x) => gap == "" && Bare(x)
    case Bin(_, l, gap, r) => gap == "" && Bare(l) && Bare(r)
    case Cond(c, question, a, colon, b) => question == "" && colon == "" && Bare(c) && Bare(a) && Bare(b)
    case Seq(first, gap, rest) => gap == "" && Bare(first) && Bare(rest)
  }

  function Wrap(e: Tree, k: nat): Tree { if Prec(e) >= k then e else Paren("", e, "") }

  /** The tree with parentheses only where its structure needs them. */
  function Minimal(e: Tree): (m: Tree)
    requires Bare(e)
    ensures Prec(m) == Prec(e)
  {
    match e
    case Lit(_, _) => e
    case Index(x, g, inner) => Index(Wrap(Minimal(x), POSTFIX), g, inner)
    case Dot(l, _, x) =>
      var w := Wrap(Minimal(l), POSTFIX);
      Dot(w, if LastDigit(w) then " " else "", Wrap(Minimal(x), OPERAND))
    case Inv(g, x) => Inv(g, Wrap(Minimal(x), UNARY))
    case Not(g, x) => Not(g, Wrap(Minimal(x), UNARY))
    case Bin(op, l, g, r) => Bin(op, Wrap(Minimal(l), Level(op)), g, Wrap(Minimal(r), Level(op) + 1))
    case Cond(c, q, a, m, b) => Cond(Wrap(Minimal(c), LOWEST), q, Wrap(Minimal(a), LOWEST), m, Wrap(Minimal(b), LOWEST))
    case Seq(first, g, rest) => Seq(Wrap(Minimal(first), CONDITIONAL), g, Minimal(rest))
  }

  lemma {:induction false} WrapMeans(e: Tree, k: nat)
    requires WellFormed(e) && k <= OPERAND
    ensures var w := Wrap(e, k); WellFormed(w) && Prec(w) >= k && Meaning(w) == Meaning(e)
  {
    hide Level, Apply;
  }

  lemma {:induction false} NoSpaces()
    ensures Spaces("") && Spaces(" ")
  {
  }

  lemma {:induction false} MinimalMeans(e: Tree)
    requires Bare(e)
    ensures WellFormed(Minimal(e)) && Meaning(Minimal(e)) == Meaning(e)
  {
    hide Apply, Level, Wrap, Checked, IsNumeral, NumeralValue, IsInt, Spaces;
    NoSpaces();
    match e
    case Lit(_, _) =>
    case Index(x, _, _) =>
      MinimalMeans(x);
      WrapMeans(Minimal(x), POSTFIX);
    case Dot(l, _, x) =>
      MinimalMeans(l);
      MinimalMeans(x);
      WrapMeans(Minimal(l), POSTFIX);
      WrapMeans(Minimal(x), OPERAND);
    case Inv(_, x) =>
      MinimalMeans(x);
      WrapMeans(Minimal(x), UNARY);
    case Not(_, x) =>
      MinimalMeans(x);
      WrapMeans(Minimal(x), UNARY);
    case Bin(op, l, _, r) =>
      MinimalMeans(l);
      MinimalMeans(r);
      WrapMeans(Minimal(l), Level(op));
      WrapMeans(Minimal(r), Level(op) + 1);
    case Cond(c, _, a, _, b) =>
      MinimalMeans(c);
      MinimalMeans(a);
      MinimalMeans(b);
      WrapMeans(Minimal(c), LOWEST);
      WrapMeans(Minimal(a), LOWEST);
      WrapMeans(Minimal(b), LOWEST);
    case Seq(first, _, rest) =>
      MinimalMeans(first);
      MinimalMeans(rest);
      WrapMeans(Minimal(first), CONDITIONAL);
  }

  /** Evaluating the minimally parenthesised text of any tree gives its value. */
  lemma {:induction false} EvaluatesMinimal(e: Tree)
    requires Bare(e) && Meaning(e).Some?
    ensures var s := Text(Minimal(e)); Comma(s, 0) == Outcome(Meaning(e).value, NoError, |s|)
  {
    hide Text, WellFormed, Meaning, Comma, Minimal, Bare;
    MinimalMeans(e);
    EvaluatesTree(Minimal(e), "");
    assert Text(Minimal(e)) + "" == Text(Minimal(e));
  }
}
