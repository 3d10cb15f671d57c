/** What the evaluator of navit/command.c reads without an error, and without a part that is left to
    others (`Unmodelled`) or that C leaves undefined, is the text of a tree. */
module CommandExact {
  import opened Basics
  import opened CommandEval
  import opened CommandRun
  import opened CommandTree

  // Building the tree that has been read

  predicate Blank(s: string, p: nat, q: nat) { p <= q <= |s| && Spaces(s[p..q]) }

  lemma {:induction false} SkipBlank(s: string, p: nat)
    requires p <= |s|
    ensures Blank(s, p, SkipSpace(s, p)) && Has(s, p, SkipSpace(s, p), s[p..SkipSpace(s, p)])
    decreases |s| - p
  {
    var q := SkipSpace(s, p);
    assert forall i :: 0 <= i < q - p ==> s[p..q][i] == s[p+i];
  }

  lemma {:induction false} BlankMore(s: string, p: nat, q: nat, r: nat)
    requires Blank(s, p, q) && Blank(s, q, r)
    ensures Blank(s, p, r)
  {
    assert s[p..r] == s[p..q] + s[q..r];
  }

  /** The inverse of cutting. */
  lemma {:induction false} Join(s: string, p: nat, q: nat, r: nat, a: string, b: string)
    requires Has(s, p, q, a) && Has(s, q, r, b)
    ensures Has(s, p, r, a + b)
  {
    assert s[p..r] == s[p..q] + s[q..r];
  }

  lemma {:induction false} OneChar(s: string, p: nat, c: char)
    requires p <= |s| && Peek(s, p) == c && c != '\0'
    ensures Has(s, p, p + 1, [c])
  {
  }

  /** `e` is the tree of level `k` written from `p` to `q`, of which evaluating has left `r`. */
  predicate Wrote(e: Tree, k: nat, s: string, p: nat, q: nat, r: Outcome) {
    && Has(s, p, q, Text(e)) && WellFormed(e) && Prec(e) >= k && Meaning(e) == Some(r.val)
    && Blank(s, q, r.pos)
  }

  lemma {:induction false} ValueTree(s: string, p: nat, z: nat) returns (e: Tree, q: nat)
    requires p <= z <= |s| && z == SkipSpace(s, p) && Value(s, z).error == NoError
    ensures Wrote(e, OPERAND, s, p, q, Value(s, z)) && q == Value(s, z).pos && Peek(s, q) != '.'
  {
    hide SkipSpace, DigitsValue;
    SkipSkip(s, p);
    SkipBlank(s, p);
    q := Value(s, z).pos;
    var t := s[z..q];
    e := Lit(s[p..z], t);
    var d := if Peek(s, z) == '-' then z + 1 else z;
    assert q == SkipDigits(s, d) && IsDigit(Peek(s, d)) && d < q;
    assert Unsigned(t) == s[d..q];
    assert forall i :: 0 <= i < q - d ==> s[d..q][i] == s[d+i];
    Join(s, p, z, q, s[p..z], t);
    assert s[q..q] == "";
  }

  lemma {:induction false} BraceTree(s: string, p: nat, z: nat) returns (e: Tree, q: nat)
    requires p <= z <= |s| && z == SkipSpace(s, p) && Brace(s, z).error == NoError
    ensures Wrote(e, OPERAND, s, p, q, Brace(s, z)) && q == Brace(s, z).pos && (LastDigit(e) ==> Peek(s, q) != '.')
    decreases |s| - z, 0
  {
    hide SkipSpace, Value, Comma, Has, Blank;
    SkipSkip(s, p);
    if Peek(s, z) == '(' {
      var r := Comma(s, z + 1);
      var x, m := CommaTree(s, z + 1);
      var c := SkipSpace(s, r.pos);
      ParenWrote(s, p, z, m, r, x);
      e, q := Paren(s[p..z], x, s[m..c]), c + 1;
    } else {
      e, q := ValueTree(s, p, z);
    }
  }

  /** The tree of an operand and of what stands behind it. */
  lemma {:induction false} SuffixesTree(s: string, p: nat, m: nat, v: int, l: Tree) returns (e: Tree, q: nat)
    requires p <= |s| && m <= |s| && IsInt(v) && Wrote(l, POSTFIX, s, p, m, Outcome(v, NoError, m)) && (LastDigit(l) ==> Peek(s, m) != '.')
    requires Suffixes(s, m, v).error == NoError
    ensures Wrote(e, POSTFIX, s, p, q, Suffixes(s, m, v))
    decreases |s| - m, 1
  {
    hide SkipSpace, Brace, Wrote, Suffixes;
    SuffixesIs(s, m, v);
    var z := SkipSpace(s, m);
    WroteOn(l, POSTFIX, s, p, m, Outcome(v, NoError, m));
    if Peek(s, z) == '[' {
      var c := SkipSpace(s, z + 1);
      IndexWrote(s, p, m, z, c, v, l);
      e, q := SuffixesTree(s, p, c + 1, v, Index(l, s[m..z], s[z+1..c]));
    } else if Peek(s, z) == '.' {
      BraceSkips(s, z + 1);
      var x, n := BraceTree(s, z + 1, SkipSpace(s, z + 1));
      DotWrote(s, p, m, z, v, l, x, n, Brace(s, z + 1));
      e, q := SuffixesTree(s, p, n, v, Dot(l, s[m..z], x));
    } else {
      e, q := l, m;
    }
  }

  lemma {:induction false} IndexWrote(s: string, p: nat, m: nat, z: nat, c: nat, v: int, l: Tree)
    requires Wrote(l, POSTFIX, s, p, m, Outcome(v, NoError, z)) && z < |s| && Peek(s, z) == '['
    requires c == SkipSpace(s, z + 1) && Peek(s, c) == ']'
    ensures m <= z && Wrote(Index(l, s[m..z], s[z+1..c]), POSTFIX, s, p, c + 1, Outcome(v, NoError, c + 1))
  {
    hide SkipSpace, Has, Blank, Spaces;
    BlankIs(s, m, z);
    SkipBlank(s, z + 1);
    BlankIs(s, z + 1, c);
    OneChar(s, z, '[');
    OneChar(s, c, ']');
    var inner := s[z+1..c];
    Join(s, z + 1, c, c + 1, inner, "]");
    Join(s, z, z + 1, c + 1, "[", inner + "]");
    Join(s, m, z, c + 1, s[m..z], "[" + (inner + "]"));
    Join(s, p, m, c + 1, Text(l), s[m..z] + ("[" + (inner + "]")));
    BlankNone(s, c + 1);
  }

  lemma {:induction false} DotWrote(s: string, p: nat, m: nat, z: nat, v: int, l: Tree, x: Tree, n: nat, r: Outcome)
    requires Wrote(l, POSTFIX, s, p, m, Outcome(v, NoError, z)) && z < |s| && Peek(s, z) == '.' && (LastDigit(l) ==> Peek(s, m) != '.')
    requires Wrote(x, OPERAND, s, z + 1, n, r) && n == r.pos
    ensures m <= z && Wrote(Dot(l, s[m..z], x), POSTFIX, s, p, n, Outcome(v, NoError, n))
  {
    hide Has, Blank, Spaces;
    BlankIs(s, m, z);
    OneChar(s, z, '.');
    Join(s, z, z + 1, n, ".", Text(x));
    Join(s, m, z, n, s[m..z], "." + Text(x));
    Join(s, p, m, n, Text(l), s[m..z] + ("." + Text(x)));
    BlankNone(s, n) by { BlankIs(s, n, r.pos); }
  }

  lemma {:induction false} ParenWrote(s: string, p: nat, z: nat, m: nat, r: Outcome, x: Tree)
    requires p <= z <= |s| && r.pos <= |s| && z == SkipSpace(s, p) && Peek(s, z) == '('
    requires Wrote(x, COMMA, s, z + 1, m, r) && Peek(s, SkipSpace(s, r.pos)) == ')'
    ensures var c := SkipSpace(s, r.pos); m <= c && Wrote(Paren(s[p..z], x, s[m..c]), OPERAND, s, p, c + 1, Outcome(r.val, NoError, c + 1))
  {
    hide SkipSpace, Has, Blank;
    var c := SkipSpace(s, r.pos);
    SkipBlank(s, p);
    SkipBlank(s, r.pos);
    BlankMore(s, m, r.pos, c);
    BlankIs(s, m, c);
    BlankIs(s, p, z);
    OneChar(s, z, '(');
    OneChar(s, c, ')');
    var close := s[m..c];
    Join(s, m, c, c + 1, close, ")");
    Join(s, z + 1, m, c + 1, Text(x), close + ")");
    Join(s, z, z + 1, c + 1, "(", Text(x) + (close + ")"));
    Join(s, p, z, c + 1, s[p..z], "(" + (Text(x) + (close + ")")));
    BlankNone(s, c + 1);
  }

  lemma {:induction false} BlankIs(s: string, p: nat, q: nat)
    requires Blank(s, p, q)
    ensures p <= q <= |s| && Has(s, p, q, s[p..q]) && Spaces(s[p..q])
  {
  }

  lemma {:induction false} BlankNone(s: string, p: nat)
    requires p <= |s|
    ensures Blank(s, p, p)
  {
  }

  lemma {:induction false} UnaryTree(s: string, p: nat) returns (e: Tree, q: nat)
    requires p <= |s| && Unary(s, p).error == NoError
    ensures Wrote(e, UNARY, s, p, q, Unary(s, p))
    decreases |s| - p, 2
  {
    hide SkipSpace, Brace, Suffixes, Wrote;
    var z := SkipSpace(s, p);
    if Peek(s, z) == '~' || Peek(s, z) == '!' {
      var x, m := UnaryTree(s, z + 1);
      PrefixWrote(s, p, z, m, x);
      e, q := if Peek(s, z) == '~' then Inv(s[p..z], x) else Not(s[p..z], x), m;
    } else {
      var x, m := BraceTree(s, p, z);
      var v := Brace(s, z).val;
      WroteLower(x, POSTFIX, s, p, m, Brace(s, z));
      e, q := SuffixesTree(s, p, m, v, x);
      WroteLower(e, UNARY, s, p, q, Unary(s, p));
    }
  }

  lemma {:induction false} PrefixWrote(s: string, p: nat, z: nat, m: nat, x: Tree)
    requires p <= z < |s| && z == SkipSpace(s, p) && (Peek(s, z) == '~' || Peek(s, z) == '!')
    requires Unary(s, z + 1).error == NoError && Wrote(x, UNARY, s, z + 1, m, Unary(s, z + 1))
    ensures Wrote(if Peek(s, z) == '~' then Inv(s[p..z], x) else Not(s[p..z], x), UNARY, s, p, m, Unary(s, p))
  {
    hide SkipSpace, Postfix, Has, Blank;
    SkipBlank(s, p);
    BlankIs(s, p, z);
    OneChar(s, z, Peek(s, z));
    Join(s, z, z + 1, m, [Peek(s, z)], Text(x));
    Join(s, p, z, m, s[p..z], [Peek(s, z)] + Text(x));
  }

  lemma {:induction false} ChainTree(k: nat, s: string, p: nat) returns (e: Tree, q: nat)
    requires p <= |s| && LOWEST <= k <= UNARY && Chain(k, s, p).error == NoError
    ensures Wrote(e, k, s, p, q, Chain(k, s, p))
    decreases |s| - p, 3 + UNARY - k
  {
    hide Loop, Unary, Wrote;
    ChainIs(k, s, p);
    if k == UNARY {
      e, q := UnaryTree(s, p);
    } else {
      var l, m := ChainTree(k + 1, s, p);
      WroteLower(l, k, s, p, m, Chain(k + 1, s, p));
      e, q := LoopTree(k, s, p, m, Chain(k + 1, s, p), l);
    }
  }

  lemma {:induction false} WroteLower(e: Tree, k: nat, s: string, p: nat, q: nat, r: Outcome)
    requires Wrote(e, k + 1, s, p, q, r)
    ensures Wrote(e, k, s, p, q, r)
  {
  }

  lemma {:induction false} LoopTree(k: nat, s: string, p: nat, m: nat, r: Outcome, l: Tree) returns (e: Tree, q: nat)
    requires LOWEST <= k < UNARY && Fine(r, s, p) && Wrote(l, k, s, p, m, r) && Loop(k, s, r.pos, r.val).error == NoError
    ensures Wrote(e, k, s, p, q, Loop(k, s, r.pos, r.val))
    decreases |s| - r.pos, 0
  {
    hide Chain, Wrote, Apply, SkipSpace, NextOp, Spell;
    LoopIs(k, s, r.pos, r.val);
    var z := SkipSpace(s, r.pos);
    match NextOp(s, z, k)
    case None =>
      WroteOn(l, k, s, p, m, r);
      e, q := l, m;
    case Some(op) =>
      var a := z + |Spell(op)|;
      var right, n := ChainTree(k + 1, s, a);
      var c := Chain(k + 1, s, a);
      WroteOn(l, k, s, p, m, r);
      InfixWrote(k, s, p, m, z, r.val, l, op, right, n, c);
      var r' := Outcome(Apply(op, r.val, c.val).value, NoError, c.pos);
      e, q := LoopTree(k, s, p, n, r', Bin(op, l, s[m..z], right));
  }

  lemma {:induction false} WroteOn(e: Tree, k: nat, s: string, p: nat, q: nat, r: Outcome)
    requires Wrote(e, k, s, p, q, r) && r.pos <= |s|
    ensures Wrote(e, k, s, p, q, Outcome(r.val, NoError, SkipSpace(s, r.pos)))
    ensures p <= q <= SkipSpace(s, r.pos) && Blank(s, q, SkipSpace(s, r.pos))
  {
    hide SkipSpace, Text, WellFormed, Meaning, Spaces;
    SkipBlank(s, r.pos);
    BlankMore(s, q, r.pos, SkipSpace(s, r.pos));
  }

  lemma {:induction false} OpLevel(s: string, z: nat, k: nat)
    requires z <= |s| && LOWEST <= k < UNARY && NextOp(s, z, k).Some?
    ensures Level(NextOp(s, z, k).value) == k
  {
    hide NextOp;
    NextOpIs(s, z, k);
  }

  lemma {:induction false} InfixWrote(k: nat, s: string, p: nat, m: nat, z: nat, v: int, l: Tree, op: Op, right: Tree, n: nat, c: Outcome)
    requires LOWEST <= k < UNARY && IsInt(v) && IsInt(c.val) && z <= |s|
    requires Wrote(l, k, s, p, m, Outcome(v, NoError, z)) && Blank(s, m, z) && NextOp(s, z, k) == Some(op)
    requires Wrote(right, k + 1, s, z + |Spell(op)|, n, c) && Apply(op, v, c.val).Some?
    ensures m <= z && Wrote(Bin(op, l, s[m..z], right), k, s, p, n, Outcome(Apply(op, v, c.val).value, NoError, c.pos))
  {
    hide Apply, NextOp, Spell, Has, Blank, Level, Spaces;
    var a := z + |Spell(op)|;
    OpLevel(s, z, k);
    BlankIs(s, m, z);
    assert Has(s, z, a, Spell(op)) by { StartsHas(s, z, Spell(op)); }
    Join(s, z, a, n, Spell(op), Text(right));
    Join(s, m, z, n, s[m..z], Spell(op) + Text(right));
    Join(s, p, m, n, Text(l), s[m..z] + (Spell(op) + Text(right)));
  }

  lemma {:induction false} StartsHas(s: string, z: nat, op: string)
    requires z <= |s| && Starts(s, z, op)
    ensures Has(s, z, z + |op|, op)
  {
  }

  lemma {:induction false} ConditionalTree(s: string, p: nat) returns (e: Tree, q: nat)
    requires p <= |s| && Conditional(s, p).error == NoError
    ensures Wrote(e, CONDITIONAL, s, p, q, Conditional(s, p))
    decreases |s| - p, 20
  {
    hide Chain, Wrote, SkipSpace;
    var rc := Chain(LOWEST, s, p);
    var c, mc := ChainTree(LOWEST, s, p);
    WroteOn(c, LOWEST, s, p, mc, rc);
    var z := SkipSpace(s, rc.pos);
    if Peek(s, z) != '?' {
      WroteLower(c, CONDITIONAL, s, p, mc, Outcome(rc.val, NoError, z));
      e, q := c, mc;
    } else {
      var ra := Chain(LOWEST, s, z + 1);
      var a, ma := ChainTree(LOWEST, s, z + 1);
      WroteOn(a, LOWEST, s, z + 1, ma, ra);
      var y := SkipSpace(s, ra.pos);
      var b, mb := ChainTree(LOWEST, s, y + 1);
      ChoiceWrote(s, p, mc, z, rc.val, c, ma, y, ra.val, a, mb, Chain(LOWEST, s, y + 1), b);
      e, q := Cond(c, s[mc..z], a, s[ma..y], b), mb;
    }
  }

  lemma {:induction false} ChoiceWrote(s: string, p: nat, mc: nat, z: nat, vc: int, c: Tree, ma: nat, y: nat, va: int, a: Tree,
                                       mb: nat, rb: Outcome, b: Tree)
    requires Wrote(c, LOWEST, s, p, mc, Outcome(vc, NoError, z)) && Blank(s, mc, z) && z <= |s| && Peek(s, z) == '?'
    requires Wrote(a, LOWEST, s, z + 1, ma, Outcome(va, NoError, y)) && Blank(s, ma, y) && y <= |s| && Peek(s, y) == ':'
    requires Wrote(b, LOWEST, s, y + 1, mb, rb)
    ensures mc <= z && ma <= y
    ensures Wrote(Cond(c, s[mc..z], a, s[ma..y], b), CONDITIONAL, s, p, mb, Outcome(if vc != 0 then va else rb.val, NoError, rb.pos))
  {
    hide Has, Blank, Spaces;
    BlankIs(s, mc, z);
    BlankIs(s, ma, y);
    OneChar(s, z, '?');
    OneChar(s, y, ':');
    var t3 := ":" + Text(b);
    Join(s, y, y + 1, mb, ":", Text(b));
    var t2 := s[ma..y] + t3;
    Join(s, ma, y, mb, s[ma..y], t3);
    var t1 := Text(a) + t2;
    Join(s, z + 1, ma, mb, Text(a), t2);
    Join(s, z, z + 1, mb, "?", t1);
    Join(s, mc, z, mb, s[mc..z], "?" + t1);
    Join(s, p, mc, mb, Text(c), s[mc..z] + ("?" + t1));
  }

  lemma {:induction false} CommaTree(s: string, p: nat) returns (e: Tree, q: nat)
    requires p <= |s| && Comma(s, p).error == NoError
    ensures Wrote(e, COMMA, s, p, q, Comma(s, p))
    decreases |s| - p, 22
  {
    hide Conditional, Wrote, SkipSpace;
    var rc := Conditional(s, p);
    var first, m := ConditionalTree(s, p);
    WroteOn(first, CONDITIONAL, s, p, m, rc);
    var y := SkipSpace(s, rc.pos);
    WroteOn(first, CONDITIONAL, s, p, m, Outcome(rc.val, NoError, y));
    var z := SkipSpace(s, y);
    if Peek(s, z) == ',' {
      var rest, n := CommaTree(s, z + 1);
      SeqWrote(s, p, m, z, rc.val, first, n, Comma(s, z + 1), rest);
      e, q := Seq(first, s[m..z], rest), n;
    } else {
      WroteLower(first, COMMA, s, p, m, Outcome(rc.val, NoError, z));
      e, q := first, m;
    }
  }

  lemma {:induction false} SeqWrote(s: string, p: nat, m: nat, z: nat, v: int, first: Tree, n: nat, r: Outcome, rest: Tree)
    requires Wrote(first, CONDITIONAL, s, p, m, Outcome(v, NoError, z)) && Blank(s, m, z) && z <= |s| && Peek(s, z) == ','
    requires Wrote(rest, COMMA, s, z + 1, n, r)
    ensures m <= z && Wrote(Seq(first, s[m..z], rest), COMMA, s, p, n, r)
  {
    hide Has, Blank, Spaces;
    BlankIs(s, m, z);
    OneChar(s, z, ',');
    Join(s, z, z + 1, n, ",", Text(rest));
    Join(s, m, z, n, s[m..z], "," + Text(rest));
    Join(s, p, m, n, Text(first), s[m..z] + ("," + Text(rest)));
  }

  // The evaluator on any text

  /** The text is that of a tree with a value, and white space. */
  predicate Writes(e: Tree, s: string) {
    && |Text(e)| <= |s| && s[..|Text(e)|] == Text(e) && Spaces(s[|Text(e)|..])
    && WellFormed(e) && Meaning(e).Some?
  }

  /** The evaluator reads a whole text without an error, meeting nothing that is unmodelled or
      undefined on its way, exactly when it is the text of a tree that has a value, and returns that
      value, whichever the tree. */
  lemma {:induction false} ReadsExactlyTrees(s: string)
    ensures Comma(s, 0).error == NoError && Comma(s, 0).pos == |s| <==> exists e :: Writes(e, s)
    ensures forall e :: Writes(e, s) ==> Comma(s, 0) == Outcome(Meaning(e).value, NoError, |s|)
  {
    hide Comma, Text, WellFormed, Meaning, Spaces;
    forall e | Writes(e, s) ensures Comma(s, 0) == Outcome(Meaning(e).value, NoError, |s|) {
      EvaluatesTree(e, s[|Text(e)|..]);
      assert s == Text(e) + s[|Text(e)|..];
    }
    if Comma(s, 0).error == NoError && Comma(s, 0).pos == |s| {
      var e, q := CommaTree(s, 0);
      assert s[..q] == s[0..q] && s[q..] == s[q..|s|];
      assert Writes(e, s);
    }
  }

  /** `command_evaluate_to` on any text; `error` also tells that the text has a part outside this model. */
  method Evaluate(text: string) returns (val: int, ctx: Context)
    ensures fresh(ctx) && ctx.text == text
    ensures ctx.error == NoError && ctx.expr == |text| <==> exists e :: Writes(e, text)
    ensures forall e :: Writes(e, text) ==> val == Meaning(e).value
  {
    hide Comma, Writes, Meaning;
    ctx := new Context(text);
    ReadsExactlyTrees(text);
    val := ctx.EvalComma();
  }
}
