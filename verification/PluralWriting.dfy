/** Phrases of the plural grammar written as text, with blanks between some of their tokens, and read back. */
module PluralWriting {
  import opened Basics
  import opened PluralSyntax
  import opened PluralTables
  import opened PluralLexer
  import opened PluralText
  import opened PluralParser
  import opened PluralForms

  // Texts of phrases

  /** `w` spells the tokens, with these blanks before each. */
  predicate Spaced(toks: seq<Tok>, gaps: seq<string>, w: string) {
    && |gaps| == |toks| && (forall i :: 0 <= i < |toks| ==> Spellable(toks[i]) && Blank(gaps[i]))
    && Text(toks, gaps, "") == w
  }

  ghost predicate Writes(toks: seq<Tok>, w: string) { exists gaps :: Spaced(toks, gaps, w) }

  lemma {:induction false} TextJoin(a: seq<Tok>, g: seq<string>, b: seq<Tok>, h: seq<string>, tail: string)
    requires |g| == |a| && |h| == |b|
    requires (forall i :: 0 <= i < |a| ==> Spellable(a[i])) && (forall i :: 0 <= i < |b| ==> Spellable(b[i]))
    ensures forall i :: 0 <= i < |a + b| ==> Spellable((a + b)[i])
    ensures Text(a + b, g + h, tail) == Text(a, g, "") + Text(b, h, tail)
    decreases |a|
  {
    hide Spell;
    if a == [] {
      assert a + b == b && g + h == h;
    } else {
      assert (a + b)[1..] == a[1..] + b && (g + h)[1..] == g[1..] + h;
      TextJoin(a[1..], g[1..], b, h, tail);
    }
  }

  lemma {:induction false} WritesJoin(a: seq<Tok>, u: string, b: seq<Tok>, v: string)
    requires Writes(a, u) && Writes(b, v)
    ensures Writes(a + b, u + v)
  {
    hide Spell, Text;
    var g :| Spaced(a, g, u);
    var h :| Spaced(b, h, v);
    TextJoin(a, g, b, h, "");
    assert Spaced(a + b, g + h, u + v);
  }

  lemma {:induction false} WritesOne(gap: string, t: Tok)
    requires Spellable(t) && Blank(gap)
    ensures Writes([t], gap + Spell(t))
  {
    hide Spell;
    assert Text([t], [gap], "") == gap + Spell(t) + Text([], [], "");
    assert Spaced([t], [gap], gap + Spell(t));
  }

  lemma {:induction false} WritesText(toks: seq<Tok>, w: string, tail: string) returns (gaps: seq<string>)
    requires Writes(toks, w)
    ensures |gaps| == |toks| && forall i :: 0 <= i < |toks| ==> Spellable(toks[i]) && Blank(gaps[i])
    ensures Text(toks, gaps, tail) == w + tail
  {
    gaps :| Spaced(toks, gaps, w);
    TextJoin(toks, gaps, [], [], tail);
    assert toks + [] == toks && gaps + [] == gaps;
  }

  /** A phrase written as `w`. */
  ghost predicate Shows(s: Syn, w: string) { WellFormed(s) && LiteralsFit(Strip(s)) && Writes(Yield(s), w) }

  lemma {:induction false} ShowsAtoms(k: nat)
    requires k < ULONG_MODULUS
    ensures Shows(SVar, "n") && Shows(SNum(k), Decimal(k))
  {
    hide Decimal, Writes;
    WritesOne("", VarN);
    assert "" + "n" == "n";
    WritesOne("", Number(k));
    NumberSpelling(k);
    assert "" + Decimal(k) == Decimal(k);
  }

  /** Blanks in front of a phrase belong to its first token. */
  lemma {:induction false} Indented(s: Syn, u: string, blanks: string)
    requires Shows(s, u) && Blank(blanks)
    ensures Shows(s, blanks + u)
  {
    hide Spell, Text, WellFormed, Yield, Strip;
    var g :| Spaced(Yield(s), g, u);
    YieldCompact(s);
    MoreBlank(Yield(s), g, u, blanks);
  }

  lemma {:induction false} MoreBlank(toks: seq<Tok>, g: seq<string>, u: string, blanks: string)
    requires Spaced(toks, g, u) && toks != [] && Blank(blanks)
    ensures Writes(toks, blanks + u)
  {
    hide Spell;
    var h := [blanks + g[0]] + g[1..];
    assert h[1..] == g[1..];
    assert Spaced(toks, h, blanks + u);
  }

  /** `sign` is a token with blanks around it. */
  predicate Mark(sign: string, t: Tok, before: string, after: string) {
    Spellable(t) && Blank(before) && Blank(after) && sign == before + Spell(t) + after
  }

  lemma {:induction false} Infix(op: BinOp, l: Syn, u: string, before: string, after: string, sign: string, r: Syn, v: string)
    requires Shows(l, u) && Shows(r, v) && Mark(sign, Binary(op), before, after) && Level(l) >= Prec(op) && Level(r) > Prec(op)
    ensures Shows(SBin(op, l, r), u + sign + v)
  {
    hide Prec, Level, Writes, Spell;
    WritesOne(before, Binary(op));
    Indented(r, v, after);
    var w := before + Spell(Binary(op));
    WritesJoin(Yield(l), u, [Binary(op)], w);
    WritesJoin(Yield(l) + [Binary(op)], u + w, Yield(r), after + v);
    assert u + w + (after + v) == u + sign + v;
  }

  lemma {:induction false} Enclosed(i: Syn, u: string)
    requires Shows(i, u)
    ensures Shows(SParen(i), "(" + u + ")")
  {
    hide Writes;
    WritesOne("", LPar);
    WritesOne("", RPar);
    assert "" + "(" == "(" && "" + ")" == ")";
    WritesJoin([LPar], "(", Yield(i), u);
    WritesJoin([LPar] + Yield(i), "(" + u, [RPar], ")");
  }

  lemma {:induction false} Negated(a: Syn, u: string)
    requires Shows(a, u) && Level(a) == 7
    ensures Shows(SNot(a), "!" + u)
  {
    hide Writes, Level;
    WritesOne("", Bang);
    assert "" + "!" == "!";
    WritesJoin([Bang], "!", Yield(a), u);
  }

  lemma {:induction false} Choice(c: Syn, u: string, t: Syn, v: string, before: string, colon: string, f: Syn, w: string)
    requires Shows(c, u) && Shows(t, v) && Shows(f, w) && Level(c) >= 1 && Mark(colon, Colon, before, " ")
    ensures Shows(SCond(c, t, f), u + " ? " + v + colon + w)
  {
    hide Writes, Level, Spell;
    Indented(t, v, " ");
    Indented(f, w, " ");
    WritesOne(" ", Query);
    WritesOne(before, Colon);
    QuerySpelling();
    var k := before + Spell(Colon);
    WritesJoin(Yield(c), u, [Query], " ?");
    WritesJoin(Yield(c) + [Query], u + " ?", Yield(t), " " + v);
    WritesJoin(Yield(c) + [Query] + Yield(t), u + " ?" + (" " + v), [Colon], k);
    WritesJoin(Yield(c) + [Query] + Yield(t) + [Colon], u + " ?" + (" " + v) + k, Yield(f), " " + w);
    ChoiceText(u, v, k, w);
  }

  lemma {:induction false} QuerySpelling()
    ensures " " + Spell(Query) == " ?"
  {
  }

  lemma {:induction false} ChoiceText(u: string, v: string, k: string, w: string)
    ensures u + " ?" + (" " + v) + k + (" " + w) == u + " ? " + v + (k + " ") + w
  {
    assert " ?" + " " == " ? ";
    assert u + " ?" + (" " + v) == u + " ? " + v;
  }

  lemma {:induction false} TightMarks(op: BinOp)
    ensures Mark(Spell(Binary(op)), Binary(op), "", "")
  {
    hide Spell;
    assert "" + Spell(Binary(op)) + "" == Spell(Binary(op));
  }

  lemma {:induction false} Ending(after: string)
    ensures EndsPhrase(";" + after)
  {
  }

  // The operators by their signs

  /** The parser reads `w`, wherever it stands, as `e`. */
  ghost predicate ReadAs(w: string, e: Expr) {
    forall pre, after, result, res :: Verdict(Tokens(pre + (w + (";" + after)), |pre|), result, res) ==> result == 0 && res == e
  }

  lemma {:induction false} ShowsRead(s: Syn, w: string)
    requires Shows(s, w) && 1 + Height(s) < YYMAXDEPTH
    ensures ReadAs(w, Strip(s))
  {
    hide Verdict, Tokens, Text, Yield, Strip, Height;
    forall pre, after, result, res | Verdict(Tokens(pre + (w + (";" + after)), |pre|), result, res)
      ensures result == 0 && res == Strip(s)
    {
      var gaps := WritesText(Yield(s), w, ";" + after);
      Ending(after);
      PhraseScans(pre, s, gaps, ";" + after);
      VerdictIs(s, Tokens(pre + (w + (";" + after)), |pre|), result, res);
    }
  }

  lemma {:induction false} VerdictIs(s: Syn, toks: seq<Tok>, result: int, res: Expr)
    requires Verdict(toks, result, res) && Phrase(s, toks) && 1 + Height(s) < YYMAXDEPTH
    ensures result == 0 && res == Strip(s)
  {
  }

  lemma {:induction false} SignRead(op: BinOp, k: nat)
    requires k < ULONG_MODULUS
    ensures ReadAs("n" + Spell(Binary(op)) + Decimal(k), Bin(op, Var, Num(k)))
  {
    hide Shows, Decimal, Spell, Prec, ReadAs;
    TightMarks(op);
    ShowsAtoms(k);
    Infix(op, SVar, "n", "", "", Spell(Binary(op)), SNum(k), Decimal(k));
    ShowsRead(SBin(op, SVar, SNum(k)), "n" + Spell(Binary(op)) + Decimal(k));
  }

  /** Each sign stands for its operator; what the operators do is said by `PluralForms.Computes`,
      `Compares`, `Connects` and `Leaves`. */
  lemma {:induction false} Signs(k: nat)
    requires k < ULONG_MODULUS
    ensures ReadAs("n" + "*" + Decimal(k), Bin(Mult, Var, Num(k))) && ReadAs("n" + "/" + Decimal(k), Bin(Divide, Var, Num(k)))
    ensures ReadAs("n" + "%" + Decimal(k), Bin(Modulo, Var, Num(k))) && ReadAs("n" + "+" + Decimal(k), Bin(Plus, Var, Num(k)))
    ensures ReadAs("n" + "-" + Decimal(k), Bin(Minus, Var, Num(k))) && ReadAs("n" + "<" + Decimal(k), Bin(LessThan, Var, Num(k)))
    ensures ReadAs("n" + "<=" + Decimal(k), Bin(LessOrEqual, Var, Num(k))) && ReadAs("n" + ">" + Decimal(k), Bin(GreaterThan, Var, Num(k)))
    ensures ReadAs("n" + ">=" + Decimal(k), Bin(GreaterOrEqual, Var, Num(k))) && ReadAs("n" + "==" + Decimal(k), Bin(Equal, Var, Num(k)))
    ensures ReadAs("n" + "!=" + Decimal(k), Bin(NotEqual, Var, Num(k))) && ReadAs("n" + "&&" + Decimal(k), Bin(LAnd, Var, Num(k)))
    ensures ReadAs("n" + "||" + Decimal(k), Bin(LOr, Var, Num(k))) && ReadAs("!" + "n", Not(Var))
  {
    hide Decimal, ReadAs, Shows;
    forall op ensures ReadAs("n" + Spell(Binary(op)) + Decimal(k), Bin(op, Var, Num(k))) {
      SignRead(op, k);
    }
    SpellingOf();
    ShowsAtoms(k);
    Negated(SVar, "n");
    ShowsRead(SNot(SVar), "!" + "n");
  }

  lemma {:induction false} SpellingOf()
    ensures Spell(Binary(Mult)) == "*" && Spell(Binary(Divide)) == "/" && Spell(Binary(Modulo)) == "%" && Spell(Binary(Plus)) == "+"
    ensures Spell(Binary(Minus)) == "-" && Spell(Binary(LessThan)) == "<" && Spell(Binary(LessOrEqual)) == "<=" && Spell(Binary(GreaterThan)) == ">"
    ensures Spell(Binary(GreaterOrEqual)) == ">=" && Spell(Binary(Equal)) == "==" && Spell(Binary(NotEqual)) == "!="
    ensures Spell(Binary(LAnd)) == "&&" && Spell(Binary(LOr)) == "||"
  {
  }
}
