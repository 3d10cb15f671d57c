/** Writing plural-form expressions down, and the proof that the scanner reads them back. */
module PluralText {
  import opened Basics
  import opened PluralSyntax
  import opened PluralTables
  import opened PluralLexer

  /** Tokens that have a spelling: no end marker, no error, no number too large to represent. */
  predicate Spellable(t: Tok) {
    !t.End? && !t.Bad? && (t.Number? ==> t.n < ULONG_MODULUS)
  }

  function Spell(t: Tok): (s: string)
    requires Spellable(t)
    ensures s != ""
  {
    match t
    case Query => "?"
    case Colon => ":"
    case LPar => "("
    case RPar => ")"
    case Bang => "!"
    case VarN => "n"
    case Number(n) => Decimal(n)
    case Binary(op) =>
      match op
      case LOr => "||"
      case LAnd => "&&"
      case Equal => "=="
      case NotEqual => "!="
      case LessThan => "<"
      case GreaterThan => ">"
      case LessOrEqual => "<="
      case GreaterOrEqual => ">="
      case Plus => "+"
      case Minus => "-"
      case Mult => "*"
      case Divide => "/"
      case Modulo => "%"
  }

  /** May the spelling of `t` be followed at once by character `c`? */
  predicate Clear(t: Tok, c: char) {
    && (t.Number? ==> !IsDigit(c))
    && (t == Bang || t == Binary(LessThan) || t == Binary(GreaterThan) ==> c != '=')
  }

  /** Two tokens whose spellings would be read differently if nothing stood between them. */
  predicate Glue(t: Tok, u: Tok) {
    (t.Number? && u.Number?)
    || ((t == Bang || t == Binary(LessThan) || t == Binary(GreaterThan)) && u == Binary(Equal))
  }

  predicate Blank(s: string) {
    forall i :: 0 <= i < |s| ==> IsBlank(s[i])
  }

  /** Tokens with the blanks written before each, and what stands after the last. */
  function Text(toks: seq<Tok>, gaps: seq<string>, tail: string): string
    requires |gaps| == |toks| && forall i :: 0 <= i < |toks| ==> Spellable(toks[i])
  {
    if toks == [] then tail else gaps[0] + Spell(toks[0]) + Text(toks[1..], gaps[1..], tail)
  }

  /** The blanks are blanks, and stand at least where tokens would otherwise run together. */
  predicate Separated(toks: seq<Tok>, gaps: seq<string>) {
    && |gaps| == |toks|
    && (forall i :: 0 <= i < |toks| ==> Spellable(toks[i]) && Blank(gaps[i]))
    && (forall i :: 0 <= i < |toks| - 1 ==> gaps[i+1] != "" || !Glue(toks[i], toks[i+1]))
  }

  /** A phrase ends at the end of the text, a semicolon or a newline, after optional blanks. */
  predicate EndsPhrase(tail: string) {
    var c := Peek(tail, SkipBlanks(tail, 0));
    c == '\0' || c == ';' || c == '\n'
  }

  lemma {:induction false} SkipBlanksTo(text: string, i: nat, p: nat)
    requires i <= p <= |text| && (forall k :: i <= k < p ==> IsBlank(text[k])) && !IsBlank(Peek(text, p))
    ensures SkipBlanks(text, i) == p
  {
    assert SkipBlanks(text, i) >= p;
  }

  lemma {:induction false} SkipDigitsTo(text: string, i: nat, p: nat)
    requires i <= p <= |text| && (forall k :: i <= k < p ==> IsDigit(text[k])) && !IsDigit(Peek(text, p))
    ensures SkipDigits(text, i) == p
  {
    assert SkipDigits(text, i) >= p;
  }

  lemma {:induction false} SpellStart(t: Tok, u: Tok)
    requires Spellable(t) && Spellable(u) && !Glue(t, u)
    ensures Clear(t, Spell(u)[0])
  {
  }

  lemma {:induction false} ScanNumber(text: string, cp: nat, p: nat, q: nat, n: nat)
    requires cp <= p <= q <= |text| && SkipBlanks(text, cp) == p
    requires n < ULONG_MODULUS && text[p..q] == Decimal(n) && !IsDigit(Peek(text, q))
    ensures Scan(text, cp) == (Number(n), q)
  {
    forall k | p <= k < q ensures IsDigit(text[k]) {
      assert text[k] == text[p..q][k - p];
    }
    SkipDigitsTo(text, p, q);
  }

  lemma {:induction false} ScanShort(text: string, cp: nat, p: nat, t: Tok)
    requires cp <= p <= |text| && SkipBlanks(text, cp) == p
    requires Spellable(t) && !t.Number? && Clear(t, Peek(text, p + |Spell(t)|))
    requires p + |Spell(t)| <= |text| && text[p] == Spell(t)[0]
    requires |Spell(t)| == 2 ==> text[p + 1] == Spell(t)[1]
    ensures Scan(text, cp) == (t, p + |Spell(t)|)
  {
  }

  /** One spelled token, after optional blanks, is scanned back. */
  lemma {:induction false} ScanSpelled(pre: string, gap: string, t: Tok, rest: string)
    requires Spellable(t) && Blank(gap) && Clear(t, Peek(rest, 0))
    ensures Scan(pre + gap + Spell(t) + rest, |pre|) == (t, |pre + gap + Spell(t)|)
  {
    hide Scan, Spell, Decimal;
    var text := pre + gap + Spell(t) + rest;
    var p := |pre| + |gap|;
    var q := p + |Spell(t)|;
    forall k | |pre| <= k < p ensures IsBlank(text[k]) {
      assert text[k] == gap[k - |pre|];
    }
    assert text[p..q] == Spell(t);
    assert text[p] == text[p..q][0];
    SpellNotBlank(t);
    SkipBlanksTo(text, |pre|, p);
    assert Peek(text, q) == Peek(rest, 0);
    if t.Number? {
      NumberSpelling(t.n);
      ScanNumber(text, |pre|, p, q, t.n);
    } else {
      assert |Spell(t)| == 2 ==> text[p + 1] == text[p..q][1];
      ScanShort(text, |pre|, p, t);
    }
  }

  lemma {:induction false} NumberSpelling(n: nat)
    requires n < ULONG_MODULUS
    ensures Spell(Number(n)) == Decimal(n)
  {
  }

  lemma {:induction false} SpellNotBlank(t: Tok)
    requires Spellable(t)
    ensures var c := Spell(t)[0]; !IsBlank(c) && c != '\0' && c != ';' && c != '\n'
    ensures !t.Number? ==> !IsDigit(Spell(t)[0]) && |Spell(t)| <= 2
  {
  }

  lemma {:induction false} TailScan(pre: string, tail: string)
    requires EndsPhrase(tail)
    ensures Scan(pre + tail, |pre|).0 == End
  {
    var text := pre + tail;
    var q := SkipBlanks(tail, 0);
    forall k | |pre| <= k < |pre| + q ensures IsBlank(text[k]) {
      assert text[k] == tail[k - |pre|];
    }
    assert Peek(text, |pre| + q) == Peek(tail, q);
    SkipBlanksTo(text, |pre|, |pre| + q);
  }

  lemma {:induction false} TokensStep(text: string, cp: nat, t: Tok, q: nat)
    requires cp <= |text| && Scan(text, cp) == (t, q)
    ensures Tokens(text, cp) == if t.End? then [End] else [t] + Tokens(text, q)
  {
  }

  lemma {:induction false} TextHead(pre: string, toks: seq<Tok>, gaps: seq<string>, tail: string)
    requires Separated(toks, gaps)
    ensures pre + Text(toks, gaps, tail) ==
      if toks == [] then pre + tail else pre + gaps[0] + Spell(toks[0]) + Text(toks[1..], gaps[1..], tail)
  {
  }

  /** However they are spaced, tokens that have been written down are scanned back. */
  lemma {:induction false} TokensOfText(pre: string, toks: seq<Tok>, gaps: seq<string>, tail: string)
    requires Separated(toks, gaps) && EndsPhrase(tail)
    ensures Tokens(pre + Text(toks, gaps, tail), |pre|) == toks + [End]
    decreases |toks|
  {
    hide Scan, Tokens, Text, EndsPhrase, Spell, Glue;
    TextHead(pre, toks, gaps, tail);
    if toks == [] {
      TailScan(pre, tail);
      TokensStep(pre + tail, |pre|, End, Scan(pre + tail, |pre|).1);
    } else {
      var rest := Text(toks[1..], gaps[1..], tail);
      RestClear(toks, gaps, tail);
      ScanSpelled(pre, gaps[0], toks[0], rest);
      var pre' := pre + gaps[0] + Spell(toks[0]);
      TokensOfText(pre', toks[1..], gaps[1..], tail);
      TokensStep(pre' + rest, |pre|, toks[0], |pre'|);
      assert toks + [End] == [toks[0]] + (toks[1..] + [End]);
    }
  }

  lemma {:induction false} RestClear(toks: seq<Tok>, gaps: seq<string>, tail: string)
    requires Separated(toks, gaps) && EndsPhrase(tail) && toks != []
    ensures Clear(toks[0], Peek(Text(toks[1..], gaps[1..], tail), 0))
  {
    if |toks| > 1 {
      if gaps[1] == "" {
        SpellStart(toks[0], toks[1]);
      }
    }
  }

  // ---------------------------------------------------------------- phrases need no blanks

  predicate Starts(t: Tok) { t == VarN || t.Number? || t == Bang || t == LPar }

  predicate Stops(t: Tok) { t == VarN || t.Number? || t == RPar }

  predicate Unglued(w: seq<Tok>) {
    forall i :: 0 <= i < |w| - 1 ==> !Glue(w[i], w[i+1])
  }

  lemma {:induction false} UngluedJoin(a: seq<Tok>, b: seq<Tok>)
    requires Unglued(a) && Unglued(b)
    requires a != [] && b != [] ==> !Glue(a[|a|-1], b[0])
    ensures Unglued(a + b)
  {
  }

  predicate LiteralsFit(e: Expr) {
    match e
    case Var => true
    case Num(n) => n < ULONG_MODULUS
    case Not(a) => LiteralsFit(a)
    case Bin(_, l, r) => LiteralsFit(l) && LiteralsFit(r)
    case Cond(c, t, f) => LiteralsFit(c) && LiteralsFit(t) && LiteralsFit(f)
  }

  /** Begins and ends like a phrase, and can be written without blanks. */
  predicate Compact(w: seq<Tok>) {
    && w != [] && Starts(w[0]) && Stops(w[|w|-1]) && Unglued(w)
    && forall i :: 0 <= i < |w| ==> Spellable(w[i])
  }

  lemma {:induction false} CompactInfix(a: seq<Tok>, t: Tok, b: seq<Tok>)
    requires Compact(a) && Compact(b) && (t.Query? || t.Colon? || t.Binary?)
    ensures Compact(a + [t] + b)
  {
    UngluedJoin(a, [t]);
    UngluedJoin(a + [t], b);
  }

  lemma {:induction false} CompactWrapped(a: seq<Tok>)
    requires Compact(a)
    ensures Compact([Bang] + a) && Compact([LPar] + a + [RPar])
  {
    UngluedJoin([Bang], a);
    UngluedJoin([LPar], a);
    UngluedJoin([LPar] + a, [RPar]);
  }

  /** The tokens of a phrase can be written without any blanks. */
  lemma {:induction false} YieldCompact(s: Syn)
    requires LiteralsFit(Strip(s))
    ensures Compact(Yield(s))
  {
    hide Compact;
    match s
    case SVar => AtomCompact(s);
    case SNum(_) => AtomCompact(s);
    case SNot(a) => YieldCompact(a); CompactWrapped(Yield(a));
    case SParen(i) => YieldCompact(i); CompactWrapped(Yield(i));
    case SBin(op, l, r) =>
      YieldCompact(l);
      YieldCompact(r);
      CompactInfix(Yield(l), Binary(op), Yield(r));
    case SCond(c, t, f) =>
      YieldCompact(c);
      YieldCompact(t);
      YieldCompact(f);
      CompactInfix(Yield(c), Query, Yield(t));
      CompactInfix(Yield(c) + [Query] + Yield(t), Colon, Yield(f));
  }

  lemma {:induction false} AtomCompact(s: Syn)
    requires s.SVar? || s.SNum?
    requires LiteralsFit(Strip(s))
    ensures Compact(Yield(s))
  {
  }

  /** Any spacing of a phrase, in any surrounding text, scans back to its tokens. */
  lemma {:induction false} PhraseScans(pre: string, s: Syn, gaps: seq<string>, tail: string)
    requires LiteralsFit(Strip(s)) && EndsPhrase(tail)
    requires |gaps| == |Yield(s)| && forall i :: 0 <= i < |gaps| ==> Blank(gaps[i])
    ensures forall i :: 0 <= i < |Yield(s)| ==> Spellable(Yield(s)[i])
    ensures Tokens(pre + Text(Yield(s), gaps, tail), |pre|) == Yield(s) + [End]
  {
    YieldCompact(s);
    TokensOfText(pre, Yield(s), gaps, tail);
  }
}
