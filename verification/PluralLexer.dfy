/** The scanner of plural-form expressions: `yylex` of intl/plural.c. */
module PluralLexer {
  import opened Basics
  import opened PluralSyntax
  import opened PluralTables

  /** unsigned long is 32 bits wide on the target. */
  const ULONG_MODULUS := 0x1_0000_0000

  /** The semantic value attached to a symbol, the union YYSTYPE. */
  datatype Value = NoValue | NumV(n: nat) | OpV(op: BinOp) | ExpV(e: Expr)

  predicate IsBlank(c: char) { c == ' ' || c == '\t' }

  function SkipBlanks(text: string, i: nat): (p: nat)
    ensures i <= p && (i <= |text| ==> p <= |text|)
    ensures forall k :: i <= k < p ==> k < |text| && IsBlank(text[k])
    ensures !IsBlank(Peek(text, p))
    decreases |text| - i
  {
    if i < |text| && IsBlank(text[i]) then SkipBlanks(text, i + 1) else i
  }

  /** The token at `cp` and the position after it. */
  function Scan(text: string, cp: nat): (r: (Tok, nat))
    requires cp <= |text|
    ensures cp <= r.1 <= |text| && (!r.0.End? ==> cp < r.1)
  {
    var p := SkipBlanks(text, cp);
    var c, d := Peek(text, p), Peek(text, p + 1);
    if c == '\0' || c == ';' || c == '\n' then (End, p)
    else if IsDigit(c) then
      var q := SkipDigits(text, p);
      (Number(DigitsValue(text[p..q]) % ULONG_MODULUS), q)
    else if c == '=' then (if d == '=' then (Binary(Equal), p + 2) else (Bad, p + 1))
    else if c == '!' then (if d == '=' then (Binary(NotEqual), p + 2) else (Bang, p + 1))
    else if c == '&' then (if d == '&' then (Binary(LAnd), p + 2) else (Bad, p + 1))
    else if c == '|' then (if d == '|' then (Binary(LOr), p + 2) else (Bad, p + 1))
    else if c == '<' then (if d == '=' then (Binary(LessOrEqual), p + 2) else (Binary(LessThan), p + 1))
    else if c == '>' then (if d == '=' then (Binary(GreaterOrEqual), p + 2) else (Binary(GreaterThan), p + 1))
    else if c == '*' then (Binary(Mult), p + 1)
    else if c == '/' then (Binary(Divide), p + 1)
    else if c == '%' then (Binary(Modulo), p + 1)
    else if c == '+' then (Binary(Plus), p + 1)
    else if c == '-' then (Binary(Minus), p + 1)
    else if c == 'n' then (VarN, p + 1)
    else if c == '?' then (Query, p + 1)
    else if c == ':' then (Colon, p + 1)
    else if c == '(' then (LPar, p + 1)
    else if c == ')' then (RPar, p + 1)
    else (Bad, p + 1)
  }

  /** The tokens from `cp` on, up to and including the first end marker. */
  function Tokens(text: string, cp: nat): (toks: seq<Tok>)
    requires cp <= |text|
    ensures toks != [] && toks[|toks|-1] == End
    ensures forall i :: 0 <= i < |toks| - 1 ==> toks[i] != End
    decreases |text| - cp
  {
    var (t, q) := Scan(text, cp);
    if t.End? then [End] else [t] + Tokens(text, q)
  }

  /** The scanner: token code, its value if it has one, and the cursor moved past it. */
  method YyLex(text: string, cp: nat, old_lval: Value) returns (code: nat, lval: Value, next: nat)
    requires cp <= |text|
    ensures code == Code(Scan(text, cp).0) && next == Scan(text, cp).1
    ensures var t := Scan(text, cp).0;
      lval == if t.Number? then NumV(t.n)
              else if t.Binary? && t.op != LOr && t.op != LAnd then OpV(t.op)
              else old_lval
  {
    lval := old_lval;
    var exp := cp;
    while true
      invariant cp <= exp <= |text| && SkipBlanks(text, exp) == SkipBlanks(text, cp)
      decreases |text| - exp
    {
      if Peek(text, exp) == '\0' {
        return 0, lval, exp;
      }
      if Peek(text, exp) != ' ' && Peek(text, exp) != '\t' {
        break;
      }
      exp := exp + 1;
    }
    var result := Peek(text, exp);
    var p := exp;
    exp := exp + 1;
    var here := Peek(text, exp);
    match result {
      case '=' =>
        if here == '=' {
          exp := exp + 1;
          lval := OpV(Equal);
          code := 257;
        } else {
          code := YYERRCODE;
        }
      case '!' =>
        code := 33;
        if here == '=' {
          exp := exp + 1;
          lval := OpV(NotEqual);
          code := 257;
        }
      case '&' =>
        code := 38;
        if here == '&' { exp := exp + 1; } else { code := YYERRCODE; }
      case '|' =>
        code := 124;
        if here == '|' { exp := exp + 1; } else { code := YYERRCODE; }
      case '<' =>
        if here == '=' {
          exp := exp + 1;
          lval := OpV(LessOrEqual);
        } else {
          lval := OpV(LessThan);
        }
        code := 258;
      case '>' =>
        if here == '=' {
          exp := exp + 1;
          lval := OpV(GreaterOrEqual);
        } else {
          lval := OpV(GreaterThan);
        }
        code := 258;
      case '*' => lval := OpV(Mult); code := 260;
      case '/' => lval := OpV(Divide); code := 260;
      case '%' => lval := OpV(Modulo); code := 260;
      case '+' => lval := OpV(Plus); code := 259;
      case '-' => lval := OpV(Minus); code := 259;
      case 'n' => code := 110;
      case '?' => code := 63;
      case ':' => code := 58;
      case '(' => code := 40;
      case ')' => code := 41;
      case ';' => exp := exp - 1; code := 0;
      case '\n' => exp := exp - 1; code := 0;
      case c =>
        if IsDigit(c) {
          var n;
          n, exp := ReadNumber(text, p);
          lval := NumV(n);
          code := 261;
        } else {
          code := YYERRCODE;
        }
    }
    next := exp;
  }

  /** Wrapping after each operation is wrapping once at the end. */
  lemma {:induction false} WrapStep(a: nat, d: nat)
    ensures (((a % ULONG_MODULUS) * 10) % ULONG_MODULUS + d) % ULONG_MODULUS == (10 * a + d) % ULONG_MODULUS
  {
    var r := a % ULONG_MODULUS;
    var q := a / ULONG_MODULUS;
    var q' := (r * 10) / ULONG_MODULUS;
  }

  /** The digit loop of the scanner, wrapping around as unsigned arithmetic does. */
  method ReadNumber(text: string, p: nat) returns (n: nat, exp: nat)
    requires p < |text| && IsDigit(text[p])
    ensures exp == SkipDigits(text, p) && p < exp <= |text|
    ensures n == DigitsValue(text[p..exp]) % ULONG_MODULUS
  {
    n := Digit(text[p]);
    exp := p + 1;
    assert text[p..exp] == [text[p]] && DigitsValue([text[p]][..0]) == 0;
    while IsDigit(Peek(text, exp))
      invariant p < exp <= |text| && SkipDigits(text, exp) == SkipDigits(text, p)
      invariant n == DigitsValue(text[p..exp]) % ULONG_MODULUS
      decreases |text| - exp
    {
      WrapStep(DigitsValue(text[p..exp]), Digit(text[exp]));
      n := (n * 10) % ULONG_MODULUS;
      n := (n + Digit(text[exp])) % ULONG_MODULUS;
      exp := exp + 1;
      assert text[p..exp][..exp-1-p] == text[p..exp-1];
    }
  }
}
