/** Writing printf directives, and reading them back: what is written from its parts is
    parsed into these parts again (intl/printf-parse.c). */
module PrintfText {
  import opened Basics
  import opened PrintfSize
  import opened PrintfSyntax

  /** A width or precision: none, digits, or "*" with the digits of a position ("" for the next argument). */
  datatype Amount = Absent | Literal(text: string) | Star(pos: string)

  datatype Form = Form(pos: string, flags: string, width: Amount, precision: Amount, sizes: string, conversion: char)

  function Numbered(pos: string): string { if pos == "" then "" else pos + "$" }

  function WidthText(w: Amount): string {
    match w
    case Absent => ""
    case Literal(t) => t
    case Star(pos) => "*" + Numbered(pos)
  }

  function PrecisionText(p: Amount): string {
    match p
    case Absent => ""
    case Literal(t) => "." + t
    case Star(pos) => ".*" + Numbered(pos)
  }

  function Ending(x: Form): string { x.sizes + [x.conversion] }

  function Render(x: Form): string {
    "%" + (Numbered(x.pos) + (x.flags + (WidthText(x.width) + (PrecisionText(x.precision) + Ending(x)))))
  }

  predicate GoodPosition(pos: string) {
    Digits(pos) && (pos != "" ==> 0 < DigitsValue(pos) < SIZE_MAX)
  }

  /** A well-formed directive; a width does not start with '0', which would be a flag. */
  predicate WellFormed(x: Form) {
    && GoodPosition(x.pos)
    && (forall i :: 0 <= i < |x.flags| ==> IsFlag(x.flags[i]))
    && (x.width.Literal? ==> x.width.text != "" && Digits(x.width.text) && x.width.text[0] != '0')
    && (x.width.Star? ==> GoodPosition(x.width.pos))
    && (x.precision.Literal? ==> Digits(x.precision.text))
    && (x.precision.Star? ==> GoodPosition(x.precision.pos))
    && (forall i :: 0 <= i < |x.sizes| ==> IsSize(x.sizes[i]))
    && TypeOf(SizeBits(x.sizes), x.conversion).Some?
  }

  /** The argument a position stands for, or the next one. */
  function Chosen(pos: string, posn: nat): nat
    requires GoodPosition(pos)
  {
    if pos == "" then posn else DigitsValue(pos) - 1
  }

  function Taken(w: Amount): nat { if w == Star("") then 1 else 0 }

  function StarArg(w: Amount, posn: nat): Option<nat>
    requires w.Star? ==> GoodPosition(w.pos)
  {
    if w.Star? then Some(Chosen(w.pos, posn)) else None
  }

  /** The field a width text at `p` must be read as. */
  function WidthField(w: Amount, p: nat, posn: nat): Field
    requires w.Star? ==> GoodPosition(w.pos)
  {
    var n := |WidthText(w)|;
    Field(match w case Absent => NOTHING case Literal(t) => Span(p, p + n) case Star(_) => Span(p, p + 1),
          StarArg(w, posn), p + n, posn + Taken(w))
  }

  function PrecisionField(w: Amount, p: nat, posn: nat): Field
    requires w.Star? ==> GoodPosition(w.pos)
  {
    var n := |PrecisionText(w)|;
    Field(match w case Absent => NOTHING case Literal(t) => Span(p, p + n) case Star(_) => Span(p, p + 2),
          StarArg(w, posn), p + n, posn + Taken(w))
  }

  // Reading a known stretch

  lemma {:induction false} Peel(f: string, p: nat, piece: string, rest: string)
    requires p <= |f| && f[p..] == piece + rest
    ensures p + |piece| <= |f| && f[p..p+|piece|] == piece && f[p+|piece|..] == rest
    ensures rest != "" ==> p + |piece| < |f| && Peek(f, p + |piece|) == rest[0]
  {
    var g := f[p..];
    assert f[p..p+|piece|] == g[..|piece|];
    assert f[p+|piece|..] == g[|piece|..];
    assert rest != "" ==> g[|piece|] == rest[0];
  }

  lemma {:induction false} DigitsEndIs(f: string, p: nat, e: nat)
    requires p <= e <= |f| && Digits(f[p..e]) && !IsDigit(Peek(f, e))
    ensures DigitsEnd(f, p) == e
    decreases e - p
  {
    if p < e {
      assert IsDigit(f[p..e][0]);
      assert f[p+1..e] == f[p..e][1..];
      DigitsEndIs(f, p + 1, e);
    }
  }

  lemma {:induction false} FlagsEndIs(f: string, p: nat, e: nat)
    requires p <= e <= |f| && (forall i :: p <= i < e ==> IsFlag(f[i])) && !IsFlag(Peek(f, e))
    ensures FlagsEnd(f, p) == e
    decreases e - p
  {
    if p < e {
      FlagsEndIs(f, p + 1, e);
    }
  }

  lemma {:induction false} SizesEndIs(f: string, p: nat, e: nat)
    requires p <= e <= |f| && (forall i :: p <= i < e ==> IsSize(f[i])) && !IsSize(Peek(f, e))
    ensures SizesEnd(f, p) == e
    decreases e - p
  {
    if p < e {
      SizesEndIs(f, p + 1, e);
    }
  }

  lemma {:induction false} EndingFirst(x: Form)
    requires WellFormed(x)
    ensures Ending(x) != "" && !IsDigit(Ending(x)[0]) && !IsFlag(Ending(x)[0]) && Ending(x)[0] !in "$.*"
    ensures !IsSize(x.conversion)
  {
    ConversionChar(SizeBits(x.sizes), x.conversion);
    hide TypeOf, SizeBits;
    if x.sizes != "" {
      SizeChar(x.sizes[0]);
      assert Ending(x)[0] == x.sizes[0];
    } else {
      assert Ending(x)[0] == x.conversion;
    }
  }

  lemma {:induction false} SizeChar(c: char)
    requires IsSize(c)
    ensures !IsDigit(c) && !IsFlag(c) && c !in "$.*"
  {
  }

  lemma {:induction false} ConversionChar(bits: nat, c: char)
    requires TypeOf(bits, c).Some?
    ensures !IsDigit(c) && !IsFlag(c) && c !in "$.*" && !IsSize(c)
  {
    if !('A' <= c <= 'z') {
      assert c == '%';
    }
  }

  predicate Neutral(s: string) { s != "" && !IsDigit(s[0]) && !IsFlag(s[0]) && s[0] !in "$*" }

  lemma {:induction false} PositionRead(f: string, p: nat, pos: string, rest: string)
    requires p <= |f| && f[p..] == Numbered(pos) + rest && GoodPosition(pos) && Neutral(rest)
    ensures Positional(f, p) == if pos == "" then Unnumbered else At(DigitsValue(pos) - 1, p + |pos| + 1)
  {
    if pos == "" {
      Peel(f, p, "", rest);
      DigitsEndIs(f, p, p);
    } else {
      assert f[p..] == pos + ("$" + rest);
      Peel(f, p, pos, "$" + rest);
      DigitsEndIs(f, p, p + |pos|);
    }
  }

  lemma {:induction false} StarRead(f: string, p: nat, pos: string, rest: string, span: Span, posn: nat)
    requires p <= |f| && f[p..] == Numbered(pos) + rest && GoodPosition(pos) && Neutral(rest)
    ensures ScanStar(f, p, span, posn) == Field(span, Some(Chosen(pos, posn)), p + |Numbered(pos)|, posn + Taken(Star(pos)))
  {
    PositionRead(f, p, pos, rest);
  }

  lemma {:induction false} WidthRead(f: string, p: nat, w: Amount, rest: string, posn: nat)
    requires p <= |f| && f[p..] == WidthText(w) + rest && Neutral(rest)
    requires w.Literal? ==> w.text != "" && Digits(w.text)
    requires w.Star? ==> GoodPosition(w.pos)
    ensures ScanWidth(f, p, posn) == WidthField(w, p, posn)
  {
    Peel(f, p, WidthText(w), rest);
    match w
    case Absent =>
    case Literal(t) =>
      assert IsDigit(t[0]) && f[p] == t[0] by { assert f[p..p+|t|][0] == t[0]; }
      DigitsEndIs(f, p, p + |t|);
    case Star(pos) =>
      assert f[p..] == "*" + (Numbered(pos) + rest);
      Peel(f, p, "*", Numbered(pos) + rest);
      assert f[p] == '*' by { assert f[p..p+1][0] == '*'; }
      StarRead(f, p + 1, pos, rest, Span(p, p + 1), posn);
  }

  lemma {:induction false} PrecisionRead(f: string, p: nat, w: Amount, rest: string, posn: nat)
    requires p <= |f| && f[p..] == PrecisionText(w) + rest && Neutral(rest) && rest[0] != '.'
    requires w.Literal? ==> Digits(w.text)
    requires w.Star? ==> GoodPosition(w.pos)
    ensures ScanPrecision(f, p, posn) == PrecisionField(w, p, posn)
  {
    Peel(f, p, PrecisionText(w), rest);
    match w
    case Absent =>
    case Literal(t) =>
      assert f[p..] == "." + (t + rest);
      Peel(f, p, ".", t + rest);
      assert f[p] == '.' by { assert f[p..p+1][0] == '.'; }
      Peel(f, p + 1, t, rest);
      DigitsEndIs(f, p + 1, p + 1 + |t|);
      assert Peek(f, p + 1) != '*' by { assert (t + rest)[0] == if t == "" then rest[0] else t[0]; }
    case Star(pos) =>
      assert f[p..] == ".*" + (Numbered(pos) + rest);
      Peel(f, p, ".*", Numbered(pos) + rest);
      assert f[p] == '.' && f[p+1] == '*' by { assert f[p..p+2][0] == '.' && f[p..p+2][1] == '*'; }
      StarRead(f, p + 2, pos, rest, Span(p, p + 2), posn);
  }

  /** The first character of `s` that is not a digit, NUL when there is none. */
  function FirstOther(s: string): char {
    if s == "" then '\0' else if IsDigit(s[0]) then FirstOther(s[1..]) else s[0]
  }

  lemma {:induction false} FirstOtherAppend(a: string, b: string)
    ensures FirstOther(a + b) == if Digits(a) then FirstOther(b) else FirstOther(a)
    ensures !Digits(a) ==> FirstOther(a) in a
  {
    if a == "" {
      assert a + b == b;
    } else {
      assert (a + b)[1..] == a[1..] + b;
      FirstOtherAppend(a[1..], b);
      assert a == [a[0]] + a[1..];
    }
  }

  lemma {:induction false} FirstOtherPeek(f: string, p: nat)
    requires p <= |f|
    ensures Peek(f, DigitsEnd(f, p)) == FirstOther(f[p..])
    decreases |f| - p
  {
    if p < |f| && IsDigit(f[p]) {
      FirstOtherPeek(f, p + 1);
      assert f[p..][1..] == f[p+1..];
    }
  }

  /** Without a position of its own, a directive is not mistaken for one with a position. */
  lemma {:induction false} NoPosition(f: string, p: nat, x: Form, tail: string)
    requires p <= |f| && WellFormed(x) && Neutral(tail)
    requires f[p..] == x.flags + (WidthText(x.width) + tail)
    ensures Positional(f, p) == Unnumbered
  {
    FirstOtherPeek(f, p);
    FirstOtherAppend(x.flags, WidthText(x.width) + tail);
    FirstOtherAppend(WidthText(x.width), tail);
    FlagsOther(x.flags);
  }

  lemma {:induction false} FlagsOther(s: string)
    requires forall i :: 0 <= i < |s| ==> IsFlag(s[i])
    ensures !Digits(s) ==> FirstOther(s) != '$'
  {
    if !Digits(s) {
      FirstOtherAppend(s, "");
      assert s + "" == s;
    }
  }

  /** The kind of argument the conversion takes. */
  function Kind(x: Form): ArgType
    requires WellFormed(x)
  {
    TypeOf(SizeBits(x.sizes), x.conversion).value
  }

  lemma {:induction false} EndingRead(f: string, start: nat, x: Form, post: string, index: Option<nat>, flags: Flags, w: Field, pr: Field)
    requires WellFormed(x) && w.Field? && pr.Field? && pr.next <= |f| && f[pr.next..] == Ending(x) + post
    ensures var k, end := Kind(x), pr.next + |Ending(x)|;
      var arg := if k == TypeNone then None else if index.Some? then index else Some(pr.posn);
      ScanConversion(f, start, index, flags, w, pr) ==
        Good(Directive(start, end, flags, w.span, w.arg, pr.span, pr.arg, Plain(x.conversion), arg), end,
             pr.posn + (if arg.Some? && index.None? then 1 else 0),
             IntRef(w.arg) + IntRef(pr.arg) + if arg.Some? then [Ref(arg.value, k)] else [])
  {
    hide TypeOf, SizeBits;
    EndingFirst(x);
    var rest := [x.conversion] + post;
    assert f[pr.next..] == x.sizes + rest;
    Peel(f, pr.next, x.sizes, rest);
    var e := pr.next + |x.sizes|;
    assert forall i :: pr.next <= i < e ==> f[i] == x.sizes[i-pr.next];
    SizesEndIs(f, pr.next, e);
    PercentPlain(x);
  }

  lemma {:induction false} PercentPlain(x: Form)
    requires WellFormed(x)
    ensures Kind(x) == TypeNone ==> Plain(x.conversion) == x.conversion
  {
  }

  /** The directive that a form written at `start` is, with the argument positions it uses. */
  function Meaning(x: Form, start: nat, posn: nat): Scan
    requires WellFormed(x)
  {
    var fe := start + 1 + |Numbered(x.pos)| + |x.flags|;
    var w := WidthField(x.width, fe, posn);
    var pr := PrecisionField(x.precision, w.next, w.posn);
    var k, end := Kind(x), start + |Render(x)|;
    var arg := if k == TypeNone then None else Some(Chosen(x.pos, pr.posn));
    Good(Directive(start, end, FlagsOf(x.flags), w.span, w.arg, pr.span, pr.arg, Plain(x.conversion), arg), end,
         pr.posn + (if arg.Some? && x.pos == "" then 1 else 0),
         IntRef(w.arg) + IntRef(pr.arg) + if arg.Some? then [Ref(arg.value, k)] else [])
  }

  /** Writing a directive and parsing it gives back its parts, wherever it stands in a format. */
  lemma {:induction false} RoundTrip(f: string, start: nat, x: Form, post: string, posn: nat)
    requires start < |f| && WellFormed(x) && f[start..] == Render(x) + post
    ensures ScanDirective(f, start, posn) == Meaning(x, start, posn)
  {
    hide WellFormed, IsDigit, IsFlag, IsSize, FlagsOf, TypeOf, SizeBits, ScanRest, Numbered, Ending, WidthText, PrecisionText, Meaning, Positional;
    var t3 := Ending(x) + post;
    var t2 := PrecisionText(x.precision) + t3;
    var t1 := WidthText(x.width) + t2;
    var t0 := x.flags + t1;
    var q := start + 1 + |Numbered(x.pos)|;
    NeutralTails(x, post, t3, t2);
    assert f[start..] == "%" + (Numbered(x.pos) + t0);
    Peel(f, start, "%", Numbered(x.pos) + t0);
    Peel(f, start + 1, Numbered(x.pos), t0);
    StartRead(f, start, x, t2);
    RestTrip(f, start, q, x, t3, t2, post, posn);
    assert Numbered(x.pos) == "" <==> x.pos == "" by { NumberedNone(x.pos); }
    assert x.pos == "" ==> q == start + 1;
  }

  lemma {:induction false} NumberedNone(pos: string)
    ensures Numbered(pos) == "" <==> pos == ""
  {
  }

  lemma {:induction false} RestTrip(f: string, start: nat, q: nat, x: Form, t3: string, t2: string, post: string, posn: nat)
    requires start < q <= |f| && q == start + 1 + |Numbered(x.pos)| && WellFormed(x) && t3 == Ending(x) + post && t2 == PrecisionText(x.precision) + t3
    requires Neutral(t3) && t3[0] != '.' && Neutral(t2)
    requires f[q..] == x.flags + (WidthText(x.width) + t2)
    ensures ScanRest(f, start, Given(x), q, posn) == Meaning(x, start, posn)
  {
    hide *;
    Peel(f, q, x.flags, WidthText(x.width) + t2);
    FlagsRead(f, q, x, t2);
    var fe := q + |x.flags|;
    WellFormedParts(x);
    WidthRead(f, fe, x.width, t2, posn);
    Peel(f, fe, WidthText(x.width), t2);
    var w := WidthField(x.width, fe, posn);
    WidthShape(x, fe, posn);
    PrecisionRead(f, w.next, x.precision, t3, w.posn);
    Peel(f, w.next, PrecisionText(x.precision), t3);
    var pr := PrecisionField(x.precision, w.next, w.posn);
    PrecisionShape(x, w.next, w.posn);
    RestIs(f, start, Given(x), q, posn, fe, x.flags, w, pr);
    MeaningIs(f, start, x, post, posn, fe, w, pr);
  }

  /** The position written in front of the flags. */
  function Given(x: Form): Option<nat>
    requires WellFormed(x)
  {
    if x.pos == "" then None else Some(DigitsValue(x.pos) - 1)
  }

  lemma {:induction false} RestIs(f: string, start: nat, index: Option<nat>, q: nat, posn: nat, fe: nat, flags: string, w: Field, pr: Field)
    requires q <= fe <= |f| && FlagsEnd(f, q) == fe && f[q..fe] == flags
    requires ScanWidth(f, fe, posn) == w && w.Field? && ScanPrecision(f, w.next, w.posn) == pr && pr.Field?
    ensures ScanRest(f, start, index, q, posn) == ScanConversion(f, start, index, FlagsOf(flags), w, pr)
  {
    hide ScanConversion, FlagsOf, ScanWidth, ScanPrecision, FlagsEnd;
  }

  lemma {:induction false} WidthShape(x: Form, fe: nat, posn: nat)
    requires WellFormed(x)
    ensures var w := WidthField(x.width, fe, posn); w.Field? && w.next == fe + |WidthText(x.width)|
  {
    hide TypeOf, SizeBits;
  }

  lemma {:induction false} PrecisionShape(x: Form, p: nat, posn: nat)
    requires WellFormed(x)
    ensures var pr := PrecisionField(x.precision, p, posn); pr.Field? && pr.next == p + |PrecisionText(x.precision)|
  {
    hide TypeOf, SizeBits;
  }

  lemma {:induction false} MeaningIs(f: string, start: nat, x: Form, post: string, posn: nat, fe: nat, w: Field, pr: Field)
    requires WellFormed(x) && fe == start + 1 + |Numbered(x.pos)| + |x.flags|
    requires w == WidthField(x.width, fe, posn) && w.Field? && pr == PrecisionField(x.precision, w.next, w.posn) && pr.Field?
    requires pr.next <= |f| && f[pr.next..] == Ending(x) + post && pr.next == fe + |WidthText(x.width)| + |PrecisionText(x.precision)|
    ensures ScanConversion(f, start, Given(x), FlagsOf(x.flags), w, pr) == Meaning(x, start, posn)
  {
    hide FlagsOf, TypeOf, SizeBits, Numbered, ScanConversion, WidthText, PrecisionText, Ending, WidthField, PrecisionField, Kind;
    EndingRead(f, start, x, post, Given(x), FlagsOf(x.flags), w, pr);
    RenderLength(x);
  }

  lemma {:induction false} RenderLength(x: Form)
    ensures |Render(x)| == 1 + |Numbered(x.pos)| + |x.flags| + |WidthText(x.width)| + |PrecisionText(x.precision)| + |Ending(x)|
  {
    hide Numbered, WidthText, PrecisionText, Ending;
  }

  lemma {:induction false} WellFormedParts(x: Form)
    requires WellFormed(x)
    ensures GoodPosition(x.pos)
    ensures x.width.Literal? ==> x.width.text != "" && Digits(x.width.text)
    ensures x.width.Star? ==> GoodPosition(x.width.pos)
    ensures x.precision.Literal? ==> Digits(x.precision.text)
    ensures x.precision.Star? ==> GoodPosition(x.precision.pos)
  {
  }

  lemma {:induction false} NeutralTails(x: Form, post: string, t3: string, t2: string)
    requires WellFormed(x) && t3 == Ending(x) + post && t2 == PrecisionText(x.precision) + t3
    ensures Neutral(t3) && t3[0] != '.' && Neutral(t2)
  {
    hide TypeOf, SizeBits;
    EndingFirst(x);
    assert t3[0] == Ending(x)[0];
    assert x.precision != Absent ==> t2[0] == '.';
    assert x.precision == Absent ==> t2 == t3;
  }

  lemma {:induction false} StartRead(f: string, start: nat, x: Form, t2: string)
    requires start < |f| && WellFormed(x) && Neutral(t2)
    requires f[start+1..] == Numbered(x.pos) + (x.flags + (WidthText(x.width) + t2))
    ensures Positional(f, start + 1) == if x.pos == "" then Unnumbered else At(DigitsValue(x.pos) - 1, start + 1 + |Numbered(x.pos)|)
  {
    hide TypeOf, SizeBits, WidthText, Neutral, FlagsEnd, DigitsValue, DigitsEnd;
    var rest := x.flags + (WidthText(x.width) + t2);
    if x.pos == "" {
      NoPosition(f, start + 1, x, t2);
    } else {
      var p := start + 1;
      assert f[p..] == x.pos + ("$" + rest);
      Peel(f, p, x.pos, "$" + rest);
      DigitsEndIs(f, p, p + |x.pos|);
    }
  }

  lemma {:induction false} FlagsRead(f: string, q: nat, x: Form, t2: string)
    requires q <= |f| && WellFormed(x) && Neutral(t2)
    requires f[q..] == x.flags + (WidthText(x.width) + t2)
    ensures var fe := q + |x.flags|; fe <= |f| && FlagsEnd(f, q) == fe && f[q..fe] == x.flags
  {
    hide TypeOf, SizeBits;
    var t1 := WidthText(x.width) + t2;
    Peel(f, q, x.flags, t1);
    var fe := q + |x.flags|;
    assert forall i :: q <= i < fe ==> f[i] == x.flags[i-q];
    assert t1[0] == if x.width.Absent? then t2[0] else WidthText(x.width)[0];
    FlagsEndIs(f, q, fe);
  }

  // The whole format

  predicate NoPercent(s: string) { forall i :: 0 <= i < |s| ==> s[i] != '%' }

  predicate Inside(s: Span, d: Directive) { s == NOTHING || (d.dir_start < s.start < s.end < d.dir_end) }

  /** From `cp` on the directives follow each other, with no '%' between them. */
  predicate Tiled(f: string, cp: nat, ds: seq<Directive>)
    requires cp <= |f|
    decreases |ds|
  {
    if ds == [] then NoPercent(f[cp..])
    else
      var d := ds[0];
      && cp <= d.dir_start < d.dir_end <= |f|
      && NoPercent(f[cp..d.dir_start]) && f[d.dir_start] == '%'
      && Plain(f[d.dir_end-1]) == d.conversion
      && Inside(d.width, d) && Inside(d.precision, d)
      && (d.width_arg.Some? ==> d.width != NOTHING) && (d.precision_arg.Some? ==> d.precision != NOTHING)
      && (d.conversion == '%' <==> d.arg.None?)
      && Tiled(f, d.dir_end, ds[1..])
  }

  /** The gaps and the directives put together. */
  function Glued(f: string, cp: nat, ds: seq<Directive>): string
    requires cp <= |f| && Tiled(f, cp, ds)
    decreases |ds|
  {
    if ds == [] then f[cp..]
    else f[cp..ds[0].dir_start] + f[ds[0].dir_start..ds[0].dir_end] + Glued(f, ds[0].dir_end, ds[1..])
  }

  lemma {:induction false} DirectiveInside(f: string, start: nat, posn: nat)
    requires start < |f|
    ensures var s := ScanDirective(f, start, posn); s.Good? ==>
      var d := s.dir;
      && d.dir_start == start && d.dir_end == s.next && start < d.dir_end <= |f|
      && Plain(f[d.dir_end-1]) == d.conversion && Inside(d.width, d) && Inside(d.precision, d)
      && (d.width_arg.Some? ==> d.width != NOTHING) && (d.precision_arg.Some? ==> d.precision != NOTHING)
      && (d.conversion == '%' <==> d.arg.None?)
  {
    hide SizeBits, FlagsOf, DigitsEnd, FlagsEnd, SizesEnd;
    hide Positional, ScanRest, Inside;
    match Positional(f, start + 1)
    case Wrong =>
    case Unnumbered => RestInside(f, start, None, start + 1, posn);
    case At(index, next) => RestInside(f, start, Some(index), next, posn);
  }

  lemma {:induction false} RestInside(f: string, start: nat, index: Option<nat>, q: nat, posn: nat)
    requires start < q <= |f|
    ensures var s := ScanRest(f, start, index, q, posn); s.Good? ==>
      var d := s.dir;
      && d.dir_start == start && d.dir_end == s.next && start < d.dir_end <= |f|
      && Plain(f[d.dir_end-1]) == d.conversion && Inside(d.width, d) && Inside(d.precision, d)
      && (d.width_arg.Some? ==> d.width != NOTHING) && (d.precision_arg.Some? ==> d.precision != NOTHING)
      && (d.conversion == '%' <==> d.arg.None?)
  {
    hide SizeBits, FlagsOf, DigitsEnd, FlagsEnd, SizesEnd, ScanWidth, ScanPrecision;
  }

  /** A parsed format is tiled by its directives. */
  lemma {:induction false} ParseTiles(f: string, cp: nat, from: nat, posn: nat)
    requires cp <= from <= |f| && NoPercent(f[cp..from])
    ensures var p := ParseFrom(f, from, posn); p.Parsed? ==> Tiled(f, cp, p.dirs)
    decreases |f| - from
  {
    hide ScanDirective, Inside;
    if from == |f| {
      assert f[cp..] == f[cp..from];
    } else if f[from] != '%' {
      assert f[cp..from+1] == f[cp..from] + [f[from]];
      ParseTiles(f, cp, from + 1, posn);
    } else {
      DirectiveInside(f, from, posn);
      var s := ScanDirective(f, from, posn);
      if s.Good? {
        ParseTiles(f, s.next, s.next, s.posn);
      }
    }
  }

  /** The gaps and directives rebuild the format. */
  lemma {:induction false} GluedIs(f: string, cp: nat, ds: seq<Directive>)
    requires cp <= |f| && Tiled(f, cp, ds)
    ensures Glued(f, cp, ds) == f[cp..]
    decreases |ds|
  {
    hide NoPercent, Inside;
    if ds != [] {
      GluedIs(f, ds[0].dir_end, ds[1..]);
      Pieces(f, cp, ds[0].dir_start, ds[0].dir_end);
    }
  }

  lemma {:induction false} Pieces(f: string, a: nat, b: nat, c: nat)
    requires a <= b <= c <= |f|
    ensures f[a..b] + f[b..c] + f[c..] == f[a..]
  {
  }
}
