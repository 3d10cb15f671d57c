/** The directive that `VASNPRINTF` hands to `snprintf` asks for what the directive of the format does. */
module PrintfRebuild {
  import opened Basics
  import opened PrintfSize
  import opened PrintfSyntax
  import opened PrintfArgs
  import opened PrintfText
  import opened PrintfFormat
  import opened PrintfRun

  /** The type an argument arrives with: the integer types narrower than int are passed as int. */
  function Promoted(k: ArgType): ArgType {
    match k
    case SChar => Int
    case Short => Int
    case UChar => UInt
    case UShort => UInt
    case _ => k
  }

  /** The arguments are taken in order: one for a "*" as width, one for a "*" as precision, and the last. */
  predicate Consumes(d: Directive, width: bool, precision: bool) {
    && d.width_arg == (if width then Some(0) else None)
    && d.precision_arg == (if precision then Some(if width then 1 else 0) else None)
    && d.arg == Some((if width then 1 else 0) + if precision then 1 else 0)
  }

  /** Read by itself, `text` is one directive: that of `d` in `f` without its argument positions, for an
      argument of the promoted type. */
  predicate Requests(text: string, f: string, d: Directive, kind: ArgType)
    requires Spans(f, d)
  {
    && text != "" && text[0] == '%'
    && var s := ScanDirective(text, 0, 0);
    && s.Good? && s.next == |text|
    && Spans(text, s.dir)
    && s.dir.flags == d.flags
    && text[s.dir.width.start..s.dir.width.end] == f[d.width.start..d.width.end]
    && text[s.dir.precision.start..s.dir.precision.end] == f[d.precision.start..d.precision.end]
    && Consumes(s.dir, d.width_arg.Some?, d.precision_arg.Some?) && s.dir.conversion == d.conversion
    && s.refs != [] && s.refs[|s.refs|-1].kind == Promoted(kind)
  }

  // What scanning has found

  predicate WidthLike(w: string) { w == "" || w == "*" || (Digits(w) && w[0] != '0') }

  predicate PrecisionLike(p: string) { p == "" || p == ".*" || (p[0] == '.' && Digits(p[1..])) }

  /** What a directive that has been scanned consists of. */
  ghost predicate Scanned(f: string, d: Directive, refs: seq<Ref>) {
    && Spans(f, d)
    && WidthLike(f[d.width.start..d.width.end]) && (d.width_arg.Some? <==> f[d.width.start..d.width.end] == "*")
    && PrecisionLike(f[d.precision.start..d.precision.end]) && (d.precision_arg.Some? <==> f[d.precision.start..d.precision.end] == ".*")
    && (d.arg.Some? ==>
          && refs != [] && refs[|refs|-1].index == d.arg.value
          && exists bits, c :: TypeOf(bits, c) == Some(refs[|refs|-1].kind) && d.conversion == Plain(c) && refs[|refs|-1].kind != TypeNone)
  }

  lemma {:induction false} WidthScanned(f: string, p: nat, posn: nat)
    requires p <= |f| && !IsFlag(Peek(f, p))
    ensures var w := ScanWidth(f, p, posn); w.Field? ==>
      && w.span.start <= w.span.end <= |f| && WidthLike(f[w.span.start..w.span.end])
      && (w.arg.Some? <==> f[w.span.start..w.span.end] == "*")
  {
    var w := ScanWidth(f, p, posn);
    if Peek(f, p) == '*' {
      assert f[p..p+1] == "*";
    } else if IsDigit(Peek(f, p)) {
      assert f[p..DigitsEnd(f, p)][0] == f[p];
    }
  }

  lemma {:induction false} PrecisionScanned(f: string, p: nat, posn: nat)
    requires p <= |f|
    ensures var w := ScanPrecision(f, p, posn); w.Field? ==>
      && w.span.start <= w.span.end <= |f| && PrecisionLike(f[w.span.start..w.span.end])
      && (w.arg.Some? <==> f[w.span.start..w.span.end] == ".*")
  {
    if Peek(f, p) == '.' {
      if Peek(f, p + 1) == '*' {
        assert f[p..p+2] == ".*";
      } else {
        var t := f[p..DigitsEnd(f, p + 1)];
        assert t[0] == '.' && t[1..] == f[p+1..DigitsEnd(f, p + 1)];
        assert t != ".*" by { assert !IsDigit('*'); }
      }
    }
  }

  lemma {:induction false} ConversionScanned(f: string, start: nat, index: Option<nat>, flags: Flags, w: Field, pr: Field)
    requires w.Field? && pr.Field? && pr.next <= |f|
    ensures var s := ScanConversion(f, start, index, flags, w, pr); s.Good? ==>
      && s.dir.flags == flags && s.dir.width == w.span && s.dir.width_arg == w.arg && s.dir.precision == pr.span && s.dir.precision_arg == pr.arg
      && (s.dir.arg.Some? ==>
            && s.refs != [] && s.refs[|s.refs|-1].index == s.dir.arg.value
            && exists bits, c :: TypeOf(bits, c) == Some(s.refs[|s.refs|-1].kind) && s.dir.conversion == Plain(c) && s.refs[|s.refs|-1].kind != TypeNone)
  {
    hide TypeOf, SizeBits;
    var e := SizesEnd(f, pr.next);
    var kind := TypeOf(SizeBits(f[pr.next..e]), Peek(f, e));
  }

  lemma {:induction false} RestScanned(f: string, start: nat, index: Option<nat>, q: nat, posn: nat)
    requires q <= |f|
    ensures var s := ScanRest(f, start, index, q, posn); s.Good? ==> Scanned(f, s.dir, s.refs)
  {
    hide ScanWidth, ScanPrecision, ScanConversion, WidthLike, PrecisionLike, TypeOf, FlagsOf;
    var fe := FlagsEnd(f, q);
    WidthScanned(f, fe, posn);
    var w := ScanWidth(f, fe, posn);
    if w.Field? {
      PrecisionScanned(f, w.next, w.posn);
      var pr := ScanPrecision(f, w.next, w.posn);
      if pr.Field? {
        ConversionScanned(f, start, index, FlagsOf(f[q..fe]), w, pr);
      }
    }
  }

  lemma {:induction false} DirectiveScanned(f: string, start: nat, posn: nat)
    requires start < |f|
    ensures var s := ScanDirective(f, start, posn); s.Good? ==> Scanned(f, s.dir, s.refs)
  {
    hide ScanRest, Scanned, Positional;
    match Positional(f, start + 1)
    case Wrong =>
    case Unnumbered => RestScanned(f, start, None, start + 1, posn);
    case At(index, next) => RestScanned(f, start, Some(index), next, posn);
  }

  // Writing it down again

  function WidthOf(w: string): Amount { if w == "" then Absent else if w == "*" then Star("") else Literal(w) }

  function PrecisionOf(p: string): Amount { if p == "" then Absent else if p == ".*" then Star("") else Literal(p[1..]) }

  function FormOf(f: string, d: Directive, kind: ArgType): Form
    requires Spans(f, d)
  {
    Form("", FlagText(d.flags), WidthOf(SpanText(f, d.width)), PrecisionOf(SpanText(f, d.precision)), LengthText(kind), d.conversion)
  }

  lemma {:induction false} AmountTexts(w: string, p: string)
    requires WidthLike(w) && PrecisionLike(p)
    ensures WidthText(WidthOf(w)) == w && PrecisionText(PrecisionOf(p)) == p
  {
    assert "*" + "" == "*" && ".*" + "" == ".*";
    if p != "" && p != ".*" {
      assert "." + p[1..] == p;
    }
  }

  lemma {:induction false} SignIn(s: string, on: bool, d: char)
    ensures forall c :: c in s + Sign(on, d) <==> c in s || (on && c == d)
  {
  }

  /** The flags are written so that they are read again. */
  lemma {:induction false} FlagsAgain(x: Flags)
    ensures FlagsOf(FlagText(x)) == x && forall i :: 0 <= i < |FlagText(x)| ==> IsFlag(FlagText(x)[i])
  {
    hide Sign, IsFlag;
    var s1 := "" + Sign(x.group, '\'');
    var s2 := s1 + Sign(x.left, '-');
    var s3 := s2 + Sign(x.showsign, '+');
    var s4 := s3 + Sign(x.space, ' ');
    var s5 := s4 + Sign(x.alt, '#');
    SignIn("", x.group, '\'');
    SignIn(s1, x.left, '-');
    SignIn(s2, x.showsign, '+');
    SignIn(s3, x.space, ' ');
    SignIn(s4, x.alt, '#');
    SignIn(s5, x.zero, '0');
    assert s1 == Sign(x.group, '\'');
    FlagChars();
    var t := FlagText(x);
    assert forall i :: 0 <= i < |t| ==> t[i] in t;
  }

  lemma {:induction false} FlagChars()
    ensures IsFlag('\'') && IsFlag('-') && IsFlag('+') && IsFlag(' ') && IsFlag('#') && IsFlag('0')
  {
  }

  /** The length modifier written says the type, up to promotion. */
  lemma {:induction false} LengthAgain(bits: nat, c: char, kind: ArgType)
    requires TypeOf(bits, c) == Some(kind) && kind != TypeNone && c != 'n'
    ensures TypeOf(SizeBits(LengthText(kind)), Plain(c)) == Some(Promoted(kind)) && Promoted(kind) != TypeNone
    ensures forall i :: 0 <= i < |LengthText(kind)| ==> IsSize(LengthText(kind)[i])
  {
    LengthBits();
    hide SizeBits;
  }

  lemma {:induction false} LengthBits()
    ensures SizeBits("") == 0 && SizeBits("l") == 8 && SizeBits("ll") == 16 && SizeBits("L") == 4
  {
    assert "l"[..0] == "" && "ll"[..1] == "l" && "L"[..0] == "";
  }

  lemma {:induction false} FormRenders(f: string, d: Directive, kind: ArgType)
    requires Spans(f, d) && WidthLike(SpanText(f, d.width)) && PrecisionLike(SpanText(f, d.precision))
    ensures Render(FormOf(f, d, kind)) == Rebuilt(f, d, kind)
  {
    hide FlagText, SpanText, LengthText, WidthLike, PrecisionLike, WidthText, PrecisionText, WidthOf, PrecisionOf;
    AmountTexts(SpanText(f, d.width), SpanText(f, d.precision));
    Concats(FlagText(d.flags), SpanText(f, d.width), SpanText(f, d.precision), LengthText(kind), [d.conversion]);
  }

  lemma {:induction false} Concats(a: string, b: string, c: string, d: string, e: string)
    ensures "%" + ("" + (a + (b + (c + (d + e))))) == "%" + a + b + c + d + e
  {
    assert a + (b + (c + (d + e))) == a + b + c + d + e;
  }

  lemma {:induction false} FormWell(f: string, d: Directive, kind: ArgType, bits: nat, c: char)
    requires Spans(f, d) && WidthLike(SpanText(f, d.width)) && PrecisionLike(SpanText(f, d.precision))
    requires TypeOf(bits, c) == Some(kind) && kind != TypeNone && c != 'n' && d.conversion == Plain(c)
    ensures WellFormed(FormOf(f, d, kind)) && Kind(FormOf(f, d, kind)) == Promoted(kind) && Promoted(kind) != TypeNone
  {
    hide FlagText, SpanText, LengthText, TypeOf, SizeBits, FlagsOf;
    FlagsAgain(d.flags);
    LengthAgain(bits, c, kind);
  }

  /** A directive that has been scanned is rebuilt as a request for the same thing. */
  lemma {:induction false} RebuiltRequests(f: string, start: nat, posn: nat)
    requires start < |f| && ScanDirective(f, start, posn).Good?
    requires var d := ScanDirective(f, start, posn).dir; d.arg.Some? && d.conversion != 'n'
    ensures var s := ScanDirective(f, start, posn);
      && Spans(f, s.dir) && s.refs != [] && s.refs[|s.refs|-1].index == s.dir.arg.value
      && Requests(Rebuilt(f, s.dir, s.refs[|s.refs|-1].kind), f, s.dir, s.refs[|s.refs|-1].kind)
  {
    hide ScanDirective, Requests, WidthLike, PrecisionLike, TypeOf, Rebuilt;
    DirectiveScanned(f, start, posn);
    var s := ScanDirective(f, start, posn);
    ScannedRequests(f, s.dir, s.refs);
  }

  lemma {:induction false} ScannedRequests(f: string, d: Directive, refs: seq<Ref>)
    requires Scanned(f, d, refs) && d.arg.Some? && d.conversion != 'n'
    ensures Requests(Rebuilt(f, d, refs[|refs|-1].kind), f, d, refs[|refs|-1].kind)
  {
    hide ScanDirective, Requests, WidthLike, PrecisionLike, TypeOf, FormOf, Rebuilt, WellFormed, Promoted;
    var kind := refs[|refs|-1].kind;
    var bits, c :| TypeOf(bits, c) == Some(kind) && d.conversion == Plain(c) && kind != TypeNone;
    FormWell(f, d, kind, bits, c);
    FormRenders(f, d, kind);
    FormReads(f, d, kind);
  }

  predicate Simple(w: Amount) { w.Star? ==> w.pos == "" }

  /** Where the fields of a directive without positions are. */
  lemma {:induction false} MeaningParts(x: Form)
    requires WellFormed(x) && x.pos == "" && Simple(x.width) && Simple(x.precision) && Kind(x) != TypeNone
    ensures var s := Meaning(x, 0, 0);
      var m := 1 + |x.flags|;
      var n := m + |WidthText(x.width)|;
      && s.Good? && s.next == |Render(x)| && s.dir.flags == FlagsOf(x.flags) && s.dir.conversion == Plain(x.conversion)
      && s.dir.width == (if x.width.Absent? then NOTHING else Span(m, n))
      && s.dir.precision == (if x.precision.Absent? then NOTHING else Span(n, n + |PrecisionText(x.precision)|))
      && Consumes(s.dir, x.width.Star?, x.precision.Star?) && s.refs != [] && s.refs[|s.refs|-1].kind == Kind(x)
  {
    hide WellFormed, Kind, FlagsOf, Render, Plain;
  }

  lemma {:induction false} FormReads(f: string, d: Directive, kind: ArgType)
    requires Spans(f, d) && WidthLike(SpanText(f, d.width)) && PrecisionLike(SpanText(f, d.precision)) && d.conversion != 'C' && d.conversion != 'S'
    requires (d.width_arg.Some? <==> SpanText(f, d.width) == "*") && (d.precision_arg.Some? <==> SpanText(f, d.precision) == ".*")
    requires WellFormed(FormOf(f, d, kind)) && Kind(FormOf(f, d, kind)) == Promoted(kind) && Promoted(kind) != TypeNone
    ensures Requests(Render(FormOf(f, d, kind)), f, d, kind)
  {
    hide ScanDirective, Meaning, Render, WidthText, PrecisionText, WidthOf, PrecisionOf, FlagText, LengthText, FormOf, FlagsOf, Promoted, Kind;
    hide WidthLike, PrecisionLike, WellFormed, TypeOf, SizeBits, Simple, Requests, SpanText;
    var x := FormOf(f, d, kind);
    var text := Render(x);
    FormParts(f, d, kind);
    RenderParts(x);
    RoundTrip(text, 0, x, "", 0);
    FlagsAgain(d.flags);
    AmountTexts(SpanText(f, d.width), SpanText(f, d.precision));
    MeaningParts(x);
    Assembled(text, f, d, kind, x, Meaning(x, 0, 0));
  }

  lemma {:induction false} FormParts(f: string, d: Directive, kind: ArgType)
    requires Spans(f, d)
    ensures var x := FormOf(f, d, kind);
      && x.pos == "" && x.flags == FlagText(d.flags) && x.conversion == d.conversion && Simple(x.width) && Simple(x.precision)
      && x.width == WidthOf(SpanText(f, d.width)) && x.precision == PrecisionOf(SpanText(f, d.precision))
  {
    hide FlagText, SpanText, LengthText;
  }

  lemma {:induction false} Assembled(text: string, f: string, d: Directive, kind: ArgType, x: Form, s: Scan)
    requires Spans(f, d) && text != "" && text[0] == '%' && s == ScanDirective(text, 0, 0) && s.Good? && s.next == |text|
    requires d.conversion != 'C' && d.conversion != 'S' && s.dir.conversion == Plain(d.conversion)
    requires s.dir.flags == d.flags && Consumes(s.dir, x.width.Star?, x.precision.Star?) && s.refs != [] && s.refs[|s.refs|-1].kind == Promoted(kind)
    requires var m := 1 + |x.flags|;
      var n := m + |WidthText(x.width)|;
      && n + |PrecisionText(x.precision)| <= |text| && text[m..n] == WidthText(x.width) && text[n..n+|PrecisionText(x.precision)|] == PrecisionText(x.precision)
      && s.dir.width == (if x.width.Absent? then NOTHING else Span(m, n))
      && s.dir.precision == (if x.precision.Absent? then NOTHING else Span(n, n + |PrecisionText(x.precision)|))
    requires x.width == WidthOf(SpanText(f, d.width)) && WidthText(x.width) == SpanText(f, d.width) && (d.width_arg.Some? <==> SpanText(f, d.width) == "*")
    requires x.precision == PrecisionOf(SpanText(f, d.precision)) && PrecisionText(x.precision) == SpanText(f, d.precision)
    requires d.precision_arg.Some? <==> SpanText(f, d.precision) == ".*"
    ensures Requests(text, f, d, kind)
  {
    hide ScanDirective, Promoted;
  }

  /** The fields in the text of a directive without positions. */
  lemma {:induction false} RenderParts(x: Form)
    requires x.pos == ""
    ensures var text := Render(x);
      var m := 1 + |x.flags|;
      var n := m + |WidthText(x.width)|;
      && text != "" && text[0] == '%' && text[0..] == text + "" && n + |PrecisionText(x.precision)| <= |text|
      && text[m..n] == WidthText(x.width) && text[n..n+|PrecisionText(x.precision)|] == PrecisionText(x.precision)
      && text[0..0] == ""
  {
    hide WidthText, PrecisionText;
    TextParts(Render(x), x.flags, WidthText(x.width), PrecisionText(x.precision), Ending(x));
  }

  lemma {:induction false} TextParts(text: string, a: string, b: string, c: string, e: string)
    requires text == "%" + ("" + (a + (b + (c + e))))
    ensures text[1+|a|..1+|a|+|b|] == b && text[1+|a|+|b|..1+|a|+|b|+|c|] == c
  {
    assert text == "%" + a + b + c + e;
  }

  // All directives of a format

  /** Each directive of `ds` has been scanned, with its uses of arguments among `refs`. */
  ghost predicate Scans(f: string, d: Directive, refs: seq<Ref>) {
    exists own :: Scanned(f, d, own) && Among(own, refs)
  }

  predicate Among(own: seq<Ref>, refs: seq<Ref>) { forall r :: r in own ==> r in refs }

  lemma {:induction false} ParseScanned(f: string, cp: nat, posn: nat)
    requires cp <= |f|
    ensures var p := ParseFrom(f, cp, posn); p.Parsed? ==> forall i :: 0 <= i < |p.dirs| ==> Scans(f, p.dirs[i], p.refs)
    decreases |f| - cp
  {
    hide ScanDirective, Scanned;
    if cp < |f| {
      if f[cp] != '%' {
        ParseScanned(f, cp + 1, posn);
      } else {
        DirectiveScanned(f, cp, posn);
        var s := ScanDirective(f, cp, posn);
        if s.Good? {
          ParseScanned(f, s.next, s.posn);
          var rest, p := ParseFrom(f, s.next, s.posn), ParseFrom(f, cp, posn);
          if rest.Parsed? {
            assert p.refs == s.refs + rest.refs && p.dirs == [s.dir] + rest.dirs;
            forall i | 0 <= i < |p.dirs| ensures Scans(f, p.dirs[i], p.refs) {
              if i == 0 {
                assert Scanned(f, s.dir, s.refs) && Among(s.refs, p.refs);
              } else {
                var own :| Scanned(f, rest.dirs[i-1], own) && Among(own, rest.refs);
                assert Among(own, p.refs);
              }
            }
          }
        }
      }
    }
  }

  /** What `VASNPRINTF` hands on for a directive of a parsed format, with the type that the table of
      arguments has for it, requests what that directive does. */
  lemma {:induction false} FormatRequests(f: string, t: seq<ArgType>, i: nat)
    requires Parse(f).Parsed? && RegisterAll([], Parse(f).refs) == Some(t) && i < |Parse(f).dirs|
    requires var d := Parse(f).dirs[i]; d.conversion != 'n' && d.arg.Some?
    ensures var d := Parse(f).dirs[i];
      Spans(f, d) && d.arg.value < |t| && Requests(Rebuilt(f, d, t[d.arg.value]), f, d, t[d.arg.value])
  {
    hide ParseFrom, RegisterAll, Requests, Rebuilt, WidthLike, PrecisionLike, TypeOf;
    var p := Parse(f);
    ParseScanned(f, 0, 0);
    ParseCovered(f, 0, 0);
    RegisterMeans(p.refs);
    var d := p.dirs[i];
    assert Scans(f, d, p.refs);
    var own :| Scanned(f, d, own) && Among(own, p.refs);
    var last := own[|own|-1];
    assert last in own;
    var j :| 0 <= j < |p.refs| && p.refs[j] == last;
    assert t[last.index] == last.kind;
    ScannedRequests(f, d, own);
  }

  // Which type a conversion takes

  /** How often `c` stands in `s`. */
  function Times(s: string, c: char): nat {
    if s == [] then 0 else Times(s[..|s|-1], c) + if s[|s|-1] == c then 1 else 0
  }

  /** One "h" and another one, an "L", and the "l" and "j", of which a "j" counts twice. */
  function Packed(h: nat, l: nat, n: nat): nat {
    (if h >= 1 then 1 else 0) + (if h >= 2 then 2 else 0) + (if l >= 1 then 4 else 0) + 8 * n
  }

  lemma {:induction false} PackedStep(h: nat, l: nat, n: nat, c: char)
    ensures SizeStep(Packed(h, l, n), c) ==
      Packed(h + if c == 'h' then 1 else 0, l + if c == 'L' then 1 else 0, n + if c == 'l' then 1 else if c == 'j' then 2 else 0)
  {
    BitsOf(if h >= 1 then 1 else 0, if h >= 2 then 1 else 0, if l >= 1 then 1 else 0, n);
  }

  lemma {:induction false} SizesCount(s: string)
    ensures SizeBits(s) == Packed(Times(s, 'h'), Times(s, 'L'), Times(s, 'l') + 2 * Times(s, 'j'))
  {
    hide Packed, SizeStep;
    if s == [] {
      PackedNone();
    } else {
      var t := s[..|s|-1];
      SizesCount(t);
      PackedStep(Times(t, 'h'), Times(t, 'L'), Times(t, 'l') + 2 * Times(t, 'j'), s[|s|-1]);
    }
  }

  lemma {:induction false} PackedNone()
    ensures Packed(0, 0, 0) == 0
  {
  }

  lemma {:induction false} BitsOf(a: nat, b: nat, c: nat, n: nat)
    requires a <= 1 && b <= 1 && c <= 1
    ensures var bits := a + 2 * b + 4 * c + 8 * n; bits % 2 == a && (bits / 2) % 2 == b && (bits / 4) % 2 == c
    ensures var bits := a + 2 * b + 4 * c + 8 * n; (bits >= 8 <==> n >= 1) && (bits >= 16 <==> n >= 2)
  {
    var bits := a + 2 * b + 4 * c + 8 * n;
    assert bits / 2 == b + 2 * c + 4 * n && bits / 4 == c + 2 * n;
  }

  predicate LongLong(s: string) { Times(s, 'l') + 2 * Times(s, 'j') >= 2 || Times(s, 'L') >= 1 }

  predicate Long(s: string) { Times(s, 'l') + 2 * Times(s, 'j') >= 1 }

  lemma {:induction false} SizesMean(s: string)
    ensures var b := SizeBits(s);
      && (b >= 16 || (b / 4) % 2 == 1 <==> LongLong(s)) && (b >= 8 <==> Long(s))
      && ((b / 2) % 2 == 1 <==> Times(s, 'h') >= 2) && (b % 2 == 1 <==> Times(s, 'h') >= 1)
  {
    hide SizeBits, Times;
    SizesCount(s);
    var h, l, n := Times(s, 'h'), Times(s, 'L'), Times(s, 'l') + 2 * Times(s, 'j');
    BitsOf(if h >= 1 then 1 else 0, if h >= 2 then 1 else 0, if l >= 1 then 1 else 0, n);
  }

  /** The type of argument that an integer conversion takes, by the modifiers in front of it: those of a
      long long are "ll", "j" and "L", in any order and with any others. */
  lemma {:induction false} IntegerTypes(s: string, c: char)
    ensures var h, t := Times(s, 'h'), TypeOf(SizeBits(s), c);
      && (c == 'd' || c == 'i' ==> t == Some(if LongLong(s) then LongLongInt else if Long(s) then LongInt else if h >= 2 then SChar else if h == 1 then Short else Int))
      && (c == 'o' || c == 'u' || c == 'x' || c == 'X' ==>
            t == Some(if LongLong(s) then ULongLongInt else if Long(s) then ULongInt else if h >= 2 then UChar else if h == 1 then UShort else UInt))
      && (c == 'n' ==>
            t == Some(if LongLong(s) then CountLongLongInt else if Long(s) then CountLongInt else if h >= 2 then CountSChar else if h == 1 then CountShort else CountInt))
  {
    hide SizeBits, Times, LongLong, Long;
    SizesMean(s);
  }

  /** The other conversions, and no more. */
  lemma {:induction false} OtherTypes(s: string, c: char)
    ensures var t := TypeOf(SizeBits(s), c);
      && (c == 'f' || c == 'F' || c == 'e' || c == 'E' || c == 'g' || c == 'G' || c == 'a' || c == 'A' ==> t == Some(if LongLong(s) then LongDouble else Double))
      && (c == 'c' ==> t == Some(if Long(s) then WideChar else Char)) && (c == 'C' ==> t == Some(WideChar))
      && (c == 's' ==> t == Some(if Long(s) then WideString else String)) && (c == 'S' ==> t == Some(WideString))
      && (c == 'p' ==> t == Some(Pointer)) && (c == '%' ==> t == Some(TypeNone))
      && (c !in "diouxXfFeEgGaAcCsSpn%" ==> t == None)
  {
    hide SizeBits, Times, LongLong, Long;
    SizesMean(s);
  }

  /** What is handed on with the rebuilt directive: the value for each "*" where it is consumed, and the
      argument itself where it is. */
  lemma {:induction false} ArgumentsMatch(d: Directive, own: Directive, args: seq<Argument>)
    requires Matched(d, Kinds(args)) && d.arg.Some? && Consumes(own, d.width_arg.Some?, d.precision_arg.Some?)
    ensures var handed := Prefixes(d, args) + [args[d.arg.value].value];
      && own.arg.Some? && |handed| == own.arg.value + 1 && handed[own.arg.value] == args[d.arg.value].value
      && (own.width_arg.Some? ==> handed[own.width_arg.value] == args[d.width_arg.value].value)
      && (own.precision_arg.Some? ==> handed[own.precision_arg.value] == args[d.precision_arg.value].value)
  {
  }

  // The order of the output

  /** When every directive comes out as it is written, so does the format: each output stands where its
      directive stood, and the text between them is kept. */
  lemma {:induction false} OutputOrder(f: string, ds: seq<Directive>, args: seq<Argument>, produce: Producer)
    requires InOrder(f, ds) && AllMatched(ds, Kinds(args))
    requires forall i :: 0 <= i < |ds| ==> Output(f, ds[i], args, produce) == Some(f[ds[i].dir_start..ds[i].dir_end])
    ensures Formatted(f, ds, args, produce) == Some(f)
  {
    hide Output, AllMatched;
    UptoIs(f, ds, args, produce, |ds|);
    assert f[..EndOf(ds, |ds|)] + f[EndOf(ds, |ds|)..|f|] == f;
  }

  lemma {:induction false} UptoIs(f: string, ds: seq<Directive>, args: seq<Argument>, produce: Producer, n: nat)
    requires InOrder(f, ds) && AllMatched(ds, Kinds(args)) && n <= |ds|
    requires forall i :: 0 <= i < |ds| ==> Output(f, ds[i], args, produce) == Some(f[ds[i].dir_start..ds[i].dir_end])
    ensures EndOf(ds, n) <= |f| && Upto(f, ds, args, produce, n) == Some(f[..EndOf(ds, n)])
  {
    hide Output, AllMatched;
    if n > 0 {
      UptoIs(f, ds, args, produce, n - 1);
      var d := ds[n-1];
      assert f[..EndOf(ds, n - 1)] + f[EndOf(ds, n - 1)..d.dir_start] + f[d.dir_start..d.dir_end] == f[..d.dir_end];
    }
  }

  /** "%%" comes out as one percent sign, "%n" as nothing. */
  lemma {:induction false} FixedOutputs(f: string, d: Directive, args: seq<Argument>, produce: Producer)
    requires Spans(f, d) && Matched(d, Kinds(args))
    ensures d.conversion == '%' ==> Output(f, d, args, produce) == Some("%")
    ensures d.conversion == 'n' ==> Output(f, d, args, produce) == Some("")
  {
  }
}
