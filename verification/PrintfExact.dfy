/** The directives that intl/printf-parse.c accepts are exactly those that can be written down from
    well-formed parts. */
module PrintfExact {
  import opened Basics
  import opened PrintfSize
  import opened PrintfSyntax
  import opened PrintfText

  /** `x` is written at `start`, and what follows is `post`. */
  ghost predicate WrittenAt(f: string, start: nat, x: Form, post: string) {
    start <= |f| && WellFormed(x) && f[start..] == Render(x) + post
  }

  // The parts that have been read

  /** Digits, a dollar sign and what follows, or nothing. */
  lemma {:induction false} PositionParts(f: string, p: nat) returns (pos: string)
    requires p <= |f|
    ensures Positional(f, p).Unnumbered? ==> pos == ""
    ensures var r := Positional(f, p); r.At? ==> pos != "" && GoodPosition(pos) && r.next <= |f| && f[p..r.next] == Numbered(pos)
  {
    pos := "";
    if Positional(f, p).At? {
      var e := DigitsEnd(f, p);
      pos := f[p..e];
      assert f[p..e+1] == pos + "$";
      assert Saturated(DigitsValue(pos)) > 0 && !Overflow(Saturated(DigitsValue(pos)));
    }
  }

  lemma {:induction false} StarParts(f: string, p: nat, span: Span, posn: nat) returns (pos: string)
    requires p <= |f| && ScanStar(f, p, span, posn).Field?
    ensures GoodPosition(pos) && p <= ScanStar(f, p, span, posn).next <= |f| && f[p..ScanStar(f, p, span, posn).next] == Numbered(pos)
  {
    pos := PositionParts(f, p);
    if Positional(f, p).Unnumbered? {
      assert f[p..p] == "";
    }
  }

  lemma {:induction false} WidthParts(f: string, p: nat, posn: nat) returns (w: Amount)
    requires p <= |f| && !IsFlag(Peek(f, p)) && ScanWidth(f, p, posn).Field?
    ensures w.Literal? ==> w.text != "" && Digits(w.text) && w.text[0] != '0'
    ensures w.Star? ==> GoodPosition(w.pos)
    ensures var r := ScanWidth(f, p, posn); p <= r.next <= |f| && f[p..r.next] == WidthText(w)
  {
    var r := ScanWidth(f, p, posn);
    if Peek(f, p) == '*' {
      var pos := StarParts(f, p + 1, Span(p, p + 1), posn);
      w := Star(pos);
      assert f[p..r.next] == [f[p]] + f[p+1..r.next];
    } else if IsDigit(Peek(f, p)) {
      w := Literal(f[p..r.next]);
      assert w.text[0] == f[p];
    } else {
      w := Absent;
      assert f[p..p] == "";
    }
  }

  lemma {:induction false} PrecisionParts(f: string, p: nat, posn: nat) returns (w: Amount)
    requires p <= |f| && ScanPrecision(f, p, posn).Field?
    ensures w.Literal? ==> Digits(w.text)
    ensures w.Star? ==> GoodPosition(w.pos)
    ensures var r := ScanPrecision(f, p, posn); p <= r.next <= |f| && f[p..r.next] == PrecisionText(w)
  {
    var r := ScanPrecision(f, p, posn);
    if Peek(f, p) != '.' {
      w := Absent;
      assert f[p..p] == "";
    } else if Peek(f, p + 1) == '*' {
      var pos := StarParts(f, p + 2, Span(p, p + 2), posn);
      w := Star(pos);
      assert f[p..r.next] == [f[p], f[p+1]] + f[p+2..r.next];
    } else {
      w := Literal(f[p+1..r.next]);
      assert f[p..r.next] == [f[p]] + f[p+1..r.next];
    }
  }

  lemma {:induction false} EndingParts(f: string, start: nat, index: Option<nat>, flags: Flags, w: Field, pr: Field) returns (sizes: string, c: char)
    requires w.Field? && pr.Field? && pr.next <= |f| && ScanConversion(f, start, index, flags, w, pr).Good?
    ensures (forall i :: 0 <= i < |sizes| ==> IsSize(sizes[i])) && TypeOf(SizeBits(sizes), c).Some?
    ensures var r := ScanConversion(f, start, index, flags, w, pr); pr.next < r.next <= |f| && f[pr.next..r.next] == sizes + [c]
  {
    hide TypeOf, SizeBits;
    var e := SizesEnd(f, pr.next);
    sizes, c := f[pr.next..e], Peek(f, e);
    assert f[pr.next..e+1] == sizes + [f[e]];
  }

  lemma {:induction false} RestParts(f: string, start: nat, index: Option<nat>, q: nat, posn: nat, pos: string) returns (x: Form, post: string)
    requires start < q <= |f| && f[start] == '%' && GoodPosition(pos) && f[start+1..q] == Numbered(pos) && ScanRest(f, start, index, q, posn).Good?
    ensures WrittenAt(f, start, x, post) && x.pos == pos
  {
    hide ScanWidth, ScanPrecision, ScanConversion, TypeOf, SizeBits, FlagsOf, Numbered, WidthText, PrecisionText, GoodPosition;
    var fe := FlagsEnd(f, q);
    var flags := f[q..fe];
    var w := ScanWidth(f, fe, posn);
    var width := WidthParts(f, fe, posn);
    var pr := ScanPrecision(f, w.next, w.posn);
    var precision := PrecisionParts(f, w.next, w.posn);
    var sizes, c := EndingParts(f, start, index, FlagsOf(flags), w, pr);
    var r := ScanConversion(f, start, index, FlagsOf(flags), w, pr);
    x, post := Form(pos, flags, width, precision, sizes, c), f[r.next..];
    Stitched(f, start, q, fe, w.next, pr.next, r.next);
    assert WellFormed(x);
    StitchedTexts(Numbered(pos), flags, WidthText(width), PrecisionText(precision), sizes + [c], post);
  }

  lemma {:induction false} Stitched(f: string, start: nat, q: nat, fe: nat, we: nat, pe: nat, end: nat)
    requires start < q <= fe <= we <= pe <= end <= |f|
    ensures f[start..] == [f[start]] + f[start+1..q] + f[q..fe] + f[fe..we] + f[we..pe] + f[pe..end] + f[end..]
  {
  }

  lemma {:induction false} StitchedTexts(a: string, b: string, c: string, d: string, e: string, post: string)
    ensures "%" + a + b + c + d + e + post == "%" + (a + (b + (c + (d + e)))) + post
  {
  }

  /** A directive that is accepted has been written from well-formed parts. */
  lemma {:induction false} AcceptedParts(f: string, start: nat, posn: nat) returns (x: Form, post: string)
    requires start < |f| && f[start] == '%' && ScanDirective(f, start, posn).Good?
    ensures WrittenAt(f, start, x, post)
  {
    hide ScanRest, Numbered, GoodPosition, WrittenAt;
    var pos := PositionParts(f, start + 1);
    NoNumber();
    match Positional(f, start + 1)
    case Unnumbered =>
      assert f[start+1..start+1] == "";
      x, post := RestParts(f, start, None, start + 1, posn, "");
    case At(index, next) =>
      x, post := RestParts(f, start, Some(index), next, posn, pos);
  }

  lemma {:induction false} NoNumber()
    ensures Numbered("") == "" && GoodPosition("")
  {
  }

  /** The parser accepts a directive exactly when it is well formed, and then it is the one written. */
  lemma {:induction false} AcceptsExactly(f: string, start: nat, posn: nat)
    requires start < |f| && f[start] == '%'
    ensures ScanDirective(f, start, posn).Good? <==> exists x, post :: WrittenAt(f, start, x, post)
    ensures forall x, post :: WrittenAt(f, start, x, post) ==> ScanDirective(f, start, posn) == Meaning(x, start, posn)
  {
    hide ScanDirective, WellFormed, Render, Meaning;
    forall x, post | WrittenAt(f, start, x, post) ensures ScanDirective(f, start, posn) == Meaning(x, start, posn) && Meaning(x, start, posn).Good? {
      RoundTrip(f, start, x, post, posn);
      MeaningGood(x, start, posn);
    }
    if ScanDirective(f, start, posn).Good? {
      var x, post := AcceptedParts(f, start, posn);
    }
  }

  lemma {:induction false} MeaningGood(x: Form, start: nat, posn: nat)
    requires WellFormed(x)
    ensures Meaning(x, start, posn).Good?
  {
    hide WellFormed;
  }
}
