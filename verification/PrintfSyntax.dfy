/** The syntax of printf directives as intl/printf-parse.c reads it: ISO C99 section 7.19.6.1 with
    the XSI positions "n$", on a platform with 32-bit int, long, pointers and size_t. */
module PrintfSyntax {
  import opened Basics
  import opened PrintfSize

  datatype ArgType =
    | TypeNone | SChar | UChar | Short | UShort | Int | UInt | LongInt | ULongInt | LongLongInt | ULongLongInt
    | Double | LongDouble | Char | WideChar | String | WideString | Pointer
    | CountSChar | CountShort | CountInt | CountLongInt | CountLongLongInt

  datatype Flags = Flags(group: bool, left: bool, showsign: bool, space: bool, alt: bool, zero: bool)

  /** A stretch of the format; the empty one stands for a part that is not there. */
  datatype Span = Span(start: nat, end: nat)

  const NOTHING := Span(0, 0)

  datatype Directive = Directive(dir_start: nat, dir_end: nat, flags: Flags,
                                 width: Span, width_arg: Option<nat>,
                                 precision: Span, precision_arg: Option<nat>,
                                 conversion: char, arg: Option<nat>)

  /** A use of an argument: its position and the type it must have. */
  datatype Ref = Ref(index: nat, kind: ArgType)

  predicate Digits(s: string) { forall i :: 0 <= i < |s| ==> IsDigit(s[i]) }

  function DigitsEnd(f: string, p: nat): (e: nat)
    requires p <= |f|
    ensures p <= e <= |f| && Digits(f[p..e]) && !IsDigit(Peek(f, e))
    decreases |f| - p
  {
    if IsDigit(Peek(f, p)) then
      var e := DigitsEnd(f, p + 1);
      assert f[p..e] == [f[p]] + f[p+1..e];
      e
    else p
  }

  datatype Position = Unnumbered | Wrong | At(index: nat, next: nat)

  /** An optional "n$" at `p`. */
  function Positional(f: string, p: nat): (r: Position)
    requires p <= |f|
    ensures r.At? ==> p < r.next <= |f| && r.index < SIZE_MAX
  {
    var e := DigitsEnd(f, p);
    if e > p && Peek(f, e) == '$' then
      var n := Saturated(DigitsValue(f[p..e]));
      if n == 0 || Overflow(n) then Wrong else At(n - 1, e + 1)
    else Unnumbered
  }

  predicate IsFlag(c: char) { c in "'-+ #0" }

  function FlagsEnd(f: string, p: nat): (e: nat)
    requires p <= |f|
    ensures p <= e <= |f| && !IsFlag(Peek(f, e)) && forall i :: p <= i < e ==> IsFlag(f[i])
    decreases |f| - p
  {
    if IsFlag(Peek(f, p)) then FlagsEnd(f, p + 1) else p
  }

  function FlagsOf(s: string): Flags {
    Flags('\'' in s, '-' in s, '+' in s, ' ' in s, '#' in s, '0' in s)
  }

  /** A width or precision: where it stands, which argument supplies it, and what follows. */
  datatype Field = BadField | Field(span: Span, arg: Option<nat>, next: nat, posn: nat)

  predicate FieldOk(r: Field, f: string, p: nat, posn: nat) {
    r.Field? ==>
      && p <= r.next <= |f|
      && (r.span == NOTHING || (p <= r.span.start < r.span.end <= r.next))
      && posn <= r.posn <= posn + (r.next - p)
      && (r.arg.Some? ==> r.span != NOTHING)
  }

  function ScanStar(f: string, p: nat, span: Span, posn: nat): (r: Field)
    requires p <= |f|
    ensures r.Field? ==> p <= r.next <= |f| && posn <= r.posn <= posn + 1 && r.span == span && r.arg.Some?
  {
    match Positional(f, p)
    case Wrong => BadField
    case At(index, next) => Field(span, Some(index), next, posn)
    case Unnumbered => Field(span, Some(posn), p, posn + 1)
  }

  function ScanWidth(f: string, p: nat, posn: nat): (r: Field)
    requires p <= |f|
    ensures FieldOk(r, f, p, posn)
  {
    if Peek(f, p) == '*' then ScanStar(f, p + 1, Span(p, p + 1), posn)
    else if IsDigit(Peek(f, p)) then Field(Span(p, DigitsEnd(f, p)), None, DigitsEnd(f, p), posn)
    else Field(NOTHING, None, p, posn)
  }

  function ScanPrecision(f: string, p: nat, posn: nat): (r: Field)
    requires p <= |f|
    ensures FieldOk(r, f, p, posn)
  {
    if Peek(f, p) != '.' then Field(NOTHING, None, p, posn)
    else if Peek(f, p + 1) == '*' then ScanStar(f, p + 2, Span(p, p + 2), posn)
    else Field(Span(p, DigitsEnd(f, p + 1)), None, DigitsEnd(f, p + 1), posn)
  }

  predicate IsSize(c: char) { c in "hLljzZt" }

  function SizesEnd(f: string, p: nat): (e: nat)
    requires p <= |f|
    ensures p <= e <= |f| && !IsSize(Peek(f, e)) && forall i :: p <= i < e ==> IsSize(f[i])
    decreases |f| - p
  {
    if IsSize(Peek(f, p)) then SizesEnd(f, p + 1) else p
  }

  /** One size modifier: bit 0 and 1 count "h", bit 2 is "L", and the rest counts "l" and "j". */
  function SizeStep(bits: nat, c: char): nat {
    if c == 'h' then (if bits % 2 == 0 then bits + 1 else if (bits / 2) % 2 == 0 then bits + 2 else bits)
    else if c == 'L' then (if (bits / 4) % 2 == 0 then bits + 4 else bits)
    else if c == 'l' then bits + 8
    else if c == 'j' then bits + 16
    else bits
  }

  function SizeBits(s: string): nat {
    if s == [] then 0 else SizeStep(SizeBits(s[..|s|-1]), s[|s|-1])
  }

  /** The argument type of a conversion; None for an unknown one. */
  function TypeOf(bits: nat, c: char): Option<ArgType> {
    var longlong, long, hh, h := bits >= 16 || (bits / 4) % 2 == 1, bits >= 8, (bits / 2) % 2 == 1, bits % 2 == 1;
    if c in "di" then
      Some(if longlong then LongLongInt else if long then LongInt else if hh then SChar else if h then Short else Int)
    else if c in "ouxX" then
      Some(if longlong then ULongLongInt else if long then ULongInt else if hh then UChar else if h then UShort else UInt)
    else if c in "fFeEgGaA" then Some(if longlong then LongDouble else Double)
    else if c == 'c' then Some(if long then WideChar else Char)
    else if c == 'C' then Some(WideChar)
    else if c == 's' then Some(if long then WideString else String)
    else if c == 'S' then Some(WideString)
    else if c == 'p' then Some(Pointer)
    else if c == 'n' then
      Some(if longlong then CountLongLongInt else if long then CountLongInt else if hh then CountSChar
           else if h then CountShort else CountInt)
    else if c == '%' then Some(TypeNone)
    else None
  }

  /** "%C" and "%S" are other spellings of "%lc" and "%ls". */
  function Plain(c: char): char { if c == 'C' then 'c' else if c == 'S' then 's' else c }

  datatype Scan = Bad | Good(dir: Directive, next: nat, posn: nat, refs: seq<Ref>)

  function IntRef(arg: Option<nat>): seq<Ref> { if arg.Some? then [Ref(arg.value, Int)] else [] }

  /** What comes after the precision: size modifiers and the conversion. */
  function ScanConversion(f: string, start: nat, index: Option<nat>, flags: Flags, w: Field, pr: Field): (r: Scan)
    requires w.Field? && pr.Field? && pr.next <= |f|
    ensures r.Good? ==> pr.next < r.next <= |f| && pr.posn <= r.posn <= pr.posn + 1
  {
    var e := SizesEnd(f, pr.next);
    var c := Peek(f, e);
    match TypeOf(SizeBits(f[pr.next..e]), c)
    case None => Bad
    case Some(kind) =>
      var refs := IntRef(w.arg) + IntRef(pr.arg);
      if kind == TypeNone then
        Good(Directive(start, e + 1, flags, w.span, w.arg, pr.span, pr.arg, c, None), e + 1, pr.posn, refs)
      else
        var arg := if index.Some? then index.value else pr.posn;
        Good(Directive(start, e + 1, flags, w.span, w.arg, pr.span, pr.arg, Plain(c), Some(arg)), e + 1,
             if index.Some? then pr.posn else pr.posn + 1, refs + [Ref(arg, kind)])
  }

  /** A directive whose '%' is at `start`; `posn` arguments have been consumed in order before. */
  function ScanDirective(f: string, start: nat, posn: nat): (r: Scan)
    requires start < |f|
    ensures r.Good? ==> start < r.next <= |f| && posn <= r.posn <= posn + (r.next - start)
  {
    match Positional(f, start + 1)
    case Wrong => Bad
    case Unnumbered => ScanRest(f, start, None, start + 1, posn)
    case At(index, next) => ScanRest(f, start, Some(index), next, posn)
  }

  function ScanRest(f: string, start: nat, index: Option<nat>, q: nat, posn: nat): (r: Scan)
    requires q <= |f|
    ensures r.Good? ==> q < r.next <= |f| && posn <= r.posn <= posn + (r.next - q)
  {
    var fe := FlagsEnd(f, q);
    var w := ScanWidth(f, fe, posn);
    if w.BadField? then Bad
    else
      var pr := ScanPrecision(f, w.next, w.posn);
      if pr.BadField? then Bad else ScanConversion(f, start, index, FlagsOf(f[q..fe]), w, pr)
  }

  /** A whole format from `cp` on: its directives and the arguments they use, in order. */
  datatype Parsed = Fail | Parsed(dirs: seq<Directive>, refs: seq<Ref>)

  function ParseFrom(f: string, cp: nat, posn: nat): Parsed
    requires cp <= |f|
    decreases |f| - cp
  {
    if cp == |f| then Parsed([], [])
    else if f[cp] != '%' then ParseFrom(f, cp + 1, posn)
    else
      match ScanDirective(f, cp, posn)
      case Bad => Fail
      case Good(dir, next, posn', refs) =>
        (match ParseFrom(f, next, posn')
         case Fail => Fail
         case Parsed(ds, rs) => Parsed([dir] + ds, refs + rs))
  }

  function Parse(f: string): Parsed { ParseFrom(f, 0, 0) }

  // Argument types

  /** What REGISTER_ARG does to the table of types; None when two uses disagree. */
  function Register(args: seq<ArgType>, r: Ref): (t: Option<seq<ArgType>>)
    ensures t.Some? ==> |t.value| == if r.index < |args| then |args| else r.index + 1
  {
    var padded := if r.index < |args| then args else args + seq(r.index + 1 - |args|, i => TypeNone);
    if padded[r.index] == TypeNone || padded[r.index] == r.kind then Some(padded[r.index := r.kind]) else None
  }

  function RegisterAll(args: seq<ArgType>, refs: seq<Ref>): Option<seq<ArgType>>
    decreases |refs|
  {
    if refs == [] then Some(args)
    else
      match Register(args, refs[0])
      case None => None
      case Some(t) => RegisterAll(t, refs[1..])
  }

  lemma {:induction false} RegisterMore(args: seq<ArgType>, refs: seq<Ref>, more: seq<Ref>)
    ensures RegisterAll(args, refs + more) ==
      match RegisterAll(args, refs) case None => None case Some(t) => RegisterAll(t, more)
    decreases |refs|
  {
    hide Register;
    if refs == [] {
      assert refs + more == more;
    } else {
      assert (refs + more)[0] == refs[0] && (refs + more)[1..] == refs[1..] + more;
      var t := Register(args, refs[0]);
      if t.Some? {
        RegisterMore(t.value, refs[1..], more);
      }
    }
  }

  predicate Uses(refs: seq<Ref>, n: nat) { exists i :: 0 <= i < |refs| && refs[i].index == n }

  predicate Agrees(refs: seq<Ref>) {
    forall i, j :: 0 <= i < |refs| && 0 <= j < |refs| && refs[i].index == refs[j].index ==> refs[i].kind == refs[j].kind
  }

  predicate Typed(refs: seq<Ref>) { forall i :: 0 <= i < |refs| ==> refs[i].kind != TypeNone }
}
