/** `VASNPRINTF` of intl/vasnprintf.c as a whole: parse the format, fetch the arguments, format. */
module PrintfRun {
  import opened Basics
  import opened PrintfSize
  import opened PrintfSyntax
  import opened PrintfArgs
  import opened PrintfFormat
  import P = PrintfParse
  import T = PrintfText

  // The parsed directives fit their arguments

  /** The uses of a directive's arguments are among `refs`. */
  ghost predicate Covered(d: Directive, refs: seq<Ref>) {
    && (d.width_arg.Some? ==> Ref(d.width_arg.value, Int) in refs)
    && (d.precision_arg.Some? ==> Ref(d.precision_arg.value, Int) in refs)
    && (d.arg.Some? ==> exists k :: Ref(d.arg.value, k) in refs && k != TypeNone && (IsCount(k) <==> d.conversion == 'n'))
    && (d.conversion == '%' <==> d.arg.None?)
  }

  ghost predicate AllCovered(ds: seq<Directive>, refs: seq<Ref>) {
    forall i :: 0 <= i < |ds| ==> Covered(ds[i], refs)
  }

  lemma {:induction false} ConversionKind(bits: nat, c: char)
    requires TypeOf(bits, c).Some?
    ensures var k := TypeOf(bits, c).value; (IsCount(k) <==> Plain(c) == 'n') && (k == TypeNone <==> c == '%') && (c == '%' <==> Plain(c) == '%')
  {
  }

  lemma {:induction false} ConversionCovered(f: string, start: nat, index: Option<nat>, flags: Flags, w: Field, pr: Field)
    requires w.Field? && pr.Field? && pr.next <= |f|
    ensures var s := ScanConversion(f, start, index, flags, w, pr); s.Good? ==> Covered(s.dir, s.refs) && Typed(s.refs)
  {
    hide SizeBits, SizesEnd;
    var e := SizesEnd(f, pr.next);
    var bits, c := SizeBits(f[pr.next..e]), Peek(f, e);
    if TypeOf(bits, c).Some? {
      ConversionKind(bits, c);
      hide TypeOf, Plain, IsCount, Covered, Typed, IntRef;
      var s := ScanConversion(f, start, index, flags, w, pr);
      RefsCover(s.dir, w.arg, pr.arg, TypeOf(bits, c).value);
    }
  }

  lemma {:induction false} RefsCover(d: Directive, w: Option<nat>, pr: Option<nat>, k: ArgType)
    requires d.width_arg == w && d.precision_arg == pr && (k == TypeNone <==> d.arg.None?) && (k == TypeNone <==> d.conversion == '%')
    requires IsCount(k) <==> d.conversion == 'n'
    ensures var refs := IntRef(w) + IntRef(pr) + (if k == TypeNone then [] else [Ref(d.arg.value, k)]);
      Covered(d, refs) && Typed(refs)
    ensures k == TypeNone ==> IntRef(w) + IntRef(pr) + [] == IntRef(w) + IntRef(pr)
  {
    hide IsCount;
    var refs := IntRef(w) + IntRef(pr) + (if k == TypeNone then [] else [Ref(d.arg.value, k)]);
    assert w.Some? ==> refs[0] == Ref(w.value, Int);
    assert pr.Some? ==> refs[|IntRef(w)|] == Ref(pr.value, Int);
    assert k != TypeNone ==> refs[|refs|-1] == Ref(d.arg.value, k);
  }

  lemma {:induction false} DirectiveCovered(f: string, start: nat, posn: nat)
    requires start < |f|
    ensures var s := ScanDirective(f, start, posn); s.Good? ==> Covered(s.dir, s.refs) && Typed(s.refs)
  {
    hide ScanConversion, Covered, Typed, FlagsOf, ScanWidth, ScanPrecision, Positional, FlagsEnd;
    match Positional(f, start + 1)
    case Wrong =>
    case Unnumbered => RestCovered(f, start, None, start + 1, posn);
    case At(index, next) => RestCovered(f, start, Some(index), next, posn);
  }

  lemma {:induction false} RestCovered(f: string, start: nat, index: Option<nat>, q: nat, posn: nat)
    requires q <= |f|
    ensures var s := ScanRest(f, start, index, q, posn); s.Good? ==> Covered(s.dir, s.refs) && Typed(s.refs)
  {
    hide ScanConversion, Covered, Typed, FlagsOf, ScanWidth, ScanPrecision, Positional, FlagsEnd;
    var fe := FlagsEnd(f, q);
    var w := ScanWidth(f, fe, posn);
    if w.Field? {
      var pr := ScanPrecision(f, w.next, w.posn);
      if pr.Field? {
        ConversionCovered(f, start, index, FlagsOf(f[q..fe]), w, pr);
      }
    }
  }

  lemma {:induction false} CoveredMore(d: Directive, a: seq<Ref>, refs: seq<Ref>)
    requires Covered(d, a) && forall r :: r in a ==> r in refs
    ensures Covered(d, refs)
  {
    if d.arg.Some? {
      var k :| Ref(d.arg.value, k) in a && k != TypeNone && (IsCount(k) <==> d.conversion == 'n');
      assert Ref(d.arg.value, k) in refs;
    }
  }

  lemma {:induction false} ParseCovered(f: string, cp: nat, posn: nat)
    requires cp <= |f|
    ensures var p := ParseFrom(f, cp, posn); p.Parsed? ==> Typed(p.refs) && AllCovered(p.dirs, p.refs)
    decreases |f| - cp
  {
    hide ScanDirective, Covered;
    if cp < |f| {
      if f[cp] != '%' {
        ParseCovered(f, cp + 1, posn);
      } else {
        DirectiveCovered(f, cp, posn);
        var s := ScanDirective(f, cp, posn);
        if s.Good? {
          ParseCovered(f, s.next, s.posn);
          var rest, p := ParseFrom(f, s.next, s.posn), ParseFrom(f, cp, posn);
          if rest.Parsed? {
            assert p.refs == s.refs + rest.refs && p.dirs == [s.dir] + rest.dirs;
            forall i | 0 <= i < |p.dirs| ensures Covered(p.dirs[i], p.refs) {
              CoveredMore(p.dirs[i], if i == 0 then s.refs else rest.refs, p.refs);
            }
          }
        }
      }
    }
  }

  lemma {:induction false} CoveredMatches(d: Directive, refs: seq<Ref>, t: seq<ArgType>)
    requires Covered(d, refs) && Table(t, refs)
    ensures Matched(d, t)
  {
    forall r | r in refs ensures r.index < |t| && t[r.index] == r.kind {
      var i :| 0 <= i < |refs| && refs[i] == r;
    }
  }

  /** The abort calls of the formatting loop are unreachable: every directive of a parsed format
      finds its arguments in the table with the types it needs. */
  lemma {:induction false} ParsedMatches(f: string, t: seq<ArgType>)
    requires Parse(f).Parsed? && RegisterAll([], Parse(f).refs) == Some(t)
    ensures AllMatched(Parse(f).dirs, t)
  {
    hide Matched, Table, Covered, ParseFrom, RegisterAll;
    var p := Parse(f);
    ParseCovered(f, 0, 0);
    RegisterMeans(p.refs);
    forall i | 0 <= i < |p.dirs| ensures Matched(p.dirs[i], t) {
      CoveredMatches(p.dirs[i], p.refs, t);
    }
  }

  lemma {:induction false} TiledOrder(f: string, cp: nat, ds: seq<Directive>)
    requires cp <= |f| && T.Tiled(f, cp, ds)
    ensures InOrder(f, ds) && (|ds| > 0 ==> cp <= ds[0].dir_start)
    decreases |ds|
  {
    hide T.NoPercent, Plain;
    if ds != [] {
      var rest := ds[1..];
      TiledOrder(f, ds[0].dir_end, rest);
      assert forall i :: 0 < i < |ds| ==> ds[i] == rest[i-1];
    }
  }

  lemma {:induction false} ParsedOrder(f: string)
    requires Parse(f).Parsed?
    ensures InOrder(f, Parse(f).dirs)
  {
    hide InOrder, T.Tiled, ParseFrom;
    T.ParseTiles(f, 0, 0, 0);
    TiledOrder(f, 0, Parse(f).dirs);
  }

  lemma {:induction false} LongestWidth(ds: seq<Directive>, i: nat)
    requires i < |ds| && forall k :: 0 <= k < |ds| ==> ds[k].width.start <= ds[k].width.end && ds[k].precision.start <= ds[k].precision.end
    ensures ds[i].width.end - ds[i].width.start <= P.MaxWidth(ds)
    ensures ds[i].precision.end - ds[i].precision.start <= P.MaxPrecision(ds)
    decreases |ds|
  {
    if i < |ds| - 1 {
      LongestWidth(ds[..|ds|-1], i);
    }
  }

  /** The directive buffer is large enough for every directive. */
  lemma {:induction false} BufferFits(f: string, ds: seq<Directive>, n: nat)
    requires InOrder(f, ds) && n == 7 + P.MaxWidth(ds) + P.MaxPrecision(ds) + 6
    ensures forall i :: 0 <= i < |ds| ==> n >= 7 + (ds[i].width.end - ds[i].width.start) + (ds[i].precision.end - ds[i].precision.start) + 6
  {
    forall i | 0 <= i < |ds|
      ensures n >= 7 + (ds[i].width.end - ds[i].width.start) + (ds[i].precision.end - ds[i].precision.start) + 6
    {
      LongestWidth(ds, i);
    }
  }

  // The function itself

  datatype Result = Success(result: array<char>, length: nat, counts: seq<(nat, nat)>) | Invalid | OutOfMemory

  function Fetched(t: seq<ArgType>, va: seq<int>): (a: seq<Argument>)
    requires |va| >= |t|
    ensures Kinds(a) == t && |a| == |t|
  {
    seq(|t|, i requires 0 <= i < |t| => Argument(t[i], va[i]))
  }

  ghost predicate NoGap(f: string)
    requires Parse(f).Parsed?
  {
    var refs := Parse(f).refs;
    forall i, n :: 0 <= i < |refs| && 0 <= n < refs[i].index ==> Uses(refs, n)
  }

  lemma {:induction false} GapFree(f: string, t: seq<ArgType>)
    requires Parse(f).Parsed? && RegisterAll([], Parse(f).refs) == Some(t)
    ensures (forall n :: 0 <= n < |t| ==> t[n] != TypeNone) <==> NoGap(f)
  {
    hide ParseFrom, RegisterAll;
    var refs := Parse(f).refs;
    ParseCovered(f, 0, 0);
    NoGaps(t, refs);
    if NoGap(f) {
      forall n | 0 <= n < |t| ensures Uses(refs, n) {
        var i :| 0 <= i < |refs| && refs[i].index == |t| - 1;
      }
    }
  }

  /** `VASNPRINTF`, with as many arguments as the format asks for.  It succeeds with the text the
      format means; it reports an invalid format only when the format is rejected by the parser or
      leaves an argument position unused, and always in the latter case; and it runs out of memory
      only for an argument that cannot be formatted or a format or an output of 256 MB or more. */
  method Vasnprintf(f: string, va: seq<int>, resultbuf: array<char>, lengthp: nat, produce: Producer, host: Host) returns (r: Result)
    requires |f| < SIZE_MAX && lengthp <= resultbuf.Length && lengthp < SIZE_MAX
    requires Parse(f).Parsed? && RegisterAll([], Parse(f).refs).Some? ==> |va| >= |RegisterAll([], Parse(f).refs).value|
    requires Truthful(host)
    modifies resultbuf
    ensures r.Success? ==>
      && Parse(f).Parsed? && RegisterAll([], Parse(f).refs).Some? && NoGap(f)
      && var ds, args := Parse(f).dirs, Fetched(RegisterAll([], Parse(f).refs).value, va);
      && InOrder(f, ds) && AllMatched(ds, Kinds(args))
      && r.length < r.result.Length && Some(r.result[..r.length]) == Formatted(f, ds, args, produce) && r.result[r.length] == '\0'
      && Upto(f, ds, args, produce, |ds|).Some? && r.counts == Counts(f, ds, args, produce, |ds|)
    ensures resultbuf[lengthp..] == old(resultbuf[lengthp..])
    ensures r.Invalid? ==> P.Rejected(Parse(f)) || !NoGap(f)
    ensures r.OutOfMemory? ==>
      && Parse(f).Parsed? && RegisterAll([], Parse(f).refs).Some? && NoGap(f)
      && var ds, args := Parse(f).dirs, Fetched(RegisterAll([], Parse(f).refs).value, va);
      && InOrder(f, ds) && AllMatched(ds, Kinds(args))
      && (Helpful(host) ==> |f| >= LIMIT || Excused(Formatted(f, ds, args, produce), lengthp))
  {
    hide ParseFrom, RegisterAll, P.Rejected, InOrder, AllMatched, Formatted, Upto, Counts, P.MaxWidth, P.MaxPrecision, P.Failing, Excused;
    hide NoGap, Truthful, Helpful;
    var d := new P.Directives();
    var a := new P.Arguments();
    var ret := P.PrintfParse(f, d, a);
    if ret < 0 {
      return Invalid;
    }
    ghost var p := Parse(f);
    var types := a.arg[..a.count];
    GapFree(f, types);
    var args;
    ret, args := FetchArgs(types, va);
    if ret < 0 {
      return Invalid;
    }
    assert args == Fetched(types, va);
    var ds := d.dir[..d.count];
    ParsedOrder(f);
    ParsedMatches(f, types);
    SpansShort(f, ds);
    var buf_neededlength := Xsum4(7, d.max_width_length, d.max_precision_length, 6);
    if buf_neededlength == SIZE_MAX {
      return OutOfMemory;
    }
    BufferFits(f, ds, buf_neededlength);
    var buf := new char[buf_neededlength];
    var ok, result, length, counts := FormatAll(buf, resultbuf, lengthp, f, ds, args, produce, host);
    r := if ok then Success(result, length, counts) else OutOfMemory;
  }

  lemma {:induction false} SpansShort(f: string, ds: seq<Directive>)
    requires InOrder(f, ds)
    ensures P.MaxWidth(ds) <= |f| && P.MaxPrecision(ds) <= |f|
    decreases |ds|
  {
    if ds != [] {
      SpansShort(f, ds[..|ds|-1]);
    }
  }
}
