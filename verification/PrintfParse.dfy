/** `PRINTF_PARSE` of intl/printf-parse.c: a cursor over the format, and two arrays that grow. */
module PrintfParse {
  import opened Basics
  import opened PrintfSize
  import opened PrintfSyntax

  const ARGUMENT_SIZE := 16
  const DIRECTIVE_SIZE := 44

  // Scanning loops

  method SkipDigits(f: string, p: nat) returns (e: nat)
    requires p <= |f|
    ensures e == DigitsEnd(f, p)
  {
    e := p;
    while IsDigit(Peek(f, e))
      invariant p <= e <= |f| && DigitsEnd(f, e) == DigitsEnd(f, p)
      decreases |f| - e
    {
      e := e + 1;
    }
  }

  lemma {:induction false} DigitsNext(f: string, p: nat)
    requires p <= |f|
    ensures if IsDigit(Peek(f, p)) then p < |f| && f[p] == Peek(f, p) && DigitsEnd(f, p) == DigitsEnd(f, p + 1) else DigitsEnd(f, p) == p
  {
  }

  /** The value of a run of digits, capped at SIZE_MAX. */
  method ReadNumber(f: string, p: nat) returns (n: Size)
    requires p <= |f|
    ensures n == Saturated(DigitsValue(f[p..DigitsEnd(f, p)]))
  {
    var np := p;
    n := 0;
    ghost var e := DigitsEnd(f, p);
    assert f[p..p] == [] && Saturated(DigitsValue([])) == 0;
    hide DigitsValue, Saturated, Xsum, Xtimes, DigitsEnd, Peek;
    DigitsNext(f, np);
    ghost var s: string := [];
    while IsDigit(Peek(f, np))
      invariant p <= np <= e && DigitsEnd(f, np) == e && s == f[p..np]
      invariant n == Saturated(DigitsValue(s))
      decreases |f| - np
    {
      DigitsNext(f, np);
      DigitStep(s, f[np]);
      s := s + [f[np]];
      n := Xsum(Xtimes(n, 10), Digit(f[np]));
      np := np + 1;
      DigitsNext(f, np);
    }
  }

  method ReadPosition(f: string, p: nat) returns (r: Position)
    requires p <= |f|
    ensures r == Positional(f, p)
  {
    r := Unnumbered;
    if IsDigit(Peek(f, p)) {
      var np := SkipDigits(f, p);
      if Peek(f, np) == '$' {
        var n := ReadNumber(f, p);
        if n == 0 {
          return Wrong;
        }
        if Overflow(n) {
          return Wrong;
        }
        r := At(n - 1, np + 1);
      }
    }
  }

  /** One flag character more. */
  function AddFlag(a: Flags, c: char): Flags {
    Flags(a.group || c == '\'', a.left || c == '-', a.showsign || c == '+', a.space || c == ' ', a.alt || c == '#', a.zero || c == '0')
  }

  lemma {:induction false} FlagMore(s: string, c: char)
    ensures FlagsOf(s + [c]) == AddFlag(FlagsOf(s), c)
  {
  }

  method ReadFlag(was: Flags, c: char) returns (more: bool, flags: Flags)
    ensures more == IsFlag(c)
    ensures more ==> flags == AddFlag(was, c)
  {
    flags, more := was, true;
    if c == '\'' {
      flags := flags.(group := true);
    } else if c == '-' {
      flags := flags.(left := true);
    } else if c == '+' {
      flags := flags.(showsign := true);
    } else if c == ' ' {
      flags := flags.(space := true);
    } else if c == '#' {
      flags := flags.(alt := true);
    } else if c == '0' {
      flags := flags.(zero := true);
    } else {
      more := false;
    }
  }

  method ReadFlags(f: string, q: nat) returns (flags: Flags, e: nat)
    requires q <= |f|
    ensures e == FlagsEnd(f, q) && flags == FlagsOf(f[q..e])
  {
    flags, e := Flags(false, false, false, false, false, false), q;
    assert FlagsOf(f[q..q]) == flags;
    hide FlagsOf, AddFlag, IsFlag;
    ghost var s: string := [];
    while true
      invariant q <= e <= |f| && FlagsEnd(f, e) == FlagsEnd(f, q) && s == f[q..e] && flags == FlagsOf(s)
      decreases |f| - e
    {
      var more, next := ReadFlag(flags, Peek(f, e));
      assert IsFlag('\0') == false by { NulIsNoFlag(); }
      if !more {
        break;
      }
      FlagMore(s, f[e]);
      s := s + [f[e]];
      flags, e := next, e + 1;
    }
  }

  lemma {:induction false} NulIsNoFlag()
    ensures !IsFlag('\0') && !IsSize('\0')
  {
  }

  lemma {:induction false} SizeMore(s: string, c: char)
    ensures SizeBits(s + [c]) == SizeStep(SizeBits(s), c)
  {
    assert (s + [c])[..|s|] == s;
  }

  method ReadSizes(f: string, p: nat) returns (flags: nat, e: nat)
    requires p <= |f|
    ensures e == SizesEnd(f, p) && flags == SizeBits(f[p..e])
  {
    flags, e := 0, p;
    assert SizeBits(f[p..p]) == 0;
    hide SizeBits, SizeStep;
    ghost var s: string := [];
    while true
      invariant p <= e <= |f| && SizesEnd(f, e) == SizesEnd(f, p) && s == f[p..e] && flags == SizeBits(s)
      decreases |f| - e
    {
      var c := Peek(f, e);
      if !IsSize(c) {
        break;
      }
      SizeMore(s, c);
      s := s + [c];
      flags := SizeStep(flags, c);
      e := e + 1;
    }
  }

  // Argument table

  /** An argument position for which the table would not fit into memory. */
  predicate Huge(n: nat) { 2 * (n + 1) * ARGUMENT_SIZE >= SIZE_MAX }

  /** The size of the table overflows when one of `capacity` entries grows to hold position `n`. */
  predicate TooFar(capacity: nat, n: nat) {
    n >= capacity && (if 2 * capacity <= n then n + 1 else 2 * capacity) * ARGUMENT_SIZE >= SIZE_MAX
  }

  predicate AnyHuge(refs: seq<Ref>) { exists i :: 0 <= i < |refs| && Huge(refs[i].index) }

  function Padded(s: seq<ArgType>, n: nat): (r: seq<ArgType>)
    requires |s| <= n
    ensures |r| == n
  {
    s + seq(n - |s|, i => TypeNone)
  }

  /** `arguments`: `count` entries of `arg` are in use. */
  class Arguments {
    var count: nat
    var arg: array<ArgType>

    ghost predicate Valid()
      reads this
    {
      count <= arg.Length <= 2 * count && arg.Length <= SIZE_MAX
    }

    ghost function Types(): seq<ArgType>
      requires Valid()
      reads this, arg
    {
      arg[..count]
    }

    constructor ()
      ensures Valid() && Types() == [] && fresh(arg)
    {
      count := 0;
      arg := new ArgType[0];
    }

    /** The allocation part of REGISTER_ARG: room for position `n`, or a size that overflows. */
    method Reserve(n: Size) returns (ok: bool)
      requires Valid() && n < SIZE_MAX
      modifies `arg
      ensures (arg == old(arg) || fresh(arg)) && count <= arg.Length <= SIZE_MAX
      ensures arg[..count] == old(arg[..count])
      ensures ok ==> n < arg.Length && (arg.Length <= 2 * count || arg.Length <= 2 * (n + 1))
      ensures !ok ==> Huge(n) && Valid()
      ensures !ok <==> TooFar(old(arg.Length), n)
    {
      ok := true;
      if n >= arg.Length {
        var a_allocated := Xtimes(arg.Length, 2);
        if a_allocated <= n {
          a_allocated := Xsum(n, 1);
        }
        var memory_size := Xtimes(a_allocated, ARGUMENT_SIZE);
        if Overflow(memory_size) {
          return false;
        }
        var memory := new ArgType[a_allocated];
        forall i | 0 <= i < count {
          memory[i] := arg[i];
        }
        arg := memory;
      }
    }

    /** Mark the positions up to `n` that are new as untyped. */
    method Pad(n: Size)
      requires count <= arg.Length && n < arg.Length
      modifies `count, arg
      ensures count == (if n < old(count) then old(count) else n + 1) && count <= arg.Length
      ensures arg[..count] == Padded(old(arg[..count]), count)
    {
      ghost var was := arg[..count];
      while count <= n
        invariant |was| <= count <= arg.Length && (count == |was| || count <= n + 1)
        invariant arg[..count] == Padded(was, count)
        decreases n + 1 - count
      {
        arg[count] := TypeNone;
        count := count + 1;
        assert arg[..count] == arg[..count-1] + [TypeNone];
      }
    }

    /** REGISTER_ARG. */
    method Use(n: Size, kind: ArgType) returns (ok: bool)
      requires Valid() && n < SIZE_MAX
      modifies this, arg
      ensures Valid() && (arg == old(arg) || fresh(arg))
      ensures ok ==> Register(old(Types()), Ref(n, kind)) == Some(Types())
      ensures !ok <==> Register(old(Types()), Ref(n, kind)) == None || TooFar(old(arg.Length), n)
      ensures !ok ==> Register(old(Types()), Ref(n, kind)) == None || Huge(n)
    {
      ghost var was := Types();
      assert n >= |was| ==> Register(was, Ref(n, kind)).Some?;
      ok := Reserve(n);
      if !ok {
        return;
      }
      Pad(n);
      ghost var padded := arg[..count];
      RegisterIs(was, padded, Ref(n, kind));
      if arg[n] == TypeNone {
        arg[n] := kind;
        assert arg[..count] == padded[n := kind];
      } else if arg[n] != kind {
        return false;
      } else {
        assert padded[n := kind] == padded;
      }
    }
  }

  lemma {:induction false} RegisterIs(was: seq<ArgType>, padded: seq<ArgType>, r: Ref)
    requires |padded| == (if r.index < |was| then |was| else r.index + 1) && padded == Padded(was, |padded|)
    ensures Register(was, r) ==
      if padded[r.index] == TypeNone || padded[r.index] == r.kind then Some(padded[r.index := r.kind]) else None
  {
    assert r.index < |was| ==> padded == was;
  }

  // One directive

  /** Parsing must fail: bad syntax, an argument used with two types, or one too far out. */
  predicate Failing(types: seq<ArgType>, refs: seq<Ref>) {
    RegisterAll(types, refs).None? || AnyHuge(refs)
  }

  /** The table after registering `refs`, or a reason to fail. */
  predicate Registered(ok: bool, was: seq<ArgType>, refs: seq<Ref>, types: seq<ArgType>) {
    if ok then RegisterAll(was, refs) == Some(types) else Failing(was, refs)
  }

  lemma {:induction false} RegisteredOne(was: seq<ArgType>, r: Ref, types: seq<ArgType>, ok: bool)
    requires if ok then Register(was, r) == Some(types) else Register(was, r).None? || Huge(r.index)
    ensures Registered(ok, was, [r], types)
  {
    assert [r][0] == r && [r][1..] == [];
  }

  lemma {:induction false} RegisteredMore(was: seq<ArgType>, a: seq<Ref>, mid: seq<ArgType>, b: seq<Ref>, types: seq<ArgType>, ok: bool)
    requires Registered(true, was, a, mid) && Registered(ok, mid, b, types)
    ensures Registered(ok, was, a + b, types)
  {
    hide Huge, RegisterAll;
    RegisterMore(was, a, b);
    if AnyHuge(b) {
      var i :| 0 <= i < |b| && Huge(b[i].index);
      assert (a + b)[|a|+i] == b[i];
    }
  }

  lemma {:induction false} FailingMore(was: seq<ArgType>, a: seq<Ref>, b: seq<Ref>)
    requires Failing(was, a)
    ensures Failing(was, a + b)
  {
    hide Huge, RegisterAll;
    RegisterMore(was, a, b);
    if AnyHuge(a) {
      var i :| 0 <= i < |a| && Huge(a[i].index);
      assert (a + b)[i] == a[i];
    }
  }

  /** "*" with an optional position, as width or precision. */
  method ReadStar(f: string, p: nat, span: Span, posn: nat, a: Arguments) returns (ok: bool, r: Field)
    requires p <= |f| && posn < SIZE_MAX && a.Valid()
    modifies a, a.arg
    ensures a.Valid() && (a.arg == old(a.arg) || fresh(a.arg))
    ensures r == ScanStar(f, p, span, posn)
    ensures r.BadField? ==> !ok
    ensures r.Field? ==> Registered(ok, old(a.Types()), IntRef(r.arg), a.Types())
  {
    hide Registered, Register;
    ghost var was := a.Types();
    var at := ReadPosition(f, p);
    match at {
      case Wrong =>
        return false, BadField;
      case At(index, next) =>
        ok := a.Use(index, Int);
        r := Field(span, Some(index), next, posn);
      case Unnumbered =>
        ok := a.Use(posn, Int);
        r := Field(span, Some(posn), p, posn + 1);
    }
    RegisteredOne(was, Ref(r.arg.value, Int), a.Types(), ok);
  }

  lemma {:induction false} RegisteredNone(was: seq<ArgType>)
    ensures Registered(true, was, [], was)
  {
  }

  method ReadWidth(f: string, p: nat, posn: nat, a: Arguments) returns (ok: bool, r: Field)
    requires p <= |f| && posn < SIZE_MAX && a.Valid()
    modifies a, a.arg
    ensures a.Valid() && (a.arg == old(a.arg) || fresh(a.arg))
    ensures r == ScanWidth(f, p, posn)
    ensures r.BadField? ==> !ok
    ensures r.Field? ==> Registered(ok, old(a.Types()), IntRef(r.arg), a.Types())
  {
    hide Registered;
    RegisteredNone(a.Types());
    if Peek(f, p) == '*' {
      ok, r := ReadStar(f, p + 1, Span(p, p + 1), posn, a);
    } else if IsDigit(Peek(f, p)) {
      var e := SkipDigits(f, p);
      ok, r := true, Field(Span(p, e), None, e, posn);
    } else {
      ok, r := true, Field(NOTHING, None, p, posn);
    }
  }

  method ReadPrecision(f: string, p: nat, posn: nat, a: Arguments) returns (ok: bool, r: Field)
    requires p <= |f| && posn < SIZE_MAX && a.Valid()
    modifies a, a.arg
    ensures a.Valid() && (a.arg == old(a.arg) || fresh(a.arg))
    ensures r == ScanPrecision(f, p, posn)
    ensures r.BadField? ==> !ok
    ensures r.Field? ==> Registered(ok, old(a.Types()), IntRef(r.arg), a.Types())
  {
    hide Registered;
    RegisteredNone(a.Types());
    if Peek(f, p) == '.' {
      if Peek(f, p + 1) == '*' {
        ok, r := ReadStar(f, p + 2, Span(p, p + 2), posn, a);
      } else {
        var e := SkipDigits(f, p + 1);
        ok, r := true, Field(Span(p, e), None, e, posn);
      }
    } else {
      ok, r := true, Field(NOTHING, None, p, posn);
    }
  }

  method ReadConversion(f: string, start: nat, index: Option<nat>, flags: Flags, w: Field, pr: Field, a: Arguments)
      returns (ok: bool, s: Scan, tail: seq<Ref>)
    requires w.Field? && pr.Field? && pr.next <= |f| && pr.posn < SIZE_MAX && a.Valid()
    requires index.Some? ==> index.value < SIZE_MAX
    modifies a, a.arg
    ensures a.Valid() && (a.arg == old(a.arg) || fresh(a.arg))
    ensures s == ScanConversion(f, start, index, flags, w, pr)
    ensures s.Bad? ==> !ok
    ensures s.Good? ==> s.refs == IntRef(w.arg) + IntRef(pr.arg) + tail && Registered(ok, old(a.Types()), tail, a.Types())
  {
    hide Registered, Register, SizeBits;
    ghost var was := a.Types();
    RegisteredNone(was);
    tail := [];
    var bits, e := ReadSizes(f, pr.next);
    var c := Peek(f, e);
    var kind := TypeOf(bits, c);
    hide TypeOf;
    if kind.None? {
      return false, Bad, [];
    }
    ok := true;
    var arg: Option<nat>, posn := None, pr.posn;
    if kind.value != TypeNone {
      arg := index;
      if arg.None? {
        arg := Some(posn);
        posn := posn + 1;
      }
      ok := a.Use(arg.value, kind.value);
      tail := [Ref(arg.value, kind.value)];
      RegisteredOne(was, Ref(arg.value, kind.value), a.Types(), ok);
    }
    s := Good(Directive(start, e + 1, flags, w.span, w.arg, pr.span, pr.arg, if kind.value == TypeNone then c else Plain(c), arg),
              e + 1, posn, IntRef(w.arg) + IntRef(pr.arg) + tail);
  }

  /** A directive from its '%' at `start`: what it is and its arguments' types, or a failure. */
  method ReadDirective(f: string, start: nat, posn: nat, a: Arguments) returns (ok: bool, s: Scan)
    requires start < |f| < SIZE_MAX && posn <= start && a.Valid()
    modifies a, a.arg
    ensures a.Valid() && (a.arg == old(a.arg) || fresh(a.arg))
    ensures ok ==> s.Good? && s == ScanDirective(f, start, posn) && Registered(true, old(a.Types()), s.refs, a.Types())
    ensures !ok ==> var t := ScanDirective(f, start, posn); t.Bad? || Failing(old(a.Types()), t.refs)
  {
    var cp, index := start + 1, None;
    var at := ReadPosition(f, cp);
    if at.Wrong? {
      return false, Bad;
    }
    if at.At? {
      index, cp := Some(at.index), at.next;
    }
    ok, s := ReadRest(f, start, index, cp, posn, a);
  }

  method ReadRest(f: string, start: nat, index: Option<nat>, q: nat, posn: nat, a: Arguments) returns (ok: bool, s: Scan)
    requires start < q <= |f| < SIZE_MAX && posn <= start && a.Valid() && (index.Some? ==> index.value < SIZE_MAX)
    modifies a, a.arg
    ensures a.Valid() && (a.arg == old(a.arg) || fresh(a.arg))
    ensures ok ==> s.Good? && s == ScanRest(f, start, index, q, posn) && Registered(true, old(a.Types()), s.refs, a.Types())
    ensures !ok ==> var t := ScanRest(f, start, index, q, posn); t.Bad? || Failing(old(a.Types()), t.refs)
  {
    hide Registered, Failing, ScanWidth, ScanPrecision, FlagsOf;
    hide ScanConversion;
    ghost var was := a.Types();
    var flags, fe := ReadFlags(f, q);
    var w, pr;
    s := Bad;
    ok, w := ReadWidth(f, fe, posn, a);
    if !ok {
      WidthFails(f, start, index, q, posn, was, a.Types());
      return;
    }
    ghost var mid := a.Types();
    ok, pr := ReadPrecision(f, w.next, w.posn, a);
    if !ok {
      PrecisionFails(f, start, index, q, posn, was, mid, a.Types());
      return;
    }
    ghost var late := a.Types();
    RegisteredMore(was, IntRef(w.arg), mid, IntRef(pr.arg), late, true);
    var tail;
    ok, s, tail := ReadConversion(f, start, index, flags, w, pr, a);
    if s.Good? {
      RegisteredMore(was, IntRef(w.arg) + IntRef(pr.arg), late, tail, a.Types(), ok);
      if !ok {
        assert Failing(was, s.refs) by { RegisteredFails(was, s.refs, a.Types()); }
      }
    }
  }

  lemma {:induction false} RegisteredFails(was: seq<ArgType>, refs: seq<Ref>, types: seq<ArgType>)
    requires Registered(false, was, refs, types)
    ensures Failing(was, refs)
  {
  }

  lemma {:induction false} WidthFails(f: string, start: nat, index: Option<nat>, q: nat, posn: nat, was: seq<ArgType>, types: seq<ArgType>)
    requires q <= |f|
    requires var w := ScanWidth(f, FlagsEnd(f, q), posn); w.Field? ==> Registered(false, was, IntRef(w.arg), types)
    ensures var t := ScanRest(f, start, index, q, posn); t.Bad? || Failing(was, t.refs)
  {
    hide Failing, ScanWidth, ScanPrecision, FlagsOf, TypeOf;
    var w, t := ScanWidth(f, FlagsEnd(f, q), posn), ScanRest(f, start, index, q, posn);
    if t.Good? {
      RegisteredFails(was, IntRef(w.arg), types);
      assert t.refs == IntRef(w.arg) + t.refs[|IntRef(w.arg)|..];
      FailingMore(was, IntRef(w.arg), t.refs[|IntRef(w.arg)|..]);
    }
  }

  lemma {:induction false} PrecisionFails(f: string, start: nat, index: Option<nat>, q: nat, posn: nat,
                                          was: seq<ArgType>, mid: seq<ArgType>, types: seq<ArgType>)
    requires q <= |f|
    requires var w := ScanWidth(f, FlagsEnd(f, q), posn);
      && w.Field? && Registered(true, was, IntRef(w.arg), mid)
      && var pr := ScanPrecision(f, w.next, w.posn); pr.Field? ==> Registered(false, mid, IntRef(pr.arg), types)
    ensures var t := ScanRest(f, start, index, q, posn); t.Bad? || Failing(was, t.refs)
  {
    hide Failing, Registered, ScanWidth, ScanPrecision, FlagsOf, TypeOf;
    var w, t := ScanWidth(f, FlagsEnd(f, q), posn), ScanRest(f, start, index, q, posn);
    var pr := ScanPrecision(f, w.next, w.posn);
    if t.Good? {
      RegisteredMore(was, IntRef(w.arg), mid, IntRef(pr.arg), types, false);
      var head := IntRef(w.arg) + IntRef(pr.arg);
      RegisteredFails(was, head, types);
      assert t.refs == head + t.refs[|head|..];
      FailingMore(was, head, t.refs[|head|..]);
    }
  }

  // The whole format

  function Longer(n: nat, s: Span): nat { if s.end >= s.start && s.end - s.start > n then s.end - s.start else n }

  function MaxWidth(ds: seq<Directive>): nat {
    if ds == [] then 0 else Longer(MaxWidth(ds[..|ds|-1]), ds[|ds|-1].width)
  }

  function MaxPrecision(ds: seq<Directive>): nat {
    if ds == [] then 0 else Longer(MaxPrecision(ds[..|ds|-1]), ds[|ds|-1].precision)
  }

  predicate TooMany(n: nat) { 2 * n * DIRECTIVE_SIZE >= SIZE_MAX }

  /** `char_directives`: the first `count` elements of `dir` are the directives found so far. */
  class Directives {
    var count: nat
    var dir: array<Directive>
    var max_width_length: nat
    var max_precision_length: nat

    /** There is always room for the directive that is being read. */
    ghost predicate Valid()
      reads this
    {
      count < dir.Length <= SIZE_MAX
    }

    ghost function Found(): seq<Directive>
      requires Valid()
      reads this, dir
    {
      dir[..count]
    }

    ghost predicate Measured()
      requires Valid()
      reads this, dir
    {
      max_width_length == MaxWidth(Found()) && max_precision_length == MaxPrecision(Found())
    }

    constructor ()
      ensures Valid() && Found() == [] && fresh(dir) && max_width_length == max_precision_length == 0
    {
      count := 0;
      dir := new Directive[1];
      max_width_length, max_precision_length := 0, 0;
    }

    /** Take over the directive just read, and double the array when that was its last place. */
    method Append(dp: Directive) returns (ok: bool)
      requires Valid() && Measured()
      modifies this, dir
      ensures dir == old(dir) || fresh(dir)
      ensures ok ==> Valid() && Measured() && Found() == old(Found()) + [dp]
      ensures !ok ==> TooMany(old(count) + 1)
    {
      ghost var was := Found();
      assert (was + [dp])[..|was|] == was;
      dir[count] := dp;
      max_width_length := Longer(max_width_length, dp.width);
      max_precision_length := Longer(max_precision_length, dp.precision);
      count := count + 1;
      assert dir[..count] == was + [dp];
      ok := true;
      if count >= dir.Length {
        var d_allocated := Xtimes(dir.Length, 2);
        var memory_size := Xtimes(d_allocated, DIRECTIVE_SIZE);
        if Overflow(memory_size) {
          return false;
        }
        var memory := new Directive[d_allocated];
        forall i | 0 <= i < count {
          memory[i] := dir[i];
        }
        dir := memory;
        assert dir[..count] == was + [dp];
      }
    }
  }

  /** The directives and uses found so far, and what follows. */
  function Prepend(ds: seq<Directive>, rs: seq<Ref>, p: Parsed): Parsed {
    if p.Fail? then Fail else Parsed(ds + p.dirs, rs + p.refs)
  }

  lemma {:induction false} PrependStep(f: string, cp: nat, posn: nat, ds: seq<Directive>, rs: seq<Ref>)
    requires cp < |f|
    ensures f[cp] != '%' ==> Prepend(ds, rs, ParseFrom(f, cp, posn)) == Prepend(ds, rs, ParseFrom(f, cp + 1, posn))
    ensures f[cp] == '%' ==>
      match ScanDirective(f, cp, posn)
      case Bad => Prepend(ds, rs, ParseFrom(f, cp, posn)) == Fail
      case Good(dir, next, posn', refs) =>
        Prepend(ds, rs, ParseFrom(f, cp, posn)) == Prepend(ds + [dir], rs + refs, ParseFrom(f, next, posn'))
  {
    hide ScanDirective;
    if f[cp] == '%' {
      match ScanDirective(f, cp, posn)
      case Bad =>
      case Good(dir, next, posn', refs) =>
        var p := ParseFrom(f, next, posn');
        if p.Parsed? {
          assert ds + ([dir] + p.dirs) == (ds + [dir]) + p.dirs;
          assert rs + (refs + p.refs) == (rs + refs) + p.refs;
        }
    }
  }

  /** Why a format is rejected. */
  predicate Rejected(p: Parsed) {
    p.Fail? || Failing([], p.refs) || TooMany(|p.dirs|)
  }

  lemma {:induction false} RejectedBy(f: string, cp: nat, posn: nat, ds: seq<Directive>, rs: seq<Ref>, types: seq<ArgType>)
    requires cp < |f| && f[cp] == '%' && RegisterAll([], rs) == Some(types)
    requires var t := ScanDirective(f, cp, posn); t.Bad? || Failing(types, t.refs)
    ensures Rejected(Prepend(ds, rs, ParseFrom(f, cp, posn)))
  {
    hide ScanDirective, RegisterAll, ParseFrom;
    PrependStep(f, cp, posn, ds, rs);
    var t := ScanDirective(f, cp, posn);
    if t.Good? {
      RegisteredMore([], rs, types, t.refs, types, false);
      var p := ParseFrom(f, t.next, t.posn);
      if p.Parsed? {
        RegisteredFails([], rs + t.refs, types);
        FailingMore([], rs + t.refs, p.refs);
      }
    }
  }

  lemma {:induction false} RejectedMany(ds: seq<Directive>, rs: seq<Ref>, p: Parsed)
    requires TooMany(|ds|)
    ensures Rejected(Prepend(ds, rs, p))
  {
  }

  /** `PRINTF_PARSE`.  On success the directives, the table of argument types and the longest width
      and precision are those of the format; it fails only for a format with bad syntax, an argument
      used with two types, or a table that would not fit into memory. */
  method PrintfParse(f: string, d: Directives, a: Arguments) returns (ret: int)
    requires |f| < SIZE_MAX && d.Valid() && a.Valid() && d.Found() == [] && a.Types() == []
    requires d.max_width_length == d.max_precision_length == 0
    modifies d, d.dir, a, a.arg
    ensures ret == 0 || ret == -1
    ensures ret == 0 ==>
      && d.Valid() && a.Valid() && d.Measured() && d.dir[d.count].dir_start == |f|
      && Parse(f).Parsed? && d.Found() == Parse(f).dirs && RegisterAll([], Parse(f).refs) == Some(a.Types())
    ensures ret == -1 ==> Rejected(Parse(f))
  {
    hide ScanDirective, Failing, RegisterAll, MaxWidth, MaxPrecision, ParseFrom, Prepend;
    var cp, arg_posn: nat := 0, 0;
    ghost var refs: seq<Ref> := [];
    assert Prepend([], [], Parse(f)) == Parse(f) by { PrependNothing(Parse(f)); }
    assert MaxWidth([]) == MaxPrecision([]) == 0 by { MaxNothing(); }
    assert RegisterAll([], []) == Some([]) by { RegisterNothing(); }
    while cp < |f|
      invariant d.Valid() && a.Valid() && d.Measured() && arg_posn <= cp <= |f|
      invariant (d.dir == old(d.dir) || fresh(d.dir)) && (a.arg == old(a.arg) || fresh(a.arg))
      invariant Parse(f) == Prepend(d.Found(), refs, ParseFrom(f, cp, arg_posn))
      invariant RegisterAll([], refs) == Some(a.Types())
      decreases |f| - cp
    {
      ghost var ds, types := d.Found(), a.Types();
      PrependStep(f, cp, arg_posn, ds, refs);
      if f[cp] != '%' {
        cp := cp + 1;
      } else {
        var ok, s := ReadDirective(f, cp, arg_posn, a);
        if !ok {
          RejectedBy(f, cp, arg_posn, ds, refs, types);
          return -1;
        }
        assert d.Found() == ds;
        RegisteredMore([], refs, types, s.refs, a.Types(), true);
        refs := refs + s.refs;
        cp, arg_posn := s.next, s.posn;
        ok := d.Append(s.dir);
        if !ok {
          RejectedMany(ds + [s.dir], refs, ParseFrom(f, cp, arg_posn));
          return -1;
        }
      }
    }
    assert Prepend(d.Found(), refs, ParseFrom(f, cp, arg_posn)) == Parsed(d.Found(), refs) by { PrependEnd(f, arg_posn, d.Found(), refs); }
    ghost var ds := d.Found();
    d.dir[d.count] := Directive(cp, 0, Flags(false, false, false, false, false, false), NOTHING, None, NOTHING, None, '\0', None);
    assert d.Found() == ds;
    ret := 0;
  }

  lemma {:induction false} PrependNothing(p: Parsed)
    ensures Prepend([], [], p) == p
  {
  }

  lemma {:induction false} PrependEnd(f: string, posn: nat, ds: seq<Directive>, rs: seq<Ref>)
    ensures Prepend(ds, rs, ParseFrom(f, |f|, posn)) == Parsed(ds, rs)
  {
  }

  lemma {:induction false} MaxNothing()
    ensures MaxWidth([]) == MaxPrecision([]) == 0
  {
  }

  lemma {:induction false} RegisterNothing()
    ensures RegisterAll([], []) == Some([])
  {
  }
}
