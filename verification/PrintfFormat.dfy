/** `VASNPRINTF` of intl/vasnprintf.c: run through the directives, rebuild each one for `snprintf`,
    and collect the output in a buffer that grows, with retries until the output fits. */
module PrintfFormat {
  import opened Basics
  import opened PrintfSize
  import opened PrintfSyntax
  import opened PrintfArgs
  import P = PrintfParse
  import T = PrintfText

  // The directive passed to snprintf

  function Sign(on: bool, c: char): string { if on then [c] else "" }

  function FlagText(x: Flags): string {
    Sign(x.group, '\'') + Sign(x.left, '-') + Sign(x.showsign, '+') + Sign(x.space, ' ') + Sign(x.alt, '#') + Sign(x.zero, '0')
  }

  function SpanText(f: string, s: Span): string
    requires s.start <= s.end <= |f|
  {
    f[s.start..s.end]
  }

  function LengthText(kind: ArgType): string {
    match kind
    case LongLongInt => "ll"
    case ULongLongInt => "ll"
    case LongInt => "l"
    case ULongInt => "l"
    case WideChar => "l"
    case WideString => "l"
    case LongDouble => "L"
    case _ => ""
  }

  predicate Spans(f: string, d: Directive) {
    d.width.start <= d.width.end <= |f| && d.precision.start <= d.precision.end <= |f|
  }

  /** A directive without its position, in canonical form. */
  function Rebuilt(f: string, d: Directive, kind: ArgType): string
    requires Spans(f, d)
  {
    "%" + FlagText(d.flags) + SpanText(f, d.width) + SpanText(f, d.precision) + LengthText(kind) + [d.conversion]
  }

  method PutText(buf: array<char>, p: nat, s: string) returns (next: nat)
    requires p + |s| <= buf.Length
    modifies buf
    ensures next == p + |s| && buf[..next] == old(buf[..p]) + s
    ensures buf[p+|s|..] == old(buf[p+|s|..])
  {
    var i := 0;
    while i < |s|
      invariant 0 <= i <= |s| && buf[..p+i] == old(buf[..p]) + s[..i]
      invariant buf[p+|s|..] == old(buf[p+|s|..])
    {
      buf[p+i] := s[i];
      i := i + 1;
      assert buf[..p+i] == buf[..p+i-1] + [s[i-1]];
    }
    next := p + |s|;
  }

  method PutFlag(buf: array<char>, p: nat, on: bool, c: char) returns (next: nat)
    requires p < buf.Length
    modifies buf
    ensures next == p + |Sign(on, c)| && buf[..next] == old(buf[..p]) + Sign(on, c)
  {
    next := p;
    if on {
      buf[next] := c;
      next := next + 1;
    }
  }

  method PutThree(buf: array<char>, p: nat, a: bool, x: char, b: bool, y: char, c: bool, z: char) returns (next: nat)
    requires p + 3 <= buf.Length
    modifies buf
    ensures p <= next <= p + 3 && buf[..next] == old(buf[..p]) + (Sign(a, x) + Sign(b, y) + Sign(c, z))
  {
    ghost var was := buf[..p];
    next := PutFlag(buf, p, a, x);
    next := PutFlag(buf, next, b, y);
    next := PutFlag(buf, next, c, z);
    assert was + Sign(a, x) + Sign(b, y) + Sign(c, z) == was + (Sign(a, x) + Sign(b, y) + Sign(c, z));
  }

  method PutFlags(buf: array<char>, x: Flags) returns (p: nat)
    requires buf.Length >= 13
    modifies buf
    ensures p <= 7 && buf[..p] == "%" + FlagText(x)
  {
    hide Sign;
    buf[0] := '%';
    assert buf[..1] == "%";
    p := PutThree(buf, 1, x.group, '\'', x.left, '-', x.showsign, '+');
    p := PutThree(buf, p, x.space, ' ', x.alt, '#', x.zero, '0');
  }

  /** Construct the directive in `buf`, which `7 + width + precision + 6` characters always suffice
      for; `p` is where the conversion stands, and behind it is "%n". */
  method BuildDirective(buf: array<char>, f: string, d: Directive, kind: ArgType) returns (p: nat)
    requires Spans(f, d)
    requires buf.Length >= 7 + (d.width.end - d.width.start) + (d.precision.end - d.precision.start) + 6
    modifies buf
    ensures p + 1 == |Rebuilt(f, d, kind)| && p + 3 < buf.Length && buf[..p+1] == Rebuilt(f, d, kind)
    ensures buf[p+1] == '%' && buf[p+2] == 'n' && buf[p+3] == '\0'
  {
    hide FlagText;
    p := PutFlags(buf, d.flags);
    p := PutText(buf, p, SpanText(f, d.width));
    p := PutText(buf, p, SpanText(f, d.precision));
    p := PutText(buf, p, LengthText(kind));
    buf[p] := d.conversion;
    assert buf[..p+1] == buf[..p] + [d.conversion];
    buf[p+1] := '%';
    buf[p+2] := 'n';
    buf[p+3] := '\0';
    assert buf[..p+1] == Rebuilt(f, d, kind);
  }

  // The underlying snprintf

  /** What a directive, its "*" arguments and its argument come out as; None when it cannot be formatted. */
  type Producer = (string, seq<int>, Argument) -> Option<string>

  /** What an implementation of snprintf reports: from the text, the room it is given and whether
      "%n" follows the directive, the count it stores for "%n" (negative when it stores none) and
      the value it returns. */
  type Host = (string, nat, bool) -> (int, int)

  /** A number that is negative, or says that the room is too small, or is the length of the text. */
  predicate Fair(number: int, text: string, room: nat) {
    number < 0 || number >= room || number == |text|
  }

  /** All the retry loop needs of a host: a number smaller than the room is only ever reported for
      text that fits, and is its length.  Text that fits may be reported as not fitting or not at
      all, and text that does not fit as needing any size that is not smaller than the room. */
  ghost predicate Truthful(host: Host) {
    forall text, room, withN :: var (count, retcount) := host(text, room, withN);
      && (withN ==> Fair(count, text, room))
      && (!withN || count >= 0 ==> Fair(retcount, text, room))
  }

  /** A host that does not ask for more than the text needs, and that returns the length of text
      that fits when no "%n" follows; ISO C99 demands that much and more. */
  ghost predicate Helpful(host: Host) {
    && Truthful(host)
    && (forall text, room, withN :: host(text, room, withN).0 <= |text| && host(text, room, withN).1 <= |text|)
    && (forall text, room :: |text| < room ==> host(text, room, false).1 == |text|)
  }

  /** Hosts of both kinds: one that follows ISO C99, and one that has no "%n" and returns the room
      it was given, however much longer the text is, when the text is cut off. */
  lemma {:induction false} HelpfulHosts()
    ensures Helpful((text: string, room: nat, withN: bool) => (if withN then |text| else -1, |text|))
    ensures Helpful((text: string, room: nat, withN: bool) => (-1, if |text| < room then |text| else room))
  {
  }

  /** `snprintf (result + at, maxlen, buf, …)` for a deterministic formatter. */
  method Snprintf(result: array<char>, at: nat, maxlen: nat, text: Option<string>, withN: bool, host: Host)
      returns (count: int, retcount: int)
    requires at + maxlen <= result.Length
    modifies result
    ensures result[..at] == old(result[..at]) && result[at+maxlen..] == old(result[at+maxlen..])
    ensures text.None? ==> count == retcount == -1
    ensures text.Some? ==> var h := host(text.value, maxlen, withN); count == (if withN then h.0 else -1) && retcount == h.1
    ensures text.Some? ==> forall n :: 0 <= n <= |text.value| && n < maxlen ==> result[at..at+n] == text.value[..n]
    ensures text.Some? && |text.value| < maxlen ==> result[at+|text.value|] == '\0'
  {
    if text.None? {
      return -1, -1;
    }
    var s := text.value;
    if maxlen > 0 {
      var n := if |s| < maxlen then |s| else maxlen - 1;
      var end := PutText(result, at, s[..n]);
      assert result[..end][..at] == result[..at] == old(result[..at]);
      assert result[..end][at..end] == result[at..end] == s[..n];
      ghost var behind := result[end..];
      result[end] := '\0';
      assert result[at+maxlen..] == behind[at+maxlen-end..];
      assert old(result[at+maxlen..]) == old(result[at+n..])[maxlen-n..];
      forall k | 0 <= k <= n ensures result[at..at+k] == s[..k] {
        assert result[at..at+k] == result[at..end][..k];
      }
    }
    var (stored, returned) := host(s, maxlen, withN);
    count, retcount := if withN then stored else -1, returned;
  }

  // The output buffer

  /** Output so far: `length` characters of `result`, of which `capacity` (the allocated size) may be used. */
  predicate Sane(result: array<char>, capacity: nat, length: nat) {
    length <= capacity <= result.Length && capacity < SIZE_MAX
  }

  /** Nothing has been written behind the allocated size of the buffer that was passed in, nor may be
      as long as it is in use. */
  predicate Within(rest: seq<char>, was: seq<char>, used: bool, capacity: nat, before: nat) {
    rest == was && (used ==> capacity == before)
  }

  /** ENSURE_ALLOCATION: fails only if the size wanted, or twice the present one, is not a size. */
  method EnsureAllocation(was: array<char>, before: nat, length: nat, needed: Size)
      returns (ok: bool, result: array<char>, capacity: nat)
    requires Sane(was, before, length)
    ensures !ok ==> needed == SIZE_MAX || 2 * before >= SIZE_MAX
    ensures ok ==> Sane(result, capacity, length) && needed <= capacity && before <= capacity
    ensures ok ==> capacity == before || capacity <= 2 * needed + 12
    ensures ok ==> (result == was && capacity == before) || fresh(result)
    ensures ok ==> result[..length] == was[..length]
  {
    ok, result, capacity := true, was, before;
    if needed > capacity {
      capacity := if capacity > 0 then Xtimes(capacity, 2) else 12;
      if needed > capacity {
        capacity := needed;
      }
      var memory_size := Xtimes(capacity, 1);
      if Overflow(memory_size) {
        return false, was, before;
      }
      var memory := new char[capacity];
      forall i | 0 <= i < length {
        memory[i] := result[i];
      }
      result := memory;
    }
  }

  /** Append `s`, after making room for it. */
  method Append(was: array<char>, before: nat, length: nat, s: string)
      returns (ok: bool, result: array<char>, capacity: nat, longer: nat)
    requires Sane(was, before, length) && |s| <= SIZE_MAX
    modifies was
    ensures !ok ==> length + |s| >= SIZE_MAX || 2 * before >= SIZE_MAX
    ensures ok ==> Sane(result, capacity, longer) && before <= capacity && (result == was || fresh(result))
    ensures ok ==> longer == length + |s| && result[..longer] == old(was[..length]) + s
    ensures ok ==> capacity == before || capacity <= 2 * longer + 12
    ensures Within(was[before..], old(was[before..]), ok && result == was, capacity, before)
  {
    var augmented_length := Xsum(length, |s|);
    longer := length;
    ok, result, capacity := EnsureAllocation(was, before, length, augmented_length);
    if ok {
      ghost var behind := result[length+|s|..];
      longer := PutText(result, length, s);
      if result == was {
        assert was[before..] == behind[before-longer..] == old(was[before..]);
      }
    }
  }

  /** What one call of snprintf leads to; `Abort` is the check that the text ends where the count says. */
  datatype Attempt = Fits(count: nat) | WithoutN | Grow(need: Size) | Abort

  /** Where the numbers reported lead when the check of the text's end is passed. */
  function Next(count: int, retcount: int, withN: bool, capacity: nat, length: nat): Attempt
    requires length < capacity < SIZE_MAX
  {
    if count < 0 && withN then WithoutN
    else if count < 0 && retcount < 0 then Grow(Xsum(Xtimes(capacity, 2), 12))
    else
      var n := if retcount > count then retcount else count;
      if n < capacity - length then Fits(n)
      else Grow(Xmax(Xsum(length, if n <= SIZE_MAX then n else SIZE_MAX), Xtimes(capacity, 2)))
  }

  /** Doubling makes every retry larger, whatever has been reported. */
  lemma {:induction false} NextGrows(count: int, retcount: int, withN: bool, capacity: nat, length: nat)
    requires length < capacity < SIZE_MAX
    ensures var r := Next(count, retcount, withN, capacity, length); r.Grow? ==> r.need > capacity
  {
  }

  /** With numbers that are fair, output is taken to fit only when it does, and at its length. */
  lemma {:induction false} NextFair(host: Host, text: string, withN: bool, capacity: nat, length: nat)
    requires Truthful(host) && length < capacity < SIZE_MAX
    ensures var h := host(text, capacity - length, withN); var count := if withN then h.0 else -1;
      && (0 <= count < capacity - length ==> count == |text|)
      && (var r := Next(count, h.1, withN, capacity, length); r.Fits? ==> r.count == |text|)
  {
    var h := host(text, capacity - length, withN);
  }

  /** With a helpful host the buffer grows only when the output does not fit, and not beyond twice
      what it needs. */
  lemma {:induction false} NextHelps(host: Host, text: string, withN: bool, capacity: nat, length: nat)
    requires Helpful(host) && length < capacity < SIZE_MAX
    ensures var h := host(text, capacity - length, withN);
      var r := Next(if withN then h.0 else -1, h.1, withN, capacity, length);
      r.Grow? ==> length + |text| >= capacity && r.need <= 2 * (length + |text|) + 12 &&
                  (r.need == SIZE_MAX ==> 2 * capacity + 12 >= SIZE_MAX || length + |text| >= SIZE_MAX)
  {
    var h := host(text, capacity - length, withN);
    assert Truthful(host);
  }

  /** One round of the retry loop, for any host.  The check of the text's end catches only counts
      that are not the length, and what is taken to fit is as much of the text as has been reported. */
  method TryOnce(result: array<char>, capacity: nat, length: nat, text: Option<string>, withN: bool, host: Host)
      returns (r: Attempt)
    requires Sane(result, capacity, length) && length < capacity
    modifies result
    ensures result[..length] == old(result[..length]) && result[capacity..] == old(result[capacity..])
    ensures text.None? ==> r == Next(-1, -1, withN, capacity, length)
    ensures text.Some? ==> var h := host(text.value, capacity - length, withN); var count := if withN then h.0 else -1;
      if r.Abort? then 0 <= count < capacity - length && count != |text.value|
      else r == Next(count, h.1, withN, capacity, length)
    ensures r.Fits? ==> text.Some? && r.count < capacity - length && (r.count <= |text.value| ==> result[length..length+r.count] == text.value[..r.count])
  {
    var maxlen := capacity - length;
    var count, retcount := Snprintf(result, length, maxlen, text, withN, host);
    if count >= 0 {
      if count < maxlen && result[length+count] != '\0' {
        return Abort;
      }
      if retcount > count {
        count := retcount;
      }
    } else if withN {
      return WithoutN;
    } else if retcount < 0 {
      return Grow(Xsum(Xtimes(capacity, 2), 12));
    } else {
      count := retcount;
    }
    if count >= maxlen {
      return Grow(Xmax(Xsum(length, if count <= SIZE_MAX then count else SIZE_MAX), Xtimes(capacity, 2)));
    }
    return Fits(count);
  }

  /** What goes wrong for any other host that has no "%n": when it returns a number smaller than the
      room for output that does not fit, the loop takes the output to be that short. */
  method CutsOff(result: array<char>, capacity: nat, length: nat, text: string, host: Host) returns (r: Attempt)
    requires Sane(result, capacity, length) && length < capacity
    requires |text| >= capacity - length && 0 <= host(text, capacity - length, false).1 < capacity - length
    modifies result
    ensures r.Fits? && r.count < capacity - length && r.count < |text| && result[length..length+r.count] == text[..r.count]
  {
    r := TryOnce(result, capacity, length, Some(text), false, host);
  }

  /** The exact condition: a round without "%n" takes the output to fit and is right about it, or
      asks for another round, just when the number returned is fair. */
  lemma {:induction false} RightWhenFair(host: Host, text: string, capacity: nat, length: nat)
    requires length < capacity < SIZE_MAX
    ensures var retcount := host(text, capacity - length, false).1;
      var r := Next(-1, retcount, false, capacity, length);
      (r.Fits? ==> r.count == |text|) <==> Fair(retcount, text, capacity - length)
  {
  }

  lemma {:induction false} Splice(s: string, a: nat, n: nat)
    requires a + n <= |s|
    ensures s[..a+n] == s[..a] + s[a..a+n]
  {
  }

  /** The retry loop for one directive.  It ends on every truthful host, and appends exactly what the
      directive produces, however often the buffer has to grow.  It succeeds on every helpful one
      unless the output is too long. */
  method FormatOne(was: array<char>, before: nat, start: nat, text: Option<string>, host: Host)
      returns (ok: bool, result: array<char>, capacity: nat, length: nat)
    requires Sane(was, before, start) && Truthful(host)
    modifies was
    ensures ok ==> text.Some? && Sane(result, capacity, length) && before <= capacity && (result == was || fresh(result))
    ensures ok ==> length == start + |text.value| && result[..length] == old(was[..start]) + text.value
    ensures ok && Helpful(host) ==> capacity == before || capacity <= 4 * length + 36
    ensures text.Some? && Helpful(host) && start + |text.value| < SIZE_MAX / 4 && before < SIZE_MAX / 4 ==> ok
    ensures Within(was[before..], old(was[before..]), ok && result == was, capacity, before)
  {
    hide Next, Truthful, Helpful;
    length := start;
    ok, result, capacity := EnsureAllocation(was, before, length, Xsum(length, 1));
    if !ok {
      return;
    }
    result[length] := '\0';
    assert was[before..] == old(was[before..]);
    var withN := true;
    ghost var head := old(was[..start]);
    while true
      invariant Sane(result, capacity, length) && before <= capacity && length == start && length < capacity
      invariant (result == was || fresh(result)) && result[..length] == head
      invariant Within(was[before..], old(was[before..]), result == was, capacity, before)
      invariant text.Some? && Helpful(host) ==> capacity == before || capacity <= 4 * (length + |text.value|) + 36
      decreases withN, SIZE_MAX - capacity
    {
      var r := TryOnce(result, capacity, length, text, withN, host);
      Judged(r, text, withN, host, capacity, length);
      match r {
        case Fits(count) =>
          assert text.value[..count] == text.value;
          Splice(result[..], length, count);
          length := length + count;
          return true, result, capacity, length;
        case WithoutN =>
          withN := false;
        case Grow(need) =>
          ok, result, capacity := EnsureAllocation(result, capacity, length, need);
          if !ok {
            return;
          }
        case Abort =>
          assert false;
      }
    }
  }

  /** What a round on a truthful host comes to. */
  lemma {:induction false} Judged(r: Attempt, text: Option<string>, withN: bool, host: Host, capacity: nat, length: nat)
    requires Truthful(host) && length < capacity < SIZE_MAX
    requires text.None? ==> r == Next(-1, -1, withN, capacity, length)
    requires text.Some? ==> var h := host(text.value, capacity - length, withN); var count := if withN then h.0 else -1;
      if r.Abort? then 0 <= count < capacity - length && count != |text.value|
      else r == Next(count, h.1, withN, capacity, length)
    ensures !r.Abort? && (r.WithoutN? ==> withN) && (r.Grow? ==> r.need > capacity)
    ensures r.Fits? ==> text.Some? && r.count == |text.value|
    ensures r.Grow? && text.Some? && Helpful(host) ==>
      && length + |text.value| >= capacity && r.need <= 2 * (length + |text.value|) + 12
      && (r.need == SIZE_MAX ==> 2 * capacity + 12 >= SIZE_MAX || length + |text.value| >= SIZE_MAX)
  {
    match text
    case None => NextGrows(-1, -1, withN, capacity, length);
    case Some(t) =>
      var h := host(t, capacity - length, withN);
      NextGrows(if withN then h.0 else -1, h.1, withN, capacity, length);
      NextFair(host, t, withN, capacity, length);
      if Helpful(host) {
        NextHelps(host, t, withN, capacity, length);
      }
  }

  // What a format means

  predicate IsCount(k: ArgType) {
    k == CountSChar || k == CountShort || k == CountInt || k == CountLongInt || k == CountLongLongInt
  }

  /** The arguments of a directive are there and of the right types. */
  predicate Matched(d: Directive, types: seq<ArgType>) {
    && (d.width_arg.Some? ==> d.width_arg.value < |types| && types[d.width_arg.value] == Int)
    && (d.precision_arg.Some? ==> d.precision_arg.value < |types| && types[d.precision_arg.value] == Int)
    && (d.arg.Some? ==> d.arg.value < |types| && types[d.arg.value] != TypeNone
                        && (IsCount(types[d.arg.value]) <==> d.conversion == 'n'))
    && (d.conversion == '%' <==> d.arg.None?)
  }

  predicate AllMatched(ds: seq<Directive>, types: seq<ArgType>) {
    forall i :: 0 <= i < |ds| ==> Matched(ds[i], types)
  }

  function Kinds(args: seq<Argument>): (t: seq<ArgType>)
    ensures |t| == |args| && forall i :: 0 <= i < |t| ==> t[i] == args[i].kind
  {
    seq(|args|, i requires 0 <= i < |args| => args[i].kind)
  }

  /** The values for the "*" of a directive. */
  function Prefixes(d: Directive, args: seq<Argument>): seq<int>
    requires Matched(d, Kinds(args))
  {
    (if d.width_arg.Some? then [args[d.width_arg.value].value] else []) +
    (if d.precision_arg.Some? then [args[d.precision_arg.value].value] else [])
  }

  /** The output of one directive: "%%" is a percent sign, "%n" nothing, and everything else is what
      the formatter makes of the directive and its arguments. */
  function Output(f: string, d: Directive, args: seq<Argument>, produce: Producer): Option<string>
    requires Spans(f, d) && Matched(d, Kinds(args))
  {
    if d.conversion == '%' then Some("%")
    else if d.conversion == 'n' then Some("")
    else produce(Rebuilt(f, d, args[d.arg.value].kind), Prefixes(d, args), args[d.arg.value])
  }

  /** Directives in order inside the format. */
  predicate InOrder(f: string, ds: seq<Directive>) {
    && (forall i :: 0 <= i < |ds| ==> Spans(f, ds[i]) && ds[i].dir_start <= ds[i].dir_end <= |f|)
    && (forall i :: 0 < i < |ds| ==> ds[i-1].dir_end <= ds[i].dir_start)
  }

  function EndOf(ds: seq<Directive>, i: nat): nat
    requires i <= |ds|
  {
    if i == 0 then 0 else ds[i-1].dir_end
  }

  /** The literal text before directive `i`. */
  function Gap(f: string, ds: seq<Directive>, i: nat): string
    requires InOrder(f, ds) && i <= |ds|
  {
    f[EndOf(ds, i)..if i < |ds| then ds[i].dir_start else |f|]
  }

  /** The output of the first `i` directives and the text before each; None when one cannot be formatted. */
  function Upto(f: string, ds: seq<Directive>, args: seq<Argument>, produce: Producer, i: nat): Option<string>
    requires InOrder(f, ds) && AllMatched(ds, Kinds(args)) && i <= |ds|
  {
    if i == 0 then Some("")
    else
      var before, piece := Upto(f, ds, args, produce, i - 1), Output(f, ds[i-1], args, produce);
      if before.Some? && piece.Some? then Some(before.value + Gap(f, ds, i - 1) + piece.value) else None
  }

  /** The whole output. */
  function Formatted(f: string, ds: seq<Directive>, args: seq<Argument>, produce: Producer): Option<string>
    requires InOrder(f, ds) && AllMatched(ds, Kinds(args))
  {
    var all := Upto(f, ds, args, produce, |ds|);
    if all.Some? then Some(all.value + Gap(f, ds, |ds|)) else None
  }

  /** The counts the "%n" directives among the first `i` store: which argument, and how much was written. */
  function Counts(f: string, ds: seq<Directive>, args: seq<Argument>, produce: Producer, i: nat): seq<(nat, nat)>
    requires InOrder(f, ds) && AllMatched(ds, Kinds(args)) && i <= |ds| && Upto(f, ds, args, produce, i).Some?
  {
    if i == 0 then []
    else
      Counts(f, ds, args, produce, i - 1) +
      if ds[i-1].conversion == 'n'
      then [(ds[i-1].arg.value, |Upto(f, ds, args, produce, i - 1).value + Gap(f, ds, i - 1)|)]
      else []
  }

  /** Execute directive `d`: append its output. */
  method Execute(was: array<char>, before: nat, start: nat, buf: array<char>, f: string, d: Directive,
                 args: seq<Argument>, produce: Producer, host: Host)
      returns (ok: bool, result: array<char>, capacity: nat, length: nat)
    requires Sane(was, before, start) && buf != was && Spans(f, d) && Matched(d, Kinds(args)) && d.conversion != 'n'
    requires Truthful(host)
    requires buf.Length >= 7 + (d.width.end - d.width.start) + (d.precision.end - d.precision.start) + 6
    modifies was, buf
    ensures ok ==> var piece := Output(f, d, args, produce);
      && piece.Some? && Sane(result, capacity, length) && before <= capacity && (result == was || fresh(result))
      && length == start + |piece.value| && result[..length] == old(was[..start]) + piece.value
      && (Helpful(host) ==> capacity == before || capacity <= 4 * length + 36)
    ensures Within(was[before..], old(was[before..]), ok && result == was, capacity, before)
    ensures !ok && Helpful(host) ==> var piece := Output(f, d, args, produce);
      piece.None? || start + |piece.value| >= SIZE_MAX / 4 || before >= SIZE_MAX / 4
  {
    hide Rebuilt, Kinds, Spans, Truthful, Helpful;
    if d.conversion == '%' {
      ok, result, capacity, length := Append(was, before, start, "%");
    } else {
      var arg := args[d.arg.value];
      var p := BuildDirective(buf, f, d, arg.kind);
      var text := produce(buf[..p+1], Prefixes(d, args), arg);
      ok, result, capacity, length := FormatOne(was, before, start, text, host);
    }
  }

  const LIMIT := SIZE_MAX / 16 - 16

  /** Why formatting may fail: a directive that cannot be formatted, or an output of 256 MB or more. */
  predicate Excused(out: Option<string>, before: nat) {
    out.None? || |out.value| >= LIMIT || before >= LIMIT
  }

  lemma {:induction false} UptoMore(f: string, ds: seq<Directive>, args: seq<Argument>, produce: Producer, i: nat, n: nat)
    requires InOrder(f, ds) && AllMatched(ds, Kinds(args)) && i <= n <= |ds| && Upto(f, ds, args, produce, n).Some?
    ensures Upto(f, ds, args, produce, i).Some?
    ensures |Upto(f, ds, args, produce, i).value| <= |Upto(f, ds, args, produce, n).value|
    ensures i < n ==> |Upto(f, ds, args, produce, i).value + Gap(f, ds, i)| <= |Upto(f, ds, args, produce, n).value|
  {
    hide InOrder, AllMatched, Output, Gap;
    if i < n {
      UptoMore(f, ds, args, produce, i, n - 1);
    }
  }

  /** An output that fails or is too long at directive `i` does so altogether. */
  lemma {:induction false} ExcusedAt(f: string, ds: seq<Directive>, args: seq<Argument>, produce: Producer, i: nat, before: nat)
    requires InOrder(f, ds) && AllMatched(ds, Kinds(args)) && i <= |ds|
    requires var u := Upto(f, ds, args, produce, i); u.None? || |u.value + Gap(f, ds, i)| >= LIMIT
    ensures Excused(Formatted(f, ds, args, produce), before)
  {
    hide InOrder, AllMatched, Output, Gap, Upto;
    if Upto(f, ds, args, produce, |ds|).Some? {
      UptoMore(f, ds, args, produce, i, |ds|);
    }
  }

  /** The buffer holds the output so far, and with a helpful host is not much larger. */
  ghost predicate Holds(text: string, out: Option<string>, capacity: nat, before: nat, host: Host) {
    out == Some(text) && (Helpful(host) ==> capacity == before || capacity <= 4 * |text| + 36)
  }

  /** Append the literal text before directive `i`. */
  method AppendGap(was: array<char>, cap: nat, start: nat, f: string, ds: seq<Directive>, i: nat,
                   ghost args: seq<Argument>, ghost produce: Producer, ghost before: nat, ghost host: Host)
      returns (ok: bool, result: array<char>, capacity: nat, length: nat)
    requires InOrder(f, ds) && AllMatched(ds, Kinds(args)) && i <= |ds| && |f| < SIZE_MAX
    requires Sane(was, cap, start) && Holds(was[..start], Upto(f, ds, args, produce, i), cap, before, host)
    modifies was
    ensures ok ==> Sane(result, capacity, length) && (result == was || fresh(result)) && cap <= capacity
    ensures ok ==> Upto(f, ds, args, produce, i).Some? && result[..length] == Upto(f, ds, args, produce, i).value + Gap(f, ds, i)
    ensures ok && Helpful(host) ==> capacity == before || capacity <= 4 * length + 36
    ensures Within(was[cap..], old(was[cap..]), ok && result == was, capacity, cap)
    ensures !ok && Helpful(host) ==> Excused(Formatted(f, ds, args, produce), before)
  {
    hide AllMatched, Output, Upto, Formatted, Truthful, Helpful;
    ghost var text := was[..start];
    ok, result, capacity, length := true, was, cap, start;
    var n := if i < |ds| then ds[i].dir_start else |f|;
    if EndOf(ds, i) != n {
      ok, result, capacity, length := Append(was, cap, start, f[EndOf(ds, i)..n]);
      if !ok && before < LIMIT && Helpful(host) {
        ExcusedAt(f, ds, args, produce, i, before);
      }
    } else {
      assert text + Gap(f, ds, i) == text;
    }
  }

  /** Execute directive `i` after the text before it. */
  method ExecuteAt(was: array<char>, cap: nat, start: nat, buf: array<char>, f: string, ds: seq<Directive>, i: nat,
                   args: seq<Argument>, produce: Producer, host: Host, ghost before: nat)
      returns (ok: bool, result: array<char>, capacity: nat, length: nat)
    requires InOrder(f, ds) && AllMatched(ds, Kinds(args)) && i < |ds|
    requires Sane(was, cap, start) && buf != was && Upto(f, ds, args, produce, i).Some?
    requires was[..start] == Upto(f, ds, args, produce, i).value + Gap(f, ds, i) && (Helpful(host) ==> cap == before || cap <= 4 * start + 36)
    requires Truthful(host)
    requires var d := ds[i]; buf.Length >= 7 + (d.width.end - d.width.start) + (d.precision.end - d.precision.start) + 6
    modifies was, buf
    ensures ok ==> Sane(result, capacity, length) && (result == was || fresh(result)) && cap <= capacity
    ensures ok ==> Holds(result[..length], Upto(f, ds, args, produce, i + 1), capacity, before, host)
    ensures Within(was[cap..], old(was[cap..]), ok && result == was, capacity, cap)
    ensures !ok && Helpful(host) ==> Excused(Formatted(f, ds, args, produce), before)
  {
    hide InOrder, Output, Formatted, Gap, Matched, Upto, Kinds, Spans, Truthful, Helpful;
    UptoStep(f, ds, args, produce, i);
    var d := ds[i];
    ghost var text := was[..start];
    if d.conversion == 'n' {
      ok, result, capacity, length := true, was, cap, start;
      NoOutput(f, d, args, produce);
      assert text + "" == text;
    } else {
      ok, result, capacity, length := Execute(was, cap, start, buf, f, d, args, produce, host);
      if !ok && Helpful(host) {
        ExecuteFailed(f, ds, args, produce, i, before, cap, start);
      }
    }
  }

  lemma {:induction false} UptoStep(f: string, ds: seq<Directive>, args: seq<Argument>, produce: Producer, i: nat)
    requires InOrder(f, ds) && AllMatched(ds, Kinds(args)) && i < |ds| && Upto(f, ds, args, produce, i).Some?
    ensures Spans(f, ds[i]) && Matched(ds[i], Kinds(args))
    ensures var piece := Output(f, ds[i], args, produce);
      Upto(f, ds, args, produce, i + 1) ==
        if piece.Some? then Some(Upto(f, ds, args, produce, i).value + Gap(f, ds, i) + piece.value) else None
  {
    hide Matched, Output, Gap;
  }

  lemma {:induction false} ExecuteFailed(f: string, ds: seq<Directive>, args: seq<Argument>, produce: Producer, i: nat, before: nat, cap: nat, start: nat)
    requires InOrder(f, ds) && AllMatched(ds, Kinds(args)) && i < |ds| && Upto(f, ds, args, produce, i).Some?
    requires start == |Upto(f, ds, args, produce, i).value + Gap(f, ds, i)| && (cap == before || cap <= 4 * start + 36)
    requires Spans(f, ds[i]) && Matched(ds[i], Kinds(args))
    requires var piece := Output(f, ds[i], args, produce);
      piece.None? || start + |piece.value| >= SIZE_MAX / 4 || cap >= SIZE_MAX / 4
    ensures Excused(Formatted(f, ds, args, produce), before)
  {
    hide InOrder, AllMatched, Output, Gap, Upto, Formatted, Matched, Spans;
    UptoStep(f, ds, args, produce, i);
    if Output(f, ds[i], args, produce).None? {
      ExcusedAt(f, ds, args, produce, i + 1, before);
    } else if start + |Output(f, ds[i], args, produce).value| >= LIMIT {
      ExcusedStep(f, ds, args, produce, i, before, start + |Output(f, ds[i], args, produce).value|);
    }
  }

  lemma {:induction false} NoOutput(f: string, d: Directive, args: seq<Argument>, produce: Producer)
    requires Spans(f, d) && Matched(d, Kinds(args)) && d.conversion == 'n'
    ensures Output(f, d, args, produce) == Some("")
  {
  }

  lemma {:induction false} ExcusedStep(f: string, ds: seq<Directive>, args: seq<Argument>, produce: Producer, i: nat, before: nat, n: nat)
    requires InOrder(f, ds) && AllMatched(ds, Kinds(args)) && i < |ds|
    requires Upto(f, ds, args, produce, i).Some? && Output(f, ds[i], args, produce).Some?
    requires n == |Upto(f, ds, args, produce, i).value| + |Gap(f, ds, i)| + |Output(f, ds[i], args, produce).value|
    requires n >= LIMIT
    ensures Excused(Formatted(f, ds, args, produce), before)
  {
    hide InOrder, AllMatched, Output, Gap, Formatted;
    ExcusedAt(f, ds, args, produce, i + 1, before);
  }

  /** The main loop of VASNPRINTF: the output buffer ends up holding exactly the literal text and
      the outputs of the directives, in order, and a NUL; `counts` is what the "%n" directives store. */
  method FormatAll(buf: array<char>, was: array<char>, before: nat, f: string, ds: seq<Directive>,
                   args: seq<Argument>, produce: Producer, host: Host)
      returns (ok: bool, result: array<char>, length: nat, counts: seq<(nat, nat)>)
    requires InOrder(f, ds) && AllMatched(ds, Kinds(args)) && |f| < SIZE_MAX
    requires before < SIZE_MAX && before <= was.Length && buf != was && Truthful(host)
    requires forall i :: 0 <= i < |ds| ==> buf.Length >= 7 + (ds[i].width.end - ds[i].width.start) + (ds[i].precision.end - ds[i].precision.start) + 6
    modifies was, buf
    ensures ok ==> length < result.Length && Some(result[..length]) == Formatted(f, ds, args, produce) && result[length] == '\0'
    ensures ok ==> Upto(f, ds, args, produce, |ds|).Some? && counts == Counts(f, ds, args, produce, |ds|)
    ensures was[before..] == old(was[before..])
    ensures !ok && Helpful(host) ==> Excused(Formatted(f, ds, args, produce), before)
  {
    hide InOrder, AllMatched, Gap, Upto, Formatted, Output, Counts, Truthful, Helpful;
    var capacity;
    result, capacity, length, counts := was, before, 0, [];
    var i := 0;
    Nothing(f, ds, args, produce);
    assert result[..0] == "";
    while true
      invariant 0 <= i <= |ds| && Sane(result, capacity, length) && buf != result && (result == was || fresh(result))
      invariant Holds(result[..length], Upto(f, ds, args, produce, i), capacity, before, host)
      invariant Within(was[before..], old(was[before..]), result == was, capacity, before)
      invariant Upto(f, ds, args, produce, i).Some? && counts == Counts(f, ds, args, produce, i)
      decreases |ds| - i
    {
      ok, result, capacity, length := AppendGap(result, capacity, length, f, ds, i, args, produce, before, host);
      if !ok {
        return;
      }
      if i == |ds| {
        break;
      }
      CountsStep(f, ds, args, produce, i);
      if ds[i].conversion == 'n' {
        counts := counts + [(ds[i].arg.value, length)];
      }
      ok, result, capacity, length := ExecuteAt(result, capacity, length, buf, f, ds, i, args, produce, host, before);
      if !ok {
        return;
      }
      i := i + 1;
    }
    ghost var all := result[..length];
    Whole(f, ds, args, produce);
    ok, result, capacity := EnsureAllocation(result, capacity, length, Xsum(length, 1));
    if ok {
      result[length] := '\0';
      assert result[..length] == all;
      assert was[before..] == old(was[before..]);
    }
  }

  lemma {:induction false} Nothing(f: string, ds: seq<Directive>, args: seq<Argument>, produce: Producer)
    requires InOrder(f, ds) && AllMatched(ds, Kinds(args))
    ensures Upto(f, ds, args, produce, 0) == Some("") && Counts(f, ds, args, produce, 0) == []
  {
  }

  lemma {:induction false} Whole(f: string, ds: seq<Directive>, args: seq<Argument>, produce: Producer)
    requires InOrder(f, ds) && AllMatched(ds, Kinds(args)) && Upto(f, ds, args, produce, |ds|).Some?
    ensures Formatted(f, ds, args, produce) == Some(Upto(f, ds, args, produce, |ds|).value + Gap(f, ds, |ds|))
  {
  }

  lemma {:induction false} CountsStep(f: string, ds: seq<Directive>, args: seq<Argument>, produce: Producer, i: nat)
    requires InOrder(f, ds) && AllMatched(ds, Kinds(args)) && i < |ds| && Upto(f, ds, args, produce, i).Some?
    ensures ds[i].conversion == 'n' ==> ds[i].arg.Some?
    ensures Upto(f, ds, args, produce, i + 1).Some? ==>
      Counts(f, ds, args, produce, i + 1) == Counts(f, ds, args, produce, i) +
        if ds[i].conversion == 'n' && ds[i].arg.Some? then [(ds[i].arg.value, |Upto(f, ds, args, produce, i).value + Gap(f, ds, i)|)] else []
  {
    hide Gap, Output;
  }
}
