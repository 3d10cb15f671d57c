/** System dependent strings of a message catalog (`_nl_load_domain` in intl/loadmsgcat.c): one pass
    measures the memory for their expanded form, a second pass copies them into it. */
module CatalogLoad {
  import opened Basics

  type Byte = x: int | 0 <= x < 256

  const SEGMENTS_END := 0xffff_ffff

  /** A static piece of `segsize` bytes and then the segment value `sysdepref`, if there is one more. */
  datatype Segment = Segment(segsize: nat, sysdepref: nat)

  /** A string with system dependent segments; its static pieces lie one after the other in the file. */
  datatype SysdepString = SysdepString(offset: nat, segments: seq<Segment>)

  datatype StringPair = StringPair(orig: SysdepString, trans: SysdepString)

  /** What the segment names stand for on this system; None for an unknown name. */
  type Values = seq<Option<seq<Byte>>>

  /** The list of segments goes on up to where both passes stop reading it: an end mark, a reference
      out of range or an unknown segment.  At an end mark the static pieces have been inside the file. */
  predicate Framed(data: seq<Byte>, values: Values, offset: nat, segments: seq<Segment>)
    decreases |segments|
  {
    && segments != []
    && var p := segments[0];
    if p.sysdepref == SEGMENTS_END then offset + p.segsize <= |data|
    else if p.sysdepref >= |values| || values[p.sysdepref].None? then true
    else Framed(data, values, offset + p.segsize, segments[1..])
  }

  predicate WellFramed(data: seq<Byte>, values: Values, s: SysdepString) { Framed(data, values, s.offset, s.segments) }

  /** How a string fares: a reference out of range, an unknown segment, or the memory it takes. */
  datatype Fate = Bad | Missing | Fine(need: nat)

  function Scan(values: Values, segments: seq<Segment>): Fate
    requires segments != []
    decreases |segments|
  {
    var p := segments[0];
    if p.sysdepref == SEGMENTS_END then Fine(p.segsize)
    else if p.sysdepref >= |values| then Bad
    else if values[p.sysdepref].None? then Missing
    else if |segments| == 1 then Bad
    else
      match Scan(values, segments[1..])
      case Fine(n) => Fine(p.segsize + |values[p.sysdepref].value| + n)
      case other => other
  }

  /** A string that is one static piece needs no memory: it is used where it lies in the file. */
  function StringFate(values: Values, s: SysdepString): Fate
    requires s.segments != []
  {
    if s.segments[0].sysdepref == SEGMENTS_END then Fine(0) else Scan(values, s.segments)
  }

  /** The second string of a pair is not looked at when the first one is not usable. */
  predicate PairFramed(data: seq<Byte>, values: Values, p: StringPair) {
    && WellFramed(data, values, p.orig) && p.trans.segments != []
    && (StringFate(values, p.orig).Fine? ==> WellFramed(data, values, p.trans))
  }

  predicate AllFramed(data: seq<Byte>, values: Values, pairs: seq<StringPair>) {
    forall i :: 0 <= i < |pairs| ==> PairFramed(data, values, pairs[i])
  }

  function PairFate(values: Values, p: StringPair): Fate
    requires p.orig.segments != [] && p.trans.segments != []
  {
    match StringFate(values, p.orig)
    case Fine(a) =>
      (match StringFate(values, p.trans)
       case Fine(b) => Fine(a + b)
       case other => other)
    case other => other
  }

  predicate NonEmpty(pairs: seq<StringPair>) {
    forall i :: 0 <= i < |pairs| ==> pairs[i].orig.segments != [] && pairs[i].trans.segments != []
  }

  /** The pairs that are usable on this system, in file order. */
  function Kept(values: Values, pairs: seq<StringPair>): (r: seq<StringPair>)
    requires NonEmpty(pairs)
  {
    if pairs == [] then []
    else
      var front := Kept(values, pairs[..|pairs|-1]);
      if PairFate(values, pairs[|pairs|-1]).Fine? then front + [pairs[|pairs|-1]] else front
  }

  function Needs(values: Values, pairs: seq<StringPair>): nat
    requires NonEmpty(pairs)
  {
    if pairs == [] then 0
    else
      var fate := PairFate(values, pairs[|pairs|-1]);
      Needs(values, pairs[..|pairs|-1]) + if fate.Fine? then fate.need else 0
  }

  predicate AnyBad(values: Values, pairs: seq<StringPair>)
    requires NonEmpty(pairs)
  {
    exists i :: 0 <= i < |pairs| && PairFate(values, pairs[i]).Bad?
  }

  lemma {:induction false} PieceInside(data: seq<Byte>, values: Values, offset: nat, segments: seq<Segment>)
    requires Framed(data, values, offset, segments) && Scan(values, segments).Fine?
    ensures offset + segments[0].segsize <= |data|
    decreases |segments|
  {
    if segments[0].sysdepref != SEGMENTS_END {
      PieceInside(data, values, offset + segments[0].segsize, segments[1..]);
    }
  }

  /** The string with the segments put in. */
  function Expand(data: seq<Byte>, values: Values, offset: nat, segments: seq<Segment>): seq<Byte>
    requires Framed(data, values, offset, segments) && Scan(values, segments).Fine?
    decreases |segments|
  {
    PieceInside(data, values, offset, segments);
    var p := segments[0];
    var piece := data[offset..offset+p.segsize];
    if p.sysdepref == SEGMENTS_END then piece
    else piece + values[p.sysdepref].value + Expand(data, values, offset + p.segsize, segments[1..])
  }

  lemma {:induction false} FineScan(values: Values, s: SysdepString)
    requires s.segments != [] && StringFate(values, s).Fine?
    ensures Scan(values, s.segments).Fine?
  {
  }

  function Expanded(data: seq<Byte>, values: Values, s: SysdepString): seq<Byte>
    requires WellFramed(data, values, s) && StringFate(values, s).Fine?
  {
    FineScan(values, s);
    Expand(data, values, s.offset, s.segments)
  }

  lemma {:induction false} ExpandLength(data: seq<Byte>, values: Values, offset: nat, segments: seq<Segment>)
    requires Framed(data, values, offset, segments) && Scan(values, segments).Fine?
    ensures |Expand(data, values, offset, segments)| == Scan(values, segments).need
    decreases |segments|
  {
    PieceInside(data, values, offset, segments);
    if segments[0].sysdepref != SEGMENTS_END {
      ExpandLength(data, values, offset + segments[0].segsize, segments[1..]);
    }
  }

  // First pass

  /** The inner loop of the measuring pass. */
  method MeasureString(data: seq<Byte>, values: Values, s: SysdepString) returns (fate: Fate)
    requires WellFramed(data, values, s)
    ensures fate == StringFate(values, s)
  {
    var need: nat, p: nat := 0, 0;
    ghost var offset: nat := s.offset;
    if s.segments[p].sysdepref != SEGMENTS_END {
      assert s.segments[0..] == s.segments;
      while true
        invariant p < |s.segments| && Framed(data, values, offset, s.segments[p..])
        invariant Scan(values, s.segments) == (match Scan(values, s.segments[p..]) case Fine(n) => Fine(need + n) case other => other)
        decreases |s.segments| - p
      {
        ghost var rest := s.segments[p..];
        assert rest[1..] == s.segments[p+1..];
        offset := offset + s.segments[p].segsize;
        need := need + s.segments[p].segsize;
        var sysdepref := s.segments[p].sysdepref;
        if sysdepref == SEGMENTS_END {
          break;
        }
        if sysdepref >= |values| {
          return Bad;
        }
        if values[sysdepref].None? {
          return Missing;
        }
        need := need + |values[sysdepref].value|;
        p := p + 1;
      }
    }
    fate := Fine(need);
  }

  const UINT32_SIZE := 4
  const DESC_SIZE := 8

  /** The measuring pass: fails when a reference is out of range, else counts the usable pairs and
      the bytes for their strings, their descriptors and the hash table. */
  method Measure(data: seq<Byte>, values: Values, pairs: seq<StringPair>, hash_size: nat)
      returns (ok: bool, n: nat, memneed: nat)
    requires AllFramed(data, values, pairs)
    ensures ok <==> !AnyBad(values, pairs)
    ensures ok ==> n == |Kept(values, pairs)|
    ensures ok ==> memneed == hash_size * UINT32_SIZE + Needs(values, pairs) + 2 * n * DESC_SIZE
  {
    hide StringFate;
    n, memneed := 0, hash_size * UINT32_SIZE;
    var i := 0;
    assert pairs[..0] == [];
    while i < |pairs|
      invariant 0 <= i <= |pairs| && NonEmpty(pairs[..i])
      invariant forall k :: 0 <= k < i ==> !PairFate(values, pairs[k]).Bad?
      invariant n == |Kept(values, pairs[..i])|
      invariant memneed == hash_size * UINT32_SIZE + Needs(values, pairs[..i])
    {
      assert pairs[..i+1][..i] == pairs[..i];
      var first := MeasureString(data, values, pairs[i].orig);
      if first.Bad? {
        assert PairFate(values, pairs[i]).Bad?;
        return false, n, memneed;
      }
      if first.Fine? {
        var second := MeasureString(data, values, pairs[i].trans);
        if second.Bad? {
          assert PairFate(values, pairs[i]).Bad?;
          return false, n, memneed;
        }
        if second.Fine? {
          n := n + 1;
          memneed := memneed + first.need + second.need;
        }
      }
      i := i + 1;
    }
    assert pairs[..i] == pairs;
    memneed := memneed + 2 * n * DESC_SIZE;
    ok := true;
  }

  // Second pass

  /** The validity check of the copying pass, which does not look for references out of range. */
  method StillValid(data: seq<Byte>, values: Values, s: SysdepString) returns (valid: bool)
    requires WellFramed(data, values, s) && !StringFate(values, s).Bad?
    ensures valid <==> StringFate(values, s).Fine?
  {
    valid := true;
    if s.segments[0].sysdepref != SEGMENTS_END {
      var p: nat := 0;
      ghost var offset: nat := s.offset;
      assert s.segments[0..] == s.segments;
      while true
        invariant p < |s.segments| && Framed(data, values, offset, s.segments[p..])
        invariant Scan(values, s.segments).Fine? <==> Scan(values, s.segments[p..]).Fine?
        invariant !Scan(values, s.segments[p..]).Bad?
        decreases |s.segments| - p
      {
        ghost var rest := s.segments[p..];
        assert rest[1..] == s.segments[p+1..];
        var sysdepref := s.segments[p].sysdepref;
        if sysdepref == SEGMENTS_END {
          break;
        }
        if values[sysdepref].None? {
          return false;
        }
        offset := offset + s.segments[p].segsize;
        p := p + 1;
      }
    }
  }

  datatype Pointer = InFile(offset: nat) | InBlock(at: nat)

  datatype Desc = Desc(length: nat, pointer: Pointer)

  predicate Within(d: Desc, data: seq<Byte>, mem: seq<Byte>) {
    match d.pointer
    case InFile(offset) => offset + d.length <= |data|
    case InBlock(at) => at + d.length <= |mem|
  }

  function Text(d: Desc, data: seq<Byte>, mem: seq<Byte>): seq<Byte>
    requires Within(d, data, mem)
  {
    match d.pointer
    case InFile(offset) => data[offset..offset+d.length]
    case InBlock(at) => mem[at..at+d.length]
  }

  /** `memcpy` into the block at `at`. */
  method Memcpy(mem: array<Byte>, at: nat, bytes: seq<Byte>)
    requires at + |bytes| <= mem.Length
    modifies mem
    ensures mem[..at+|bytes|] == old(mem[..at]) + bytes
  {
    var i := 0;
    while i < |bytes|
      invariant 0 <= i <= |bytes| && mem[..at+i] == old(mem[..at]) + bytes[..i]
    {
      mem[at+i] := bytes[i];
      i := i + 1;
      assert mem[..at+i] == mem[..at+i-1] + [bytes[i-1]];
    }
  }

  /** How the first segment and the rest make up a string. */
  lemma {:induction false} ExpandStep(data: seq<Byte>, values: Values, offset: nat, segments: seq<Segment>)
    requires Framed(data, values, offset, segments) && Scan(values, segments).Fine?
    ensures segments != [] && offset + segments[0].segsize <= |data|
    ensures var p, all := segments[0], Expand(data, values, offset, segments);
      var piece := data[offset..offset+p.segsize];
      if p.sysdepref == SEGMENTS_END then all == piece && Scan(values, segments).need == |piece|
      else
        && p.sysdepref < |values| && values[p.sysdepref].Some? && |segments| > 1
        && Framed(data, values, offset + p.segsize, segments[1..]) && Scan(values, segments[1..]).Fine?
        && all == piece + values[p.sysdepref].value + Expand(data, values, offset + p.segsize, segments[1..])
        && Scan(values, segments).need == |piece| + |values[p.sysdepref].value| + Scan(values, segments[1..]).need
  {
    PieceInside(data, values, offset, segments);
  }

  /** Copy the pieces and segment values of one string to `at`. */
  method CopySegments(data: seq<Byte>, values: Values, s: SysdepString, mem: array<Byte>, at: nat) returns (end: nat)
    requires WellFramed(data, values, s) && Scan(values, s.segments).Fine? && at + Scan(values, s.segments).need <= mem.Length
    modifies mem
    ensures end == at + Scan(values, s.segments).need
    ensures mem[..end] == old(mem[..at]) + Expand(data, values, s.offset, s.segments)
  {
    hide Expand, Scan, Framed;
    end := at;
    var static_segments: nat := s.offset;
    var p: nat := 0;
    assert s.segments[0..] == s.segments;
    ExpandStep(data, values, s.offset, s.segments);
    ghost var rest, text := s.segments, Expand(data, values, s.offset, s.segments);
    ghost var was, whole := mem[..at], Expand(data, values, s.offset, s.segments);
    while true
      invariant p < |s.segments| && rest == s.segments[p..]
      invariant Framed(data, values, static_segments, rest) && Scan(values, rest).Fine?
      invariant end + Scan(values, rest).need == at + Scan(values, s.segments).need
      invariant text == Expand(data, values, static_segments, rest)
      invariant end <= mem.Length && mem[..end] + text == was + whole
      decreases |s.segments| - p
    {
      ExpandStep(data, values, static_segments, rest);
      var segsize, sysdepref := s.segments[p].segsize, s.segments[p].sysdepref;
      assert rest[0] == s.segments[p];
      var piece := data[static_segments..static_segments+segsize];
      ghost var before := mem[..end];
      if segsize > 0 {
        Memcpy(mem, end, piece);
        end := end + segsize;
        static_segments := static_segments + segsize;
      }
      assert mem[..end] == before + piece;
      if sysdepref == SEGMENTS_END {
        break;
      }
      var value := values[sysdepref].value;
      Memcpy(mem, end, value);
      end := end + |value|;
      p := p + 1;
      rest, text := rest[1..], Expand(data, values, static_segments, rest[1..]);
      Regroup(before, piece, value, text);
    }
  }

  lemma {:induction false} Regroup(a: seq<Byte>, b: seq<Byte>, c: seq<Byte>, d: seq<Byte>)
    ensures (a + b + c) + d == a + (b + c + d)
  {
  }

  /** One string of a usable pair. */
  method CopyString(data: seq<Byte>, values: Values, s: SysdepString, mem: array<Byte>, at: nat) returns (d: Desc, end: nat)
    requires WellFramed(data, values, s) && StringFate(values, s).Fine? && at + StringFate(values, s).need <= mem.Length
    modifies mem
    ensures end == at + StringFate(values, s).need
    ensures mem[..at] == old(mem[..at])
    ensures Within(d, data, mem[..end]) && Text(d, data, mem[..end]) == Expanded(data, values, s)
  {
    FineScan(values, s);
    if s.segments[0].sysdepref == SEGMENTS_END {
      d, end := Desc(s.segments[0].segsize, InFile(s.offset)), at;
    } else {
      end := CopySegments(data, values, s, mem, at);
      d := Desc(end - at, InBlock(at));
      assert mem[..end][..at] == mem[..at] == old(mem[..at]);
      ExpandLength(data, values, s.offset, s.segments);
    }
  }

  predicate Usable(data: seq<Byte>, values: Values, p: StringPair) {
    && WellFramed(data, values, p.orig) && WellFramed(data, values, p.trans)
    && StringFate(values, p.orig).Fine? && StringFate(values, p.trans).Fine?
  }

  predicate AllUsable(data: seq<Byte>, values: Values, pairs: seq<StringPair>) {
    forall i :: 0 <= i < |pairs| ==> Usable(data, values, pairs[i])
  }

  /** The strings of the descriptors are those of the pairs, in order. */
  predicate Copied(data: seq<Byte>, values: Values, pairs: seq<StringPair>, mem: seq<Byte>,
                   origs: seq<Desc>, transs: seq<Desc>)
    requires AllUsable(data, values, pairs) && |origs| == |transs| == |pairs|
  {
    forall i :: 0 <= i < |pairs| ==>
      && Within(origs[i], data, mem) && Text(origs[i], data, mem) == Expanded(data, values, pairs[i].orig)
      && Within(transs[i], data, mem) && Text(transs[i], data, mem) == Expanded(data, values, pairs[i].trans)
  }

  lemma {:induction false} FramedParts(data: seq<Byte>, values: Values, pairs: seq<StringPair>)
    requires AllFramed(data, values, pairs)
    ensures NonEmpty(pairs)
  {
  }

  /** The pairs that are kept are usable, and no others. */
  lemma {:induction false} KeptUsable(data: seq<Byte>, values: Values, pairs: seq<StringPair>)
    requires AllFramed(data, values, pairs)
    ensures AllUsable(data, values, Kept(values, pairs))
    ensures forall i :: 0 <= i < |pairs| ==> (Usable(data, values, pairs[i]) <==> PairFate(values, pairs[i]).Fine?)
  {
    hide Framed, StringFate;
    if pairs != [] {
      KeptUsable(data, values, pairs[..|pairs|-1]);
    }
  }

  lemma {:induction false} NeedsMono(values: Values, pairs: seq<StringPair>, i: nat)
    requires NonEmpty(pairs) && i <= |pairs|
    ensures Needs(values, pairs[..i]) <= Needs(values, pairs) && |Kept(values, pairs[..i])| <= |Kept(values, pairs)|
    ensures Kept(values, pairs[..i]) <= Kept(values, pairs)
  {
    hide PairFate;
    if i < |pairs| {
      var front := pairs[..|pairs|-1];
      NeedsMono(values, front, i);
      assert front[..i] == pairs[..i];
    } else {
      assert pairs[..i] == pairs;
    }
  }

  /** A text does not change when the block is only extended. */
  lemma {:induction false} TextStays(d: Desc, data: seq<Byte>, mem: seq<Byte>, mem': seq<Byte>)
    requires Within(d, data, mem) && mem <= mem'
    ensures Within(d, data, mem') && Text(d, data, mem') == Text(d, data, mem)
  {
  }

  lemma {:induction false} CopiedMore(data: seq<Byte>, values: Values, pairs: seq<StringPair>, mem: seq<Byte>, mem': seq<Byte>,
                                      origs: seq<Desc>, transs: seq<Desc>, p: StringPair, o: Desc, t: Desc)
    requires AllUsable(data, values, pairs) && |origs| == |transs| == |pairs|
    requires Copied(data, values, pairs, mem, origs, transs) && mem <= mem' && Usable(data, values, p)
    requires Within(o, data, mem') && Text(o, data, mem') == Expanded(data, values, p.orig)
    requires Within(t, data, mem') && Text(t, data, mem') == Expanded(data, values, p.trans)
    ensures AllUsable(data, values, pairs + [p]) && Copied(data, values, pairs + [p], mem', origs + [o], transs + [t])
  {
    hide Text, Within, Expanded, Framed, StringFate;
    forall i | 0 <= i < |pairs| ensures Within(origs[i], data, mem') && Text(origs[i], data, mem') == Text(origs[i], data, mem) {
      TextStays(origs[i], data, mem, mem');
    }
    forall i | 0 <= i < |pairs| ensures Within(transs[i], data, mem') && Text(transs[i], data, mem') == Text(transs[i], data, mem) {
      TextStays(transs[i], data, mem, mem');
    }
  }

  /** Both strings of a usable pair. */
  method CopyPair(data: seq<Byte>, values: Values, p: StringPair, mem: array<Byte>, at: nat) returns (o: Desc, t: Desc, end: nat)
    requires Usable(data, values, p) && at + PairFate(values, p).need <= mem.Length
    modifies mem
    ensures end == at + PairFate(values, p).need && mem[..at] == old(mem[..at])
    ensures Within(o, data, mem[..end]) && Text(o, data, mem[..end]) == Expanded(data, values, p.orig)
    ensures Within(t, data, mem[..end]) && Text(t, data, mem[..end]) == Expanded(data, values, p.trans)
  {
    hide StringFate, Expanded, Framed, Text, Within;
    var middle;
    o, middle := CopyString(data, values, p.orig, mem, at);
    ghost var first := mem[..middle];
    assert mem[..at] == old(mem[..at]);
    t, end := CopyString(data, values, p.trans, mem, middle);
    assert mem[..middle] == first && first <= mem[..end];
    assert mem[..at] == mem[..middle][..at] == first[..at];
    TextStays(o, data, first, mem[..end]);
  }

  /** The copying pass into a block of the measured size, behind `tables` bytes of descriptors and
      hash table.  It keeps exactly the pairs that were counted, so the abort at its end cannot
      happen, and it uses the block to the last byte. */
  method CopyAll(data: seq<Byte>, values: Values, pairs: seq<StringPair>, mem: array<Byte>, tables: nat)
      returns (origs: seq<Desc>, transs: seq<Desc>, end: nat)
    requires AllFramed(data, values, pairs) && !AnyBad(values, pairs)
    requires mem.Length == tables + Needs(values, pairs)
    modifies mem
    ensures AllUsable(data, values, Kept(values, pairs))
    ensures |origs| == |transs| == |Kept(values, pairs)|
    ensures end == mem.Length && mem[..tables] == old(mem[..tables])
    ensures Copied(data, values, Kept(values, pairs), mem[..], origs, transs)
  {
    hide PairFate, StringFate, Expanded, WellFramed, Text, Within, Copied, Usable;
    KeptUsable(data, values, pairs);
    FramedParts(data, values, pairs);
    origs, transs, end := [], [], tables;
    var i := 0;
    ghost var kept: seq<StringPair> := [];
    assert pairs[..0] == [];
    CopiedNone(data, values, mem[..end]);
    while i < |pairs|
      invariant 0 <= i <= |pairs| && kept == Kept(values, pairs[..i])
      invariant AllUsable(data, values, kept)
      invariant end == tables + Needs(values, pairs[..i]) <= mem.Length && mem[..tables] == old(mem[..tables])
      invariant |origs| == |transs| == |kept| && Copied(data, values, kept, mem[..end], origs, transs)
    {
      NeedsMono(values, pairs, i + 1);
      assert pairs[..i+1][..i] == pairs[..i];
      var valid := PairValid(data, values, pairs[i]);
      if valid {
        ghost var was, before := mem[..end], end;
        var o, t;
        o, t, end := CopyPair(data, values, pairs[i], mem, end);
        assert mem[..tables] == mem[..before][..tables];
        assert was <= mem[..end];
        CopiedMore(data, values, kept, was, mem[..end], origs, transs, pairs[i], o, t);
        origs, transs, kept := origs + [o], transs + [t], kept + [pairs[i]];
      }
      i := i + 1;
    }
    assert pairs[..i] == pairs && mem[..end] == mem[..];
  }

  lemma {:induction false} CopiedNone(data: seq<Byte>, values: Values, mem: seq<Byte>)
    ensures Copied(data, values, [], mem, [], [])
  {
  }

  /** The check of both strings, which stops at the first that is not usable. */
  method PairValid(data: seq<Byte>, values: Values, p: StringPair) returns (valid: bool)
    requires PairFramed(data, values, p) && !PairFate(values, p).Bad?
    ensures valid <==> PairFate(values, p).Fine?
  {
    hide StringFate;
    valid := StillValid(data, values, p.orig);
    if valid {
      valid := StillValid(data, values, p.trans);
    }
  }
}
