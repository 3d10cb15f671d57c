/** What a string with system dependent segments of a message catalog amounts to, segment by segment
    (`_nl_load_domain` in intl/loadmsgcat.c). */
module CatalogText {
  import opened Basics
  import opened CatalogLoad
  import D = CatalogDomain

  /** The first `k` segments go on: each names a segment that is known here. */
  predicate Known(values: Values, segments: seq<Segment>, k: nat) {
    k <= |segments| && forall i :: 0 <= i < k ==>
      segments[i].sysdepref != SEGMENTS_END && segments[i].sysdepref < |values| && values[segments[i].sysdepref].Some?
  }

  /** Where the static piece of segment `k` stands, counted in the file. */
  function Static(segments: seq<Segment>, k: nat): nat
    requires k <= |segments|
  {
    if k == 0 then 0 else segments[0].segsize + Static(segments[1..], k - 1)
  }

  /** Where it stands in the expanded string. */
  function Placed(values: Values, segments: seq<Segment>, k: nat): nat
    requires Known(values, segments, k)
  {
    if k == 0 then 0
    else
      KnownRest(values, segments, k);
      segments[0].segsize + |values[segments[0].sysdepref].value| + Placed(values, segments[1..], k - 1)
  }

  lemma {:induction false} KnownRest(values: Values, segments: seq<Segment>, k: nat)
    requires Known(values, segments, k) && k > 0
    ensures segments != [] && Known(values, segments[1..], k - 1)
    ensures segments[0].sysdepref != SEGMENTS_END && segments[0].sysdepref < |values| && values[segments[0].sysdepref].Some?
  {
    forall i | 0 <= i < k - 1
      ensures var p := segments[1..][i]; p.sysdepref != SEGMENTS_END && p.sysdepref < |values| && values[p.sysdepref].Some?
    {
      assert segments[1..][i] == segments[i+1];
    }
  }

  /** The first segment that does not go on decides: an end mark makes the string usable, with the
      sizes of all pieces and values before it, a reference out of range makes the file invalid, and an
      unknown segment makes the string unusable. */
  lemma {:induction false} ScanMeans(values: Values, segments: seq<Segment>, k: nat)
    requires Known(values, segments, k) && k < |segments|
    ensures var p := segments[k];
      && (p.sysdepref == SEGMENTS_END ==> Scan(values, segments) == Fine(Placed(values, segments, k) + p.segsize))
      && (p.sysdepref != SEGMENTS_END && p.sysdepref >= |values| ==> Scan(values, segments) == Bad)
      && (p.sysdepref != SEGMENTS_END && p.sysdepref < |values| && values[p.sysdepref].None? ==> Scan(values, segments) == Missing)
    decreases k
  {
    if k > 0 {
      KnownRest(values, segments, k);
      ScanMeans(values, segments[1..], k - 1);
      assert segments[1..][k-1] == segments[k];
    }
  }

  /** Each piece and each value stands where the sizes before it say, and the last piece ends the string. */
  lemma {:induction false} ExpandMeans(data: seq<Byte>, values: Values, offset: nat, segments: seq<Segment>, k: nat)
    requires Framed(data, values, offset, segments) && Scan(values, segments).Fine?
    requires Known(values, segments, k) && k < |segments|
    ensures var e, p, a, b := Expand(data, values, offset, segments), segments[k], Placed(values, segments, k), offset + Static(segments, k);
      && b + p.segsize <= |data| && a + p.segsize <= |e| && e[a..a+p.segsize] == data[b..b+p.segsize]
      && (if p.sysdepref == SEGMENTS_END then |e| == a + p.segsize
          else
            && p.sysdepref < |values| && values[p.sysdepref].Some?
            && var v := values[p.sysdepref].value; a + p.segsize + |v| <= |e| && e[a+p.segsize..a+p.segsize+|v|] == v)
    decreases k
  {
    hide Expand, Scan, Framed;
    ExpandStep(data, values, offset, segments);
    if k > 0 {
      KnownRest(values, segments, k);
      var p := segments[0];
      ExpandMeans(data, values, offset + p.segsize, segments[1..], k - 1);
      assert segments[1..][k-1] == segments[k];
      var piece, v := data[offset..offset+p.segsize], values[p.sysdepref].value;
      var rest := Expand(data, values, offset + p.segsize, segments[1..]);
      var q, a := segments[k], Placed(values, segments[1..], k - 1);
      Shifted(piece + v, rest, a, a + q.segsize);
      if q.sysdepref != SEGMENTS_END {
        Shifted(piece + v, rest, a + q.segsize, a + q.segsize + |values[q.sysdepref].value|);
      }
    }
  }

  lemma {:induction false} Shifted(front: seq<Byte>, rest: seq<Byte>, a: nat, b: nat)
    requires a <= b <= |rest|
    ensures (front + rest)[|front|+a..|front|+b] == rest[a..b]
  {
  }

  /** An id that is put together is what stands before the first NUL. */
  lemma {:induction false} IdEnds(bytes: seq<Byte>) returns (k: nat)
    requires 0 in bytes
    ensures k < |bytes| && bytes[k] == 0 && 0 !in bytes[..k] && D.Terminated(bytes) == bytes[..k]
  {
    if bytes[0] == 0 {
      k := 0;
    } else {
      var j := IdEnds(bytes[1..]);
      k := j + 1;
      assert bytes[..k] == [bytes[0]] + bytes[1..][..j];
    }
  }
}
