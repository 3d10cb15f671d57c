/** Splitting a locale name in place (intl/explodename.c) and normalising its codeset
    (`_nl_normalize_codeset` of intl/l10nflist.c). */
module LocaleName {
  import opened Basics

  // Codeset names

  predicate IsUpper(c: char) { 'A' <= c <= 'Z' }

  predicate IsAlpha(c: char) { IsUpper(c) || 'a' <= c <= 'z' }

  function ToLower(c: char): char { if IsUpper(c) then ((c as int) + 32) as char else c }

  /** The letters in lower case and the digits, in order. */
  function Kept(s: string): string {
    if s == "" then ""
    else
      var c := s[|s|-1];
      Kept(s[..|s|-1]) + if IsAlpha(c) then [ToLower(c)] else if IsDigit(c) then [c] else ""
  }

  predicate AnyAlpha(s: string) { exists i :: 0 <= i < |s| && IsAlpha(s[i]) }

  function Normalize(codeset: string): string {
    (if AnyAlpha(codeset) then "" else "iso") + Kept(codeset)
  }

  lemma {:induction false} KeptMore(s: string, c: char)
    ensures Kept(s + [c]) == Kept(s) + if IsAlpha(c) then [ToLower(c)] else if IsDigit(c) then [c] else ""
    ensures AnyAlpha(s + [c]) <==> AnyAlpha(s) || IsAlpha(c)
  {
    var t := s + [c];
    assert t[..|t|-1] == s && t[|t|-1] == c;
    if AnyAlpha(s) {
      var i :| 0 <= i < |s| && IsAlpha(s[i]);
      assert t[i] == s[i];
    }
  }

  method CountKept(codeset: string) returns (len: nat, only_digit: bool)
    ensures len == |Kept(codeset)| && (only_digit <==> !AnyAlpha(codeset))
  {
    len, only_digit := 0, true;
    var cnt := 0;
    ghost var s := "";
    while cnt < |codeset|
      invariant 0 <= cnt <= |codeset| && s == codeset[..cnt]
      invariant len == |Kept(s)| && (only_digit <==> !AnyAlpha(s))
    {
      KeptMore(s, codeset[cnt]);
      if IsAlpha(codeset[cnt]) || IsDigit(codeset[cnt]) {
        len := len + 1;
        if IsAlpha(codeset[cnt]) {
          only_digit := false;
        }
      }
      s := s + [codeset[cnt]];
      cnt := cnt + 1;
    }
    assert s == codeset;
  }

  /** The loop that writes the kept characters from `start` on. */
  method CopyKept(retval: array<char>, start: nat, codeset: string) returns (wp: nat)
    requires start + |Kept(codeset)| <= retval.Length
    modifies retval
    ensures wp == start + |Kept(codeset)| && retval[..wp] == old(retval[..start]) + Kept(codeset)
  {
    hide Kept, IsAlpha;
    wp := start;
    var cnt := 0;
    ghost var s, text := "", "";
    KeptNone();
    while cnt < |codeset|
      invariant 0 <= cnt <= |codeset| && s == codeset[..cnt] && text == Kept(s)
      invariant wp == start + |text| && |text| <= |Kept(codeset)| && retval[..wp] == old(retval[..start]) + text
    {
      var c := codeset[cnt];
      KeptMore(s, c);
      s := s + [c];
      assert s == codeset[..cnt+1];
      KeptGrows(codeset, cnt + 1);
      if IsAlpha(c) {
        retval[wp] := ToLower(c);
        wp := wp + 1;
        text := text + [ToLower(c)];
      } else if IsDigit(c) {
        retval[wp] := c;
        wp := wp + 1;
        text := text + [c];
      }
      cnt := cnt + 1;
    }
    assert s == codeset;
  }

  lemma {:induction false} KeptNone()
    ensures Kept("") == ""
  {
  }

  /** `_nl_normalize_codeset`: the result fills a block of the counted size. */
  method NormalizeCodeset(codeset: string) returns (retval: array<char>)
    ensures fresh(retval) && retval.Length == |Normalize(codeset)| + 1
    ensures retval[..retval.Length-1] == Normalize(codeset) && retval[retval.Length-1] == '\0'
  {
    hide Kept, AnyAlpha;
    var len, only_digit := CountKept(codeset);
    retval := new char[(if only_digit then 3 else 0) + len + 1];
    var wp := 0;
    if only_digit {
      retval[0], retval[1], retval[2] := 'i', 's', 'o';
      wp := 3;
    }
    assert retval[..wp] == if only_digit then "iso" else "";
    wp := CopyKept(retval, wp, codeset);
    retval[wp] := '\0';
  }

  lemma {:induction false} KeptGrows(s: string, n: nat)
    requires n <= |s|
    ensures |Kept(s[..n])| <= |Kept(s)|
    decreases |s| - n
  {
    if n < |s| {
      KeptMore(s[..n], s[n]);
      assert s[..n+1] == s[..n] + [s[n]];
      KeptGrows(s, n + 1);
    } else {
      assert s[..n] == s;
    }
  }

  predicate Plain(s: string) { forall i :: 0 <= i < |s| ==> 'a' <= s[i] <= 'z' || IsDigit(s[i]) }

  lemma {:induction false} KeptPlain(s: string)
    ensures Plain(Kept(s)) && (AnyAlpha(s) ==> AnyAlpha(Kept(s)))
  {
    if s != "" {
      var t, c := s[..|s|-1], s[|s|-1];
      KeptPlain(t);
      assert s == t + [c];
      KeptMore(t, c);
      var k := Kept(t);
      if AnyAlpha(k) {
        var i :| 0 <= i < |k| && IsAlpha(k[i]);
        assert Kept(s)[i] == k[i];
      }
      if IsAlpha(c) {
        assert IsAlpha(Kept(s)[|k|]);
      }
    }
  }

  lemma {:induction false} KeptSame(s: string)
    requires Plain(s)
    ensures Kept(s) == s
  {
    if s != "" {
      KeptSame(s[..|s|-1]);
      assert s == s[..|s|-1] + [s[|s|-1]];
    }
  }

  /** Normalising twice is normalising once. */
  lemma {:induction false} NormalizeTwice(codeset: string)
    ensures Normalize(Normalize(codeset)) == Normalize(codeset)
  {
    KeptPlain(codeset);
    var n := Normalize(codeset);
    assert "" + Kept(codeset) == Kept(codeset);
    assert AnyAlpha(n) by {
      if !AnyAlpha(codeset) {
        assert n[0] == 'i' && IsAlpha(n[0]);
      }
    }
    KeptSame(n);
  }

  // Splitting

  /** The first position from `p` on with one of the characters `stops`, or the end. */
  function Until(s: string, p: nat, stops: string): (q: nat)
    requires p <= |s|
    ensures p <= q <= |s| && (q < |s| ==> s[q] in stops)
    decreases |s| - p
  {
    if p == |s| || s[p] in stops then p else Until(s, p + 1, stops)
  }

  /** Which parts a name has and where each ends: `language` at `e0`, `territory` at `e1`, codeset at
      `e2`, modifier at `e3`, special at `e4`, sponsor at `e5` and revision at the end. */
  datatype Shape = Shape(e0: nat, territory: bool, e1: nat, codeset: bool, e2: nat, modifier: bool, xpg: bool,
                         e3: nat, special: bool, e4: nat, sponsor: bool, e5: nat, revision: bool)

  /** The parts of a name whose language ends at `e0`. */
  function ShapeFrom(s: string, e0: nat): Shape
    requires e0 <= |s|
  {
    var territory := Peek(s, e0) == '_';
    var e1 := if territory then Until(s, e0 + 1, ".@+,_") else e0;
    var codeset := territory && Peek(s, e1) == '.';
    var e2 := if codeset then Until(s, e1 + 1, "@") else e1;
    var modifier := Peek(s, e2) == '@' || (!codeset && Peek(s, e2) == '+');
    var xpg := if modifier then Peek(s, e2) == '@' else codeset;
    var e3 := if !modifier then e2 else if xpg then |s| else Until(s, e2 + 1, "+,_");
    var special := !xpg && Peek(s, e3) == '+';
    var e4 := if special then Until(s, e3 + 1, ",_") else e3;
    var sponsor := !xpg && Peek(s, e4) == ',';
    var e5 := if sponsor then Until(s, e4 + 1, "_") else e4;
    Shape(e0, territory, e1, codeset, e2, modifier, xpg, e3, special, e4, sponsor, e5, !xpg && Peek(s, e5) == '_')
  }

  /** A name without a language is left as it is. */
  function ShapeOf(s: string): Shape {
    var e := Until(s, 0, "_@+,");
    ShapeFrom(s, if e == 0 then |s| else e)
  }

  predicate NoNul(s: string) { forall i :: 0 <= i < |s| ==> s[i] != '\0' }

  predicate Ordered(s: string, x: Shape) {
    && x.e0 <= x.e1 <= x.e2 <= x.e3 <= x.e4 <= x.e5 <= |s|
    && (if x.territory then x.e0 < x.e1 && s[x.e0] == '_' else x.e1 == x.e0)
    && (if x.codeset then x.e1 < x.e2 && s[x.e1] == '.' else x.e2 == x.e1)
    && (if x.modifier then x.e2 < x.e3 && s[x.e2] == (if x.xpg then '@' else '+') else x.e3 == x.e2)
    && (if x.special then x.e3 < x.e4 && s[x.e3] == '+' else x.e4 == x.e3)
    && (if x.sponsor then x.e4 < x.e5 && s[x.e4] == ',' else x.e5 == x.e4)
    && (if x.revision then x.e5 < |s| && s[x.e5] == '_' else x.e5 == |s|)
  }

  /** Nothing is lost: each part ends where the next one starts, and the last one at the end. */
  lemma {:induction false} ShapeOrdered(s: string)
    requires NoNul(s)
    ensures Ordered(s, ShapeOf(s))
  {
  }

  /** Position `i` is a separator, which gets overwritten. */
  predicate IsCut(x: Shape, i: int) {
    || (x.territory && i == x.e0) || (x.codeset && i == x.e1) || (x.modifier && i == x.e2)
    || (x.special && i == x.e3) || (x.sponsor && i == x.e4) || (x.revision && i == x.e5)
  }

  /** The name after its separators have been overwritten. */
  function Punched(s: string, x: Shape): (t: string)
    ensures |t| == |s| && forall i :: 0 <= i < |s| ==> t[i] == if IsCut(x, i) then '\0' else s[i]
  {
    seq(|s|, i requires 0 <= i < |s| => if IsCut(x, i) then '\0' else s[i])
  }

  /** The C string at `p`. */
  function Piece(t: string, p: nat): string
    requires p <= |t|
    decreases |t| - p
  {
    if p == |t| || t[p] == '\0' then "" else [t[p]] + Piece(t, p + 1)
  }

  lemma {:induction false} PieceIs(s: string, x: Shape, a: nat, e: nat)
    requires NoNul(s) && a <= e <= |s| && (e == |s| || IsCut(x, e)) && forall i :: a <= i < e ==> !IsCut(x, i)
    ensures Piece(Punched(s, x), a) == s[a..e]
    decreases e - a
  {
    if a < e {
      PieceIs(s, x, a + 1, e);
    }
  }

  function Part(on: bool, sep: char, t: string, p: nat): string
    requires on ==> p <= |t|
  {
    if on then [sep] + Piece(t, p) else ""
  }

  predicate InRange(t: string, x: Shape) {
    && (x.territory ==> x.e0 < |t|) && (x.codeset ==> x.e1 < |t|) && (x.modifier ==> x.e2 < |t|)
    && (x.special ==> x.e3 < |t|) && (x.sponsor ==> x.e4 < |t|) && (x.revision ==> x.e5 < |t|)
  }

  function Seven(a: string, b: string, c: string, d: string, e: string, f: string, g: string): string {
    a + b + c + d + e + f + g
  }

  /** The pieces with their separators in front. */
  function Joined(t: string, x: Shape): string
    requires InRange(t, x)
  {
    Seven(Piece(t, 0), Part(x.territory, '_', t, x.e0 + 1), Part(x.codeset, '.', t, x.e1 + 1),
          Part(x.modifier, if x.xpg then '@' else '+', t, x.e2 + 1), Part(x.special, '+', t, x.e3 + 1),
          Part(x.sponsor, ',', t, x.e4 + 1), Part(x.revision, '_', t, x.e5 + 1))
  }

  /** No separator lies between `b` and `e`, and the text is cut at `e` or ends there. */
  predicate Between(x: Shape, b: int, e: nat, n: nat) {
    (e == n || IsCut(x, e)) && forall i :: b < i < e ==> !IsCut(x, i)
  }

  lemma {:induction false} PartIs(s: string, x: Shape, on: bool, sep: char, b: nat, e: nat)
    requires NoNul(s) && b <= e <= |s| && (if on then b < e && s[b] == sep && Between(x, b, e, |s|) else b == e)
    ensures Part(on, sep, Punched(s, x), b + 1) == s[b..e]
  {
    hide Punched, NoNul;
    if on {
      PieceIs(s, x, b + 1, e);
      assert s[b..e] == [s[b]] + s[b+1..e];
    }
  }

  lemma {:induction false} Telescope(s: string, a: nat, b: nat, c: nat, d: nat, e: nat, f: nat)
    requires a <= b <= c <= d <= e <= f <= |s|
    ensures Seven(s[0..a], s[a..b], s[b..c], s[c..d], s[d..e], s[e..f], s[f..|s|]) == s
  {
    assert s[0..a] + s[a..b] == s[0..b];
    assert s[0..b] + s[b..c] == s[0..c];
    assert s[0..c] + s[c..d] == s[0..d];
    assert s[0..d] + s[d..e] == s[0..e];
    assert s[0..e] + s[e..f] == s[0..f];
  }

  /** Splitting a name loses nothing: the pieces left in the overwritten name, each with its
      separator in front, make up the original name. */
  lemma {:induction false} SplitJoins(s: string)
    requires NoNul(s)
    ensures var x := ShapeOf(s); InRange(s, x) && Joined(Punched(s, x), x) == s
  {
    ShapeOrdered(s);
    PiecesJoin(s, ShapeOf(s));
  }

  lemma {:induction false} PiecesJoin(s: string, x: Shape)
    requires NoNul(s) && Ordered(s, x) && Between(x, -1, x.e0, |s|)
    requires (x.territory ==> Between(x, x.e0, x.e1, |s|)) && (x.codeset ==> Between(x, x.e1, x.e2, |s|))
    requires (x.modifier ==> Between(x, x.e2, x.e3, |s|)) && (x.special ==> Between(x, x.e3, x.e4, |s|))
    requires (x.sponsor ==> Between(x, x.e4, x.e5, |s|)) && (x.revision ==> Between(x, x.e5, |s|, |s|))
    ensures InRange(s, x) && Joined(Punched(s, x), x) == s
  {
    hide Piece, Part, NoNul, IsCut, Between, Punched, Seven;
    FirstPiece(s, x);
    PartIs(s, x, x.territory, '_', x.e0, x.e1);
    PartIs(s, x, x.codeset, '.', x.e1, x.e2);
    PartIs(s, x, x.modifier, if x.xpg then '@' else '+', x.e2, x.e3);
    PartIs(s, x, x.special, '+', x.e3, x.e4);
    PartIs(s, x, x.sponsor, ',', x.e4, x.e5);
    PartIs(s, x, x.revision, '_', x.e5, |s|);
    Telescope(s, x.e0, x.e1, x.e2, x.e3, x.e4, x.e5);
  }

  lemma {:induction false} FirstPiece(s: string, x: Shape)
    requires NoNul(s) && x.e0 <= |s| && Between(x, -1, x.e0, |s|)
    ensures Piece(Punched(s, x), 0) == s[0..x.e0]
  {
    hide Punched, IsCut;
    PieceIs(s, x, 0, x.e0);
  }

  // The function itself

  /** The bits of the result, lowest first. */
  datatype Mask = Mask(revision: bool, sponsor: bool, special: bool, norm_codeset: bool,
                       codeset: bool, territory: bool, audience: bool, modifier: bool)

  /** Where the pieces start; None is a null pointer. */
  datatype Pieces = Pieces(territory: Option<nat>, codeset: Option<nat>, normalized: Option<string>,
                           modifier: Option<nat>, special: Option<nat>, sponsor: Option<nat>, revision: Option<nat>)

  /** The codeset counts as not normalised when it differs from its normalised form up to the end of
      the name: with a modifier behind it, it always does. */
  predicate Unnormalized(s: string, x: Shape)
    requires x.codeset ==> x.e1 < x.e2 <= |s|
  {
    x.codeset && x.e1 + 1 < x.e2 && Normalize(s[x.e1+1..x.e2]) != s[x.e1+1..]
  }

  function MaskOf(s: string, x: Shape): Mask
    requires Ordered(s, x)
  {
    Mask(x.revision, x.sponsor, x.special, Unnormalized(s, x),
         x.codeset && !(x.xpg && x.e2 == x.e1 + 1),
         x.territory && !(x.xpg && x.e1 == x.e0 + 1),
         x.modifier,
         x.modifier && !(x.xpg && x.e3 == x.e2 + 1))
  }

  function At(on: bool, cut: nat): Option<nat> { if on then Some(cut + 1) else None }

  function PiecesOf(s: string, x: Shape): Pieces
    requires Ordered(s, x)
  {
    Pieces(At(x.territory, x.e0), At(x.codeset, x.e1),
           if Unnormalized(s, x) then Some(Normalize(s[x.e1+1..x.e2])) else None,
           At(x.modifier, x.e2), At(x.special, x.e3), At(x.sponsor, x.e4), At(x.revision, x.e5))
  }

  /** Every bit that is set has its piece. */
  lemma {:induction false} BitsHavePieces(s: string)
    requires NoNul(s)
    ensures Ordered(s, ShapeOf(s))
    ensures var m, p := MaskOf(s, ShapeOf(s)), PiecesOf(s, ShapeOf(s));
      && (m.territory ==> p.territory.Some?) && (m.codeset ==> p.codeset.Some?) && (m.norm_codeset <==> p.normalized.Some?)
      && (m.modifier ==> p.modifier.Some?) && (m.audience <==> p.modifier.Some?) && (m.special <==> p.special.Some?)
      && (m.sponsor <==> p.sponsor.Some?) && (m.revision <==> p.revision.Some?)
      && (m.norm_codeset ==> m.codeset)
  {
    ShapeOrdered(s);
  }

  function Blot(t: string, on: bool, i: nat): (r: string)
    requires on ==> i < |t|
    ensures |r| == |t|
  {
    if on then t[i := '\0'] else t
  }

  /** From `cp` on the name is still as it was. */
  ghost predicate Ahead(name: array<char>, s: string, cp: nat)
    reads name
  {
    && name.Length == |s| + 1 && cp <= |s| && name[|s|] == '\0' && NoNul(s)
    && forall i :: cp <= i < |s| ==> name[i] == s[i]
  }

  lemma {:induction false} AheadChar(name: array<char>, s: string, cp: nat)
    requires Ahead(name, s, cp)
    ensures name.Length == |s| + 1 && cp <= |s| && name[cp] == Peek(s, cp)
  {
  }

  /** One part: if it is there, overwrite its separator and find its end. */
  method Section(name: array<char>, cp: nat, on: bool, stops: string, ghost s: string) returns (start: Option<nat>, next: nat)
    requires Ahead(name, s, cp) && (on ==> cp < |s|)
    modifies name
    ensures start == At(on, cp) && next == (if on then Until(s, cp + 1, stops) else cp)
    ensures Ahead(name, s, next) && name[..|s|] == Blot(old(name[..|s|]), on, cp)
    ensures on ==> name[cp+1..|s|] == s[cp+1..]
  {
    start, next := None, cp;
    if on {
      name[cp] := '\0';
      next := next + 1;
      start := Some(next);
      assert name[..|s|] == old(name[..|s|])[cp := '\0'];
      next := ScanTo(name, next, stops, s);
    }
  }

  method ScanTo(name: array<char>, p: nat, stops: string, ghost s: string) returns (q: nat)
    requires name.Length == |s| + 1 && p <= |s| && name[|s|] == '\0' && NoNul(s)
    requires forall i :: p <= i < |s| ==> name[i] == s[i]
    ensures q == Until(s, p, stops)
  {
    q := p;
    while name[q] != '\0' && name[q] !in stops
      invariant p <= q <= |s| && Until(s, q, stops) == Until(s, p, stops)
      decreases |s| - q
    {
      q := q + 1;
    }
  }

  /** The name after all its parts have been overwritten one by one. */
  lemma {:induction false} BlotAll(s: string, x: Shape)
    requires Ordered(s, x)
    ensures Blot(Blot(Blot(Blot(Blot(Blot(s, x.territory, x.e0), x.codeset, x.e1), x.modifier, x.e2),
                 x.special, x.e3), x.sponsor, x.e4), x.revision, x.e5) == Punched(s, x)
  {
  }

  /** A piece is empty when its end follows its separator at once. */
  lemma {:induction false} EmptyPiece(s: string, x: Shape, name: string)
    requires NoNul(s) && Ordered(s, x) && |name| == |s| + 1 && name[|s|] == '\0' && name[..|s|] == Punched(s, x)
    ensures x.territory ==> (name[x.e0+1] == '\0' <==> x.e1 == x.e0 + 1)
    ensures x.codeset ==> (name[x.e1+1] == '\0' <==> x.e2 == x.e1 + 1)
    ensures x.modifier ==> (name[x.e2+1] == '\0' <==> x.e3 == x.e2 + 1)
  {
    assert forall i :: 0 <= i < |s| ==> name[i] == name[..|s|][i];
  }

  /** The language, and the position where the other parts start. */
  method FindLanguage(name: array<char>, ghost s: string) returns (cp: nat)
    requires name.Length == |s| + 1 && name[|s|] == '\0' && name[..|s|] == s && NoNul(s)
    ensures cp <= |s| && ShapeOf(s) == ShapeFrom(s, cp)
  {
    hide ShapeFrom, Until;
    assert forall i :: 0 <= i < |s| ==> name[i] == s[i] by { assert name[..|s|] == s; }
    cp := ScanTo(name, 0, "_@+,", s);
    if cp == 0 {
      cp := name.Length - 1;
    }
  }

  /** The comparison of the codeset with its normalised form. */
  method NormalForm(name: array<char>, on: bool, start: nat, cp: nat, ghost s: string) returns (normalized: Option<string>)
    requires name.Length == |s| + 1 && (on ==> start <= cp <= |s| && name[start..|s|] == s[start..])
    ensures normalized ==
      if on && start < cp && Normalize(s[start..cp]) != s[start..] then Some(Normalize(s[start..cp])) else None
  {
    hide Normalize;
    normalized := None;
    if on && start != cp {
      assert name[start..cp] == name[start..|s|][..cp-start] && s[start..cp] == s[start..][..cp-start];
      var norm := NormalizeCodeset(name[start..cp]);
      if norm[..norm.Length-1] != name[start..name.Length-1] {
        normalized := Some(norm[..norm.Length-1]);
      }
    }
  }

  /** Territory and codeset. */
  method ExplodeFront(name: array<char>, ghost s: string)
      returns (territory: Option<nat>, codeset: Option<nat>, normalized: Option<string>, cp: nat)
    requires name.Length == |s| + 1 && name[|s|] == '\0' && name[..|s|] == s && NoNul(s)
    modifies name
    ensures var x := ShapeOf(s);
      && Ordered(s, x) && cp == x.e2 && territory == At(x.territory, x.e0) && codeset == At(x.codeset, x.e1)
      && normalized == (if Unnormalized(s, x) then Some(Normalize(s[x.e1+1..x.e2])) else None)
      && name[..|s|] == Blot(Blot(s, x.territory, x.e0), x.codeset, x.e1) && Ahead(name, s, cp)
  {
    hide Until, Normalize, NoNul, Blot, Punched, ShapeOf, Ahead;
    ShapeOrdered(s);
    cp := FindLanguage(name, s);
    assert Ahead(name, s, cp) by { Untouched(name, s, cp); }
    AheadChar(name, s, cp);
    var on := name[cp] == '_';
    territory, cp := Section(name, cp, on, ".@+,_", s);
    AheadChar(name, s, cp);
    on := territory.Some? && name[cp] == '.';
    var start := cp + 1;
    codeset, cp := Section(name, cp, on, "@", s);
    normalized := NormalForm(name, on, start, cp, s);
  }

  lemma {:induction false} Untouched(name: array<char>, s: string, cp: nat)
    requires name.Length == |s| + 1 && name[|s|] == '\0' && name[..|s|] == s && NoNul(s) && cp <= |s|
    ensures Ahead(name, s, cp)
  {
    assert forall i :: 0 <= i < |s| ==> name[i] == name[..|s|][i];
  }

  /** The modifier, in either syntax. */
  method ExplodeModifier(name: array<char>, start: nat, codeset: bool, ghost s: string, ghost x: Shape)
      returns (modifier: Option<nat>, xpg: bool, cp: nat)
    requires Ahead(name, s, start) && Ordered(s, x) && x == ShapeFrom(s, x.e0) && start == x.e2 && codeset == x.codeset
    modifies name
    ensures modifier == At(x.modifier, x.e2) && xpg == x.xpg && cp == x.e3
    ensures Ahead(name, s, cp) && name[..|s|] == Blot(old(name[..|s|]), x.modifier, x.e2)
  {
    hide Until, NoNul, Blot, Punched, Ahead;
    xpg, cp := codeset, start;
    AheadChar(name, s, cp);
    var on := name[cp] == '@' || (!xpg && name[cp] == '+');
    if on {
      xpg := name[cp] == '@';
    }
    modifier, cp := Section(name, cp, on, if on && xpg then "" else "+,_", s);
  }

  /** Special, sponsor and revision, in CEN syntax. */
  method ExplodeCen(name: array<char>, start: nat, xpg: bool, ghost s: string, ghost x: Shape)
      returns (special: Option<nat>, sponsor: Option<nat>, revision: Option<nat>)
    requires Ahead(name, s, start) && Ordered(s, x) && x == ShapeFrom(s, x.e0) && start == x.e3 && xpg == x.xpg
    modifies name
    ensures special == At(x.special, x.e3) && sponsor == At(x.sponsor, x.e4) && revision == At(x.revision, x.e5)
    ensures name.Length == |s| + 1 && name[|s|] == '\0'
    ensures name[..|s|] == Blot(Blot(Blot(old(name[..|s|]), x.special, x.e3), x.sponsor, x.e4), x.revision, x.e5)
  {
    hide Until, NoNul, Blot, Punched, Ahead;
    var cp := start;
    AheadChar(name, s, cp);
    var on := !xpg && name[cp] == '+';
    special, cp := Section(name, cp, on, ",_", s);
    AheadChar(name, s, cp);
    on := !xpg && name[cp] == ',';
    sponsor, cp := Section(name, cp, on, "_", s);
    AheadChar(name, s, cp);
    on := !xpg && name[cp] == '_';
    revision, cp := Section(name, cp, on, "", s);
  }

  lemma {:induction false} ShapeStart(s: string)
    ensures ShapeOf(s) == ShapeFrom(s, ShapeOf(s).e0)
  {
    hide Until;
  }

  /** The mask, from the pieces and the overwritten name. */
  method MaskBits(name: array<char>, xpg: bool, p: Pieces, ghost s: string, ghost x: Shape) returns (mask: Mask)
    requires NoNul(s) && Ordered(s, x) && name.Length == |s| + 1 && name[|s|] == '\0' && name[..|s|] == Punched(s, x)
    requires p == PiecesOf(s, x) && xpg == x.xpg
    ensures mask == MaskOf(s, x)
  {
    hide Punched, Unnormalized, NoNul;
    EmptyPiece(s, x, name[..]);
    mask := Mask(p.revision.Some?, p.sponsor.Some?, p.special.Some?, p.normalized.Some?,
                 p.codeset.Some?, p.territory.Some?, p.modifier.Some?, p.modifier.Some?);
    if xpg {
      if p.territory.Some? && name[p.territory.value] == '\0' {
        mask := mask.(territory := false);
      }
      if p.codeset.Some? && name[p.codeset.value] == '\0' {
        mask := mask.(codeset := false);
      }
      if p.modifier.Some? && name[p.modifier.value] == '\0' {
        mask := mask.(modifier := false);
      }
    }
  }

  /** `_nl_explode_name`: overwrites the separators and reports pieces and mask. */
  method ExplodeName(name: array<char>, ghost s: string) returns (mask: Mask, pieces: Pieces)
    requires name.Length == |s| + 1 && name[|s|] == '\0' && name[..|s|] == s && NoNul(s)
    modifies name
    ensures Ordered(s, ShapeOf(s))
    ensures name[..|s|] == Punched(s, ShapeOf(s)) && name[|s|] == '\0'
    ensures pieces == PiecesOf(s, ShapeOf(s)) && mask == MaskOf(s, ShapeOf(s))
  {
    hide Normalize, NoNul, Blot, Punched, ShapeOf, ShapeFrom, Unnormalized, MaskOf, Ahead;
    ghost var x := ShapeOf(s);
    ShapeStart(s);
    var territory, codeset, normalized, cp := ExplodeFront(name, s);
    var modifier, xpg, next := ExplodeModifier(name, cp, codeset.Some?, s, x);
    var special, sponsor, revision := ExplodeCen(name, next, xpg, s, x);
    BlotAll(s, x);
    pieces := Pieces(territory, codeset, normalized, modifier, special, sponsor, revision);
    mask := MaskBits(name, xpg, pieces, s, x);
  }

}
