/** Exploding a locale name (intl/explodename.c) and building a file name from its pieces
    (intl/l10nflist.c) are inverse to each other. */
module LocaleRound {
  import opened Basics
  import opened LocaleMask
  import opened LocaleList
  import opened LocaleName

  /** The characters are those of a C string. */
  predicate Narrow(s: string) { forall i :: 0 <= i < |s| ==> 0 < s[i] as int < 256 }

  function Codes(s: string): (t: CString)
    requires Narrow(s)
    ensures |t| == |s|
  {
    seq(|s|, i requires 0 <= i < |s| => s[i] as int)
  }

  /** The C string that starts at a piece, or none. */
  function Word(t: string, piece: Option<nat>): string
    requires piece.Some? ==> piece.value <= |t|
  {
    if piece.Some? then Piece(t, piece.value) else ""
  }

  /** The pieces of an exploded name as words. */
  function WordsOf(s: string, x: Shape): Words
    requires NoNul(s) && Narrow(s) && Ordered(s, x)
  {
    var t, p := Punched(s, x), PiecesOf(s, x);
    AllNarrow(s, x);
    Words(Codes(Piece(t, 0)), Codes(Word(t, p.territory)), Codes(Word(t, p.codeset)), [],
          Codes(Word(t, p.modifier)), Codes(Word(t, p.special)), Codes(Word(t, p.sponsor)), Codes(Word(t, p.revision)))
  }

  lemma {:induction false} PieceNarrow(s: string, t: string, p: nat)
    requires Narrow(s) && |t| == |s| && p <= |t| && forall i :: 0 <= i < |s| ==> t[i] == s[i] || t[i] == '\0'
    ensures Narrow(Piece(t, p))
    decreases |t| - p
  {
    if p < |t| && t[p] != '\0' {
      PieceNarrow(s, t, p + 1);
    }
  }

  lemma {:induction false} AllNarrow(s: string, x: Shape)
    requires NoNul(s) && Narrow(s) && Ordered(s, x)
    ensures InRange(Punched(s, x), x)
    ensures var p, t := PiecesOf(s, x), Punched(s, x);
      && (p.territory.Some? ==> p.territory.value <= |t|) && (p.codeset.Some? ==> p.codeset.value <= |t|)
      && (p.modifier.Some? ==> p.modifier.value <= |t|) && (p.special.Some? ==> p.special.value <= |t|)
      && (p.sponsor.Some? ==> p.sponsor.value <= |t|) && (p.revision.Some? ==> p.revision.value <= |t|)
      && Narrow(Piece(t, 0)) && Narrow(Word(t, p.territory)) && Narrow(Word(t, p.codeset)) && Narrow(Word(t, p.modifier))
      && Narrow(Word(t, p.special)) && Narrow(Word(t, p.sponsor)) && Narrow(Word(t, p.revision))
  {
    hide Piece, Narrow, Unnormalized;
    var t := Punched(s, x);
    forall q: nat | q <= |t| ensures Narrow(Piece(t, q)) {
      PieceNarrow(s, t, q);
    }
    assert Narrow("") by { NoneNarrow(); }
  }

  lemma {:induction false} NoneNarrow()
    ensures Narrow("")
  {
  }

  /** The mask of the parts that the name has, in its own syntax. */
  function Present(x: Shape): nat {
    (if x.revision then 1 else 0) + (if x.sponsor then 2 else 0) + (if x.special then 4 else 0) + (if x.codeset then 16 else 0)
    + (if x.territory then 32 else 0) + (if x.modifier && !x.xpg then 64 else 0) + (if x.modifier && x.xpg then 128 else 0)
  }

  lemma {:induction false} PresentHas(x: Shape)
    ensures var m := Present(x);
      && (Has(m, CEN_REVISION) <==> x.revision) && (Has(m, CEN_SPONSOR) <==> x.sponsor) && (Has(m, CEN_SPECIAL) <==> x.special)
      && !Has(m, XPG_NORM_CODESET) && (Has(m, XPG_CODESET) <==> x.codeset) && (Has(m, TERRITORY) <==> x.territory)
      && (Has(m, CEN_AUDIENCE) <==> x.modifier && !x.xpg) && (Has(m, XPG_MODIFIER) <==> x.modifier && x.xpg)
  {
  }

  lemma {:induction false} CodesJoin(a: string, b: string)
    requires Narrow(a) && Narrow(b)
    ensures Narrow(a + b) && Codes(a + b) == Codes(a) + Codes(b)
  {
  }

  /** A part of the name with its separator, as characters and as codes. */
  lemma {:induction false} PartCodes(on: bool, sep: char, t: string, p: nat)
    requires (on ==> p <= |t| && Narrow(Piece(t, p))) && 0 < sep as int < 256
    ensures Narrow(Part(on, sep, t, p))
    ensures Codes(Part(on, sep, t, p)) == If(on, Lead(sep as int, Codes(if on then Piece(t, p) else "")))
  {
    hide Piece;
    if on {
      CodesJoin([sep], Piece(t, p));
      assert Codes([sep]) == [sep as int];
    }
  }

  lemma {:induction false} JoinNine(p: seq<CString>)
    requires |p| == 9
    ensures Join(p) == p[0] + p[1] + p[2] + p[3] + p[4] + p[5] + p[6] + p[7] + p[8]
  {
    hide Join, Total;
    TotalNone();
    TotalMore(p, 0);
    TotalMore(p, 1);
    TotalMore(p, 2);
    TotalMore(p, 3);
    TotalMore(p, 4);
    TotalMore(p, 5);
    TotalMore(p, 6);
    TotalMore(p, 7);
    TotalMore(p, 8);
    assert p[..9] == p && p[..0] == [];
    assert [] + p[0] == p[0];
  }

  /** The parts of the file name in terms of the parts of the name, in codes. */
  lemma {:induction false} PartsOf(dirs: seq<CString>, mask: nat, w: Words, filename: CString, x: Shape,
                                   a: CString, b: CString, c: CString, d: CString, e: CString, f: CString, g: CString)
    requires mask == Present(x) && w.language == a && If(x.territory, Lead(95, w.territory)) == b && If(x.codeset, Lead(46, w.codeset)) == c
    requires If(x.modifier, Lead(if x.xpg then 64 else 43, w.modifier)) == d && If(x.special, Lead(43, w.special)) == e
    requires If(x.sponsor, Lead(44, w.sponsor)) == f && If(x.revision, Lead(95, w.revision)) == g
    ensures Name(dirs, mask, w, filename) ==
      DirText(dirs) + a + b + c + [] + d + e + ((if x.revision && !x.sponsor then [44] else []) + f + g) + ([47] + filename)
  {
    hide DirText, Has, Present, Join, SponsorText;
    PresentHas(x);
    JoinNine(NameParts(dirs, mask, w, filename));
    SponsorPart(x.sponsor, x.revision, w, mask);
    Plainly(w.normalized, filename);
  }

  lemma {:induction false} Plainly(normalized: CString, filename: CString)
    ensures If(false, Lead(46, normalized)) == [] && Lead(47, filename) == [47] + filename
  {
  }

  lemma {:induction false} SponsorPart(sponsor: bool, revision: bool, w: Words, mask: nat)
    requires (Has(mask, CEN_SPONSOR) <==> sponsor) && (Has(mask, CEN_REVISION) <==> revision)
    ensures If(Sponsored(mask), Lead(44, SponsorText(mask, w))) ==
      (if revision && !sponsor then [44] else []) + If(sponsor, Lead(44, w.sponsor)) + If(revision, Lead(95, w.revision))
  {
    hide Has;
    Commas(if sponsor then w.sponsor else [], if revision then [95] + w.revision else []);
  }

  lemma {:induction false} Commas(a: seq<int>, b: seq<int>)
    ensures [44] + (a + b) == [44] + a + b && [44] + ([] + b) == [44] + [] + b && [44] + (a + []) == [] + ([44] + a) + []
    ensures [] + ([44] + a) + b == [44] + a + b
  {
  }

  /** Building the file name from all pieces of a name gives the name back, between the directories and
      the file, unless it has a revision and no sponsor: then a comma is written that was not there. */
  lemma {:induction false} NameRejoins(s: string, dirs: seq<CString>, filename: CString)
    requires NoNul(s) && Narrow(s)
    ensures Ordered(s, ShapeOf(s))
    ensures Rebuilds(s, ShapeOf(s), dirs, filename) <==> (ShapeOf(s).revision ==> ShapeOf(s).sponsor)
  {
    hide ShapeOf, Joined, Name, Rebuilds, Ordered, Narrow;
    ShapeOrdered(s);
    SplitJoins(s);
    Rejoins(s, ShapeOf(s), dirs, filename);
  }

  predicate Rebuilds(s: string, x: Shape, dirs: seq<CString>, filename: CString)
    requires NoNul(s) && Narrow(s) && Ordered(s, x)
  {
    Name(dirs, Present(x), WordsOf(s, x), filename) == DirText(dirs) + Codes(s) + ([47] + filename)
  }

  lemma {:induction false} Rejoins(s: string, x: Shape, dirs: seq<CString>, filename: CString)
    requires NoNul(s) && Narrow(s) && Ordered(s, x) && InRange(Punched(s, x), x) && Joined(Punched(s, x), x) == s
    ensures Rebuilds(s, x, dirs, filename) <==> (x.revision ==> x.sponsor)
  {
    hide Piece, Narrow, DirText, Codes, Present, Punched, Part, Join, Name, Ordered, Lead, If, WordsOf;
    SectionCodes(s, x);
    var t, w := Punched(s, x), WordsOf(s, x);
    var a, b, c := Piece(t, 0), Part(x.territory, '_', t, x.e0 + 1), Part(x.codeset, '.', t, x.e1 + 1);
    var d, e := Part(x.modifier, if x.xpg then '@' else '+', t, x.e2 + 1), Part(x.special, '+', t, x.e3 + 1);
    var f, g := Part(x.sponsor, ',', t, x.e4 + 1), Part(x.revision, '_', t, x.e5 + 1);
    PartsOf(dirs, Present(x), w, filename, x, Codes(a), Codes(b), Codes(c), Codes(d), Codes(e), Codes(f), Codes(g));
    SevenCodes(a, b, c, d, e, f, g, DirText(dirs), if x.revision && !x.sponsor then [44] else [], [47] + filename);
  }

  lemma {:induction false} SectionCodes(s: string, x: Shape)
    requires NoNul(s) && Narrow(s) && Ordered(s, x)
    ensures InRange(Punched(s, x), x) && SectionsFit(x, Punched(s, x), WordsOf(s, x))
  {
    hide Piece, Narrow, Unnormalized, Codes, Punched, FitsPart, Word;
    var t := Punched(s, x);
    AllNarrow(s, x);
    OnePart(t, x.territory, x.e0, '_');
    OnePart(t, x.codeset, x.e1, '.');
    OnePart(t, x.modifier, x.e2, if x.xpg then '@' else '+');
    OnePart(t, x.special, x.e3, '+');
    OnePart(t, x.sponsor, x.e4, ',');
    OnePart(t, x.revision, x.e5, '_');
  }

  lemma {:induction false} OnePart(t: string, on: bool, cut: nat, sep: char)
    requires (on ==> cut + 1 <= |t|) && Narrow(Word(t, At(on, cut))) && 0 < sep as int < 256
    ensures FitsPart(on, sep, t, cut + 1, Codes(Word(t, At(on, cut))))
  {
    hide Piece, Codes, Narrow;
    PartCodes(on, sep, t, cut + 1);
  }

  /** The words are the sections of the name, without their separators. */
  predicate SectionsFit(x: Shape, t: string, w: Words)
    requires InRange(t, x)
  {
    && Narrow(Piece(t, 0)) && w.language == Codes(Piece(t, 0))
    && FitsPart(x.territory, '_', t, x.e0 + 1, w.territory) && FitsPart(x.codeset, '.', t, x.e1 + 1, w.codeset)
    && FitsPart(x.modifier, if x.xpg then '@' else '+', t, x.e2 + 1, w.modifier) && FitsPart(x.special, '+', t, x.e3 + 1, w.special)
    && FitsPart(x.sponsor, ',', t, x.e4 + 1, w.sponsor) && FitsPart(x.revision, '_', t, x.e5 + 1, w.revision)
  }

  predicate FitsPart(on: bool, sep: char, t: string, p: nat, word: CString)
    requires on ==> p <= |t|
  {
    && 0 < sep as int < 256 && Narrow(Part(on, sep, t, p))
    && Codes(Part(on, sep, t, p)) == If(on, Lead(sep as int, word))
  }

  lemma {:induction false} SevenCodes(a: string, b: string, c: string, d: string, e: string, f: string, g: string,
                                      dirs: seq<int>, comma: seq<int>, file: seq<int>)
    requires Narrow(a) && Narrow(b) && Narrow(c) && Narrow(d) && Narrow(e) && Narrow(f) && Narrow(g)
    ensures Narrow(Seven(a, b, c, d, e, f, g))
    ensures (dirs + Codes(a) + Codes(b) + Codes(c) + [] + Codes(d) + Codes(e) + (comma + Codes(f) + Codes(g)) + file
              == dirs + Codes(Seven(a, b, c, d, e, f, g)) + file) <==> comma == []
  {
    hide Narrow, Codes;
    CodesJoin(a, b);
    CodesJoin(a + b, c);
    CodesJoin(a + b + c, d);
    CodesJoin(a + b + c + d, e);
    CodesJoin(a + b + c + d + e, f);
    CodesJoin(a + b + c + d + e + f, g);
    Regrouped(dirs, Codes(a), Codes(b), Codes(c), Codes(d), Codes(e), comma, Codes(f), Codes(g), file);
  }

  lemma {:induction false} Regrouped(dirs: seq<int>, a: seq<int>, b: seq<int>, c: seq<int>, d: seq<int>, e: seq<int>, comma: seq<int>,
                                     f: seq<int>, g: seq<int>, file: seq<int>)
    ensures (dirs + a + b + c + [] + d + e + (comma + f + g) + file == dirs + (a + b + c + d + e + f + g) + file) <==> comma == []
  {
    var l, r := dirs + a + b + c + [] + d + e + (comma + f + g) + file, dirs + (a + b + c + d + e + f + g) + file;
    assert |l| == |r| + |comma|;
    if comma == [] {
      assert dirs + a + b + c + [] + d + e == dirs + (a + b + c + d + e);
      assert comma + f + g == f + g;
      assert l == dirs + (a + b + c + d + e) + (f + g) + file;
      assert dirs + (a + b + c + d + e) + (f + g) == dirs + (a + b + c + d + e + f + g);
    }
  }

  /** With one directory its name and a slash stand in front, with none nothing does. */
  lemma {:induction false} Directory(dir: CString)
    ensures DirText([dir]) == dir + [47] && DirText([]) == []
  {
  }

  /** A normalised codeset stands where the codeset would. */
  lemma {:induction false} NormalizedStands(x: Shape, w: Words, dirs: seq<CString>, filename: CString)
    requires x.codeset
    ensures Name(dirs, Present(x) - 16 + 8, w, filename) == Name(dirs, Present(x), w.(codeset := w.normalized), filename)
  {
    hide Has, Present, DirText, Join, SponsorText;
    PresentHas(x);
    InsteadHas(x);
    var m, n := Present(x) - 16 + 8, Present(x);
    var v := w.(codeset := w.normalized);
    var p, q := NameParts(dirs, m, w, filename), NameParts(dirs, n, v, filename);
    SponsorPart(x.sponsor, x.revision, w, m);
    SponsorPart(x.sponsor, x.revision, v, n);
    assert p[3] == [] && q[4] == [] && p[4] == q[3] && p[5] == q[5] && p[6] == q[6] && p[7] == q[7];
    JoinSwap(p, q);
  }

  lemma {:induction false} JoinSwap(p: seq<CString>, q: seq<CString>)
    requires |p| == |q| == 9 && p[0] == q[0] && p[1] == q[1] && p[2] == q[2] && p[3] == [] && q[4] == [] && p[4] == q[3]
    requires p[5] == q[5] && p[6] == q[6] && p[7] == q[7] && p[8] == q[8]
    ensures Join(p) == Join(q)
  {
    hide Join;
    JoinNine(p);
    JoinNine(q);
    var front := p[0] + p[1] + p[2];
    assert front + [] + p[4] == front + p[4] + [];
  }

  lemma {:induction false} InsteadHas(x: Shape)
    requires x.codeset
    ensures Present(x) >= 16
    ensures var m := Present(x) - 16 + 8;
      && (Has(m, CEN_REVISION) <==> x.revision) && (Has(m, CEN_SPONSOR) <==> x.sponsor) && (Has(m, CEN_SPECIAL) <==> x.special)
      && Has(m, XPG_NORM_CODESET) && !Has(m, XPG_CODESET) && (Has(m, TERRITORY) <==> x.territory)
      && (Has(m, CEN_AUDIENCE) <==> x.modifier && !x.xpg) && (Has(m, XPG_MODIFIER) <==> x.modifier && x.xpg)
  {
  }

  /** Without a letter "iso" is put in front; letters and digits are kept in order, the capital ones in
      lower case, and everything else is dropped. */
  lemma {:induction false} NormalForms(s: string, t: string, c: char)
    ensures Normalize(s) == (if exists i :: 0 <= i < |s| && IsAlpha(s[i]) then "" else "iso") + Kept(s)
    ensures Kept(s + t) == Kept(s) + Kept(t) && Kept("") == ""
    ensures 'a' <= c <= 'z' || '0' <= c <= '9' ==> Kept([c]) == [c]
    ensures 'A' <= c <= 'Z' ==> Kept([c]) == [((c - 'A') as int + 'a' as int) as char]
    ensures !('a' <= c <= 'z' || '0' <= c <= '9' || 'A' <= c <= 'Z') ==> Kept([c]) == ""
  {
    KeptAppend(s, t);
    KeptMore("", c);
    assert "" + [c] == [c];
  }

  lemma {:induction false} KeptAppend(s: string, t: string)
    ensures Kept(s + t) == Kept(s) + Kept(t)
  {
    if t == "" {
      assert s + t == s;
    } else {
      var u, c := t[..|t|-1], t[|t|-1];
      KeptAppend(s, u);
      KeptMore(s + u, c);
      KeptMore(u, c);
      assert s + t == s + u + [c] && t == u + [c];
    }
  }

  // The grammar of locale names

  /** No character of `s` from `a` to `e` is one of `stops`. */
  predicate Clear(s: string, a: nat, e: nat, stops: string)
    requires e <= |s|
  {
    forall i :: a <= i < e ==> s[i] !in stops
  }

  /** Parts in the order language, territory, codeset, modifier, special, sponsor, revision, each with its
      separator in front and ending before the next one: a codeset follows a territory; "@" starts the
      modifier of an XPG name, which nothing follows, and "+" that of a CEN name, without a codeset; a
      special part follows such a modifier; and a revision does not follow the language at once. */
  predicate Grammatical(s: string, x: Shape) {
    && Ordered(s, x) && x.e0 > 0
    && (x.codeset ==> x.territory && x.xpg)
    && (x.xpg ==> (x.codeset || x.modifier) && !x.special && !x.sponsor && !x.revision)
    && (x.special ==> x.modifier)
    && (x.revision ==> x.territory || x.modifier || x.sponsor)
    && Clear(s, 0, x.e0, "_@+,")
    && (x.territory ==> Clear(s, x.e0 + 1, x.e1, ".@+,_"))
    && (x.codeset ==> Clear(s, x.e1 + 1, x.e2, "@"))
    && (x.modifier && !x.xpg ==> Clear(s, x.e2 + 1, x.e3, "+,_"))
    && (x.special ==> Clear(s, x.e3 + 1, x.e4, ",_"))
    && (x.sponsor ==> Clear(s, x.e4 + 1, x.e5, "_"))
  }

  lemma {:induction false} UntilIs(s: string, p: nat, q: nat, stops: string)
    requires p <= q <= |s|
    ensures Until(s, p, stops) == q <==> Clear(s, p, q, stops) && (q == |s| || s[q] in stops)
    decreases q - p
  {
    if p < q {
      UntilIs(s, p + 1, q, stops);
    }
  }

  /** The language ends where it is said to. */
  lemma {:induction false} LanguageIs(s: string, e: nat)
    requires 0 < e <= |s| && Clear(s, 0, e, "_@+,") && (e == |s| || s[e] in "_@+,")
    ensures ShapeOf(s) == ShapeFrom(s, e)
  {
    hide ShapeFrom;
    UntilIs(s, 0, e, "_@+,");
  }

  /** The separators are where the parts begin. */
  lemma {:induction false} Separators(s: string, x: Shape)
    requires NoNul(s) && Grammatical(s, x)
    ensures (Peek(s, x.e0) == '_' <==> x.territory) && (x.territory && Peek(s, x.e1) == '.' <==> x.codeset)
    ensures (Peek(s, x.e2) == '@' || (!x.codeset && Peek(s, x.e2) == '+')) <==> x.modifier
    ensures x.xpg == if x.modifier then Peek(s, x.e2) == '@' else x.codeset
    ensures (!x.xpg && Peek(s, x.e3) == '+' <==> x.special) && (!x.xpg && Peek(s, x.e4) == ',' <==> x.sponsor)
    ensures !x.xpg && Peek(s, x.e5) == '_' <==> x.revision
  {
    hide Clear;
  }

  lemma {:induction false} FrontEnds(s: string, x: Shape)
    requires NoNul(s) && Grammatical(s, x)
    ensures x.e0 == |s| || s[x.e0] in "_@+,"
    ensures x.territory ==> Until(s, x.e0 + 1, ".@+,_") == x.e1
    ensures x.codeset ==> Until(s, x.e1 + 1, "@") == x.e2
  {
    hide Until, Clear;
    if x.territory {
      UntilIs(s, x.e0 + 1, x.e1, ".@+,_");
    }
    if x.codeset {
      UntilIs(s, x.e1 + 1, x.e2, "@");
    }
  }

  lemma {:induction false} BackEnds(s: string, x: Shape)
    requires NoNul(s) && Grammatical(s, x)
    ensures x.modifier ==> x.e3 == if x.xpg then |s| else Until(s, x.e2 + 1, "+,_")
    ensures x.special ==> Until(s, x.e3 + 1, ",_") == x.e4
    ensures x.sponsor ==> Until(s, x.e4 + 1, "_") == x.e5
  {
    hide Until, Clear;
    if x.modifier && !x.xpg {
      UntilIs(s, x.e2 + 1, x.e3, "+,_");
    }
    if x.special {
      UntilIs(s, x.e3 + 1, x.e4, ",_");
    }
    if x.sponsor {
      UntilIs(s, x.e4 + 1, x.e5, "_");
    }
  }

  /** A name that can be read as parts is split into these parts. */
  lemma {:induction false} GrammarShape(s: string, x: Shape)
    requires NoNul(s) && Grammatical(s, x)
    ensures ShapeOf(s) == x
  {
    hide Until, Clear, Peek;
    FrontEnds(s, x);
    LanguageIs(s, x.e0);
    Separators(s, x);
    BackEnds(s, x);
  }

  /** A name with a language is split into the parts that it can be read as, and there is one way. */
  lemma {:induction false} SplitsExactly(s: string, x: Shape)
    requires NoNul(s) && s != "" && s[0] !in "_@+,"
    ensures ShapeOf(s) == x <==> Grammatical(s, x)
  {
    hide ShapeOf, Grammatical;
    if Grammatical(s, x) {
      GrammarShape(s, x);
    }
    ShapeGrammar(s);
  }

  lemma {:induction false} ShapeGrammar(s: string)
    requires NoNul(s) && s != "" && s[0] !in "_@+,"
    ensures Grammatical(s, ShapeOf(s))
  {
    hide Until, Clear;
    var x := ShapeOf(s);
    var e := Until(s, 0, "_@+,");
    UntilIs(s, 0, e, "_@+,");
    assert e != 0 by {
      NotAtOnce(s);
    }
    ShapeOrdered(s);
    UntilsClear(s, x);
  }

  lemma {:induction false} NotAtOnce(s: string)
    requires s != "" && s[0] !in "_@+,"
    ensures Until(s, 0, "_@+,") > 0
  {
  }

  lemma {:induction false} UntilsClear(s: string, x: Shape)
    requires Ordered(s, x)
    ensures x.territory && Until(s, x.e0 + 1, ".@+,_") == x.e1 ==> Clear(s, x.e0 + 1, x.e1, ".@+,_")
    ensures x.codeset && Until(s, x.e1 + 1, "@") == x.e2 ==> Clear(s, x.e1 + 1, x.e2, "@")
    ensures x.modifier && Until(s, x.e2 + 1, "+,_") == x.e3 ==> Clear(s, x.e2 + 1, x.e3, "+,_")
    ensures x.special && Until(s, x.e3 + 1, ",_") == x.e4 ==> Clear(s, x.e3 + 1, x.e4, ",_")
    ensures x.sponsor && Until(s, x.e4 + 1, "_") == x.e5 ==> Clear(s, x.e4 + 1, x.e5, "_")
  {
    hide Until, Clear;
    if x.territory { UntilIs(s, x.e0 + 1, x.e1, ".@+,_"); }
    if x.codeset { UntilIs(s, x.e1 + 1, x.e2, "@"); }
    if x.modifier { UntilIs(s, x.e2 + 1, x.e3, "+,_"); }
    if x.special { UntilIs(s, x.e3 + 1, x.e4, ",_"); }
    if x.sponsor { UntilIs(s, x.e4 + 1, x.e5, "_"); }
  }

  lemma {:induction false} WordEmpty(s: string, x: Shape, on: bool, b: nat, e: nat)
    requires NoNul(s) && (on ==> b < e <= |s| && Between(x, b, e, |s|))
    ensures on ==> b + 1 <= |s| && (Word(Punched(s, x), At(on, b)) != "" <==> b + 1 < e)
    ensures !on ==> Word(Punched(s, x), At(on, b)) == ""
  {
    hide Punched, IsCut, NoNul;
    if on {
      PieceIs(s, x, b + 1, e);
    }
  }

  /** The bits of the mask: in an XPG name those of the parts that are not empty, in a CEN name those of
      the parts that are there; a modifier counts for both, though an empty one of an XPG name only as
      that of a CEN name. */
  lemma {:induction false} MaskMeans(s: string)
    requires NoNul(s)
    ensures Ordered(s, ShapeOf(s))
    ensures var x, t := ShapeOf(s), Punched(s, ShapeOf(s));
      var m, p := MaskOf(s, x), PiecesOf(s, x);
      && (m.territory <==> if x.xpg then p.territory.Some? && Word(t, p.territory) != "" else p.territory.Some?)
      && (m.codeset <==> if x.xpg then p.codeset.Some? && Word(t, p.codeset) != "" else p.codeset.Some?)
      && (m.modifier <==> if x.xpg then p.modifier.Some? && Word(t, p.modifier) != "" else p.modifier.Some?)
      && (m.audience <==> p.modifier.Some?) && (m.special <==> p.special.Some?)
      && (m.sponsor <==> p.sponsor.Some?) && (m.revision <==> p.revision.Some?)
  {
    hide Until, Unnormalized, Word, Punched;
    ShapeOrdered(s);
    var x := ShapeOf(s);
    PartsApart(s, x);
    WordEmpty(s, x, x.territory, x.e0, x.e1);
    WordEmpty(s, x, x.codeset, x.e1, x.e2);
    WordEmpty(s, x, x.modifier, x.e2, x.e3);
  }

  lemma {:induction false} PartsApart(s: string, x: Shape)
    requires Ordered(s, x)
    ensures (x.territory ==> Between(x, x.e0, x.e1, |s|)) && (x.codeset ==> Between(x, x.e1, x.e2, |s|)) && (x.modifier ==> Between(x, x.e2, x.e3, |s|))
  {
  }
}
