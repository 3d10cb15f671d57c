/** The interned list of locale file names: `_nl_make_l10nflist` of intl/l10nflist.c. */
module LocaleList {
  import opened Basics
  import opened LocaleMask

  const SLASH := 47
  const COLON := 58
  const UNDERSCORE := 95
  const DOT := 46
  const AT := 64
  const PLUS := 43
  const COMMA := 44

  /** The pieces of a locale name, as far as the mask uses them. */
  datatype Words = Words(language: CString, territory: CString, codeset: CString, normalized: CString,
                         modifier: CString, special: CString, sponsor: CString, revision: CString)

  // File names

  function If(on: bool, s: CString): CString { if on then s else [] }

  function Lead(c: int, s: CString): CString
    requires 0 < c < 256
  {
    [c] + s
  }

  /** The directories, with colons between them and a slash behind. */
  function DirText(dirs: seq<CString>): CString {
    if dirs == [] then []
    else if |dirs| == 1 then dirs[0] + [SLASH]
    else dirs[0] + [COLON] + DirText(dirs[1..])
  }

  predicate Modified(mask: nat) { Has(mask, XPG_MODIFIER) || Has(mask, CEN_AUDIENCE) }

  predicate Sponsored(mask: nat) { Has(mask, CEN_SPONSOR) || Has(mask, CEN_REVISION) }

  function SponsorText(mask: nat, w: Words): CString {
    If(Has(mask, CEN_SPONSOR), w.sponsor) + If(Has(mask, CEN_REVISION), Lead(UNDERSCORE, w.revision))
  }

  /** The parts of a file name, in order; one that is not in the mask is empty. */
  function NameParts(dirs: seq<CString>, mask: nat, w: Words, filename: CString): seq<CString> {
    [DirText(dirs), w.language,
     If(Has(mask, TERRITORY), Lead(UNDERSCORE, w.territory)),
     If(Has(mask, XPG_CODESET), Lead(DOT, w.codeset)),
     If(Has(mask, XPG_NORM_CODESET), Lead(DOT, w.normalized)),
     If(Modified(mask), Lead(if Has(mask, CEN_AUDIENCE) then PLUS else AT, w.modifier)),
     If(Has(mask, CEN_SPECIAL), Lead(PLUS, w.special)),
     If(Sponsored(mask), Lead(COMMA, SponsorText(mask, w))),
     Lead(SLASH, filename)]
  }

  function Join(parts: seq<CString>): CString {
    if parts == [] then [] else Join(parts[..|parts|-1]) + parts[|parts|-1]
  }

  /** The name of the file for the parts in `mask`. */
  function Name(dirs: seq<CString>, mask: nat, w: Words, filename: CString): CString {
    Join(NameParts(dirs, mask, w, filename))
  }

  function Total(parts: seq<CString>): nat {
    if parts == [] then 0 else Total(parts[..|parts|-1]) + |parts[|parts|-1]|
  }

  lemma {:induction false} JoinLength(parts: seq<CString>)
    ensures |Join(parts)| == Total(parts)
  {
    if parts != [] {
      JoinLength(parts[..|parts|-1]);
    }
  }

  lemma {:induction false} TotalMore(parts: seq<CString>, k: nat)
    requires k < |parts|
    ensures Total(parts[..k+1]) == Total(parts[..k]) + |parts[k]| && Join(parts[..k+1]) == Join(parts[..k]) + parts[k]
  {
    assert parts[..k+1][..k] == parts[..k];
  }

  // argz

  /** Strings one after the other, each with its NUL. */
  function Argz(dirs: seq<CString>): seq<int> {
    if dirs == [] then [] else dirs[0] + [0] + Argz(dirs[1..])
  }

  /** `strlen` of the string at `p`. */
  function Strlen(a: seq<int>, p: nat): nat
    requires p <= |a|
    decreases |a| - p
  {
    if p == |a| || a[p] == 0 then 0 else 1 + Strlen(a, p + 1)
  }

  lemma {:induction false} StrlenIs(a: seq<int>, p: nat, s: CString)
    requires p + |s| < |a| && a[p..p+|s|] == s && a[p+|s|] == 0
    ensures Strlen(a, p) == |s|
    decreases |s|
  {
    if s != [] {
      assert a[p] == s[0];
      assert a[p+1..p+|s|] == s[1..];
      StrlenIs(a, p + 1, s[1..]);
    }
  }

  lemma {:induction false} ArgzNext(a: seq<int>, p: nat, dirs: seq<CString>, k: nat)
    requires k < |dirs| && p <= |a| && a[p..] == Argz(dirs[k..])
    ensures Strlen(a, p) == |dirs[k]| && p + |dirs[k]| < |a| && a[p..p+|dirs[k]|] == dirs[k] && a[p+|dirs[k]|] == 0
    ensures a[p+|dirs[k]|+1..] == Argz(dirs[k+1..])
  {
    var d, t := dirs[k], a[p..];
    assert a[p..p+|d|] == t[..|d|] == d;
    assert a[p+|d|] == t[|d|] == 0;
    assert a[p+|d|+1..] == t[|d|+1..] == Argz(dirs[k+1..]);
    StrlenIs(a, p, d);
  }

  lemma {:induction false} ArgzEmpty(dirs: seq<CString>, k: nat)
    requires k <= |dirs|
    ensures |Argz(dirs[k..])| == 0 <==> k == |dirs|
  {
  }

  /** `argz_count__`. */
  method ArgzCount(argz: seq<int>, ghost dirs: seq<CString>) returns (count: nat)
    requires argz == Argz(dirs)
    ensures count == |dirs|
  {
    hide Argz, Strlen;
    count := 0;
    var p: nat := 0;
    assert dirs[0..] == dirs && argz[0..] == argz;
    ArgzEmpty(dirs, 0);
    while |argz| - p > 0
      invariant p <= |argz| && count <= |dirs| && argz[p..] == Argz(dirs[count..])
      invariant |argz| == p <==> count == |dirs|
      decreases |argz| - p
    {
      ArgzNext(argz, p, dirs, count);
      var part_len := Strlen(argz, p);
      p := p + part_len + 1;
      count := count + 1;
      ArgzEmpty(dirs, count);
    }
  }

  /** `argz_next__`: the string after the one that starts at `p`. */
  method ArgzNextEntry(argz: seq<int>, p: nat, ghost dirs: seq<CString>, ghost k: nat) returns (dir: CString, next: nat)
    requires k < |dirs| && p <= |argz| && argz[p..] == Argz(dirs[k..])
    ensures dir == dirs[k] && next <= |argz| && argz[next..] == Argz(dirs[k+1..]) && (next == |argz| <==> k + 1 == |dirs|)
  {
    hide Argz, Strlen;
    ArgzNext(argz, p, dirs, k);
    ArgzEmpty(dirs, k + 1);
    var n := Strlen(argz, p);
    dir, next := argz[p..p+n], p + n + 1;
  }

  /** Each string with a colon behind it. */
  function Colons(dirs: seq<CString>): CString {
    if dirs == [] then [] else Colons(dirs[..|dirs|-1]) + dirs[|dirs|-1] + [COLON]
  }

  lemma {:induction false} ColonsMore(dirs: seq<CString>, k: nat)
    requires k < |dirs|
    ensures Colons(dirs[..k+1]) == Colons(dirs[..k]) + dirs[k] + [COLON]
  {
    assert dirs[..k+1][..k] == dirs[..k];
  }

  lemma {:induction false} DirTextIs(dirs: seq<CString>)
    requires dirs != []
    ensures DirText(dirs) == Colons(dirs[..|dirs|-1]) + dirs[|dirs|-1] + [SLASH]
  {
    if |dirs| == 1 {
      assert dirs[..0] == [];
    } else {
      var tail, front := dirs[1..], dirs[..|dirs|-1];
      DirTextIs(tail);
      ColonsFront(front);
      hide Colons;
      assert front[1..] == tail[..|tail|-1] && tail[|tail|-1] == dirs[|dirs|-1] && front[0] == dirs[0];
      Assoc(dirs[0], [COLON], Colons(front[1..]), dirs[|dirs|-1], [SLASH]);
    }
  }

  lemma {:induction false} Assoc(a: seq<int>, b: seq<int>, c: seq<int>, d: seq<int>, e: seq<int>)
    ensures a + b + (c + d + e) == a + b + c + d + e
  {
  }

  lemma {:induction false} ColonsLast(dirs: seq<CString>)
    requires dirs != []
    ensures Colons(dirs) == Colons(dirs[..|dirs|-1]) + dirs[|dirs|-1] + [COLON]
  {
  }

  lemma {:induction false} ColonsFront(dirs: seq<CString>)
    requires dirs != []
    ensures Colons(dirs) == dirs[0] + [COLON] + Colons(dirs[1..])
  {
    hide Colons;
    ColonsLast(dirs);
    ColonsNone();
    if |dirs| > 1 {
      var front, tail := dirs[..|dirs|-1], dirs[1..];
      ColonsFront(front);
      ColonsLast(tail);
      assert tail[..|tail|-1] == front[1..] && tail[|tail|-1] == dirs[|dirs|-1] && front[0] == dirs[0];
      Assoc(dirs[0], [COLON], Colons(front[1..]), dirs[|dirs|-1], [COLON]);
    } else {
      assert dirs[..0] == [] && dirs[1..] == [];
    }
  }

  /** `argz_stringify__` on the first `len` places of the buffer, which hold the directories; the
      NUL of the last one is left. */
  method ArgzStringify(buf: array<int>, len: nat, ghost dirs: seq<CString>)
    requires len <= buf.Length && buf[..len] == Argz(dirs) && dirs != []
    modifies buf
    ensures len > 0 && buf[..len] == Colons(dirs[..|dirs|-1]) + dirs[|dirs|-1] + [0]
    ensures buf[len..] == old(buf[len..])
  {
    hide Argz, Strlen, Colons;
    ghost var k: nat := 0;
    var p: nat := 0;
    ghost var rest := buf[len..];
    assert dirs[0..] == dirs && buf[..len][0..] == buf[..len];
    assert dirs[..0] == [] && Colons([]) == [] by { ColonsNone(); }
    assert buf[..0] == [];
    ArgzEmpty(dirs, 0);
    while true
      invariant p <= len && k < |dirs| && buf[..p] == Colons(dirs[..k]) && buf[..len][p..] == Argz(dirs[k..])
      invariant buf[len..] == rest
      decreases |dirs| - k
    {
      ghost var a := buf[..len];
      ArgzNext(a, p, dirs, k);
      ArgzEmpty(dirs, k + 1);
      ColonsMore(dirs, k);
      var part_len := Strlen(buf[..len], p);
      p := p + part_len;
      assert a[..p] == a[..p-part_len] + dirs[k];
      if len - (p + 1) == 0 {
        assert buf[..len] == a[..p] + [0];
        break;
      }
      buf[p] := COLON;
      p := p + 1;
      k := k + 1;
      assert buf[..p] == a[..p-1] + [COLON];
      assert buf[..len][p..] == a[p..];
    }
  }

  lemma {:induction false} ColonsNone()
    ensures Colons([]) == []
  {
  }

  // Building the name

  lemma {:induction false} ArgzLength(dirs: seq<CString>)
    ensures |Argz(dirs)| == |DirText(dirs)|
  {
    if dirs != [] {
      ArgzLength(dirs[1..]);
    }
  }

  /** The size computed for the allocation. */
  function AllocSize(dirlist_len: nat, mask: nat, w: Words, filename: CString): nat {
    dirlist_len + |w.language|
    + (if Has(mask, TERRITORY) then |w.territory| + 1 else 0)
    + (if Has(mask, XPG_CODESET) then |w.codeset| + 1 else 0)
    + (if Has(mask, XPG_NORM_CODESET) then |w.normalized| + 1 else 0)
    + (if Has(mask, XPG_MODIFIER) || Has(mask, CEN_AUDIENCE) then |w.modifier| + 1 else 0)
    + (if Has(mask, CEN_SPECIAL) then |w.special| + 1 else 0)
    + (if Has(mask, CEN_SPONSOR) || Has(mask, CEN_REVISION)
       then 1 + (if Has(mask, CEN_SPONSOR) then |w.sponsor| else 0) + (if Has(mask, CEN_REVISION) then |w.revision| + 1 else 0) else 0)
    + 1 + |filename| + 1
  }

  lemma {:induction false} TotalNone()
    ensures Total([]) == 0 && Join([]) == []
  {
  }

  lemma {:induction false} TotalNine(p: seq<CString>)
    requires |p| == 9
    ensures Total(p) == |p[0]| + |p[1]| + |p[2]| + |p[3]| + |p[4]| + |p[5]| + |p[6]| + |p[7]| + |p[8]|
  {
    hide Total, Join;
    TotalNone();
    TotalMore(p, 0);
    TotalMore(p, 1);
    TotalMore(p, 2);
    TotalMore(p, 3);
    TotalMore(p, 4);
    TotalMore(p, 5);
    TotalMore(p, 6);
    TotalMore(p, 7);
    TotalMore(p, 8);
    assert p[..9] == p && p[..0] == [];
  }

  lemma {:induction false} PartLength(on: bool, c: int, s: CString)
    requires 0 < c < 256
    ensures |If(on, Lead(c, s))| == if on then |s| + 1 else 0
    ensures |If(on, s)| == (if on then |s| else 0) && |Lead(c, s)| == |s| + 1
  {
  }

  lemma {:induction false} SponsorLength(mask: nat, w: Words)
    ensures |SponsorText(mask, w)| == (if Has(mask, CEN_SPONSOR) then |w.sponsor| else 0) + (if Has(mask, CEN_REVISION) then |w.revision| + 1 else 0)
  {
    hide Has;
  }

  /** The name fills its allocation exactly. */
  lemma {:induction false} NameFits(dirs: seq<CString>, mask: nat, w: Words, filename: CString)
    ensures AllocSize(|Argz(dirs)|, mask, w, filename) == |Name(dirs, mask, w, filename)| + 1
  {
    hide Argz, DirText, Has, Total, Join, If, Lead, SponsorText;
    ArgzLength(dirs);
    var p := NameParts(dirs, mask, w, filename);
    JoinLength(p);
    TotalNine(p);
    PartLength(Has(mask, TERRITORY), UNDERSCORE, w.territory);
    PartLength(Has(mask, XPG_CODESET), DOT, w.codeset);
    PartLength(Has(mask, XPG_NORM_CODESET), DOT, w.normalized);
    PartLength(Modified(mask), if Has(mask, CEN_AUDIENCE) then PLUS else AT, w.modifier);
    PartLength(Has(mask, CEN_SPECIAL), PLUS, w.special);
    PartLength(Sponsored(mask), COMMA, SponsorText(mask, w));
    SponsorLength(mask, w);
    PartLength(true, SLASH, filename);
  }

  lemma {:induction false} TotalPrefix(parts: seq<CString>, k: nat)
    requires k <= |parts|
    ensures Total(parts[..k]) <= Total(parts)
    decreases |parts| - k
  {
    if k < |parts| {
      TotalMore(parts, k);
      TotalPrefix(parts, k + 1);
    } else {
      assert parts[..k] == parts;
    }
  }

  /** `stpcpy` of part `k`, if it is there, without the NUL that the next part overwrites. */
  method PutPart(buf: array<int>, p: nat, on: bool, s: CString, ghost parts: seq<CString>, ghost k: nat) returns (next: nat)
    requires k < |parts| && parts[k] == If(on, s) && Total(parts) < buf.Length
    requires p <= buf.Length && buf[..p] == Join(parts[..k])
    modifies buf
    ensures next < buf.Length && buf[..next] == Join(parts[..k+1])
  {
    hide Join, Total;
    TotalMore(parts, k);
    TotalPrefix(parts, k + 1);
    JoinLength(parts[..k+1]);
    ghost var was := buf[..p];
    next := p;
    if on {
      var i := 0;
      while i < |s|
        invariant 0 <= i <= |s| && buf[..p+i] == was + s[..i]
      {
        buf[p+i] := s[i];
        i := i + 1;
        assert buf[..p+i] == buf[..p+i-1] + [s[i-1]];
      }
      next := p + |s|;
    }
  }

  /** The directories: copied as they are, NULs turned into colons, and a slash at the end. */
  method PutDirs(buf: array<int>, argz: seq<int>, ghost dirs: seq<CString>) returns (cp: nat)
    requires argz == Argz(dirs) && |argz| <= buf.Length
    modifies buf
    ensures cp == |argz| && buf[..cp] == DirText(dirs)
  {
    hide Argz, DirText, Colons, Strlen;
    ArgzEmpty(dirs, 0);
    assert dirs[0..] == dirs;
    cp := 0;
    if |argz| > 0 {
      while cp < |argz|
        invariant 0 <= cp <= |argz| && buf[..cp] == argz[..cp]
      {
        buf[cp] := argz[cp];
        cp := cp + 1;
        assert buf[..cp] == buf[..cp-1] + [argz[cp-1]];
      }
      assert buf[..cp] == argz;
      ArgzStringify(buf, cp, dirs);
      ghost var text := buf[..cp];
      buf[cp-1] := SLASH;
      DirTextIs(dirs);
      assert buf[..cp] == text[..cp-1] + [SLASH];
    } else {
      assert DirText(dirs) == [] by { NoDirs(); }
    }
  }

  lemma {:induction false} NoDirs()
    ensures DirText([]) == []
  {
  }

  /** The part of `_nl_make_l10nflist` that builds the absolute file name. */
  method BuildName(argz: seq<int>, mask: nat, w: Words, filename: CString, ghost dirs: seq<CString>) returns (abs_filename: array<int>)
    requires argz == Argz(dirs)
    ensures fresh(abs_filename) && abs_filename.Length == |Name(dirs, mask, w, filename)| + 1
    ensures abs_filename[..abs_filename.Length-1] == Name(dirs, mask, w, filename) && abs_filename[abs_filename.Length-1] == 0
  {
    hide Argz, DirText, Has, Total, Join, Lead, If, Modified, Sponsored, SponsorText;
    ghost var parts := NameParts(dirs, mask, w, filename);
    NameFits(dirs, mask, w, filename);
    JoinLength(parts);
    abs_filename := new int[AllocSize(|argz|, mask, w, filename)];
    ArgzLength(dirs);
    JoinOne(parts);
    AlwaysThere(w.language);
    AlwaysThere(Lead(SLASH, filename));
    var cp := PutDirs(abs_filename, argz, dirs);
    cp := PutPart(abs_filename, cp, true, w.language, parts, 1);
    cp := PutPart(abs_filename, cp, Has(mask, TERRITORY), Lead(UNDERSCORE, w.territory), parts, 2);
    cp := PutPart(abs_filename, cp, Has(mask, XPG_CODESET), Lead(DOT, w.codeset), parts, 3);
    cp := PutPart(abs_filename, cp, Has(mask, XPG_NORM_CODESET), Lead(DOT, w.normalized), parts, 4);
    cp := PutPart(abs_filename, cp, Modified(mask), Lead(if Has(mask, CEN_AUDIENCE) then PLUS else AT, w.modifier), parts, 5);
    cp := PutPart(abs_filename, cp, Has(mask, CEN_SPECIAL), Lead(PLUS, w.special), parts, 6);
    cp := PutPart(abs_filename, cp, Sponsored(mask), Lead(COMMA, SponsorText(mask, w)), parts, 7);
    cp := PutPart(abs_filename, cp, true, Lead(SLASH, filename), parts, 8);
    assert parts[..9] == parts;
    abs_filename[cp] := 0;
  }

  lemma {:induction false} JoinOne(parts: seq<CString>)
    requires parts != []
    ensures Join(parts[..1]) == parts[0] && Total(parts) >= |parts[0]|
  {
    TotalMore(parts, 0);
    TotalPrefix(parts, 1);
    assert parts[..0] == [];
  }

  lemma {:induction false} AlwaysThere(s: CString)
    ensures If(true, s) == s
  {
  }
}
