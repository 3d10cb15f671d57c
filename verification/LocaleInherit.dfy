/** Which entries a locale file inherits from (intl/l10nflist.c), in terms of single bits and names. */
module LocaleInherit {
  import opened Basics
  import opened LocaleMask
  import opened LocaleList
  import opened LocaleTree

  /** Bit `i` of a number. */
  predicate BitSet(n: nat, i: nat) { if i == 0 then n % 2 == 1 else BitSet(n / 2, i - 1) }

  /** Each bit of the pattern is a bit of the mask. */
  ghost predicate Dominated(cnt: nat, mask: nat) { forall i: nat :: BitSet(cnt, i) ==> BitSet(mask, i) }

  lemma {:induction false} Down(n: nat)
    ensures forall i: nat :: BitSet(n, i + 1) == BitSet(n / 2, i)
    ensures BitSet(n, 0) <==> n % 2 == 1
  {
  }

  lemma {:induction false} DominatedHalf(cnt: nat, mask: nat)
    ensures Dominated(cnt, mask) <==> cnt % 2 <= mask % 2 && Dominated(cnt / 2, mask / 2)
  {
    Down(cnt);
    Down(mask);
    hide BitSet;
    if Dominated(cnt, mask) {
      assert BitSet(cnt, 0) ==> BitSet(mask, 0);
      forall i: nat ensures BitSet(cnt / 2, i) ==> BitSet(mask / 2, i) {
        assert BitSet(cnt, i + 1) ==> BitSet(mask, i + 1);
      }
    }
    if cnt % 2 <= mask % 2 && Dominated(cnt / 2, mask / 2) {
      forall i: nat ensures BitSet(cnt, i) ==> BitSet(mask, i) {
        if i > 0 {
          assert BitSet(cnt, (i - 1) + 1) == BitSet(cnt / 2, i - 1) && BitSet(mask, (i - 1) + 1) == BitSet(mask / 2, i - 1);
        }
      }
    }
  }

  /** A pattern is dominated by the mask when each of its bits is a bit of the mask. */
  lemma {:induction false} SubBits(cnt: nat, mask: nat)
    ensures Sub(cnt, mask) <==> Dominated(cnt, mask)
  {
    if cnt == 0 {
      forall i: nat ensures !BitSet(0, i) {
        NoBits(i);
      }
    } else {
      hide Dominated;
      DominatedHalf(cnt, mask);
      SubBits(cnt / 2, mask / 2);
    }
  }

  lemma {:induction false} NoBits(i: nat)
    ensures !BitSet(0, i)
  {
    if i > 0 {
      NoBits(i - 1);
    }
  }

  lemma {:induction false} HasBit(m: nat)
    ensures Has(m, 1) == BitSet(m, 0) && Has(m, 2) == BitSet(m, 1) && Has(m, 4) == BitSet(m, 2) && Has(m, 8) == BitSet(m, 3)
    ensures Has(m, 16) == BitSet(m, 4) && Has(m, 32) == BitSet(m, 5) && Has(m, 64) == BitSet(m, 6) && Has(m, 128) == BitSet(m, 7)
  {
    hide BitSet;
    var a, b, c, d, e, f, g := m / 2, m / 4, m / 8, m / 16, m / 32, m / 64, m / 128;
    assert a / 2 == b && b / 2 == c && c / 2 == d && d / 2 == e && e / 2 == f && f / 2 == g;
    Down(m);
    Down(a);
    Down(b);
    Down(c);
    Down(d);
    Down(e);
    Down(f);
    Down(g);
    assert BitSet(m, 1) == BitSet(a, 0);
    assert BitSet(m, 1 + 1) == BitSet(a, 0 + 1) == BitSet(b, 0);
    assert BitSet(m, 2 + 1) == BitSet(a, 1 + 1) == BitSet(b, 0 + 1) == BitSet(c, 0);
    assert BitSet(m, 3 + 1) == BitSet(a, 2 + 1) == BitSet(b, 1 + 1) == BitSet(c, 0 + 1) == BitSet(d, 0);
    assert BitSet(m, 4 + 1) == BitSet(a, 3 + 1) == BitSet(b, 2 + 1) == BitSet(c, 1 + 1) == BitSet(d, 0 + 1) == BitSet(e, 0);
    assert BitSet(m, 5 + 1) == BitSet(a, 4 + 1) == BitSet(b, 3 + 1) == BitSet(c, 2 + 1) == BitSet(d, 1 + 1) == BitSet(e, 0 + 1) == BitSet(f, 0);
    assert BitSet(m, 6 + 1) == BitSet(a, 5 + 1) == BitSet(b, 4 + 1) == BitSet(c, 3 + 1) == BitSet(d, 2 + 1) == BitSet(e, 1 + 1)
           == BitSet(f, 0 + 1) == BitSet(g, 0);
  }

  /** The patterns that count: no bit outside the mask; not both a part that only CEN names have
      (revision 0, sponsor 1, special 2, audience 6) and one that only XPG names have (codesets 3 and 4,
      modifier 7); and not both codesets. */
  lemma {:induction false} AllowedBits(cnt: nat, mask: nat)
    ensures Allowed(cnt, mask) <==>
      && Dominated(cnt, mask)
      && !((BitSet(cnt, 0) || BitSet(cnt, 1) || BitSet(cnt, 2) || BitSet(cnt, 6)) && (BitSet(cnt, 3) || BitSet(cnt, 4) || BitSet(cnt, 7)))
      && !(BitSet(cnt, 3) && BitSet(cnt, 4))
  {
    hide BitSet, Sub, Has, Dominated;
    SubBits(cnt, mask);
    HasBit(cnt);
  }

  lemma {:induction false} OverMembers(dirs: seq<CString>, n: nat, cnt: nat, w: Words, filename: CString, x: CString)
    requires n <= |dirs|
    ensures x in NamesOver(dirs, n, cnt, w, filename) <==> exists k :: 0 <= k < n && x == Name([dirs[k]], cnt, w, filename)
  {
    hide Name;
    if n > 0 {
      OverMembers(dirs, n - 1, cnt, w, filename, x);
    }
  }

  /** `x` is the file for the parts in `cnt`, in one of the directories. */
  ghost predicate FileFor(dirs: seq<CString>, cnt: nat, w: Words, filename: CString, x: CString) {
    if |dirs| <= 1 then x == Name(dirs, cnt, w, filename)
    else exists k :: 0 <= k < |dirs| && x == Name([dirs[k]], cnt, w, filename)
  }

  lemma {:induction false} InheritsMembers(dirs: seq<CString>, mask: nat, w: Words, filename: CString, from: int, cnt: int, x: CString)
    requires -1 <= cnt <= from
    ensures x in Inherits(dirs, mask, w, filename, from, cnt) <==>
      exists c: nat :: cnt < c <= from && Allowed(c, mask) && FileFor(dirs, c, w, filename, x)
    decreases from - cnt
  {
    hide Allowed, NamesOver, Name, FileFor;
    if cnt < from {
      InheritsMembers(dirs, mask, w, filename, from, cnt + 1, x);
      ForMembers(dirs, cnt + 1, w, filename, x);
    }
  }

  lemma {:induction false} ForMembers(dirs: seq<CString>, cnt: nat, w: Words, filename: CString, x: CString)
    ensures x in NamesFor(dirs, cnt, w, filename) <==> FileFor(dirs, cnt, w, filename, x)
  {
    hide Name, NamesOver;
    OverMembers(dirs, |dirs|, cnt, w, filename, x);
  }

  /** An entry inherits from exactly the files for the patterns that count, in each directory; with one
      directory or none the entry itself, the file for the whole mask, is left out. */
  lemma {:induction false} Inherited(dirs: seq<CString>, mask: nat, w: Words, filename: CString, x: CString)
    ensures x in Inherits(dirs, mask, w, filename, Start(dirs, mask), -1) <==>
      exists c: nat :: (if |dirs| > 1 then c <= mask else c < mask) && Allowed(c, mask) && FileFor(dirs, c, w, filename, x)
  {
    hide Allowed, FileFor, Inherits;
    InheritsMembers(dirs, mask, w, filename, Start(dirs, mask), -1, x);
  }

  /** Files for more parts come first: those for `c` stand right before those for the patterns below. */
  lemma {:induction false} InOrder(dirs: seq<CString>, mask: nat, w: Words, filename: CString, from: int, c: nat, cnt: int)
    requires -1 <= cnt < c <= from
    ensures Inherits(dirs, mask, w, filename, from, c - 1) <= Inherits(dirs, mask, w, filename, from, cnt)
    ensures Allowed(c, mask) ==>
      Inherits(dirs, mask, w, filename, from, c) + NamesFor(dirs, c, w, filename) <= Inherits(dirs, mask, w, filename, from, cnt)
    decreases c - cnt
  {
    hide Allowed, NamesFor, Inherits;
    if cnt < c - 1 {
      InOrder(dirs, mask, w, filename, from, c, cnt + 1);
      InheritsStep(dirs, mask, w, filename, from, cnt + 1);
    } else {
      InheritsStep(dirs, mask, w, filename, from, c);
    }
  }
}
