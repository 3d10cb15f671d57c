/** Looking up and creating entries of the locale file list, with the lists of entries they inherit
    from (`_nl_make_l10nflist` of intl/l10nflist.c). */
module LocaleTree {
  import opened Basics
  import opened LocaleMask
  import opened LocaleList

  /** `struct loaded_l10nfile`: `successor` has room for `slots.Length` pointers. */
  class Node {
    const filename: CString
    const decided: bool
    const successor: array<Node?>

    constructor (filename: CString, decided: bool, slots: nat)
      ensures this.filename == filename && this.decided == decided
      ensures fresh(successor) && successor.Length == slots
    {
      this.filename, this.decided := filename, decided;
      successor := new Node?[slots](_ => null);
    }
  }

  /** Decreasing file names, each once. */
  ghost predicate Sorted(nodes: seq<Node>) {
    forall i, j :: 0 <= i < j < |nodes| ==> Strcmp(nodes[i].filename, nodes[j].filename) > 0
  }

  ghost predicate Interned(nodes: seq<Node>, name: CString) {
    exists i :: 0 <= i < |nodes| && nodes[i].filename == name
  }

  /** `name` belongs between `nodes[..k]` and `nodes[k..]`. */
  ghost predicate Gap(nodes: seq<Node>, name: CString, k: nat) {
    && k <= |nodes|
    && (forall i :: 0 <= i < k ==> Strcmp(nodes[i].filename, name) > 0)
    && (forall i :: k <= i < |nodes| ==> Strcmp(nodes[i].filename, name) < 0)
  }

  lemma {:induction false} GapNew(nodes: seq<Node>, name: CString, k: nat)
    requires Gap(nodes, name, k)
    ensures !Interned(nodes, name)
  {
    hide Strcmp;
    if Interned(nodes, name) {
      StrcmpEqual(name, name);
    }
  }

  lemma {:induction false} InsertSorted(nodes: seq<Node>, n: Node, k: nat)
    requires Sorted(nodes) && Gap(nodes, n.filename, k)
    ensures Sorted(nodes[..k] + [n] + nodes[k..])
  {
    hide Strcmp;
    var s := nodes[..k] + [n] + nodes[k..];
    forall i, j | 0 <= i < j < |s| ensures Strcmp(s[i].filename, s[j].filename) > 0 {
      if i == k {
        StrcmpTurns(s[j].filename, s[i].filename);
      }
    }
  }

  lemma {:induction false} SmallerBehind(nodes: seq<Node>, name: CString, k: nat)
    requires Sorted(nodes) && k < |nodes| && Strcmp(nodes[k].filename, name) < 0
    ensures forall i :: k <= i < |nodes| ==> Strcmp(nodes[i].filename, name) < 0
  {
    hide Strcmp;
    forall i | k < i < |nodes| ensures Strcmp(nodes[i].filename, name) < 0 {
      StrcmpTurns(nodes[i].filename, nodes[k].filename);
      StrcmpTransitive(nodes[i].filename, nodes[k].filename, name);
    }
  }

  // What an entry inherits from

  function DirsOf(dirs: seq<CString>, w: Words): seq<CString> {
    if w.language != [] && w.language[0] == SLASH then [] else dirs
  }

  /** The names for one bit pattern: of each directory, or of the only one. */
  function NamesFor(dirs: seq<CString>, cnt: nat, w: Words, filename: CString): seq<CString> {
    if |dirs| > 1 then NamesOver(dirs, |dirs|, cnt, w, filename) else [Name(dirs, cnt, w, filename)]
  }

  function NamesOver(dirs: seq<CString>, n: nat, cnt: nat, w: Words, filename: CString): (r: seq<CString>)
    requires n <= |dirs|
    ensures |r| == n
  {
    if n == 0 then [] else NamesOver(dirs, n - 1, cnt, w, filename) + [Name([dirs[n-1]], cnt, w, filename)]
  }

  /** The first bit pattern tried. */
  function Start(dirs: seq<CString>, mask: nat): int { if |dirs| > 1 then mask else mask - 1 }

  /** The names inherited from, in order, for the patterns from `from` down to above `cnt`. */
  function Inherits(dirs: seq<CString>, mask: nat, w: Words, filename: CString, from: int, cnt: int): seq<CString>
    requires -1 <= cnt <= from
    decreases from - cnt
  {
    if cnt == from then []
    else
      Inherits(dirs, mask, w, filename, from, cnt + 1)
      + if Allowed(cnt + 1, mask) then NamesFor(dirs, cnt + 1, w, filename) else []
  }

  function Count(dirs: seq<CString>): nat { if |dirs| > 1 then |dirs| else 1 }

  /** The slots computed for the successors and their terminator. */
  function Slots(dirs: seq<CString>, mask: nat): nat {
    Count(dirs) * Pow2(PopCount(mask)) + if |dirs| > 1 then 1 else 0
  }

  lemma {:induction false} SubsetsSplit(n: nat, m: nat, mask: nat)
    requires n <= m
    ensures Subsets(n, mask) <= Subsets(m, mask)
  {
    if n < m {
      SubsetsSplit(n, m - 1, mask);
    }
  }

  lemma {:induction false} NamesForCount(dirs: seq<CString>, cnt: nat, w: Words, filename: CString)
    ensures |NamesFor(dirs, cnt, w, filename)| == Count(dirs)
  {
    hide Name;
  }

  lemma {:induction false} SubsetsNext(n: nat, mask: nat)
    ensures Subsets(n + 1, mask) == Subsets(n, mask) + if Sub(n, mask) then 1 else 0
  {
    hide Sub;
  }

  /** The patterns from `from` down to above `cnt` yield at most as many names as they have subsets. */
  lemma {:induction false} InheritsBound(dirs: seq<CString>, mask: nat, w: Words, filename: CString, from: int, cnt: int)
    requires -1 <= cnt <= from
    ensures |Inherits(dirs, mask, w, filename, from, cnt)| <= Count(dirs) * (Subsets(from + 1, mask) - Subsets(cnt + 1, mask))
    ensures Subsets(cnt + 1, mask) <= Subsets(from + 1, mask)
    decreases from - cnt
  {
    hide Allowed, NamesFor, Subsets, Sub, Count;
    SubsetsSplit(cnt + 1, from + 1, mask);
    if cnt < from {
      InheritsBound(dirs, mask, w, filename, from, cnt + 1);
      AllowedSub(cnt + 1, mask);
      NamesForCount(dirs, cnt + 1, w, filename);
      SubsetsNext(cnt + 1, mask);
      Distribute(Count(dirs), Subsets(from + 1, mask), Subsets(cnt + 1, mask), Subsets(cnt + 2, mask));
    }
  }

  lemma {:induction false} AllowedSub(cnt: nat, mask: nat)
    ensures Allowed(cnt, mask) ==> Sub(cnt, mask)
  {
  }

  lemma {:induction false} Distribute(c: nat, a: nat, b: nat, d: nat)
    requires b <= d <= b + 1 && d <= a
    ensures c * (a - b) == c * (a - d) + if d == b then 0 else c
  {
    if d == b + 1 {
      assert a - b == (a - d) + 1;
      assert c * ((a - d) + 1) == c * (a - d) + c;
    }
  }

  /** All successors and the terminating null pointer fit. */
  lemma {:induction false} SuccessorsFit(dirs: seq<CString>, mask: nat, w: Words, filename: CString, cnt: int)
    requires -1 <= cnt <= Start(dirs, mask)
    ensures |Inherits(dirs, mask, w, filename, Start(dirs, mask), cnt)| + 1 <= Slots(dirs, mask)
  {
    hide Inherits, Sub;
    var from := Start(dirs, mask);
    InheritsBound(dirs, mask, w, filename, from, cnt);
    SubsetsAll(mask);
    assert Subsets(mask + 1, mask) == Subsets(mask, mask) + 1;
    var c, a, b := Count(dirs), Subsets(from + 1, mask), Subsets(cnt + 1, mask);
    Smaller(c, a - b, a);
  }

  lemma {:induction false} Smaller(c: nat, a: nat, b: nat)
    requires a <= b
    ensures c * a <= c * b
  {
  }

  /** The successor pointers lead to the pool's entries of these names, in order. */
  ghost predicate Match(nodes: seq<Node>, s: seq<Node?>, names: seq<CString>) {
    |s| == |names| && forall i :: 0 <= i < |s| ==> s[i] != null && s[i] in nodes && s[i].filename == names[i]
  }

  lemma {:induction false} MatchMore(nodes: seq<Node>, s: seq<Node?>, names: seq<CString>, n: Node)
    requires Match(nodes, s, names) && n in nodes
    ensures Match(nodes, s + [n], names + [n.filename])
  {
  }

  lemma {:induction false} MatchGrows(nodes: seq<Node>, more: seq<Node>, s: seq<Node?>, names: seq<CString>)
    requires Match(nodes, s, names) && forall n :: n in nodes ==> n in more
    ensures Match(more, s, names)
  {
  }

  /** An entry has all its successors, and a null pointer after them, inside its allocation. */
  ghost predicate Complete(n: Node, nodes: seq<Node>, dirs: seq<CString>, mask: nat, w: Words, filename: CString)
    reads n.successor
  {
    var names := Inherits(dirs, mask, w, filename, Start(dirs, mask), -1);
    && n.filename == Name(dirs, mask, w, filename)
    && n.successor.Length == Slots(dirs, mask) + 1 && |names| < n.successor.Length
    && Match(nodes, n.successor[..|names|], names) && n.successor[|names|] == null
    && (n.decided <==> |dirs| > 1 || (Has(mask, XPG_CODESET) && Has(mask, XPG_NORM_CODESET)))
  }

  /** An entry is complete for some request. */
  ghost predicate Filled(n: Node, nodes: seq<Node>)
    reads n.successor
  {
    exists dirs, mask, w, filename :: Complete(n, nodes, dirs, mask, w, filename)
  }

  lemma {:induction false} FilledBy(n: Node, nodes: seq<Node>, dirs: seq<CString>, mask: nat, w: Words, filename: CString)
    requires Complete(n, nodes, dirs, mask, w, filename)
    ensures Filled(n, nodes)
  {
    hide Complete;
  }

  lemma {:induction false} FilledGrows(n: Node, nodes: seq<Node>, more: seq<Node>)
    requires Filled(n, nodes) && forall m :: m in nodes ==> m in more
    ensures Filled(n, more)
  {
    hide Match, Inherits, Name, Slots, Has;
    var dirs, mask, w, filename :| Complete(n, nodes, dirs, mask, w, filename);
    var names := Inherits(dirs, mask, w, filename, Start(dirs, mask), -1);
    MatchGrows(nodes, more, n.successor[..|names|], names);
    assert Complete(n, more, dirs, mask, w, filename);
  }

  function Level(dirs: seq<CString>): nat { if |dirs| > 1 then 1 else 0 }

  lemma {:induction false} InheritsStep(dirs: seq<CString>, mask: nat, w: Words, filename: CString, from: int, cnt: nat)
    requires cnt <= from
    ensures Inherits(dirs, mask, w, filename, from, cnt - 1) ==
      Inherits(dirs, mask, w, filename, from, cnt) + if Allowed(cnt, mask) then NamesFor(dirs, cnt, w, filename) else []
  {
    hide Allowed, NamesFor;
  }

  lemma {:induction false} NamesOverMore(dirs: seq<CString>, n: nat, cnt: nat, w: Words, filename: CString)
    requires n < |dirs|
    ensures NamesOver(dirs, n + 1, cnt, w, filename) == NamesOver(dirs, n, cnt, w, filename) + [Name([dirs[n]], cnt, w, filename)]
    ensures NamesOver(dirs, 0, cnt, w, filename) == []
  {
    hide Name;
  }

  lemma {:induction false} ArgzOne(dir: CString)
    ensures Argz([dir]) == dir + [0]
  {
    assert [dir][1..] == [];
  }

  /** The pool of entries, sorted by decreasing file name. */
  class L10nList {
    var nodes: seq<Node>

    ghost predicate Valid()
      reads this
    {
      Sorted(nodes)
    }

    /** Every entry of the pool is complete, but for those still being built. */
    ghost predicate Whole(due: set<Node>)
      reads this, set n | n in nodes :: n.successor
    {
      && (forall n :: n in nodes && n !in due ==> Filled(n, nodes))
      && (forall n, m :: n in nodes && m in nodes && n != m ==> n.successor != m.successor)
    }

    constructor ()
      ensures Valid() && Whole({}) && nodes == []
    {
      nodes := [];
    }

    /** The loop that looks for a name: the entry, or the place where it belongs. */
    method Find(name: CString) returns (retval: Node?, lastp: nat)
      requires Valid()
      ensures retval != null ==> retval in nodes && retval.filename == name
      ensures lastp <= |nodes| && (retval == null ==> Gap(nodes, name, lastp))
    {
      hide Strcmp;
      lastp := 0;
      while lastp < |nodes|
        invariant lastp <= |nodes| && forall i :: 0 <= i < lastp ==> Strcmp(nodes[i].filename, name) > 0
      {
        var compare := Strcmp(nodes[lastp].filename, name);
        StrcmpEqual(nodes[lastp].filename, name);
        if compare == 0 {
          return nodes[lastp], lastp;
        }
        if compare < 0 {
          SmallerBehind(nodes, name, lastp);
          return null, lastp;
        }
        lastp := lastp + 1;
      }
      retval := null;
    }

    lemma {:induction false} Unique(n: Node, m: Node)
      requires Valid() && n in nodes && m in nodes && n.filename == m.filename
      ensures n == m
    {
      var i :| 0 <= i < |nodes| && nodes[i] == n;
      var j :| 0 <= j < |nodes| && nodes[j] == m;
      StrcmpEqual(n.filename, m.filename);
    }

    /** The file name; a language that is an absolute path makes the directories irrelevant. */
    method FullName(argz: seq<int>, mask: nat, w: Words, filename: CString, ghost dirs: seq<CString>)
        returns (name: CString, list: seq<int>)
      requires argz == Argz(dirs)
      ensures list == Argz(DirsOf(dirs, w)) && name == Name(DirsOf(dirs, w), mask, w, filename)
    {
      hide Argz, Name;
      list := if w.language != [] && w.language[0] == SLASH then [] else argz;
      NoArgz();
      var abs_filename := BuildName(list, mask, w, filename, DirsOf(dirs, w));
      name := abs_filename[..abs_filename.Length-1];
    }

    /** A new entry, without successors so far, at its place in the list. */
    method Create(name: CString, lastp: nat, list: seq<int>, mask: nat, ghost dirs: seq<CString>, ghost due: set<Node>) returns (retval: Node)
      requires Whole(due) && Valid() && lastp <= |nodes| && Gap(nodes, name, lastp) && list == Argz(dirs) && mask < 0x1_0000
      modifies this
      ensures Valid() && retval in nodes && fresh(retval) && fresh(retval.successor) && forall n :: n in old(nodes) ==> n in nodes
      ensures Whole(due + {retval})
      ensures retval.filename == name && retval.successor.Length == Slots(dirs, mask) + 1
      ensures retval.decided <==> |dirs| > 1 || (Has(mask, XPG_CODESET) && Has(mask, XPG_NORM_CODESET))
    {
      hide Argz, Name, Slots, Has, Sorted, Gap, PopCount, Pow2, Filled;
      var dirlist_count := 1;
      ArgzEmpty(dirs, 0);
      assert dirs[0..] == dirs;
      if |list| > 0 {
        dirlist_count := ArgzCount(list, dirs);
      }
      SlotsIs(dirs, mask, dirlist_count);
      var bits := Pop(mask);
      var slots := dirlist_count * Pow2(bits) + (if dirlist_count > 1 then 1 else 0);
      retval := new Node(name, dirlist_count > 1 || (Has(mask, XPG_CODESET) && Has(mask, XPG_NORM_CODESET)), slots + 1);
      InsertSorted(nodes, retval, lastp);
      nodes := nodes[..lastp] + [retval] + nodes[lastp..];
      forall n | n in nodes && n !in due + {retval} ensures Filled(n, nodes) {
        FilledGrows(n, old(nodes), nodes);
      }
    }

    /** `_nl_make_l10nflist`: the entry for a name, created with all it inherits from if it is new.
        Every entry stays in the list, so asking again gives the same entry and changes nothing. */
    method Make(argz: seq<int>, mask: nat, w: Words, filename: CString, do_allocate: bool, ghost dirs: seq<CString>, ghost due: set<Node>)
        returns (retval: Node?)
      requires Valid() && Whole(due) && argz == Argz(dirs) && mask < 0x1_0000
      modifies this
      ensures Valid() && Whole(due) && forall n :: n in old(nodes) ==> n in nodes
      ensures var name := Name(DirsOf(dirs, w), mask, w, filename);
        && (retval != null ==> retval in nodes && retval.filename == name)
        && (Interned(old(nodes), name) ==> retval != null && retval in old(nodes) && nodes == old(nodes))
        && (!Interned(old(nodes), name) && !do_allocate ==> retval == null && nodes == old(nodes))
        && (do_allocate ==> retval != null)
        && (!Interned(old(nodes), name) && do_allocate ==> fresh(retval) && Complete(retval, nodes, DirsOf(dirs, w), mask, w, filename))
      decreases Level(dirs), mask, 3
    {
      hide Argz, Name, Inherits, Slots, Has, Sorted, Interned, Gap, Match, Complete, Whole;
      var name, list := FullName(argz, mask, w, filename, dirs);
      ghost var e := DirsOf(dirs, w);
      var lastp;
      retval, lastp := Find(name);
      if retval != null {
        InternedBy(nodes, retval);
        return;
      }
      GapNew(nodes, name, lastp);
      if do_allocate {
        var created := Create(name, lastp, list, mask, e, due);
        Inherit(created, list, mask, w, filename, e, due + {created});
        assert due + {created} - {created} == due;
        retval := created;
      }
    }

    /** Two requests for one name: the second gives the same entry and leaves the list alone. */
    method MakeTwice(argz: seq<int>, mask: nat, w: Words, filename: CString, ghost dirs: seq<CString>) returns (first: Node?, second: Node?)
      requires Valid() && Whole({}) && argz == Argz(dirs) && mask < 0x1_0000
      modifies this
      ensures Valid() && Whole({}) && first != null && second == first && first in nodes
    {
      hide Argz, Name, Complete, Sorted, Whole;
      first := Make(argz, mask, w, filename, true, dirs, {});
      InternedBy(nodes, first);
      ghost var was := nodes;
      second := Make(argz, mask, w, filename, true, dirs, {});
      assert nodes == was;
      Unique(first, second);
    }

    /** Fill the inheritance list of a new entry. */
    method Inherit(retval: Node, argz: seq<int>, mask: nat, w: Words, filename: CString, ghost dirs: seq<CString>, ghost due: set<Node>)
      requires Valid() && Whole(due) && retval in due && argz == Argz(dirs) && mask < 0x1_0000 && DirsOf(dirs, w) == dirs
      requires retval in nodes && retval.successor.Length == Slots(dirs, mask) + 1 && retval.filename == Name(dirs, mask, w, filename)
      requires retval.decided <==> |dirs| > 1 || (Has(mask, XPG_CODESET) && Has(mask, XPG_NORM_CODESET))
      modifies this, retval.successor
      ensures Valid() && forall n :: n in old(nodes) ==> n in nodes
      ensures Whole(due - {retval}) && Complete(retval, nodes, dirs, mask, w, filename)
      decreases Level(dirs), mask, 2
    {
      hide Argz, Name, Inherits, Slots, Has, Sorted, Match, Allowed, NamesFor, NamesOver;
      ghost var from := Start(dirs, mask);
      var entries: nat := 0;
      var many := Plural(argz, dirs);
      var cnt: int := if many then mask else mask - 1;
      ghost var names := Inherits(dirs, mask, w, filename, from, cnt);
      InheritsNone(dirs, mask, w, filename, from);
      SuccessorsFit(dirs, mask, w, filename, cnt);
      assert retval.successor[..0] == [];
      MatchNone(nodes);
      while cnt >= 0
        invariant -1 <= cnt <= from && names == Inherits(dirs, mask, w, filename, from, cnt)
        invariant Valid() && Whole(due) && (forall n :: n in old(nodes) ==> n in nodes)
        invariant entries == |names| < retval.successor.Length && Match(nodes, retval.successor[..entries], names)
        decreases cnt
      {
        InheritsStep(dirs, mask, w, filename, from, cnt);
        SuccessorsFit(dirs, mask, w, filename, cnt - 1);
        if Allowed(cnt, mask) {
          entries := InheritPattern(retval, entries, argz, many, cnt, mask, w, filename, dirs, names, due);
        } else {
          assert names + [] == names;
        }
        cnt := cnt - 1;
        names := Inherits(dirs, mask, w, filename, from, cnt);
      }
      ghost var all := retval.successor[..entries];
      Store(retval, entries, null, due);
      assert retval.successor[..entries] == all;
      FilledBy(retval, nodes, dirs, mask, w, filename);
    }

    /** The successors for one bit pattern: one for each directory, or the only one. */
    method InheritPattern(retval: Node, start: nat, argz: seq<int>, many: bool, cnt: nat, mask: nat, w: Words, filename: CString,
                          ghost dirs: seq<CString>, ghost names: seq<CString>, ghost due: set<Node>) returns (entries: nat)
      requires Valid() && Whole(due) && retval in due && retval in nodes && argz == Argz(dirs) && mask < 0x1_0000 && DirsOf(dirs, w) == dirs && (many <==> |dirs| > 1)
      requires cnt <= mask && (!many ==> cnt < mask)
      requires start + |NamesFor(dirs, cnt, w, filename)| < retval.successor.Length
      requires start == |names| && Match(nodes, retval.successor[..start], names)
      modifies this, retval.successor
      ensures Valid() && Whole(due) && forall n :: n in old(nodes) ==> n in nodes
      ensures entries == start + |NamesFor(dirs, cnt, w, filename)| < retval.successor.Length
      ensures Match(nodes, retval.successor[..entries], names + NamesFor(dirs, cnt, w, filename))
      decreases Level(dirs), mask, 1
    {
      hide Argz, Name, Sorted, Match, NamesOver, Whole;
      entries := start;
      if many {
        ghost var k: nat := 0;
        var dir: nat := 0;
        assert dirs[0..] == dirs && argz[0..] == argz;
        ghost var done: seq<CString> := [];
        NamesOverMore(dirs, 0, cnt, w, filename);
        assert names + done == names;
        ArgzEmpty(dirs, 0);
        while dir < |argz|
          invariant dir <= |argz| && k <= |dirs| && argz[dir..] == Argz(dirs[k..]) && (dir == |argz| <==> k == |dirs|)
          invariant Valid() && Whole(due) && (forall n :: n in old(nodes) ==> n in nodes)
          invariant done == NamesOver(dirs, k, cnt, w, filename) && entries == start + k
          invariant Match(nodes, retval.successor[..entries], names + done)
          decreases |dirs| - k
        {
          NamesOverMore(dirs, k, cnt, w, filename);
          var entry, next := ArgzNextEntry(argz, dir, dirs, k);
          assert DirsOf([entry], w) == [entry] by { OneDir(dirs, entry, w); }
          ArgzOne(entry);
          entries := AddSuccessor(retval, entries, entry + [0], cnt, w, filename, [entry], names + done, due);
          assert names + done + [Name([dirs[k]], cnt, w, filename)] == names + (done + [Name([dirs[k]], cnt, w, filename)]);
          k, dir := k + 1, next;
          done := NamesOver(dirs, k, cnt, w, filename);
        }
      } else {
        entries := AddSuccessor(retval, entries, argz, cnt, w, filename, dirs, names, due);
      }
    }

    /** One successor: look it up or create it, and store the pointer. */
    method AddSuccessor(retval: Node, start: nat, argz: seq<int>, cnt: nat, w: Words, filename: CString,
                        ghost dirs: seq<CString>, ghost names: seq<CString>, ghost due: set<Node>) returns (entries: nat)
      requires Valid() && Whole(due) && retval in due && retval in nodes && argz == Argz(dirs) && cnt < 0x1_0000 && DirsOf(dirs, w) == dirs
      requires start < retval.successor.Length && start == |names| && Match(nodes, retval.successor[..start], names)
      modifies this, retval.successor
      ensures Valid() && Whole(due) && forall n :: n in old(nodes) ==> n in nodes
      ensures entries == start + 1 && Match(nodes, retval.successor[..entries], names + [Name(dirs, cnt, w, filename)])
      decreases Level(dirs), cnt, 4
    {
      hide Argz, Name, Sorted, Interned, Complete, Match, Whole;
      ghost var was := retval.successor[..start];
      ghost var nodes0 := nodes;
      var next := Make(argz, cnt, w, filename, true, dirs, due);
      Store(retval, start, next, due);
      entries := start + 1;
      MatchGrows(nodes0, nodes, was, names);
      MatchMore(nodes, was, names, next);
      assert retval.successor[..entries] == was + [next];
    }

    /** Only the entry being built changes. */
    method Store(retval: Node, at: nat, next: Node?, ghost due: set<Node>)
      requires Whole(due) && retval in due && retval in nodes && at < retval.successor.Length
      modifies retval.successor
      ensures Whole(due) && retval.successor[..] == old(retval.successor[..])[at := next]
    {
      hide Filled;
      retval.successor[at] := next;
      forall n | n in nodes && n !in due ensures Filled(n, nodes) {
        assert old(Filled(n, nodes)) && unchanged(n.successor);
      }
    }

    method Plural(argz: seq<int>, ghost dirs: seq<CString>) returns (many: bool)
      requires argz == Argz(dirs)
      ensures many <==> |dirs| > 1
    {
      var count := ArgzCount(argz, dirs);
      many := count > 1;
    }
  }

  lemma {:induction false} MatchNone(nodes: seq<Node>)
    ensures Match(nodes, [], [])
  {
  }

  lemma {:induction false} OneDir(dirs: seq<CString>, dir: CString, w: Words)
    requires DirsOf(dirs, w) == dirs && dirs != []
    ensures DirsOf([dir], w) == [dir]
  {
  }

  lemma {:induction false} InheritsNone(dirs: seq<CString>, mask: nat, w: Words, filename: CString, from: int)
    requires from >= -1
    ensures Inherits(dirs, mask, w, filename, from, from) == []
  {
  }

  lemma {:induction false} NoArgz()
    ensures Argz([]) == []
  {
  }

  lemma {:induction false} InternedBy(nodes: seq<Node>, n: Node)
    requires n in nodes
    ensures Interned(nodes, n.filename)
  {
  }

  lemma {:induction false} SlotsIs(dirs: seq<CString>, mask: nat, count: nat)
    requires count == if dirs == [] then 1 else |dirs|
    ensures Slots(dirs, mask) == count * Pow2(PopCount(mask)) + (if count > 1 then 1 else 0)
  {
    hide PopCount, Pow2;
  }
}
