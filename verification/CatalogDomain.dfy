/** Loading the system dependent strings of a message catalog as a whole: measure, copy, and put
    the new ids into a copy of the hash table (`_nl_load_domain` in intl/loadmsgcat.c). */
module CatalogDomain {
  import opened Basics
  import opened CatalogHash
  import I = CatalogIndex
  import opened CatalogLoad

  /** What a pointer to `bytes` is as a C string: everything before the first NUL. */
  function Terminated(bytes: seq<Byte>): CString {
    if bytes == [] || bytes[0] == 0 then [] else [bytes[0]] + Terminated(bytes[1..])
  }

  lemma {:induction false} TerminatedShort(bytes: seq<Byte>)
    requires 0 in bytes
    ensures |Terminated(bytes)| < |bytes|
  {
    if bytes[0] != 0 {
      TerminatedShort(bytes[1..]);
    }
  }

  function EntryOf(text: seq<Byte>): I.Entry { I.Sysdep(|text|, Terminated(text)) }

  /** The index entries of the pairs that are usable here. */
  function NewEntries(data: seq<Byte>, values: Values, kept: seq<StringPair>): (es: seq<I.Entry>)
    requires AllUsable(data, values, kept)
    ensures |es| == |kept| && forall i :: 0 <= i < |kept| ==> es[i] == EntryOf(Expanded(data, values, kept[i].orig))
  {
    if kept == [] then []
    else
      assert forall i :: 0 <= i < |kept| ==> Usable(data, values, kept[i]);
      NewEntries(data, values, kept[..|kept|-1]) + [EntryOf(Expanded(data, values, kept[|kept|-1].orig))]
  }

  /** Every original string ends within its memory. */
  predicate AllEnd(data: seq<Byte>, values: Values, kept: seq<StringPair>)
    requires AllUsable(data, values, kept)
  {
    forall i :: 0 <= i < |kept| ==> 0 in Expanded(data, values, kept[i].orig)
  }

  /** Collect the index entries the augmentation loop reads through the descriptors. */
  method ReadBack(data: seq<Byte>, ghost values: Values, ghost kept: seq<StringPair>, mem: seq<Byte>, origs: seq<Desc>, ghost transs: seq<Desc>)
      returns (es: seq<I.Entry>)
    requires AllUsable(data, values, kept) && |origs| == |transs| == |kept|
    requires Copied(data, values, kept, mem, origs, transs)
    ensures es == NewEntries(data, values, kept)
  {
    hide Text, Within, Expanded, WellFramed, StringFate, Terminated;
    es := [];
    var i := 0;
    while i < |origs|
      invariant 0 <= i <= |origs| && |es| == i
      invariant forall k :: 0 <= k < i ==> es[k] == EntryOf(Expanded(data, values, kept[k].orig))
    {
      es := es + [I.Sysdep(origs[i].length, Terminated(Text(origs[i], data, mem)))];
      TextLength(origs[i], data, mem);
      i := i + 1;
    }
  }

  lemma {:induction false} TextLength(d: Desc, data: seq<Byte>, mem: seq<Byte>)
    requires Within(d, data, mem)
    ensures |Text(d, data, mem)| == d.length
  {
  }

  lemma {:induction false} NewRegular(data: seq<Byte>, values: Values, kept: seq<StringPair>)
    requires AllUsable(data, values, kept) && AllEnd(data, values, kept)
    ensures I.AllRegular(NewEntries(data, values, kept))
  {
    hide Expanded, WellFramed, StringFate;
    forall i | 0 <= i < |kept| ensures I.Regular(NewEntries(data, values, kept)[i]) {
      TerminatedShort(Expanded(data, values, kept[i].orig));
    }
  }

  /** The table after loading, for the entries of the file and the usable pairs. */
  predicate Loaded(hash_tab: seq<nat>, statics: seq<I.Entry>, added: seq<I.Entry>, tab: seq<nat>)
    requires |hash_tab| > 2
  {
    tab == I.Augmented(hash_tab, statics + added, |statics|, |statics + added|)
  }

  /** Measure, allocate and copy: the descriptors, the block they point into, and the new entries. */
  method LoadStrings(data: seq<Byte>, values: Values, pairs: seq<StringPair>, hash_size: nat)
      returns (ok: bool, origs: seq<Desc>, transs: seq<Desc>, mem: seq<Byte>, added: seq<I.Entry>)
    requires AllFramed(data, values, pairs)
    ensures ok <==> !AnyBad(values, pairs)
    ensures AllUsable(data, values, Kept(values, pairs))
    ensures ok ==> |origs| == |transs| == |Kept(values, pairs)| && Copied(data, values, Kept(values, pairs), mem, origs, transs)
    ensures ok ==> added == NewEntries(data, values, Kept(values, pairs))
    ensures ok && origs != [] ==> |mem| == hash_size * UINT32_SIZE + 2 * |origs| * DESC_SIZE + Needs(values, pairs)
  {
    hide Usable, Copied, PairFate, AnyBad, Kept;
    KeptUsable(data, values, pairs);
    ghost var kept := Kept(values, pairs);
    var n, memneed;
    ok, n, memneed := Measure(data, values, pairs, hash_size);
    origs, transs, mem, added := [], [], [], [];
    if !ok {
      return;
    }
    if n == 0 {
      CopiedNone(data, values, mem);
      return;
    }
    var tables := 2 * n * DESC_SIZE + hash_size * UINT32_SIZE;
    var block := new Byte[memneed];
    var end;
    origs, transs, end := CopyAll(data, values, pairs, block, tables);
    mem := block[..];
    added := ReadBack(data, values, kept, mem, origs, transs);
  }

  /** The augmented hash table: a copy of the one in the file, with the new ids put in. */
  method LoadTable(hash_tab: seq<nat>, statics: seq<I.Entry>, added: seq<I.Entry>) returns (tab: seq<nat>)
    requires |hash_tab| > 2 && I.Augmentable(hash_tab, statics + added, |statics|, |statics + added|)
    ensures Loaded(hash_tab, statics, added, tab)
  {
    hide I.Augmented, I.Augmentable;
    var inmem_hash_tab := new nat[|hash_tab|];
    var i := 0;
    while i < |hash_tab|
      invariant 0 <= i <= |hash_tab| && inmem_hash_tab[..i] == hash_tab[..i]
    {
      inmem_hash_tab[i] := hash_tab[i];
      i := i + 1;
      assert inmem_hash_tab[..i] == inmem_hash_tab[..i-1] + [hash_tab[i-1]];
    }
    var es := statics + added;
    assert es[..|statics|] == statics && inmem_hash_tab[..] == hash_tab;
    I.Augment(inmem_hash_tab, es, |statics|);
    tab := inmem_hash_tab[..];
  }

  /** The probes for every new id come to an empty slot of the table. */
  predicate Roomy(data: seq<Byte>, values: Values, kept: seq<StringPair>, hash_tab: seq<nat>, statics: seq<I.Entry>)
    requires AllUsable(data, values, kept) && |hash_tab| > 2
  {
    var es := statics + NewEntries(data, values, kept);
    I.Augmentable(hash_tab, es, |statics|, |es|)
  }

  /** The sysdep part of `_nl_load_domain`.  It fails exactly on a segment reference out of range;
      otherwise every usable pair's texts are in memory and its id is in the hash table. */
  method LoadSysdep(data: seq<Byte>, values: Values, pairs: seq<StringPair>, hash_tab: seq<nat>, statics: seq<I.Entry>)
      returns (ok: bool, origs: seq<Desc>, transs: seq<Desc>, mem: seq<Byte>, tab: seq<nat>)
    requires AllFramed(data, values, pairs) && |hash_tab| > 2
    requires AllUsable(data, values, Kept(values, pairs)) && !AnyBad(values, pairs) ==>
               Roomy(data, values, Kept(values, pairs), hash_tab, statics)
    ensures ok <==> !AnyBad(values, pairs)
    ensures AllUsable(data, values, Kept(values, pairs))
    ensures ok ==> |origs| == |transs| == |Kept(values, pairs)| && Copied(data, values, Kept(values, pairs), mem, origs, transs)
    ensures ok ==> Loaded(hash_tab, statics, NewEntries(data, values, Kept(values, pairs)), tab)
  {
    hide AllUsable, Copied, AnyBad, Kept, Loaded, I.Augmentable;
    var added;
    ok, origs, transs, mem, added := LoadStrings(data, values, pairs, |hash_tab|);
    tab := hash_tab;
    if ok {
      tab := LoadTable(hash_tab, statics, added);
    }
  }

  /** Id `m` finds what it found before, and otherwise one of the new entries if any has it. */
  predicate Keeps(hash_tab: seq<nat>, statics: seq<I.Entry>, added: seq<I.Entry>, tab: seq<nat>, m: CString)
    requires |hash_tab| > 2 && I.InRange(hash_tab, statics)
  {
    && |tab| > 2 && I.InRange(tab, statics + added)
    && var was, r := I.Search(hash_tab, statics, m, 0), I.Search(tab, statics + added, m, 0);
    && (was.Some? ==> r == was)
    && (r.Some? ==> r.value < |statics + added| && (statics + added)[r.value].text == m)
    && (r.None? ==> forall k :: 0 <= k < |added| ==> added[k].text != m)
  }

  lemma {:induction false} TableKeeps(hash_tab: seq<nat>, statics: seq<I.Entry>, added: seq<I.Entry>, tab: seq<nat>, m: CString)
    requires |hash_tab| > 2 && I.InRange(hash_tab, statics) && I.AllRegular(statics) && I.AllRegular(added)
    requires I.Augmentable(hash_tab, statics + added, |statics|, |statics + added|)
    requires Loaded(hash_tab, statics, added, tab)
    ensures Keeps(hash_tab, statics, added, tab, m)
  {
    hide I.Search, I.Augmented, I.Augmentable, I.Regular, I.InRange;
    var es := statics + added;
    assert es[..|statics|] == statics && es[..|es|] == es;
    I.AugmentedFinds(hash_tab, es, |statics|, |es|, m);
    I.SearchFinds(tab, es, m, 0);
    forall k | 0 <= k < |added| && added[k].text == m ensures I.Search(tab, es, m, 0).Some? {
      assert es[|statics| + k].text == m;
    }
  }

  /** After loading, whatever the table of the file is like, the ids it found keep their entry and
      every id of a usable pair is found. */
  lemma {:induction false} LoadedKeeps(data: seq<Byte>, values: Values, kept: seq<StringPair>, hash_tab: seq<nat>,
                                       statics: seq<I.Entry>, tab: seq<nat>, m: CString)
    requires AllUsable(data, values, kept) && AllEnd(data, values, kept) && |hash_tab| > 2
    requires I.AllRegular(statics) && I.InRange(hash_tab, statics) && Roomy(data, values, kept, hash_tab, statics)
    requires Loaded(hash_tab, statics, NewEntries(data, values, kept), tab)
    ensures Keeps(hash_tab, statics, NewEntries(data, values, kept), tab, m)
  {
    hide AllUsable, AllEnd, NewEntries, Keeps, Loaded, I.Augmentable, I.AllRegular, I.InRange;
    NewRegular(data, values, kept);
    TableKeeps(hash_tab, statics, NewEntries(data, values, kept), tab, m);
  }

  /** After loading, each id finds its first entry among the usable pairs, unless the file already
      had it; ids that are in neither are not found. */
  lemma {:induction false} LoadedFinds(data: seq<Byte>, values: Values, kept: seq<StringPair>, hash_tab: seq<nat>,
                                       statics: seq<I.Entry>, tab: seq<nat>, m: CString)
    requires AllUsable(data, values, kept) && AllEnd(data, values, kept)
    requires I.AllRegular(statics) && I.Complete(hash_tab, statics) && I.Findable(hash_tab, statics) && I.Zeros(hash_tab) > |kept|
    requires Loaded(hash_tab, statics, NewEntries(data, values, kept), tab)
    ensures var es := statics + NewEntries(data, values, kept);
      && I.Complete(tab, es)
      && (var r := I.Search(tab, es, m, 0);
          && (r.None? <==> (forall k :: 0 <= k < |es| ==> es[k].text != m))
          && (r.Some? ==> r.value < |es| && es[r.value].text == m)
          && (I.Search(hash_tab, statics, m, 0).Some? ==> r == I.Search(hash_tab, statics, m, 0)))
  {
    hide Usable;
    NewRegular(data, values, kept);
    TableFinds(hash_tab, statics, NewEntries(data, values, kept), tab, m);
  }

  lemma {:induction false} TableFinds(hash_tab: seq<nat>, statics: seq<I.Entry>, added: seq<I.Entry>, tab: seq<nat>, m: CString)
    requires I.AllRegular(statics) && I.AllRegular(added)
    requires I.Complete(hash_tab, statics) && I.Findable(hash_tab, statics) && I.Zeros(hash_tab) > |added|
    requires Loaded(hash_tab, statics, added, tab)
    ensures var es := statics + added;
      && I.Complete(tab, es)
      && (var r := I.Search(tab, es, m, 0);
          && (r.None? <==> (forall k :: 0 <= k < |es| ==> es[k].text != m))
          && (r.Some? ==> r.value < |es| && es[r.value].text == m)
          && (I.Search(hash_tab, statics, m, 0).Some? ==> r == I.Search(hash_tab, statics, m, 0)))
  {
    hide I.Search, I.Findable, I.Complete, I.Zeros, I.Augmented, I.Expected, I.Regular;
    I.FindableShape(hash_tab, statics);
    var es := statics + added;
    assert es[..|statics|] == statics && es[..|es|] == es;
    I.AugmentedSearch(hash_tab, es, |statics|, |es|, m);
    I.ExpectedMeans(I.Search(hash_tab, statics, m, 0), es, |statics|, |es|, m);
    I.FindsIff(tab, es, m);
  }

}
