/** Evicting and moving on the linked lists of navit/cache.c do to the lists what `ArcSpec` says. */
module ArcLink {
  import opened ArcList
  import opened ArcSpec

  ghost function CellOf(e: Entry): Cell
    reads e`usage
  {
    Cell(e.id, e.size, e.usage, e.payload)
  }

  /** The cells a list of entries stands for. */
  ghost function Seen(s: seq<Entry>): (c: seq<Cell>)
    reads s`usage
    ensures |c| == |s|
  {
    if s == [] then [] else [CellOf(s[0])] + Seen(s[1..])
  }

  lemma {:induction false} SeenAt(s: seq<Entry>)
    ensures forall i :: 0 <= i < |s| ==> Seen(s)[i] == CellOf(s[i])
  {
    if s != [] {
      SeenAt(s[1..]);
      forall i | 0 < i < |s| ensures Seen(s)[i] == CellOf(s[i]) {
        assert Seen(s)[i] == Seen(s[1..])[i-1];
      }
    }
  }

  lemma {:induction false} SumTotal(s: seq<Entry>)
    ensures Sum(Seen(s)) == Total(s)
  {
    if s != [] {
      SumTotal(s[1..]);
      assert Seen(s)[1..] == Seen(s[1..]);
    }
  }

  /** The victim is determined by being unpinned with only pinned entries behind it. */
  lemma {:induction false} VictimIs(s: seq<Entry>, k: int)
    requires -1 <= k < |s| && PinnedFrom(s, k + 1) && (k >= 0 ==> s[k].usage == 0)
    ensures LastUnpinned(Seen(s)) == k
  {
    SeenAt(s);
    assert LastUnpinned(Seen(s)) >= k && LastUnpinned(Seen(s)) <= k;
  }

  /** What is left of a list once its victim `s[k]` is gone (all of it when there is none). */
  function Rest(s: seq<Entry>, k: int): seq<Entry>
    requires -1 <= k < |s|
  {
    if k < 0 then s else s[k+1..] + s[..k]
  }

  lemma {:induction false} SeenRest(s: seq<Entry>, k: int)
    requires -1 <= k < |s|
    ensures Seen(Rest(s, k)) == if k < 0 then Seen(s) else Without(Seen(s), k)
  {
    hide Without;
    SeenAt(s);
    SeenAt(Rest(s, k));
    if k >= 0 {
      WithoutIs(Seen(s), k);
    }
  }

  lemma {:induction false} SeenCons(e: Entry, s: seq<Entry>)
    ensures Seen([e] + s) == [CellOf(e)] + Seen(s)
  {
  }

  /** `cache_remove_lru` takes the unpinned entry nearest the tail and keeps the cyclic order of the
      rest; with everything pinned the list is as before. */
  method RemoveLru(list: EntryList) returns (victim: Entry?)
    requires list.Valid() && Sized(list.nodes)
    modifies list`first, list`last, list`size, list`nodes, list.Repr()`prev, list.Repr()`next, list.Repr()`where
    ensures list.Valid() && Seen(list.nodes) == Drop(old(Seen(list.nodes)))
    ensures victim == null <==> LastUnpinned(old(Seen(list.nodes))) < 0
    ensures victim != null ==> CellOf(victim) == old(Seen(list.nodes))[LastUnpinned(old(Seen(list.nodes)))]
  {
    hide EntryList.Valid, EntryList.Links, Total, Distinct, Sized, PinnedFrom, Seen, LastUnpinned;
    ghost var s := list.nodes;
    ghost var k;
    victim, k := list.RemoveLru();
    assert Seen(s) == old(Seen(s)) && PinnedFrom(s, k + 1);
    SeenAt(s);
    VictimIs(s, k);
    SeenRest(s, k);
  }

  /** `cache_trim`: an entry with data is replaced by a bare one, also in the index. */
  method TrimEntry(e: Entry, entry_size: nat, hash: map<Id, Entry>) returns (x: Entry, index: map<Id, Entry>)
    ensures CellOf(x) == Trim(CellOf(e), entry_size)
    ensures if entry_size < e.size then fresh(x) && index == hash[e.id := x] else x == e && index == hash
  {
    x, index := e, hash;
    if entry_size < e.size {
      index := index - {e.id};
      x := new Entry(e.id, entry_size, null, e.usage);
      index := index[x.id := x];
      assert index == hash[e.id := x];
    }
  }

  /** `cache_move`, on the entries themselves. */
  method MoveEntry(src: EntryList, dst: EntryList, entry_size: nat, hash: map<Id, Entry>)
    returns (index: map<Id, Entry>, x: Entry?, ghost k: int)
    requires src != dst && src.Valid() && dst.Valid() && src.Repr() !! dst.Repr() && Sized(src.nodes)
    modifies src`first, src`last, src`size, src`nodes, dst`first, dst`last, dst`size, dst`nodes, src.Repr()`prev, src.Repr()`next, src.Repr()`where, dst.Repr()`prev
    ensures src.Valid() && dst.Valid()
    ensures -1 <= k < |old(src.nodes)| && PinnedFrom(old(src.nodes), k + 1)
    ensures src.nodes == Rest(old(src.nodes), k)
    ensures if k < 0 then x == null && dst.nodes == old(dst.nodes) && index == hash
            else
              var v := old(src.nodes)[k];
              && v.usage == 0 && x != null && dst.nodes == [x] + old(dst.nodes)
              && CellOf(x) == Trim(CellOf(v), entry_size) && x !in src.nodes
              && if entry_size < v.size then fresh(x) && index == hash[v.id := x] else x == v && index == hash
  {
    hide EntryList.Valid, EntryList.Links, Total, Distinct, Sized, PinnedFrom;
    index := hash;
    var e;
    e, k := src.RemoveLru();
    if e == null {
      return index, null, k;
    }
    assert e in old(src.Repr()) && e !in src.Repr();
    x, index := TrimEntry(e, entry_size, hash);
    dst.InsertMru(x);
  }
}
