/** `struct cache` of navit/cache.c: four linked lists, an adaptive target, the list of the next
    insert and an index of entries by id, all updated in place.  Every operation does to the lists
    what `ArcSpec` says and keeps the index in step with the links.  */
module ArcCache {
  import opened ArcList
  import opened ArcSpec
  import opened ArcLink
  import opened ArcRuns
  import opened ArcEvents

  /** The index has exactly the entries in the lists, and besides them the ids in `gone`. */
  ghost predicate Indexes(nodes: set<Entry>, hash: map<Id, Entry>, gone: set<Id>) {
    && (forall e :: e in nodes ==> e.id !in gone && e.id in hash && hash[e.id] == e)
    && (forall id :: id in hash && id !in gone ==> hash[id] in nodes && hash[id].id == id)
  }

  /** The data of a resident entry leads back to it. */
  ghost predicate Heads(residents: set<Entry>, headers: map<array<Byte>, Entry>) {
    forall e :: e in residents && e.payload != null ==> e.payload in headers && headers[e.payload] == e
  }

  lemma {:induction false} IndexSwap(nodes: set<Entry>, hash: map<Id, Entry>, gone: set<Id>, v: Entry, x: Entry)
    requires Indexes(nodes, hash, gone) && v in nodes && x.id == v.id
    ensures Indexes(nodes - {v} + {x}, hash[v.id := x], gone)
    ensures hash[v.id := x].Keys == hash.Keys && (x == v ==> hash[v.id := x] == hash)
  {
  }

  lemma {:induction false} IndexDrop(nodes: set<Entry>, hash: map<Id, Entry>, gone: set<Id>, v: Entry)
    requires Indexes(nodes, hash, gone) && v in nodes
    ensures Indexes(nodes - {v}, hash - {v.id}, gone)
    ensures Indexes(nodes - {v}, hash, gone + {v.id})
  {
  }

  lemma {:induction false} IndexForget(nodes: set<Entry>, hash: map<Id, Entry>, id: Id)
    requires Indexes(nodes, hash, {id})
    ensures Indexes(nodes, hash - {id}, {})
  {
  }

  lemma {:induction false} IndexPush(nodes: set<Entry>, hash: map<Id, Entry>, x: Entry)
    requires Indexes(nodes, hash, {}) && x.id !in hash
    ensures Indexes(nodes + {x}, hash[x.id := x], {})
  {
  }

  lemma {:induction false} HeadPush(residents: set<Entry>, headers: map<array<Byte>, Entry>, x: Entry)
    requires Heads(residents, headers) && x.payload != null && x.payload !in headers
    ensures Heads(residents + {x}, headers[x.payload := x])
  {
  }

  lemma {:induction false} SeenTake(s: seq<Entry>, k: nat)
    requires k < |s|
    ensures Seen(s[..k] + s[k+1..]) == Remove(Seen(s), k)
  {
    hide Remove;
    SeenAt(s);
    SeenAt(s[..k] + s[k+1..]);
    RemoveIs(Seen(s), k);
  }

  // Four lists

  ghost function Together(a: EntryList, b: EntryList, c: EntryList, d: EntryList): set<Entry>
    reads a`nodes, b`nodes, c`nodes, d`nodes
  {
    a.Repr() + b.Repr() + c.Repr() + d.Repr()
  }

  /** Four well-formed lists that share no entry. */
  ghost predicate Four(a: EntryList, b: EntryList, c: EntryList, d: EntryList)
    reads {a, b, c, d}, Together(a, b, c, d)
  {
    && a != b && a != c && a != d && b != c && b != d && c != d
    && a.Valid() && b.Valid() && c.Valid() && d.Valid()
    && a.Repr() !! b.Repr() && a.Repr() !! c.Repr() && a.Repr() !! d.Repr()
    && b.Repr() !! c.Repr() && b.Repr() !! d.Repr() && c.Repr() !! d.Repr()
  }

  lemma {:induction false} Swapped(a: EntryList, b: EntryList, c: EntryList, d: EntryList)
    requires Four(a, b, c, d)
    ensures Four(c, d, a, b) && Together(c, d, a, b) == Together(a, b, c, d)
  {
    hide EntryList.Valid, EntryList.Repr;
  }

  lemma {:induction false} Turned(a: EntryList, b: EntryList, c: EntryList, d: EntryList)
    requires Four(a, b, c, d)
    ensures Four(b, c, d, a) && Together(b, c, d, a) == Together(a, b, c, d)
  {
    hide EntryList.Valid, EntryList.Repr;
  }

  lemma {:induction false} EmptyFour(a: EntryList, b: EntryList, c: EntryList, d: EntryList)
    requires a != b && a != c && a != d && b != c && b != d && c != d
    requires a.Valid() && b.Valid() && c.Valid() && d.Valid()
    requires a.nodes == [] && b.nodes == [] && c.nodes == [] && d.nodes == []
    ensures Four(a, b, c, d) && Together(a, b, c, d) == {} && a.Repr() + c.Repr() == {}
    ensures Seen(a.nodes) == [] && Seen(b.nodes) == [] && Seen(c.nodes) == [] && Seen(d.nodes) == []
  {
  }

  /** `cache_move` from `a` to `b`, with two other lists looking on. */
  method MoveFour(a: EntryList, b: EntryList, ghost c: EntryList, ghost d: EntryList, entry_size: nat, hash: map<Id, Entry>)
    returns (index: map<Id, Entry>, entry: Entry?, ghost k: int)
    requires Four(a, b, c, d) && Sized(a.nodes)
    modifies a`first, a`last, a`size, a`nodes, b`first, b`last, b`size, b`nodes, a.Repr()`prev, a.Repr()`next, a.Repr()`where, b.Repr()`prev
    ensures Four(a, b, c, d) && c.nodes == old(c.nodes) && d.nodes == old(d.nodes)
    ensures -1 <= k < |old(a.nodes)| && PinnedFrom(old(a.nodes), k + 1)
    ensures a.nodes == Rest(old(a.nodes), k)
    ensures if k < 0 then entry == null && b.nodes == old(b.nodes) && index == hash
            else
              var v := old(a.nodes)[k];
              && v.usage == 0 && entry != null && b.nodes == [entry] + old(b.nodes)
              && CellOf(entry) == Trim(CellOf(v), entry_size)
              && v in old(Together(a, b, c, d)) && Together(a, b, c, d) == old(Together(a, b, c, d)) - {v} + {entry}
              && if entry_size < v.size then fresh(entry) && index == hash[v.id := entry] else entry == v && index == hash
  {
    hide EntryList.Valid, EntryList.Links, Total, Distinct, Sized, PinnedFrom, Seen;
    ghost var s, t := a.nodes, b.nodes;
    a.NoneTwice();
    index, entry, k := MoveEntry(a, b, entry_size, hash);
  }

  /** The same, in terms of what the lists hold. */
  method MoveSeen(a: EntryList, b: EntryList, ghost c: EntryList, ghost d: EntryList, entry_size: nat, hash: map<Id, Entry>, ghost gone: set<Id>)
    returns (index: map<Id, Entry>, entry: Entry?)
    requires Four(a, b, c, d) && Sized(a.nodes) && Indexes(Together(a, b, c, d), hash, gone)
    modifies a`first, a`last, a`size, a`nodes, b`first, b`last, b`size, b`nodes, a.Repr()`prev, a.Repr()`next, a.Repr()`where, b.Repr()`prev
    ensures Four(a, b, c, d) && Indexes(Together(a, b, c, d), index, gone)
    ensures fresh(Together(a, b, c, d) - old(Together(a, b, c, d)))
    ensures a.Repr() <= old(a.Repr()) && index.Keys <= hash.Keys
    ensures Seen(c.nodes) == old(Seen(c.nodes)) && Seen(d.nodes) == old(Seen(d.nodes))
    ensures var s, t := old(Seen(a.nodes)), old(Seen(b.nodes));
      var k := LastUnpinned(s);
      if k < 0 then entry == null && Seen(a.nodes) == s && Seen(b.nodes) == t
      else entry != null && Seen(a.nodes) == Without(s, k) && Seen(b.nodes) == [Trim(s[k], entry_size)] + t
  {
    hide EntryList.Valid, Total, Distinct, Sized, PinnedFrom, Seen, LastUnpinned, Without, Four, Together, Indexes;
    ghost var s, t, u, v, all := a.nodes, b.nodes, c.nodes, d.nodes, Together(a, b, c, d);
    ghost var k;
    index, entry, k := MoveFour(a, b, c, d, entry_size, hash);
    assert Seen(s) == old(Seen(s)) && Seen(t) == old(Seen(t)) && Seen(u) == old(Seen(u)) && Seen(v) == old(Seen(v));
    VictimIs(s, k);
    SeenRest(s, k);
    if k >= 0 {
      SeenAt(s);
      SeenCons(entry, t);
      IndexSwap(all, hash, gone, s[k], entry);
    }
  }

  /** `cache_remove_lru` on `a`, with three other lists looking on. */
  method DropFour(a: EntryList, ghost b: EntryList, ghost c: EntryList, ghost d: EntryList) returns (entry: Entry?, ghost k: int)
    requires Four(a, b, c, d) && Sized(a.nodes)
    modifies a`first, a`last, a`size, a`nodes, a.Repr()`prev, a.Repr()`next, a.Repr()`where
    ensures Four(a, b, c, d) && b.nodes == old(b.nodes) && c.nodes == old(c.nodes) && d.nodes == old(d.nodes)
    ensures -1 <= k < |old(a.nodes)| && PinnedFrom(old(a.nodes), k + 1)
    ensures a.nodes == Rest(old(a.nodes), k) && a.Repr() <= old(a.Repr())
    ensures if k < 0 then entry == null
            else
              && entry == old(a.nodes)[k] && entry.usage == 0
              && entry in old(Together(a, b, c, d)) && Together(a, b, c, d) == old(Together(a, b, c, d)) - {entry}
  {
    hide EntryList.Valid, EntryList.Links, Total, Distinct, Sized, PinnedFrom, Seen;
    ghost var s := a.nodes;
    a.NoneTwice();
    entry, k := a.RemoveLru();
  }

  /** The same with the victim freed, in terms of what the lists hold. */
  method DropSeen(a: EntryList, ghost b: EntryList, ghost c: EntryList, ghost d: EntryList, hash: map<Id, Entry>, ghost gone: set<Id>)
    returns (index: map<Id, Entry>)
    requires Four(a, b, c, d) && Sized(a.nodes) && Indexes(Together(a, b, c, d), hash, gone)
    modifies a`first, a`last, a`size, a`nodes, a.Repr()`prev, a.Repr()`next, a.Repr()`where
    ensures Four(a, b, c, d) && Indexes(Together(a, b, c, d), index, gone) && index.Keys <= hash.Keys
    ensures a.Repr() <= old(a.Repr()) && Together(a, b, c, d) <= old(Together(a, b, c, d))
    ensures Seen(b.nodes) == old(Seen(b.nodes)) && Seen(c.nodes) == old(Seen(c.nodes)) && Seen(d.nodes) == old(Seen(d.nodes))
    ensures Seen(a.nodes) == Drop(old(Seen(a.nodes)))
  {
    hide EntryList.Valid, Total, Distinct, Sized, PinnedFrom, Seen, LastUnpinned, Without, Four, Together, Indexes, EntryList.Repr;
    ghost var s, t, u, v, all := a.nodes, b.nodes, c.nodes, d.nodes, Together(a, b, c, d);
    var entry;
    ghost var k;
    entry, k := DropFour(a, b, c, d);
    index := hash;
    assert Seen(s) == old(Seen(s)) && Seen(t) == old(Seen(t)) && Seen(u) == old(Seen(u)) && Seen(v) == old(Seen(v));
    VictimIs(s, k);
    SeenRest(s, k);
    if entry != null {
      IndexDrop(all, hash, gone, entry);
      index := index - {entry.id};
    }
  }

  /** `cache_remove_from_list` on `a`. */
  method TakeSeen(a: EntryList, ghost b: EntryList, ghost c: EntryList, ghost d: EntryList, entry: Entry, ghost k: nat)
    requires Four(a, b, c, d) && k < |a.nodes| && a.nodes[k] == entry
    modifies a`first, a`last, a`size, a`nodes, a.Repr()`prev, a.Repr()`next
    ensures Four(a, b, c, d)
    ensures a.Repr() == old(a.Repr()) - {entry} && Together(a, b, c, d) == old(Together(a, b, c, d)) - {entry}
    ensures Seen(b.nodes) == old(Seen(b.nodes)) && Seen(c.nodes) == old(Seen(c.nodes)) && Seen(d.nodes) == old(Seen(d.nodes))
    ensures Seen(a.nodes) == Remove(old(Seen(a.nodes)), k)
  {
    hide EntryList.Valid, Total, Distinct, Seen, Remove;
    ghost var s, t, u, v := a.nodes, b.nodes, c.nodes, d.nodes;
    a.NoneTwice();
    a.Remove(entry, k);
    assert Seen(s) == old(Seen(s)) && Seen(t) == old(Seen(t)) && Seen(u) == old(Seen(u)) && Seen(v) == old(Seen(v));
    SeenTake(s, k);
  }

  /** `cache_insert_mru` on `a`. */
  method PushSeen(a: EntryList, ghost b: EntryList, ghost c: EntryList, ghost d: EntryList, entry: Entry)
    requires Four(a, b, c, d) && entry !in Together(a, b, c, d)
    modifies a`first, a`last, a`size, a`nodes, entry`prev, entry`next, entry`where, a.Repr()`prev
    ensures Four(a, b, c, d)
    ensures a.Repr() == old(a.Repr()) + {entry} && Together(a, b, c, d) == old(Together(a, b, c, d)) + {entry}
    ensures Seen(b.nodes) == old(Seen(b.nodes)) && Seen(c.nodes) == old(Seen(c.nodes)) && Seen(d.nodes) == old(Seen(d.nodes))
    ensures a.nodes == [entry] + old(a.nodes) && Seen(a.nodes) == [old(CellOf(entry))] + old(Seen(a.nodes))
  {
    hide EntryList.Valid, Total, Distinct, Seen;
    ghost var s, t, u, v := a.nodes, b.nodes, c.nodes, d.nodes;
    a.InsertMru(entry);
    assert Seen(s) == old(Seen(s)) && Seen(t) == old(Seen(t)) && Seen(u) == old(Seen(u)) && Seen(v) == old(Seen(v));
    SeenCons(entry, s);
  }

  /** A change of the number of holders of the entry at `k` in `a`. */
  method UseSeen(a: EntryList, ghost b: EntryList, ghost c: EntryList, ghost d: EntryList, entry: Entry, ghost k: nat, usage: nat)
    requires Four(a, b, c, d) && k < |a.nodes| && a.nodes[k] == entry
    modifies entry`usage
    ensures Four(a, b, c, d) && Together(a, b, c, d) == old(Together(a, b, c, d))
    ensures Seen(b.nodes) == old(Seen(b.nodes)) && Seen(c.nodes) == old(Seen(c.nodes)) && Seen(d.nodes) == old(Seen(d.nodes))
    ensures Seen(a.nodes) == old(Seen(a.nodes))[k := old(CellOf(entry)).(usage := usage)]
  {
    hide EntryList.Valid, Total, Distinct, Seen;
    a.NoneTwice();
    ghost var was := Seen(a.nodes);
    SeenAt(a.nodes);
    entry.usage := usage;
    assert entry in a.Repr();
    SeenAt(a.nodes);
    assert Distinct(a.nodes);
  }

  /** A hit in `a`: to the front of `c`, with one more holder. */
  method PromoteOther(a: EntryList, ghost b: EntryList, c: EntryList, ghost d: EntryList, entry: Entry, ghost k: nat)
    requires Four(a, b, c, d) && k < |a.nodes| && a.nodes[k] == entry
    modifies a, c, a.Repr(), c.Repr()
    ensures Four(a, b, c, d) && Together(a, b, c, d) == old(Together(a, b, c, d))
    ensures a.Repr() + c.Repr() == old(a.Repr() + c.Repr())
    ensures Seen(b.nodes) == old(Seen(b.nodes)) && Seen(d.nodes) == old(Seen(d.nodes))
    ensures Seen(a.nodes) == Remove(old(Seen(a.nodes)), k)
    ensures Seen(c.nodes) == [Bump(old(CellOf(entry)))] + old(Seen(c.nodes))
  {
    hide EntryList.Valid, Seen, Remove;
    assert entry in Together(a, b, c, d) && entry in a.Repr();
    TakeSeen(a, b, c, d, entry, k);
    Swapped(a, b, c, d);
    PushSeen(c, d, a, b, entry);
    UseSeen(c, d, a, b, entry, 0, entry.usage + 1);
    Swapped(c, d, a, b);
  }

  /** A hit in `c` itself. */
  method PromoteSame(c: EntryList, ghost d: EntryList, ghost a: EntryList, ghost b: EntryList, entry: Entry, ghost k: nat)
    requires Four(c, d, a, b) && k < |c.nodes| && c.nodes[k] == entry
    modifies c, c.Repr()
    ensures Four(c, d, a, b) && Together(c, d, a, b) == old(Together(c, d, a, b)) && c.Repr() == old(c.Repr())
    ensures Seen(d.nodes) == old(Seen(d.nodes)) && Seen(a.nodes) == old(Seen(a.nodes)) && Seen(b.nodes) == old(Seen(b.nodes))
    ensures Seen(c.nodes) == [Bump(old(CellOf(entry)))] + Remove(old(Seen(c.nodes)), k)
  {
    hide EntryList.Valid, Seen, Remove;
    assert entry in Together(c, d, a, b) && entry in c.Repr();
    TakeSeen(c, d, a, b, entry, k);
    PushSeen(c, d, a, b, entry);
    UseSeen(c, d, a, b, entry, 0, entry.usage + 1);
  }

  class Cache {
    const t1: EntryList
    const b1: EntryList
    const t2: EntryList
    const b2: EntryList
    var insert: EntryList
    var t1_target: int
    var hits: nat
    var misses: nat
    var hash: map<Id, Entry>
    /** The header in front of each data block, where pointer arithmetic finds it. */
    var headers: map<array<Byte>, Entry>
    const size: nat
    const entry_size: nat

    ghost function Nodes(): set<Entry>
      reads t1`nodes, b1`nodes, t2`nodes, b2`nodes
    {
      Together(t1, b1, t2, b2)
    }

    ghost predicate Linked()
      reads Lists(), Nodes()
    {
      Four(t1, b1, t2, b2)
    }

    ghost function Lists(): set<EntryList> { {t1, b1, t2, b2} }

    ghost function State(): Arc
      reads `insert, `t1_target, Lists(), Nodes()
    {
      Arc(Seen(t1.nodes), Seen(b1.nodes), Seen(t2.nodes), Seen(b2.nodes), t1_target, insert == t2, size, entry_size)
    }

    ghost predicate Indexed(gone: set<Id>)
      reads `hash, `headers, Lists()
    {
      Indexes(Nodes(), hash, gone) && Heads(t1.Repr() + t2.Repr(), headers)
    }

    /** The invariant, for the moments when the ids in `gone` are unlinked but still indexed. */
    ghost predicate ValidBut(gone: set<Id>)
      reads `hash, `headers, `insert, `t1_target, Lists(), Nodes()
    {
      ValidLinks(gone) && Inv(State())
    }

    ghost predicate Valid()
      reads `hash, `headers, `insert, `t1_target, Lists(), Nodes()
    {
      ValidBut({})
    }

    /** The invariant without what `ArcRuns.Inv` says of the contents. */
    ghost predicate ValidLinks(gone: set<Id>)
      reads `hash, `headers, `insert, `t1_target, Lists(), Nodes()
    {
      Linked() && Indexed(gone) && (insert == t1 || insert == t2)
    }

    /** `cache_new` for a supported id size. */
    constructor (size: nat, entry_size: nat)
      requires entry_size > 0
      ensures Valid() && State() == Empty(size, entry_size)
      ensures fresh(t1) && fresh(b1) && fresh(t2) && fresh(b2) && Nodes() == {}
    {
      this.size, this.entry_size := size, entry_size;
      var first := new EntryList();
      t1, insert := first, first;
      b1 := new EntryList();
      t2 := new EntryList();
      b2 := new EntryList();
      t1_target, hits, misses, hash, headers := 0, 0, 0, map[], map[];
      new;
      hide *;
      StartsEmpty();
    }

    lemma {:induction false} StartsEmpty()
      requires t1 != b1 && t1 != t2 && t1 != b2 && b1 != t2 && b1 != b2 && t2 != b2
      requires t1.Valid() && b1.Valid() && t2.Valid() && b2.Valid()
      requires t1.nodes == [] && b1.nodes == [] && t2.nodes == [] && b2.nodes == []
      requires insert == t1 && t1_target == 0 && hash == map[] && headers == map[] && entry_size > 0
      ensures Valid() && State() == Empty(size, entry_size) && Nodes() == {}
    {
      hide Inv, EntryList.Valid, Seen, EntryList.Repr;
      EmptyFour(t1, b1, t2, b2);
      EmptyInv(size, entry_size);
    }

    /** An entry is in the list that its `where` names, and in no other. */
    lemma {:induction false} Home(e: Entry) returns (k: nat)
      requires Linked() && e in Nodes()
      ensures e.where != null && e.where in Lists() && k < |e.where.nodes| && e.where.nodes[k] == e
      ensures forall l :: l in Lists() && e in l.Repr() ==> l == e.where
    {
      var l := if e in t1.Repr() then t1 else if e in b1.Repr() then b1 else if e in t2.Repr() then t2 else b2;
      k :| 0 <= k < |l.nodes| && l.nodes[k] == e;
      assert l.Links(k);
    }

    /** Every id in the index has its entry in exactly one list, the one its `where` names. */
    lemma {:induction false} InOneList(id: Id)
      requires Valid() && id in hash
      ensures hash[id].id == id && hash[id].where != null && hash[id].where in Lists()
      ensures forall l :: l in Lists() ==> (hash[id] in l.Repr() <==> l == hash[id].where)
    {
      hide Inv, EntryList.Valid;
      var k := Home(hash[id]);
    }

    /** Looking an id up in the index is looking it up in every list. */
    lemma {:induction false} Positions(id: Id, gone: set<Id>, l: EntryList)
      requires Linked() && Indexed(gone) && l in Lists() && id !in gone
      ensures var k := Index(Seen(l.nodes), id);
        if k < 0 then id !in hash || hash[id] !in l.Repr() else id in hash && l.nodes[k] == hash[id]
    {
      hide EntryList.Valid;
      var k := Index(Seen(l.nodes), id);
      SeenAt(l.nodes);
      if k >= 0 {
        assert l.nodes[k] in Nodes();
      }
    }

    /** `cache_move` from t1 to b1. */
    method Move1(ghost gone: set<Id>) returns (entry: Entry?)
      requires ValidBut(gone)
      modifies `hash, Lists(), Nodes()
      ensures ValidBut(gone) && hash.Keys <= old(hash).Keys
      ensures forall e :: e in Nodes() ==> e in old(Nodes()) || fresh(e)
      ensures State() == ArcSpec.Move1(old(State()))
      ensures entry != null <==> Movable(old(State()).t1)
    {
      hide EntryList.Valid, Sized, Seen, LastUnpinned, Inv, Without, EntryList.Repr, Indexes, Four, Together, Trim, Empty;
      ghost var a := State();
      AllSized(t1);
      Apart();
      hash, entry := MoveSeen(t1, b1, t2, b2, entry_size, hash, gone);
      assert State() == ArcSpec.Move1(a);
      MovedKeeps(a, true);
    }

    /** `cache_move` from t2 to b2. */
    method Move2(ghost gone: set<Id>) returns (entry: Entry?)
      requires ValidBut(gone)
      modifies `hash, Lists(), Nodes()
      ensures ValidBut(gone) && hash.Keys <= old(hash).Keys
      ensures forall e :: e in Nodes() ==> e in old(Nodes()) || fresh(e)
      ensures State() == ArcSpec.Move2(old(State()))
      ensures entry != null <==> Movable(old(State()).t2)
    {
      hide EntryList.Valid, Sized, Seen, LastUnpinned, Inv, Without, EntryList.Repr, Indexes, Four, Together, Trim, Empty;
      ghost var a := State();
      AllSized(t2);
      Apart();
      Swapped(t1, b1, t2, b2);
      hash, entry := MoveSeen(t2, b2, t1, b1, entry_size, hash, gone);
      Swapped(t2, b2, t1, b1);
      assert State() == ArcSpec.Move2(a);
      MovedKeeps(a, false);
    }

    lemma {:induction false} Apart()
      requires Linked()
      ensures t1 != b1 && t1 != t2 && t1 != b2 && b1 != t2 && b1 != b2 && t2 != b2
      ensures t1.Repr() <= Nodes() && b1.Repr() <= Nodes() && t2.Repr() <= Nodes() && b2.Repr() <= Nodes()
    {
    }

    /** Every entry takes up space. */
    lemma {:induction false} AllSized(l: EntryList)
      requires Inv(State()) && l in Lists()
      ensures Sized(l.nodes)
    {
      hide Weigh, OneEntryPerId, OneEntryPerBlock;
      forall i | 0 <= i < |l.nodes| ensures l.nodes[i].size > 0 {
        SeenAt(l.nodes);
        var c := Seen(l.nodes)[i];
        assert c in Cells(Seen(l.nodes));
      }
    }

    /** `cache_replace`. */
    method Replace(ghost gone: set<Id>)
      requires ValidBut(gone)
      modifies `hash, Lists(), Nodes()
      ensures ValidBut(gone) && hash.Keys <= old(hash).Keys
      ensures forall e :: e in Nodes() ==> e in old(Nodes()) || fresh(e)
      ensures State() == ArcSpec.Replace(old(State()))
    {
      hide ValidBut, Nodes, Lists, Linked, Indexed, Inv, Weigh, LastUnpinned, ArcSpec.Move1, ArcSpec.Move2, State;
      ghost var a := State();
      Sizes(gone);
      var entry;
      if t1.size >= Max(1, t1_target) {
        entry := Move1(gone);
        if entry == null {
          Unmoved(a);
          entry := Move2(gone);
        }
      } else {
        entry := Move2(gone);
        if entry == null {
          Unmoved(a);
          entry := Move1(gone);
        }
      }
    }

    /** `cache_remove_lru` on a list whose victim is freed. */
    method RemoveLru(list: EntryList)
      requires Valid() && (list == t1 || list == b1 || list == b2)
      modifies `hash, Lists(), Nodes()
      ensures Valid() && Nodes() <= old(Nodes()) && hash.Keys <= old(hash).Keys
      ensures State() == Dropped(old(State()), list == t1, list == b1)
    {
      hide EntryList.Valid, Sized, Seen, Drop, Inv, EntryList.Repr, Indexes, Four, Together, Empty;
      ghost var a := State();
      AllSized(list);
      Apart();
      if list == t1 {
        hash := DropSeen(t1, b1, t2, b2, hash, {});
      } else if list == b1 {
        Turned(t1, b1, t2, b2);
        hash := DropSeen(b1, t2, b2, t1, hash, {});
        Turned(b1, t2, b2, t1); Turned(t2, b2, t1, b1); Turned(b2, t1, b1, t2);
      } else {
        Turned(t1, b1, t2, b2); Turned(b1, t2, b2, t1); Turned(t2, b2, t1, b1);
        hash := DropSeen(b2, t1, b1, t2, hash, {});
        Turned(b2, t1, b1, t2);
      }
      assert State() == Dropped(a, list == t1, list == b1);
      DroppedKeeps(a, list == t1, list == b1);
    }

    /** The hit branch of `cache_lookup`: to the front of t2, with one more holder. */
    method Hit(entry: Entry)
      requires Valid() && entry in Nodes() && (entry.where == t1 || entry.where == t2)
      modifies `hits, Lists(), Nodes()
      ensures Valid() && Nodes() == old(Nodes())
      ensures Resident(old(State()), entry.id) && Find(old(State()), entry.id) == old(CellOf(entry))
      ensures State() == ArcSpec.Lookup(old(State()), entry.id) && hits == old(hits) + 1
    {
      hide EntryList.Valid, Seen, Inv, EntryList.Repr, Indexes, Four, Together, Empty, Index, Remove, ArcSpec.Lookup, Resident, Find;
      ghost var a, id := State(), entry.id;
      ghost var k := Home(entry);
      HitMeans(entry, k);
      HitKeeps(a, id);
      Apart();
      hits := hits + 1;
      if entry.where == t1 {
        PromoteOther(t1, b1, t2, b2, entry, k);
      } else {
        Swapped(t1, b1, t2, b2);
        PromoteSame(t2, b2, t1, b1, entry, k);
        Swapped(t2, b2, t1, b1);
      }
    }

    /** What a hit is to do, in terms of the entry that the index gives. */
    lemma {:induction false} HitMeans(entry: Entry, k: nat)
      requires Valid() && entry in Nodes() && (entry.where == t1 || entry.where == t2)
      requires k < |entry.where.nodes| && entry.where.nodes[k] == entry
      ensures Resident(State(), entry.id) && Find(State(), entry.id) == CellOf(entry)
      ensures var a := State(); var c := Bump(CellOf(entry));
        ArcSpec.Lookup(a, entry.id) == if entry.where == t1 then a.(t1 := Remove(a.t1, k), t2 := [c] + a.t2) else a.(t2 := [c] + Remove(a.t2, k))
    {
      hide EntryList.Valid, Seen, Inv, EntryList.Repr, Indexes, Together, Index, Remove, ArcSpec.Lookup;
      Found(entry, k);
      assert Index(State().t1, entry.id) == if entry.where == t1 then k else -1;
      assert Index(State().t2, entry.id) == if entry.where == t2 then k else -1;
      HitIs(State(), entry.id);
    }

    /** Where an indexed entry is, in terms of the specification. */
    lemma {:induction false} Found(entry: Entry, k: nat)
      requires Valid() && entry in Nodes() && entry.where in Lists() && k < |entry.where.nodes| && entry.where.nodes[k] == entry
      ensures Seen(entry.where.nodes)[k] == CellOf(entry)
      ensures forall l :: l in Lists() ==> Index(Seen(l.nodes), entry.id) == if l == entry.where then k else -1
    {
      hide EntryList.Valid, Inv, Seen;
      SeenAt(entry.where.nodes);
      forall l | l in Lists() ensures Index(Seen(l.nodes), entry.id) == if l == entry.where then k else -1 {
        Positions(entry.id, {}, l);
        l.NoneTwice();
      }
    }

    /** The ghost branches of `cache_lookup`: adapt the target, forget the ghost, make room. */
    method GhostHit(entry: Entry)
      requires Valid() && entry in Nodes() && (entry.where == b1 || entry.where == b2)
      modifies `hash, `t1_target, `insert, Lists(), Nodes()
      ensures Valid() && hash.Keys <= old(hash).Keys - {entry.id}
      ensures forall e :: e in Nodes() ==> e in old(Nodes()) || fresh(e)
      ensures Ghostly(old(State()), entry.id) && State() == ArcSpec.Lookup(old(State()), entry.id)
    {
      hide Valid, ValidBut, State, Nodes, Lists, Inv, ArcSpec.Lookup, ArcSpec.Replace, Ghostly, Unghosted;
      ghost var a, id := State(), entry.id;
      UnlinkGhost(entry);
      Replace({id});
      UnghostedIs(a, id);
      ForgetGhost(entry.id);
    }

    /** The end of a ghost hit: the id leaves the index, and the next insert goes to t2. */
    method ForgetGhost(id: Id)
      requires ValidBut({id})
      modifies `hash, `insert
      ensures Valid() && Nodes() == old(Nodes()) && hash.Keys == old(hash).Keys - {id}
      ensures State() == old(State()).(to_t2 := true)
    {
      hide EntryList.Valid, Seen, Inv, EntryList.Repr, Indexes, Heads, Four, Together;
      IndexForget(Nodes(), hash, id);
      Redirected(State(), true);
      hash := hash - {id};
      insert := t2;
    }

    /** The new target, and the ghost taken from its list but still indexed. */
    method UnlinkGhost(entry: Entry)
      requires Valid() && entry in Nodes() && (entry.where == b1 || entry.where == b2)
      modifies `t1_target, Lists(), Nodes()
      ensures ValidBut({entry.id}) && Nodes() <= old(Nodes())
      ensures Ghostly(old(State()), entry.id) && State() == Unghosted(old(State()), entry.id)
    {
      hide EntryList.Valid, Seen, Inv, EntryList.Repr, Indexes, Four, Together, Empty, Index, Remove, Weigh, Ghostly, Unghosted;
      ghost var a, id := State(), entry.id;
      ghost var k := Home(entry);
      GhostMeans(entry, k);
      UnghostedKeeps(a, id);
      Apart();
      Sizes({});
      IndexDrop(Nodes(), hash, {}, entry);
      assert {} + {id} == {id};
      Turned(t1, b1, t2, b2);
      if entry.where == b1 {
        t1_target := Min(t1_target + Max(b2.size / b1.size, 1), size);
        TakeSeen(b1, t2, b2, t1, entry, k);
        Turned(b1, t2, b2, t1); Turned(t2, b2, t1, b1);
      } else {
        t1_target := Max(t1_target - Max(b1.size / b2.size, 1), 0);
        Turned(b1, t2, b2, t1); Turned(t2, b2, t1, b1);
        TakeSeen(b2, t1, b1, t2, entry, k);
      }
      Turned(b2, t1, b1, t2);
    }

    /** What a ghost hit is to do first, in terms of the entry that the index gives. */
    lemma {:induction false} GhostMeans(entry: Entry, k: nat)
      requires Valid() && entry in Nodes() && (entry.where == b1 || entry.where == b2)
      requires k < |entry.where.nodes| && entry.where.nodes[k] == entry
      ensures Ghostly(State(), entry.id)
      ensures entry.where == b1 ==> Sum(State().b1) > 0 && var a := State();
        Unghosted(a, entry.id) == a.(target := Min(a.target + Max(Sum(a.b2) / Sum(a.b1), 1), a.size), b1 := Remove(a.b1, k))
      ensures entry.where == b2 ==> Sum(State().b2) > 0 && var a := State();
        Unghosted(a, entry.id) == a.(target := Max(a.target - Max(Sum(a.b1) / Sum(a.b2), 1), 0), b2 := Remove(a.b2, k))
    {
      hide EntryList.Valid, Seen, Inv, EntryList.Repr, Indexes, Together, Index, Remove, Weigh;
      Found(entry, k);
      assert Index(State().t1, entry.id) == -1 && Index(State().t2, entry.id) == -1;
      assert Index(State().b1, entry.id) == if entry.where == b1 then k else -1;
      assert Index(State().b2, entry.id) == if entry.where == b2 then k else -1;
      GhostSum(State(), entry.id);
    }

    /** `cache_lookup`: the block of a resident id, or null. */
    method Lookup(id: Id) returns (block: array?<Byte>)
      requires Valid()
      modifies this, Lists(), Nodes()
      ensures Valid() && State() == ArcSpec.Lookup(old(State()), id)
      ensures forall e :: e in Nodes() ==> e in old(Nodes()) || fresh(e)
      ensures block == (if Resident(old(State()), id) then Find(old(State()), id).block else null)
      ensures if Resident(old(State()), id) then block != null else block == null && id !in hash
      ensures hits == old(hits) + (if block != null then 1 else 0) && misses == old(misses) && headers == old(headers)
    {
      hide EntryList.Valid, Seen, Inv, EntryList.Repr, Indexes, Four, Together, Empty, Index, ArcSpec.Lookup, Ghostly, Find;
      ghost var a := State();
      if id !in hash {
        Missing(id);
        Redirected(a, false);
        Apart();
        insert := t1;
        return null;
      }
      var entry := hash[id];
      Listed(id);
      ghost var k := Home(entry);
      if entry.where == t1 || entry.where == t2 {
        Hit(entry);
        block := entry.payload;
        BlockThere(a, id);
      } else {
        GhostHit(entry);
        block := null;
        NotResident(a, id);
      }
    }

    lemma {:induction false} Sound()
      requires Valid()
      ensures Inv(State())
    {
    }

    lemma {:induction false} Listed(id: Id)
      requires Valid() && id in hash
      ensures hash[id] in Nodes() && hash[id].id == id
    {
    }

    /** What is not in the index is in no list. */
    lemma {:induction false} Missing(id: Id)
      requires Valid() && id !in hash
      ensures !Resident(State(), id) && !Ghostly(State(), id) && ArcSpec.Lookup(State(), id) == State().(to_t2 := false)
      ensures Residents(State(), HasId(id)) + Ghosts(State(), HasId(id)) == 0
    {
      hide EntryList.Valid, Seen, Inv, Index, Residents, Ghosts;
      Positions(id, {}, t1);
      Positions(id, {}, b1);
      Positions(id, {}, t2);
      Positions(id, {}, b2);
      Unlisted(State(), id);
    }

    /** The first part of `cache_insert`, which makes room for an insert into t1. */
    method MakeRoom()
      requires Valid()
      modifies `hash, Lists(), Nodes()
      ensures Valid() && hash.Keys <= old(hash).Keys
      ensures forall e :: e in Nodes() ==> e in old(Nodes()) || fresh(e)
      ensures State() == if insert == t1 then ArcSpec.MakeRoom(old(State())) else old(State())
    {
      hide EntryList.Valid, Seen, Inv, EntryList.Repr, Indexes, Four, Together, Empty, Weigh, Drop, ArcSpec.Replace;
      if insert == t1 {
        Sizes({});
        if t1.size + b1.size >= size {
          if t1.size < size {
            RemoveLru(b1);
            Replace({});
          } else {
            RemoveLru(t1);
          }
        } else {
          if t1.size + t2.size + b1.size + b2.size >= size {
            if t1.size + t2.size + b1.size + b2.size >= 2 * size {
              RemoveLru(b2);
            }
            Replace({});
          }
        }
      }
    }

    /** `cache_insert_new`: memory for an id that the lookup just before did not find. */
    method InsertNew(id: Id, n: nat) returns (block: array<Byte>)
      requires Valid() && id !in hash
      modifies `hash, `misses, `headers, Lists(), Nodes()
      ensures Valid() && fresh(block) && block.Length == n
      ensures forall e :: e in Nodes() ==> e in old(Nodes()) || fresh(e)
      ensures State() == ArcSpec.Insert(old(State()), id, block)
      ensures misses == old(misses) + 1
    {
      hide Seen, Inv, ArcSpec.Insert, EntryList.Valid, Indexes;
      ghost var a := State();
      block := new Byte[n];
      assert Valid() && block !in headers;
      var entry := new Entry(id, n + entry_size, block, 1);
      assert entry !in Nodes();
      assert Valid();
      assert State() == a;
      misses := misses + 1;
      Insert(entry, block);
    }

    /** `cache_insert`. */
    method Insert(entry: Entry, block: array<Byte>)
      requires Valid() && entry !in Nodes() && entry.id !in hash && entry.payload == block && block !in headers
      requires entry.size == block.Length + entry_size && entry.usage == 1
      modifies `hash, `headers, entry, Lists(), Nodes()
      ensures Valid()
      ensures forall e :: e in Nodes() ==> e in old(Nodes()) || e == entry || fresh(e)
      ensures State() == ArcSpec.Insert(old(State()), entry.id, block)
    {
      hide EntryList.Valid, Seen, Inv, Indexed, Linked, Nodes, Lists, State, Empty, ArcSpec.MakeRoom, ArcSpec.Insert, Pushed, Residents, Ghosts, Live;
      ghost var a, c := State(), CellOf(entry);
      Missing(entry.id);
      NoHeader(block);
      InsertKeeps(a, entry.id, block);
      Sizes({});
      InsertIs(a, c, block, insert == t1);
      MakeRoom();
      assert CellOf(entry) == c && entry !in Nodes();
      Insertion(entry, block);
    }

    /** `cache_insert_mru` into the list chosen, and into the index. */
    method Insertion(entry: Entry, block: array<Byte>)
      requires ValidLinks({}) && entry !in Nodes() && entry.id !in hash && entry.payload == block && block !in headers
      modifies `hash, `headers, entry, Lists(), Nodes()
      ensures ValidLinks({}) && Nodes() == old(Nodes()) + {entry}
      ensures State() == Pushed(old(State()), insert == t1, old(CellOf(entry)))
    {
      hide EntryList.Valid, Seen, EntryList.Repr, Indexes, Heads, Four, Together, Empty, State, Linked;
      IndexPush(Nodes(), hash, entry);
      HeadPush(t1.Repr() + t2.Repr(), headers, entry);
      PushChosen(entry);
      hash := hash[entry.id := entry];
      headers := headers[block := entry];
    }

    /** `cache_insert_mru` into the list chosen. */
    method PushChosen(entry: Entry)
      requires Linked() && (insert == t1 || insert == t2) && entry !in Nodes()
      modifies entry, Lists(), Nodes()
      ensures Linked() && Nodes() == old(Nodes()) + {entry}
      ensures t1.Repr() + t2.Repr() == old(t1.Repr() + t2.Repr()) + {entry}
      ensures State() == Pushed(old(State()), insert == t1, old(CellOf(entry)))
    {
      hide EntryList.Valid, Seen, EntryList.Repr, Four, Together, Empty;
      Apart();
      if insert == t1 {
        PushSeen(t1, b1, t2, b2, entry);
      } else {
        Swapped(t1, b1, t2, b2);
        PushSeen(t2, b2, t1, b1, entry);
        Swapped(t2, b2, t1, b1);
      }
    }

    /** A block that no header stands in front of is new to the cache. */
    lemma {:induction false} NoHeader(block: array<Byte>)
      requires Valid() && block !in headers
      ensures Residents(State(), HasBlock(block)) == 0
    {
      hide EntryList.Valid, Seen, Inv, Indexes, Residents;
      SeenAt(t1.nodes);
      SeenAt(t2.nodes);
      forall c | c in Live(State()) ensures c.block != block {
      }
      NewBlock(State(), block);
    }

    /** `cache_entry_destroy`: one holder less for the entry in whose header the block points. */
    method EntryDestroy(block: array<Byte>)
      requires Valid() && Held(State(), block)
      modifies Nodes()
      ensures Valid() && Nodes() == old(Nodes()) && State() == Release(old(State()), block)
    {
      hide EntryList.Valid, Seen, Inv, EntryList.Repr, Indexes, Four, Together, Empty, Held, Release;
      ghost var a := State();
      ghost var k := HeldBy(block);
      GiveKeeps(a, block);
      Apart();
      var entry := headers[block];
      if entry.where == t1 {
        UseSeen(t1, b1, t2, b2, entry, k, entry.usage - 1);
      } else {
        Swapped(t1, b1, t2, b2);
        UseSeen(t2, b2, t1, b1, entry, k, entry.usage - 1);
        Swapped(t2, b2, t1, b1);
      }
    }

    /** The header of a block that is held belongs to the entry that holds it. */
    lemma {:induction false} HeldBy(block: array<Byte>) returns (k: nat)
      requires Valid() && Held(State(), block)
      ensures block in headers && headers[block] in Nodes() && headers[block].usage > 0
      ensures var e := headers[block]; var a := State(); var c := Lower(CellOf(e));
        && (e.where == t1 || e.where == t2) && k < |e.where.nodes| && e.where.nodes[k] == e
        && Release(a, block) == if e.where == t1 then a.(t1 := a.t1[k := c]) else a.(t2 := a.t2[k := c])
    {
      hide EntryList.Valid, Seen, Inv, Indexes, Weigh;
      ghost var a := State();
      SeenAt(t1.nodes);
      SeenAt(t2.nodes);
      var i1, i2 := Holder(a.t1, block), Holder(a.t2, block);
      var e := headers[block];
      if i1 >= 0 && a.t1[i1].usage > 0 {
        assert t1.nodes[i1] == e && e in t1.Repr();
        k := Home(e);
        t1.NoneTwice();
      } else {
        assert t2.nodes[i2] == e && e in t2.Repr();
        k := Home(e);
        t2.NoneTwice();
      }
    }

    /** `cache_flush`: the entry goes, whether anybody holds it or not. */
    method Flush(id: Id)
      requires Valid()
      modifies `hash, Lists(), Nodes()
      ensures Valid() && Nodes() <= old(Nodes())
      ensures State() == ArcSpec.Flush(old(State()), id) && id !in hash
    {
      hide EntryList.Valid, Seen, Inv, EntryList.Repr, Indexes, Four, Together, Empty, Resident, Find, ArcSpec.Flush;
      ghost var a := State();
      ForgetKeeps(a, id);
      if id !in hash {
        MissingFlush(id);
        return;
      }
      var entry := hash[id];
      Listed(id);
      Unlink(entry);
      hash := hash - {id};
      IndexForget(Nodes(), old(hash), id);
    }

    /** `cache_remove_from_list` on whatever list an entry is in. */
    method Unlink(entry: Entry)
      requires Valid() && entry in Nodes()
      modifies Lists(), Nodes()
      ensures ValidLinks({entry.id}) && Nodes() <= old(Nodes())
      ensures State() == ArcSpec.Flush(old(State()), entry.id)
    {
      hide EntryList.Valid, Seen, Inv, EntryList.Repr, Indexes, Four, Together, Empty, ArcSpec.Flush, Remove;
      ghost var k := Home(entry);
      FlushMeans(entry, k);
      Apart();
      IndexDrop(Nodes(), hash, {}, entry);
      assert {} + {entry.id} == {entry.id};
      Turned(t1, b1, t2, b2); Turned(b1, t2, b2, t1); Turned(t2, b2, t1, b1);
      if entry.where == t1 {
        TakeSeen(t1, b1, t2, b2, entry, k);
      } else if entry.where == b1 {
        TakeSeen(b1, t2, b2, t1, entry, k);
        Turned(b1, t2, b2, t1); Turned(t2, b2, t1, b1); Turned(b2, t1, b1, t2);
      } else if entry.where == t2 {
        TakeSeen(t2, b2, t1, b1, entry, k);
        Turned(t2, b2, t1, b1); Turned(b2, t1, b1, t2);
      } else {
        TakeSeen(b2, t1, b1, t2, entry, k);
        Turned(b2, t1, b1, t2);
      }
    }

    lemma {:induction false} FlushMeans(entry: Entry, k: nat)
      requires Valid() && entry in Nodes() && entry.where in Lists() && k < |entry.where.nodes| && entry.where.nodes[k] == entry
      ensures var a := State();
        ArcSpec.Flush(a, entry.id) ==
          if entry.where == t1 then a.(t1 := Remove(a.t1, k))
          else if entry.where == t2 then a.(t2 := Remove(a.t2, k))
          else if entry.where == b1 then a.(b1 := Remove(a.b1, k))
          else a.(b2 := Remove(a.b2, k))
    {
      hide EntryList.Valid, Seen, Inv, EntryList.Repr, Indexes, Together, Index, Remove;
      Found(entry, k);
      var a, id := State(), entry.id;
      assert Index(a.t1, id) == if entry.where == t1 then k else -1;
      assert Index(a.b1, id) == if entry.where == b1 then k else -1;
      assert Index(a.t2, id) == if entry.where == t2 then k else -1;
      assert Index(a.b2, id) == if entry.where == b2 then k else -1;
    }

    lemma {:induction false} MissingFlush(id: Id)
      requires Valid() && id !in hash
      ensures ArcSpec.Flush(State(), id) == State()
    {
      hide EntryList.Valid, Seen, Inv, Index;
      Positions(id, {}, t1);
      Positions(id, {}, b1);
      Positions(id, {}, t2);
      Positions(id, {}, b2);
    }

    /** The sizes kept beside the lists are those of their entries. */
    lemma {:induction false} Sizes(gone: set<Id>)
      requires ValidBut(gone)
      ensures t1.size == Sum(State().t1) && b1.size == Sum(State().b1) && t2.size == Sum(State().t2) && b2.size == Sum(State().b2)
      ensures State().target == t1_target && State().size == size && State().entry_size == entry_size && Inv(State())
      ensures State().to_t2 == (insert == t2) && t1 != t2 && (insert == t1 || insert == t2)
    {
      hide Seen, Weigh, Total, Indexes, Inv;
      SumTotal(t1.nodes);
      SumTotal(b1.nodes);
      SumTotal(t2.nodes);
      SumTotal(b2.nodes);
    }
  }

  function Pushed(a: Arc, first: bool, c: Cell): Arc {
    if first then a.(t1 := [c] + a.t1) else a.(t2 := [c] + a.t2)
  }

  lemma {:induction false} InsertIs(a: Arc, c: Cell, block: array<Byte>, first: bool)
    requires c == Fresh(a, c.id, block) && a.to_t2 == !first
    ensures Insert(a, c.id, block) == Pushed(if first then MakeRoom(a) else a, first, c)
  {
    hide MakeRoom;
  }

  /** A list without its victim: t1, b1 or b2. */
  function Dropped(a: Arc, isT1: bool, isB1: bool): Arc {
    if isT1 then a.(t1 := Drop(a.t1)) else if isB1 then a.(b1 := Drop(a.b1)) else a.(b2 := Drop(a.b2))
  }

  lemma {:induction false} DroppedKeeps(a: Arc, isT1: bool, isB1: bool)
    requires Inv(a)
    ensures Inv(Dropped(a, isT1, isB1))
  {
    hide Weigh, Drop, Cells;
    var r, l := Dropped(a, isT1, isB1), if isT1 then a.t1 else if isB1 then a.b1 else a.b2;
    DropWeighs(l, SizeOf);
    forall id ensures Residents(r, HasId(id)) + Ghosts(r, HasId(id)) <= 1 {
      DropWeighs(l, HasId(id));
      assert Residents(a, HasId(id)) + Ghosts(a, HasId(id)) <= 1;
    }
    forall c | c in Live(r) ensures Residents(r, HasBlock(c.block)) <= 1 {
      DropWeighs(l, HasBlock(c.block));
      assert c in Live(a);
    }
    BlockOnce(r);
  }

  lemma {:induction false} BlockThere(a: Arc, id: Id)
    requires Inv(a) && Resident(a, id)
    ensures Find(a, id).block != null
  {
    assert Find(a, id) in Cells(a.t1) + Cells(a.t2);
  }

  lemma {:induction false} NotResident(a: Arc, id: Id)
    requires Ghostly(a, id)
    ensures !Resident(a, id)
  {
  }

  lemma {:induction false} NewBlock(a: Arc, block: array<Byte>)
    requires forall c :: c in Live(a) ==> c.block != block
    ensures Residents(a, HasBlock(block)) == 0
  {
    assert Cells(a.t1) <= Live(a) && Cells(a.t2) <= Live(a);
    forall c | c in a.t1 || c in a.t2 ensures HasBlock(block)(c) == 0 {
      assert c in Live(a);
    }
    WeighNone(a.t1, HasBlock(block));
    WeighNone(a.t2, HasBlock(block));
  }

  lemma {:induction false} Unmoved(a: Arc)
    ensures !Movable(a.t1) ==> Move1(a) == a
    ensures !Movable(a.t2) ==> Move2(a) == a
  {
  }
}
