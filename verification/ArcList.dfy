/** The doubly linked entry lists of navit/cache.c, and choosing a victim from them. */
module ArcList {

  /** A cache key: the words of an id. */
  type Id = seq<int>

  type Byte = x: int | 0 <= x < 256

  /** A cached block, or the trace of one: `payload` is the memory behind the id words, null when it has been cut off. */
  class Entry {
    const id: Id
    const size: nat
    const payload: array?<Byte>
    var usage: nat
    var where: EntryList?
    var next: Entry?
    var prev: Entry?

    constructor (id: Id, size: nat, payload: array?<Byte>, usage: nat)
      ensures this.id == id && this.size == size && this.payload == payload && this.usage == usage
    {
      this.id, this.size, this.payload, this.usage := id, size, payload, usage;
      where, next, prev := null, null, null;
    }
  }

  function Total(s: seq<Entry>): nat {
    if s == [] then 0 else s[0].size + Total(s[1..])
  }

  lemma {:induction false} TotalAppend(a: seq<Entry>, b: seq<Entry>)
    ensures Total(a + b) == Total(a) + Total(b)
  {
    if a == [] {
      assert a + b == b;
    } else {
      TotalAppend(a[1..], b);
      assert (a + b)[1..] == a[1..] + b;
    }
  }

  predicate Sized(s: seq<Entry>) {
    forall i :: 0 <= i < |s| ==> s[i].size > 0
  }

  /** Everything from `k` on is held by someone. */
  ghost predicate PinnedFrom(s: seq<Entry>, k: int)
    reads s`usage
  {
    forall i :: 0 <= i < |s| && k <= i ==> s[i].usage > 0
  }

  lemma {:induction false} PinnedNone(s: seq<Entry>)
    ensures PinnedFrom(s, |s|)
  {
  }

  lemma {:induction false} PinnedMore(s: seq<Entry>, k: int)
    requires 0 < k <= |s| && PinnedFrom(s, k) && s[k-1].usage > 0
    ensures PinnedFrom(s, k - 1)
  {
  }

  predicate Distinct(s: seq<Entry>) {
    forall i, j :: 0 <= i < j < |s| ==> s[i] != s[j]
  }

  function Elements(s: seq<Entry>): set<Entry> {
    set x | x in s
  }

  /** Struct cache_entry_list: `first` is the most, `last` the least recently used entry. */
  class EntryList {
    var first: Entry?
    var last: Entry?
    var size: int
    ghost var nodes: seq<Entry>

    ghost function Repr(): set<Entry>
      reads this`nodes
    {
      Elements(nodes)
    }

    ghost predicate Links(i: int)
      requires 0 <= i < |nodes|
      reads this`first, this`last, this`size, this`nodes, Repr()`prev, Repr()`next, Repr()`where
    {
      && nodes[i].prev == (if i == 0 then null else nodes[i-1])
      && nodes[i].next == (if i + 1 == |nodes| then null else nodes[i+1])
      && nodes[i].where == this
    }

    /** An acyclic doubly linked list over `nodes`, with the right ends and the right size. */
    ghost predicate Valid()
      reads this`first, this`last, this`size, this`nodes, Repr()`prev, Repr()`next, Repr()`where
    {
      && first == (if nodes == [] then null else nodes[0])
      && last == (if nodes == [] then null else nodes[|nodes|-1])
      && (forall i :: 0 <= i < |nodes| ==> Links(i))
      && Distinct(nodes)
      && size == Total(nodes)
    }

    constructor ()
      ensures Valid() && nodes == []
    {
      first, last, size, nodes := null, null, 0, [];
    }

    /** `cache_insert_mru`, the list part. */
    method InsertMru(entry: Entry)
      requires Valid() && entry !in nodes
      modifies this`first, this`last, this`size, this`nodes, entry`prev, entry`next, entry`where, Repr()`prev
      ensures Valid() && nodes == [entry] + old(nodes)
    {
      entry.prev := null;
      entry.next := first;
      entry.where := this;
      if entry.next != null {
        entry.next.prev := entry;
      }
      first := entry;
      if last == null {
        last := entry;
      }
      size := size + entry.size;
      nodes := [entry] + nodes;
      assert nodes[1..] == old(nodes);
      forall i | 0 <= i < |nodes| ensures Links(i) {
        assert i > 0 ==> old(Links(i - 1)) && nodes[i] == old(nodes)[i-1];
        assert i > 1 ==> nodes[i-1] == old(nodes)[i-2];
      }
    }

    /** `cache_remove_from_list`. */
    method Remove(entry: Entry, ghost k: nat)
      requires Valid() && k < |nodes| && nodes[k] == entry
      modifies this`first, this`last, this`size, this`nodes, Repr()`prev, Repr()`next
      ensures Valid() && nodes == old(nodes)[..k] + old(nodes)[k+1..]
    {
      hide Total, Distinct;
      assert Links(k) && (k > 0 ==> Links(k - 1)) && (k + 1 < |nodes| ==> Links(k + 1));
      DistinctRemove(nodes, k);
      TotalRemove(nodes, k);
      if entry.prev != null {
        entry.prev.next := entry.next;
      } else {
        first := entry.next;
      }
      if entry.next != null {
        entry.next.prev := entry.prev;
      } else {
        last := entry.prev;
      }
      size := size - entry.size;
      nodes := nodes[..k] + nodes[k+1..];
      forall i | 0 <= i < |nodes| ensures Links(i) {
        assert old(Links(if i < k then i else i + 1));
      }
    }

    /** `cache_remove_lru_helper`. */
    method RemoveLast() returns (e: Entry?)
      requires Valid()
      modifies this`first, this`last, this`size, this`nodes, Repr()`next
      ensures Valid()
      ensures if old(nodes) == [] then e == null && nodes == []
              else e == old(nodes)[|old(nodes)|-1] && nodes == old(nodes)[..|old(nodes)|-1] && e !in nodes
    {
      e := last;
      if e == null {
        return;
      }
      ghost var n := |nodes|;
      assert Links(n - 1) && (n > 1 ==> Links(n - 2));
      last := e.prev;
      if e.prev != null {
        e.prev.next := null;
      } else {
        first := null;
      }
      size := size - e.size;
      TotalRemove(nodes, n - 1);
      assert nodes[..n-1] + nodes[n..] == nodes[..n-1];
      nodes := nodes[..n-1];
      forall i | 0 <= i < |nodes| ensures Links(i) {
        assert old(Links(i));
      }
    }

    /** One round of the loop in `cache_remove_lru`: the tail becomes the head. */
    method Rotate() returns (x: Entry)
      requires Valid() && nodes != []
      modifies this`first, this`last, this`size, this`nodes, Repr()`prev, Repr()`next, Repr()`where
      ensures Valid() && size == old(size) && Repr() == old(Repr())
      ensures x == old(nodes)[|old(nodes)|-1] && nodes == [x] + old(nodes)[..|old(nodes)|-1]
    {
      hide Total;
      ghost var all := nodes;
      x := RemoveLast();
      InsertMru(x);
      RotationTotal(all, |all| - 1);
      assert all[|all|-1..] == [x];
      assert all == all[..|all|-1] + [x];
    }

    /** The loop of `cache_remove_lru`: everything from `k` on is pinned, and `seen` adds up to the
        list's size exactly when that is the whole list. */
    method RotatePinned() returns (seen: int, ghost k: nat)
      requires Valid() && Sized(nodes)
      modifies this`first, this`last, this`size, this`nodes, Repr()`prev, Repr()`next, Repr()`where
      ensures Valid() && k <= |old(nodes)| && nodes == Rotated(old(nodes), k)
      ensures PinnedFrom(old(nodes), k)
      ensures k > 0 <==> seen < size
      ensures k > 0 ==> old(nodes)[k-1].usage == 0
    {
      hide Total, Distinct, Valid, Rotated, TailTotal, Sized, Repr, PinnedFrom;
      ghost var all := nodes;
      k, seen := |nodes|, 0;
      Ends();
      assert PinnedFrom(all, k) by { PinnedNone(all); }
      RotatedNone(all);
      while last != null && last.usage != 0 && seen < size
        invariant Valid() && k <= |all| && nodes == Rotated(all, k) && size == Total(all) && Repr() == old(Repr())
        invariant PinnedFrom(all, k)
        invariant seen == TailTotal(all, k)
        decreases k
      {
        Ends();
        SeenAll(all, k);
        RotatedStep(all, k);
        PinnedMore(all, k);
        var x := Rotate();
        Ends();
        seen := seen + x.size;
        k := k - 1;
      }
      Ends();
      SeenAll(all, k);
      if k > 0 {
        RotatedStep(all, k);
      }
    }

    /** `cache_remove_lru`: rotate pinned entries from the tail to the front until an unpinned one
        is last, and unlink it.  When all are pinned the list ends up as it was. */
    method RemoveLru() returns (e: Entry?, ghost k: int)
      requires Valid() && Sized(nodes)
      modifies this`first, this`last, this`size, this`nodes, Repr()`prev, Repr()`next, Repr()`where
      ensures Valid()
      ensures -1 <= k < |old(nodes)| && PinnedFrom(old(nodes), k + 1)
      ensures k < 0 ==> e == null && nodes == old(nodes)
      ensures k >= 0 ==> e == old(nodes)[k] && e.usage == 0 && nodes == old(nodes)[k+1..] + old(nodes)[..k] && e !in nodes
    {
      hide Total, Distinct, Valid, Rotated;
      ghost var all := nodes;
      var seen;
      seen, k := RotatePinned();
      Ends();
      e := last;
      if e == null || e.usage != 0 || seen >= size {
        RotatedNone(all);
        if k > 0 { RotatedStep(all, k); }
        return null, -1;
      }
      RotatedStep(all, k);
      k := k - 1;
      e := RemoveLast();
    }

    lemma {:induction false} NoneTwice()
      requires Valid()
      ensures Distinct(nodes)
    {
    }

    lemma {:induction false} Ends()
      requires Valid()
      ensures last == (if nodes == [] then null else nodes[|nodes|-1]) && size == Total(nodes)
    {
    }
  }

  /** `s` after the elements from `k` on have been moved to the front, one by one from the tail. */
  function Rotated(s: seq<Entry>, k: nat): (r: seq<Entry>)
    requires k <= |s|
    ensures |r| == |s|
  {
    s[k..] + s[..k]
  }

  function TailTotal(s: seq<Entry>, k: nat): nat
    requires k <= |s|
  {
    Total(s[k..])
  }

  lemma {:induction false} RotatedNone(s: seq<Entry>)
    ensures Rotated(s, 0) == s == Rotated(s, |s|)
    ensures TailTotal(s, |s|) == 0
  {
  }

  lemma {:induction false} RotatedStep(s: seq<Entry>, k: nat)
    requires 0 < k <= |s|
    ensures var n, r := |s|, Rotated(s, k);
      && r[n-1] == s[k-1]
      && Rotated(s, k - 1) == [s[k-1]] + r[..n-1]
      && r[..n-1] == s[k..] + s[..k-1]
      && TailTotal(s, k - 1) == s[k-1].size + TailTotal(s, k)
  {
    assert s[k-1..][1..] == s[k..];
  }

  lemma {:induction false} DistinctRemove(s: seq<Entry>, k: nat)
    requires k < |s| && Distinct(s)
    ensures Distinct(s[..k] + s[k+1..])
    ensures k > 0 ==> s[k-1] != s[k]
    ensures k + 1 < |s| ==> s[k+1] != s[k] && (k > 0 ==> s[k-1] != s[k+1])
    ensures forall i :: 0 <= i < |s| && i != k - 1 ==> k > 0 ==> s[i] != s[k-1]
    ensures forall i :: 0 <= i < |s| && i != k + 1 ==> k + 1 < |s| ==> s[i] != s[k+1]
  {
  }

  /** Entries have a positive size, so all of them have been seen exactly when the sizes add up. */
  lemma {:induction false} SeenAll(all: seq<Entry>, k: nat)
    requires k <= |all| && Sized(all)
    ensures TailTotal(all, k) <= Total(all)
    ensures TailTotal(all, k) == Total(all) <==> k == 0
  {
    assert all == all[..k] + all[k..];
    TotalAppend(all[..k], all[k..]);
  }

  lemma {:induction false} RotationTotal(all: seq<Entry>, k: nat)
    requires k <= |all|
    ensures Total(all[k..] + all[..k]) == Total(all)
  {
    assert all == all[..k] + all[k..];
    TotalAppend(all[..k], all[k..]);
    TotalAppend(all[k..], all[..k]);
  }

  lemma {:induction false} TotalRemove(s: seq<Entry>, k: nat)
    requires k < |s|
    ensures Total(s) == Total(s[..k] + s[k+1..]) + s[k].size
  {
    assert s == s[..k] + ([s[k]] + s[k+1..]);
    TotalAppend(s[..k], [s[k]] + s[k+1..]);
    TotalAppend([s[k]], s[k+1..]);
    TotalAppend(s[..k], s[k+1..]);
  }
}
