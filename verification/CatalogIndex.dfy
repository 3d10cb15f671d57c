/** Looking up a message id (`_nl_find_msg` of intl/dcigettext.c) and adding the system dependent
    ids to the hash table (`_nl_load_domain` of intl/loadmsgcat.c). */
module CatalogIndex {
  import opened Basics
  import opened CatalogHash

  /** An original string: from the file, where the length may count more than the id (a plural entry
      goes on after a NUL), or put together in memory, where the length includes the NUL. */
  datatype Entry = Static(length: nat, text: CString) | Sysdep(length: nat, text: CString)

  /** The comparison in the probe loop. */
  predicate Matches(e: Entry, msgid: CString) {
    (if e.Static? then e.length >= |msgid| else e.length > |msgid|) && e.text == msgid
  }

  predicate Regular(e: Entry) {
    if e.Static? then e.length >= |e.text| else e.length > |e.text|
  }

  predicate AllRegular(es: seq<Entry>) { forall i :: 0 <= i < |es| ==> Regular(es[i]) }

  predicate InRange(tab: seq<nat>, es: seq<Entry>) {
    forall s :: 0 <= s < |tab| ==> tab[s] <= |es|
  }

  predicate Usable(tab: seq<nat>) { Sized(|tab|) && exists s :: 0 <= s < |tab| && tab[s] == 0 }

  /** The slot that id `m` probes in round `j`. */
  function At(tab: seq<nat>, m: CString, j: nat): (s: nat)
    requires |tab| > 2
    ensures s < |tab|
  {
    Slot(Hash(m), |tab|, j)
  }

  /** What probing from round `j` on finds. */
  function Search(tab: seq<nat>, es: seq<Entry>, m: CString, j: nat): Option<nat>
    requires |tab| > 2 && InRange(tab, es)
    decreases |tab| - j
  {
    if j >= |tab| then None
    else
      var nstr := tab[At(tab, m, j)];
      if nstr == 0 then None
      else if Matches(es[nstr-1], m) then Some(nstr - 1)
      else Search(tab, es, m, j + 1)
  }

  /** Some round below the table size hits an empty slot. */
  lemma {:induction false} EmptyAhead(tab: seq<nat>, m: CString) returns (j: nat)
    requires Usable(tab)
    ensures j < |tab| && tab[At(tab, m, j)] == 0
  {
    var s :| 0 <= s < |tab| && tab[s] == 0;
    j := EverySlot(Hash(m), |tab|, s);
  }

  /** The hash branch of `_nl_find_msg`; it ends because the probes reach an empty slot. */
  method FindByHash(tab: seq<nat>, es: seq<Entry>, msgid: CString) returns (act: Option<nat>)
    requires Usable(tab) && InRange(tab, es)
    ensures act == Search(tab, es, msgid, 0)
  {
    hide Hash, Slot, Prime;
    ghost var stop := EmptyAhead(tab, msgid);
    var hash_val := HashString(msgid);
    var idx, incr := hash_val % |tab|, 1 + (hash_val % (|tab| - 2));
    ghost var j: nat := 0;
    FirstSlot(hash_val, |tab|);
    while true
      invariant j <= stop && idx == At(tab, msgid, j) && incr == Increment(hash_val, |tab|)
      invariant Search(tab, es, msgid, 0) == Search(tab, es, msgid, j)
      decreases stop - j
    {
      var nstr := tab[idx];
      if nstr == 0 {
        return None;
      }
      nstr := nstr - 1;
      if Matches(es[nstr], msgid) {
        return Some(nstr);
      }
      NextSlot(hash_val, |tab|, j);
      idx := Advance(idx, incr, |tab|);
      j := j + 1;
    }
  }

  /** The step of the probe loops in 32-bit arithmetic: no intermediate value exceeds the table size. */
  method Advance(was: nat, incr: nat, hash_size: nat) returns (idx: nat)
    requires was < hash_size && 0 < incr < hash_size
    ensures idx == Next(was, incr, hash_size)
  {
    idx := was;
    if idx >= hash_size - incr {
      idx := idx - (hash_size - incr);
    } else {
      idx := idx + incr;
    }
  }

  lemma {:induction false} FirstSlot(h: nat, size: nat)
    requires size > 2
    ensures Slot(h, size, 0) == h % size && Increment(h, size) == 1 + (h % (size - 2))
  {
  }

  lemma {:induction false} NextSlot(h: nat, size: nat, j: nat)
    requires size > 2
    ensures Slot(h, size, j + 1) == Next(Slot(h, size, j), Increment(h, size), size)
  {
  }

  // What a search depends on

  /** The probes of `m` from round `j` to before round `k` neither end nor match. */
  predicate Passes(tab: seq<nat>, es: seq<Entry>, m: CString, j: nat, k: nat)
    requires |tab| > 2 && InRange(tab, es)
  {
    forall i :: j <= i < k ==> tab[At(tab, m, i)] != 0 && !Matches(es[tab[At(tab, m, i)]-1], m)
  }

  predicate Stops(tab: seq<nat>, es: seq<Entry>, m: CString, k: nat)
    requires |tab| > 2 && InRange(tab, es)
  {
    k < |tab| && (tab[At(tab, m, k)] == 0 || Matches(es[tab[At(tab, m, k)]-1], m))
  }

  function Verdict(tab: seq<nat>, m: CString, k: nat): Option<nat>
    requires |tab| > 2
  {
    if tab[At(tab, m, k)] == 0 then None else Some(tab[At(tab, m, k)] - 1)
  }

  lemma {:induction false} SearchEnds(tab: seq<nat>, es: seq<Entry>, m: CString, j: nat, stop: nat) returns (k: nat)
    requires |tab| > 2 && InRange(tab, es) && j <= stop < |tab| && tab[At(tab, m, stop)] == 0
    ensures j <= k <= stop && Passes(tab, es, m, j, k) && Stops(tab, es, m, k)
    ensures Search(tab, es, m, j) == Verdict(tab, m, k)
    decreases stop - j
  {
    hide At;
    if Stops(tab, es, m, j) {
      k := j;
    } else {
      assert j != stop;
      k := SearchEnds(tab, es, m, j + 1, stop);
    }
  }

  lemma {:induction false} SearchBy(tab: seq<nat>, es: seq<Entry>, m: CString, j: nat, k: nat)
    requires |tab| > 2 && InRange(tab, es) && j <= k && Passes(tab, es, m, j, k) && Stops(tab, es, m, k)
    ensures Search(tab, es, m, j) == Verdict(tab, m, k)
    decreases k - j
  {
    hide At;
    if j < k {
      assert tab[At(tab, m, j)] != 0;
      SearchBy(tab, es, m, j + 1, k);
    }
  }

  /** Where a search that succeeds ends. */
  lemma {:induction false} SearchHits(tab: seq<nat>, es: seq<Entry>, m: CString, j: nat) returns (k: nat)
    requires |tab| > 2 && InRange(tab, es) && Search(tab, es, m, j).Some?
    ensures j <= k && Passes(tab, es, m, j, k) && Stops(tab, es, m, k) && tab[At(tab, m, k)] != 0
    ensures Search(tab, es, m, j) == Verdict(tab, m, k)
    decreases |tab| - j
  {
    hide At;
    if Stops(tab, es, m, j) {
      k := j;
    } else {
      k := SearchHits(tab, es, m, j + 1);
    }
  }

  lemma {:induction false} SearchNowhere(tab: seq<nat>, es: seq<Entry>, m: CString, j: nat)
    requires |tab| > 2 && InRange(tab, es)
    requires forall s :: 0 <= s < |tab| && tab[s] != 0 ==> !Matches(es[tab[s]-1], m)
    ensures Search(tab, es, m, j) == None
    decreases |tab| - j
  {
    hide At;
    if j < |tab| {
      SearchNowhere(tab, es, m, j + 1);
    }
  }

  lemma {:induction false} SearchFinds(tab: seq<nat>, es: seq<Entry>, m: CString, j: nat)
    requires |tab| > 2 && InRange(tab, es)
    ensures var r := Search(tab, es, m, j); r.Some? ==> r.value < |es| && es[r.value].text == m
    decreases |tab| - j
  {
    hide At;
    if j < |tab| && tab[At(tab, m, j)] != 0 && !Matches(es[tab[At(tab, m, j)]-1], m) {
      SearchFinds(tab, es, m, j + 1);
    }
  }

  // Placing an entry

  /** The first round from `j` on that hits an empty slot. */
  function FreeRound(tab: seq<nat>, m: CString, j: nat): (k: nat)
    requires |tab| > 2
    decreases |tab| - j
  {
    if j >= |tab| || tab[At(tab, m, j)] == 0 then j else FreeRound(tab, m, j + 1)
  }

  lemma {:induction false} FreeRoundIs(tab: seq<nat>, m: CString, j: nat, stop: nat)
    requires |tab| > 2 && j <= stop < |tab| && tab[At(tab, m, stop)] == 0
    ensures var k := FreeRound(tab, m, j); j <= k <= stop && tab[At(tab, m, k)] == 0
    ensures forall i :: j <= i < FreeRound(tab, m, j) ==> tab[At(tab, m, i)] != 0
    decreases stop - j
  {
    hide At;
    if j < stop && tab[At(tab, m, j)] != 0 {
      FreeRoundIs(tab, m, j + 1, stop);
    }
  }

  /** The table after `v` has been put into the first empty slot that `m` probes. */
  function Place(tab: seq<nat>, m: CString, v: nat): (t: seq<nat>)
    requires |tab| > 2
    ensures |t| == |tab|
  {
    tab[At(tab, m, FreeRound(tab, m, 0)) := v]
  }

  /** Everything in the table can be found. */
  predicate Findable(tab: seq<nat>, es: seq<Entry>) {
    && Usable(tab) && InRange(tab, es)
    && forall s :: 0 <= s < |tab| && tab[s] != 0 ==> Search(tab, es, es[tab[s]-1].text, 0).Some?
  }

  /** Every entry can be found. */
  predicate Complete(tab: seq<nat>, es: seq<Entry>) {
    && Usable(tab) && InRange(tab, es)
    && forall k :: 0 <= k < |es| ==> Search(tab, es, es[k].text, 0).Some?
  }

  /** What an id finds once `e` has been added. */
  function Added(found: Option<nat>, e: Entry, k: nat, m: CString): Option<nat> {
    if found.Some? then found else if e.text == m then Some(k) else None
  }

  /** The probes of `m` come to an empty slot, without which they never end. */
  predicate Reaches(tab: seq<nat>, m: CString)
    requires |tab| > 2
  {
    exists j :: 0 <= j < |tab| && tab[At(tab, m, j)] == 0
  }

  /** In any table, what was found stays found, and the added id is found. */
  lemma {:induction false} PlaceFinds(tab: seq<nat>, es: seq<Entry>, e: Entry, m: CString)
    requires |tab| > 2 && InRange(tab, es) && Regular(e) && Reaches(tab, e.text)
    ensures InRange(Place(tab, e.text, |es| + 1), es + [e])
    ensures Search(tab, es, m, 0).Some? ==> Search(Place(tab, e.text, |es| + 1), es + [e], m, 0) == Search(tab, es, m, 0)
    ensures m == e.text ==> Search(Place(tab, e.text, |es| + 1), es + [e], m, 0).Some?
  {
    hide At, Hash, Slot, Search, FreeRound;
    var stop :| 0 <= stop < |tab| && tab[At(tab, e.text, stop)] == 0;
    FreeRoundIs(tab, e.text, 0, stop);
    var f := FreeRound(tab, e.text, 0);
    var t, fs := Place(tab, e.text, |es| + 1), es + [e];
    assert forall i: nat :: At(t, m, i) == At(tab, m, i) by { SameSlots(tab, t, m); }
    if Search(tab, es, m, 0).Some? {
      var k := SearchHits(tab, es, m, 0);
      SearchBy(t, fs, m, 0, k);
    } else if m == e.text {
      var k := SearchEnds(tab, es, m, 0, stop);
      assert k == f;
      SearchBy(t, fs, m, 0, k);
    }
  }

  /** Adding an entry changes no answer, except that its own id is now found if it was not before. */
  lemma {:induction false} PlaceSearch(tab: seq<nat>, es: seq<Entry>, e: Entry, m: CString)
    requires Findable(tab, es) && AllRegular(es) && Regular(e)
    ensures InRange(Place(tab, e.text, |es| + 1), es + [e])
    ensures Search(Place(tab, e.text, |es| + 1), es + [e], m, 0) == Added(Search(tab, es, m, 0), e, |es|, m)
  {
    hide At, Hash, Slot, Search, FreeRound, Prime;
    var stop := EmptyAhead(tab, m);
    var k := SearchEnds(tab, es, m, 0, stop);
    var stop' := EmptyAhead(tab, e.text);
    FreeRoundIs(tab, e.text, 0, stop');
    var f := FreeRound(tab, e.text, 0);
    var s := At(tab, e.text, f);
    var t, fs := Place(tab, e.text, |es| + 1), es + [e];
    assert forall i: nat :: At(t, m, i) == At(tab, m, i) by { SameSlots(tab, t, m); }
    assert forall i :: 0 <= i < k ==> At(tab, m, i) != s;
    assert Passes(t, fs, m, 0, k);
    if tab[At(tab, m, k)] != 0 {
      SearchBy(t, fs, m, 0, k);
    } else if e.text == m {
      assert f == k;
      SearchBy(t, fs, m, 0, k);
    } else if At(tab, m, k) != s {
      SearchBy(t, fs, m, 0, k);
    } else {
      forall x | 0 <= x < |t| && t[x] != 0 ensures !Matches(fs[t[x]-1], m) {
        if x != s {
          assert tab[x] != 0;
        }
      }
      SearchNowhere(t, fs, m, 0);
    }
  }

  lemma {:induction false} SameSlots(tab: seq<nat>, t: seq<nat>, m: CString)
    requires |tab| > 2 && |t| == |tab|
    ensures forall i: nat :: At(t, m, i) == At(tab, m, i)
  {
    hide Hash, Slot;
  }

  function Zeros(tab: seq<nat>): nat {
    if tab == [] then 0 else (if tab[0] == 0 then 1 else 0) + Zeros(tab[1..])
  }

  lemma {:induction false} ZerosSet(tab: seq<nat>, s: nat, v: nat)
    requires s < |tab| && tab[s] == 0 && v > 0
    ensures Zeros(tab[s := v]) == Zeros(tab) - 1
  {
    if s > 0 {
      ZerosSet(tab[1..], s - 1, v);
      assert tab[s := v][1..] == tab[1..][s - 1 := v];
    } else {
      assert tab[s := v][1..] == tab[1..];
    }
  }

  lemma {:induction false} SomeZero(tab: seq<nat>)
    requires Zeros(tab) > 0
    ensures exists s :: 0 <= s < |tab| && tab[s] == 0
  {
    if tab[0] != 0 {
      SomeZero(tab[1..]);
      var s :| 0 <= s < |tab| - 1 && tab[1..][s] == 0;
      assert tab[s+1] == 0;
    }
  }

  lemma {:induction false} PlaceKeeps(tab: seq<nat>, es: seq<Entry>, e: Entry)
    requires Findable(tab, es) && AllRegular(es) && Regular(e) && Zeros(tab) > 1
    ensures Findable(Place(tab, e.text, |es| + 1), es + [e])
    ensures Zeros(Place(tab, e.text, |es| + 1)) == Zeros(tab) - 1
    ensures Complete(tab, es) ==> Complete(Place(tab, e.text, |es| + 1), es + [e])
  {
    hide At, Hash, Slot, Search, FreeRound, Prime;
    var t, fs := Place(tab, e.text, |es| + 1), es + [e];
    var stop := EmptyAhead(tab, e.text);
    FreeRoundIs(tab, e.text, 0, stop);
    ZerosSet(tab, At(tab, e.text, FreeRound(tab, e.text, 0)), |es| + 1);
    SomeZero(t);
    PlaceSearch(tab, es, e, e.text);
    forall s | 0 <= s < |t| && t[s] != 0 ensures Search(t, fs, fs[t[s]-1].text, 0).Some? {
      PlaceSearch(tab, es, e, fs[t[s]-1].text);
      assert t[s] == tab[s] || t[s] == |es| + 1;
    }
    if Complete(tab, es) {
      forall k | 0 <= k < |fs| ensures Search(t, fs, fs[k].text, 0).Some? {
        PlaceSearch(tab, es, e, fs[k].text);
        assert k < |es| ==> fs[k] == es[k];
      }
    }
  }

  /** The table after the entries from `n` up to `k` have been added in order. */
  function Augmented(tab: seq<nat>, es: seq<Entry>, n: nat, k: nat): (t: seq<nat>)
    requires |tab| > 2 && n <= k <= |es|
    ensures |t| == |tab|
  {
    if k == n then tab else Place(Augmented(tab, es, n, k - 1), es[k-1].text, k)
  }

  /** The loop that adds the entries from `n` up to `k` ends. */
  predicate Augmentable(tab: seq<nat>, es: seq<Entry>, n: nat, k: nat)
    requires |tab| > 2 && n <= k <= |es|
  {
    k == n || (Augmentable(tab, es, n, k - 1) && Reaches(Augmented(tab, es, n, k - 1), es[k-1].text))
  }

  lemma {:induction false} ReachesEmpty(tab: seq<nat>, m: CString)
    requires Usable(tab)
    ensures Reaches(tab, m)
  {
    var j := EmptyAhead(tab, m);
  }

  /** With a prime size it ends as long as there is a free slot for each entry. */
  lemma {:induction false} FreeSlots(tab: seq<nat>, es: seq<Entry>, n: nat, k: nat)
    requires n <= k <= |es| && Sized(|tab|) && Zeros(tab) >= k - n
    ensures Augmentable(tab, es, n, k) && Zeros(Augmented(tab, es, n, k)) == Zeros(tab) - (k - n)
  {
    hide At, Zeros, Prime, Reaches, FreeRound;
    if k > n {
      FreeSlots(tab, es, n, k - 1);
      var t := Augmented(tab, es, n, k - 1);
      SomeZero(t);
      ReachesEmpty(t, es[k-1].text);
      var stop := EmptyAhead(t, es[k-1].text);
      FreeRoundIs(t, es[k-1].text, 0, stop);
      ZerosSet(t, At(t, es[k-1].text, FreeRound(t, es[k-1].text, 0)), k);
    }
  }

  /** Whatever the table, augmentation loses no answer, and every added id becomes findable. */
  lemma {:induction false} AugmentedFinds(tab: seq<nat>, es: seq<Entry>, n: nat, k: nat, m: CString)
    requires |tab| > 2 && n <= k <= |es| && InRange(tab, es[..n]) && AllRegular(es) && Augmentable(tab, es, n, k)
    ensures InRange(Augmented(tab, es, n, k), es[..k])
    ensures Search(tab, es[..n], m, 0).Some? ==> Search(Augmented(tab, es, n, k), es[..k], m, 0) == Search(tab, es[..n], m, 0)
    ensures forall i :: n <= i < k && es[i].text == m ==> Search(Augmented(tab, es, n, k), es[..k], m, 0).Some?
  {
    hide Search, Place, Reaches, Regular, InRange;
    if k > n {
      AugmentedFinds(tab, es, n, k - 1, m);
      assert es[..k] == es[..k-1] + [es[k-1]];
      PlaceFinds(Augmented(tab, es, n, k - 1), es[..k-1], es[k-1], m);
    }
  }

  /** What an id finds: the old answer if there was one, else the first entry from `n` on with this id. */
  function Expected(found: Option<nat>, es: seq<Entry>, n: nat, k: nat, m: CString): Option<nat>
    requires n <= k <= |es|
  {
    if k == n then found else Added(Expected(found, es, n, k - 1, m), es[k-1], k - 1, m)
  }

  /** Augmentation answers every id as before, or else with the first added entry of that id; in
      particular every id that was findable stays so, and every added id becomes findable. */
  lemma {:induction false} AugmentedSearch(tab: seq<nat>, es: seq<Entry>, n: nat, k: nat, m: CString)
    requires n <= k <= |es| && Findable(tab, es[..n]) && AllRegular(es) && Zeros(tab) > k - n
    ensures Findable(Augmented(tab, es, n, k), es[..k]) && Zeros(Augmented(tab, es, n, k)) == Zeros(tab) - (k - n)
    ensures Complete(tab, es[..n]) ==> Complete(Augmented(tab, es, n, k), es[..k])
    ensures Search(Augmented(tab, es, n, k), es[..k], m, 0) == Expected(Search(tab, es[..n], m, 0), es, n, k, m)
  {
    hide Findable, Complete, Search, Place, Zeros, Regular;
    FindableShape(tab, es[..n]);
    if k > n {
      AugmentedSearch(tab, es, n, k - 1, m);
      assert es[..k] == es[..k-1] + [es[k-1]];
      var t := Augmented(tab, es, n, k - 1);
      PlaceKeeps(t, es[..k-1], es[k-1]);
      PlaceSearch(t, es[..k-1], es[k-1], m);
    }
  }

  lemma {:induction false} FindableShape(tab: seq<nat>, es: seq<Entry>)
    requires Findable(tab, es)
    ensures |tab| > 2 && InRange(tab, es) && Usable(tab)
  {
  }

  predicate FirstFrom(es: seq<Entry>, n: nat, k: nat, m: CString, r: nat)
    requires k <= |es|
  {
    n <= r < k && es[r].text == m && forall i :: n <= i < r ==> es[i].text != m
  }

  /** The answer after augmentation, in plain words. */
  lemma {:induction false} ExpectedMeans(found: Option<nat>, es: seq<Entry>, n: nat, k: nat, m: CString)
    requires n <= k <= |es|
    ensures var r := Expected(found, es, n, k, m);
      && (found.Some? ==> r == found)
      && (found.None? && r.Some? ==> FirstFrom(es, n, k, m, r.value))
      && (found.None? && r.None? ==> forall i :: n <= i < k ==> es[i].text != m)
  {
    if k > n {
      ExpectedMeans(found, es, n, k - 1, m);
    }
  }

  /** The augmentation loop: `tab` starts as a copy of the table in the file, `nstrings` of the
      entries are in the file already, and only empty slots are written. */
  method Augment(tab: array<nat>, es: seq<Entry>, nstrings: nat)
    requires tab.Length > 2 && nstrings <= |es| && Augmentable(tab[..], es, nstrings, |es|)
    modifies tab
    ensures tab[..] == Augmented(old(tab[..]), es, nstrings, |es|)
    ensures forall s :: 0 <= s < tab.Length && old(tab[s]) != 0 ==> tab[s] == old(tab[s])
  {
    hide Hash, Slot, Prime, Place, Reaches;
    ghost var was := tab[..];
    var k := nstrings;
    while k < |es|
      invariant nstrings <= k <= |es| && tab[..] == Augmented(was, es, nstrings, k)
      invariant forall s :: 0 <= s < tab.Length && was[s] != 0 ==> tab[s] == was[s]
    {
      AugmentableAt(was, es, nstrings, k, |es|);
      PlaceOne(tab, es[k].text, 1 + k);
      k := k + 1;
    }
  }

  lemma {:induction false} AugmentableAt(tab: seq<nat>, es: seq<Entry>, n: nat, k: nat, last: nat)
    requires |tab| > 2 && n <= k < last <= |es| && Augmentable(tab, es, n, last)
    ensures Reaches(Augmented(tab, es, n, k), es[k].text)
    decreases last - k
  {
    hide Reaches, Augmented, Zeros, Prime, InRange;
    if k < last - 1 {
      AugmentableAt(tab, es, n, k, last - 1);
    }
  }

  /** One round of the augmentation loop. */
  method PlaceOne(tab: array<nat>, msgid: CString, v: nat)
    requires tab.Length > 2 && Reaches(tab[..], msgid)
    modifies tab
    ensures tab[..] == Place(old(tab[..]), msgid, v)
    ensures forall s :: 0 <= s < tab.Length && old(tab[s]) != 0 ==> tab[s] == old(tab[s])
  {
    hide Hash, Slot, Prime;
    ghost var was := tab[..];
    ghost var stop :| 0 <= stop < |was| && was[At(was, msgid, stop)] == 0;
    FreeRoundIs(was, msgid, 0, stop);
    ghost var f := FreeRound(was, msgid, 0);
    hide FreeRound, At;
    var size := tab.Length;
    var hash_val := HashString(msgid);
    var idx, incr := hash_val % size, 1 + (hash_val % (size - 2));
    ghost var j: nat := 0;
    FirstSlot(hash_val, size);
    AtIs(was, msgid);
    while tab[idx] != 0
      invariant j <= f && idx == Slot(hash_val, size, j) && idx < size && incr == Increment(hash_val, size)
      invariant tab[..] == was
      decreases f - j
    {
      assert j != f;
      NextSlot(hash_val, size, j);
      idx := Advance(idx, incr, size);
      j := j + 1;
    }
    assert j == f;
    tab[idx] := v;
    assert tab[..] == was[idx := v];
  }

  lemma {:induction false} AtIs(tab: seq<nat>, m: CString)
    requires |tab| > 2
    ensures forall j: nat :: At(tab, m, j) == Slot(Hash(m), |tab|, j)
  {
    hide Hash, Slot;
  }

  /** With every entry findable, `_nl_find_msg` succeeds exactly for the ids that are there. */
  lemma {:induction false} FindsIff(tab: seq<nat>, es: seq<Entry>, m: CString)
    requires Complete(tab, es)
    ensures Search(tab, es, m, 0).Some? <==> exists k :: 0 <= k < |es| && es[k].text == m
    ensures var r := Search(tab, es, m, 0); r.Some? ==> r.value < |es| && es[r.value].text == m
  {
    hide Search;
    SearchFinds(tab, es, m, 0);
  }

  /** A table filled from scratch by the same loop finds everything. */
  lemma {:induction false} BuiltFromEmpty(tab: seq<nat>, es: seq<Entry>)
    requires Sized(|tab|) && (forall s :: 0 <= s < |tab| ==> tab[s] == 0) && |es| < |tab| && AllRegular(es)
    ensures Complete(Augmented(tab, es, 0, |es|), es)
  {
    ZerosAll(tab);
    assert es[..0] == [] && es[..|es|] == es;
    assert tab[0] == 0;
    assert Findable(tab, []) && Complete(tab, []);
    AugmentedSearch(tab, es, 0, |es|, []);
  }

  lemma {:induction false} ZerosAll(tab: seq<nat>)
    requires forall s :: 0 <= s < |tab| ==> tab[s] == 0
    ensures Zeros(tab) == |tab|
  {
    if tab != [] {
      ZerosAll(tab[1..]);
    }
  }

  // The other way to look up: binary search

  predicate SortedIds(es: seq<Entry>) {
    forall i, j :: 0 <= i < j < |es| ==> Strcmp(es[i].text, es[j].text) < 0
  }

  /** The binary search branch of `_nl_find_msg`. */
  method FindBySearch(es: seq<Entry>, msgid: CString) returns (r: Option<nat>)
    requires SortedIds(es)
    ensures r.Some? ==> r.value < |es| && es[r.value].text == msgid
    ensures r.None? ==> forall k :: 0 <= k < |es| ==> es[k].text != msgid
  {
    var bottom, top := 0, |es|;
    while bottom < top
      invariant 0 <= bottom <= top <= |es|
      invariant forall k :: 0 <= k < bottom || top <= k < |es| ==> es[k].text != msgid
    {
      var act := (bottom + top) / 2;
      var cmp_val := Strcmp(msgid, es[act].text);
      ApartIds(es, msgid, act);
      if cmp_val < 0 {
        top := act;
      } else if cmp_val > 0 {
        bottom := act + 1;
      } else {
        return Some(act);
      }
    }
    return None;
  }

  lemma {:induction false} ApartIds(es: seq<Entry>, m: CString, act: nat)
    requires SortedIds(es) && act < |es|
    ensures Strcmp(m, es[act].text) == 0 <==> m == es[act].text
    ensures Strcmp(m, es[act].text) < 0 ==> forall k :: act <= k < |es| ==> es[k].text != m
    ensures Strcmp(m, es[act].text) > 0 ==> forall k :: 0 <= k <= act ==> es[k].text != m
  {
    hide Strcmp;
    StrcmpEqual(m, es[act].text);
    StrcmpTurns(es[act].text, m);
    StrcmpTurns(m, es[act].text);
    forall k | 0 <= k < |es| && es[k].text == m ensures Strcmp(m, es[act].text) < 0 ==> k < act {
      if act < k {
        StrcmpTurns(es[act].text, es[k].text);
      }
    }
    forall k | 0 <= k < |es| && es[k].text == m ensures Strcmp(m, es[act].text) > 0 ==> k > act {
      if k < act {
        StrcmpTurns(es[k].text, es[act].text);
      }
    }
  }

  /** On a sorted catalog both branches give the same answer for every id. */
  lemma {:induction false} BranchesAgree(tab: seq<nat>, es: seq<Entry>, m: CString, r: Option<nat>)
    requires SortedIds(es) && Complete(tab, es)
    requires r.Some? ==> r.value < |es| && es[r.value].text == m
    requires r.None? ==> forall k :: 0 <= k < |es| ==> es[k].text != m
    ensures r == Search(tab, es, m, 0)
  {
    hide Search;
    FindsIff(tab, es, m);
    SortedDiffer(es);
  }

  lemma {:induction false} SortedDiffer(es: seq<Entry>)
    requires SortedIds(es)
    ensures forall i, j :: 0 <= i < j < |es| ==> es[i].text != es[j].text
  {
    hide Strcmp;
    forall i, j | 0 <= i < j < |es| ensures es[i].text != es[j].text {
      StrcmpEqual(es[i].text, es[j].text);
    }
  }
}
