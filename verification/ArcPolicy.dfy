/** The policy of the adaptive replacement cache of navit/cache.c, written out on the contents of the
    lists: how a ghost hit moves the target, which entry leaves when room is needed, and where it goes. */
module ArcPolicy {
  import opened ArcList
  import opened ArcSpec
  import opened ArcRuns
  import opened ArcEvents

  predicate Lists(s: seq<Cell>, id: Id) { exists c :: c in s && c.id == id }

  predicate Idle(s: seq<Cell>) { exists c :: c in s && c.usage == 0 }

  /** `r` is `s` without `s[k]`, the others in order. */
  predicate Lacks(s: seq<Cell>, r: seq<Cell>, k: int) {
    0 <= k < |s| && r == s[..k] + s[k+1..]
  }

  /** `s[k]` is the idle entry nearest the tail, and `r` is `s` when it has been taken, those behind it
      having come to the front. */
  predicate Leaves(s: seq<Cell>, r: seq<Cell>, k: int) {
    && 0 <= k < |s| && s[k].usage == 0 && (forall i :: k < i < |s| ==> s[i].usage > 0)
    && r == s[k+1..] + s[..k]
  }

  /** `g` remembers `c`. */
  predicate Remembers(g: Cell, c: Cell, entry_size: nat) {
    && g.id == c.id && g.usage == c.usage
    && g.size == (if c.size > entry_size then entry_size else c.size)
    && g.block == (if c.size > entry_size then null else c.block)
  }

  /** The idle entry nearest the tail of `s` has become the head of `ghosts`. */
  ghost predicate Demoted(s: seq<Cell>, s': seq<Cell>, ghosts: seq<Cell>, ghosts': seq<Cell>, entry_size: nat) {
    exists k :: Leaves(s, s', k) && ghosts' != [] && ghosts'[1..] == ghosts && Remembers(ghosts'[0], s[k], entry_size)
  }

  /** t1 gives an entry if it has an idle one and either is at least as large as the target, without
      being empty, or t2 has none. */
  predicate FirstGives(t1: seq<Cell>, t2: seq<Cell>, target: int) {
    Idle(t1) && ((Sum(t1) > 0 && Sum(t1) >= target) || !Idle(t2))
  }

  /** From the resident lists of `a`, with these ghosts and this target, one entry has been demoted. */
  ghost predicate Evicted(a: Arc, b1: seq<Cell>, b2: seq<Cell>, target: int, r: Arc) {
    if FirstGives(a.t1, a.t2, target) then
      Demoted(a.t1, r.t1, b1, r.b1, a.entry_size) && r.t2 == a.t2 && r.b2 == b2
    else if Idle(a.t2) then
      Demoted(a.t2, r.t2, b2, r.b2, a.entry_size) && r.t1 == a.t1 && r.b1 == b1
    else
      r.t1 == a.t1 && r.t2 == a.t2 && r.b1 == b1 && r.b2 == b2
  }

  // The victim

  lemma {:induction false} IdleIs(s: seq<Cell>)
    ensures Idle(s) <==> LastUnpinned(s) >= 0
  {
    var k := LastUnpinned(s);
    assert k >= 0 ==> s[k] in s;
  }

  lemma {:induction false} LeavesIs(s: seq<Cell>, r: seq<Cell>)
    requires LastUnpinned(s) >= 0 && r == Without(s, LastUnpinned(s))
    ensures Leaves(s, r, LastUnpinned(s))
  {
    WithoutIs(s, LastUnpinned(s));
  }

  lemma {:induction false} DemotedIs(a: Arc, first: bool)
    requires Movable(Source(a, first))
    ensures var r := Moved(a, first);
      if first then Demoted(a.t1, r.t1, a.b1, r.b1, a.entry_size) && r.t2 == a.t2 && r.b2 == a.b2
      else Demoted(a.t2, r.t2, a.b2, r.b2, a.entry_size) && r.t1 == a.t1 && r.b1 == a.b1
  {
    hide Without, Leaves;
    var r := Moved(a, first);
    LeavesIs(Source(a, first), Source(r, first));
  }

  lemma {:induction false} ReplaceEvicts(a: Arc)
    ensures Evicted(a, a.b1, a.b2, a.target, Replace(a))
  {
    hide Moved, Idle, Demoted, Sum, Replace;
    ReplaceIs(a);
    IdleIs(a.t1);
    IdleIs(a.t2);
    if !Stuck(a) {
      DemotedIs(a, FromT1(a));
    }
  }

  // cache_lookup

  lemma {:induction false} ListsIs(s: seq<Cell>, id: Id)
    ensures Lists(s, id) <==> Index(s, id) >= 0
  {
    var k := Index(s, id);
    assert k >= 0 ==> s[k] in s;
  }

  /** What a hit does: the entry moves to the head of t2 with one more holder, and nothing else changes. */
  lemma {:induction false} HitPromotes(a: Arc, id: Id)
    requires Inv(a) && (Lists(a.t1, id) || Lists(a.t2, id))
    ensures var r := Lookup(a, id);
      && r == a.(t1 := r.t1, t2 := r.t2) && r.t2 != []
      && (if Lists(a.t1, id) then exists k :: Lacks(a.t1, r.t1, k) && a.t1[k].id == id && r.t2 == [a.t1[k].(usage := a.t1[k].usage + 1)] + a.t2
          else r.t1 == a.t1 && exists k :: Lacks(a.t2, r.t2[1..], k) && a.t2[k].id == id && r.t2[0] == a.t2[k].(usage := a.t2[k].usage + 1))
  {
    hide Inv, Index, Remove, Replace, Lists, Lookup;
    ListsIs(a.t1, id);
    ListsIs(a.t2, id);
    HitIs(a, id);
    if Lists(a.t1, id) {
      RemoveLacks(a.t1, Index(a.t1, id));
    } else {
      RemoveLacks(a.t2, Index(a.t2, id));
    }
  }

  lemma {:induction false} RemoveLacks(s: seq<Cell>, k: int)
    requires 0 <= k < |s|
    ensures Lacks(s, Remove(s, k), k)
  {
    RemoveIs(s, k);
  }

  /** `n` raised by the larger of the quotient of the totals and 1, but not beyond `size`. */
  predicate Raised(n: int, m: int, other: nat, hit: nat, size: nat) {
    && hit > 0
    && (other >= hit ==> if n + other / hit <= size then m == n + other / hit else m == size)
    && (other < hit ==> if n + 1 <= size then m == n + 1 else m == size)
    && (n < size ==> m > n) && (n == size ==> m == size)
  }

  /** `n` lowered by the larger of the quotient of the totals and 1, but not below 0. */
  predicate Lowered(n: int, m: int, other: nat, hit: nat) {
    && hit > 0
    && (other >= hit ==> if n >= other / hit then m == n - other / hit else m == 0)
    && (other < hit ==> if n >= 1 then m == n - 1 else m == 0)
    && (n > 0 ==> m < n) && (n == 0 ==> m == 0)
  }

  lemma {:induction false} QuotientOne(other: nat, hit: nat)
    requires hit > 0
    ensures other >= hit <==> other / hit >= 1
  {
  }

  /** What a hit in b1 or b2 does: a hit in b1 raises the target and a hit in b2 lowers it, the ghost is
      forgotten, and then one entry is demoted by the rule, with the new target. */
  lemma {:induction false} GhostAdapts(a: Arc, id: Id)
    requires Inv(a) && !Lists(a.t1, id) && !Lists(a.t2, id)
    ensures var r := Lookup(a, id);
      && (Lists(a.b1, id) ==>
            && Raised(a.target, r.target, Sum(a.b2), Sum(a.b1), a.size) && r.to_t2
            && exists k, b1 :: Lacks(a.b1, b1, k) && a.b1[k].id == id && Evicted(a, b1, a.b2, r.target, r))
      && (!Lists(a.b1, id) && Lists(a.b2, id) ==>
            && Lowered(a.target, r.target, Sum(a.b1), Sum(a.b2)) && r.to_t2
            && exists k, b2 :: Lacks(a.b2, b2, k) && a.b2[k].id == id && Evicted(a, a.b1, b2, r.target, r))
      && (!Lists(a.b1, id) && !Lists(a.b2, id) ==> r == a.(to_t2 := false))
  {
    hide Sum, Index, Remove, Replace, Evicted, Lists, Unghosted, Lacks, Stocked, OneEntryPerId, OneEntryPerBlock;
    ListsIs(a.t1, id);
    ListsIs(a.t2, id);
    ListsIs(a.b1, id);
    ListsIs(a.b2, id);
    if Ghostly(a, id) {
      GhostSum(a, id);
      UnghostedIs(a, id);
      var u := Unghosted(a, id);
      ReplaceFrame(u);
      ReplaceEvicts(u);
      GhostRemoved(a, id);
      if Index(a.b1, id) >= 0 {
        QuotientOne(Sum(a.b2), Sum(a.b1));
        EvictedOn(a, u, Replace(u), Lookup(a, id));
      } else {
        QuotientOne(Sum(a.b1), Sum(a.b2));
        EvictedOn(a, u, Replace(u), Lookup(a, id));
      }
    }
  }

  lemma {:induction false} GhostRemoved(a: Arc, id: Id)
    requires Ghostly(a, id)
    ensures var u := Unghosted(a, id);
      && u.t1 == a.t1 && u.t2 == a.t2 && u.entry_size == a.entry_size && u.size == a.size
      && (if Index(a.b1, id) >= 0 then
            && u.b2 == a.b2 && Lacks(a.b1, u.b1, Index(a.b1, id))
            && u.target == Min(a.target + Gain(Sum(a.b2), Sum(a.b1)), a.size)
          else
            && u.b1 == a.b1 && Lacks(a.b2, u.b2, Index(a.b2, id))
            && u.target == Max(a.target - Gain(Sum(a.b1), Sum(a.b2)), 0))
  {
    hide Sum, Remove, Index, Gain;
    if Index(a.b1, id) >= 0 {
      RemoveIs(a.b1, Index(a.b1, id));
    } else {
      RemoveIs(a.b2, Index(a.b2, id));
    }
  }

  /** The rule looks at the lists and nothing else. */
  lemma {:induction false} EvictedOn(a: Arc, u: Arc, r: Arc, r': Arc)
    requires u.t1 == a.t1 && u.t2 == a.t2 && u.entry_size == a.entry_size
    requires Evicted(u, u.b1, u.b2, u.target, r) && r'.t1 == r.t1 && r'.t2 == r.t2 && r'.b1 == r.b1 && r'.b2 == r.b2
    ensures Evicted(a, u.b1, u.b2, u.target, r')
  {
    hide FirstGives, Demoted, Idle;
  }

  // cache_insert

  /** The ghost at the tail has been forgotten, if there is one. */
  function Tailless(s: seq<Cell>): seq<Cell> { if s == [] then [] else s[..|s|-1] }

  lemma {:induction false} DropGhost(s: seq<Cell>, g: nat)
    requires Bare(s, g)
    ensures Drop(s) == Tailless(s)
  {
    if s != [] {
      assert s[|s|-1] in Cells(s);
      WithoutIs(s, |s| - 1);
    }
  }

  /** The totals before an insert decide what has to leave: with t1 and b1 together at the size aimed
      at, an entry of t1 is freed if t1 is that large by itself, and otherwise the oldest ghost of b1
      is forgotten and an entry demoted; with less there, an entry is demoted once everything together
      reaches the size, and the oldest ghost of b2 is forgotten once it reaches twice the size. */
  ghost predicate MadeRoom(a: Arc, r: Arc) {
    var one, all := Sum(a.t1) + Sum(a.b1), Sum(a.t1) + Sum(a.t2) + Sum(a.b1) + Sum(a.b2);
    if Sum(a.t1) >= a.size then
      && r.t2 == a.t2 && r.b1 == a.b1 && r.b2 == a.b2
      && (if Idle(a.t1) then exists k :: Leaves(a.t1, r.t1, k) else r.t1 == a.t1)
    else if one >= a.size then Evicted(a, Tailless(a.b1), a.b2, a.target, r)
    else if all >= 2 * a.size then Evicted(a, a.b1, Tailless(a.b2), a.target, r)
    else if all >= a.size then Evicted(a, a.b1, a.b2, a.target, r)
    else r.t1 == a.t1 && r.t2 == a.t2 && r.b1 == a.b1 && r.b2 == a.b2
  }

  lemma {:induction false} RoomIs(a: Arc)
    requires Inv(a)
    ensures MadeRoom(a, MakeRoom(a))
    ensures var r := MakeRoom(a); r.target == a.target && r.size == a.size && r.entry_size == a.entry_size && r.to_t2 == a.to_t2
  {
    hide Sum, Replace, Evicted, Idle, Tailless, Bare, Loaded, OneEntryPerId, OneEntryPerBlock, LastUnpinned, Without, Leaves;
    DropGhost(a.b1, a.entry_size);
    DropGhost(a.b2, a.entry_size);
    IdleIs(a.t1);
    if Sum(a.t1) >= a.size {
      if LastUnpinned(a.t1) >= 0 {
        LeavesIs(a.t1, Drop(a.t1));
      }
    } else if Sum(a.t1) + Sum(a.b1) >= a.size {
      ReplaceOn(a, a.(b1 := Drop(a.b1)));
    } else {
      ReplaceOn(a, a.(b2 := Drop(a.b2)));
      ReplaceOn(a, a);
    }
  }

  lemma {:induction false} ReplaceOn(a: Arc, u: Arc)
    requires u == a.(b1 := u.b1, b2 := u.b2)
    ensures Evicted(a, u.b1, u.b2, a.target, Replace(u))
    ensures var r := Replace(u); r.target == a.target && r.size == a.size && r.entry_size == a.entry_size && r.to_t2 == a.to_t2
  {
    hide Evicted, Replace;
    ReplaceEvicts(u);
    ReplaceFrame(u);
    EvictedOn(a, u, Replace(u), Replace(u));
  }

  /** Where a new entry goes: to the head of t2 after a ghost hit, with nothing leaving, and otherwise
      to the head of t1 once room has been made. */
  lemma {:induction false} InsertPlaces(a: Arc, id: Id, block: array<Byte>)
    requires Inv(a)
    ensures var c, r := Cell(id, block.Length + a.entry_size, 1, block), Insert(a, id, block);
      if a.to_t2 then r == a.(t2 := [c] + a.t2)
      else exists m :: MadeRoom(a, m) && r.t1 == [c] + m.t1 && r.t2 == m.t2 && r.b1 == m.b1 && r.b2 == m.b2
    ensures var r := Insert(a, id, block); r.target == a.target && r.to_t2 == a.to_t2
  {
    hide MakeRoom, MadeRoom, Inv;
    RoomIs(a);
    if !a.to_t2 {
      assert MadeRoom(a, MakeRoom(a));
    }
  }

  // The target over events

  /** Only a request for an id that is remembered in b1 or b2 moves the target. */
  lemma {:induction false} TargetMoves(a: Arc, e: Event)
    requires Inv(a) && Enabled(a, e)
    ensures var r := Apply(a, e);
      if e.Get? && !Resident(a, e.id) && Lists(a.b1, e.id) then Raised(a.target, r.target, Sum(a.b2), Sum(a.b1), a.size)
      else if e.Get? && !Resident(a, e.id) && Lists(a.b2, e.id) then Lowered(a.target, r.target, Sum(a.b1), Sum(a.b2))
      else r.target == a.target
  {
    hide Inv, Sum, Lookup, Insert, Release, Flush, Lists, Raised, Lowered, Index, Held;
    match e
    case Get(id, block) =>
      ListsIs(a.t1, id);
      ListsIs(a.t2, id);
      if Resident(a, id) {
        HitPromotes(a, id);
      } else {
        GhostAdapts(a, id);
        MissKeeps(a, id);
        InsertPlaces(Lookup(a, id), id, block);
      }
    case Give(block) => ReleaseTarget(a, block);
    case Forget(id) => ForgetMembers(a, id);
  }

  lemma {:induction false} ReleaseTarget(a: Arc, block: array<Byte>)
    requires Held(a, block)
    ensures Release(a, block).target == a.target
  {
  }

  // cache_entry_destroy and cache_flush

  /** Giving a block back takes one holder from the entry that has it, and changes nothing else. */
  lemma {:induction false} ReleaseUnpins(a: Arc, block: array<Byte>)
    requires Held(a, block)
    ensures var r := Release(a, block);
      && r == a.(t1 := r.t1, t2 := r.t2)
      && ((r.t2 == a.t2 && exists k :: Unheld(a.t1, r.t1, k, block)) || (r.t1 == a.t1 && exists k :: Unheld(a.t2, r.t2, k, block)))
  {
    var i1, i2 := Holder(a.t1, block), Holder(a.t2, block);
    if i1 >= 0 && a.t1[i1].usage > 0 {
      assert Unheld(a.t1, Release(a, block).t1, i1, block);
    } else {
      assert Unheld(a.t2, Release(a, block).t2, i2, block);
    }
  }

  /** The entry at `k`, which has the block, has one holder less. */
  predicate Unheld(s: seq<Cell>, r: seq<Cell>, k: int, block: array<Byte>) {
    0 <= k < |s| && s[k].block == block && s[k].usage > 0 && r == s[k := s[k].(usage := s[k].usage - 1)]
  }

  /** Flushing takes the entry of the id out of the list that has it, and changes nothing else. */
  lemma {:induction false} FlushTakes(a: Arc, id: Id)
    ensures var r := Flush(a, id);
      && r == a.(t1 := r.t1, t2 := r.t2, b1 := r.b1, b2 := r.b2)
      && (if Lists(a.t1, id) then r == a.(t1 := r.t1) && exists k :: Lacks(a.t1, r.t1, k) && a.t1[k].id == id
          else if Lists(a.t2, id) then r == a.(t2 := r.t2) && exists k :: Lacks(a.t2, r.t2, k) && a.t2[k].id == id
          else if Lists(a.b1, id) then r == a.(b1 := r.b1) && exists k :: Lacks(a.b1, r.b1, k) && a.b1[k].id == id
          else if Lists(a.b2, id) then r == a.(b2 := r.b2) && exists k :: Lacks(a.b2, r.b2, k) && a.b2[k].id == id
          else r == a)
  {
    hide Lists, Remove, Lacks, Index;
    ListsIs(a.t1, id);
    ListsIs(a.t2, id);
    ListsIs(a.b1, id);
    ListsIs(a.b2, id);
    if Lists(a.t1, id) {
      RemoveLacks(a.t1, Index(a.t1, id));
    } else if Lists(a.t2, id) {
      RemoveLacks(a.t2, Index(a.t2, id));
    } else if Lists(a.b1, id) {
      RemoveLacks(a.b1, Index(a.b1, id));
    } else if Lists(a.b2, id) {
      RemoveLacks(a.b2, Index(a.b2, id));
    }
  }
}
