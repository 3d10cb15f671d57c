/** What the cache of navit/cache.c keeps over every run of lookups, inserts, releases and flushes. */
module ArcRuns {
  import opened ArcList
  import opened ArcSpec

  // Weights of lists under the ways cells are taken out and put in

  lemma {:induction false} WeighAppend(s: seq<Cell>, t: seq<Cell>, f: Cell -> nat)
    ensures Weigh(s + t, f) == Weigh(s, f) + Weigh(t, f)
  {
    if s == [] {
      assert s + t == t;
    } else {
      WeighAppend(s[1..], t, f);
      assert (s + t)[1..] == s[1..] + t;
    }
  }

  lemma {:induction false} WeighOne(c: Cell, s: seq<Cell>, f: Cell -> nat)
    ensures Weigh([c] + s, f) == f(c) + Weigh(s, f)
  {
    assert ([c] + s)[1..] == s;
  }

  lemma {:induction false} WeighTake(s: seq<Cell>, k: nat, f: Cell -> nat)
    requires k < |s|
    ensures Weigh(Without(s, k), f) == Weigh(Remove(s, k), f) == Weigh(s, f) - f(s[k])
  {
    hide Remove, Without;
    RemoveIs(s, k);
    WithoutIs(s, k);
    assert s == s[..k] + ([s[k]] + s[k+1..]);
    WeighAppend(s[..k], [s[k]] + s[k+1..], f);
    WeighOne(s[k], s[k+1..], f);
    WeighAppend(s[..k], s[k+1..], f);
    WeighAppend(s[k+1..], s[..k], f);
  }

  lemma {:induction false} WeighSet(s: seq<Cell>, k: nat, c: Cell, f: Cell -> nat)
    requires k < |s|
    ensures Weigh(s[k := c], f) == Weigh(s, f) - f(s[k]) + f(c)
  {
    WeighTake(s, k, f);
    WeighTake(s[k := c], k, f);
    RemoveIs(s, k);
    RemoveIs(s[k := c], k);
    assert Remove(s[k := c], k) == Remove(s, k);
  }

  lemma {:induction false} WeighAt(s: seq<Cell>, k: nat, f: Cell -> nat)
    requires k < |s|
    ensures Weigh(s, f) >= f(s[k])
  {
    WeighTake(s, k, f);
  }

  lemma {:induction false} WeighNone(s: seq<Cell>, f: Cell -> nat)
    requires forall c :: c in s ==> f(c) == 0
    ensures Weigh(s, f) == 0
  {
    if s != [] {
      WeighNone(s[1..], f);
    }
  }

  function HasId(id: Id): Cell -> nat { (c: Cell) => if c.id == id then 1 else 0 }

  function HasBlock(b: array?<Byte>): Cell -> nat { (c: Cell) => if c.block == b then 1 else 0 }

  function PinsOn(b: array?<Byte>): Cell -> nat { (c: Cell) => if c.block == b then c.usage else 0 }

  function Residents(a: Arc, f: Cell -> nat): nat { Weigh(a.t1, f) + Weigh(a.t2, f) }

  function Ghosts(a: Arc, f: Cell -> nat): nat { Weigh(a.b1, f) + Weigh(a.b2, f) }

  // The invariant

  function Cells(s: seq<Cell>): set<Cell> { set c | c in s }

  /** The resident cells. */
  function Live(a: Arc): set<Cell> { Cells(a.t1) + Cells(a.t2) }

  predicate Loaded(s: seq<Cell>, g: nat) {
    forall c :: c in Cells(s) ==> c.block != null && c.size == c.block.Length + g
  }

  predicate Bare(s: seq<Cell>, g: nat) {
    forall c :: c in Cells(s) ==> c.usage == 0 && c.size == g
  }

  /** No id is in the four lists twice. */
  ghost predicate OneEntryPerId(a: Arc) {
    forall id :: Residents(a, HasId(id)) + Ghosts(a, HasId(id)) <= 1
  }

  ghost predicate OneEntryPerBlock(a: Arc) {
    forall c :: c in Live(a) ==> Residents(a, HasBlock(c.block)) == 1
  }

  ghost predicate Inv(a: Arc) {
    && a.entry_size > 0 && 0 <= a.target <= a.size
    && Stocked(a) && OneEntryPerId(a) && OneEntryPerBlock(a)
  }

  // What cache_move and cache_replace take out of the resident lists

  function Source(a: Arc, first: bool): seq<Cell> { if first then a.t1 else a.t2 }

  /** `cache_move` from t1 or from t2. */
  function Moved(a: Arc, first: bool): Arc { if first then Move1(a) else Move2(a) }

  function Candidate(a: Arc, first: bool): (v: Cell)
    requires Movable(Source(a, first))
    ensures v.usage == 0 && v in Live(a)
  {
    Source(a, first)[LastUnpinned(Source(a, first))]
  }

  lemma {:induction false} MovedWeighs(a: Arc, first: bool, f: Cell -> nat)
    requires Movable(Source(a, first))
    ensures Residents(Moved(a, first), f) == Residents(a, f) - f(Candidate(a, first))
    ensures Ghosts(Moved(a, first), f) == Ghosts(a, f) + f(Trim(Candidate(a, first), a.entry_size))
  {
    WeighTake(Source(a, first), LastUnpinned(Source(a, first)), f);
    WeighOne(Trim(Candidate(a, first), a.entry_size), if first then a.b1 else a.b2, f);
  }

  predicate Stuck(a: Arc) { !Movable(a.t1) && !Movable(a.t2) }

  predicate FromT1(a: Arc) {
    Movable(a.t1) && (Sum(a.t1) >= Max(1, a.target) || !Movable(a.t2))
  }

  function Victim(a: Arc): (v: Cell)
    requires !Stuck(a)
    ensures v.usage == 0 && v in Live(a)
  {
    Candidate(a, FromT1(a))
  }

  lemma {:induction false} ReplaceIs(a: Arc)
    ensures Replace(a) == if Stuck(a) then a else Moved(a, FromT1(a))
    ensures !Stuck(a) ==> Movable(Source(a, FromT1(a)))
  {
    hide Weigh, LastUnpinned, Trim, Without;
  }

  lemma {:induction false} ReplaceWeighs(a: Arc, f: Cell -> nat)
    ensures Stuck(a) ==> Replace(a) == a
    ensures !Stuck(a) ==> Residents(Replace(a), f) == Residents(a, f) - f(Victim(a))
    ensures !Stuck(a) ==> Ghosts(Replace(a), f) == Ghosts(a, f) + f(Trim(Victim(a), a.entry_size))
  {
    hide Weigh, Replace, Moved, FromT1;
    ReplaceIs(a);
    if !Stuck(a) {
      MovedWeighs(a, FromT1(a), f);
    }
  }

  /** Nothing new becomes resident, and nothing that is held leaves. */
  ghost predicate Shrinks(a: Arc, r: Arc) {
    && (forall c :: c in Live(r) ==> c in Live(a))
    && (forall c :: c in Live(a) ==> c.usage > 0 ==> c in Live(r))
  }

  lemma {:induction false} TakeMembers(s: seq<Cell>, k: nat)
    requires k < |s|
    ensures Cells(s) - {s[k]} <= Cells(Without(s, k)) <= Cells(s)
    ensures Cells(s) - {s[k]} <= Cells(Remove(s, k)) <= Cells(s)
    ensures s[k] in Cells(s)
  {
    hide Remove, Without;
    RemoveIs(s, k);
    WithoutIs(s, k);
    assert s == s[..k] + ([s[k]] + s[k+1..]);
  }

  lemma {:induction false} OneMember(c: Cell, s: seq<Cell>)
    ensures Cells([c] + s) == Cells(s) + {c}
  {
  }

  predicate Stocked(a: Arc) {
    && Loaded(a.t1, a.entry_size) && Loaded(a.t2, a.entry_size)
    && Bare(a.b1, a.entry_size) && Bare(a.b2, a.entry_size)
  }

  lemma {:induction false} MovedMembers(a: Arc, first: bool)
    ensures Shrinks(a, Moved(a, first))
    ensures Stocked(a) ==> Stocked(Moved(a, first))
    ensures var r := Moved(a, first); r.entry_size == a.entry_size && r.target == a.target && r.size == a.size && r.to_t2 == a.to_t2
  {
    hide Weigh, LastUnpinned, Cells, Without;
    if Movable(Source(a, first)) {
      TakeMembers(Source(a, first), LastUnpinned(Source(a, first)));
      OneMember(Trim(Candidate(a, first), a.entry_size), if first then a.b1 else a.b2);
    }
  }

  lemma {:induction false} ReplaceMembers(a: Arc)
    ensures Shrinks(a, Replace(a))
    ensures Stocked(a) ==> Stocked(Replace(a))
  {
    hide Replace, Moved, Stuck, FromT1, Stocked;
    ReplaceIs(a);
    MovedMembers(a, FromT1(a));
  }

  lemma {:induction false} BlockOnce(a: Arc)
    requires forall c :: c in Live(a) ==> Residents(a, HasBlock(c.block)) <= 1
    ensures OneEntryPerBlock(a)
  {
    forall c | c in Live(a) ensures Residents(a, HasBlock(c.block)) == 1 {
      if c in a.t1 {
        var k :| 0 <= k < |a.t1| && a.t1[k] == c;
        WeighAt(a.t1, k, HasBlock(c.block));
      } else {
        var k :| 0 <= k < |a.t2| && a.t2[k] == c;
        WeighAt(a.t2, k, HasBlock(c.block));
      }
    }
  }

  lemma {:induction false} MovedKeeps(a: Arc, first: bool)
    requires Inv(a)
    ensures Inv(Moved(a, first))
  {
    if Movable(Source(a, first)) {
      hide Weigh, Moved, Source, Loaded, Bare;
      var r := Moved(a, first);
      MovedMembers(a, first);
      forall id ensures Residents(r, HasId(id)) + Ghosts(r, HasId(id)) <= 1 {
        MovedWeighs(a, first, HasId(id));
      }
      forall c | c in Live(r) ensures Residents(r, HasBlock(c.block)) <= 1 {
        MovedWeighs(a, first, HasBlock(c.block));
      }
      BlockOnce(r);
    }
  }

  lemma {:induction false} ReplaceKeeps(a: Arc)
    requires Inv(a)
    ensures Inv(Replace(a))
  {
    hide Replace, Moved, Stuck, FromT1, Inv;
    ReplaceIs(a);
    MovedKeeps(a, FromT1(a));
  }

  lemma {:induction false} ReplaceFrame(a: Arc)
    ensures var r := Replace(a); r.entry_size == a.entry_size && r.target == a.target && r.size == a.size && r.to_t2 == a.to_t2
  {
    hide Replace, Moved, Stuck, FromT1, Stocked;
    ReplaceIs(a);
    MovedMembers(a, FromT1(a));
  }

  // cache_lookup

  function Bump(c: Cell): Cell { c.(usage := c.usage + 1) }

  lemma {:induction false} HitIs(a: Arc, id: Id)
    requires Resident(a, id)
    ensures Lookup(a, id) ==
            if Index(a.t1, id) >= 0 then a.(t1 := Remove(a.t1, Index(a.t1, id)), t2 := [Bump(Find(a, id))] + a.t2)
            else a.(t2 := [Bump(Find(a, id))] + Remove(a.t2, Index(a.t2, id)))
  {
    hide Weigh, Index, Replace, Remove;
  }

  lemma {:induction false} HitWeighs(a: Arc, id: Id, f: Cell -> nat)
    requires Resident(a, id)
    ensures Residents(Lookup(a, id), f) == Residents(a, f) - f(Find(a, id)) + f(Bump(Find(a, id)))
    ensures Ghosts(Lookup(a, id), f) == Ghosts(a, f)
  {
    hide Weigh, Index, Lookup, Remove, Without;
    HitIs(a, id);
    var c := Find(a, id);
    if Index(a.t1, id) >= 0 {
      WeighTake(a.t1, Index(a.t1, id), f);
      WeighOne(Bump(c), a.t2, f);
    } else {
      WeighTake(a.t2, Index(a.t2, id), f);
      WeighOne(Bump(c), Remove(a.t2, Index(a.t2, id)), f);
    }
  }

  lemma {:induction false} HitMembers(a: Arc, id: Id)
    requires Resident(a, id)
    ensures var c, r := Find(a, id), Lookup(a, id);
      && r.t2 != [] && r.t2[0] == Bump(c) && c in Live(a)
      && Live(a) - {c} <= Live(r) <= Live(a) + {Bump(c)} && Bump(c) in Live(r)
      && (Stocked(a) ==> Stocked(r))
  {
    hide Weigh, Index, Lookup, Remove, Without, Cells;
    HitIs(a, id);
    var c := Find(a, id);
    if Index(a.t1, id) >= 0 {
      TakeMembers(a.t1, Index(a.t1, id));
      OneMember(Bump(c), a.t2);
    } else {
      TakeMembers(a.t2, Index(a.t2, id));
      OneMember(Bump(c), Remove(a.t2, Index(a.t2, id)));
    }
  }

  lemma {:induction false} HitKeeps(a: Arc, id: Id)
    requires Inv(a) && Resident(a, id)
    ensures Inv(Lookup(a, id))
  {
    hide Weigh, Loaded, Bare;
    var r := Lookup(a, id);
    HitMembers(a, id);
    forall i ensures Residents(r, HasId(i)) + Ghosts(r, HasId(i)) <= 1 {
      HitWeighs(a, id, HasId(i));
    }
    forall c | c in Live(r) ensures Residents(r, HasBlock(c.block)) <= 1 {
      HitWeighs(a, id, HasBlock(c.block));
      assert c in Live(a) || c.block == Find(a, id).block;
    }
    BlockOnce(r);
  }

  predicate Ghostly(a: Arc, id: Id) {
    !Resident(a, id) && (Index(a.b1, id) >= 0 || Index(a.b2, id) >= 0)
  }

  /** The state in which a ghost hit calls cache_replace. */
  function Unghosted(a: Arc, id: Id): Arc
    requires Ghostly(a, id)
  {
    if Index(a.b1, id) >= 0 then
      a.(target := Min(a.target + Gain(Sum(a.b2), Sum(a.b1)), a.size), b1 := Remove(a.b1, Index(a.b1, id)))
    else
      a.(target := Max(a.target - Gain(Sum(a.b1), Sum(a.b2)), 0), b2 := Remove(a.b2, Index(a.b2, id)))
  }

  function GhostOf(a: Arc, id: Id): (c: Cell)
    requires Ghostly(a, id)
    ensures c.id == id && (c in a.b1 || c in a.b2)
  {
    if Index(a.b1, id) >= 0 then a.b1[Index(a.b1, id)] else a.b2[Index(a.b2, id)]
  }

  lemma {:induction false} UnghostedWeighs(a: Arc, id: Id, f: Cell -> nat)
    requires Ghostly(a, id)
    ensures Residents(Unghosted(a, id), f) == Residents(a, f)
    ensures Ghosts(Unghosted(a, id), f) == Ghosts(a, f) - f(GhostOf(a, id))
  {
    if Index(a.b1, id) >= 0 {
      WeighTake(a.b1, Index(a.b1, id), f);
    } else {
      WeighTake(a.b2, Index(a.b2, id), f);
    }
  }

  lemma {:induction false} UnghostedIs(a: Arc, id: Id)
    requires Ghostly(a, id)
    ensures Lookup(a, id) == Replace(Unghosted(a, id)).(to_t2 := true)
  {
    hide Weigh, Replace, Index, Remove, Gain;
  }

  lemma {:induction false} UnghostedMembers(a: Arc, id: Id)
    requires Ghostly(a, id)
    ensures var u := Unghosted(a, id); u.t1 == a.t1 && u.t2 == a.t2 && u.entry_size == a.entry_size && u.size == a.size
    ensures 0 <= a.target <= a.size ==> 0 <= Unghosted(a, id).target <= a.size
    ensures Stocked(a) ==> Stocked(Unghosted(a, id))
  {
    hide Weigh, Index, Remove, Without, Cells;
    if Index(a.b1, id) >= 0 {
      TakeMembers(a.b1, Index(a.b1, id));
    } else {
      TakeMembers(a.b2, Index(a.b2, id));
    }
  }

  lemma {:induction false} UnghostedKeeps(a: Arc, id: Id)
    requires Inv(a) && Ghostly(a, id)
    ensures Inv(Unghosted(a, id))
  {
    hide Weigh, Unghosted, Ghostly, Stocked;
    var r := Unghosted(a, id);
    UnghostedMembers(a, id);
    forall i ensures Residents(r, HasId(i)) + Ghosts(r, HasId(i)) <= 1 {
      UnghostedWeighs(a, id, HasId(i));
    }
    assert Live(r) == Live(a);
    forall c | c in Live(r) ensures Residents(r, HasBlock(c.block)) <= 1 {
      UnghostedWeighs(a, id, HasBlock(c.block));
    }
    BlockOnce(r);
  }

  /** The divisions at a ghost hit are safe: the list hit is not empty and its entries have a size. */
  lemma {:induction false} GhostSum(a: Arc, id: Id)
    requires Inv(a)
    ensures Index(a.b1, id) >= 0 ==> Sum(a.b1) > 0
    ensures Index(a.b2, id) >= 0 ==> Sum(a.b2) > 0
  {
    if Index(a.b1, id) >= 0 {
      WeighAt(a.b1, Index(a.b1, id), SizeOf);
    }
    if Index(a.b2, id) >= 0 {
      WeighAt(a.b2, Index(a.b2, id), SizeOf);
    }
  }

  lemma {:induction false} Redirected(a: Arc, b: bool)
    requires Inv(a)
    ensures Inv(a.(to_t2 := b))
  {
    var r := a.(to_t2 := b);
    assert forall id :: Residents(r, HasId(id)) == Residents(a, HasId(id)) && Ghosts(r, HasId(id)) == Ghosts(a, HasId(id));
    assert forall c :: c in Live(r) ==> Residents(r, HasBlock(c.block)) == Residents(a, HasBlock(c.block));
  }

  lemma {:induction false} Unlisted(a: Arc, id: Id)
    requires !Resident(a, id) && !Ghostly(a, id)
    ensures Residents(a, HasId(id)) + Ghosts(a, HasId(id)) == 0
  {
    WeighNone(a.t1, HasId(id));
    WeighNone(a.t2, HasId(id));
    WeighNone(a.b1, HasId(id));
    WeighNone(a.b2, HasId(id));
  }

  /** A failing lookup keeps the invariant, and leaves no trace of the id in any list. */
  lemma {:induction false} MissKeeps(a: Arc, id: Id)
    requires Inv(a) && !Resident(a, id)
    ensures Inv(Lookup(a, id)) && Shrinks(a, Lookup(a, id))
    ensures Residents(Lookup(a, id), HasId(id)) + Ghosts(Lookup(a, id), HasId(id)) == 0
  {
    hide Weigh, Replace, Unghosted, Stocked, OneEntryPerId, OneEntryPerBlock, Index, Cells;
    if Ghostly(a, id) {
      hide Ghostly, Lookup;
      var u := Unghosted(a, id);
      UnghostedKeeps(a, id);
      UnghostedIs(a, id);
      UnghostedMembers(a, id);
      ReplaceKeeps(u);
      ReplaceMembers(u);
      Redirected(Replace(u), true);
      assert Live(u) == Live(a) && Live(Lookup(a, id)) == Live(Replace(u));
      GhostGone(a, id);
    } else {
      Redirected(a, false);
      Unlisted(a, id);
    }
  }

  lemma {:induction false} GhostGone(a: Arc, id: Id)
    requires OneEntryPerId(a) && Ghostly(a, id)
    ensures var r := Replace(Unghosted(a, id)); Residents(r, HasId(id)) + Ghosts(r, HasId(id)) == 0
  {
    hide Weigh, Replace, Unghosted, Ghostly;
    UnghostedWeighs(a, id, HasId(id));
    ReplaceWeighs(Unghosted(a, id), HasId(id));
  }

  // cache_insert

  /** MakeRoom first forgets a cell: a ghost, or a resident nobody holds. */
  function Forgetful(a: Arc): Arc {
    if Sum(a.t1) + Sum(a.b1) >= a.size then
      (if Sum(a.t1) < a.size then a.(b1 := Drop(a.b1)) else a.(t1 := Drop(a.t1)))
    else if Sum(a.t1) + Sum(a.t2) + Sum(a.b1) + Sum(a.b2) >= 2 * a.size then a.(b2 := Drop(a.b2))
    else a
  }

  predicate MovesOne(a: Arc) {
    if Sum(a.t1) + Sum(a.b1) >= a.size then Sum(a.t1) < a.size
    else Sum(a.t1) + Sum(a.t2) + Sum(a.b1) + Sum(a.b2) >= a.size
  }

  lemma {:induction false} MakeRoomIs(a: Arc)
    ensures MakeRoom(a) == if MovesOne(a) then Replace(Forgetful(a)) else Forgetful(a)
  {
    hide Weigh, Replace, Drop;
  }

  lemma {:induction false} DropWeighs(s: seq<Cell>, f: Cell -> nat)
    ensures Weigh(Drop(s), f) == Weigh(s, f) - (if Movable(s) then f(s[LastUnpinned(s)]) else 0)
    ensures Cells(Drop(s)) <= Cells(s)
    ensures forall c :: c in Cells(s) && c.usage > 0 ==> c in Cells(Drop(s))
  {
    if Movable(s) {
      WeighTake(s, LastUnpinned(s), f);
      TakeMembers(s, LastUnpinned(s));
    }
  }

  lemma {:induction false} ForgetfulWeighs(a: Arc, f: Cell -> nat)
    ensures Residents(Forgetful(a), f) <= Residents(a, f) && Ghosts(Forgetful(a), f) <= Ghosts(a, f)
  {
    hide Weigh, Drop;
    DropWeighs(a.t1, f);
    DropWeighs(a.b1, f);
    DropWeighs(a.b2, f);
  }

  lemma {:induction false} ForgetfulMembers(a: Arc)
    ensures Shrinks(a, Forgetful(a)) && (Stocked(a) ==> Stocked(Forgetful(a)))
    ensures var r := Forgetful(a); r.entry_size == a.entry_size && r.target == a.target && r.size == a.size
  {
    hide Weigh, Drop, Cells;
    DropWeighs(a.t1, SizeOf);
    DropWeighs(a.b1, SizeOf);
    DropWeighs(a.b2, SizeOf);
  }

  lemma {:induction false} ForgetfulKeeps(a: Arc)
    requires Inv(a)
    ensures Inv(Forgetful(a))
  {
    hide Weigh, Drop, Forgetful, Loaded, Bare;
    var r := Forgetful(a);
    ForgetfulMembers(a);
    forall id ensures Residents(r, HasId(id)) + Ghosts(r, HasId(id)) <= 1 {
      ForgetfulWeighs(a, HasId(id));
    }
    forall c | c in Live(r) ensures Residents(r, HasBlock(c.block)) <= 1 {
      ForgetfulWeighs(a, HasBlock(c.block));
    }
    BlockOnce(r);
  }

  lemma {:induction false} RoomKeeps(a: Arc)
    requires Inv(a)
    ensures Inv(MakeRoom(a)) && Shrinks(a, MakeRoom(a)) && MakeRoom(a).entry_size == a.entry_size
  {
    hide Weigh, Replace, Forgetful, MovesOne, MakeRoom;
    MakeRoomIs(a);
    ForgetfulKeeps(a);
    ForgetfulMembers(a);
    ReplaceKeeps(Forgetful(a));
    ReplaceMembers(Forgetful(a));
    ReplaceFrame(Forgetful(a));
  }

  /** Ids and blocks only get fewer when room is made. */
  lemma {:induction false} RoomIds(a: Arc, id: Id)
    ensures Residents(MakeRoom(a), HasId(id)) + Ghosts(MakeRoom(a), HasId(id)) <= Residents(a, HasId(id)) + Ghosts(a, HasId(id))
  {
    hide Weigh, Replace, Forgetful, MovesOne, MakeRoom;
    MakeRoomIs(a);
    ForgetfulWeighs(a, HasId(id));
    ReplaceWeighs(Forgetful(a), HasId(id));
  }

  lemma {:induction false} RoomBlocks(a: Arc, b: array<Byte>)
    ensures Residents(MakeRoom(a), HasBlock(b)) <= Residents(a, HasBlock(b))
  {
    hide Weigh, Replace, Forgetful, MovesOne, MakeRoom;
    MakeRoomIs(a);
    ForgetfulWeighs(a, HasBlock(b));
    ReplaceWeighs(Forgetful(a), HasBlock(b));
  }

  lemma {:induction false} PushWeighs(a: Arc, c: Cell, f: Cell -> nat)
    ensures Residents(a.(t1 := [c] + a.t1), f) == Residents(a.(t2 := [c] + a.t2), f) == Residents(a, f) + f(c)
    ensures Ghosts(a.(t1 := [c] + a.t1), f) == Ghosts(a.(t2 := [c] + a.t2), f) == Ghosts(a, f)
  {
    WeighOne(c, a.t1, f);
    WeighOne(c, a.t2, f);
  }

  lemma {:induction false} PushKeeps(a: Arc, c: Cell, r: Arc)
    requires Inv(a) && c.block != null && c.size == c.block.Length + a.entry_size
    requires Residents(a, HasId(c.id)) + Ghosts(a, HasId(c.id)) == 0 && Residents(a, HasBlock(c.block)) == 0
    requires r == a.(t1 := [c] + a.t1) || r == a.(t2 := [c] + a.t2)
    ensures Inv(r)
    ensures forall d :: d in Live(a) ==> d in Live(r)
    ensures forall d :: d in Live(r) ==> d in Live(a) || d == c
  {
    hide Weigh;
    forall id ensures Residents(r, HasId(id)) + Ghosts(r, HasId(id)) <= 1 {
      PushWeighs(a, c, HasId(id));
    }
    forall d | d in Live(r) ensures Residents(r, HasBlock(d.block)) == 1 {
      PushWeighs(a, c, HasBlock(d.block));
      if d != c {
        assert d in Live(a);
        assert Residents(a, HasBlock(d.block)) == 1;
      }
    }
  }

  lemma {:induction false} InsertKeeps(a: Arc, id: Id, block: array<Byte>)
    requires Inv(a) && Residents(a, HasId(id)) + Ghosts(a, HasId(id)) == 0 && Residents(a, HasBlock(block)) == 0
    ensures Inv(Insert(a, id, block))
    ensures var r := Insert(a, id, block);
      && (forall d :: d in Live(a) && d.usage > 0 ==> d in Live(r))
      && (forall d :: d in Live(r) ==> d in Live(a) || d == Fresh(a, id, block))
      && Fresh(a, id, block) in Live(r)
  {
    hide Weigh, MakeRoom;
    var m := if a.to_t2 then a else MakeRoom(a);
    RoomKeeps(a);
    RoomIds(a, id);
    RoomBlocks(a, block);
    PushKeeps(m, Fresh(a, id, block), Insert(a, id, block));
  }
}
