/** Runs of the cache of navit/cache.c as its users drive it: a failing lookup is followed at once by
    the insert of the same id, a block is given back by whoever got it, and only idle blocks are flushed. */
module ArcEvents {
  import opened ArcList
  import opened ArcSpec
  import opened ArcRuns

  /** Get an id (`block` is the memory a miss allocates), give a block back, or flush an id. */
  datatype Event = Get(id: Id, block: array<Byte>) | Give(block: array<Byte>) | Forget(id: Id)

  predicate Enabled(a: Arc, e: Event) {
    match e
    case Get(id, block) => !Resident(a, id) ==> Residents(a, HasBlock(block)) == 0
    case Give(block) => Held(a, block)
    case Forget(id) => Resident(a, id) ==> Find(a, id).usage == 0
  }

  function Apply(a: Arc, e: Event): Arc
    requires Enabled(a, e)
  {
    match e
    case Get(id, block) => if Resident(a, id) then Lookup(a, id) else Insert(Lookup(a, id), id, block)
    case Give(block) => Release(a, block)
    case Forget(id) => Flush(a, id)
  }

  /** The block a Get hands out. */
  function Answer(a: Arc, e: Event): (b: array?<Byte>)
    requires e.Get?
  {
    if Resident(a, e.id) then Find(a, e.id).block else e.block
  }

  predicate Possible(a: Arc, es: seq<Event>)
    decreases |es|
  {
    es == [] || (Enabled(a, es[0]) && Possible(Apply(a, es[0]), es[1..]))
  }

  function Run(a: Arc, es: seq<Event>): Arc
    requires Possible(a, es)
    decreases |es|
  {
    if es == [] then a else Run(Apply(a, es[0]), es[1..])
  }

  function Empty(size: nat, entry_size: nat): Arc {
    Arc([], [], [], [], 0, false, size, entry_size)
  }

  lemma {:induction false} EmptyInv(size: nat, entry_size: nat)
    requires entry_size > 0
    ensures Inv(Empty(size, entry_size))
  {
  }

  // Give

  function HolderOf(a: Arc, block: array<Byte>): (c: Cell)
    requires Held(a, block)
    ensures c.block == block && c.usage > 0 && c in Live(a)
  {
    var i1, i2 := Holder(a.t1, block), Holder(a.t2, block);
    if i1 >= 0 && a.t1[i1].usage > 0 then a.t1[i1] else a.t2[i2]
  }

  function Lower(c: Cell): Cell
    requires c.usage > 0
  {
    c.(usage := c.usage - 1)
  }

  lemma {:induction false} SetMembers(s: seq<Cell>, k: nat, c: Cell)
    requires k < |s|
    ensures Cells(s) - {s[k]} <= Cells(s[k := c]) <= Cells(s) + {c}
  {
    var t := s[k := c];
    forall d | d in Cells(s) - {s[k]} ensures d in Cells(t) {
      var i :| 0 <= i < |s| && s[i] == d;
      assert t[i] == d;
    }
  }

  lemma {:induction false} GiveWeighs(a: Arc, block: array<Byte>, f: Cell -> nat)
    requires Held(a, block)
    ensures var c, r := HolderOf(a, block), Release(a, block);
      Residents(r, f) == Residents(a, f) - f(c) + f(Lower(c)) && Ghosts(r, f) == Ghosts(a, f)
  {
    hide Weigh, Holder;
    var i1, i2 := Holder(a.t1, block), Holder(a.t2, block);
    var c := HolderOf(a, block);
    if i1 >= 0 && a.t1[i1].usage > 0 {
      WeighSet(a.t1, i1, Lower(c), f);
    } else {
      WeighSet(a.t2, i2, Lower(c), f);
    }
  }

  lemma {:induction false} GiveMembers(a: Arc, block: array<Byte>)
    requires Held(a, block)
    ensures var c, r := HolderOf(a, block), Release(a, block);
      && Live(a) - {c} <= Live(r) <= Live(a) + {Lower(c)}
      && (Stocked(a) ==> Stocked(r))
      && r.target == a.target && r.size == a.size && r.entry_size == a.entry_size
  {
    hide Weigh, Holder, Cells;
    var i1, i2 := Holder(a.t1, block), Holder(a.t2, block);
    var c := HolderOf(a, block);
    if i1 >= 0 && a.t1[i1].usage > 0 {
      SetMembers(a.t1, i1, Lower(c));
      assert a.t1[i1] in Cells(a.t1) by { TakeMembers(a.t1, i1); }
    } else {
      SetMembers(a.t2, i2, Lower(c));
      assert a.t2[i2] in Cells(a.t2) by { TakeMembers(a.t2, i2); }
    }
  }

  lemma {:induction false} GiveKeeps(a: Arc, block: array<Byte>)
    requires Inv(a) && Held(a, block)
    ensures Inv(Release(a, block))
  {
    hide Weigh, Release, Held, Stocked, Cells;
    var r := Release(a, block);
    var c := HolderOf(a, block);
    GiveMembers(a, block);
    forall id ensures Residents(r, HasId(id)) + Ghosts(r, HasId(id)) <= 1 {
      GiveWeighs(a, block, HasId(id));
    }
    forall d | d in Live(r) ensures Residents(r, HasBlock(d.block)) <= 1 {
      GiveWeighs(a, block, HasBlock(d.block));
      assert d in Live(a) || d.block == c.block;
    }
    BlockOnce(r);
  }

  // Forget

  lemma {:induction false} ForgetWeighs(a: Arc, id: Id, f: Cell -> nat)
    ensures var r := Flush(a, id);
      && Residents(r, f) == Residents(a, f) - (if Resident(a, id) then f(Find(a, id)) else 0)
      && Ghosts(r, f) == Ghosts(a, f) - (if Ghostly(a, id) then f(GhostOf(a, id)) else 0)
  {
    hide Weigh, Index, Remove, Without;
    var i1, i2, j1, j2 := Index(a.t1, id), Index(a.t2, id), Index(a.b1, id), Index(a.b2, id);
    if i1 >= 0 {
      WeighTake(a.t1, i1, f);
    } else if i2 >= 0 {
      WeighTake(a.t2, i2, f);
    } else if j1 >= 0 {
      WeighTake(a.b1, j1, f);
    } else if j2 >= 0 {
      WeighTake(a.b2, j2, f);
    }
  }

  lemma {:induction false} ForgetMembers(a: Arc, id: Id)
    ensures var r := Flush(a, id);
      && Live(r) <= Live(a)
      && (forall c :: c in Live(a) && !(Resident(a, id) && c == Find(a, id)) ==> c in Live(r))
      && (Stocked(a) ==> Stocked(r))
      && r.target == a.target && r.size == a.size && r.entry_size == a.entry_size
  {
    hide Weigh, Index, Remove, Without, Cells;
    var i1, i2, j1, j2 := Index(a.t1, id), Index(a.t2, id), Index(a.b1, id), Index(a.b2, id);
    if i1 >= 0 {
      TakeMembers(a.t1, i1);
    } else if i2 >= 0 {
      TakeMembers(a.t2, i2);
    } else if j1 >= 0 {
      TakeMembers(a.b1, j1);
    } else if j2 >= 0 {
      TakeMembers(a.b2, j2);
    }
  }

  lemma {:induction false} ForgetKeeps(a: Arc, id: Id)
    requires Inv(a)
    ensures Inv(Flush(a, id))
  {
    hide Weigh, Flush, Stocked, Cells, Resident, Ghostly, Find, GhostOf;
    var r := Flush(a, id);
    ForgetMembers(a, id);
    forall i ensures Residents(r, HasId(i)) + Ghosts(r, HasId(i)) <= 1 {
      ForgetWeighs(a, id, HasId(i));
    }
    forall d | d in Live(r) ensures Residents(r, HasBlock(d.block)) <= 1 {
      ForgetWeighs(a, id, HasBlock(d.block));
      assert d in Live(a);
    }
    BlockOnce(r);
  }

  // The whole-run invariant

  /** After a failing lookup the new memory is still new. */
  lemma {:induction false} MissBlocks(a: Arc, id: Id, f: Cell -> nat)
    requires !Resident(a, id)
    ensures var r := Lookup(a, id);
      Residents(r, f) == Residents(a, f)
        - (if Ghostly(a, id) && !Stuck(Unghosted(a, id)) then f(Victim(Unghosted(a, id))) else 0)
  {
    hide Weigh, Replace, Unghosted, Stuck, Victim;
    if Ghostly(a, id) {
      UnghostedIs(a, id);
      UnghostedWeighs(a, id, f);
      ReplaceWeighs(Unghosted(a, id), f);
    }
  }

  lemma {:induction false} EventKeeps(a: Arc, e: Event)
    requires Inv(a) && Enabled(a, e)
    ensures Inv(Apply(a, e))
  {
    hide Inv, Resident, Find, Lookup, Insert, Release, Flush, Residents, Ghosts, Held, Ghostly;
    match e
    case Get(id, block) =>
      if Resident(a, id) {
        HitKeeps(a, id);
      } else {
        MissKeeps(a, id);
        MissBlocks(a, id, HasBlock(block));
        InsertKeeps(Lookup(a, id), id, block);
      }
    case Give(block) => GiveKeeps(a, block);
    case Forget(id) => ForgetKeeps(a, id);
  }

  /** The structural invariant holds after every run. */
  lemma {:induction false} RunKeeps(a: Arc, es: seq<Event>)
    requires Inv(a) && Possible(a, es)
    ensures Inv(Run(a, es))
    decreases |es|
  {
    if es != [] {
      EventKeeps(a, es[0]);
      RunKeeps(Apply(a, es[0]), es[1..]);
    }
  }

  /** An entry somebody holds is never freed, moved to other memory or renamed: it stays resident,
      whatever event follows, and loses a holder only when one gives its block back. */
  lemma {:induction false} HeldStays(a: Arc, e: Event, c: Cell)
    requires Inv(a) && Enabled(a, e) && c in Live(a) && c.usage > 0 && e != Give(c.block)
    ensures c in Live(Apply(a, e)) || Bump(c) in Live(Apply(a, e))
  {
    hide Inv, Resident, Find, Lookup, Insert, Release, Flush, Residents, Ghosts, Held, Ghostly, Live;
    match e
    case Get(id, block) =>
      if Resident(a, id) {
        HitMembers(a, id);
        if c != Find(a, id) {
          assert c in Live(a) - {Find(a, id)};
        }
      } else {
        MissKeeps(a, id);
        MissBlocks(a, id, HasBlock(block));
        InsertKeeps(Lookup(a, id), id, block);
      }
    case Give(block) =>
      GiveMembers(a, block);
      assert c in Live(a) - {HolderOf(a, block)};
    case Forget(id) =>
      ForgetMembers(a, id);
  }

  /** Whatever a Get hands out is resident under its id, held, and of the memory asked for. */
  lemma {:induction false} GetServes(a: Arc, e: Event)
    requires Inv(a) && Enabled(a, e) && e.Get?
    ensures exists c :: c in Live(Apply(a, e)) && c.id == e.id && c.block == Answer(a, e) && c.usage > 0
  {
    hide Inv, Resident, Lookup, Insert, Residents, Ghosts, Ghostly, Live;
    if Resident(a, e.id) {
      HitMembers(a, e.id);
      assert Bump(Find(a, e.id)) in Live(Apply(a, e));
    } else {
      MissKeeps(a, e.id);
      MissBlocks(a, e.id, HasBlock(e.block));
      InsertKeeps(Lookup(a, e.id), e.id, e.block);
      assert Fresh(Lookup(a, e.id), e.id, e.block) in Live(Apply(a, e));
    }
  }

  // Pins over whole runs

  /** How many holders the memory `b` has. */
  function Pins(a: Arc, b: array<Byte>): nat { Residents(a, PinsOn(b)) }

  lemma {:induction false} ReplacePins(a: Arc, b: array<Byte>)
    ensures Pins(Replace(a), b) == Pins(a, b)
  {
    hide Weigh, Replace, Stuck;
    ReplaceWeighs(a, PinsOn(b));
  }

  lemma {:induction false} RoomPins(a: Arc, b: array<Byte>)
    ensures Pins(MakeRoom(a), b) == Pins(a, b)
  {
    hide Weigh, Replace, Drop;
    MakeRoomIs(a);
    DropWeighs(a.t1, PinsOn(b));
    ReplacePins(Forgetful(a), b);
  }

  /** One more holder for what a Get hands out, one less for what is given back, no other change. */
  lemma {:induction false} EventPins(a: Arc, e: Event, b: array<Byte>)
    requires Enabled(a, e)
    ensures Pins(Apply(a, e), b) ==
      Pins(a, b) + (if e.Get? && Answer(a, e) == b then 1 else 0) - (if e == Give(b) then 1 else 0)
  {
    hide Weigh, Resident, Find, Lookup, Release, Flush, Held, Ghostly, MakeRoom, Replace, Stuck, Unghosted;
    var f := PinsOn(b);
    match e
    case Get(id, block) =>
      if Resident(a, id) {
        HitWeighs(a, id, f);
      } else {
        var l := Lookup(a, id);
        MissBlocks(a, id, f);
        RoomPins(l, b);
        PushWeighs(if l.to_t2 then l else MakeRoom(l), Fresh(l, id, block), f);
      }
    case Give(block) => GiveWeighs(a, block, f);
    case Forget(id) => ForgetWeighs(a, id, f);
  }

  /** How often a run hands out `b`. */
  function HandedOut(a: Arc, es: seq<Event>, b: array<Byte>): nat
    requires Possible(a, es)
    decreases |es|
  {
    if es == [] then 0
    else (if es[0].Get? && Answer(a, es[0]) == b then 1 else 0) + HandedOut(Apply(a, es[0]), es[1..], b)
  }

  function GivenBack(es: seq<Event>, b: array<Byte>): nat {
    if es == [] then 0 else (if es[0] == Give(b) then 1 else 0) + GivenBack(es[1..], b)
  }

  /** Over any run, the holders of a block are those it was handed to less those who gave it back. */
  lemma {:induction false} RunPins(a: Arc, es: seq<Event>, b: array<Byte>)
    requires Possible(a, es)
    ensures Pins(Run(a, es), b) == Pins(a, b) + HandedOut(a, es, b) - GivenBack(es, b)
    decreases |es|
  {
    hide Pins, Apply, Enabled, Answer;
    if es != [] {
      EventPins(a, es[0], b);
      RunPins(Apply(a, es[0]), es[1..], b);
    }
  }

  lemma {:induction false} PinnedMember(s: seq<Cell>, b: array<Byte>)
    ensures Weigh(s, PinsOn(b)) > 0 ==> exists c :: c in Cells(s) && c.block == b && c.usage > 0
  {
    if Weigh(s, PinsOn(b)) > 0 {
      if PinsOn(b)(s[0]) > 0 {
        assert s[0] in Cells(s);
      } else {
        PinnedMember(s[1..], b);
        assert Cells(s[1..]) <= Cells(s);
      }
    }
  }

  /** What has been handed out more often than given back is still in the cache. */
  lemma {:induction false} OutstandingStays(size: nat, entry_size: nat, es: seq<Event>, b: array<Byte>)
    requires entry_size > 0 && Possible(Empty(size, entry_size), es)
    requires HandedOut(Empty(size, entry_size), es, b) > GivenBack(es, b)
    ensures exists c :: c in Live(Run(Empty(size, entry_size), es)) && c.block == b && c.usage > 0
  {
    hide Apply, Enabled, Answer, Run, HandedOut, GivenBack, Possible, Cells;
    RunPins(Empty(size, entry_size), es, b);
    var r := Run(Empty(size, entry_size), es);
    PinnedMember(r.t1, b);
    PinnedMember(r.t2, b);
  }

  // The space bound

  predicate Uniform(a: Arc, s: nat) { forall c :: c in Live(a) ==> c.size == s }

  predicate Idle(a: Arc) { forall c :: c in Live(a) ==> c.usage == 0 }

  /** With entries of size `s` the residents exceed the capacity by less than one entry, and all four
      lists together exceed twice the capacity by less than one entry and one ghost. */
  predicate Space(a: Arc, s: nat) {
    && Residents(a, SizeOf) < a.size + s
    && Residents(a, SizeOf) + Ghosts(a, SizeOf) < 2 * a.size + s + a.entry_size
    && (Residents(a, SizeOf) == 0 ==> Ghosts(a, SizeOf) == 0)
  }

  lemma {:induction false} IdleMoves(a: Arc)
    requires Idle(a) && Residents(a, SizeOf) > 0
    ensures !Stuck(a)
  {
    hide LastUnpinned;
  }

  /** In an idle, uniform cache a replacement turns one entry into a ghost. */
  lemma {:induction false} ReplaceSizes(a: Arc, s: nat)
    requires Stocked(a) && Idle(a) && Uniform(a, s) && Residents(a, SizeOf) > 0
    ensures var r := Replace(a);
      && Residents(r, SizeOf) == Residents(a, SizeOf) - s
      && Ghosts(r, SizeOf) == Ghosts(a, SizeOf) + a.entry_size
  {
    hide Weigh, Replace, Stuck;
    IdleMoves(a);
    ReplaceWeighs(a, SizeOf);
    assert Victim(a).size == s >= a.entry_size;
  }

  lemma {:induction false} DropSizes(l: seq<Cell>, s: nat)
    requires forall c :: c in Cells(l) ==> c.usage == 0 && c.size == s
    ensures Weigh(Drop(l), SizeOf) == (if l == [] then 0 else Weigh(l, SizeOf) - s)
    ensures Cells(Drop(l)) <= Cells(l)
  {
    hide LastUnpinned;
    if l != [] {
      DropWeighs(l, SizeOf);
      assert l[LastUnpinned(l)] in Cells(l);
    }
  }

  lemma {:induction false} ForgetfulSizes(a: Arc, s: nat)
    requires Stocked(a) && Idle(a) && Uniform(a, s)
    ensures var r, t1, b1, t2, b2 := Forgetful(a), Sum(a.t1), Sum(a.b1), Sum(a.t2), Sum(a.b2);
      && Residents(r, SizeOf) == t1 + t2 - (if t1 + b1 >= a.size && t1 >= a.size && t1 > 0 then s else 0)
      && Ghosts(r, SizeOf) == b1 + b2 -
          (if t1 + b1 >= a.size && t1 < a.size then a.entry_size
           else if t1 + b1 < a.size && t1 + b1 + t2 + b2 >= 2 * a.size && b2 > 0 then a.entry_size else 0)
      && Live(r) <= Live(a) && Stocked(r) && r.entry_size == a.entry_size && r.size == a.size
  {
    hide Weigh, Drop, Cells;
    assert Weigh([], SizeOf) == 0 by { WeighNone([], SizeOf); }
    ForgetfulMembers(a);
    DropSizes(a.t1, s);
    DropSizes(a.b1, a.entry_size);
    DropSizes(a.b2, a.entry_size);
  }

  /** Making room leaves space for one more entry. */
  lemma {:induction false} RoomSpace(a: Arc, s: nat)
    requires Inv(a) && Idle(a) && Uniform(a, s) && Space(a, s) && a.size > 0 && s >= a.entry_size
    ensures var r := MakeRoom(a);
      && r.size == a.size && r.entry_size == a.entry_size
      && Residents(r, SizeOf) < a.size
      && Residents(r, SizeOf) + Ghosts(r, SizeOf) < 2 * a.size + a.entry_size
  {
    hide Weigh, Replace, MakeRoom, Forgetful, Live, Cells, Stocked, OneEntryPerId, OneEntryPerBlock;
    MakeRoomIs(a);
    ForgetfulSizes(a, s);
    if MovesOne(a) {
      ReplaceSizes(Forgetful(a), s);
      ReplaceFrame(Forgetful(a));
    }
  }

  lemma {:induction false} MissSpace(a: Arc, id: Id, s: nat)
    requires Inv(a) && Idle(a) && Uniform(a, s) && Space(a, s) && !Resident(a, id)
    ensures var r := Lookup(a, id);
      && r.size == a.size && r.entry_size == a.entry_size
      && (r.to_t2 ==> Residents(r, SizeOf) == Residents(a, SizeOf) - s && Ghosts(r, SizeOf) == Ghosts(a, SizeOf))
      && (!r.to_t2 ==> Residents(r, SizeOf) == Residents(a, SizeOf) && Ghosts(r, SizeOf) == Ghosts(a, SizeOf))
  {
    hide Weigh, Replace, Unghosted, Index, Stocked, OneEntryPerId, OneEntryPerBlock, Cells;
    if Ghostly(a, id) {
      hide Ghostly, Resident, Lookup;
      var u := Unghosted(a, id);
      assert GhostOf(a, id).size == a.entry_size > 0 by { GhostSize(a, id); }
      UnghostedIs(a, id);
      UnghostedWeighs(a, id, SizeOf);
      UnghostedMembers(a, id);
      assert Live(u) == Live(a);
      assert Residents(u, SizeOf) > 0;
      ReplaceSizes(u, s);
      ReplaceFrame(u);
    }
  }

  lemma {:induction false} GhostSize(a: Arc, id: Id)
    requires Stocked(a) && Ghostly(a, id)
    ensures GhostOf(a, id).size == a.entry_size
  {
    assert GhostOf(a, id) in Cells(a.b1) + Cells(a.b2);
  }

  /** A Get of a block of the common size, or a Give; a miss happens only while nothing is held. */
  predicate Orderly(a: Arc, e: Event, s: nat) {
    match e
    case Get(id, block) => block.Length + a.entry_size == s && (!Resident(a, id) ==> Idle(a))
    case Give(block) => true
    case Forget(id) => false
  }

  lemma {:induction false} EventSpace(a: Arc, e: Event, s: nat)
    requires Inv(a) && Enabled(a, e) && Orderly(a, e, s) && a.size > 0 && Uniform(a, s) && Space(a, s)
    ensures var r := Apply(a, e); r.size == a.size && r.entry_size == a.entry_size && Uniform(r, s) && Space(r, s)
  {
    hide Weigh, Resident, Find, Lookup, Release, Held, Ghostly, Live, MakeRoom, Stocked, OneEntryPerId, OneEntryPerBlock;
    match e
    case Get(id, block) =>
      if Resident(a, id) {
        HitWeighs(a, id, SizeOf);
        HitMembers(a, id);
        assert Lookup(a, id).size == a.size && Lookup(a, id).entry_size == a.entry_size by { HitIs(a, id); }
      } else {
        var l := Lookup(a, id);
        MissSpace(a, id, s);
        MissKeeps(a, id);
        MissBlocks(a, id, HasBlock(block));
        InsertKeeps(l, id, block);
        if !l.to_t2 { RoomSpace(l, s); }
        PushWeighs(if l.to_t2 then l else MakeRoom(l), Fresh(l, id, block), SizeOf);
      }
    case Give(block) =>
      GiveWeighs(a, block, SizeOf);
      GiveMembers(a, block);
  }

  predicate AllOrderly(a: Arc, es: seq<Event>, s: nat)
    requires Possible(a, es)
    decreases |es|
  {
    es == [] || (Orderly(a, es[0], s) && AllOrderly(Apply(a, es[0]), es[1..], s))
  }

  lemma {:induction false} RunSpaceFrom(a: Arc, es: seq<Event>, s: nat)
    requires Inv(a) && Possible(a, es) && AllOrderly(a, es, s) && a.size > 0 && Uniform(a, s) && Space(a, s)
    ensures var r := Run(a, es); r.size == a.size && r.entry_size == a.entry_size && Space(r, s)
    decreases |es|
  {
    hide Inv, Space, Uniform, Apply, Enabled, Orderly;
    if es != [] {
      EventKeeps(a, es[0]);
      EventSpace(a, es[0], s);
      RunSpaceFrom(Apply(a, es[0]), es[1..], s);
    }
  }

  /** The space bound: after every orderly run from a new cache. */
  lemma {:induction false} RunSpace(size: nat, entry_size: nat, es: seq<Event>, s: nat)
    requires entry_size > 0 && size > 0
    requires Possible(Empty(size, entry_size), es) && AllOrderly(Empty(size, entry_size), es, s)
    ensures var r := Run(Empty(size, entry_size), es);
      && Sum(r.t1) + Sum(r.t2) < size + s
      && Sum(r.t1) + Sum(r.t2) + Sum(r.b1) + Sum(r.b2) < 2 * size + s + entry_size
      && Inv(r)
  {
    hide Inv, Apply, Run, AllOrderly, Possible;
    EmptyInv(size, entry_size);
    RunKeeps(Empty(size, entry_size), es);
    RunSpaceFrom(Empty(size, entry_size), es, s);
  }
}
