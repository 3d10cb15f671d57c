/** The adaptive replacement cache of navit/cache.c as a value: what each operation does to the
    contents of the four lists.  Lists are written most recently used entry first.  */
module ArcSpec {
  import opened ArcList

  /** A cache entry: `block` is the memory handed out for it, null once it has been cut down. */
  datatype Cell = Cell(id: Id, size: nat, usage: nat, block: array?<Byte>)

  /** t1 and t2 are resident, b1 and b2 remember evicted ids; `size` is the capacity aimed at,
      `entry_size` what an entry without data occupies, and `to_t2` where the next insert goes. */
  datatype Arc = Arc(t1: seq<Cell>, b1: seq<Cell>, t2: seq<Cell>, b2: seq<Cell>,
                     target: int, to_t2: bool, size: nat, entry_size: nat)

  /** What the cells of `s` amount to when each counts `f`. */
  function Weigh(s: seq<Cell>, f: Cell -> nat): nat {
    if s == [] then 0 else f(s[0]) + Weigh(s[1..], f)
  }

  function SizeOf(c: Cell): nat { c.size }

  function Sum(s: seq<Cell>): nat { Weigh(s, SizeOf) }

  /** The unpinned cell nearest the tail, or -1. */
  function LastUnpinned(s: seq<Cell>): (k: int)
    ensures -1 <= k < |s|
    ensures k >= 0 ==> s[k].usage == 0
    ensures forall i :: k < i < |s| ==> s[i].usage > 0
  {
    if s == [] then -1
    else if s[|s|-1].usage == 0 then |s| - 1
    else LastUnpinned(s[..|s|-1])
  }

  /** What is left when the cells behind the victim `s[k]` have gone to the front one by one, the
      last one first, and the victim has been taken from the tail. */
  function Without(s: seq<Cell>, k: int): seq<Cell>
    requires 0 <= k < |s|
    decreases |s| - k
  {
    if k == |s| - 1 then s[..k] else Without([s[|s|-1]] + s[..|s|-1], k + 1)
  }

  lemma {:induction false} WithoutIs(s: seq<Cell>, k: int)
    requires 0 <= k < |s|
    ensures Without(s, k) == s[k+1..] + s[..k]
    decreases |s| - k
  {
    if k < |s| - 1 {
      var r := [s[|s|-1]] + s[..|s|-1];
      WithoutIs(r, k + 1);
      assert r[k+2..] + [s[|s|-1]] == s[k+1..];
      assert r[..k+1] == [s[|s|-1]] + s[..k];
    }
  }

  function Remove(s: seq<Cell>, k: int): seq<Cell>
    requires 0 <= k < |s|
    decreases |s|
  {
    if k == 0 then s[1..] else [s[0]] + Remove(s[1..], k - 1)
  }

  lemma {:induction false} RemoveIs(s: seq<Cell>, k: int)
    requires 0 <= k < |s|
    ensures Remove(s, k) == s[..k] + s[k+1..]
    decreases |s|
  {
    if k > 0 {
      RemoveIs(s[1..], k - 1);
      assert s[1..][..k-1] == s[1..k] && s[1..][k..] == s[k+1..];
    }
  }

  /** `cache_remove_lru` on a list whose victim is freed. */
  function Drop(s: seq<Cell>): seq<Cell> {
    if LastUnpinned(s) < 0 then s else Without(s, LastUnpinned(s))
  }

  /** `cache_trim`. */
  function Trim(c: Cell, entry_size: nat): Cell {
    if entry_size < c.size then c.(size := entry_size, block := null) else c
  }

  predicate Movable(s: seq<Cell>) { LastUnpinned(s) >= 0 }

  /** `cache_move` from t1 to b1. */
  function Move1(a: Arc): Arc {
    var k := LastUnpinned(a.t1);
    if k < 0 then a else a.(t1 := Without(a.t1, k), b1 := [Trim(a.t1[k], a.entry_size)] + a.b1)
  }

  /** `cache_move` from t2 to b2. */
  function Move2(a: Arc): Arc {
    var k := LastUnpinned(a.t2);
    if k < 0 then a else a.(t2 := Without(a.t2, k), b2 := [Trim(a.t2[k], a.entry_size)] + a.b2)
  }

  function Max(x: int, y: int): int { if x >= y then x else y }

  function Min(x: int, y: int): int { if x <= y then x else y }

  /** `cache_replace`. */
  function Replace(a: Arc): Arc {
    if Sum(a.t1) >= Max(1, a.target) then
      (if Movable(a.t1) then Move1(a) else Move2(a))
    else
      (if Movable(a.t2) then Move2(a) else Move1(a))
  }

  /** Position of the first cell with property `p`, or -1. */
  function First(s: seq<Cell>, p: Cell -> bool): (k: int)
    ensures -1 <= k < |s|
    ensures k >= 0 ==> p(s[k])
    ensures forall i :: 0 <= i < |s| && (k < 0 || i < k) ==> !p(s[i])
  {
    if s == [] then -1
    else if p(s[0]) then 0
    else
      var k := First(s[1..], p);
      if k < 0 then -1 else k + 1
  }

  /** Position of `id` in a list, or -1. */
  function Index(s: seq<Cell>, id: Id): (k: int)
    ensures -1 <= k < |s|
    ensures k >= 0 ==> s[k].id == id
    ensures forall i :: 0 <= i < |s| && (k < 0 || i < k) ==> s[i].id != id
  {
    First(s, (c: Cell) => c.id == id)
  }

  /** How far a ghost hit moves the target; a hit list is never empty (see `ArcRuns.GhostSum`). */
  function Gain(other: nat, hit: nat): nat {
    if hit == 0 then 1 else Max(other / hit, 1)
  }

  predicate Resident(a: Arc, id: Id) {
    Index(a.t1, id) >= 0 || Index(a.t2, id) >= 0
  }

  /** The resident cell of `id`. */
  function Find(a: Arc, id: Id): (c: Cell)
    requires Resident(a, id)
    ensures c.id == id && (c in a.t1 || c in a.t2)
  {
    if Index(a.t1, id) >= 0 then a.t1[Index(a.t1, id)] else a.t2[Index(a.t2, id)]
  }

  /** `cache_lookup`, which succeeds when `id` is resident. */
  function Lookup(a: Arc, id: Id): Arc {
    var i1, i2, j1, j2 := Index(a.t1, id), Index(a.t2, id), Index(a.b1, id), Index(a.b2, id);
    if i1 >= 0 then
      a.(t1 := Remove(a.t1, i1), t2 := [a.t1[i1].(usage := a.t1[i1].usage + 1)] + a.t2)
    else if i2 >= 0 then
      a.(t2 := [a.t2[i2].(usage := a.t2[i2].usage + 1)] + Remove(a.t2, i2))
    else if j1 >= 0 then
      Replace(a.(target := Min(a.target + Gain(Sum(a.b2), Sum(a.b1)), a.size), b1 := Remove(a.b1, j1))).(to_t2 := true)
    else if j2 >= 0 then
      Replace(a.(target := Max(a.target - Gain(Sum(a.b1), Sum(a.b2)), 0), b2 := Remove(a.b2, j2))).(to_t2 := true)
    else
      a.(to_t2 := false)
  }

  /** Make room before an insert into t1, the first part of `cache_insert`. */
  function MakeRoom(a: Arc): Arc {
    if Sum(a.t1) + Sum(a.b1) >= a.size then
      (if Sum(a.t1) < a.size then Replace(a.(b1 := Drop(a.b1))) else a.(t1 := Drop(a.t1)))
    else if Sum(a.t1) + Sum(a.t2) + Sum(a.b1) + Sum(a.b2) >= a.size then
      (if Sum(a.t1) + Sum(a.t2) + Sum(a.b1) + Sum(a.b2) >= 2 * a.size
       then Replace(a.(b2 := Drop(a.b2))) else Replace(a))
    else a
  }

  function Fresh(a: Arc, id: Id, block: array<Byte>): Cell {
    Cell(id, block.Length + a.entry_size, 1, block)
  }

  /** `cache_insert` of a new entry for `block`, handed out once. */
  function Insert(a: Arc, id: Id, block: array<Byte>): Arc {
    if a.to_t2 then a.(t2 := [Fresh(a, id, block)] + a.t2)
    else
      var m := MakeRoom(a);
      m.(t1 := [Fresh(a, id, block)] + m.t1)
  }

  /** Position of the entry whose memory is `block`, or -1. */
  function Holder(s: seq<Cell>, block: array?<Byte>): (k: int)
    ensures -1 <= k < |s|
    ensures k >= 0 ==> s[k].block == block
    ensures forall i :: 0 <= i < |s| && (k < 0 || i < k) ==> s[i].block != block
  {
    First(s, (c: Cell) => c.block == block)
  }

  predicate Held(a: Arc, block: array<Byte>) {
    var i1, i2 := Holder(a.t1, block), Holder(a.t2, block);
    (i1 >= 0 && a.t1[i1].usage > 0) || (i2 >= 0 && a.t2[i2].usage > 0)
  }

  function Unpin(s: seq<Cell>, k: int): seq<Cell>
    requires 0 <= k < |s| && s[k].usage > 0
  {
    s[k := s[k].(usage := s[k].usage - 1)]
  }

  /** `cache_entry_destroy`: a holder gives the block back. */
  function Release(a: Arc, block: array<Byte>): Arc
    requires Held(a, block)
  {
    var i1, i2 := Holder(a.t1, block), Holder(a.t2, block);
    if i1 >= 0 && a.t1[i1].usage > 0 then a.(t1 := Unpin(a.t1, i1)) else a.(t2 := Unpin(a.t2, i2))
  }

  /** `cache_flush`. */
  function Flush(a: Arc, id: Id): Arc {
    var i1, i2, j1, j2 := Index(a.t1, id), Index(a.t2, id), Index(a.b1, id), Index(a.b2, id);
    if i1 >= 0 then a.(t1 := Remove(a.t1, i1))
    else if i2 >= 0 then a.(t2 := Remove(a.t2, i2))
    else if j1 >= 0 then a.(b1 := Remove(a.b1, j1))
    else if j2 >= 0 then a.(b2 := Remove(a.b2, j2))
    else a
  }
}
