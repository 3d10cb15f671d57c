/** `file_data_read` and `file_data_free` of navit/file.c in front of the shared block cache. */
module FileReader {
  import opened ArcList
  import opened ArcSpec
  import opened ArcRuns
  import opened ArcEvents
  import opened ArcCache
  import opened FileSplit

  /** Logical file contents by `name_id`. */
  type Library = map<int, seq<Byte>>

  /** `struct file_cache_id` of a plain block. */
  function BlockId(offset: nat, size: nat, name_id: int): Id { [offset, size, name_id, 0] }

  ghost predicate Names(id: Id, lib: Library) {
    |id| == 4 && id[2] in lib && 0 <= id[0] && 0 < id[1] && id[0] + id[1] <= |lib[id[2]]|
  }

  /** The bytes an uncached read for this id gives. */
  ghost function Direct(id: Id, lib: Library): seq<Byte>
    requires Names(id, lib)
  {
    lib[id[2]][id[0]..id[0]+id[1]]
  }

  ghost function Blocks(cells: set<Cell>): set<array?<Byte>> { set c | c in cells :: c.block }

  /** Every resident block holds what an uncached read of its id would give. */
  ghost predicate Faithful(cells: set<Cell>, lib: Library)
    reads Blocks(cells)
  {
    forall c :: c in cells ==> c.block != null && Names(c.id, lib) && c.block[..] == Direct(c.id, lib)
  }

  /** The cache shared by all files. */
  class Reader {
    const file_cache: Cache
    ghost const library: Library

    ghost function Cells(): set<Cell>
      reads file_cache, file_cache.Lists(), file_cache.Nodes()
    {
      Live(file_cache.State())
    }

    ghost predicate Valid()
      reads file_cache, file_cache.Lists(), file_cache.Nodes(), Blocks(Cells())
    {
      file_cache.Valid() && Faithful(Cells(), library)
    }

    constructor (size: nat, entry_size: nat, ghost library: Library)
      requires entry_size > 0
      ensures Valid() && this.library == library && fresh(file_cache) && file_cache.Nodes() == {}
      ensures fresh(file_cache.t1) && fresh(file_cache.b1) && fresh(file_cache.t2) && fresh(file_cache.b2)
    {
      file_cache := new Cache(size, entry_size);
      this.library := library;
      new;
      hide *;
      StartsEmpty(size, entry_size);
    }

    lemma {:induction false} StartsEmpty(size: nat, entry_size: nat)
      requires file_cache.Valid() && file_cache.State() == Empty(size, entry_size)
      ensures Valid()
    {
      hide Cache.Valid, Cache.State;
      assert Cells() == {};
    }

    ghost predicate Shelved(file: File)
      reads file
    {
      && file.Valid() && file.Layout()
      && (file.num_splits == 0 ==> file.current_splitter == 0)
      && file.name_id in library && library[file.name_id] == file.Contents()
    }

    /** `cache_lookup` on behalf of a reader changes no block. */
    method Ask(id: Id, ghost cells: set<Cell>) returns (found: array?<Byte>)
      requires file_cache.Valid() && Faithful(cells, library)
      modifies file_cache, file_cache.Lists(), file_cache.Nodes()
      ensures file_cache.Valid() && Faithful(cells, library)
      ensures file_cache.State() == Lookup(old(file_cache.State()), id)
      ensures found == if Resident(old(file_cache.State()), id) then Find(old(file_cache.State()), id).block else null
      ensures if Resident(old(file_cache.State()), id) then found != null else found == null && id !in file_cache.hash
      ensures forall e :: e in file_cache.Nodes() ==> e in old(file_cache.Nodes()) || fresh(e)
    {
      hide Cache.Valid, Inv, Resident, Find, Lookup, Names, Direct;
      found := file_cache.Lookup(id);
    }

    /** Reading into memory that no block of the cache uses leaves the cache alone. */
    method Load(file: File, offset: nat, buf: array<Byte>, ghost cells: set<Cell>)
      requires file_cache.Valid() && Shelved(file) && Faithful(cells, library) && forall c :: c in cells ==> c.block != buf
      requires 0 < buf.Length && offset + buf.Length <= |file.Contents()|
      modifies buf, file`fd, file`current_splitter
      ensures file_cache.Valid() && file_cache.State() == old(file_cache.State()) && file_cache.Nodes() == old(file_cache.Nodes())
      ensures Shelved(file) && Faithful(cells, library)
      ensures buf[..] == file.Contents()[offset..offset+buf.Length]
    {
      hide Cache.Valid, Inv, Whole, Even, Splits, Piece, Opened, Names, Direct;
      ghost var n := file_cache.Nodes();
      var ok := file.ReadInto(offset, buf);
      assert unchanged(file_cache) && unchanged(file_cache.Lists()) && unchanged(n);
      assert file_cache.Nodes() == n;
      assert file_cache.Valid();
    }

    /** A miss: new memory, filled from the file. */
    method Fill(file: File, id: Id, offset: nat, size: nat, ghost cells: set<Cell>) returns (ret: array<Byte>)
      requires file_cache.Valid() && Shelved(file) && Faithful(cells, library) && id !in file_cache.hash
      requires 0 < size && offset + size <= |file.Contents()|
      modifies file_cache, file_cache.Lists(), file_cache.Nodes(), file`fd, file`current_splitter
      ensures file_cache.Valid() && Shelved(file) && Faithful(cells, library)
      ensures fresh(ret) && ret[..] == file.Contents()[offset..offset+size]
      ensures forall c :: c in cells ==> c.block != ret
      ensures file_cache.State() == Insert(old(file_cache.State()), id, ret)
      ensures forall e :: e in file_cache.Nodes() ==> e in old(file_cache.Nodes()) || fresh(e)
    {
      hide Cache.Valid, Cache.State, Cache.Nodes, Inv, Insert, Whole, Even, Splits, Piece, Opened, Names, Direct;
      ret := file_cache.InsertNew(id, size);
      assert Shelved(file) && Faithful(cells, library);
      Load(file, offset, ret, cells);
    }

    /** `file_data_read` of a range inside the file, with the cache on: the bytes are those of the
        file, whatever was read and freed before.  To the cache the call is one Get event. */
    method FileDataRead(file: File, offset: nat, size: nat) returns (ret: array<Byte>)
      requires Valid() && Shelved(file) && 0 < size && offset + size <= |file.Contents()|
      modifies file_cache, file_cache.Lists(), file_cache.Nodes(), file`fd, file`current_splitter
      ensures Valid() && Shelved(file)
      ensures forall e :: e in file_cache.Nodes() ==> e in old(file_cache.Nodes()) || fresh(e)
      ensures ret[..] == file.Contents()[offset..offset+size]
      ensures var a, get := old(file_cache.State()), Get(BlockId(offset, size, file.name_id), ret);
        Enabled(a, get) && Answer(a, get) == ret && file_cache.State() == Apply(a, get)
    {
      hide Cache.Valid, Inv, Resident, Find, Lookup, Insert, Live, Residents, Ghosts, Faithful, Whole, Even, Splits, Piece, Opened;
      var id := BlockId(offset, size, file.name_id);
      ghost var a, cells := file_cache.State(), Cells();
      ghost var whole := file.Contents();
      assert Names(id, library) && Direct(id, library) == whole[offset..offset+size];
      file_cache.Sound();
      if !Resident(a, id) {
        MissKeeps(a, id);
      }
      var found := Ask(id, cells);
      if found != null {
        FaithfulHit(a, id, library);
        return found;
      }
      ghost var l := file_cache.State();
      ret := Fill(file, id, offset, size, cells);
      NewBlock(a, ret);
      NewBlock(l, ret);
      FaithfulMiss(a, l, id, ret, library);
    }

    /** `cache_entry_destroy` changes no block either. */
    method Return(data: array<Byte>, ghost cells: set<Cell>)
      requires file_cache.Valid() && Faithful(cells, library) && Held(file_cache.State(), data)
      modifies file_cache, file_cache.Lists(), file_cache.Nodes()
      ensures file_cache.Valid() && Faithful(cells, library)
      ensures file_cache.State() == Release(old(file_cache.State()), data) && file_cache.Nodes() == old(file_cache.Nodes())
    {
      hide Cache.Valid, Inv, Held, Release, Names, Direct;
      file_cache.EntryDestroy(data);
    }

    /** `file_data_free` of a block from the cache: one Give event. */
    method FileDataFree(data: array<Byte>)
      requires Valid() && Held(file_cache.State(), data)
      modifies file_cache, file_cache.Lists(), file_cache.Nodes()
      ensures Valid() && file_cache.State() == Apply(old(file_cache.State()), Give(data)) && file_cache.Nodes() == old(file_cache.Nodes())
    {
      hide Cache.Valid, Inv, Live, Held, Release, Faithful;
      ghost var a := file_cache.State();
      Return(data, Cells());
      FaithfulGive(a, data, library);
    }
  }

  lemma {:induction false} FaithfulStep(old_: set<Cell>, new_: set<Cell>, c: Cell, lib: Library)
    requires Faithful(old_, lib)
    requires forall d :: d in new_ ==> d in old_ || (d.id == c.id && d.block == c.block)
    requires c.block != null && Names(c.id, lib) && c.block[..] == Direct(c.id, lib)
    ensures Faithful(new_, lib)
  {
    hide Names, Direct;
  }

  lemma {:induction false} FaithfulCell(cells: set<Cell>, c: Cell, lib: Library)
    requires Faithful(cells, lib) && c in cells
    ensures c.block != null && Names(c.id, lib) && c.block[..] == Direct(c.id, lib)
  {
    hide Names, Direct;
  }

  lemma {:induction false} FaithfulHit(a: Arc, id: Id, lib: Library)
    requires Faithful(Live(a), lib) && Resident(a, id)
    ensures Faithful(Live(Lookup(a, id)), lib)
    ensures Find(a, id).block != null && Names(id, lib) && Find(a, id).block[..] == Direct(id, lib)
  {
    hide Faithful, Live, Resident, Find, Lookup, Names, Direct;
    HitMembers(a, id);
    FaithfulCell(Live(a), Find(a, id), lib);
    FaithfulStep(Live(a), Live(Lookup(a, id)), Find(a, id), lib);
  }

  lemma {:induction false} FaithfulMiss(a: Arc, l: Arc, id: Id, block: array<Byte>, lib: Library)
    requires Faithful(Live(a), lib) && Inv(l) && Shrinks(a, l)
    requires Residents(l, HasId(id)) + Ghosts(l, HasId(id)) == 0 && Residents(l, HasBlock(block)) == 0
    requires Names(id, lib) && block[..] == Direct(id, lib)
    ensures Faithful(Live(Insert(l, id, block)), lib)
  {
    hide Faithful, Live, Insert, Inv, Names, Direct, Residents, Ghosts;
    InsertKeeps(l, id, block);
    FaithfulStep(Live(a), Live(Insert(l, id, block)), Fresh(l, id, block), lib);
  }

  lemma {:induction false} FaithfulGive(a: Arc, block: array<Byte>, lib: Library)
    requires Faithful(Live(a), lib) && Held(a, block)
    ensures Faithful(Live(Release(a, block)), lib)
  {
    hide Faithful, Live, Release, Held, Names, Direct;
    GiveMembers(a, block);
    FaithfulCell(Live(a), HolderOf(a, block), lib);
    FaithfulStep(Live(a), Live(Release(a, block)), HolderOf(a, block), lib);
  }
}
