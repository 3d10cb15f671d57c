/** Reading one logical file from the pieces "name", "name.1", "name.2", … as navit/file.c does. */
module FileSplit {
  import opened Basics
  import opened ArcList

  const MAX_SPLIT_FILES := 50

  /** File contents by file name. */
  type Disk = map<string, seq<Byte>>

  function PieceName(name: string, i: nat): string {
    if i == 0 then name else name + "." + Decimal(i)
  }

  /** The first piece has the name of the file, and each other one its number behind a dot. */
  lemma {:induction false} PieceNamed(name: string, i: nat)
    ensures PieceName(name, 0) == name
    ensures i > 0 ==> var p, n := PieceName(name, i), |name|;
      n + 1 < |p| && p[..n] == name && p[n] == '.' && (forall j :: n < j < |p| ==> IsDigit(p[j])) && DigitsValue(p[n+1..]) == i
  {
    var p, n := PieceName(name, i), |name|;
    if i > 0 {
      assert p[n+1..] == Decimal(i);
      assert forall j :: n < j < |p| ==> p[j] == p[n+1..][j-n-1];
    }
  }

  function Piece(disk: Disk, name: string, i: nat): seq<Byte> {
    if PieceName(name, i) in disk then disk[PieceName(name, i)] else []
  }

  /** What `open` gives for piece `i`: its contents, or nothing when the file is missing. */
  function Opened(disk: Disk, name: string, i: nat): Option<seq<Byte>> {
    if PieceName(name, i) in disk then Some(disk[PieceName(name, i)]) else None
  }

  /** The first `n` numbered pieces are there, and no more of them count. */
  predicate Splits(disk: Disk, name: string, n: nat) {
    && n <= MAX_SPLIT_FILES
    && (forall i :: 0 < i <= n ==> PieceName(name, i) in disk)
    && (n < MAX_SPLIT_FILES ==> PieceName(name, n + 1) !in disk)
  }

  /** The logical file: pieces 0 to n put together. */
  function Whole(disk: Disk, name: string, n: nat): seq<Byte> {
    if n == 0 then Piece(disk, name, 0) else Whole(disk, name, n - 1) + Piece(disk, name, n)
  }

  /** The layout the reader assumes: equal pieces, and a last one that is no larger. */
  predicate Even(disk: Disk, name: string, n: nat) {
    && (forall i :: 0 <= i < n ==> |Piece(disk, name, i)| == |Piece(disk, name, 0)|)
    && |Piece(disk, name, n)| <= |Piece(disk, name, 0)|
    && (n > 0 ==> |Piece(disk, name, 0)| > 0)
  }

  /** Where piece `k` starts when each has `s` bytes. */
  function Start(k: nat, s: nat): nat { if k == 0 then 0 else Start(k - 1, s) + s }

  lemma {:induction false} StartIs(k: nat, s: nat)
    ensures Start(k, s) == s * k
  {
    if k > 0 {
      StartIs(k - 1, s);
      assert s * k == s * (k - 1) + s;
    }
  }

  lemma {:induction false} StartOrder(k: nat, n: nat, s: nat)
    requires k < n
    ensures Start(k, s) + s <= Start(n, s)
  {
    if k < n - 1 {
      StartOrder(k, n - 1, s);
    }
  }

  lemma {:induction false} StartNext(k: nat, n: nat, s: nat)
    requires k < n && s > 0
    ensures Start(k, s) + s < Start(n + 1, s)
  {
    StartOrder(k, n, s);
  }

  lemma {:induction false} WholeStep(disk: Disk, name: string, n: nat)
    ensures Whole(disk, name, n) == (if n == 0 then [] else Whole(disk, name, n - 1)) + Piece(disk, name, n)
  {
  }

  /** The logical file has piece `k` at k times the piece size. */
  lemma {:induction false} WholeHas(disk: Disk, name: string, n: nat, k: nat, s: nat)
    requires k <= n && forall i :: 0 <= i < n ==> |Piece(disk, name, i)| == s
    ensures var w, p := Whole(disk, name, n), Piece(disk, name, k);
      && |w| == Start(n, s) + |Piece(disk, name, n)|
      && Start(k, s) + |p| <= |w| && w[Start(k, s)..Start(k, s)+|p|] == p
  {
    hide Piece, Whole;
    var w, p := Whole(disk, name, n), Piece(disk, name, k);
    WholeStep(disk, name, n);
    if n > 0 {
      WholeHas(disk, name, n - 1, if k < n then k else 0, s);
      var v := Whole(disk, name, n - 1);
      if k < n {
        assert v <= w;
        assert w[Start(k, s)..Start(k, s)+|p|] == v[Start(k, s)..Start(k, s)+|p|];
      } else {
        assert w[|v|..|v|+|p|] == p;
      }
    }
  }

  /** A stretch inside piece `k` is the same stretch of the logical file. */
  lemma {:induction false} WholeSlice(disk: Disk, name: string, n: nat, k: nat, a: nat, b: nat)
    requires k <= n && Even(disk, name, n) && a <= b <= |Piece(disk, name, k)|
    ensures var c, w := Start(k, |Piece(disk, name, 0)|), Whole(disk, name, n);
      c + b <= |w| && w[c+a..c+b] == Piece(disk, name, k)[a..b]
  {
    hide Piece, Whole;
    var s := |Piece(disk, name, 0)|;
    WholeHas(disk, name, n, k, s);
    var c, w, p := Start(k, s), Whole(disk, name, n), Piece(disk, name, k);
    assert w[c+a..c+b] == w[c..c+|p|][a..b];
  }

  lemma {:induction false} Locate(offset: nat, s: nat, n: nat)
    requires s > 0 && offset < Start(n + 1, s)
    ensures var k := offset / s; 0 <= k <= n && offset - s * k == offset - Start(k, s) && 0 <= offset - Start(k, s) < s
  {
    var k := offset / s;
    assert offset == s * k + offset % s;
    StartIs(k, s);
    if k > n {
      StartOrder(n, k, s);
    }
  }

  /** `read` at a position: as many bytes as there are, up to `n`; -1 for a file that is not open. */
  method SysRead(fd: Option<seq<Byte>>, pos: nat, n: nat, buf: array<Byte>, at: nat) returns (did: int)
    requires at + n <= buf.Length
    modifies buf
    ensures did == if fd.None? then -1 else if pos + n <= |fd.value| then n else if pos <= |fd.value| then |fd.value| - pos else 0
    ensures buf[..at] == old(buf[..at])
    ensures did > 0 ==> fd.Some? && pos + did <= |fd.value| && buf[at..at+did] == fd.value[pos..pos+did]
  {
    if fd.None? {
      return -1;
    }
    did := if pos + n <= |fd.value| then n else if pos <= |fd.value| then |fd.value| - pos else 0;
    var i := 0;
    while i < did
      invariant 0 <= i <= did
      invariant buf[..at] == old(buf[..at])
      invariant did > 0 ==> buf[at..at+i] == fd.value[pos..pos+i]
    {
      buf[at+i] := fd.value[pos+i];
      i := i + 1;
      assert buf[at..at+i] == buf[at..at+i-1] + [fd.value[pos+i-1]];
    }
  }

  /** `struct file` for a regular file; `fd` is what is open, `current_splitter` which piece that is. */
  class File {
    const disk: Disk
    const name: string
    const name_id: int
    var fd: Option<seq<Byte>>
    var size: int
    var num_splits: nat
    var split_size_in_bytes: int
    var last_splitter_size_in_bytes: int
    var current_splitter: nat

    ghost predicate Valid()
      reads this
    {
      && fd == Opened(disk, name, current_splitter)
      && name in disk && Splits(disk, name, num_splits)
      && split_size_in_bytes == |Piece(disk, name, 0)|
    }

    ghost function Contents(): seq<Byte>
      reads this
    {
      Whole(disk, name, num_splits)
    }

    ghost predicate Layout()
      reads this
    {
      Even(disk, name, num_splits)
    }

    /** The part of `file_create` that opens a regular file. */
    constructor (disk: Disk, name: string, name_id: int)
      requires name in disk
      ensures Valid() && size == |Contents()|
      ensures this.disk == disk && this.name == name && this.name_id == name_id
    {
      this.disk, this.name, this.name_id := disk, name, name_id;
      fd, current_splitter, num_splits, size := Opened(disk, name, 0), 0, 0, 0;
      split_size_in_bytes, last_splitter_size_in_bytes := 0, 0;
      new;
      var total := FileSize();
      size := total;
    }

    /** `file_size`: count the pieces and add up their sizes. */
    method FileSize() returns (f_size: int)
      requires name in disk
      modifies `size, `num_splits, `split_size_in_bytes, `last_splitter_size_in_bytes
      ensures Splits(disk, name, num_splits) && f_size == |Contents()|
      ensures split_size_in_bytes == size == |Piece(disk, name, 0)|
      ensures num_splits > 1 ==> last_splitter_size_in_bytes == |Piece(disk, name, num_splits)|
    {
      hide PieceName, Piece, Whole;
      FirstPiece(disk, name);
      size := |disk[name]|;
      f_size := size;
      split_size_in_bytes, last_splitter_size_in_bytes := 0, 0;
      split_size_in_bytes := size;
      var j: nat := 0;
      var finished := false;
      for i := 0 to MAX_SPLIT_FILES
        invariant size == split_size_in_bytes == |Piece(disk, name, 0)|
        invariant f_size == |Whole(disk, name, j)|
        invariant forall k :: 0 < k <= j ==> PieceName(name, k) in disk
        invariant if finished then j < i && PieceName(name, j + 1) !in disk else j == i
        invariant j > 1 ==> last_splitter_size_in_bytes == |Piece(disk, name, j)|
      {
        if !finished {
          var split := PieceName(name, i + 1);
          PieceIs(disk, name, i + 1);
          WholeStep(disk, name, i + 1);
          if split in disk {
            f_size := f_size + |disk[split]|;
            j := i + 1;
            if i != 0 {
              last_splitter_size_in_bytes := |disk[split]|;
            }
          } else {
            finished := true;
          }
        }
      }
      num_splits := j;
    }

    /** Make piece `start_splitter` the open one. */
    method Open(start_splitter: nat)
      requires Valid()
      modifies `fd, `current_splitter
      ensures Valid() && current_splitter == start_splitter
    {
      if current_splitter != start_splitter {
        fd := Opened(disk, name, start_splitter);
        current_splitter := start_splitter;
      }
    }

    /** One `read` from the open piece, continuing what has been read from `offset` on. */
    method Fetch(offset: nat, done: nat, pos: nat, n: nat, buf: array<Byte>) returns (did: int)
      requires Valid() && Layout() && current_splitter <= num_splits && done + n <= buf.Length && n > 0
      requires offset + done == Start(current_splitter, split_size_in_bytes) + pos && offset + done <= |Contents()|
      requires buf[..done] == Contents()[offset..offset+done]
      modifies buf
      ensures did == n <==> pos + n <= |Piece(disk, name, current_splitter)|
      ensures did == n ==> offset + done + n <= |Contents()| && buf[..done+n] == Contents()[offset..offset+done+n]
    {
      hide Whole, Even, Piece, PieceName, Start;
      PieceSize(current_splitter);
      did := SysRead(fd, pos, n, buf, done);
      if did == n {
        Stretch(disk, name, num_splits, buf[..], offset, done, pos, n, current_splitter);
      }
    }

    /** The loop of `file_data_read` over the pieces. */
    method ReadPieces(offset: nat, buf: array<Byte>) returns (ok: bool)
      requires Valid() && Layout() && offset < |Contents()| && buf.Length > 0 && num_splits > 0
      modifies `fd, `current_splitter, buf
      ensures Valid() && (ok <==> offset + buf.Length <= |Contents()|)
      ensures ok ==> buf[..] == Contents()[offset..offset+buf.Length]
    {
      hide Whole, Even, Piece, PieceName, Opened, Start;
      ghost var n, s, w := num_splits, split_size_in_bytes, Contents();
      Extent();
      var ret2, offset2, size2 := 0, offset, buf.Length;
      var need_more := true;
      while need_more
        invariant Valid() && Layout()
        invariant 0 <= ret2 && offset2 == offset + ret2 && size2 == buf.Length - ret2
        invariant size2 > 0 && offset2 <= |w| && (need_more ==> offset2 < Start(n + 1, s))
        invariant if need_more then buf[..ret2] == w[offset..offset2] else offset + buf.Length <= |w| && buf[..] == w[offset..offset+buf.Length]
        decreases need_more, size2
      {
        var start_splitter := offset2 / split_size_in_bytes;
        Locate(offset2, s, n);
        var offset_split := offset2 - split_size_in_bytes * start_splitter;
        Open(start_splitter);
        PieceSize(start_splitter);
        if start_splitter == num_splits {
          var did_read := Fetch(offset, ret2, offset_split, size2, buf);
          if did_read != size2 {
            return false;
          }
          need_more := false;
        } else if offset_split + size2 > split_size_in_bytes {
          var read_size := split_size_in_bytes - offset_split;
          var did_read := Fetch(offset, ret2, offset_split, read_size, buf);
          if did_read != read_size {
            return false;
          }
          if read_size < size2 {
            offset2, ret2, size2 := offset2 + read_size, ret2 + read_size, size2 - read_size;
            StartNext(start_splitter, n, s);
          } else {
            need_more := false;
          }
        } else {
          var did_read := Fetch(offset, ret2, offset_split, size2, buf);
          if did_read != size2 {
            return false;
          }
          need_more := false;
        }
      }
      ok := true;
    }

    /** The reading part of `file_data_read`: succeeds exactly when the request lies inside the
        logical file, and then delivers that stretch of it, however many pieces it crosses. */
    method ReadInto(offset: nat, buf: array<Byte>) returns (ok: bool)
      requires Valid() && Layout() && offset < |Contents()| && buf.Length > 0
      requires num_splits == 0 ==> current_splitter == 0
      modifies `fd, `current_splitter, buf
      ensures Valid() && (num_splits == 0 ==> current_splitter == 0)
      ensures ok <==> offset + buf.Length <= |Contents()|
      ensures ok ==> buf[..] == Contents()[offset..offset+buf.Length]
    {
      hide Whole, Even, Piece, PieceName, Start;
      if num_splits == 0 {
        PieceSize(0);
        WholeZero(disk, name);
        var did := SysRead(fd, offset, buf.Length, buf, 0);
        ok := did == buf.Length;
        assert buf[0..buf.Length] == buf[..];
      } else {
        ok := ReadPieces(offset, buf);
      }
    }

    lemma {:induction false} Extent()
      requires Valid() && Layout()
      ensures |Contents()| == Start(num_splits, split_size_in_bytes) + |Piece(disk, name, num_splits)| <= Start(num_splits + 1, split_size_in_bytes)
      ensures num_splits > 0 ==> split_size_in_bytes > 0
    {
      hide PieceName, Piece, Whole;
      WholeHas(disk, name, num_splits, 0, split_size_in_bytes);
    }

    lemma {:induction false} PieceSize(k: nat)
      requires Valid() && Layout() && k <= num_splits
      ensures PieceName(name, k) in disk && Opened(disk, name, k) == Some(Piece(disk, name, k))
      ensures k < num_splits ==> |Piece(disk, name, k)| == split_size_in_bytes
    {
    }
  }

  /** Bytes read from one piece continue the stretch read so far. */
  lemma {:induction false} Stretch(disk: Disk, name: string, num: nat, buf: seq<Byte>, offset: nat, done: nat, pos: nat, n: nat, k: nat)
    requires Even(disk, name, num) && k <= num && offset + done == Start(k, |Piece(disk, name, 0)|) + pos
    requires offset + done <= |Whole(disk, name, num)| && done + n <= |buf|
    requires buf[..done] == Whole(disk, name, num)[offset..offset+done]
    requires pos + n <= |Piece(disk, name, k)| && buf[done..done+n] == Piece(disk, name, k)[pos..pos+n]
    ensures var w := Whole(disk, name, num); offset + done + n <= |w| && buf[..done+n] == w[offset..offset+done+n]
  {
    hide Whole, Even, Piece;
    WholeSlice(disk, name, num, k, pos, pos + n);
    var w := Whole(disk, name, num);
    var d := offset + done;
    assert w[offset..d+n] == w[offset..d] + w[d..d+n];
    assert buf[..done+n] == buf[..done] + buf[done..done+n];
  }

  lemma {:induction false} FirstPiece(disk: Disk, name: string)
    requires name in disk
    ensures Piece(disk, name, 0) == disk[name] == Whole(disk, name, 0)
  {
  }

  lemma {:induction false} PieceIs(disk: Disk, name: string, i: nat)
    ensures Piece(disk, name, i) == if PieceName(name, i) in disk then disk[PieceName(name, i)] else []
  {
  }

  lemma {:induction false} WholeZero(disk: Disk, name: string)
    ensures Whole(disk, name, 0) == Piece(disk, name, 0)
  {
  }
}
