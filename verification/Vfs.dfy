/** File handles: a cursor over a WNFS file. */
module Vfs {
  import opened Bits
  import opened DiskLayout
  import opened DiskSteps
  import opened FileWrites
  import opened FileCreation
  import opened WriteStages
  import opened BufferCache
  import opened Wnfs
  import opened BlockAllocation

  datatype SeekResult = Sought | PastEndOfFile | InternalError

  /** Every file in use has a sector for each of its bytes. Handles keep it so: their cursor never
      lies behind the end. */
  ghost predicate AllDense(d: Image)
    requires Formatted(d)
  {
    forall x {:trigger Dense(d, x)} :: 0 <= x < BITMAP_BITS && InodeUsed(d, x) ==> Dense(d, x)
  }

  /** Every file but `id` has the bytes it had. */
  ghost predicate OtherContents(d: Image, d': Image, id: nat)
    requires Consistent(d) && Consistent(d')
  {
    forall x {:trigger Content(d, x)} :: 0 <= x < BITMAP_BITS && x != id && InodeUsed(d, x) ==>
      InodeUsed(d', x) && Content(d', x) == Content(d, x)
  }

  lemma OthersKeepContent(d: Image, d': Image, id: nat)
    requires Consistent(d) && Consistent(d') && AllDense(d) && OthersSame(d, d', id)
    ensures OtherContents(d, d', id)
  {
    forall x | 0 <= x < BITMAP_BITS && x != id && InodeUsed(d, x)
      ensures InodeUsed(d', x) && Dense(d', x) && Content(d', x) == Content(d, x)
    {
      assert SameFile(d, d', x) && Dense(d, x);
      SameFileContent(d, d', x);
    }
  }

  /** A call that touches one file keeps every file dense. */
  lemma StaysDense(d: Image, d': Image, id: nat)
    requires Consistent(d) && Consistent(d') && AllDense(d) && OthersSame(d, d', id)
    requires id < BITMAP_BITS && (InodeUsed(d', id) ==> Dense(d', id))
    requires d'[INODE_BITMAP_SECTOR] == d[INODE_BITMAP_SECTOR]
             || d'[INODE_BITMAP_SECTOR] == MarkOne(d[INODE_BITMAP_SECTOR], id)
    ensures AllDense(d') && OtherContents(d, d', id)
  {
    OthersKeepContent(d, d', id);
    forall x | 0 <= x < BITMAP_BITS && InodeUsed(d', x) ensures Dense(d', x) {
      if x != id {
        MarkOneMarks(d[INODE_BITMAP_SECTOR], id, x);
        assert SameFile(d, d', x) && Dense(d, x);
        SameFileContent(d, d', x);
      }
    }
  }

  // ---------------------------------------------------------------- the abstract file

  /** A byte sequence with a cursor. */
  datatype Cursor = Cursor(bytes: seq<byte>, pos: nat) {
    predicate Ok() { pos <= |bytes| <= MAX_SIZE }
  }

  datatype Op = WriteOp(data: seq<byte>) | SeekOp(target: nat) | ReadOp(len: nat)

  /** What one call at `pos` takes of the data: the rest of a sector. */
  function Chunk(data: seq<byte>, pos: nat): seq<byte> {
    data[..Min(|data|, 512 - pos % 512)]
  }

  function Taken(c: Cursor, data: seq<byte>): seq<byte> {
    Chunk(data, c.pos)
  }

  predicate Possible(c: Cursor, op: Op) {
    op.WriteOp? ==> c.pos < MAX_SIZE
  }

  function Step(c: Cursor, op: Op): Cursor
    requires c.Ok()
  {
    match op
    case WriteOp(data) => Cursor(Overlay(c.bytes, c.pos, Taken(c, data)), c.pos + |Taken(c, data)|)
    case SeekOp(target) => c.(pos := if target < |c.bytes| then target else |c.bytes|)
    case ReadOp(len) =>
      if c.pos == |c.bytes| then c else c.(pos := c.pos + BytesToRead(|c.bytes|, c.pos, len))
  }

  /** What a read returns. */
  function ReadBytes(c: Cursor, len: nat): seq<byte>
    requires c.Ok()
  {
    if c.pos == |c.bytes| then [] else c.bytes[c.pos..c.pos + BytesToRead(|c.bytes|, c.pos, len)]
  }

  lemma StepOk(c: Cursor, op: Op)
    requires c.Ok() && Possible(c, op)
    ensures Step(c, op).Ok()
  {
    if op.WriteOp? {
      var n := |Taken(c, op.data)|;
      assert c.pos % 512 + n <= 512;
      assert c.pos / 512 < NUM_DIRECT;
    }
  }

  /** No write of `ops`, one call after the other from `c`, starts at the largest size. */
  predicate Legal(c: Cursor, ops: seq<Op>)
    requires c.Ok()
    decreases |ops|
  {
    ops == [] || (Possible(c, ops[0]) && (StepOk(c, ops[0]); Legal(Step(c, ops[0]), ops[1..])))
  }

  function Run(c: Cursor, ops: seq<Op>): (r: Cursor)
    requires c.Ok() && Legal(c, ops)
    ensures r.Ok()
    decreases |ops|
  {
    if ops == [] then c else (StepOk(c, ops[0]); Run(Step(c, ops[0]), ops[1..]))
  }

  /** The byte that the calls last wrote at place `i`, or the one that was there. */
  ghost function LastWritten(c: Cursor, ops: seq<Op>, i: nat, before: byte): byte
    requires c.Ok() && Legal(c, ops)
    decreases |ops|
  {
    if ops == [] then before else
      StepOk(c, ops[0]);
      var now := match ops[0]
                 case WriteOp(data) =>
                   if c.pos <= i < c.pos + |Taken(c, data)| then Taken(c, data)[i - c.pos] else before
                 case _ => before;
      LastWritten(Step(c, ops[0]), ops[1..], i, now)
  }

  /** Over any run the cursor stays inside the file and every byte is the one last written there. */
  lemma {:induction false} RunHoldsLastWritten(c: Cursor, ops: seq<Op>, i: nat, before: byte)
    requires c.Ok() && Legal(c, ops) && (i < |c.bytes| ==> before == c.bytes[i])
    ensures Run(c, ops).Ok() && |Run(c, ops).bytes| >= |c.bytes|
    ensures i < |Run(c, ops).bytes| ==> Run(c, ops).bytes[i] == LastWritten(c, ops, i, before)
    decreases |ops|
  {
    if ops != [] {
      var now := match ops[0]
                 case WriteOp(data) =>
                   if c.pos <= i < c.pos + |Taken(c, data)| then Taken(c, data)[i - c.pos] else before
                 case _ => before;
      StepOk(c, ops[0]);
      RunHoldsLastWritten(Step(c, ops[0]), ops[1..], i, now);
    }
  }

  /** Writing, seeking back and reading returns what was written. */
  lemma WriteSeekRead(c: Cursor, data: seq<byte>, len: nat)
    requires c.Ok() && c.pos < MAX_SIZE && data != [] && |Taken(c, data)| <= len
    ensures var written := Step(c, WriteOp(data));
            var back := Step(written, SeekOp(c.pos));
            back.Ok() && back.pos == c.pos && Taken(c, data) <= ReadBytes(back, len)
  {
    StepOk(c, WriteOp(data));
    var written := Step(c, WriteOp(data));
    var back := Step(written, SeekOp(c.pos));
    assert back.bytes == Overlay(c.bytes, c.pos, Taken(c, data));
    var r := ReadBytes(back, len);
    assert forall i :: 0 <= i < |Taken(c, data)| ==> r[i] == back.bytes[c.pos + i];
  }

  /** A seek to the end or past it, and then a write, append: the bytes are the old ones and what the write
      took, and the cursor is behind them. */
  lemma SeekEndAppends(c: Cursor, target: nat, data: seq<byte>)
    requires c.Ok() && |c.bytes| < MAX_SIZE && |c.bytes| <= target
    ensures Legal(c, [SeekOp(target), WriteOp(data)])
    ensures var n := if |data| < 512 - |c.bytes| % 512 then |data| else 512 - |c.bytes| % 512;
            Run(c, [SeekOp(target), WriteOp(data)]) == Cursor(c.bytes + data[..n], |c.bytes| + n)
  {
    AppendStep(c, data);
    TwoCalls(c, SeekOp(target), WriteOp(data));
  }

  lemma AppendStep(c: Cursor, data: seq<byte>)
    requires c.Ok() && |c.bytes| < MAX_SIZE
    ensures var n := if |data| < 512 - |c.bytes| % 512 then |data| else 512 - |c.bytes| % 512;
            var end := Step(c.(pos := |c.bytes|), WriteOp(data));
            end.Ok() && end == Cursor(c.bytes + data[..n], |c.bytes| + n)
  {
    StepOk(c.(pos := |c.bytes|), WriteOp(data));
    assert Step(c.(pos := |c.bytes|), WriteOp(data)).bytes == c.bytes + Chunk(data, |c.bytes|);
  }

  lemma TwoCalls(c: Cursor, op: Op, op': Op)
    requires c.Ok() && Possible(c, op) && Step(c, op).Ok() && Possible(Step(c, op), op') && Step(Step(c, op), op').Ok()
    ensures Legal(c, [op, op']) && Run(c, [op, op']) == Step(Step(c, op), op')
  {
    var end := Step(Step(c, op), op');
    assert Legal(end, []) && Run(end, []) == end;
    assert [op, op'][1..] == [op'] && [op'][1..] == [];
    assert Legal(Step(c, op), [op']) && Run(Step(c, op), [op']) == end;
  }

  /** From `d` to `d'` the file made the abstract write, and `n` bytes were taken, or, if the call failed,
      nothing happened to it; nothing happened to any other file. */
  ghost predicate WriteDone(d: Image, d': Image, id: nat, pos: nat, buf: seq<byte>, ok: bool, n: nat)
    requires Consistent(d) && UsedIn(d, id)
  {
    var c := Cursor(Content(d, id), pos);
    && Consistent(d') && UsedIn(d', id) && Dense(d', id) && OthersSame(d, d', id) && c.Ok()
    && (ok ==>
          && n == |Taken(c, buf)| && Possible(c, WriteOp(buf)) && pos + n <= FileSize(d', id)
          && Step(c, WriteOp(buf)) == Cursor(Content(d', id), pos + n))
    && (!ok ==> n == 0 && Content(d', id) == Content(d, id))
    && (AllDense(d) ==> AllDense(d') && OtherContents(d, d', id))
  }

  /** What write_to_file promises, as a step of the abstract file. */
  lemma AfterWrite(d: Image, d': Image, id: nat, pos: nat, buf: seq<byte>, ok: bool, n: nat)
    requires Consistent(d) && UsedIn(d, id) && Dense(d, id) && pos <= FileSize(d, id)
    requires d' in Outcomes(d, id, pos, Chunk(buf, pos), ok)
    requires if ok then n == Min(|buf|, 512 - pos % 512) && pos / 512 < NUM_DIRECT else n == 0
    ensures WriteDone(d, d', id, pos, buf, ok, n)
    ensures n == (if !ok then 0 else if |buf| < 512 - pos % 512 then |buf| else 512 - pos % 512)
    ensures var c, c' := Content(d, id), Content(d', id);
            pos <= |c| && n <= |buf| && c' == c[..pos] + buf[..n] + (if pos + n < |c| then c[pos + n..] else [])
  {
    if AllDense(d) { StaysDense(d, d', id); }
  }

  /** What read_from_file promises, as a step of the abstract file. */
  lemma AfterRead(d: Image, id: nat, pos: nat, len: nat, got: seq<byte>)
    requires Consistent(d) && UsedIn(d, id) && pos < FileSize(d, id) <= MAX_SIZE
    requires |got| == BytesToRead(FileSize(d, id), pos, len) && BytesAt(d, id, pos, got)
    ensures var c := Cursor(Content(d, id), pos);
            c.Ok() && got == ReadBytes(c, len) && Step(c, ReadOp(len)) == c.(pos := pos + |got|)
    ensures pos + |got| <= |Content(d, id)| && pos % 512 + |got| <= 512 && got == Content(d, id)[pos..pos + |got|]
    ensures pos + |got| == |Content(d, id)| || pos % 512 + |got| == 512 || |got| == len
  {
    assert got == Content(d, id)[pos..pos + |got|];
  }

  /** write before the cursor moves. */
  method WriteAt(fs: FileSystem, buf: seq<byte>, id: nat, pos: nat) returns (ok: bool, n: nat)
    requires fs.Ready() && UsedIn(fs.disk.sectors, id)
    modifies fs.cache, fs.cache.bufSectors, fs.cache.buffer, fs.disk
    ensures fs.Ready() && UsedIn(fs.disk.sectors, id)
    ensures old(fs.disk.history) <= fs.disk.history && (old(fs.disk.lost) ==> fs.disk.lost)
    ensures fs.disk.sectors[INODE_BITMAP_SECTOR] == old(fs.disk.sectors)[INODE_BITMAP_SECTOR]
    ensures !fs.disk.lost && Dense(old(fs.disk.sectors), id) && pos <= FileSize(old(fs.disk.sectors), id) ==>
              WriteDone(old(fs.disk.sectors), fs.disk.sectors, id, pos, buf, ok, n)
              && pos + n <= FileSize(fs.disk.sectors, id)
              && n == (if !ok then 0 else if |buf| < 512 - pos % 512 then |buf| else 512 - pos % 512)
              && var c, c' := Content(old(fs.disk.sectors), id), Content(fs.disk.sectors, id);
                 pos <= |c| && n <= |buf| && c' == c[..pos] + buf[..n] + (if pos + n < |c| then c[pos + n..] else [])
    ensures !old(fs.disk.lost) ==>
              AllIn(fs.disk.history, |old(fs.disk.history)|,
                    CrashStates(old(fs.disk.sectors), id, pos, Chunk(buf, pos)))
    ensures old(fs.disk.faults) == [] ==> fs.disk.faults == [] && fs.disk.lost == old(fs.disk.lost)
    ensures old(fs.disk.faults) == [] && !ok ==> pos >= MAX_SIZE || NoBlockFound(old(fs.disk.sectors))
  {
    ghost var d0 := fs.disk.sectors;
    var res := fs.WriteToFile(buf, id, pos);
    ok, n := res.Wrote?, if res.Wrote? then res.count else 0;
    if !fs.disk.lost && Dense(d0, id) && pos <= FileSize(d0, id) {
      AfterWrite(d0, fs.disk.sectors, id, pos, buf, ok, n);
    }
  }

  /** What a read that starts no further than the end answers: the bytes from there on, as many as file,
      sector and buffer allow, which is a step of the abstract file. */
  ghost predicate ReadDone(d: Image, id: nat, pos: nat, len: nat, res: ReadResult, got: seq<byte>)
    requires Consistent(d) && UsedIn(d, id)
  {
    var c := Content(d, id);
    && res != BadPosition && (res == EndOfFile ==> pos == |c|)
    && (res.Read? ==>
          && pos < |c| && pos + |got| <= |c| && pos % 512 + |got| <= 512 && got == c[pos..pos + |got|]
          && (pos + |got| == |c| || pos % 512 + |got| == 512 || |got| == len)
          && Cursor(c, pos).Ok() && got == ReadBytes(Cursor(c, pos), len)
          && Step(Cursor(c, pos), ReadOp(len)) == Cursor(c, pos + |got|))
  }

  ghost function ReadResults(d: Image, id: nat, pos: nat, len: nat): iset<(ReadResult, seq<byte>)>
    requires Consistent(d) && UsedIn(d, id)
  {
    iset r: (ReadResult, seq<byte>) | Dense(d, id) && pos <= FileSize(d, id) ==> ReadDone(d, id, pos, len, r.0, r.1)
  }

  lemma ReadAnswer(d: Image, id: nat, pos: nat, len: nat, res: ReadResult, got: seq<byte>)
    requires Consistent(d) && UsedIn(d, id)
    requires match res
             case Read(n) => pos < FileSize(d, id) <= MAX_SIZE && |got| == n == BytesToRead(FileSize(d, id), pos, len)
                             && BytesAt(d, id, pos, got)
             case EndOfFile => pos >= FileSize(d, id)
             case BadPosition => pos < FileSize(d, id) && pos / 512 < NUM_DIRECT && Pointer(d, id, pos / 512) == 0
             case ReadDiskError => true
    ensures (res, got) in ReadResults(d, id, pos, len)
  {
    if res.Read? { AfterRead(d, id, pos, len, got); }
    if res.BadPosition? { NullNotDense(d, id, pos / 512); }
  }

  lemma NullNotDense(d: Image, id: nat, w: nat)
    requires Formatted(d) && id < BITMAP_BITS && w < NUM_DIRECT && Pointer(d, id, w) == 0 && 512 * w < FileSize(d, id)
    ensures !Dense(d, id)
  {
    assert !Backed(d, id, w);
  }

  /** read before the cursor moves. */
  method ReadAt(fs: FileSystem, buffer: array<byte>, id: nat, pos: nat) returns (res: ReadResult)
    requires fs.Ready() && UsedIn(fs.disk.sectors, id)
    modifies fs.cache, fs.cache.bufSectors, fs.cache.buffer, fs.disk, buffer
    ensures fs.Ready() && fs.disk.sectors == old(fs.disk.sectors) && fs.disk.history == old(fs.disk.history)
    ensures fs.disk.lost == old(fs.disk.lost)
    ensures res.Read? ==> res.count <= buffer.Length && buffer[res.count..] == old(buffer[res.count..])
    ensures !res.Read? ==> buffer[..] == old(buffer[..])
    ensures !fs.disk.lost ==>
              (res, if res.Read? then buffer[..res.count] else [])
                in ReadResults(fs.disk.sectors, id, pos, buffer.Length)
    ensures old(fs.disk.faults) == [] ==> fs.disk.faults == [] && res != ReadDiskError
  {
    res := fs.ReadFromFile(buffer, id, pos);
    if !fs.disk.lost {
      ReadAnswer(fs.disk.sectors, id, pos, buffer.Length, res, if res.Read? then buffer[..res.count] else []);
    }
  }

  class FileHandle {
    const fs: FileSystem
    const fileId: nat
    var position: nat

    /** The handle may be called, whatever the disk has refused before. */
    ghost predicate Live()
      reads this, fs, fs.disk, fs.cache, fs.cache.bufSectors, fs.cache.buffer, fs.cache.disk
    {
      fs.Ready() && UsedIn(fs.disk.sectors, fileId)
    }

    /** The disk has refused no write, so the disk is what readers see. */
    ghost predicate Open()
      reads this, fs, fs.disk, fs.cache, fs.cache.bufSectors, fs.cache.buffer, fs.cache.disk
    {
      && Live() && !fs.disk.lost && Dense(fs.disk.sectors, fileId)
      && position <= FileSize(fs.disk.sectors, fileId)
    }

    /** The file and the cursor the handle stands for. */
    ghost function At(): Cursor
      requires Open()
      reads this, fs, fs.disk, fs.cache, fs.cache.bufSectors, fs.cache.buffer, fs.cache.disk
    {
      Cursor(Content(fs.disk.sectors, fileId), position)
    }

    /** Both create and open put the cursor at the start. */
    constructor (fs: FileSystem, fileId: nat)
      ensures this.fs == fs && this.fileId == fileId && position == 0
    {
      this.fs := fs;
      this.fileId := fileId;
      position := 0;
    }

    /** write: the abstract write, and no other file changes. A failed write changes no file and leaves
        the cursor. At any moment a crash finds the old file, the old file with the new bytes up to its
        old size, or the new file. */
    method Write(buf: seq<byte>) returns (ok: bool, n: nat)
      requires Live()
      modifies this, fs.cache, fs.cache.bufSectors, fs.cache.buffer, fs.disk
      ensures Live() && old(fs.disk.history) <= fs.disk.history && (old(fs.disk.lost) ==> fs.disk.lost)
      ensures fs.disk.sectors[INODE_BITMAP_SECTOR] == old(fs.disk.sectors)[INODE_BITMAP_SECTOR]
      ensures position == old(position) + n
      ensures old(Open()) && !fs.disk.lost ==>
                Open() && WriteDone(old(fs.disk.sectors), fs.disk.sectors, fileId, old(position), buf, ok, n)
      ensures old(Open()) && !fs.disk.lost ==>
                var c, c' := old(Content(fs.disk.sectors, fileId)), Content(fs.disk.sectors, fileId);
                var pos := old(position);
                && n == (if !ok then 0 else if |buf| < 512 - pos % 512 then |buf| else 512 - pos % 512)
                && n <= |buf| && c' == c[..pos] + buf[..n] + (if pos + n < |c| then c[pos + n..] else [])
      ensures !old(fs.disk.lost) ==>
                AllIn(fs.disk.history, |old(fs.disk.history)|,
                      CrashStates(old(fs.disk.sectors), fileId, old(position), Chunk(buf, old(position))))
      ensures old(fs.disk.faults) == [] ==> fs.disk.faults == [] && fs.disk.lost == old(fs.disk.lost)
      ensures old(fs.disk.faults) == [] && !ok ==>
                old(position) >= MAX_SIZE || NoBlockFound(old(fs.disk.sectors))
    {
      ok, n := WriteAt(fs, buf, fileId, position);
      position := position + n;
    }

    /** read: the bytes at the cursor, and the cursor moves behind them; at the end of the file,
        EndOfFile. */
    method Read(buffer: array<byte>) returns (res: ReadResult)
      requires Live()
      modifies this, fs.cache, fs.cache.bufSectors, fs.cache.buffer, fs.disk, buffer
      ensures Live() && fs.disk.sectors == old(fs.disk.sectors) && fs.disk.history == old(fs.disk.history)
      ensures fs.disk.lost == old(fs.disk.lost) && (old(Open()) ==> Open())
      ensures res.Read? ==> res.count <= buffer.Length && buffer[res.count..] == old(buffer[res.count..])
      ensures old(Open()) && res.Read? ==>
                && old(position) < |old(At()).bytes| && At() == Step(old(At()), ReadOp(buffer.Length))
                && res.count == |ReadBytes(old(At()), buffer.Length)| <= buffer.Length
                && buffer[..] == ReadBytes(old(At()), buffer.Length) + old(buffer[res.count..])
      ensures position == old(position) + (if res.Read? then res.count else 0)
      ensures old(Open()) && res.Read? ==>
                var c := Content(fs.disk.sectors, fileId);
                && position <= |c| && old(position) % 512 + res.count <= 512
                && (position == |c| || old(position) % 512 + res.count == 512 || res.count == buffer.Length)
                && buffer[..res.count] == c[old(position)..position]
      ensures !res.Read? ==> buffer[..] == old(buffer[..]) && (old(Open()) ==> At() == old(At()))
      ensures old(Open()) ==> res != BadPosition && (res == EndOfFile ==> old(position) == |old(At()).bytes|)
      ensures old(fs.disk.faults) == [] ==> fs.disk.faults == [] && res != ReadDiskError
    {
      res := ReadAt(fs, buffer, fileId, position);
      if res.Read? {
        assert buffer[..] == buffer[..res.count] + buffer[res.count..];
        position := position + res.count;
      }
    }

    /** seek: inside the file to the given place; otherwise to the end, reporting it. */
    method Seek(target: nat) returns (res: SeekResult)
      requires Live()
      modifies this, fs.cache, fs.cache.bufSectors, fs.cache.buffer, fs.disk
      ensures Live() && fs.disk.sectors == old(fs.disk.sectors) && fs.disk.history == old(fs.disk.history)
      ensures fs.disk.lost == old(fs.disk.lost) && (old(Open()) ==> Open())
      ensures old(Open()) && res != InternalError ==>
                At() == Step(old(At()), SeekOp(target)) && (res == Sought <==> target < |old(At()).bytes|)
      ensures old(Open()) && res == InternalError ==> At() == old(At())
      ensures old(Open()) ==>
                match res
                case Sought => position == target < FileSize(fs.disk.sectors, fileId)
                case PastEndOfFile => position == FileSize(fs.disk.sectors, fileId) <= target
                case InternalError => position == old(position)
      ensures old(fs.disk.faults) == [] ==> fs.disk.faults == [] && res != InternalError
    {
      var ok, size := fs.Metadata(fileId);
      if !ok {
        return InternalError;
      }
      if target < size {
        position := target;
        return Sought;
      }
      position := size;
      return PastEndOfFile;
    }
  }

  /** FileHandle::create: a handle at the start of a new, empty file. */
  method Create(fs: FileSystem, name: seq<byte>) returns (handle: FileHandle?)
    requires fs.Ready()
    modifies fs.cache, fs.cache.bufSectors, fs.cache.buffer, fs.disk
    ensures fs.Ready() && (old(fs.disk.lost) ==> fs.disk.lost)
    ensures handle != null ==> fresh(handle) && handle.fs == fs && handle.Live()
    ensures !fs.disk.lost && handle != null ==>
              && handle.Open() && handle.At() == Cursor([], 0)
              && !InodeUsed(old(fs.disk.sectors), handle.fileId)
              && fs.disk.sectors[INODE_BITMAP_SECTOR] ==
                 MarkOne(old(fs.disk.sectors)[INODE_BITMAP_SECTOR], handle.fileId)
              && NewInode(fs.disk.sectors[InodeSector(handle.fileId)], InodeOffset(handle.fileId), name)
    ensures !fs.disk.lost && handle != null && old(AllDense(fs.disk.sectors)) ==>
              AllDense(fs.disk.sectors) && OtherContents(old(fs.disk.sectors), fs.disk.sectors, handle.fileId)
    ensures !fs.disk.lost && handle == null ==> fs.disk.sectors == old(fs.disk.sectors)
    ensures old(fs.disk.faults) == [] ==> fs.disk.faults == [] && fs.disk.lost == old(fs.disk.lost)
    ensures old(fs.disk.faults) == [] && !fs.disk.lost ==>
              (handle == null <==> LowestFree(old(fs.disk.sectors), 0) == BITMAP_BITS)
  {
    ghost var d0 := fs.disk.sectors;
    var res := fs.CreateFile(name);
    match res {
      case Created(id) =>
        if !fs.disk.lost && AllDense(d0) { StaysDense(d0, fs.disk.sectors, id); }
        handle := new FileHandle(fs, id);
      case _ => handle := null;
    }
  }

  /** FileHandle::open: a handle at the start of a file. The inode's bit is not looked at. */
  method Open(fs: FileSystem, id: nat) returns (handle: FileHandle?)
    requires fs.Ready() && id < WORD
    modifies fs.cache, fs.cache.bufSectors, fs.cache.buffer, fs.disk
    ensures fs.Ready() && fs.disk.sectors == old(fs.disk.sectors) && fs.disk.history == old(fs.disk.history)
    ensures fs.disk.lost == old(fs.disk.lost)
    ensures handle != null ==> fresh(handle) && handle.fs == fs && handle.fileId == id && handle.position == 0
    ensures handle != null && UsedIn(fs.disk.sectors, id) ==> handle.Live()
    ensures handle != null && UsedIn(fs.disk.sectors, id) && !fs.disk.lost && Dense(fs.disk.sectors, id) ==>
              handle.Open() && handle.At() == Cursor(Content(fs.disk.sectors, id), 0)
    ensures handle != null ==> InodeSector(id) < |fs.disk.sectors|
    ensures old(fs.disk.faults) == [] ==>
              fs.disk.faults == [] && (handle != null <==> InodeSector(id) < |fs.disk.sectors|)
  {
    var ok, size := fs.Metadata(id);
    if ok {
      handle := new FileHandle(fs, id);
    } else {
      handle := null;
    }
  }

  // ---------------------------------------------------------------- whole runs of a handle

  /** What a caller sees of one call: nothing happened, it was done, or it returned these bytes. */
  datatype Outcome = Failed | Done | Got(bytes: seq<byte>)

  /** The abstract file, given the same calls, goes from `c` to `c'` and answers the same. */
  ghost predicate Explains(c: Cursor, ops: seq<Op>, outs: seq<Outcome>, c': Cursor)
    requires c.Ok() && |ops| == |outs|
    decreases |ops|
  {
    if ops == [] then c' == c else
      && (outs[0].Got? ==> ops[0].ReadOp? && outs[0].bytes == ReadBytes(c, ops[0].len))
      && (outs[0].Done? ==> !ops[0].ReadOp?)
      && (if outs[0].Failed? then Explains(c, ops[1..], outs[1..], c')
          else Possible(c, ops[0]) && Step(c, ops[0]).Ok() && Explains(Step(c, ops[0]), ops[1..], outs[1..], c'))
  }

  lemma {:induction false} ExplainsOneMore(c: Cursor, ops: seq<Op>, outs: seq<Outcome>, c1: Cursor,
                                           op: Op, out: Outcome, c2: Cursor)
    requires c.Ok() && c1.Ok() && |ops| == |outs| && Explains(c, ops, outs, c1) && Explains(c1, [op], [out], c2)
    ensures Explains(c, ops + [op], outs + [out], c2)
    decreases |ops|
  {
    if ops == [] {
      assert ops + [op] == [op] && outs + [out] == [out];
    } else {
      assert (ops + [op])[1..] == ops[1..] + [op] && (outs + [out])[1..] == outs[1..] + [out];
      ExplainsOneMore(if outs[0].Failed? then c else Step(c, ops[0]), ops[1..], outs[1..], c1, op, out, c2);
    }
  }

  /** The calls that did not fail. */
  function Effective(ops: seq<Op>, outs: seq<Outcome>): seq<Op>
    requires |ops| == |outs|
    decreases |ops|
  {
    if ops == [] then [] else (if outs[0].Failed? then [] else [ops[0]]) + Effective(ops[1..], outs[1..])
  }

  /** The calls that did not fail are a run of the abstract file, so RunHoldsLastWritten is about them. */
  lemma {:induction false} ExplainedRun(c: Cursor, ops: seq<Op>, outs: seq<Outcome>, c': Cursor)
    requires c.Ok() && |ops| == |outs| && Explains(c, ops, outs, c')
    ensures Legal(c, Effective(ops, outs)) && c' == Run(c, Effective(ops, outs))
    decreases |ops|
  {
    if ops != [] {
      var e := Effective(ops[1..], outs[1..]);
      if outs[0].Failed? {
        assert Effective(ops, outs) == e;
        ExplainedRun(c, ops[1..], outs[1..], c');
      } else {
        assert Effective(ops, outs) == [ops[0]] + e && ([ops[0]] + e)[1..] == e;
        ExplainedRun(Step(c, ops[0]), ops[1..], outs[1..], c');
      }
    }
  }

  // ---------------------------------------------------------------- other files and crashes over a run

  lemma OtherContentsTrans(d: Image, e: Image, f: Image, id: nat)
    requires Consistent(d) && Consistent(e) && Consistent(f)
    requires OtherContents(d, e, id) && OtherContents(e, f, id)
    ensures OtherContents(d, f, id)
  {
    forall x | 0 <= x < BITMAP_BITS && x != id && InodeUsed(d, x)
      ensures InodeUsed(f, x) && Content(f, x) == Content(d, x)
    {
      var bytes := Content(d, x);
      assert InodeUsed(e, x) && Content(e, x) == bytes;
    }
  }

  /** A crash that leaves `d` on the disk during a call finds the file as the call found it, with the
      data of the call up to the old size, or as the call leaves it; the other files are those of `d0`. */
  ghost predicate CrashFinds(d0: Image, d: Image, id: nat, c: Cursor, op: Op)
    requires Consistent(d0) && c.Ok()
  {
    && Consistent(d) && UsedIn(d, id) && OtherContents(d0, d, id)
    && (Content(d, id) == c.bytes
        || (op.WriteOp? && Content(d, id) == Overlay(c.bytes, c.pos, Taken(c, op.data))[..|c.bytes|])
        || (op.WriteOp? && Content(d, id) == Overlay(c.bytes, c.pos, Taken(c, op.data))))
  }

  lemma CrashInWrite(d0: Image, d: Image, id: nat, pos: nat, data: seq<byte>)
    requires Consistent(d0) && UsedIn(d0, id) && AllDense(d0) && pos <= FileSize(d0, id)
    requires d in CrashStates(d0, id, pos, Chunk(data, pos))
    ensures CrashFinds(d0, d, id, Cursor(Content(d0, id), pos), WriteOp(data))
  {
    assert Dense(d0, id);
    OthersKeepContent(d0, d, id);
  }

  ghost function CrashImages(d0: Image, id: nat, c: Cursor, op: Op): iset<Image>
    requires Consistent(d0) && c.Ok()
  {
    iset d: Image | CrashFinds(d0, d, id, c, op)
  }

  lemma CrashesInWrite(d0: Image, history: seq<Image>, n: nat, id: nat, pos: nat, data: seq<byte>)
    requires Consistent(d0) && UsedIn(d0, id) && pos <= FileSize(d0, id)
    requires AllIn(history, n, CrashStates(d0, id, pos, Chunk(data, pos)))
    ensures AllDense(d0) ==> AllIn(history, n, CrashImages(d0, id, Cursor(Content(d0, id), pos), WriteOp(data)))
  {
    forall k {:trigger history[k]} | AllDense(d0) && n <= k < |history|
      ensures history[k] in CrashImages(d0, id, Cursor(Content(d0, id), pos), WriteOp(data))
    {
      CrashInWrite(d0, history[k], id, pos, data);
    }
  }

  lemma CrashLater(d0: Image, e: Image, d: Image, id: nat, c: Cursor, op: Op)
    requires Consistent(d0) && Consistent(e) && OtherContents(d0, e, id) && c.Ok() && CrashFinds(e, d, id, c, op)
    ensures CrashFinds(d0, d, id, c, op)
  {
    OtherContentsTrans(d0, e, d, id);
  }

  /** A crash during a run finds what it would find in one of its calls, after the calls before it. */
  ghost predicate CrashInRun(d0: Image, d: Image, id: nat, c0: Cursor, ops: seq<Op>, outs: seq<Outcome>,
                             j: nat, c: Cursor)
    requires Consistent(d0) && c0.Ok() && j < |ops| && j <= |outs|
  {
    c.Ok() && Explains(c0, ops[..j], outs[..j], c) && CrashFinds(d0, d, id, c, ops[j])
  }

  ghost predicate CrashSafe(d0: Image, d: Image, id: nat, c0: Cursor, ops: seq<Op>, outs: seq<Outcome>)
    requires Consistent(d0) && c0.Ok() && |outs| <= |ops|
  {
    exists j: nat, c {:trigger CrashInRun(d0, d, id, c0, ops, outs, j, c)} ::
      j < |outs| && CrashInRun(d0, d, id, c0, ops, outs, j, c)
  }

  /** A longer run keeps what was found in a shorter one. */
  lemma CrashStaysSafe(d0: Image, d: Image, id: nat, c0: Cursor, ops: seq<Op>, outs: seq<Outcome>, out: Outcome)
    requires Consistent(d0) && c0.Ok() && |outs| < |ops| && CrashSafe(d0, d, id, c0, ops, outs)
    ensures CrashSafe(d0, d, id, c0, ops, outs + [out])
  {
    var j: nat, c :| j < |outs| && CrashInRun(d0, d, id, c0, ops, outs, j, c);
    assert (outs + [out])[..j] == outs[..j];
    assert CrashInRun(d0, d, id, c0, ops, outs + [out], j, c);
  }

  lemma CrashInLastCall(d0: Image, e: Image, d: Image, id: nat, c0: Cursor, ops: seq<Op>, outs: seq<Outcome>,
                        c: Cursor, out: Outcome)
    requires Consistent(d0) && Consistent(e) && OtherContents(d0, e, id) && c0.Ok() && c.Ok() && |outs| < |ops|
    requires Explains(c0, ops[..|outs|], outs, c) && CrashFinds(e, d, id, c, ops[|outs|])
    ensures CrashSafe(d0, d, id, c0, ops, outs + [out])
  {
    CrashLater(d0, e, d, id, c, ops[|outs|]);
    assert (outs + [out])[..|outs|] == outs;
    assert CrashInRun(d0, d, id, c0, ops, outs + [out], |outs|, c);
  }

  /** Why a call fails though the disk refuses nothing: a write at the largest size or with no block to be
      found, a read at the end of the file; a seek never does. */
  predicate MayFail(c: Cursor, op: Op, noBlock: bool) {
    match op
    case WriteOp(_) => c.pos >= MAX_SIZE || noBlock
    case ReadOp(_) => c.pos == |c.bytes|
    case SeekOp(_) => false
  }

  /** One call on a handle, and what the caller sees of it. */
  method Call(h: FileHandle, op: Op) returns (out: Outcome)
    requires h.Live()
    modifies h, h.fs.cache, h.fs.cache.bufSectors, h.fs.cache.buffer, h.fs.disk
    ensures h.Live() && old(h.fs.disk.history) <= h.fs.disk.history && (old(h.fs.disk.lost) ==> h.fs.disk.lost)
    ensures h.fs.disk.sectors[INODE_BITMAP_SECTOR] == old(h.fs.disk.sectors)[INODE_BITMAP_SECTOR]
    ensures old(h.Open()) && !h.fs.disk.lost ==> h.Open() && Explains(old(h.At()), [op], [out], h.At())
    ensures old(h.Open()) && !h.fs.disk.lost && old(AllDense(h.fs.disk.sectors)) ==>
              AllDense(h.fs.disk.sectors) && OtherContents(old(h.fs.disk.sectors), h.fs.disk.sectors, h.fileId)
    ensures old(h.Open()) && old(AllDense(h.fs.disk.sectors)) ==>
              AllIn(h.fs.disk.history, |old(h.fs.disk.history)|,
                    CrashImages(old(h.fs.disk.sectors), h.fileId, old(h.At()), op))
    ensures old(h.fs.disk.faults) == [] ==> h.fs.disk.faults == [] && h.fs.disk.lost == old(h.fs.disk.lost)
    ensures old(h.fs.disk.faults) == [] && old(h.Open()) && out.Failed? ==>
              MayFail(old(h.At()), op, NoBlockFound(old(h.fs.disk.sectors)))
  {
    match op {
      case WriteOp(data) =>
        out := CallWrite(h, data);
      case SeekOp(target) =>
        var r := h.Seek(target);
        out := if r != InternalError then Done else Failed;
      case ReadOp(len) =>
        var buffer := new byte[len](k => 0);
        var r := h.Read(buffer);
        out := if r.Read? then Got(buffer[..r.count]) else Failed;
    }
  }

  lemma WriteExplained(d: Image, d': Image, id: nat, pos: nat, data: seq<byte>, ok: bool, n: nat)
    requires Consistent(d) && UsedIn(d, id) && WriteDone(d, d', id, pos, data, ok, n)
    ensures Explains(Cursor(Content(d, id), pos), [WriteOp(data)], [if ok then Done else Failed],
                     Cursor(Content(d', id), pos + n))
  {
    if ok { StepOk(Cursor(Content(d, id), pos), WriteOp(data)); }
  }

  /** Such a call when it is a write. */
  method CallWrite(h: FileHandle, data: seq<byte>) returns (out: Outcome)
    requires h.Live()
    modifies h, h.fs.cache, h.fs.cache.bufSectors, h.fs.cache.buffer, h.fs.disk
    ensures h.Live() && old(h.fs.disk.history) <= h.fs.disk.history && (old(h.fs.disk.lost) ==> h.fs.disk.lost)
    ensures h.fs.disk.sectors[INODE_BITMAP_SECTOR] == old(h.fs.disk.sectors)[INODE_BITMAP_SECTOR]
    ensures old(h.Open()) && !h.fs.disk.lost ==> h.Open() && Explains(old(h.At()), [WriteOp(data)], [out], h.At())
    ensures old(h.Open()) && !h.fs.disk.lost && old(AllDense(h.fs.disk.sectors)) ==>
              AllDense(h.fs.disk.sectors) && OtherContents(old(h.fs.disk.sectors), h.fs.disk.sectors, h.fileId)
    ensures old(h.Open()) && old(AllDense(h.fs.disk.sectors)) ==>
              AllIn(h.fs.disk.history, |old(h.fs.disk.history)|,
                    CrashImages(old(h.fs.disk.sectors), h.fileId, old(h.At()), WriteOp(data)))
    ensures old(h.fs.disk.faults) == [] ==> h.fs.disk.faults == [] && h.fs.disk.lost == old(h.fs.disk.lost)
    ensures old(h.fs.disk.faults) == [] && old(h.Open()) && out.Failed? ==>
              MayFail(old(h.At()), WriteOp(data), NoBlockFound(old(h.fs.disk.sectors)))
  {
    ghost var d0, pos, before, open := h.fs.disk.sectors, h.position, |h.fs.disk.history|, h.Open();
    var ok, n := h.Write(data);
    out := if ok then Done else Failed;
    if open && !h.fs.disk.lost { WriteExplained(d0, h.fs.disk.sectors, h.fileId, pos, data, ok, n); }
    if open { CrashesInWrite(d0, h.fs.disk.history, before, h.fileId, pos, data); }
  }

  /** Any calls on a handle refine the abstract file, call by call and answer by answer, and change no
      other file. Whenever a crash comes, the disk holds the file of one of the calls, before, after, or
      with its data up to the old size, and every other file. Only a refused disk write ends the run
      early, and then the file system is still ready. */
  method Replay(h: FileHandle, ops: seq<Op>) returns (outs: seq<Outcome>)
    requires h.Open()
    modifies h, h.fs.cache, h.fs.cache.bufSectors, h.fs.cache.buffer, h.fs.disk
    ensures h.Live() && |outs| <= |ops| && old(h.fs.disk.history) <= h.fs.disk.history
    ensures !h.fs.disk.lost ==>
              h.Open() && |outs| == |ops| && Explains(old(h.At()), ops, outs, h.At())
    ensures !h.fs.disk.lost && old(AllDense(h.fs.disk.sectors)) ==>
              AllDense(h.fs.disk.sectors) && OtherContents(old(h.fs.disk.sectors), h.fs.disk.sectors, h.fileId)
    ensures old(AllDense(h.fs.disk.sectors)) ==>
              forall k {:trigger h.fs.disk.history[k]} :: |old(h.fs.disk.history)| <= k < |h.fs.disk.history| ==>
                CrashSafe(old(h.fs.disk.sectors), h.fs.disk.history[k], h.fileId, old(h.At()), ops, outs)
    ensures old(h.fs.disk.faults) == [] ==> !h.fs.disk.lost
  {
    outs := [];
    ghost var c0, d0, h0 := h.At(), h.fs.disk.sectors, |h.fs.disk.history|;
    ghost var dense := AllDense(d0);
    var i := 0;
    while i < |ops| && !h.fs.disk.lost
      invariant 0 <= i <= |ops| && |outs| == i
      invariant h.Live() && old(h.fs.disk.history) <= h.fs.disk.history
      invariant h.fs.disk.lost || (h.Open() && Explains(c0, ops[..i], outs, h.At()))
      invariant h.fs.disk.lost || !dense
                || (AllDense(h.fs.disk.sectors) && OtherContents(d0, h.fs.disk.sectors, h.fileId))
      invariant dense ==> forall k {:trigger h.fs.disk.history[k]} :: h0 <= k < |h.fs.disk.history| ==>
                  CrashSafe(d0, h.fs.disk.history[k], h.fileId, c0, ops, outs)
      invariant old(h.fs.disk.faults) == [] ==> h.fs.disk.faults == [] && !h.fs.disk.lost
    {
      ghost var c, e, before := h.At(), h.fs.disk.sectors, h.fs.disk.history;
      var out := Call(h, ops[i]);
      forall k {:trigger h.fs.disk.history[k]} | dense && h0 <= k < |h.fs.disk.history|
        ensures CrashSafe(d0, h.fs.disk.history[k], h.fileId, c0, ops, outs + [out])
      {
        if k < |before| {
          assert h.fs.disk.history[k] == before[k];
          CrashStaysSafe(d0, before[k], h.fileId, c0, ops, outs, out);
        } else {
          assert h.fs.disk.history[k] in CrashImages(e, h.fileId, c, ops[i]);
          CrashInLastCall(d0, e, h.fs.disk.history[k], h.fileId, c0, ops, outs, c, out);
        }
      }
      if !h.fs.disk.lost {
        if dense { OtherContentsTrans(d0, e, h.fs.disk.sectors, h.fileId); }
        ExplainsOneMore(c0, ops[..i], outs, c, ops[i], out, h.At());
        assert ops[..i + 1] == ops[..i] + [ops[i]];
      }
      outs := outs + [out];
      i := i + 1;
    }
    assert ops[..|ops|] == ops;
  }
}
