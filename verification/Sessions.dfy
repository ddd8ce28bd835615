/** Several handles over one file system, on the same files or different ones: what the callers see is what
    a map from inodes to bytes, with one cursor for each handle, would answer. */
module Sessions {
  import opened Bits
  import opened DiskLayout
  import opened FileWrites
  import opened BlockAllocation
  import opened Vfs
  import Wnfs

  // ---------------------------------------------------------------- the files of a disk

  /** The files in use, each with its bytes. */
  ghost function Files(d: Image): map<nat, seq<byte>>
    requires Consistent(d)
  {
    map x: nat | x < BITMAP_BITS && InodeUsed(d, x) :: Content(d, x)
  }

  /** On a disk of the right length whose inode bitmap is clear, whatever its other sectors hold, there are
      no files, and that is a consistent state. */
  lemma BlankDisk(d: Image)
    requires Formatted(d) && forall i :: 0 <= i < 512 ==> d[INODE_BITMAP_SECTOR][i] == 0
    ensures Consistent(d) && AllDense(d) && Files(d) == map[]
  {
    forall x: nat | x < BITMAP_BITS ensures !InodeUsed(d, x) {
      NoBits(x % 8);
    }
  }

  lemma {:induction false} NoBits(k: nat)
    ensures !Bit(0, k)
  {
    if k > 0 { NoBits(k - 1); }
  }

  /** A call on one file of `d` changes at most that entry. */
  lemma FilesAfterCall(d: Image, d': Image, id: nat)
    requires Consistent(d) && Consistent(d') && UsedIn(d, id) && OtherContents(d, d', id)
    requires d'[INODE_BITMAP_SECTOR] == d[INODE_BITMAP_SECTOR]
    ensures UsedIn(d', id) && Files(d') == Files(d)[id := Content(d', id)]
  {
    forall x: nat | x < BITMAP_BITS ensures InodeUsed(d', x) <==> InodeUsed(d, x) {
    }
    forall x: nat | x < BITMAP_BITS && InodeUsed(d, x) && x != id ensures Content(d', x) == Content(d, x) {
      var c := Content(d, x);
    }
  }

  /** Creating a file adds one. */
  lemma FilesAfterCreate(d: Image, d': Image, id: nat)
    requires Consistent(d) && Consistent(d') && UsedIn(d', id) && OtherContents(d, d', id)
    requires !InodeUsed(d, id) && d'[INODE_BITMAP_SECTOR] == MarkOne(d[INODE_BITMAP_SECTOR], id)
    ensures Files(d') == Files(d)[id := Content(d', id)]
  {
    forall x: nat | x < BITMAP_BITS ensures InodeUsed(d', x) <==> x == id || InodeUsed(d, x) {
      MarkOneMarks(d[INODE_BITMAP_SECTOR], id, x);
      assert Marked(d'[INODE_BITMAP_SECTOR], x) <==> x == id || Marked(d[INODE_BITMAP_SECTOR], x);
    }
    forall x: nat | x < BITMAP_BITS && InodeUsed(d, x) ensures Content(d', x) == Content(d, x) {
      var c := Content(d, x);
    }
  }

  lemma FileSizes(d: Image)
    requires Consistent(d)
    ensures forall x {:trigger Files(d)[x]} :: x in Files(d) ==> |Files(d)[x]| <= MAX_SIZE
  {
  }

  // ---------------------------------------------------------------- the abstract file system

  datatype Place = Place(id: nat, pos: nat)

  /** The files, and for each handle its file and its cursor. */
  datatype Session = Session(files: map<nat, seq<byte>>, places: seq<Place>) {
    predicate Small(x: nat) { x in files ==> |files[x]| <= MAX_SIZE }

    predicate PlaceOk(i: nat)
      requires i < |places|
    {
      places[i].id in files && places[i].pos <= |files[places[i].id]|
    }

    ghost predicate Ok() {
      && (forall x {:trigger Small(x)} :: 0 <= x ==> Small(x))
      && (forall i: nat {:trigger PlaceOk(i)} :: i < |places| ==> PlaceOk(i))
    }

    /** What handle `i` looks at. */
    ghost function At(i: nat): (c: Cursor)
      requires Ok() && i < |places|
      ensures c.Ok()
    {
      assert PlaceOk(i) && Small(places[i].id);
      Cursor(files[places[i].id], places[i].pos)
    }

    function With(i: nat, c: Cursor): Session
      requires i < |places|
    {
      Session(files[places[i].id := c.bytes], places[i := Place(places[i].id, c.pos)])
    }

    function Adding(id: nat, bytes: seq<byte>): Session {
      Session(files[id := bytes], places + [Place(id, 0)])
    }
  }

  /** Create a file, open one that exists, or call on a handle. */
  datatype Demand = MakeFile(name: seq<byte>) | OpenFile(id: nat) | On(handle: nat, op: Op)

  datatype Reply = Refused | Opened(id: nat) | Answer(out: Outcome)

  /** A refusal or failure that needs no refusal of the disk: no inode is left, there is no such file or
      handle, or the call fails by itself. */
  ghost predicate Expected(s: Session, m: Demand, r: Reply)
    requires s.Ok()
  {
    match m
    case MakeFile(_) => r.Refused? ==> forall x: nat :: x < BITMAP_BITS ==> x in s.files
    case OpenFile(id) => r.Refused? ==> id !in s.files
    case On(i, op) => i < |s.places| && r == Answer(Failed) ==> MayFail(s.At(i), op, true)
  }

  /** The abstract file system goes from `s` to `s'` with this reply; when the disk is `sure` to refuse
      nothing, the reply is a failure only for a reason. */
  ghost predicate Answers(sure: bool, s: Session, m: Demand, r: Reply, s': Session)
    requires s.Ok()
  {
    (sure ==> Expected(s, m, r)) &&
    match r
    case Refused => s' == s && (m.On? ==> m.handle >= |s.places|)
    case Opened(id) =>
      (m.MakeFile? && id !in s.files && s' == s.Adding(id, []))
      || (m == OpenFile(id) && id in s.files && s' == s.Adding(id, s.files[id]))
    case Answer(out) =>
      m.On? && m.handle < |s.places|
      && exists c {:trigger s.With(m.handle, c)} ::
           Explains(s.At(m.handle), [m.op], [out], c) && s' == s.With(m.handle, c)
  }

  ghost predicate AnswersAll(sure: bool, s: Session, ms: seq<Demand>, rs: seq<Reply>, s': Session)
    requires |ms| == |rs|
    decreases |ms|
  {
    s.Ok() &&
    if ms == [] then s' == s
    else exists t {:trigger Answers(sure, s, ms[0], rs[0], t)} ::
           Answers(sure, s, ms[0], rs[0], t) && AnswersAll(sure, t, ms[1..], rs[1..], s')
  }

  /** A call moves the cursor inside the file, which does not shrink. */
  lemma ExplainedCall(c: Cursor, op: Op, out: Outcome, c': Cursor)
    requires c.Ok() && Explains(c, [op], [out], c')
    ensures c'.Ok() && |c'.bytes| >= |c.bytes|
  {
    if !out.Failed? { assert Explains(Step(c, op), [], [], c'); }
  }

  /** A call changes only the file and the cursor it names; no file shrinks, and every other cursor stays
      inside its file. */
  lemma AnswerKeeps(sure: bool, s: Session, m: Demand, r: Reply, s': Session)
    requires s.Ok() && Answers(sure, s, m, r, s')
    ensures s'.Ok() && |s'.places| >= |s.places|
    ensures forall x :: x in s.files ==> x in s'.files && |s'.files[x]| >= |s.files[x]|
    ensures forall x :: x in s.files && !(m.On? && m.handle < |s.places| && s.places[m.handle].id == x) ==>
              s'.files[x] == s.files[x]
    ensures forall i :: 0 <= i < |s.places| && !(m.On? && m.handle == i) ==> s'.places[i] == s.places[i]
  {
    if r.Answer? {
      var c :| Explains(s.At(m.handle), [m.op], [r.out], c) && s' == s.With(m.handle, c);
      ExplainedCall(s.At(m.handle), m.op, r.out, c);
    }
    forall x | 0 <= x ensures s'.Small(x) {
      assert s.Small(x);
    }
    forall i: nat | i < |s'.places| ensures s'.PlaceOk(i) {
      if i < |s.places| { assert s.PlaceOk(i); }
    }
  }

  /** Over any run files stay, do not shrink, and the cursors stay inside. */
  lemma {:induction false} SessionGrows(sure: bool, s: Session, ms: seq<Demand>, rs: seq<Reply>, s': Session)
    requires |ms| == |rs| && AnswersAll(sure, s, ms, rs, s')
    ensures s'.Ok() && |s'.places| >= |s.places|
    ensures forall x :: x in s.files ==> x in s'.files && |s'.files[x]| >= |s.files[x]|
    decreases |ms|
  {
    if ms != [] {
      var t :| Answers(sure, s, ms[0], rs[0], t) && AnswersAll(sure, t, ms[1..], rs[1..], s');
      AnswerKeeps(sure, s, ms[0], rs[0], t);
      SessionGrows(sure, t, ms[1..], rs[1..], s');
    }
  }

  lemma {:induction false} AnswersOneMore(sure: bool, s: Session, ms: seq<Demand>, rs: seq<Reply>, t: Session,
                                          m: Demand, r: Reply, s': Session)
    requires |ms| == |rs| && AnswersAll(sure, s, ms, rs, t) && t.Ok() && Answers(sure, t, m, r, s') && s'.Ok()
    ensures AnswersAll(sure, s, ms + [m], rs + [r], s')
    decreases |ms|
  {
    if ms == [] {
      assert ms + [m] == [m] && rs + [r] == [r];
      assert AnswersAll(sure, s', [], [], s');
      assert Answers(sure, s, [m][0], [r][0], s') && [m][1..] == [] && [r][1..] == [];
    } else {
      var u :| Answers(sure, s, ms[0], rs[0], u) && AnswersAll(sure, u, ms[1..], rs[1..], t);
      AnswersOneMore(sure, u, ms[1..], rs[1..], t, m, r, s');
      assert (ms + [m])[1..] == ms[1..] + [m] && (rs + [r])[1..] == rs[1..] + [r];
      assert (ms + [m])[0] == ms[0] && (rs + [r])[0] == rs[0];
      assert Answers(sure, s, (ms + [m])[0], (rs + [r])[0], u);
    }
  }

  /** What a call that did not fail did. */
  lemma Explained(c: Cursor, op: Op, out: Outcome, c': Cursor)
    requires c.Ok() && !out.Failed? && Explains(c, [op], [out], c')
    ensures Possible(c, op) && c' == Step(c, op)
    ensures out.Got? ==> op.ReadOp? && out.bytes == ReadBytes(c, op.len)
  {
    assert Explains(Step(c, op), [], [], c');
  }

  lemma AnsweredCall(sure: bool, s: Session, i: nat, op: Op, out: Outcome, t: Session)
    requires s.Ok() && Answers(sure, s, On(i, op), Answer(out), t) && !out.Failed?
    ensures i < |s.places| && t.Ok() && |t.places| == |s.places|
    ensures Possible(s.At(i), op) && t == s.With(i, Step(s.At(i), op)) && t.At(i) == Step(s.At(i), op)
    ensures out.Got? ==> op.ReadOp? && out.bytes == ReadBytes(s.At(i), op.len)
  {
    var c :| Explains(s.At(i), [op], [out], c) && t == s.With(i, c);
    Explained(s.At(i), op, out, c);
    AnswerKeeps(sure, s, On(i, op), Answer(out), t);
  }

  /** What one handle writes another handle on the same file reads. */
  lemma ReadThroughOther(sure: bool, s: Session, i: nat, j: nat, data: seq<byte>, t: Session, u: Session, len: nat,
                         got: seq<byte>, v: Session)
    requires s.Ok() && i < |s.places| && j < |s.places| && i != j && s.places[i].id == s.places[j].id
    requires data != [] && |Taken(s.At(i), data)| <= len
    requires Answers(sure, s, On(i, WriteOp(data)), Answer(Done), t)
    requires t.Ok() && Answers(sure, t, On(j, SeekOp(s.places[i].pos)), Answer(Done), u)
    requires u.Ok() && Answers(sure, u, On(j, ReadOp(len)), Answer(Got(got)), v)
    ensures Taken(s.At(i), data) <= got
  {
    var c := s.At(i);
    AnsweredCall(sure, s, i, WriteOp(data), Done, t);
    AnsweredCall(sure, t, j, SeekOp(c.pos), Done, u);
    AnsweredCall(sure, u, j, ReadOp(len), Got(got), v);
    WriteSeekRead(c, data, len);
    assert t.At(j).bytes == t.At(i).bytes;
  }

  // ---------------------------------------------------------------- the file system serves a session

  /** The handles and the disk stand for `s`. */
  ghost predicate Shows(fs: Wnfs.FileSystem, hs: seq<FileHandle>, s: Session)
    reads fs, fs.disk, fs.cache, fs.cache.bufSectors, fs.cache.buffer, fs.cache.disk, hs
  {
    && fs.Ready() && !fs.disk.lost && AllDense(fs.disk.sectors)
    && s.Ok() && s.files == Files(fs.disk.sectors) && |hs| == |s.places|
    && forall i: nat {:trigger hs[i]} :: i < |hs| ==>
         hs[i].fs == fs && hs[i].fileId == s.places[i].id && hs[i].position == s.places[i].pos
  }

  predicate Distinct(hs: seq<FileHandle>) {
    forall i, j :: 0 <= i < j < |hs| ==> hs[i] != hs[j]
  }

  method ServeMake(fs: Wnfs.FileSystem, hs: seq<FileHandle>, name: seq<byte>, ghost s: Session, ghost sure: bool)
    returns (r: Reply, hs': seq<FileHandle>, ghost s': Session)
    requires Shows(fs, hs, s) && Distinct(hs) && (sure ==> fs.disk.faults == [])
    modifies fs.cache, fs.cache.bufSectors, fs.cache.buffer, fs.disk
    ensures fs.Ready() && forall k {:trigger hs'[k]} :: 0 <= k < |hs'| ==> hs'[k] in hs || fresh(hs'[k])
    ensures Distinct(hs')
    ensures !fs.disk.lost ==> Shows(fs, hs', s') && Answers(sure, s, MakeFile(name), r, s')
    ensures sure ==> fs.disk.faults == [] && !fs.disk.lost
  {
    ghost var d := fs.disk.sectors;
    var h := Create(fs, name);
    if h == null {
      return Refused, hs, s;
    }
    r, hs', s' := Opened(h.fileId), hs + [h], s.Adding(h.fileId, []);
    if !fs.disk.lost {
      FilesAfterCreate(d, fs.disk.sectors, h.fileId);
      assert Answers(sure, s, MakeFile(name), r, s');
      AnswerKeeps(sure, s, MakeFile(name), r, s');
    }
  }

  method ServeOpen(fs: Wnfs.FileSystem, hs: seq<FileHandle>, id: nat, ghost s: Session, ghost sure: bool)
    returns (r: Reply, hs': seq<FileHandle>, ghost s': Session)
    requires Shows(fs, hs, s) && Distinct(hs) && (sure ==> fs.disk.faults == [])
    requires id in s.files
    modifies fs.cache, fs.cache.bufSectors, fs.cache.buffer, fs.disk
    ensures fs.Ready() && forall k {:trigger hs'[k]} :: 0 <= k < |hs'| ==> hs'[k] in hs || fresh(hs'[k])
    ensures Distinct(hs')
    ensures !fs.disk.lost ==> Shows(fs, hs', s') && Answers(sure, s, OpenFile(id), r, s')
    ensures sure ==> fs.disk.faults == [] && !fs.disk.lost
  {
    var h := Open(fs, id);
    if h == null {
      return Refused, hs, s;
    }
    r, hs', s' := Opened(id), hs + [h], s.Adding(id, s.files[id]);
    assert s.files[id := s.files[id]] == s.files;
    assert Answers(sure, s, OpenFile(id), r, s');
    AnswerKeeps(sure, s, OpenFile(id), r, s');
  }

  /** What one call promises, as a step of the session. */
  lemma ServedCall(sure: bool, s: Session, d: Image, d': Image, i: nat, op: Op, out: Outcome, c: Cursor)
    requires s.Ok() && i < |s.places| && Consistent(d) && Consistent(d') && s.files == Files(d)
    requires UsedIn(d, s.places[i].id) && UsedIn(d', s.places[i].id) && OtherContents(d, d', s.places[i].id)
    requires d'[INODE_BITMAP_SECTOR] == d[INODE_BITMAP_SECTOR] && c.bytes == Content(d', s.places[i].id)
    requires Explains(s.At(i), [op], [out], c) && (sure && out.Failed? ==> MayFail(s.At(i), op, true))
    ensures Answers(sure, s, On(i, op), Answer(out), s.With(i, c))
    ensures s.With(i, c).Ok() && s.With(i, c).files == Files(d')
  {
    FilesAfterCall(d, d', s.places[i].id);
    assert Answers(sure, s, On(i, op), Answer(out), s.With(i, c));
    AnswerKeeps(sure, s, On(i, op), Answer(out), s.With(i, c));
  }

  method ServeCall(fs: Wnfs.FileSystem, hs: seq<FileHandle>, i: nat, op: Op, ghost s: Session, ghost sure: bool)
    returns (r: Reply, ghost s': Session)
    requires Shows(fs, hs, s) && Distinct(hs) && (sure ==> fs.disk.faults == []) && i < |hs|
    modifies hs[i], fs.cache, fs.cache.bufSectors, fs.cache.buffer, fs.disk
    ensures fs.Ready()
    ensures !fs.disk.lost ==> Shows(fs, hs, s') && Answers(sure, s, On(i, op), r, s')
    ensures sure ==> fs.disk.faults == [] && !fs.disk.lost
  {
    var h := hs[i];
    ghost var d := fs.disk.sectors;
    assert s.PlaceOk(i) && Dense(d, h.fileId);
    assert h.Open() && h.At() == s.At(i);
    var out := Call(h, op);
    r, s' := Answer(out), s;
    if !fs.disk.lost {
      s' := s.With(i, h.At());
      ServedCall(sure, s, d, fs.disk.sectors, i, op, out, h.At());
    }
  }

  method ServeOne(fs: Wnfs.FileSystem, hs: seq<FileHandle>, m: Demand, ghost s: Session, ghost sure: bool)
    returns (r: Reply, hs': seq<FileHandle>, ghost s': Session)
    requires Shows(fs, hs, s) && Distinct(hs) && (sure ==> fs.disk.faults == [])
    modifies hs, fs.cache, fs.cache.bufSectors, fs.cache.buffer, fs.disk
    ensures fs.Ready() && Distinct(hs')
    ensures forall k {:trigger hs'[k]} :: 0 <= k < |hs'| ==> hs'[k] in hs || fresh(hs'[k])
    ensures !fs.disk.lost ==> Shows(fs, hs', s') && Answers(sure, s, m, r, s')
    ensures sure ==> fs.disk.faults == [] && !fs.disk.lost
  {
    r, hs', s' := Refused, hs, s;
    match m {
      case MakeFile(name) =>
        r, hs', s' := ServeMake(fs, hs, name, s, sure);
      case OpenFile(id) =>
        if UsedIn(fs.disk.sectors, id) { r, hs', s' := ServeOpen(fs, hs, id, s, sure); }
      case On(k, op) =>
        if k < |hs| { r, s' := ServeCall(fs, hs, k, op, s, sure); }
    }
  }

  /** Any callers create files, open them and call on their handles, in any order and several on one file: the
      replies, the files and the cursors are those of the abstract file system, from whatever files the
      disk holds, until a disk write is refused; and then the file system is still ready. */
  method Serve(fs: Wnfs.FileSystem, demands: seq<Demand>)
    returns (hs: seq<FileHandle>, replies: seq<Reply>, ghost s: Session)
    requires fs.Ready() && !fs.disk.lost && AllDense(fs.disk.sectors)
    modifies fs.cache, fs.cache.bufSectors, fs.cache.buffer, fs.disk
    ensures fs.Ready() && |replies| <= |demands|
    ensures !fs.disk.lost ==>
              && |replies| == |demands| && Shows(fs, hs, s)
              && Session(Files(old(fs.disk.sectors)), []).Ok()
              && AnswersAll(old(fs.disk.faults) == [], Session(Files(old(fs.disk.sectors)), []), demands, replies, s)
    ensures old(fs.disk.faults) == [] ==> !fs.disk.lost
  {
    ghost var s0, sure := Session(Files(fs.disk.sectors), []), fs.disk.faults == [];
    FileSizes(fs.disk.sectors);
    hs, replies, s := [], [], s0;
    var i := 0;
    while i < |demands| && !fs.disk.lost
      invariant 0 <= i <= |demands| && |replies| == i && fs.Ready()
      invariant s0.Ok() && Distinct(hs) && forall k {:trigger hs[k]} :: 0 <= k < |hs| ==> fresh(hs[k])
      invariant fs.disk.lost || (Shows(fs, hs, s) && AnswersAll(sure, s0, demands[..i], replies, s))
      invariant sure ==> fs.disk.faults == [] && !fs.disk.lost
    {
      ghost var t := s;
      var r;
      r, hs, s := ServeOne(fs, hs, demands[i], t, sure);
      if !fs.disk.lost {
        AnswersOneMore(sure, s0, demands[..i], replies, t, demands[i], r, s);
        assert demands[..i + 1] == demands[..i] + [demands[i]];
      }
      replies := replies + [r];
      i := i + 1;
    }
    assert demands[..|demands|] == demands;
  }
}
