/** Reference machines a client has in mind: a file is bytes and a position, a directory is a list and an index. */
module PlainFiles {
  import opened Bytes

  datatype PlainFile = PlainFile(bytes: seq<byte>, pos: nat)

  /** Read up to n bytes; move to p; move to the end. */
  datatype FileOp = Get(n: nat) | Seek(p: nat) | SeekEnd

  function FileStep(f: PlainFile, op: FileOp): (PlainFile, seq<byte>)
  {
    match op
    case Get(n) =>
      if f.pos >= |f.bytes| then (f, [])
      else
        var end := if f.pos + n <= |f.bytes| then f.pos + n else |f.bytes|;
        (f.(pos := end), f.bytes[f.pos..end])
    case Seek(p) => (f.(pos := p), [])
    case SeekEnd => (f.(pos := |f.bytes|), [])
  }

  function FileRun(f: PlainFile, ops: seq<FileOp>): (PlainFile, seq<seq<byte>>)
    decreases |ops|
  {
    if ops == [] then (f, [])
    else
      var (g, out) := FileStep(f, ops[0]);
      var (h, outs) := FileRun(g, ops[1..]);
      (h, [out] + outs)
  }

  function Concat(outs: seq<seq<byte>>): seq<byte>
  {
    if outs == [] then [] else outs[0] + Concat(outs[1..])
  }

  function Asked(ops: seq<FileOp>): nat
  {
    if ops == [] then 0 else (if ops[0].Get? then ops[0].n else 0) + Asked(ops[1..])
  }

  predicate AllGets(ops: seq<FileOp>) { forall i :: 0 <= i < |ops| ==> ops[i].Get? }

  /** Consecutive reads of any sizes deliver the file from the start position on, with no gap and no overlap. */
  lemma {:induction false} ReadsConcatenate(f: PlainFile, ops: seq<FileOp>)
    requires AllGets(ops) && f.pos <= |f.bytes|
    ensures var (g, outs) := FileRun(f, ops);
            && g.bytes == f.bytes
            && g.pos == (if f.pos + Asked(ops) <= |f.bytes| then f.pos + Asked(ops) else |f.bytes|)
            && Concat(outs) == f.bytes[f.pos..g.pos]
    decreases |ops|
  {
    if ops != [] {
      var (g, out) := FileStep(f, ops[0]);
      assert AllGets(ops[1..]);
      ReadsConcatenate(g, ops[1..]);
      var (h, outs) := FileRun(g, ops[1..]);
      assert ([out] + outs)[1..] == outs;
      assert f.bytes[f.pos..g.pos] + f.bytes[g.pos..h.pos] == f.bytes[f.pos..h.pos];
    }
  }

  datatype DirOp = Next(room: nat) | Rewind

  datatype DirOut<T> = Entry(e: T) | TooSmall(need: nat) | End | Rewound

  function DirStep<T>(ds: seq<T>, i: nat, op: DirOp, size: T -> nat): (nat, DirOut<T>)
  {
    match op
    case Rewind => (0, Rewound)
    case Next(room) =>
      if i >= |ds| then (i, End)
      else if room < size(ds[i]) then (i, TooSmall(size(ds[i])))
      else (i + 1, Entry(ds[i]))
  }

  function DirRun<T>(ds: seq<T>, i: nat, ops: seq<DirOp>, size: T -> nat): (nat, seq<DirOut<T>>)
    decreases |ops|
  {
    if ops == [] then (i, [])
    else
      var (j, out) := DirStep(ds, i, ops[0], size);
      var (k, outs) := DirRun(ds, j, ops[1..], size);
      (k, [out] + outs)
  }

  /** The entries delivered, in order. */
  function Entries<T>(outs: seq<DirOut<T>>): seq<T>
  {
    if outs == [] then []
    else (if outs[0].Entry? then [outs[0].e] else []) + Entries(outs[1..])
  }

  /**
    With any room offered each time, the entries come out once each and in order; the end is reported only
    when all have been delivered, and from then on always.
   */
  lemma {:induction false} EachEntryOnce<T>(ds: seq<T>, i: nat, ops: seq<DirOp>, size: T -> nat)
    requires i <= |ds|
    requires forall k :: 0 <= k < |ops| ==> ops[k].Next?
    ensures var (j, outs) := DirRun(ds, i, ops, size);
            && i <= j <= |ds|
            && Entries(outs) == ds[i..j]
            && |outs| == |ops|
            && (forall k :: 0 <= k < |outs| && outs[k].End? ==> j == |ds|)
            && (forall k, l :: 0 <= k < l < |outs| && outs[k].End? ==> outs[l].End?)
            && (forall k :: 0 <= k < |ops| && !outs[k].End? && outs[k].TooSmall? ==> ops[k].room < outs[k].need)
    decreases |ops|
  {
    if ops != [] {
      var (j, out) := DirStep(ds, i, ops[0], size);
      EachEntryOnce(ds, j, ops[1..], size);
      var (k, outs) := DirRun(ds, j, ops[1..], size);
      assert ([out] + outs)[1..] == outs;
      if out.End? { EndForever(ds, i, ops[1..], size); }
      assert forall l :: 1 <= l < |outs| + 1 ==> ([out] + outs)[l] == outs[l - 1] && ops[l] == ops[1..][l - 1];
    }
  }

  lemma {:induction false} EndForever<T>(ds: seq<T>, i: nat, ops: seq<DirOp>, size: T -> nat)
    requires i == |ds|
    requires forall k :: 0 <= k < |ops| ==> ops[k].Next?
    ensures DirRun(ds, i, ops, size).0 == i
    ensures forall k :: 0 <= k < |DirRun(ds, i, ops, size).1| ==> DirRun(ds, i, ops, size).1[k].End?
    decreases |ops|
  {
    if ops != [] { EndForever(ds, i, ops[1..], size); }
  }

  /** Next requests, each with room for any entry. */
  ghost predicate Roomy<T(!new)>(ds: seq<T>, ops: seq<DirOp>, size: T -> nat)
  {
    forall k :: 0 <= k < |ops| ==> ops[k].Next? && forall d :: d in ds ==> size(d) <= ops[k].room
  }

  /** With enough room for every entry, request k answers entry i + k as long as there is one, and then the end. */
  lemma {:induction false} RoomyReadsAdvance<T(!new)>(ds: seq<T>, i: nat, ops: seq<DirOp>, size: T -> nat)
    requires i <= |ds| && Roomy(ds, ops, size)
    ensures var (j, outs) := DirRun(ds, i, ops, size);
            && j == (if i + |ops| <= |ds| then i + |ops| else |ds|)
            && |outs| == |ops|
            && forall k :: 0 <= k < |outs| ==> outs[k] == if i + k < |ds| then Entry(ds[i + k]) else End
    decreases |ops|
  {
    if ops != [] {
      var (j, out) := DirStep(ds, i, ops[0], size);
      RoomyReadsAdvance(ds, j, ops[1..], size);
      var outs := DirRun(ds, j, ops[1..], size).1;
      assert forall k :: 1 <= k < |ops| ==> ([out] + outs)[k] == outs[k - 1];
    }
  }
}

/** Every run of the server, seen from one handle, is a run of a plain file or a plain directory. */
module FileRuns {
  import opened Bytes
  import opened FileServerSpec
  import opened PlainFiles
  import FileInfo
  import Paths
  import Text

  /** The handle is open before and after every call of the run. */
  ghost predicate StaysOpen(s: Server, cs: seq<Call>, h: Id)
    decreases |cs|
  {
    h in s.files && (cs == [] || StaysOpen(Step(s, cs[0]).0, cs[1..], h))
  }

  lemma IsolatedFile(s: Server, c: Call, h: Id)
    requires Legal(s, c) && h in s.files && h in Step(s, c).0.files
    requires !((c.Read? || c.SetPosition?) && c.this_ == h)
    ensures Step(s, c).0.files[h] == s.files[h]
    ensures !TakesDown(s, c, s.files[h].owner)
  {
    hide PublishStep, UnpublishStep, OpenStep, CloseStep, DeleteStep, ReadStep, SetPositionStep, GetInfoStep;
    match c
    case Publish(_, _, _, _, _) => PublishFrame(s, c);
    case Unpublish(_, _) => UnpublishFrame(s, c);
    case Open(_, _, _, _, _) => OpenFrame(s, c);
    case Close(_) => CloseFrame(s, c);
    case Delete(_) => CloseFrame(s, c);
    case Read(_, _, _) => CursorFrame(s, c);
    case SetPosition(_, _) => CursorFrame(s, c);
    case _ =>
  }

  /** A call on another object, or one that only looks at `h`, leaves `h` and its volume as they are. */
  lemma Isolation(s: Server, c: Call, h: Id)
    requires WF(s) && Legal(s, c) && h in s.files && h in Step(s, c).0.files
    requires !((c.Read? || c.SetPosition?) && c.this_ == h)
    ensures Step(s, c).0.files[h] == s.files[h]
    ensures var owner := s.files[h].owner;
            owner in s.volumes && owner in Step(s, c).0.volumes && Step(s, c).0.volumes[owner] == s.volumes[owner]
  {
    hide Step, Known;
    assert FileOk(s.volumes, h, s.files[h]);
    IsolatedFile(s, c, h);
    StepKeepsVolume(s, c, s.files[h].owner);
  }

  // --- Regular files ---

  /** What a call means to the file behind `h`; a Read with a NULL argument means nothing. */
  function FileOpOf(c: Call, h: Id): seq<FileOp>
  {
    if c.Read? && c.this_ == h && c.room.Some? && c.hasBuffer then [Get(c.room.value)]
    else if c.SetPosition? && c.this_ == h then [if c.pos == 0xFFFF_FFFF_FFFF_FFFF then SeekEnd else Seek(c.pos)]
    else []
  }

  function FileOps(cs: seq<Call>, h: Id): seq<FileOp>
  {
    if cs == [] then [] else FileOpOf(cs[0], h) + FileOps(cs[1..], h)
  }

  /** The replies to those calls. */
  function FileReplies(s: Server, cs: seq<Call>, h: Id): seq<Reply>
    decreases |cs|
  {
    if cs == [] then []
    else (if FileOpOf(cs[0], h) == [] then [] else [Step(s, cs[0]).1]) + FileReplies(Step(s, cs[0]).0, cs[1..], h)
  }

  /** EFI_SUCCESS, the byte count and the bytes. */
  function Delivered(outs: seq<seq<byte>>): seq<Reply>
  {
    if outs == [] then [] else [Answer(Success, |outs[0]|, outs[0], 0)] + Delivered(outs[1..])
  }

  ghost predicate FileWith(s: Server, h: Id, b: seq<byte>)
  {
    && h in s.files && !s.files[h].isDir && s.files[h].owner in s.volumes
    && Reads(s.volumes[s.files[h].owner].fs, s.files[h].path, b)
  }

  /** ReadFile answers these bytes; a nil slice is an empty file. */
  predicate Reads(fs: Backing, path: string, b: seq<byte>)
  {
    && fs.readFile(path).Some?
    && if fs.readFile(path).value.Some? then b == fs.readFile(path).value.value else b == []
  }

  lemma ReadsBody(fs: Backing, path: string, b: seq<byte>)
    ensures Reads(fs, path, b) <==> Body(fs, path) == Some(b)
    ensures Body(fs, path) == None <==> fs.readFile(path) == None
  {
  }

  function View(s: Server, h: Id, b: seq<byte>): PlainFile
    requires h in s.files
  {
    PlainFile(b, s.files[h].cursor)
  }

  lemma FileCall(s: Server, c: Call, h: Id, b: seq<byte>)
    requires FileWith(s, h, b) && FileOpOf(c, h) != []
    ensures var (f, out) := FileStep(View(s, h, b), FileOpOf(c, h)[0]);
            Step(s, c).1 == Answer(Success, |out|, out, 0) && h in Step(s, c).0.files && View(Step(s, c).0, h, b) == f
  {
    hide Listed, Body, Reads;
    ReadsBody(s.volumes[s.files[h].owner].fs, s.files[h].path, b);
  }

  lemma FileNonCall(s: Server, c: Call, h: Id, b: seq<byte>)
    requires WF(s) && Legal(s, c) && FileWith(s, h, b) && FileOpOf(c, h) == [] && h in Step(s, c).0.files
    ensures Step(s, c).0.files[h] == s.files[h]
    ensures FileWith(Step(s, c).0, h, b)
  {
    hide Reads, Body, Listed, OpenStep, CloseStep, DeleteStep, GetInfoStep, WF;
    if c.Read? && c.this_ == h {
      CursorFrame(s, c);
    } else {
      Isolation(s, c, h);
    }
  }

  lemma FileWithMoves(s: Server, c: Call, h: Id, b: seq<byte>)
    requires FileWith(s, h, b) && (c.Read? || c.SetPosition?)
    ensures FileWith(Step(s, c).0, h, b)
  {
    hide Reads, Step;
    CursorFrame(s, c);
  }

  /**
    Refinement: through any interleaving of calls on any handles and volumes that leaves `h` open, the Reads
    and SetPositions on `h` answer exactly as a plain file of the backing bytes would, caches or not.
   */
  lemma {:induction false} FileRefinesPlain(s: Server, cs: seq<Call>, h: Id, b: seq<byte>)
    requires WF(s) && LegalRun(s, cs) && StaysOpen(s, cs, h) && FileWith(s, h, b)
    ensures var (f, outs) := FileRun(View(s, h, b), FileOps(cs, h));
            && FileReplies(s, cs, h) == Delivered(outs)
            && FileWith(Run(s, cs), h, b)
            && View(Run(s, cs), h, b) == f
            && GetPositionStep(Run(s, cs), h, true) == Answer(Success, f.pos, [], 0)
    decreases |cs|
  {
    hide Step, Reads, WF, FileStep;
    if cs != [] {
      var t := Step(s, cs[0]).0;
      StepKeeps(s, cs[0]);
      if FileOpOf(cs[0], h) == [] {
        FileNonCall(s, cs[0], h, b);
        FileRefinesPlain(t, cs[1..], h, b);
        assert [] + FileOps(cs[1..], h) == FileOps(cs[1..], h);
      } else {
        FileCall(s, cs[0], h, b);
        FileWithMoves(s, cs[0], h, b);
        FileRefinesPlain(t, cs[1..], h, b);
        FileRunCons(View(s, h, b), FileOpOf(cs[0], h)[0], FileOps(cs[1..], h));
        assert FileOpOf(cs[0], h) == [FileOpOf(cs[0], h)[0]];
      }
    }
  }

  lemma FileRunCons(f: PlainFile, op: FileOp, ops: seq<FileOp>)
    ensures var (g, out) := FileStep(f, op);
            var (h, outs) := FileRun(g, ops);
            FileRun(f, [op] + ops) == (h, [out] + outs) &&
              Delivered([out] + outs) == [Answer(Success, |out|, out, 0)] + Delivered(outs)
  {
    assert ([op] + ops)[1..] == ops;
    var (g, out) := FileStep(f, op);
    var (h, outs) := FileRun(g, ops);
    assert ([out] + outs)[1..] == outs;
  }

  function Payload(rs: seq<Reply>): seq<byte>
  {
    if rs == [] then [] else (if rs[0].Answer? then rs[0].data else []) + Payload(rs[1..])
  }

  lemma {:induction false} PayloadDelivered(outs: seq<seq<byte>>)
    ensures Payload(Delivered(outs)) == Concat(outs)
  {
    if outs != [] {
      PayloadDelivered(outs[1..]);
      assert Delivered(outs)[1..] == Delivered(outs[1..]);
    }
  }

  /**
    Reading from the start in any chunk sizes, with anything else going on in between, delivers a prefix of
    the file, and the whole file once enough has been asked for.
   */
  lemma SequentialReads(s: Server, cs: seq<Call>, h: Id, b: seq<byte>)
    requires WF(s) && LegalRun(s, cs) && StaysOpen(s, cs, h) && FileWith(s, h, b)
    requires s.files[h].cursor == 0 && AllGets(FileOps(cs, h))
    ensures var asked := Asked(FileOps(cs, h));
            Payload(FileReplies(s, cs, h)) == if asked <= |b| then b[..asked] else b
  {
    hide Step, Reads, WF;
    FileRefinesPlain(s, cs, h, b);
    ReadsConcatenate(View(s, h, b), FileOps(cs, h));
    PayloadDelivered(FileRun(View(s, h, b), FileOps(cs, h)).1);
    assert b[0..|b|] == b;
  }

  /** A file whose bytes cannot be read answers every such Read with a device error, every time. */
  lemma UnreadableFile(s: Server, h: Id, n: u64, hasBuffer: bool)
    requires WF(s) && h in s.files && !s.files[h].isDir
    requires s.volumes[s.files[h].owner].fs.readFile(s.files[h].path) == None
    ensures Step(s, Read(h, Some(n), hasBuffer)) == (s, Answer(DeviceError, n, [], 0))
    ensures Step(s, SetPosition(h, 0xFFFF_FFFF_FFFF_FFFF)) == (s, Plain(DeviceError))
  {
    hide Body, Listed;
    assert FileOk(s.volumes, h, s.files[h]);
    ReadsBody(s.volumes[s.files[h].owner].fs, s.files[h].path, []);
  }

  // --- Directories ---

  function DirOpOf(c: Call, h: Id): seq<DirOp>
  {
    if c.Read? && c.this_ == h && c.room.Some? && c.hasBuffer then [Next(c.room.value)]
    else if c.SetPosition? && c.this_ == h && c.pos == 0 then [Rewind]
    else []
  }

  function DirOps(cs: seq<Call>, h: Id): seq<DirOp>
  {
    if cs == [] then [] else DirOpOf(cs[0], h) + DirOps(cs[1..], h)
  }

  function DirReplies(s: Server, cs: seq<Call>, h: Id): seq<Reply>
    decreases |cs|
  {
    if cs == [] then []
    else (if DirOpOf(cs[0], h) == [] then [] else [Step(s, cs[0]).1]) + DirReplies(Step(s, cs[0]).0, cs[1..], h)
  }

  function RecordSize(e: Dirent): nat { FileInfo.InfoSize(e.name) }

  /** How an outcome looks on the wire. */
  function DirReply(out: DirOut<Dirent>): Reply
  {
    match out
    case Entry(e) => Answer(Success, RecordSize(e), Record(e), 0)
    case TooSmall(need) => Answer(BufferTooSmall, need, [], 0)
    case End => Answer(Success, 0, [], 0)
    case Rewound => Answer(Success, 0, [], 0)
  }

  function Wire(outs: seq<DirOut<Dirent>>): seq<Reply>
  {
    if outs == [] then [] else [DirReply(outs[0])] + Wire(outs[1..])
  }

  ghost predicate DirWith(s: Server, h: Id, ds: seq<Dirent>)
  {
    && h in s.files && s.files[h].isDir && s.files[h].owner in s.volumes
    && Listing(s.volumes[s.files[h].owner].fs, s.files[h].path) == Some(ds)
  }

  lemma DirCall(s: Server, c: Call, h: Id, ds: seq<Dirent>)
    requires DirWith(s, h, ds) && DirOpOf(c, h) != []
    ensures var (i, out) := DirStep(ds, s.files[h].cursor, DirOpOf(c, h)[0], RecordSize);
            Step(s, c).1 == DirReply(out) && h in Step(s, c).0.files && Step(s, c).0.files[h].cursor == i
  {
    hide Listing, Body, FileInfo.InfoSize, FileInfo.Encode;
  }

  lemma DirNonCall(s: Server, c: Call, h: Id, ds: seq<Dirent>)
    requires WF(s) && Legal(s, c) && DirWith(s, h, ds) && DirOpOf(c, h) == [] && h in Step(s, c).0.files
    ensures Step(s, c).0.files[h] == s.files[h]
    ensures DirWith(Step(s, c).0, h, ds)
  {
    hide Body, Listing, OpenStep, CloseStep, DeleteStep, GetInfoStep, WF, FileInfo.Encode, FileInfo.InfoSize;
    if (c.Read? || c.SetPosition?) && c.this_ == h {
      CursorFrame(s, c);
    } else {
      Isolation(s, c, h);
    }
  }

  lemma DirWithMoves(s: Server, c: Call, h: Id, ds: seq<Dirent>)
    requires DirWith(s, h, ds) && (c.Read? || c.SetPosition?)
    ensures DirWith(Step(s, c).0, h, ds)
  {
    hide Listing, Step;
    CursorFrame(s, c);
  }

  /** Refinement for directories: a handle answers as an index into the filtered listing would. */
  lemma {:induction false} DirRefinesPlain(s: Server, cs: seq<Call>, h: Id, ds: seq<Dirent>)
    requires WF(s) && LegalRun(s, cs) && StaysOpen(s, cs, h) && DirWith(s, h, ds)
    ensures var (i, outs) := DirRun(ds, s.files[h].cursor, DirOps(cs, h), RecordSize);
            && DirReplies(s, cs, h) == Wire(outs)
            && DirWith(Run(s, cs), h, ds)
            && Run(s, cs).files[h].cursor == i
    decreases |cs|
  {
    hide Step, Listing, WF, DirStep, DirReply;
    if cs != [] {
      var t := Step(s, cs[0]).0;
      StepKeeps(s, cs[0]);
      if DirOpOf(cs[0], h) == [] {
        DirNonCall(s, cs[0], h, ds);
        DirRefinesPlain(t, cs[1..], h, ds);
        assert [] + DirOps(cs[1..], h) == DirOps(cs[1..], h);
      } else {
        DirCall(s, cs[0], h, ds);
        DirWithMoves(s, cs[0], h, ds);
        DirRefinesPlain(t, cs[1..], h, ds);
        DirRunCons(ds, s.files[h].cursor, DirOpOf(cs[0], h)[0], DirOps(cs[1..], h));
        assert DirOpOf(cs[0], h) == [DirOpOf(cs[0], h)[0]];
      }
    }
  }

  lemma DirRunCons(ds: seq<Dirent>, i: nat, op: DirOp, ops: seq<DirOp>)
    ensures var (j, out) := DirStep(ds, i, op, RecordSize);
            var (k, outs) := DirRun(ds, j, ops, RecordSize);
            DirRun(ds, i, [op] + ops, RecordSize) == (k, [out] + outs) &&
              Wire([out] + outs) == [DirReply(out)] + Wire(outs)
  {
    assert ([op] + ops)[1..] == ops;
    var (j, out) := DirStep(ds, i, op, RecordSize);
    var (k, outs) := DirRun(ds, j, ops, RecordSize);
    assert ([out] + outs)[1..] == outs;
  }

  /**
    Listing a directory from its start, with any buffer sizes and anything else going on in between, delivers
    each entry of the listing once and in order, and reports the end only after the last one.
   */
  lemma ListsEachEntryOnce(s: Server, cs: seq<Call>, h: Id, ds: seq<Dirent>)
    requires WF(s) && LegalRun(s, cs) && StaysOpen(s, cs, h) && DirWith(s, h, ds)
    requires s.files[h].cursor == 0 && forall k :: 0 <= k < |DirOps(cs, h)| ==> DirOps(cs, h)[k].Next?
    ensures var (j, outs) := DirRun(ds, 0, DirOps(cs, h), RecordSize);
            && DirReplies(s, cs, h) == Wire(outs)
            && j <= |ds| && Entries(outs) == ds[..j]
            && (forall k :: 0 <= k < |outs| && outs[k].End? ==> j == |ds|)
            && (forall k, l :: 0 <= k < l < |outs| && outs[k].End? ==> outs[l].End?)
  {
    hide Step, Listing, WF;
    DirRefinesPlain(s, cs, h, ds);
    EachEntryOnce(ds, 0, DirOps(cs, h), RecordSize);
    var j := DirRun(ds, 0, DirOps(cs, h), RecordSize).0;
    assert ds[0..j] == ds[..j];
  }

  lemma {:induction false} WireAt(outs: seq<DirOut<Dirent>>)
    ensures |Wire(outs)| == |outs| && forall k :: 0 <= k < |outs| ==> Wire(outs)[k] == DirReply(outs[k])
  {
    hide DirReply;
    if outs != [] { WireAt(outs[1..]); }
  }

  /**
    With buffers large enough for every record, and anything else going on in between, the first Reads return the
    whole listing record by record, and every further one the end.
   */
  lemma RoomyReadsListAll(s: Server, cs: seq<Call>, h: Id, ds: seq<Dirent>)
    requires WF(s) && LegalRun(s, cs) && StaysOpen(s, cs, h) && DirWith(s, h, ds)
    requires s.files[h].cursor == 0 && Roomy(ds, DirOps(cs, h), RecordSize)
    ensures var rs := DirReplies(s, cs, h);
            && |rs| == |DirOps(cs, h)|
            && forall k :: 0 <= k < |rs| ==>
                 rs[k] == if k < |ds| then Answer(Success, RecordSize(ds[k]), Record(ds[k]), 0)
                          else Answer(Success, 0, [], 0)
  {
    hide Step, Listing, WF, RecordSize, Record, Roomy;
    DirRefinesPlain(s, cs, h, ds);
    RoomyReadsAdvance(ds, 0, DirOps(cs, h), RecordSize);
    WireAt(DirRun(ds, 0, DirOps(cs, h), RecordSize).1);
  }

  /** BUFFER_TOO_SMALL leaves the server as it was, and the same Read with the size it reported succeeds. */
  lemma RetryWithReportedSize(s: Server, h: Id, n: u64)
    requires WF(s)
    ensures var (t, r) := Step(s, Read(h, Some(n), true));
            r.status == BufferTooSmall ==>
              && t == s && n < r.size < TWO64
              && Step(s, Read(h, Some(r.size), true)).1.status == Success
              && |Step(s, Read(h, Some(r.size), true)).1.data| == r.size
  {
    hide Listing, Body, WF, ReadStep;
    if h in s.files && s.files[h].owner in s.volumes {
      var f, fs := s.files[h], s.volumes[s.files[h].owner].fs;
      if f.isDir {
        var ds := Listing(fs, f.path);
        ReadDirOutcome(s, h, ds, n, true);
        if ds.Some? && f.cursor < |ds.value| && n < RecordSize(ds.value[f.cursor]) {
          ReadDirOutcome(s, h, ds, RecordSize(ds.value[f.cursor]), true);
        }
      } else {
        ReadFileOutcome(s, h, Body(fs, f.path), n, true);
      }
    } else {
      ReadNotFound(s, h, n, true);
    }
  }

  // --- What records say ---

  /** A directory record decodes to the entry it stands for. */
  lemma RecordDecodes(e: Dirent)
    requires Text.NulFree(e.name) && Text.Bmp(e.name)
    ensures FileInfo.Decode(Record(e)) ==
              Some(FileInfo.Info(RecordSize(e), e.size, e.size, if e.isDir then 0x11 else 0x01, e.name))
  {
    hide FileInfo.Decode, FileInfo.Encode;
    FileInfo.RoundTrip(e.name, e.size, Attributes(e.isDir));
  }

  /**
    GetInfo with room enough describes any handle. An opened one: the last component of its path, the size Stat
    reports for a file and 0 for a directory, read-only always, and the directory bit exactly for directory modes.
    The volume root: no name, size 0, a read-only directory, whatever Stat says about it.
   */
  lemma InfoDescribesHandle(s: Server, h: Id, room: u64)
    requires WF(s) && h in s.files
    requires var name := Paths.BaseName(s.files[h].path);
             Text.NulFree(name) && Text.Bmp(name) && FileInfo.InfoSize(name) <= room
    ensures var name := Paths.BaseName(s.files[h].path);
            var r := GetInfoStep(s, h, Some(true), Some(room), true);
            && s.files[h].owner in s.volumes && r.status == Success && r.size == |r.data|
            && if IsRoot(s.volumes, h, s.files[h].owner) then
                 name == "" && FileInfo.Decode(r.data) == Some(FileInfo.Info(r.size, 0, 0, 0x11, ""))
               else
                 && s.volumes[s.files[h].owner].fs.stat(s.files[h].path).Some?
                 && var st := s.volumes[s.files[h].owner].fs.stat(s.files[h].path).value;
                    var isDir := 0x4000 <= st.mode < 0x5000;
                    var size := if isDir then 0 else st.size;
                    FileInfo.Decode(r.data) ==
                      Some(FileInfo.Info(r.size, size, size, if isDir then 0x11 else 0x01, name))
  {
    hide FileInfo.Decode, FileInfo.Encode, Paths.BaseName, MountsOk;
    var f := s.files[h];
    assert FileOk(s.volumes, h, f);
    assert VolumeOk(s.files, f.owner, s.volumes[f.owner].root);
    assert Paths.BaseName("/") == "" by { RootHasNoName(); }
    FileInfo.RoundTrip(Paths.BaseName(f.path), InfoFileSize(s.volumes[f.owner].fs, f), Attributes(f.isDir));
  }

  lemma RootHasNoName()
    ensures Paths.BaseName("/") == ""
  {
  }

  // --- Opening in steps ---

  /** The handle a read-only Open would create. */
  function Opened(s: Server, h: Id, name: string, id: Id): Option<File>
  {
    var (t, r) := OpenStep(s, h, true, name, 1, id);
    if r.status == Success then Some(t.files[id]) else None
  }

  function AfterOpen(s: Server, h: Id, name: string, id: Id): Server { OpenStep(s, h, true, name, 1, id).0 }

  /** Opening `a` and then a relative `b` from there yields the very handle that opening `a\b` at once would. */
  lemma OpenComposes(s: Server, h: Id, a: string, b: string, x: Id, y: Id)
    requires PathsOk(s) && !Paths.Rooted(b)
    requires Opened(s, h, a, x).Some? && Opened(AfterOpen(s, h, a, x), x, b, y).Some?
    ensures Opened(s, h, a + "\\" + b, y) == Opened(AfterOpen(s, h, a, x), x, b, y)
  {
    hide Paths.JoinPath, Paths.Normal;
    Paths.JoinPathCompose(s.files[h].path, a, b);
  }
}
