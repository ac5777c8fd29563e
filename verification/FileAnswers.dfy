/**
  What each protocol call answers, exactly, in terms of the caller's arguments and the backing file system, with the
  numbers of the specification written out.
 */
module FileAnswers {
  import opened Bytes
  import opened FileServerSpec
  import opened FileRuns
  import opened PlainFiles
  import opened Paths
  import FileInfo
  import Text

  // --- Opening and closing ---

  /** Read access asked for, neither WRITE (bit 1) nor CREATE (bit 63). */
  predicate ReadOnlyMode(mode: u64) { mode % 2 == 1 && mode / 2 % 2 == 0 && mode < 0x8000_0000_0000_0000 }

  /** Open succeeds exactly on a live handle, read-only, for a name whose path Stat knows, with a free handle left. */
  lemma OpenSucceedsExactly(s: Server, h: Id, hasOut: bool, name: string, mode: u64, alloc: Id)
    requires WF(s)
    ensures var (t, r) := Step(s, Open(h, hasOut, name, mode, alloc));
            && (r.status == Success <==>
                  && h in s.files && hasOut && ReadOnlyMode(mode) && name != ""
                  && s.volumes[s.files[h].owner].fs.stat(JoinPath(s.files[h].path, name)).Some?
                  && |s.files| < 32)
            && (r.status != Success ==> t == s)
            && (r.status == Success ==>
                  && r.id == alloc && alloc in t.files
                  && t.files[alloc].owner == s.files[h].owner && t.files[alloc].cursor == 0
                  && t.files[alloc].path == JoinPath(s.files[h].path, name)
                  && var mode := s.volumes[s.files[h].owner].fs.stat(t.files[alloc].path).value.mode;
                     t.files[alloc].isDir <==> 0x4000 <= mode < 0x5000)
  {
    hide JoinPath, VolumesOk, MountsOk;
    if h in s.files { assert FileOk(s.volumes, h, s.files[h]); }
  }

  /** Each refusal of Open has its own status. */
  lemma OpenRefusals(s: Server, h: Id, hasOut: bool, name: string, mode: u64, alloc: Id)
    requires WF(s)
    ensures var st := Step(s, Open(h, hasOut, name, mode, alloc)).1.status;
            && (h !in s.files ==> st == NotFound)
            && (h in s.files && !hasOut ==> st == InvalidParameter)
            && (st == WriteProtected <==>
                  h in s.files && hasOut && (mode / 2 % 2 == 1 || mode >= 0x8000_0000_0000_0000))
            && (h in s.files && hasOut && ReadOnlyMode(mode) && name == "" ==> st == InvalidParameter)
            && (h in s.files && hasOut && mode / 2 % 2 == 0 && mode < 0x8000_0000_0000_0000 && mode % 2 == 0 ==>
                  st == InvalidParameter)
            && (h in s.files && hasOut && ReadOnlyMode(mode) && name != "" ==>
                  var known := s.volumes[s.files[h].owner].fs.stat(JoinPath(s.files[h].path, name)).Some?;
                  (st == NotFound <==> !known) && (st == OutOfResources <==> known && |s.files| >= 32))
  {
    hide JoinPath, VolumesOk, MountsOk;
    if h in s.files { assert FileOk(s.volumes, h, s.files[h]); }
  }

  /** Close and Delete take away an opened handle and spare a volume root; only Delete reports an unknown one. */
  lemma CloseExactly(s: Server, h: Id)
    requires WF(s)
    ensures var (t, r) := Step(s, Close(h));
            && r == Plain(Success)
            && (h in t.files <==> h in s.files && s.volumes[s.files[h].owner].root == h)
            && (h in s.files && s.volumes[s.files[h].owner].root == h ==> t == s)
    ensures Step(s, Delete(h)) ==
              if h in s.files then (Step(s, Close(h)).0, Plain(WarnDeleteFailure)) else (s, Plain(NotFound))
  {
    hide VolumesOk, MountsOk, Known;
    if h in s.files { assert FileOk(s.volumes, h, s.files[h]); }
  }

  // --- Publishing ---

  /**
    Publishing succeeds exactly with a file system, boot services, both registries free and the firmware's consent.
    Then OpenVolume answers the root handle, the root is the directory "/" of that file system, at its start, and
    the volume is found under the firmware's handle.
   */
  lemma PublishSucceedsExactly(s: Server, handle: Id, fs: Option<FileSystem>, proto: Id, root: Id, fw: Firmware)
    requires WF(s) && Legal(s, Publish(handle, fs, proto, root, fw))
    ensures var (t, r) := Step(s, Publish(handle, fs, proto, root, fw));
            && (r.error == None <==> fs.Some? && fw.Accepted? && |s.volumes| < 4 && |s.files| < 32)
            && (r.error != None ==> t == s && r.handle == 0)
            && (r.error == None ==>
                  && r.handle == fw.handle && r.handle in t.mounts && t.mounts[r.handle] == proto
                  && Step(t, OpenVolume(proto, true)).1 == Answer(Success, 0, [], root)
                  && proto in t.volumes && t.volumes[proto].fs == fs.value
                  && root in t.files && t.files[root] == File(proto, "/", true, 0))
  {
  }

  /** Which error a failed Publish or Unpublish reports; the first that applies. */
  lemma PublishErrors(s: Server, handle: Id, fs: Option<FileSystem>, proto: Id, root: Id, fw: Firmware)
    ensures var e := Step(s, Publish(handle, fs, proto, root, fw)).1.error;
            && (e == Some(NilFilesystem) <==> fs == None)
            && (e == Some(NoBootServicesTable) <==> fs.Some? && fw == NoBootServices)
            && (e == Some(RegistryFull) <==> fs.Some? && fw != NoBootServices && |s.volumes| >= 4)
            && (e == Some(HandleRegistryFull) <==>
                  fs.Some? && fw != NoBootServices && |s.volumes| < 4 && |s.files| >= 32)
    ensures var e := Step(s, Unpublish(handle, fw)).1.error;
            && (e == Some(NotPublished) <==> handle == 0 || handle !in s.mounts)
            && (e == Some(NoBootServicesTable) <==> handle != 0 && handle in s.mounts && fw == NoBootServices)
            && (e == Some(EfiError) <==> handle != 0 && handle in s.mounts && fw == Refused)
  {
  }

  // --- Refusals of the other calls ---

  /** A live directory has no position but 0; a NULL out parameter is refused after the handle is found. */
  lemma PositionAnswers(s: Server, h: Id, pos: u64, hasOut: bool)
    requires WF(s) && h in s.files
    ensures var r := Step(s, GetPosition(h, hasOut)).1;
            if s.files[h].isDir then r == Plain(Unsupported)
            else if hasOut then r == Answer(Success, s.files[h].cursor, [], 0) else r == Plain(InvalidParameter)
    ensures s.files[h].isDir && pos != 0 ==> Step(s, SetPosition(h, pos)) == (s, Plain(Unsupported))
    ensures s.files[h].isDir ==>
              var (t, r) := Step(s, SetPosition(h, 0));
              r == Plain(Success) && h in t.files && t.files[h] == s.files[h].(cursor := 0)
  {
    hide Body;
  }

  /** Read wants a size pointer, and a buffer whenever there is something to deliver; OpenVolume an out parameter. */
  lemma NullArguments(s: Server, h: Id, n: u64)
    requires WF(s)
    ensures h in s.files ==> Step(s, Read(h, None, true)) == (s, Answer(InvalidParameter, 0, [], 0))
    ensures var (t, r) := Step(s, Read(h, Some(n), true));
            r.data != [] ==> Step(s, Read(h, Some(n), false)) == (s, Answer(InvalidParameter, n, [], 0))
    ensures h in s.volumes ==> Step(s, OpenVolume(h, false)).1 == Plain(InvalidParameter)
  {
    hide VolumesOk, MountsOk, Listing, Body, Record, Known;
    if h in s.files { assert FileOk(s.volumes, h, s.files[h]); }
  }

  /** GetInfo knows EFI_FILE_INFO only, reports the size it needs, and leaves too small a buffer alone. */
  lemma GetInfoRefusals(s: Server, h: Id, guid: Option<bool>, room: Option<u64>, hasBuffer: bool)
    requires WF(s) && h in s.files
    ensures var r := Step(s, GetInfo(h, guid, room, hasBuffer)).1;
            && (guid == None || room == None ==> r.status == InvalidParameter)
            && (r.status == Unsupported <==> guid == Some(false) && room.Some?)
            && (guid == Some(true) && room.Some? ==>
                  var need := 82 + 2 * |BaseName(s.files[h].path)|;
                  && (r.status == BufferTooSmall <==> room.value < need)
                  && (r.status == BufferTooSmall ==> r.size == need)
                  && (room.value >= need && !hasBuffer ==> r.status == InvalidParameter)
                  && (r.status == Success <==> room.value >= need && hasBuffer))
            && (r.status != Success ==> r.data == [])
  {
    hide VolumesOk, MountsOk, BaseName, Known;
    assert FileOk(s.volumes, h, s.files[h]);
  }

  // --- What a directory lists ---

  /** The entries a caller gets to see. */
  function Shown(es: seq<DirEntry>): seq<DirEntry>
  {
    if es == [] then []
    else if es[0].name == "." || es[0].name == ".." then Shown(es[1..])
    else [es[0]] + Shown(es[1..])
  }

  /** Attribute and size of an entry: from Stat of its path if that succeeds, else from its type byte. */
  predicate Describes(fs: Backing, full: string, e: DirEntry, attr: nat, size: nat)
  {
    match fs.stat(full)
    case Some(st) => size == st.size && attr == if 0x4000 <= st.mode < 0x5000 then 0x11 else 0x01
    case None => size == 0 && attr == if e.fileType == 4 then 0x11 else 0x01
  }

  predicate EntryFor(fs: Backing, path: string, e: DirEntry, d: Dirent)
  {
    d.name == e.name && Describes(fs, JoinPath(path, e.name), e, if d.isDir then 0x11 else 0x01, d.size)
  }

  lemma {:induction false} ListedShown(fs: Backing, path: string, es: seq<DirEntry>)
    ensures var ds := Listed(fs, path, es);
            |ds| == |Shown(es)| && forall k :: 0 <= k < |ds| ==> EntryFor(fs, path, Shown(es)[k], ds[k])
    decreases |es|
  {
    hide Describe, EntryFor;
    if es != [] {
      ListedShown(fs, path, es[1..]);
      DescribedRight(fs, path, es[0]);
    }
  }

  lemma DescribedRight(fs: Backing, path: string, e: DirEntry)
    ensures EntryFor(fs, path, e, Describe(fs, path, e))
  {
    hide JoinPath;
  }

  /** A record a client decodes to this entry. */
  ghost predicate Reports(fs: Backing, path: string, e: DirEntry, r: Reply)
  {
    && r.Answer? && r.status == Success && r.size == |r.data| == 82 + 2 * |e.name|
    && FileInfo.Decode(r.data).Some?
    && var info := FileInfo.Decode(r.data).value;
       && info.size == r.size && info.name == e.name && info.physicalSize == info.fileSize
       && Describes(fs, JoinPath(path, e.name), e, info.attribute, info.fileSize)
  }

  lemma EntryReports(fs: Backing, path: string, e: DirEntry, d: Dirent)
    requires EntryFor(fs, path, e, d) && Text.NulFree(e.name) && Text.Bmp(e.name)
    ensures Reports(fs, path, e, Answer(Success, RecordSize(d), Record(d), 0))
  {
    hide JoinPath, FileInfo.Decode, FileInfo.Encode;
    RecordDecodes(d);
  }

  /** Reads with a buffer for every record that may come. */
  ghost predicate Ample(es: seq<DirEntry>, ops: seq<DirOp>)
  {
    forall k :: 0 <= k < |ops| ==> ops[k].Next? && forall e :: e in es ==> 82 + 2 * |e.name| <= ops[k].room
  }

  lemma AmpleRoomy(es: seq<DirEntry>, ds: seq<Dirent>, ops: seq<DirOp>)
    requires Ample(es, ops) && |ds| == |es| && forall k :: 0 <= k < |ds| ==> ds[k].name == es[k].name
    ensures Roomy(ds, ops, RecordSize)
  {
    forall k, d | 0 <= k < |ops| && d in ds
      ensures RecordSize(d) <= ops[k].room
    {
      var i :| 0 <= i < |ds| && ds[i] == d;
      assert es[i] in es;
    }
  }

  /**
    From ListDir and Stat to the records: through any interleaving of calls, Reads with ample buffers on a directory
    handle at its start return one record for each entry of ListDir but "." and "..", in that order, and then the
    end. Each decodes to the entry's name, the size Stat gives and the directory bit exactly for modes 0x4xxx; where
    Stat fails, to size 0 and the directory bit exactly for type byte 4.
   */
  lemma DirectoryReports(s: Server, cs: seq<Call>, h: Id, es: seq<DirEntry>)
    requires WF(s) && LegalRun(s, cs) && StaysOpen(s, cs, h) && h in s.files
    requires s.files[h].isDir && s.files[h].cursor == 0 && s.files[h].owner in s.volumes
    requires s.volumes[s.files[h].owner].fs.listDir(s.files[h].path) == Some(es)
    requires forall e :: e in Shown(es) ==> Text.NulFree(e.name) && Text.Bmp(e.name)
    requires Ample(Shown(es), DirOps(cs, h))
    ensures var fs, path, rs := s.volumes[s.files[h].owner].fs, s.files[h].path, DirReplies(s, cs, h);
            && |rs| == |DirOps(cs, h)|
            && forall k :: 0 <= k < |rs| ==>
                 if k < |Shown(es)| then Reports(fs, path, Shown(es)[k], rs[k]) else rs[k] == Answer(Success, 0, [], 0)
  {
    hide Step, WF, Record, Reports, EntryFor, Ample, Roomy, LegalRun, StaysOpen, DirReplies;
    var fs, path := s.volumes[s.files[h].owner].fs, s.files[h].path;
    var ds := Listed(fs, path, es);
    ListedShown(fs, path, es);
    forall k | 0 <= k < |ds|
      ensures ds[k].name == Shown(es)[k].name
      ensures Reports(fs, path, Shown(es)[k], Answer(Success, RecordSize(ds[k]), Record(ds[k]), 0))
    {
      NameOfEntry(fs, path, Shown(es)[k], ds[k]);
      assert Shown(es)[k] in Shown(es);
      EntryReports(fs, path, Shown(es)[k], ds[k]);
    }
    AmpleRoomy(Shown(es), ds, DirOps(cs, h));
    RoomyReadsListAll(s, cs, h, ds);
  }

  lemma NameOfEntry(fs: Backing, path: string, e: DirEntry, d: Dirent)
    requires EntryFor(fs, path, e, d)
    ensures d.name == e.name
  {
  }

  /** A directory that cannot be listed answers every Read with a device error and does not move. */
  lemma UnlistableDirectory(s: Server, h: Id, n: u64, hasBuffer: bool)
    requires WF(s) && h in s.files && s.files[h].isDir
    requires s.volumes[s.files[h].owner].fs.listDir(s.files[h].path) == None
    ensures Step(s, Read(h, Some(n), hasBuffer)) == (s, Answer(DeviceError, n, [], 0))
  {
    hide VolumesOk, MountsOk, Known;
    assert FileOk(s.volumes, h, s.files[h]);
  }

  /** What GetInfo says, decoded, on the handle that opening `name` read-only from `h` yields. */
  function OpenedInfo(s: Server, h: Id, name: string, alloc: Id, room: u64): Option<FileInfo.Info>
  {
    var (t, o) := Step(s, Open(h, true, name, 1, alloc));
    if o.status != Success then None
    else
      var r := Step(t, GetInfo(alloc, Some(true), Some(room), true)).1;
      if r.status == Success then FileInfo.Decode(r.data) else None
  }

  /** The conditions under which both exist. */
  ghost predicate Openable(s: Server, h: Id, name: string, alloc: Id, room: u64)
  {
    && h in s.files && Normal(s.files[h].path) && s.files[h].owner in s.volumes
    && |s.files| < 32 && alloc != 0 && alloc !in Live(s)
    && CleanName(name) && Text.NulFree(name) && Text.Bmp(name) && 82 + 2 * |name| <= room
    && s.volumes[s.files[h].owner].fs.stat(JoinPath(s.files[h].path, name)).Some?
  }

  lemma InfoAfterOpen(s: Server, h: Id, name: string, alloc: Id, room: u64)
    requires WF(s) && Openable(s, h, name, alloc, room)
    ensures var st := s.volumes[s.files[h].owner].fs.stat(JoinPath(s.files[h].path, name)).value;
            var isDir := 0x4000 <= st.mode < 0x5000;
            var size := if isDir then 0 else st.size;
            OpenedInfo(s, h, name, alloc, room) ==
              Some(FileInfo.Info(82 + 2 * |name|, size, size, if isDir then 0x11 else 0x01, name))
  {
    hide JoinPath, FileInfo.Decode, FileInfo.Encode, BaseName, Normal, WF, Step;
    var c := Open(h, true, name, 1, alloc);
    OpenSucceedsExactly(s, h, true, name, 1, alloc);
    StepKeeps(s, c);
    OpenFrame(s, c);
    var t := Step(s, c).0;
    LastComponent(s.files[h].path, name);
    FreshIsNoRoot(s, t, alloc, s.files[h].owner);
    InfoDescribesHandle(t, alloc, room);
    GetInfoRefusals(t, alloc, Some(true), Some(room), true);
    GetInfoIs(t, alloc, room);
  }

  lemma GetInfoIs(t: Server, h: Id, room: u64)
    ensures Step(t, GetInfo(h, Some(true), Some(room), true)).1 == GetInfoStep(t, h, Some(true), Some(room), true)
  {
    hide GetInfoStep;
  }

  /**
    A record and GetInfo on the handle that Open of its name yields: name and attribute agree always, the sizes
    exactly for files and for directories of Stat size 0, since GetInfo reports 0 for every directory.
   */
  lemma RecordAgreesWithInfo(s: Server, h: Id, e: DirEntry, r: Reply, alloc: Id, room: u64)
    requires WF(s) && Openable(s, h, e.name, alloc, room)
    requires Reports(s.volumes[s.files[h].owner].fs, s.files[h].path, e, r)
    ensures var a, b := FileInfo.Decode(r.data), OpenedInfo(s, h, e.name, alloc, room);
            && a.Some? && b.Some?
            && a.value.name == b.value.name == e.name && a.value.attribute == b.value.attribute
            && (a.value.fileSize == b.value.fileSize <==> a.value.attribute == 0x01 || a.value.fileSize == 0)
  {
    hide JoinPath, FileInfo.Decode, OpenedInfo, WF, Normal;
    InfoAfterOpen(s, h, e.name, alloc, room);
  }

  lemma LastComponent(path: string, name: string)
    requires Normal(path) && CleanName(name)
    ensures BaseName(JoinPath(path, name)) == name
  {
    JoinPathNormal(path, name);
    BaseNameLast(JoinPath(path, name));
    JoinPathOne(path, name);
    ComponentsRender(Components(path) + [name]);
  }

  lemma FreshIsNoRoot(s: Server, t: Server, alloc: Id, owner: Id)
    requires WF(s) && alloc !in Live(s) && t.volumes == s.volumes && owner in s.volumes
    ensures !IsRoot(t.volumes, alloc, owner)
  {
    assert VolumeOk(s.files, owner, s.volumes[owner].root);
  }
}
