/**
  The published file server: registry scans, slot reservation with rollback, lazily filled caches and
  caller buffers. Every entry point is proved to be the corresponding step of the specification.
 */
module FileServers {
  import opened Bytes
  import opened Text
  import opened Paths
  import opened FileServerSpec
  import opened FileTables
  import FileInfo

  /** What Unpublish needs to know about one published volume. */
  datatype Mount = Mount(protocol: Id, slot: nat)

  ghost predicate MountTable(mounted: map<Id, Mount>, mounts: map<Id, Id>, ps: seq<PublishEntry>)
  {
    && mounted.Keys == mounts.Keys
    && forall h :: h in mounted ==>
         mounted[h].protocol == mounts[h] && mounted[h].slot < |ps| && ps[mounted[h].slot].proto == mounts[h]
  }

  class FileServer {
    const pubs: array<PublishEntry>
    const files: array<FileEntry>
    var mounted: map<Id, Mount>
    ghost var state: Server

    ghost predicate Valid()
      reads this, pubs, files
    {
      && pubs.Length == VOLUMES && files.Length == HANDLES
      && WF(state)
      && PublishTable(pubs[..], state.volumes)
      && FileTable(files[..], state.files, state.volumes)
      && MountTable(mounted, state.mounts, pubs[..])
    }

    constructor ()
      ensures Valid() && state == Boot()
      ensures fresh(pubs) && fresh(files)
    {
      pubs := new PublishEntry[VOLUMES](_ => FREE_PUBLISH);
      files := new FileEntry[HANDLES](_ => FREE_FILE);
      mounted := map[];
      state := Boot();
    }

    // --- Registry scans ---

    method LookupVolume(this_: Id) returns (slot: int)
      requires Valid()
      ensures if this_ in state.volumes then 0 <= slot < VOLUMES && pubs[slot].proto == this_ else slot == -1
    {
      hide WF, FileTable, MountTable;
      for i := 0 to VOLUMES
        invariant forall k :: 0 <= k < i ==> pubs[..][k].proto == 0 || pubs[..][k].proto != this_
      {
        if pubs[i].proto == this_ && pubs[i].proto != 0 {
          assert pubs[..][i].proto != 0;
          return i;
        }
      }
      slot := -1;
    }

    method LookupFile(this_: Id) returns (slot: int)
      requires Valid()
      ensures if this_ in state.files then 0 <= slot < HANDLES && files[slot].proto == this_ && this_ != 0
              else slot == -1
    {
      hide CacheOk, FileOf, WF;
      for i := 0 to HANDLES
        invariant forall k :: 0 <= k < i ==> files[..][k].proto == 0 || files[..][k].proto != this_
      {
        if files[i].proto == this_ && files[i].proto != 0 {
          assert Shows(files[..][i], state.files, state.volumes);
          return i;
        }
      }
      slot := -1;
    }

    /** The first free handle slot, or -1. */
    method AllocFile() returns (slot: int)
      requires files.Length == HANDLES
      ensures -1 <= slot < HANDLES
      ensures slot >= 0 ==> files[slot].proto == 0
      ensures slot == -1 ==> forall k :: 0 <= k < HANDLES ==> files[..][k].proto != 0
    {
      for i := 0 to HANDLES
        invariant forall k :: 0 <= k < i ==> files[..][k].proto != 0
      {
        if files[i].proto == 0 { return i; }
      }
      slot := -1;
    }

    method AllocPublish() returns (slot: int)
      requires pubs.Length == VOLUMES
      ensures -1 <= slot < VOLUMES
      ensures slot >= 0 ==> pubs[slot].proto == 0
      ensures slot == -1 ==> forall k :: 0 <= k < VOLUMES ==> pubs[..][k].proto != 0
    {
      for i := 0 to VOLUMES
        invariant forall k :: 0 <= k < i ==> pubs[..][k].proto != 0
      {
        if pubs[i].proto == 0 { return i; }
      }
      slot := -1;
    }

    // --- Publishing ---

    /**
      Reserves both slots before the firmware install and gives them back when it fails. `proto` and `root`
      are the addresses of the two protocol structures just allocated, `fw` is the firmware's answer.
     */
    method Publish(handle: Id, fs: Option<FileSystem>, proto: Id, root: Id, fw: Firmware)
      returns (error: Option<PublishError>, out: Id)
      requires Valid() && Legal(state, Call.Publish(handle, fs, proto, root, fw))
      modifies `state, `mounted, pubs, files
      ensures Valid()
      ensures (state, Publication(error, out)) == Step(old(state), Call.Publish(handle, fs, proto, root, fw))
    {
      hide WF, FileTable, PublishTable, MountTable, Live;
      if fs.None? { return Some(NilFilesystem), 0; }
      if fw.NoBootServices? { return Some(NoBootServicesTable), 0; }
      ghost var ps, es := pubs[..], files[..];
      VolumesFull(ps, state.volumes);
      FilesFull(es, state.files, state.volumes);
      var slot := AllocPublish();
      if slot < 0 { return Some(RegistryFull), 0; }
      assert ps[slot].proto == 0;
      pubs[slot] := PublishEntry(proto, root, fs);
      assert pubs[..] == ps[slot := PublishEntry(proto, root, fs)];
      var rootSlot := AllocFile();
      if rootSlot < 0 {
        pubs[slot] := FREE_PUBLISH;
        assert pubs[..] == ps[slot := FREE_PUBLISH];
        PublishRolledBack(mounted, state, ps, slot);
        return Some(HandleRegistryFull), 0;
      }
      assert es[rootSlot].proto == 0;
      files[rootSlot] := NewFile(root, proto, "/", true);
      assert files[..] == es[rootSlot := NewFile(root, proto, "/", true)];
      if fw.Refused? {
        pubs[slot] := FREE_PUBLISH;
        files[rootSlot] := FREE_FILE;
        assert pubs[..] == ps[slot := FREE_PUBLISH];
        assert files[..] == es[rootSlot := FREE_FILE];
        PublishRolledBack(mounted, state, ps, slot);
        FileErase(es, state.files, state.volumes, rootSlot);
        return Some(EfiError), 0;
      }
      out := fw.handle;
      StepKeeps(state, Call.Publish(handle, fs, proto, root, fw));
      PublishCommits(ps, slot, es, rootSlot, state, fs.value, proto, root);
      PublishMounts(mounted, state, ps, slot, PublishEntry(proto, root, fs), out);
      mounted := mounted[out := Mount(proto, slot)];
      state := Step(state, Call.Publish(handle, fs, proto, root, fw)).0;
      error := None;
    }

    method SweepFiles(owner: Id)
      requires files.Length == HANDLES
      modifies files
      ensures forall k :: 0 <= k < HANDLES ==>
                files[..][k] == if old(files[..])[k].owner == owner then FREE_FILE else old(files[..])[k]
    {
      for i := 0 to HANDLES
        invariant forall k :: 0 <= k < HANDLES ==>
                    files[k] == if k < i && old(files[..])[k].owner == owner then FREE_FILE else old(files[..])[k]
      {
        if files[i].owner == owner { files[i] := FREE_FILE; }
      }
    }

    /** Uninstalls the protocol, then frees the publisher slot and every handle the volume owns. */
    method Unpublish(handle: Id, fw: Firmware) returns (error: Option<PublishError>)
      requires Valid()
      modifies `state, `mounted, pubs, files
      ensures Valid()
      ensures var (t, r) := Step(old(state), Call.Unpublish(handle, fw));
              state == t && error == r.error
    {
      hide WF, FileTable, PublishTable;
      if handle == 0 { return Some(NotPublished); }
      if handle !in mounted { return Some(NotPublished); }
      var m := mounted[handle];
      if fw.NoBootServices? { return Some(NoBootServicesTable); }
      if fw.Refused? { return Some(EfiError); }
      ghost var ps, es := pubs[..], files[..];
      if m.slot < VOLUMES { pubs[m.slot] := FREE_PUBLISH; }
      assert pubs[..] == ps[m.slot := FREE_PUBLISH];
      SweepFiles(m.protocol);
      PublishClear(ps, state.volumes, m.slot);
      FileSweep(es, files[..], state.files, state.volumes, m.protocol);
      UnpublishMounts(mounted, state, ps, handle);
      StepKeeps(state, Call.Unpublish(handle, fw));
      mounted := mounted - {handle};
      state := Step(state, Call.Unpublish(handle, fw)).0;
      error := None;
    }

    // --- EFI_SIMPLE_FILE_SYSTEM_PROTOCOL ---

    method OpenVolume(this_: Id, hasOut: bool) returns (status: Status, root: Id)
      requires Valid()
      ensures Answer(status, 0, [], root) == Step(state, Call.OpenVolume(this_, hasOut)).1
    {
      hide WF, FileTable, MountTable;
      var slot := LookupVolume(this_);
      if slot < 0 { return NotFound, 0; }
      if !hasOut { return InvalidParameter, 0; }
      assert pubs[..][slot].proto == this_;
      return Success, pubs[slot].rootFileProto;
    }

    // --- EFI_FILE_PROTOCOL ---

    /** The file system and table entry behind a live handle. */
    method Resolve(this_: Id) returns (slot: int, fs: Option<FileSystem>)
      requires Valid()
      ensures if this_ in state.files then
                && 0 <= slot < HANDLES && files[slot].proto == this_ && this_ != 0
                && Shows(files[slot], state.files, state.volumes)
                && fs == Some(state.volumes[files[slot].owner].fs)
              else slot == -1
    {
      hide WF, MountTable, CacheOk, FileOf;
      slot := LookupFile(this_);
      if slot < 0 { return -1, None; }
      assert files[..][slot].proto == this_;
      assert Shows(files[..][slot], state.files, state.volumes);
      var p := LookupVolume(files[slot].owner);
      assert pubs[..][p].proto == files[slot].owner;
      fs := pubs[p].fs;
    }

    method Open(this_: Id, hasOut: bool, fileName: Option<seq<u16>>, mode: u64, alloc: Id)
      returns (status: Status, newHandle: Id)
      requires Valid() && Name16(fileName) && alloc != 0 && alloc !in Live(state)
      modifies `state, files
      ensures Valid()
      ensures (state, Answer(status, 0, [], newHandle)) ==
                Step(old(state), Call.Open(this_, hasOut, ArgName(fileName), mode, alloc))
    {
      hide WF, FileTable, PublishTable, MountTable, JoinPath, NameOf, OpenPath, CacheOk;
      newHandle := 0;
      var parent, fs := Resolve(this_);
      if parent < 0 { return NotFound, 0; }
      if !hasOut { return InvalidParameter, 0; }
      if mode / 2 % 2 != 0 || mode / 0x8000_0000_0000_0000 % 2 != 0 { return WriteProtected, 0; }
      if mode % 2 == 0 { return InvalidParameter, 0; }
      var name := ReadUcs2(fileName);
      if name == "" { return InvalidParameter, 0; }
      var full := ResolvePath(files[parent].path, name);
      status, newHandle := OpenResolved(files[parent].owner, fs.value, full, alloc);
    }

    /** The rest of an open, once the path is resolved. */
    method OpenResolved(owner: Id, fs: FileSystem, full: string, alloc: Id) returns (status: Status, newHandle: Id)
      requires Valid() && owner in state.volumes && fs == state.volumes[owner].fs
      requires alloc != 0 && alloc !in Live(state)
      modifies `state, files
      ensures Valid()
      ensures (state, Answer(status, 0, [], newHandle)) == OpenPath(old(state), owner, full, alloc)
    {
      hide WF, FileTable, PublishTable, MountTable;
      var st := fs.stat(full);
      if st.None? { return NotFound, 0; }
      var isDir := DirMode(st.value.mode);
      var slot := AllocFile();
      FilesFull(files[..], state.files, state.volumes);
      if slot < 0 { return OutOfResources, 0; }
      OpenKeeps(state, owner, full, alloc);
      Insert(slot, NewFile(alloc, owner, full, isDir));
      return Success, alloc;
    }

    /** Fills a free slot with a new handle. */
    method Insert(slot: nat, e: FileEntry)
      requires Valid() && slot < HANDLES && files[slot].proto == 0
      requires e.proto != 0 && e.proto !in state.files
      requires e.owner in state.volumes && CacheOk(e, state.volumes[e.owner].fs)
      requires WF(state.(files := state.files[e.proto := FileOf(e)]))
      modifies `state, files
      ensures Valid() && state == old(state).(files := old(state).files[e.proto := FileOf(e)])
    {
      hide WF, FileTable, PublishTable, MountTable, CacheOk, FileOf;
      ghost var es := files[..];
      assert es[slot].proto == 0;
      FilePut(es, state.files, state.volumes, slot, e);
      files[slot] := e;
      assert files[..] == es[slot := e];
      state := state.(files := state.files[e.proto := FileOf(e)]);
    }

    /** Always succeeds; the volume root and unknown handles are left alone. */
    method Close(this_: Id) returns (status: Status)
      requires Valid()
      modifies `state, files
      ensures Valid()
      ensures (state, Plain(status)) == Step(old(state), Call.Close(this_))
    {
      hide WF, FileTable, MountTable, CacheOk;
      status := Success;
      var slot := LookupFile(this_);
      if slot < 0 { return; }
      ghost var es := files[..];
      FileShown(es, state.files, state.volumes, slot);
      var owner := LookupVolume(files[slot].owner);
      assert pubs[..][owner].proto == files[slot].owner;
      if owner >= 0 && pubs[owner].rootFileProto != 0 && files[slot].proto == pubs[owner].rootFileProto { return; }
      StepKeeps(state, Call.Close(this_));
      FileClear(es, state.files, state.volumes, slot);
      files[slot] := FREE_FILE;
      assert files[..] == es[slot := FREE_FILE];
      state := Step(state, Call.Close(this_)).0;
    }

    method Delete(this_: Id) returns (status: Status)
      requires Valid()
      modifies `state, files
      ensures Valid()
      ensures (state, Plain(status)) == Step(old(state), Call.Delete(this_))
    {
      hide WF, FileTable, PublishTable, MountTable, CloseStep;
      var slot := LookupFile(this_);
      if slot < 0 { return NotFound; }
      var _ := Close(this_);
      return WarnDeleteFailure;
    }

    /** Replaces the entry of a live handle by one with another cursor. */
    method Store(slot: nat, e: FileEntry, ghost cursor: nat)
      requires Valid() && slot < HANDLES
      requires files[slot].proto != 0 && files[slot].proto == e.proto && e.proto in state.files
      requires FileOf(e) == state.files[e.proto].(cursor := cursor)
      requires e.owner in state.volumes && CacheOk(e, state.volumes[e.owner].fs)
      requires WF(Moved(state, e.proto, cursor))
      modifies `state, files
      ensures Valid() && state == Moved(old(state), e.proto, cursor)
      ensures files[..] == old(files[..])[slot := e]
    {
      hide WF, FileTable, PublishTable, MountTable, CacheOk, FileOf;
      ghost var es := files[..];
      assert es[slot].proto == e.proto;
      FilePut(es, state.files, state.volumes, slot, e);
      files[slot] := e;
      assert files[..] == es[slot := e];
      state := Moved(state, e.proto, cursor);
    }

    /** Fills a cache: the abstract state does not notice. */
    method StoreCache(slot: nat, e: FileEntry)
      requires Valid() && slot < HANDLES && files[slot].proto != 0
      requires Shows(files[slot], state.files, state.volumes)
      requires e.proto == files[slot].proto && FileOf(e) == FileOf(files[slot])
      requires e.owner in state.volumes && CacheOk(e, state.volumes[e.owner].fs)
      modifies `state, files
      ensures Valid() && state == old(state)
      ensures files[..] == old(files[..])[slot := e]
    {
      hide WF, FileTable, PublishTable, MountTable, CacheOk, FileOf;
      assert state.files[e.proto := state.files[e.proto]] == state.files;
      assert Moved(state, e.proto, state.files[e.proto].cursor) == state;
      Store(slot, e, state.files[e.proto].cursor);
    }

    /** The contents of a file, read from the backing file system at most once per handle unless nil. */
    method LoadBody(slot: nat, fs: FileSystem) returns (body: Option<GoBytes>)
      requires Valid() && slot < HANDLES && files[slot].proto != 0
      requires Shows(files[slot], state.files, state.volumes) && fs == state.volumes[files[slot].owner].fs
      modifies `state, files
      ensures Valid() && state == old(state)
      ensures body == Body(fs, files[slot].path)
      ensures files[slot].proto == old(files[slot].proto) && files[slot].owner == old(files[slot].owner)
      ensures files[slot].pos == old(files[slot].pos) && files[slot].isDir == old(files[slot].isDir)
      ensures files[slot].path == old(files[slot].path)
      ensures Shows(files[slot], state.files, state.volumes)
    {
      hide WF, FileTable, PublishTable, MountTable, Listing;
      var e := files[slot];
      if e.body.None? && !e.bodyErr {
        var r := fs.readFile(e.path);
        if r.None? {
          StoreCache(slot, e.(bodyErr := true));
          return None;
        }
        StoreCache(slot, e.(body := r.value));
      }
      if files[slot].bodyErr { return None; }
      body := Some(if files[slot].body.None? then [] else files[slot].body.value);
    }

    static method DescribeEntry(fs: FileSystem, path: string, e: DirEntry) returns (d: Dirent)
      ensures d == Describe(fs, path, e)
    {
      hide JoinPath;
      var full := ResolvePath(path, e.name);
      var st := fs.stat(full);
      if st.Some? {
        d := Dirent(e.name, DirMode(st.value.mode), st.value.size);
      } else {
        d := Dirent(e.name, e.fileType == 4, 0);
      }
    }

    static method ListEntries(fs: FileSystem, path: string) returns (dirents: Option<seq<Dirent>>)
      ensures dirents == Listing(fs, path)
    {
      hide Listed, Describe;
      var entries := fs.listDir(path);
      if entries.None? { return None; }
      var es := entries.value;
      var cached: seq<Dirent> := [];
      assert es[0..] == es;
      for i := 0 to |es|
        invariant cached + Listed(fs, path, es[i..]) == Listed(fs, path, es)
      {
        ListedNext(fs, path, es, i, cached);
        if es[i].name == "." || es[i].name == ".." {
        } else {
          var d := DescribeEntry(fs, path, es[i]);
          cached := cached + [d];
        }
      }
      ListedStep(fs, path, es, |es|);
      assert cached + [] == cached;
      dirents := Some(cached);
    }

    /** The listing of a directory, filled in once per handle. */
    method LoadDirents(slot: nat, fs: FileSystem) returns (dirents: Option<seq<Dirent>>)
      requires Valid() && slot < HANDLES && files[slot].proto != 0
      requires Shows(files[slot], state.files, state.volumes) && fs == state.volumes[files[slot].owner].fs
      modifies `state, files
      ensures Valid() && state == old(state)
      ensures dirents == Listing(fs, files[slot].path)
      ensures dirents.Some? ==> files[slot].dirents == dirents
      ensures files[slot].proto == old(files[slot].proto) && files[slot].owner == old(files[slot].owner)
      ensures files[slot].isDir == old(files[slot].isDir) && files[slot].path == old(files[slot].path)
      ensures Shows(files[slot], state.files, state.volumes)
    {
      hide WF, FileTable, PublishTable, MountTable, Listing;
      var e := files[slot];
      if e.dirents.None? {
        var ds := ListEntries(fs, e.path);
        if ds.None? { return None; }
        StoreCache(slot, e.(dirents := ds, direntI := 0));
      }
      dirents := files[slot].dirents;
    }

    method CopyOut(buffer: array<byte>, src: seq<byte>)
      requires |src| <= buffer.Length
      modifies buffer
      ensures buffer[..] == Splice(old(buffer[..]), 0, src)
    {
      forall i | 0 <= i < |src| { buffer[i] := src[i]; }
      assert buffer[..|src|] == src;
      assert buffer[|src|..] == old(buffer[..])[|src|..];
    }

    method ReadDirectory(slot: nat, fs: FileSystem, this_: Id, room: u64, buffer: array?<byte>)
      returns (status: Status, size: nat)
      requires Valid() && slot < HANDLES && files[slot].proto == this_ != 0 && files[slot].isDir
      requires Shows(files[slot], state.files, state.volumes) && fs == state.volumes[files[slot].owner].fs
      requires buffer != null ==> room <= buffer.Length
      modifies `state, files, buffer
      ensures Valid()
      ensures var (t, r) := ReadStep(old(state), this_, Some(room), buffer != null);
              && state == t && status == r.status && size == r.size
              && (buffer != null ==> buffer[..] == Splice(old(buffer[..]), 0, r.data))
    {
      hide WF, FileTable, PublishTable, MountTable, Listing, ReadStep, CacheOk, ReadDirStep;
      var ds := LoadDirents(slot, fs);
      ReadDirOutcome(state, this_, ds, room, buffer != null);
      if ds.None? {
        assert buffer != null ==> Splice(buffer[..], 0, []) == buffer[..];
        return DeviceError, room;
      }
      status, size := ReadListed(slot, this_, ds.value, room, buffer);
    }

    /** The rest of a directory read, once the listing is there. */
    method ReadListed(slot: nat, this_: Id, ds: seq<Dirent>, room: u64, buffer: array?<byte>)
      returns (status: Status, size: nat)
      requires Valid() && slot < HANDLES && files[slot].proto == this_ != 0 && files[slot].isDir
      requires Shows(files[slot], state.files, state.volumes) && files[slot].dirents == Some(ds)
      requires Listing(state.volumes[files[slot].owner].fs, files[slot].path) == Some(ds)
      requires buffer != null ==> room <= buffer.Length
      modifies `state, files, buffer
      ensures Valid()
      ensures var (t, r) := ReadDirStep(old(state), this_, ds, room, buffer != null);
              && r.Answer? && |r.data| <= room && state == t && status == r.status && size == r.size
              && (buffer != null ==> buffer[..] == Splice(old(buffer[..]), 0, r.data))
    {
      hide WF, FileTable, PublishTable, MountTable, Listing, FileInfo.Encode, FileInfo.InfoSize, Moved, CacheOk;
      ghost var before := if buffer == null then [] else buffer[..];
      assert buffer != null ==> Splice(before, 0, []) == before;
      var e := files[slot];
      if e.direntI >= |ds| { return Success, 0; }
      var d := ds[e.direntI];
      var attr := FileInfo.ATTR_READ_ONLY;
      if d.isDir { attr := FileInfo.ATTR_READ_ONLY + FileInfo.ATTR_DIRECTORY; }
      var need := FileInfo.InfoSize(d.name);
      if room < need { return BufferTooSmall, need; }
      if buffer == null { return InvalidParameter, room; }
      ReadDirMoves(state, this_, ds, room);
      size := DeliverEntry(slot, this_, d, attr, buffer);
      return Success, size;
    }

    method DeliverEntry(slot: nat, this_: Id, d: Dirent, attr: u64, buffer: array<byte>) returns (size: nat)
      requires Valid() && slot < HANDLES && files[slot].proto == this_ != 0 && files[slot].isDir
      requires Shows(files[slot], state.files, state.volumes) && files[slot].dirents.Some?
      requires FileInfo.InfoSize(d.name) <= buffer.Length
      requires WF(Moved(state, this_, files[slot].direntI + 1))
      modifies `state, files, buffer
      ensures Valid() && state == Moved(old(state), this_, old(files[slot].direntI) + 1)
      ensures size == FileInfo.InfoSize(d.name)
      ensures buffer[..] == Splice(old(buffer[..]), 0, FileInfo.Encode(d.name, d.size, attr))
    {
      hide WF, FileTable, PublishTable, MountTable, Listing, FileInfo.Encode, Moved;
      var need := FileInfo.InfoSize(d.name);
      var ok;
      size, ok := FileInfo.WriteFileInfo(buffer, need, d.name, d.size, attr);
      var e := files[slot];
      Store(slot, e.(direntI := e.direntI + 1), e.direntI + 1);
    }

    method ReadRegular(slot: nat, fs: FileSystem, this_: Id, room: u64, buffer: array?<byte>)
      returns (status: Status, size: nat)
      requires Valid() && slot < HANDLES && files[slot].proto == this_ != 0 && !files[slot].isDir
      requires Shows(files[slot], state.files, state.volumes) && fs == state.volumes[files[slot].owner].fs
      requires buffer != null ==> room <= buffer.Length
      modifies `state, files, buffer
      ensures Valid()
      ensures var (t, r) := ReadStep(old(state), this_, Some(room), buffer != null);
              && state == t && status == r.status && size == r.size
              && (buffer != null ==> buffer[..] == Splice(old(buffer[..]), 0, r.data))
    {
      hide WF, FileTable, PublishTable, MountTable, Body, ReadStep, CacheOk, ReadFileStep;
      var body := LoadBody(slot, fs);
      ReadFileOutcome(state, this_, body, room, buffer != null);
      if body.None? {
        assert buffer != null ==> Splice(buffer[..], 0, []) == buffer[..];
        return DeviceError, room;
      }
      status, size := ReadLoaded(slot, this_, body.value, room, buffer);
    }

    /** The rest of a file read, once the contents are there. */
    method ReadLoaded(slot: nat, this_: Id, body: GoBytes, room: u64, buffer: array?<byte>)
      returns (status: Status, size: nat)
      requires Valid() && slot < HANDLES && files[slot].proto == this_ != 0 && !files[slot].isDir
      requires Shows(files[slot], state.files, state.volumes)
      requires Body(state.volumes[files[slot].owner].fs, files[slot].path) == Some(body)
      requires buffer != null ==> room <= buffer.Length
      modifies `state, files, buffer
      ensures Valid()
      ensures var (t, r) := ReadFileStep(old(state), this_, body, room, buffer != null);
              && r.Answer? && |r.data| <= room && state == t && status == r.status && size == r.size
              && (buffer != null ==> buffer[..] == Splice(old(buffer[..]), 0, r.data))
    {
      hide WF, FileTable, PublishTable, MountTable, Body, Moved, Shows, FileOf, ReadFileStep, Splice;
      if buffer != null { SpliceNothing(buffer[..]); }
      var e := files[slot];
      FileBehind(e, state.files, state.volumes);
      var remaining := 0;
      if e.pos < |body| { remaining := |body| - e.pos; }
      var want: u64 := room;
      if want > remaining { want := remaining; }
      if want == 0 {
        ReadFileAtEnd(state, this_, body, room, buffer != null);
        return Success, 0;
      }
      if buffer == null {
        ReadFileNoBuffer(state, this_, body, room);
        return InvalidParameter, room;
      }
      ReadFileMoves(state, this_, body, room, want);
      DeliverBytes(slot, this_, body[e.pos..e.pos + want], e.pos + want, buffer);
      return Success, want;
    }

    method DeliverBytes(slot: nat, this_: Id, src: seq<byte>, newPos: u64, buffer: array<byte>)
      requires Valid() && slot < HANDLES && files[slot].proto == this_ != 0 && !files[slot].isDir
      requires Shows(files[slot], state.files, state.volumes)
      requires |src| <= buffer.Length
      requires WF(Moved(state, this_, newPos))
      modifies `state, files, buffer
      ensures Valid() && this_ in old(state).files && state == Moved(old(state), this_, newPos)
      ensures buffer[..] == Splice(old(buffer[..]), 0, src)
    {
      hide WF, FileTable, PublishTable, MountTable, Listing, Moved;
      CopyOut(buffer, src);
      Store(slot, files[slot].(pos := newPos), newPos);
    }

    /**
      Reads the next bytes of a file or the next entry of a directory into the caller's buffer, which the
      caller promises to be as long as `room`. NULL pointers are None and null.
     */
    method Read(this_: Id, room: Option<u64>, buffer: array?<byte>) returns (status: Status, size: nat)
      requires Valid()
      requires buffer != null && room.Some? ==> room.value <= buffer.Length
      modifies `state, files, buffer
      ensures Valid()
      ensures var (t, r) := ReadStep(old(state), this_, room, buffer != null);
              && state == t && status == r.status && size == r.size
              && (buffer != null ==> |r.data| <= buffer.Length && buffer[..] == Splice(old(buffer[..]), 0, r.data))
    {
      hide WF, FileTable, PublishTable, MountTable, Listing, Body, CacheOk;
      var slot, fs := Resolve(this_);
      if slot < 0 { return NotFound, Given(room); }
      if room.None? { return InvalidParameter, 0; }
      if files[slot].isDir {
        status, size := ReadDirectory(slot, fs.value, this_, room.value, buffer);
      } else {
        status, size := ReadRegular(slot, fs.value, this_, room.value, buffer);
      }
    }

    method GetPosition(this_: Id, hasOut: bool) returns (status: Status, pos: nat)
      requires Valid()
      ensures Answer(status, pos, [], 0) == Step(state, Call.GetPosition(this_, hasOut)).1
    {
      hide WF, FileTable, PublishTable, MountTable, CacheOk;
      var slot, _ := Resolve(this_);
      if slot < 0 { return NotFound, 0; }
      if files[slot].isDir { return Unsupported, 0; }
      if !hasOut { return InvalidParameter, 0; }
      return Success, files[slot].pos;
    }

    method SetPosition(this_: Id, pos: u64) returns (status: Status)
      requires Valid()
      modifies `state, files
      ensures Valid()
      ensures (state, Plain(status)) == Step(old(state), Call.SetPosition(this_, pos))
    {
      hide WF, FileTable, PublishTable, MountTable, Listing, Body;
      var slot, fs := Resolve(this_);
      if slot < 0 { return NotFound; }
      StepKeeps(state, Call.SetPosition(this_, pos));
      if files[slot].isDir {
        if pos != 0 { return Unsupported; }
        Store(slot, files[slot].(direntI := 0), 0);
        return Success;
      }
      if pos == SEEK_END {
        var body := LoadBody(slot, fs.value);
        if body.None? { return DeviceError; }
        Store(slot, files[slot].(pos := |body.value|), |body.value|);
        return Success;
      }
      Store(slot, files[slot].(pos := pos), pos);
      return Success;
    }

    method GetInfo(this_: Id, guid: Option<bool>, room: Option<u64>, buffer: array?<byte>)
      returns (status: Status, size: nat)
      requires Valid()
      requires buffer != null && room.Some? ==> room.value <= buffer.Length
      modifies buffer
      ensures var r := GetInfoStep(state, this_, guid, room, buffer != null);
              && status == r.status && size == r.size
              && (buffer != null ==> |r.data| <= buffer.Length && buffer[..] == Splice(old(buffer[..]), 0, r.data))
    {
      hide WF, FileTable, PublishTable, MountTable, CacheOk, FileInfo.Encode, BaseName;
      ghost var before := if buffer == null then [] else buffer[..];
      assert buffer != null ==> Splice(before, 0, []) == before;
      var slot, fs := Resolve(this_);
      if slot < 0 { return NotFound, Given(room); }
      if guid.None? || room.None? { return InvalidParameter, Given(room); }
      if !guid.value { return Unsupported, room.value; }
      var e := files[slot];
      HandleFacts(state, this_);
      var name := BaseName(e.path);
      var fileSize: u64 := 0;
      var attr := FileInfo.ATTR_READ_ONLY;
      if e.isDir {
        attr := FileInfo.ATTR_READ_ONLY + FileInfo.ATTR_DIRECTORY;
      } else {
        fileSize := SizeFrom(fs.value.stat(e.path), e.body);
      }
      var need := FileInfo.InfoSize(name);
      if room.value < need { return BufferTooSmall, need; }
      if buffer == null { return InvalidParameter, room.value; }
      var written, ok := FileInfo.WriteFileInfo(buffer, need, name, fileSize, attr);
      return Success, written;
    }
  }

  lemma ListedStep(fs: Backing, path: string, es: seq<DirEntry>, i: nat)
    requires i <= |es|
    ensures Listed(fs, path, es[i..]) ==
              if i == |es| then []
              else
                (if es[i].name == "." || es[i].name == ".." then [] else [Describe(fs, path, es[i])])
                + Listed(fs, path, es[i + 1..])
  {
    if i < |es| { assert es[i..][1..] == es[i + 1..]; }
  }

  /** One more entry listed or skipped leaves the whole the same. */
  lemma ListedNext(fs: Backing, path: string, es: seq<DirEntry>, i: nat, cached: seq<Dirent>)
    requires i < |es|
    ensures var skip := es[i].name == "." || es[i].name == "..";
            cached + Listed(fs, path, es[i..]) ==
              (if skip then cached else cached + [Describe(fs, path, es[i])]) + Listed(fs, path, es[i + 1..])
  {
    hide Listed, Describe;
    ListedStep(fs, path, es, i);
    var d, rest := Describe(fs, path, es[i]), Listed(fs, path, es[i + 1..]);
    assert cached + ([d] + rest) == (cached + [d]) + rest;
    assert [] + rest == rest;
  }

  /** The size from Stat, else from the cached body. */
  function SizeFrom(st: Option<Stat>, body: Option<GoBytes>): u64
  {
    if st.Some? then st.value.size else if body.Some? then |body.value| else 0
  }

  /** Paths of live handles are Go strings, and a file was known to its volume when it was opened. */
  lemma HandleFacts(s: Server, id: Id)
    requires WF(s) && id in s.files
    ensures s.files[id].owner in s.volumes
    ensures |s.files[id].path| < 0x4000_0000_0000_0000
    ensures !s.files[id].isDir ==> s.volumes[s.files[id].owner].fs.stat(s.files[id].path).Some?
  {
    hide MountsOk;
    var f := s.files[id];
    assert FileOk(s.volumes, id, f);
    assert VolumeOk(s.files, f.owner, s.volumes[f.owner].root);
  }

  lemma FileBehind(e: FileEntry, files: map<Id, File>, volumes: map<Id, Volume>)
    requires Shows(e, files, volumes)
    ensures e.proto in files && e.owner in volumes && files[e.proto].owner == e.owner
    ensures files[e.proto].path == e.path && files[e.proto].isDir == e.isDir
    ensures files[e.proto].cursor == if e.isDir then e.direntI else e.pos
  {
    hide CacheOk;
  }

  lemma SpliceNothing(b: seq<byte>)
    ensures Splice(b, 0, []) == b
  {
  }

  lemma ReadFileAtEnd(s: Server, this_: Id, body: seq<byte>, room: u64, hasBuffer: bool)
    requires this_ in s.files && (room == 0 || s.files[this_].cursor >= |body|)
    ensures ReadFileStep(s, this_, body, room, hasBuffer) == (s, Answer(Success, 0, [], 0))
  {
  }

  lemma ReadFileNoBuffer(s: Server, this_: Id, body: seq<byte>, room: u64)
    requires this_ in s.files && room > 0 && s.files[this_].cursor < |body|
    ensures ReadFileStep(s, this_, body, room, false) == (s, Answer(InvalidParameter, room, [], 0))
  {
  }

  lemma ReadFileMoves(s: Server, this_: Id, body: GoBytes, room: u64, want: nat)
    requires WF(s) && this_ in s.files && !s.files[this_].isDir && s.files[this_].owner in s.volumes
    requires Body(s.volumes[s.files[this_].owner].fs, s.files[this_].path) == Some(body)
    requires 0 < want <= room && s.files[this_].cursor + want <= |body|
    requires want == room || s.files[this_].cursor + want == |body|
    ensures var pos := s.files[this_].cursor;
            && WF(Moved(s, this_, pos + want))
            && ReadFileStep(s, this_, body, room, true) ==
              (Moved(s, this_, pos + want), Answer(Success, want, body[pos..pos + want], 0))
  {
    hide Body, Moved, WF, ReadStep;
    StepKeeps(s, Call.Read(this_, Some(room), true));
    ReadFileOutcome(s, this_, Some(body), room, true);
  }

  lemma ReadDirMoves(s: Server, this_: Id, ds: seq<Dirent>, room: u64)
    requires WF(s) && this_ in s.files && s.files[this_].isDir && s.files[this_].owner in s.volumes
    requires Listing(s.volumes[s.files[this_].owner].fs, s.files[this_].path) == Some(ds)
    requires s.files[this_].cursor < |ds| && FileInfo.InfoSize(ds[s.files[this_].cursor].name) <= room
    ensures var i := s.files[this_].cursor;
            && WF(Moved(s, this_, i + 1))
            && ReadDirStep(s, this_, ds, room, true) ==
                 (Moved(s, this_, i + 1), Answer(Success, FileInfo.InfoSize(ds[i].name), Record(ds[i]), 0))
  {
    hide Listing, Moved, Record, WF, ReadStep;
    StepKeeps(s, Call.Read(this_, Some(room), true));
    ReadDirOutcome(s, this_, Some(ds), room, true);
  }

  function ArgName(fileName: Option<seq<u16>>): string
  {
    if fileName.None? then "" else NameOf(fileName.value, NAME_CAP)
  }

  lemma FileShown(es: seq<FileEntry>, files: map<Id, File>, volumes: map<Id, Volume>, i: nat)
    requires FileTable(es, files, volumes) && i < |es| && es[i].proto != 0
    ensures Shows(es[i], files, volumes)
  {
  }

  lemma UnpublishMounts(mounted: map<Id, Mount>, s: Server, ps: seq<PublishEntry>, handle: Id)
    requires WF(s) && MountTable(mounted, s.mounts, ps) && PublishTable(ps, s.volumes) && handle in mounted
    ensures MountTable(mounted - {handle}, s.mounts - {handle}, ps[mounted[handle].slot := FREE_PUBLISH])
  {
    hide FilesOk, VolumesOk, PublishTable;
    MountsWithout(mounted, s.mounts, ps, handle);
  }

  lemma MountsWithout(mounted: map<Id, Mount>, mounts: map<Id, Id>, ps: seq<PublishEntry>, handle: Id)
    requires MountTable(mounted, mounts, ps) && handle in mounted
    requires forall h :: h in mounts && mounts[h] == mounts[handle] ==> h == handle
    ensures MountTable(mounted - {handle}, mounts - {handle}, ps[mounted[handle].slot := FREE_PUBLISH])
  {
    assert forall h :: h in mounted && h != handle ==> mounted[h].slot != mounted[handle].slot;
  }

  lemma PublishRolledBack(mounted: map<Id, Mount>, s: Server, ps: seq<PublishEntry>, slot: nat)
    requires WF(s) && PublishTable(ps, s.volumes) && slot < |ps| && ps[slot].proto == 0
    requires MountTable(mounted, s.mounts, ps)
    ensures PublishTable(ps[slot := FREE_PUBLISH], s.volumes)
    ensures MountTable(mounted, s.mounts, ps[slot := FREE_PUBLISH])
  {
    hide FilesOk, VolumesOk, PublishTable;
    PublishErase(ps, s.volumes, slot);
  }

  lemma PublishMounts(mounted: map<Id, Mount>, s: Server, ps: seq<PublishEntry>, slot: nat, e: PublishEntry, h: Id)
    requires WF(s) && slot < |ps| && ps[slot].proto == 0 && MountTable(mounted, s.mounts, ps)
    ensures MountTable(mounted[h := Mount(e.proto, slot)], s.mounts[h := e.proto], ps[slot := e])
  {
    hide FilesOk, VolumesOk;
  }

  lemma PublishCommits(ps: seq<PublishEntry>, slot: nat, es: seq<FileEntry>, rootSlot: nat, s: Server,
                       fs: FileSystem, proto: Id, root: Id)
    requires PublishTable(ps, s.volumes) && slot < |ps| && ps[slot].proto == 0
    requires FileTable(es, s.files, s.volumes) && rootSlot < |es| && es[rootSlot].proto == 0
    requires proto != 0 && root != 0 && proto !in Live(s) && root !in Live(s)
    ensures var volumes := s.volumes[proto := Volume(root, fs)];
            && PublishTable(ps[slot := PublishEntry(proto, root, Some(fs))], volumes)
            && FileTable(es[rootSlot := NewFile(root, proto, "/", true)],
                         s.files[root := File(proto, "/", true, 0)], volumes)
  {
    hide FileTable, PublishTable;
    PublishPut(ps, s.volumes, slot, PublishEntry(proto, root, Some(fs)));
    FileTableGrow(es, s.files, s.volumes, proto, Volume(root, fs));
    FilePut(es, s.files, s.volumes[proto := Volume(root, fs)], rootSlot, NewFile(root, proto, "/", true));
  }
}
