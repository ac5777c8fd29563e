/**
  What the published EFI_SIMPLE_FILE_SYSTEM_PROTOCOL and EFI_FILE_PROTOCOL promise, with no registry slots,
  no caches and no scans: a server is three maps, and every protocol call is a function on them.
 */
module FileServerSpec {
  import opened Bytes
  import opened Text
  import opened Paths
  import FileInfo

  /** A `this` address or a firmware handle; 0 is NULL. */
  type Id = nat

  const VOLUMES: nat := 4
  const HANDLES: nat := 32
  const SEEK_END: u64 := 0xFFFF_FFFF_FFFF_FFFF

  datatype Status =
    | Success | InvalidParameter | Unsupported | BufferTooSmall | DeviceError | WriteProtected
    | OutOfResources | NotFound | WarnDeleteFailure

  datatype PublishError =
    | NilFilesystem | NoBootServicesTable | RegistryFull | HandleRegistryFull | NotPublished | EfiError

  // --- The backing file system: an immutable function of the path ---

  /** Lengths of Go strings and slices fit in an int. */
  type GoString = s: string | |s| < 0x4000_0000_0000_0000
  type GoBytes = b: seq<byte> | |b| < 0x4000_0000_0000_0000

  datatype Stat = Stat(mode: u16, size: u64)
  datatype DirEntry = DirEntry(name: GoString, fileType: byte)

  /** None is an error; `readFile` may also succeed with a nil slice. */
  datatype Backing = Backing(
    stat: string -> Option<Stat>,
    readFile: string -> Option<Option<GoBytes>>,
    listDir: string -> Option<seq<DirEntry>>)

  /** A path a file system knows is a Go string. */
  ghost predicate KnowsGoStrings(b: Backing) { forall p: string :: b.stat(p).Some? ==> |p| < 0x4000_0000_0000_0000 }

  type FileSystem = b: Backing | KnowsGoStrings(b) witness Backing(_ => None, _ => None, _ => None)

  /** (mode & 0xF000) == 0x4000 */
  predicate DirMode(mode: u16) { mode / 0x1000 == 4 }

  datatype Dirent = Dirent(name: GoString, isDir: bool, size: u64)

  function Describe(fs: Backing, path: string, e: DirEntry): Dirent
  {
    match fs.stat(JoinPath(path, e.name))
    case Some(st) => Dirent(e.name, DirMode(st.mode), st.size)
    case None => Dirent(e.name, e.fileType == 4, 0)
  }

  /** A directory's entries, without "." and "..". */
  function Listed(fs: Backing, path: string, es: seq<DirEntry>): seq<Dirent>
  {
    if es == [] then []
    else
      (if es[0].name == "." || es[0].name == ".." then [] else [Describe(fs, path, es[0])]) + Listed(fs, path, es[1..])
  }

  function Listing(fs: Backing, path: string): Option<seq<Dirent>>
  {
    match fs.listDir(path)
    case None => None
    case Some(es) => Some(Listed(fs, path, es))
  }

  function Body(fs: Backing, path: string): Option<GoBytes>
  {
    match fs.readFile(path)
    case None => None
    case Some(None) => Some([])
    case Some(Some(b)) => Some(b)
  }

  // --- The server ---

  /** `cursor` counts bytes read in a file and entries returned in a directory. */
  datatype File = File(owner: Id, path: string, isDir: bool, cursor: nat)
  datatype Volume = Volume(root: Id, fs: FileSystem)
  datatype Server = Server(volumes: map<Id, Volume>, files: map<Id, File>, mounts: map<Id, Id>)

  function Boot(): Server { Server(map[], map[], map[]) }

  /** What firmware answers to InstallProtocolInterface or UninstallProtocolInterface. */
  datatype Firmware = NoBootServices | Refused | Accepted(handle: Id)

  datatype Reply =
    | Answer(status: Status, size: nat, data: seq<byte>, id: Id)
    | Publication(error: Option<PublishError>, handle: Id)

  function Plain(st: Status): Reply { Answer(st, 0, [], 0) }

  datatype Call =
    | Publish(handle: Id, fs: Option<FileSystem>, proto: Id, root: Id, fw: Firmware)
    | Unpublish(handle: Id, fw: Firmware)
    | OpenVolume(this_: Id, hasOut: bool)
    | Open(this_: Id, hasOut: bool, name: string, mode: u64, alloc: Id)
    | Close(this_: Id)
    | Delete(this_: Id)
    | Read(this_: Id, room: Option<u64>, hasBuffer: bool)
    | GetPosition(this_: Id, hasOut: bool)
    | SetPosition(this_: Id, pos: u64)
    | GetInfo(this_: Id, guid: Option<bool>, room: Option<u64>, hasBuffer: bool)

  function Live(s: Server): set<Id> { s.volumes.Keys + s.files.Keys }

  /**
    What the environment owes: the allocator returns non-NULL addresses of no live object, and firmware
    never accepts a second SimpleFileSystem interface on one handle.
   */
  predicate Legal(s: Server, c: Call)
  {
    match c
    case Publish(handle, _, proto, root, fw) =>
      && proto != 0 && root != 0 && proto != root && proto !in Live(s) && root !in Live(s)
      && (fw.Accepted? ==> fw.handle != 0 && fw.handle !in s.mounts && (handle != 0 ==> fw.handle == handle))
    case Open(_, _, _, _, alloc) => alloc != 0 && alloc !in Live(s)
    case _ => true
  }

  /** `id` is the root handle of the volume that owns it. */
  predicate IsRoot(volumes: map<Id, Volume>, id: Id, owner: Id)
  {
    owner in volumes && volumes[owner].root == id
  }

  function PublishStep(s: Server, handle: Id, fs: Option<FileSystem>,
                       proto: Id, root: Id, fw: Firmware): (Server, Reply)
  {
    if fs.None? then (s, Publication(Some(NilFilesystem), 0))
    else if fw.NoBootServices? then (s, Publication(Some(NoBootServicesTable), 0))
    else if |s.volumes| >= VOLUMES then (s, Publication(Some(RegistryFull), 0))
    else if |s.files| >= HANDLES then (s, Publication(Some(HandleRegistryFull), 0))
    else if fw.Refused? then (s, Publication(Some(EfiError), 0))
    else
      (Server(s.volumes[proto := Volume(root, fs.value)],
              s.files[root := File(proto, "/", true, 0)],
              s.mounts[fw.handle := proto]),
       Publication(None, fw.handle))
  }

  /** The handles of every other volume. */
  function Without(files: map<Id, File>, owner: Id): map<Id, File>
  {
    map id | id in files && files[id].owner != owner :: files[id]
  }

  function UnpublishStep(s: Server, handle: Id, fw: Firmware): (Server, Reply)
  {
    if handle == 0 || handle !in s.mounts then (s, Publication(Some(NotPublished), 0))
    else if fw.NoBootServices? then (s, Publication(Some(NoBootServicesTable), 0))
    else if fw.Refused? then (s, Publication(Some(EfiError), 0))
    else
      var proto := s.mounts[handle];
      (Server(s.volumes - {proto}, Without(s.files, proto), s.mounts - {handle}), Publication(None, handle))
  }

  function OpenVolumeStep(s: Server, this_: Id, hasOut: bool): Reply
  {
    if this_ !in s.volumes then Plain(NotFound)
    else if !hasOut then Plain(InvalidParameter)
    else Answer(Success, 0, [], s.volumes[this_].root)
  }

  function OpenStep(s: Server, this_: Id, hasOut: bool, name: string, mode: u64, alloc: Id): (p: (Server, Reply))
    ensures p.1.Answer? && (p.1.status == Success ==> alloc in p.0.files)
  {
    if this_ !in s.files || s.files[this_].owner !in s.volumes then (s, Plain(NotFound))
    else if !hasOut then (s, Plain(InvalidParameter))
    else if mode / 2 % 2 == 1 || mode >= 0x8000_0000_0000_0000 then (s, Plain(WriteProtected))
    else if mode % 2 == 0 || name == "" then (s, Plain(InvalidParameter))
    else
      OpenPath(s, s.files[this_].owner, JoinPath(s.files[this_].path, name), alloc)
  }

  function OpenPath(s: Server, owner: Id, full: string, alloc: Id): (Server, Reply)
    requires owner in s.volumes
  {
    match s.volumes[owner].fs.stat(full)
    case None => (s, Plain(NotFound))
    case Some(st) =>
      if |s.files| >= HANDLES then (s, Plain(OutOfResources))
      else (s.(files := s.files[alloc := File(owner, full, DirMode(st.mode), 0)]), Answer(Success, 0, [], alloc))
  }

  /** Closing the volume root, or an unknown handle, changes nothing. */
  function CloseStep(s: Server, this_: Id): Server
  {
    if this_ !in s.files || IsRoot(s.volumes, this_, s.files[this_].owner) then s else s.(files := s.files - {this_})
  }

  function DeleteStep(s: Server, this_: Id): (Server, Reply)
  {
    if this_ !in s.files then (s, Plain(NotFound)) else (CloseStep(s, this_), Plain(WarnDeleteFailure))
  }

  function Given(room: Option<u64>): nat { if room.Some? then room.value else 0 }

  function Moved(s: Server, id: Id, cursor: nat): Server
    requires id in s.files
  {
    s.(files := s.files[id := s.files[id].(cursor := cursor)])
  }

  function Record(e: Dirent): seq<byte>
  {
    FileInfo.Encode(e.name, e.size, Attributes(e.isDir))
  }

  function Attributes(isDir: bool): u64
  {
    if isDir then FileInfo.ATTR_READ_ONLY + FileInfo.ATTR_DIRECTORY else FileInfo.ATTR_READ_ONLY
  }

  function ReadDirStep(s: Server, this_: Id, ds: seq<Dirent>, room: u64, hasBuffer: bool): (Server, Reply)
    requires this_ in s.files
  {
    var i := s.files[this_].cursor;
    if i >= |ds| then (s, Answer(Success, 0, [], 0))
    else
      var need := FileInfo.InfoSize(ds[i].name);
      if room < need then (s, Answer(BufferTooSmall, need, [], 0))
      else if !hasBuffer then (s, Answer(InvalidParameter, room, [], 0))
      else (Moved(s, this_, i + 1), Answer(Success, need, Record(ds[i]), 0))
  }

  function ReadFileStep(s: Server, this_: Id, body: seq<byte>, room: u64, hasBuffer: bool): (Server, Reply)
    requires this_ in s.files
  {
    var pos := s.files[this_].cursor;
    var left := if pos < |body| then |body| - pos else 0;
    var want := if room > left then left else room;
    if want == 0 then (s, Answer(Success, 0, [], 0))
    else if !hasBuffer then (s, Answer(InvalidParameter, room, [], 0))
    else (Moved(s, this_, pos + want), Answer(Success, want, body[pos..pos + want], 0))
  }

  function ReadStep(s: Server, this_: Id, room: Option<u64>, hasBuffer: bool): (p: (Server, Reply))
    ensures p.1.Answer? && |p.1.data| <= Given(room) && (p.1.data != [] ==> hasBuffer)
  {
    if this_ !in s.files then (s, Answer(NotFound, Given(room), [], 0))
    else if room.None? then (s, Answer(InvalidParameter, 0, [], 0))
    else if s.files[this_].owner !in s.volumes then (s, Answer(NotFound, room.value, [], 0))
    else
      var f := s.files[this_];
      var fs := s.volumes[f.owner].fs;
      if f.isDir then
        match Listing(fs, f.path)
        case None => (s, Answer(DeviceError, room.value, [], 0))
        case Some(ds) => ReadDirStep(s, this_, ds, room.value, hasBuffer)
      else
        match Body(fs, f.path)
        case None => (s, Answer(DeviceError, room.value, [], 0))
        case Some(b) => ReadFileStep(s, this_, b, room.value, hasBuffer)
  }

  lemma ReadFileOutcome(s: Server, this_: Id, body: Option<GoBytes>, room: u64, hasBuffer: bool)
    requires this_ in s.files && !s.files[this_].isDir && s.files[this_].owner in s.volumes
    requires Body(s.volumes[s.files[this_].owner].fs, s.files[this_].path) == body
    ensures ReadStep(s, this_, Some(room), hasBuffer) ==
              if body.None? then (s, Answer(DeviceError, room, [], 0))
              else ReadFileStep(s, this_, body.value, room, hasBuffer)
  {
    hide Body, ReadFileStep;
  }

  lemma ReadNotFound(s: Server, this_: Id, room: u64, hasBuffer: bool)
    requires this_ !in s.files || s.files[this_].owner !in s.volumes
    ensures ReadStep(s, this_, Some(room), hasBuffer) == (s, Answer(NotFound, room, [], 0))
  {
  }

  lemma ReadDirOutcome(s: Server, this_: Id, ds: Option<seq<Dirent>>, room: u64, hasBuffer: bool)
    requires this_ in s.files && s.files[this_].isDir && s.files[this_].owner in s.volumes
    requires Listing(s.volumes[s.files[this_].owner].fs, s.files[this_].path) == ds
    ensures ReadStep(s, this_, Some(room), hasBuffer) ==
              if ds.None? then (s, Answer(DeviceError, room, [], 0))
              else ReadDirStep(s, this_, ds.value, room, hasBuffer)
  {
    hide Listing, ReadDirStep;
  }

  function GetPositionStep(s: Server, this_: Id, hasOut: bool): Reply
  {
    if this_ !in s.files then Plain(NotFound)
    else if s.files[this_].isDir then Plain(Unsupported)
    else if !hasOut then Plain(InvalidParameter)
    else Answer(Success, s.files[this_].cursor, [], 0)
  }

  function SetPositionStep(s: Server, this_: Id, pos: u64): (Server, Reply)
  {
    if this_ !in s.files then (s, Plain(NotFound))
    else
      var f := s.files[this_];
      if f.isDir then (if pos != 0 then (s, Plain(Unsupported)) else (Moved(s, this_, 0), Plain(Success)))
      else if f.owner !in s.volumes then (s, Plain(NotFound))
      else if pos == SEEK_END then
        match Body(s.volumes[f.owner].fs, f.path)
        case None => (s, Plain(DeviceError))
        case Some(b) => (Moved(s, this_, |b|), Plain(Success))
      else (Moved(s, this_, pos), Plain(Success))
  }

  /** The size GetInfo reports: that of the file, and 0 for a directory. */
  function InfoFileSize(fs: Backing, f: File): u64
  {
    if f.isDir then 0 else match fs.stat(f.path) case Some(st) => st.size case None => 0
  }

  /** `guid` is NULL or tells whether EFI_FILE_INFO was asked for. */
  function GetInfoStep(s: Server, this_: Id, guid: Option<bool>, room: Option<u64>, hasBuffer: bool): (r: Reply)
    ensures r.Answer? && |r.data| <= Given(room) && (r.data != [] ==> hasBuffer)
  {
    var kept := Given(room);
    if this_ !in s.files then Answer(NotFound, kept, [], 0)
    else if guid.None? || room.None? then Answer(InvalidParameter, kept, [], 0)
    else if !guid.value then Answer(Unsupported, kept, [], 0)
    else if s.files[this_].owner !in s.volumes then Answer(NotFound, kept, [], 0)
    else
      var f := s.files[this_];
      var name := BaseName(f.path);
      var need := FileInfo.InfoSize(name);
      if room.value < need then Answer(BufferTooSmall, need, [], 0)
      else if !hasBuffer then Answer(InvalidParameter, kept, [], 0)
      else Answer(Success, need, FileInfo.Encode(name, InfoFileSize(s.volumes[f.owner].fs, f), Attributes(f.isDir)), 0)
  }

  function Step(s: Server, c: Call): (Server, Reply)
  {
    match c
    case Publish(handle, fs, proto, root, fw) => PublishStep(s, handle, fs, proto, root, fw)
    case Unpublish(handle, fw) => UnpublishStep(s, handle, fw)
    case OpenVolume(t, hasOut) => (s, OpenVolumeStep(s, t, hasOut))
    case Open(t, hasOut, name, mode, alloc) => OpenStep(s, t, hasOut, name, mode, alloc)
    case Close(t) => (CloseStep(s, t), Plain(Success))
    case Delete(t) => DeleteStep(s, t)
    case Read(t, room, hasBuffer) => ReadStep(s, t, room, hasBuffer)
    case GetPosition(t, hasOut) => (s, GetPositionStep(s, t, hasOut))
    case SetPosition(t, pos) => SetPositionStep(s, t, pos)
    case GetInfo(t, guid, room, hasBuffer) => (s, GetInfoStep(s, t, guid, room, hasBuffer))
  }

  function Run(s: Server, cs: seq<Call>): Server
    decreases |cs|
  {
    if cs == [] then s else Run(Step(s, cs[0]).0, cs[1..])
  }

  ghost predicate LegalRun(s: Server, cs: seq<Call>)
    decreases |cs|
  {
    cs == [] || (Legal(s, cs[0]) && LegalRun(Step(s, cs[0]).0, cs[1..]))
  }

  // --- What every run keeps ---

  /** A handle belongs to a live volume; all but the root were found there when opened. */
  ghost predicate FileOk(volumes: map<Id, Volume>, id: Id, f: File)
  {
    && f.owner in volumes
    && (!f.isDir ==> f.cursor < TWO64)
    && (IsRoot(volumes, id, f.owner) || Known(volumes[f.owner].fs, f.path, f.isDir))
  }

  ghost predicate Known(fs: Backing, path: string, isDir: bool)
  {
    fs.stat(path).Some? && isDir == DirMode(fs.stat(path).value.mode)
  }

  /** A live volume has its root handle: the directory "/". */
  ghost predicate VolumeOk(files: map<Id, File>, v: Id, root: Id)
  {
    root in files && files[root].owner == v && files[root].path == "/" && files[root].isDir
  }

  ghost predicate FilesOk(volumes: map<Id, Volume>, files: map<Id, File>)
  {
    forall id :: id in files ==> FileOk(volumes, id, files[id])
  }

  ghost predicate VolumesOk(volumes: map<Id, Volume>, files: map<Id, File>)
  {
    forall v :: v in volumes ==> VolumeOk(files, v, volumes[v].root)
  }

  ghost predicate MountsOk(volumes: map<Id, Volume>, mounts: map<Id, Id>)
  {
    && (forall h :: h in mounts ==> h != 0 && mounts[h] in volumes)
    && (forall h, k :: h in mounts && k in mounts && mounts[h] == mounts[k] ==> h == k)
  }

  ghost predicate WF(s: Server)
  {
    && |s.volumes| <= VOLUMES && |s.files| <= HANDLES
    && 0 !in s.volumes && 0 !in s.files && s.volumes.Keys !! s.files.Keys
    && FilesOk(s.volumes, s.files)
    && VolumesOk(s.volumes, s.files)
    && MountsOk(s.volumes, s.mounts)
  }

  /** Publishing or removing other volumes does not disturb a handle. */
  lemma FilesOkFrame(volumes: map<Id, Volume>, volumes': map<Id, Volume>, files: map<Id, File>, files': map<Id, File>)
    requires FilesOk(volumes, files)
    requires forall id :: id in files' ==> id in files && files'[id] == files[id]
    requires forall id :: id in files' && files'[id].owner in volumes ==>
               files'[id].owner in volumes' && volumes'[files'[id].owner] == volumes[files'[id].owner]
    ensures FilesOk(volumes', files')
  {
    hide Known;
    forall id | id in files'
      ensures FileOk(volumes', id, files'[id])
    {
      assert FileOk(volumes, id, files[id]);
    }
  }

  lemma VolumesOkFrame(volumes: map<Id, Volume>, volumes': map<Id, Volume>, files: map<Id, File>, files': map<Id, File>)
    requires VolumesOk(volumes, files)
    requires forall v :: v in volumes' ==> v in volumes && volumes'[v] == volumes[v]
    requires forall v :: v in volumes' && volumes'[v].root in files ==>
               volumes'[v].root in files' && files'[volumes'[v].root] == files[volumes'[v].root]
    ensures VolumesOk(volumes', files')
  {
    forall v | v in volumes'
      ensures VolumeOk(files', v, volumes'[v].root)
    {
      assert VolumeOk(files, v, volumes[v].root);
    }
  }

  lemma PublishFilesOk(volumes: map<Id, Volume>, files: map<Id, File>, proto: Id, root: Id, fs: FileSystem)
    requires FilesOk(volumes, files) && proto !in volumes && root !in files
    ensures FilesOk(volumes[proto := Volume(root, fs)], files[root := File(proto, "/", true, 0)])
  {
    hide Known;
    FilesOkFrame(volumes, volumes[proto := Volume(root, fs)], files, files);
  }

  lemma PublishVolumesOk(volumes: map<Id, Volume>, files: map<Id, File>, proto: Id, root: Id, fs: FileSystem)
    requires VolumesOk(volumes, files) && proto !in volumes && root !in files
    ensures VolumesOk(volumes[proto := Volume(root, fs)], files[root := File(proto, "/", true, 0)])
  {
    VolumesOkFrame(volumes, volumes, files, files[root := File(proto, "/", true, 0)]);
  }

  lemma PublishMountsOk(volumes: map<Id, Volume>, mounts: map<Id, Id>, proto: Id, v: Volume, h: Id)
    requires MountsOk(volumes, mounts) && proto !in volumes && h != 0 && h !in mounts
    ensures MountsOk(volumes[proto := v], mounts[h := proto])
  {
  }

  lemma PublishKeeps(s: Server, handle: Id, fs: FileSystem, proto: Id, root: Id, h: Id)
    requires WF(s) && |s.volumes| < VOLUMES && |s.files| < HANDLES
    requires Legal(s, Publish(handle, Some(fs), proto, root, Accepted(h)))
    ensures WF(PublishStep(s, handle, Some(fs), proto, root, Accepted(h)).0)
  {
    hide FilesOk, VolumesOk, MountsOk;
    PublishFilesOk(s.volumes, s.files, proto, root, fs);
    PublishVolumesOk(s.volumes, s.files, proto, root, fs);
    PublishMountsOk(s.volumes, s.mounts, proto, Volume(root, fs), h);
    PublishIdsOk(s.volumes, s.files, proto, Volume(root, fs), root, File(proto, "/", true, 0));
  }

  lemma PublishIdsOk(volumes: map<Id, Volume>, files: map<Id, File>, proto: Id, v: Volume, root: Id, f: File)
    requires 0 !in volumes && 0 !in files && volumes.Keys !! files.Keys && |volumes| < VOLUMES && |files| < HANDLES
    requires proto != 0 && root != 0 && proto != root
    requires proto !in volumes && proto !in files && root !in volumes && root !in files
    ensures var vs, fs := volumes[proto := v], files[root := f];
            0 !in vs && 0 !in fs && vs.Keys !! fs.Keys && |vs| <= VOLUMES && |fs| <= HANDLES
  {
  }

  lemma UnpublishTables(volumes: map<Id, Volume>, files: map<Id, File>, proto: Id)
    requires FilesOk(volumes, files) && VolumesOk(volumes, files)
    ensures FilesOk(volumes - {proto}, Without(files, proto)) && VolumesOk(volumes - {proto}, Without(files, proto))
  {
    assert forall v :: v in volumes ==> VolumeOk(files, v, volumes[v].root);
    FilesOkFrame(volumes, volumes - {proto}, files, Without(files, proto));
    VolumesOkFrame(volumes, volumes - {proto}, files, Without(files, proto));
  }

  lemma UnpublishKeeps(s: Server, proto: Id, handle: Id)
    requires WF(s) && handle in s.mounts && proto == s.mounts[handle]
    ensures WF(Server(s.volumes - {proto}, Without(s.files, proto), s.mounts - {handle}))
  {
    hide FilesOk, VolumesOk;
    UnpublishTables(s.volumes, s.files, proto);
    CardinalitySubset(Without(s.files, proto).Keys, s.files.Keys);
    CardinalitySubset((s.volumes - {proto}).Keys, s.volumes.Keys);
  }

  lemma {:induction false} CardinalitySubset<T>(a: set<T>, b: set<T>)
    requires a <= b
    ensures |a| <= |b|
  {
    if a != {} {
      var x :| x in a;
      CardinalitySubset(a - {x}, b - {x});
    }
  }

  /** Putting a good handle in the table, new or moved, is safe as long as roots stay roots. */
  lemma PutKeeps(s: Server, id: Id, f: File)
    requires WF(s)
    requires id != 0 && id !in s.volumes && (id !in s.files ==> |s.files| < HANDLES)
    requires FileOk(s.volumes, id, f)
    requires id in s.files ==>
               f.owner == s.files[id].owner && f.path == s.files[id].path && f.isDir == s.files[id].isDir
    ensures WF(s.(files := s.files[id := f]))
  {
    hide FilesOk, VolumesOk, MountsOk, FileOk;
    PutFilesOk(s.volumes, s.files, id, f);
    PutVolumesOk(s.volumes, s.files, id, f);
  }

  lemma PutFilesOk(volumes: map<Id, Volume>, files: map<Id, File>, id: Id, f: File)
    requires FilesOk(volumes, files) && FileOk(volumes, id, f)
    ensures FilesOk(volumes, files[id := f])
  {
    hide FileOk;
  }

  lemma PutVolumesOk(volumes: map<Id, Volume>, files: map<Id, File>, id: Id, f: File)
    requires VolumesOk(volumes, files)
    requires id in files ==> f.owner == files[id].owner && f.path == files[id].path && f.isDir == files[id].isDir
    ensures VolumesOk(volumes, files[id := f])
  {
    forall v | v in volumes
      ensures VolumeOk(files[id := f], v, volumes[v].root)
    {
      assert VolumeOk(files, v, volumes[v].root);
    }
  }

  lemma OpenKeeps(s: Server, owner: Id, full: string, alloc: Id)
    requires WF(s) && owner in s.volumes
    requires alloc != 0 && alloc !in Live(s)
    ensures WF(OpenPath(s, owner, full, alloc).0)
  {
    hide WF;
    var st := s.volumes[owner].fs.stat(full);
    if st.Some? && |s.files| < HANDLES {
      PutKeeps(s, alloc, File(owner, full, DirMode(st.value.mode), 0));
    }
  }

  lemma CloseKeeps(s: Server, this_: Id)
    requires WF(s)
    ensures WF(CloseStep(s, this_))
  {
    var t := CloseStep(s, this_);
    if t != s {
      CardinalitySubset(t.files.Keys, s.files.Keys);
      assert forall id :: id in t.files ==> FileOk(s.volumes, id, s.files[id]);
      forall v | v in s.volumes
        ensures VolumeOk(t.files, v, s.volumes[v].root)
      {
        assert VolumeOk(s.files, v, s.volumes[v].root);
      }
    }
  }

  /** `t` is `s` with at most the cursor of `id` moved. */
  ghost predicate OnlyCursor(s: Server, t: Server, id: Id)
  {
    && t.volumes == s.volumes && t.mounts == s.mounts && t.files.Keys == s.files.Keys
    && forall k :: k in s.files ==>
         t.files[k] == s.files[k].(cursor := t.files[k].cursor) && (k != id ==> t.files[k] == s.files[k])
  }

  lemma CursorShape(s: Server, c: Call)
    requires c.Read? || c.SetPosition?
    ensures var t := Step(s, c).0;
            t == s || (c.this_ in s.files && c.this_ in t.files && t == Moved(s, c.this_, t.files[c.this_].cursor))
  {
    hide Listed, FileInfo.Encode, FileInfo.InfoSize;
  }

  lemma CursorFrame(s: Server, c: Call)
    requires c.Read? || c.SetPosition?
    ensures OnlyCursor(s, Step(s, c).0, c.this_)
  {
    hide Step;
    CursorShape(s, c);
  }

  /** `n` is `m` with at most `k` added. */
  ghost predicate Adds<V>(m: map<Id, V>, n: map<Id, V>, k: Id)
  {
    m.Keys <= n.Keys <= m.Keys + {k} && forall x :: x in m && x != k ==> n[x] == m[x]
  }

  lemma EqualAdds<V>(m: map<Id, V>, k: Id)
    ensures Adds(m, m, k)
  {
  }

  lemma UpdateAdds<V>(m: map<Id, V>, k: Id, v: V)
    ensures Adds(m, m[k := v], k)
  {
  }

  /** Publishing fails and changes nothing, or adds the volume and its root handle. */
  lemma PublishShape(s: Server, c: Call)
    requires c.Publish?
    ensures var t := Step(s, c).0;
            t == s || (&& c.fs.Some? && t.volumes == s.volumes[c.proto := Volume(c.root, c.fs.value)]
                       && t.files == s.files[c.root := File(c.proto, "/", true, 0)])
  {
  }

  lemma PublishFrame(s: Server, c: Call)
    requires c.Publish?
    ensures var t := Step(s, c).0;
            Adds(s.volumes, t.volumes, c.proto) && Adds(s.files, t.files, c.root)
  {
    hide Adds, Step;
    PublishShape(s, c);
    if Step(s, c).0 == s {
      EqualAdds(s.volumes, c.proto);
      EqualAdds(s.files, c.root);
    } else {
      UpdateAdds(s.volumes, c.proto, Volume(c.root, c.fs.value));
      UpdateAdds(s.files, c.root, File(c.proto, "/", true, 0));
    }
  }

  lemma UnpublishFrame(s: Server, c: Call)
    requires c.Unpublish?
    ensures var t := Step(s, c).0;
            && t.volumes.Keys <= s.volumes.Keys && t.files.Keys <= s.files.Keys
            && (forall v :: v in s.volumes && !TakesDown(s, c, v) ==> v in t.volumes && t.volumes[v] == s.volumes[v])
            && (forall k :: k in t.files ==> t.files[k] == s.files[k] && !TakesDown(s, c, s.files[k].owner))
  {
  }

  /** Opening adds at most the new handle. */
  lemma OpenFrame(s: Server, c: Call)
    requires c.Open?
    ensures var t := Step(s, c).0;
            && t.volumes == s.volumes && t.mounts == s.mounts
            && s.files.Keys <= t.files.Keys <= s.files.Keys + {c.alloc}
            && forall k :: k in s.files && k != c.alloc ==> t.files[k] == s.files[k]
  {
    hide JoinPath;
  }

  /** Closing and deleting remove at most the handle, and never a root. */
  lemma CloseFrame(s: Server, c: Call)
    requires c.Close? || c.Delete?
    ensures var t := Step(s, c).0;
            && t.volumes == s.volumes && t.mounts == s.mounts
            && s.files.Keys - {c.this_} <= t.files.Keys <= s.files.Keys
            && forall k :: k in t.files ==> t.files[k] == s.files[k]
  {
  }

  lemma CursorBound(s: Server, c: Call)
    requires (c.Read? || c.SetPosition?) && c.this_ in s.files
    requires !s.files[c.this_].isDir && s.files[c.this_].cursor < TWO64
    ensures c.this_ in Step(s, c).0.files && Step(s, c).0.files[c.this_].cursor < TWO64
  {
    hide Listed, FileInfo.Encode, FileInfo.InfoSize;
  }

  lemma CursorKeeps(s: Server, c: Call)
    requires WF(s) && (c.Read? || c.SetPosition?)
    ensures WF(Step(s, c).0)
  {
    hide Step, Known;
    CursorShape(s, c);
    if c.this_ in s.files {
      assert FileOk(s.volumes, c.this_, s.files[c.this_]);
      if !s.files[c.this_].isDir { CursorBound(s, c); }
      CursorFrame(s, c);
      PutKeeps(s, c.this_, Step(s, c).0.files[c.this_]);
    }
  }

  lemma StepKeeps(s: Server, c: Call)
    requires WF(s) && Legal(s, c)
    ensures WF(Step(s, c).0)
  {
    hide WF, JoinPath, OpenPath, ReadStep, SetPositionStep;
    match c
    case Publish(handle, fs, proto, root, fw) =>
      if Step(s, c).1.error.None? { PublishKeeps(s, handle, fs.value, proto, root, fw.handle); }
    case Unpublish(handle, _) =>
      if Step(s, c).1.error.None? { UnpublishKeeps(s, s.mounts[handle], handle); }
    case Open(t, _, name, _, alloc) =>
      if t in s.files && s.files[t].owner in s.volumes {
        OpenKeeps(s, s.files[t].owner, JoinPath(s.files[t].path, name), alloc);
      }
    case Close(t) => CloseKeeps(s, t);
    case Delete(t) => CloseKeeps(s, t);
    case Read(_, _, _) => CursorKeeps(s, c);
    case SetPosition(_, _) => CursorKeeps(s, c);
    case _ =>
  }

  /** No handle names anything outside its volume: paths are absolute and hold no empty, "." or ".." component. */
  ghost predicate PathsOk(s: Server)
  {
    forall id :: id in s.files ==> Normal(s.files[id].path)
  }

  lemma RootNormal()
    ensures Normal("/")
  {
    ComponentsRender([]);
  }

  lemma PathsKeep(s: Server, c: Call)
    requires PathsOk(s)
    ensures PathsOk(Step(s, c).0)
  {
    hide Normal, JoinPath, ReadStep, SetPositionStep, OpenPath;
    match c
    case Publish(_, _, _, _, _) => RootNormal();
    case Open(t, _, name, _, alloc) =>
      if t in s.files && s.files[t].owner in s.volumes {
        JoinPathNormal(s.files[t].path, name);
        var full := JoinPath(s.files[t].path, name);
        OpenPathsKeep(s, s.files[t].owner, full, alloc);
      }
    case Read(t, _, _) => CursorFrame(s, c);
    case SetPosition(t, _) => CursorFrame(s, c);
    case _ =>
  }

  lemma OpenPathsKeep(s: Server, owner: Id, full: string, alloc: Id)
    requires PathsOk(s) && owner in s.volumes && Normal(full)
    ensures PathsOk(OpenPath(s, owner, full, alloc).0)
  {
    hide Normal;
  }

  /** Safety: every state of every run is well formed. */
  lemma {:induction false} RunKeeps(s: Server, cs: seq<Call>)
    requires WF(s) && PathsOk(s) && LegalRun(s, cs)
    ensures WF(Run(s, cs)) && PathsOk(Run(s, cs))
    ensures |Run(s, cs).volumes| <= 4 && |Run(s, cs).files| <= 32
    decreases |cs|
  {
    if cs != [] {
      StepKeeps(s, cs[0]);
      PathsKeep(s, cs[0]);
      RunKeeps(Step(s, cs[0]).0, cs[1..]);
    }
  }

  lemma BootWF()
    ensures WF(Boot()) && PathsOk(Boot())
  {
  }

  predicate TakesDown(s: Server, c: Call, v: Id)
  {
    c.Unpublish? && c.handle != 0 && c.handle in s.mounts && s.mounts[c.handle] == v && c.fw.Accepted?
  }

  /** `v` is taken down by some call of the run. */
  predicate TakenDown(s: Server, cs: seq<Call>, v: Id)
    decreases |cs|
  {
    cs != [] && (TakesDown(s, cs[0], v) || TakenDown(Step(s, cs[0]).0, cs[1..], v))
  }

  lemma StepKeepsVolume(s: Server, c: Call, v: Id)
    requires Legal(s, c) && v in s.volumes && !TakesDown(s, c, v)
    ensures v in Step(s, c).0.volumes && Step(s, c).0.volumes[v] == s.volumes[v]
  {
    hide PublishStep, UnpublishStep, OpenStep, CloseStep, DeleteStep, ReadStep, SetPositionStep, GetInfoStep;
    match c
    case Publish(_, _, _, _, _) => PublishFrame(s, c);
    case Unpublish(_, _) => UnpublishFrame(s, c);
    case Open(_, _, _, _, _) => OpenFrame(s, c);
    case Close(_) => CloseFrame(s, c);
    case Delete(_) => CloseFrame(s, c);
    case Read(_, _, _) => CursorFrame(s, c);
    case SetPosition(_, _) => CursorFrame(s, c);
    case _ =>
  }

  /**
    A published volume answers until it is unpublished: through any run of calls, closing and deleting the
    root included, it keeps the same file system and the same root directory handle.
   */
  lemma {:induction false} VolumePersists(s: Server, cs: seq<Call>, v: Id)
    requires WF(s) && LegalRun(s, cs) && v in s.volumes && !TakenDown(s, cs, v)
    ensures v in Run(s, cs).volumes && Run(s, cs).volumes[v] == s.volumes[v]
    ensures VolumeOk(Run(s, cs).files, v, s.volumes[v].root)
    ensures OpenVolumeStep(Run(s, cs), v, true) == Answer(Success, 0, [], s.volumes[v].root)
    decreases |cs|
  {
    hide Step;
    if cs != [] {
      StepKeeps(s, cs[0]);
      StepKeepsVolume(s, cs[0], v);
      VolumePersists(Step(s, cs[0]).0, cs[1..], v);
    } else {
      assert VolumeOk(s.files, v, s.volumes[v].root);
    }
  }

  /** Unpublishing removes the volume, all of its handles and nothing else. */
  lemma UnpublishRemoves(s: Server, handle: Id, fw: Firmware)
    requires WF(s)
    ensures var (t, r) := Step(s, Unpublish(handle, fw));
            if r.error.None? then
              && handle in s.mounts
              && s.mounts[handle] !in Live(t)
              && s.volumes[s.mounts[handle]].root !in t.files
              && (forall id :: id in t.files <==> id in s.files && s.files[id].owner != s.mounts[handle])
              && (forall id :: id in t.files ==> t.files[id] == s.files[id])
              && (forall v :: v in t.volumes <==> v in s.volumes && v != s.mounts[handle])
              && handle !in t.mounts
            else t == s
  {
    if handle in s.mounts { assert VolumeOk(s.files, s.mounts[handle], s.volumes[s.mounts[handle]].root); }
  }

  /** The call was given the fresh address `id` by the allocator. */
  predicate Issues(c: Call, id: Id)
  {
    (c.Open? && c.alloc == id) || (c.Publish? && (c.root == id || c.proto == id))
  }

  /** A call that must find `id` (Close is the one call that succeeds regardless). */
  predicate Addresses(c: Call, id: Id)
  {
    !c.Publish? && !c.Unpublish? && !c.Close? && c.this_ == id
  }

  lemma StepStaysDead(s: Server, c: Call, id: Id)
    requires id !in Live(s) && !Issues(c, id)
    ensures id !in Live(Step(s, c).0)
  {
    hide PublishStep, UnpublishStep, OpenStep, CloseStep, DeleteStep, ReadStep, SetPositionStep, GetInfoStep;
    match c
    case Publish(_, _, _, _, _) => PublishFrame(s, c);
    case Unpublish(_, _) => UnpublishFrame(s, c);
    case Open(_, _, _, _, _) => OpenFrame(s, c);
    case Close(_) => CloseFrame(s, c);
    case Delete(_) => CloseFrame(s, c);
    case Read(_, _, _) => CursorFrame(s, c);
    case SetPosition(_, _) => CursorFrame(s, c);
    case _ =>
  }

  lemma DeadReply(s: Server, c: Call, id: Id)
    requires id !in Live(s) && Addresses(c, id)
    ensures Step(s, c).1.status == NotFound
  {
  }

  /** A closed or never issued id stays dead until the allocator hands it out again. */
  lemma {:induction false} DeadStaysDead(s: Server, cs: seq<Call>, id: Id)
    requires id !in Live(s)
    requires forall i :: 0 <= i < |cs| ==> !Issues(cs[i], id)
    ensures id !in Live(Run(s, cs))
    ensures forall c: Call :: Addresses(c, id) ==> Step(Run(s, cs), c).1.status == NotFound
    decreases |cs|
  {
    if cs == [] {
      forall c: Call | Addresses(c, id)
        ensures Step(s, c).1.status == NotFound
      {
        DeadReply(s, c, id);
      }
    } else {
      StepStaysDead(s, cs[0], id);
      DeadStaysDead(Step(s, cs[0]).0, cs[1..], id);
    }
  }
}
