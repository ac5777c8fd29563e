/**
  The self-reading client: it walks its own device path, opens that file on the volume, asks for its size
  with a two-call GetInfo and reads it whole. Run against the server, it must come back with the file and
  leave the server as it found it.
 */
module PackStub {
  import opened Bytes
  import opened Text
  import opened Paths
  import opened FileServerSpec
  import opened FileServers
  import opened DevicePaths
  import FileInfo

  ghost predicate KnownSize(s: Server, file: Id, size: u64)
  {
    && file in s.files && s.files[file].owner in s.volumes
    && size == InfoFileSize(s.volumes[s.files[file].owner].fs, s.files[file])
  }

  /** The FileSize of a live handle; the first call only learns how much room the record needs. */
  method GetFileSize(server: FileServer, file: Id) returns (size: u64, ok: bool)
    requires server.Valid()
    ensures ok <==> file in server.state.files
    ensures ok ==> KnownSize(server.state, file, size)
  {
    hide WF, FileTables.FileTable, FileTables.PublishTable, MountTable, FileInfo.Encode, BaseName;
    size, ok := 0, false;
    if file in server.state.files { HandleFacts(server.state, file); }
    var status, bufSize := server.GetInfo(file, Some(true), Some(0), null);
    if bufSize == 0 { return; }
    var buf := new byte[bufSize];
    status, bufSize := server.GetInfo(file, Some(true), Some(bufSize), buf);
    if status != Success { return; }
    if buf.Length < 16 { return; }
    ghost var f := server.state.files[file];
    ghost var fs := server.state.volumes[f.owner].fs;
    ghost var rec := FileInfo.Encode(BaseName(f.path), InfoFileSize(fs, f), Attributes(f.isDir));
    FileInfo.FileSizeField(BaseName(f.path), InfoFileSize(fs, f), Attributes(f.isDir));
    assert buf[..] == rec;
    assert buf[8..16] == rec[8..16];
    FromLE64Bound(buf[8..16]);
    size := FromLE(buf[8..16]);
    ok := true;
  }

  /** Errors are ignored; a NULL handle is not closed. */
  method CloseFile(server: FileServer, file: Id)
    requires server.Valid()
    modifies server`state, server.files
    ensures server.Valid() && server.state == CloseStep(old(server.state), file)
  {
    hide FilesOk, VolumesOk, MountsOk, FileTables.FileTable, FileTables.PublishTable, MountTable;
    if file == 0 { return; }
    var _ := server.Close(file);
  }

  /** What reading a file whole yields: nothing for a directory, an empty file, or one shorter than its size. */
  function HandleContents(fs: Backing, f: File): Option<seq<byte>>
  {
    var size := InfoFileSize(fs, f);
    if f.isDir || size == 0 || Body(fs, f.path).None? || |Body(fs, f.path).value| < size then None
    else Some(Body(fs, f.path).value[..size])
  }

  /** What the client should end up with for the joined path `us` on volume `sfs`. */
  function OwnFile(s: Server, sfs: Id, us: seq<u16>): Option<seq<byte>>
  {
    if sfs !in s.volumes || us == [] || NameOf(us, NAME_CAP) == "" || |s.files| >= HANDLES then None
    else FileAt(s.volumes[sfs].fs, JoinPath("/", NameOf(us, NAME_CAP)))
  }

  function FileAt(fs: Backing, full: string): Option<seq<byte>>
  {
    match fs.stat(full)
    case None => None
    case Some(st) => HandleContents(fs, File(0, full, DirMode(st.mode), 0))
  }

  /** Reads the whole file behind a fresh handle, then closes it. */
  method ReadWhole(server: FileServer, file: Id, ghost before: Server) returns (r: Option<seq<byte>>)
    requires server.Valid() && file != 0 && file in server.state.files
    requires server.state == before.(files := before.files[file := server.state.files[file]]) && file !in before.files
    requires server.state.files[file].cursor == 0 && !IsRoot(before.volumes, file, server.state.files[file].owner)
    modifies server`state, server.files
    ensures server.Valid() && server.state == before
    ensures var f := old(server.state).files[file];
            f.owner in before.volumes && r == HandleContents(before.volumes[f.owner].fs, f)
  {
    hide WF, FileTables.FileTable, FileTables.PublishTable, MountTable, Body, Listing, FileInfo.Encode, ReadStep;
    HandleFacts(server.state, file);
    ghost var f := server.state.files[file];
    assert before.files[file := f] - {file} == before.files;
    var size, ok := GetFileSize(server, file);
    if !ok || size == 0 {
      CloseFile(server, file);
      return None;
    }
    var buf := new byte[size];
    WholeRead(server.state, file, size);
    var status, readSize := server.Read(file, Some(size), buf);
    MovedAndClosed(before, server.state, file, f);
    assert status == Success && readSize == size ==> buf[..] == Body(before.volumes[f.owner].fs, f.path).value[..size];
    CloseFile(server, file);
    if status != Success { return None; }
    if readSize != size { return None; }
    r := Some(buf[..]);
  }

  lemma WholeRead(s: Server, file: Id, size: u64)
    requires KnownSize(s, file, size) && size > 0 && s.files[file].cursor == 0
    ensures var (t, r) := ReadStep(s, file, Some(size), true);
            && t.volumes == s.volumes && t.mounts == s.mounts && file in t.files
            && t.files == s.files[file := t.files[file]] && t.files[file].owner == s.files[file].owner
            && match HandleContents(s.volumes[s.files[file].owner].fs, s.files[file])
               case Some(b) => r == Answer(Success, size, b, 0)
               case None => r.status != Success || r.size != size
  {
    hide Body, Listing;
    assert s.files[file := s.files[file]] == s.files;
  }

  lemma MovedAndClosed(before: Server, t: Server, file: Id, f: File)
    requires file !in before.files && file in t.files
    requires t.volumes == before.volumes && t.mounts == before.mounts
    requires t.files == before.files[file := t.files[file]]
    requires t.files[file].owner == f.owner && !IsRoot(before.volumes, file, f.owner)
    ensures CloseStep(t, file) == before
  {
    assert before.files[file := t.files[file]] - {file} == before.files;
  }

  /** The joined file path found at `dp`, terminated, or nothing. */
  function Collected(m: Memory, dp: nat): seq<u16>
  {
    if dp == 0 || WalkUnits(m, dp, MAX_NODES) == [] then [] else WalkUnits(m, dp, MAX_NODES) + [0]
  }

  /** The whole client run against the volume it was loaded from; `alloc` is the address the server would hand out. */
  method ReadOwnFile(server: FileServer, sfs: Id, m: Memory, filePath: nat, alloc: Id) returns (r: Option<seq<byte>>)
    requires server.Valid() && alloc != 0 && alloc !in Live(server.state)
    modifies server`state, server.files
    ensures server.Valid() && server.state == old(server.state)
    ensures r == OwnFile(server.state, sfs, Collected(m, filePath))
  {
    hide WF, FileTables.FileTable, FileTables.PublishTable, MountTable, WalkUnits, OpenStep, CloseStep, OwnFile, Live;
    ghost var before := server.state;
    ghost var us := Collected(m, filePath);
    if filePath == 0 {
      NoOwnFile(before, sfs, us);
      return None;
    }
    var status, root := server.OpenVolume(sfs, true);
    if status != Success {
      NoOwnFile(before, sfs, us);
      return None;
    }
    RootStays(before, sfs);
    var path16 := BuildPath16(m, filePath);
    if |path16| == 0 {
      NoOwnFile(before, sfs, us);
      CloseFile(server, root);
      return None;
    }
    OpenFromRoot(before, sfs, us, alloc);
    var file;
    CollectedTerminated(m, filePath);
    status, file := server.Open(root, true, Some(path16), 1, alloc);
    if status != Success || file == 0 {
      CloseFile(server, root);
      return None;
    }
    NotRoot(before, alloc, sfs);
    r := ReadWhole(server, file, before);
    CloseFile(server, root);
  }

  lemma CollectedTerminated(m: Memory, dp: nat)
    ensures Collected(m, dp) != [] ==> Name16(Some(Collected(m, dp)))
  {
    hide WalkUnits;
    var us := Collected(m, dp);
    if us != [] { assert us[|us| - 1] == 0; }
  }

  lemma NoOwnFile(s: Server, sfs: Id, us: seq<u16>)
    requires sfs !in s.volumes || us == []
    ensures OwnFile(s, sfs, us) == None
  {
  }

  /** Closing the volume root changes nothing. */
  lemma RootStays(s: Server, sfs: Id)
    requires WF(s) && sfs in s.volumes
    ensures CloseStep(s, s.volumes[sfs].root) == s
  {
    hide FilesOk, MountsOk;
    assert VolumeOk(s.files, sfs, s.volumes[sfs].root);
  }

  /** Opening a name read-only from the root succeeds exactly when the client has a file to read. */
  lemma OpenFromRoot(s: Server, sfs: Id, us: seq<u16>, alloc: Id)
    requires WF(s) && sfs in s.volumes && us != [] && alloc != 0
    ensures var (t, r) := OpenStep(s, s.volumes[sfs].root, true, NameOf(us, NAME_CAP), 1, alloc);
            if r.status == Success then
              && r.id == alloc && alloc in t.files && t.files[alloc].owner == sfs && t.files[alloc].cursor == 0
              && t == s.(files := s.files[alloc := t.files[alloc]])
              && OwnFile(s, sfs, us) == HandleContents(s.volumes[sfs].fs, t.files[alloc])
            else t == s && OwnFile(s, sfs, us) == None
  {
    hide FilesOk, MountsOk, JoinPath, NameOf, Body;
    assert VolumeOk(s.files, sfs, s.volumes[sfs].root);
  }

  lemma NotRoot(s: Server, id: Id, owner: Id)
    requires WF(s) && id !in Live(s)
    ensures id !in s.files && !IsRoot(s.volumes, id, owner)
  {
    if owner in s.volumes { assert VolumeOk(s.files, owner, s.volumes[owner].root); }
  }

  /**
    The client's answer in terms of the backing file system: it comes back with `b` exactly if a handle is free, the
    path names a regular file of non-zero Stat size, and `b` is that many bytes from the start of what ReadFile gives.
   */
  lemma OwnFileExactly(s: Server, sfs: Id, us: seq<u16>, b: seq<byte>)
    requires sfs in s.volumes && us != [] && NameOf(us, NAME_CAP) != ""
    ensures OwnFile(s, sfs, us) == Some(b) <==>
              var fs, full := s.volumes[sfs].fs, JoinPath("/", NameOf(us, NAME_CAP));
              && |s.files| < 32
              && fs.stat(full).Some? && !(0x4000 <= fs.stat(full).value.mode < 0x5000)
              && |b| == fs.stat(full).value.size > 0
              && fs.readFile(full).Some? && fs.readFile(full).value.Some? && b <= fs.readFile(full).value.value
  {
    hide JoinPath, NameOf;
    var fs, full := s.volumes[sfs].fs, JoinPath("/", NameOf(us, NAME_CAP));
    if fs.stat(full).Some? && fs.readFile(full).Some? && fs.readFile(full).value.Some? {
      var st, body := fs.stat(full).value, fs.readFile(full).value.value;
      assert DirMode(st.mode) <==> 0x4000 <= st.mode < 0x5000;
      if st.size <= |body| { assert b == body[..st.size] <==> |b| == st.size && b <= body; }
    }
  }

  /** Without a volume, a path, or a name in it, the client comes back with nothing. */
  lemma OwnFileNone(s: Server, sfs: Id, us: seq<u16>)
    requires sfs !in s.volumes || us == [] || NameOf(us, NAME_CAP) == ""
    ensures OwnFile(s, sfs, us) == None
  {
  }

  /**
    End to end: point the client at the device path the loader builds for `path`, on a volume where Stat and
    ReadFile agree about that file, and it reads exactly the file.
   */
  lemma StubReadsBuiltPath(s: Server, sfs: Id, m: Memory, dp: nat, ps: seq<Node>, path: string, b: GoBytes)
    requires sfs in s.volumes && |s.files| < HANDLES
    requires NodesOk(ps) && NoFilePath(ps) && Walkable(ps) && |ps| <= 31
    requires path != "" && 2 * |path| + 6 <= MAX_NODE_SIZE && Bmp(path) && NulFree(path)
    requires Holds(m, dp, Encode(ps + [FilePathNode(path)]))
    requires var fs := s.volumes[sfs].fs;
             var full := JoinPath("/", path);
             fs.stat(full).Some? && !DirMode(fs.stat(full).value.mode) && Body(fs, full) == Some(b) &&
               fs.stat(full).value.size == |b| > 0
    ensures OwnFile(s, sfs, Collected(m, dp)) == Some(b)
  {
    hide JoinPath, NameOf, WalkUnits, Body, Encode;
    BuildThenCollect(m, dp, ps, path);
    NameRoundTrip(path, [], NAME_CAP);
    assert Ucs2(path) + [0] + [] == Ucs2(path) + [0];
    assert b[..|b|] == b;
  }
}
