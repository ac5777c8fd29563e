/** The two fixed-size registries behind the published protocols, and what it takes for them to show a server state. */
module FileTables {
  import opened Bytes
  import opened FileServerSpec
  import opened Registries

  /** One slot of the publisher registry; `proto == 0` marks it free. */
  datatype PublishEntry = PublishEntry(proto: Id, rootFileProto: Id, fs: Option<FileSystem>)

  /** One slot of the handle registry, with its lazily loaded caches. */
  datatype FileEntry = FileEntry(
    proto: Id, owner: Id, path: string, isDir: bool, pos: u64,
    body: Option<GoBytes>, bodyErr: bool, dirents: Option<seq<Dirent>>, direntI: nat)

  const FREE_PUBLISH: PublishEntry := PublishEntry(0, 0, None)
  const FREE_FILE: FileEntry := FileEntry(0, 0, "", false, 0, None, false, None, 0)

  /** A fresh handle has loaded nothing. */
  function NewFile(proto: Id, owner: Id, path: string, isDir: bool): FileEntry
  {
    FileEntry(proto, owner, path, isDir, 0, None, false, None, 0)
  }

  function FileOf(e: FileEntry): File
  {
    File(e.owner, e.path, e.isDir, if e.isDir then e.direntI else e.pos)
  }

  /** Whatever a slot has cached is what the file system would answer now. */
  ghost predicate CacheOk(e: FileEntry, fs: Backing)
  {
    && (e.body.Some? ==> fs.readFile(e.path) == Some(e.body))
    && (e.bodyErr ==> fs.readFile(e.path) == None)
    && (e.dirents.Some? ==> Listing(fs, e.path) == e.dirents)
    && (e.dirents.None? ==> e.direntI == 0)
  }

  ghost predicate Shows(e: FileEntry, files: map<Id, File>, volumes: map<Id, Volume>)
  {
    && e.proto in files && files[e.proto] == FileOf(e)
    && e.owner in volumes && CacheOk(e, volumes[e.owner].fs)
  }

  ghost predicate FileTable(es: seq<FileEntry>, files: map<Id, File>, volumes: map<Id, Volume>)
  {
    && (forall i :: 0 <= i < |es| && es[i].proto != 0 ==> Shows(es[i], files, volumes))
    && (forall i, j :: 0 <= i < j < |es| && es[i].proto != 0 ==> es[i].proto != es[j].proto)
    && (forall id :: id in files ==> id != 0 && exists i :: 0 <= i < |es| && es[i].proto == id)
  }

  ghost predicate PublishTable(ps: seq<PublishEntry>, volumes: map<Id, Volume>)
  {
    && (forall i :: 0 <= i < |ps| && ps[i].proto != 0 ==>
          && ps[i].fs.Some? && ps[i].proto in volumes
          && volumes[ps[i].proto] == Volume(ps[i].rootFileProto, ps[i].fs.value))
    && (forall i, j :: 0 <= i < j < |ps| && ps[i].proto != 0 ==> ps[i].proto != ps[j].proto)
    && (forall v :: v in volumes ==> v != 0 && exists i :: 0 <= i < |ps| && ps[i].proto == v)
  }

  // --- Handle slots ---

  /** Filling a free slot with a new handle, or updating a live one in place. */
  lemma FilePut(es: seq<FileEntry>, files: map<Id, File>, volumes: map<Id, Volume>, i: nat, e: FileEntry)
    requires FileTable(es, files, volumes) && i < |es|
    requires e.proto != 0 && (if es[i].proto == 0 then e.proto !in files else es[i].proto == e.proto)
    requires e.owner in volumes && CacheOk(e, volumes[e.owner].fs)
    ensures FileTable(es[i := e], files[e.proto := FileOf(e)], volumes)
  {
    hide CacheOk, FileOf;
    var es', files' := es[i := e], files[e.proto := FileOf(e)];
    forall k | 0 <= k < |es'| && es'[k].proto != 0
      ensures Shows(es'[k], files', volumes)
    {
      if k != i { assert Shows(es[k], files, volumes); }
    }
    forall id | id in files'
      ensures id != 0 && exists k :: 0 <= k < |es'| && es'[k].proto == id
    {
      if id == e.proto {
        assert es'[i].proto == id;
      } else {
        var k :| 0 <= k < |es| && es[k].proto == id;
        assert es'[k].proto == id;
      }
    }
  }

  lemma FileClear(es: seq<FileEntry>, files: map<Id, File>, volumes: map<Id, Volume>, i: nat)
    requires FileTable(es, files, volumes) && i < |es| && es[i].proto != 0
    ensures FileTable(es[i := FREE_FILE], files - {es[i].proto}, volumes)
  {
    hide CacheOk, FileOf;
    var es', files' := es[i := FREE_FILE], files - {es[i].proto};
    forall k | 0 <= k < |es'| && es'[k].proto != 0
      ensures Shows(es'[k], files', volumes)
    {
      assert Shows(es[k], files, volumes);
    }
    forall id | id in files'
      ensures id != 0 && exists k :: 0 <= k < |es'| && es'[k].proto == id
    {
      var k :| 0 <= k < |es| && es[k].proto == id;
      assert es'[k].proto == id;
    }
  }

  /** Freeing a slot that was free already. */
  lemma FileErase(es: seq<FileEntry>, files: map<Id, File>, volumes: map<Id, Volume>, i: nat)
    requires FileTable(es, files, volumes) && i < |es| && es[i].proto == 0
    ensures FileTable(es[i := FREE_FILE], files, volumes)
  {
    hide Shows;
    var es' := es[i := FREE_FILE];
    forall id | id in files
      ensures exists k :: 0 <= k < |es'| && es'[k].proto == id
    {
      var k :| 0 <= k < |es| && es[k].proto == id;
      assert es'[k].proto == id;
    }
  }

  /** A new volume does not disturb the handles of the others. */
  lemma FileTableGrow(es: seq<FileEntry>, files: map<Id, File>, volumes: map<Id, Volume>, proto: Id, v: Volume)
    requires FileTable(es, files, volumes) && proto !in volumes
    ensures FileTable(es, files, volumes[proto := v])
  {
    hide CacheOk, FileOf;
    forall k | 0 <= k < |es| && es[k].proto != 0
      ensures Shows(es[k], files, volumes[proto := v])
    {
      assert Shows(es[k], files, volumes);
    }
  }

  /** Sweeping out every handle of one volume. */
  lemma FileSweep(es: seq<FileEntry>, es': seq<FileEntry>, files: map<Id, File>, volumes: map<Id, Volume>, proto: Id)
    requires FileTable(es, files, volumes) && |es'| == |es|
    requires forall i :: 0 <= i < |es| ==> es'[i] == if es[i].owner == proto then FREE_FILE else es[i]
    ensures FileTable(es', Without(files, proto), volumes - {proto})
  {
    hide Shows;
    var files', volumes' := Without(files, proto), volumes - {proto};
    forall k | 0 <= k < |es'| && es'[k].proto != 0
      ensures Shows(es'[k], files', volumes')
    {
      ShowsWithout(es[k], files, volumes, proto);
    }
    forall id | id in files'
      ensures id != 0 && exists k :: 0 <= k < |es'| && es'[k].proto == id
    {
      var k :| 0 <= k < |es| && es[k].proto == id;
      ShowsWithout(es[k], files, volumes, proto);
      assert es'[k].proto == id;
    }
  }

  lemma ShowsWithout(e: FileEntry, files: map<Id, File>, volumes: map<Id, Volume>, proto: Id)
    requires Shows(e, files, volumes)
    ensures e.proto in Without(files, proto) <==> e.owner != proto
    ensures e.owner != proto ==> Shows(e, Without(files, proto), volumes - {proto})
  {
    hide CacheOk;
  }

  // --- Publisher slots ---

  lemma PublishPut(ps: seq<PublishEntry>, volumes: map<Id, Volume>, i: nat, e: PublishEntry)
    requires PublishTable(ps, volumes) && i < |ps| && ps[i].proto == 0
    requires e.proto != 0 && e.proto !in volumes && e.fs.Some?
    ensures PublishTable(ps[i := e], volumes[e.proto := Volume(e.rootFileProto, e.fs.value)])
  {
    var ps', volumes' := ps[i := e], volumes[e.proto := Volume(e.rootFileProto, e.fs.value)];
    forall v | v in volumes'
      ensures v != 0 && exists k :: 0 <= k < |ps'| && ps'[k].proto == v
    {
      if v == e.proto {
        assert ps'[i].proto == v;
      } else {
        var k :| 0 <= k < |ps| && ps[k].proto == v;
        assert ps'[k].proto == v;
      }
    }
  }

  lemma PublishClear(ps: seq<PublishEntry>, volumes: map<Id, Volume>, i: nat)
    requires PublishTable(ps, volumes) && i < |ps|
    ensures PublishTable(ps[i := FREE_PUBLISH], volumes - {ps[i].proto})
  {
    var ps', volumes' := ps[i := FREE_PUBLISH], volumes - {ps[i].proto};
    forall v | v in volumes'
      ensures v != 0 && exists k :: 0 <= k < |ps'| && ps'[k].proto == v
    {
      var k :| 0 <= k < |ps| && ps[k].proto == v;
      assert ps'[k].proto == v;
    }
  }

  lemma PublishErase(ps: seq<PublishEntry>, volumes: map<Id, Volume>, i: nat)
    requires PublishTable(ps, volumes) && i < |ps| && ps[i].proto == 0
    ensures PublishTable(ps[i := FREE_PUBLISH], volumes)
  {
    var ps' := ps[i := FREE_PUBLISH];
    forall v | v in volumes
      ensures exists k :: 0 <= k < |ps'| && ps'[k].proto == v
    {
      var k :| 0 <= k < |ps| && ps[k].proto == v;
      assert ps'[k].proto == v;
    }
  }

  // --- Counting slots ---

  lemma FilesFull(es: seq<FileEntry>, files: map<Id, File>, volumes: map<Id, Volume>)
    requires FileTable(es, files, volumes)
    ensures |files| <= |es|
    ensures |files| == |es| <==> forall i :: 0 <= i < |es| ==> es[i].proto != 0
  {
    hide CacheOk, FileOf;
    var ids := seq(|es|, i requires 0 <= i < |es| => es[i].proto);
    forall i | 0 <= i < |es| && ids[i] != 0
      ensures ids[i] in files
    {
      assert Shows(es[i], files, volumes);
    }
    forall id | id in files
      ensures id != 0 && id in ids
    {
      var i :| 0 <= i < |es| && es[i].proto == id;
      assert ids[i] == id;
    }
    FullWhenCounted(ids, files.Keys);
    assert forall i :: 0 <= i < |es| ==> ids[i] == es[i].proto;
  }

  lemma VolumesFull(ps: seq<PublishEntry>, volumes: map<Id, Volume>)
    requires PublishTable(ps, volumes)
    ensures |volumes| <= |ps|
    ensures |volumes| == |ps| <==> forall i :: 0 <= i < |ps| ==> ps[i].proto != 0
  {
    var ids := seq(|ps|, i requires 0 <= i < |ps| => ps[i].proto);
    forall v | v in volumes
      ensures v != 0 && v in ids
    {
      var i :| 0 <= i < |ps| && ps[i].proto == v;
      assert ids[i] == v;
    }
    FullWhenCounted(ids, volumes.Keys);
    assert forall i :: 0 <= i < |ps| ==> ids[i] == ps[i].proto;
  }
}
