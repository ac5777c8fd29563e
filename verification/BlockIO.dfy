/**
  The published read-only EFI_BLOCK_IO_PROTOCOL: reads over in-memory images, and the registry they are served from.
 */
module BlockIOSpec {
  import opened Bytes

  type Id = nat

  const BLOCK: nat := 512
  const SLOTS: nat := 4
  const TWO55: nat := 0x80_0000_0000_0000

  datatype Status = Success | InvalidParameter | BadBufferSize | NotFound

  /** A published image: whole blocks, at least one. */
  type Image = b: seq<byte> | 0 < |b| < 0x4000_0000_0000_0000 && |b| % BLOCK == 0 witness Zeros(BLOCK)

  function LastBlock(image: Image): nat { |image| / BLOCK - 1 }

  /** ReadBlocks in 64-bit arithmetic: the status and the bytes delivered. */
  function ReadStep(image: Option<Image>, lba: u64, size: u64, hasBuffer: bool): (r: (Status, seq<byte>))
    ensures |r.1| <= size && (r.1 != [] ==> hasBuffer)
  {
    if image.None? then (NotFound, [])
    else if size == 0 then (Success, [])
    else if size % BLOCK != 0 then (BadBufferSize, [])
    else if !hasBuffer then (InvalidParameter, [])
    else
      var off := lba * BLOCK % TWO64;
      var end := (off + size) % TWO64;
      if off > |image.value| || end > |image.value| || end < off then (InvalidParameter, [])
      else (Success, image.value[off..off + size])
  }

  /** The range of blocks a caller asks for lies within 0..LastBlock. */
  predicate InRange(image: Image, lba: nat, size: nat)
  {
    lba + size / BLOCK <= LastBlock(image) + 1
  }

  lemma OffsetWraps(lba: u64)
    ensures lba * BLOCK % TWO64 == lba % TWO55 * BLOCK
  {
    var q, r := lba / TWO55, lba % TWO55;
    assert lba == q * TWO55 + r;
    assert lba * BLOCK == q * TWO64 + r * BLOCK;
  }

  lemma BlocksFit(image: Image, lba: nat, size: nat)
    requires size % BLOCK == 0
    ensures InRange(image, lba, size) <==> lba * BLOCK + size <= |image|
  {
    assert |image| == (LastBlock(image) + 1) * BLOCK && size == size / BLOCK * BLOCK;
  }

  lemma RangeTest(image: Image, off: nat, size: u64)
    requires off < TWO64 && size > 0
    ensures var end := (off + size) % TWO64;
            (off <= |image| && end <= |image| && end >= off) <==> off + size <= |image|
  {
    if off + size < TWO64 {
      assert (off + size) % TWO64 == off + size;
    } else {
      assert (off + size) % TWO64 == off + size - TWO64;
    }
  }

  /**
    For every 64-bit LBA, a non-empty block-multiple read succeeds exactly when the range fits after reducing the
    LBA modulo 2^55.
   */
  lemma ReadSucceedsExactly(image: Image, lba: u64, size: u64)
    requires size > 0 && size % BLOCK == 0
    ensures var (st, data) := ReadStep(Some(image), lba, size, true);
            if InRange(image, lba % TWO55, size) then
              st == Success && data == image[lba % TWO55 * BLOCK..lba % TWO55 * BLOCK + size]
            else st == InvalidParameter && data == []
  {
    OffsetWraps(lba);
    BlocksFit(image, lba % TWO55, size);
    RangeTest(image, lba % TWO55 * BLOCK, size);
  }

  /**
    The documented rule, success only within 0..LastBlock, is kept exactly when the LBA is below 2^55 or its
    remainder modulo 2^55 does not fall into the image.
   */
  lemma RangeRuleKept(image: Image, lba: u64, size: u64)
    requires size > 0 && size % BLOCK == 0
    ensures (ReadStep(Some(image), lba, size, true).0 == Success <==> InRange(image, lba, size)) <==>
              lba < TWO55 || !InRange(image, lba % TWO55, size)
  {
    ReadSucceedsExactly(image, lba, size);
    if lba >= TWO55 {
      assert LastBlock(image) + 1 < TWO55;
    } else {
      assert lba % TWO55 == lba;
    }
  }

  /** Block 2^55 of a one-block image reads as block 0. */
  lemma WrappedReadSucceeds()
    ensures ReadStep(Some(Zeros(BLOCK)), TWO55, BLOCK, true).0 == Success && TWO55 > LastBlock(Zeros(BLOCK))
  {
    ReadSucceedsExactly(Zeros(BLOCK), TWO55, BLOCK);
  }

  /** What is refused, and how, whatever the LBA. */
  lemma ReadRefusals(image: Option<Image>, lba: u64, size: u64, hasBuffer: bool)
    ensures var (st, data) := ReadStep(image, lba, size, hasBuffer);
            && (st == NotFound <==> image == None)
            && (image.Some? && size == 0 ==> st == Success && data == [])
            && (st == BadBufferSize <==> image.Some? && size % 512 != 0)
            && (image.Some? && size > 0 && size % 512 == 0 && !hasBuffer ==> st == InvalidParameter)
            && (st != Success ==> data == [])
  {
  }

  // --- Reading an image in pieces ---

  function Sum(counts: seq<nat>): nat { if counts == [] then 0 else counts[0] + Sum(counts[1..]) }

  /** Consecutive reads of `counts` blocks each, from `lba` on; None if one fails. */
  function ReadPieces(image: Image, lba: nat, counts: seq<nat>): Option<seq<byte>>
    requires lba + Sum(counts) < TWO55
    decreases |counts|
  {
    if counts == [] then Some([])
    else
      var (st, data) := ReadStep(Some(image), lba, counts[0] * BLOCK, true);
      match ReadPieces(image, lba + counts[0], counts[1..])
      case None => None
      case Some(rest) => if st == Success then Some(data + rest) else None
  }

  lemma {:induction false} PiecesRead(image: Image, lba: nat, counts: seq<nat>)
    requires lba + Sum(counts) <= LastBlock(image) + 1
    ensures lba + Sum(counts) < TWO55
    ensures ReadPieces(image, lba, counts) == Some(image[lba * BLOCK..(lba + Sum(counts)) * BLOCK])
    decreases |counts|
  {
    hide ReadStep;
    assert LastBlock(image) + 1 < TWO55;
    assert |image| == (LastBlock(image) + 1) * BLOCK;
    if counts == [] {
      assert image[lba * BLOCK..lba * BLOCK] == [];
    } else {
      var n := counts[0];
      PiecesRead(image, lba + n, counts[1..]);
      PieceRead(image, lba, n);
      Adjoin(image, lba * BLOCK, (lba + n) * BLOCK, (lba + Sum(counts)) * BLOCK);
    }
  }

  lemma PieceRead(image: Image, lba: nat, n: nat)
    requires lba + n <= LastBlock(image) + 1
    ensures lba < TWO55 && n * BLOCK < TWO64 && (lba + n) * BLOCK <= |image|
    ensures ReadStep(Some(image), lba, n * BLOCK, true) == (Success, image[lba * BLOCK..(lba + n) * BLOCK])
  {
    assert |image| == (LastBlock(image) + 1) * BLOCK;
    if n == 0 {
      assert image[lba * BLOCK..lba * BLOCK] == [];
    } else {
      assert n * BLOCK % BLOCK == 0 && n * BLOCK / BLOCK == n && lba % TWO55 == lba;
      ReadSucceedsExactly(image, lba, n * BLOCK);
    }
  }

  lemma Adjoin(s: seq<byte>, a: nat, b: nat, c: nat)
    requires a <= b <= c <= |s|
    ensures s[a..b] + s[b..c] == s[a..c]
  {
  }

  /** Any split of the blocks 0..LastBlock into consecutive reads reassembles the image. */
  lemma AnySplitReassembles(image: Image, counts: seq<nat>)
    requires Sum(counts) == LastBlock(image) + 1
    ensures Sum(counts) < TWO55 && ReadPieces(image, 0, counts) == Some(image)
  {
    hide ReadStep;
    PiecesRead(image, 0, counts);
    assert image[0..|image|] == image;
  }

  // --- Publishing ---

  datatype Firmware = NoBootServices | Refused | Accepted(handle: Id)
  datatype PublishError = EmptyImage | NotAligned | NoBootServicesTable | RegistryFull | EfiError | NotPublished

  datatype Devices = Devices(images: map<Id, Image>, mounts: map<Id, Id>)

  datatype Call =
    | Publish(image: seq<byte>, proto: Id, fw: Firmware)
    | Unpublish(handle: Id, fw: Firmware)

  /** The allocator returns an address of no live structure, firmware a handle without a Block IO interface. */
  predicate Legal(s: Devices, c: Call)
  {
    c.Publish? ==>
      && |c.image| < 0x4000_0000_0000_0000
      && c.proto != 0 && c.proto !in s.images
      && (c.fw.Accepted? ==> c.fw.handle != 0 && c.fw.handle !in s.mounts)
  }

  function Step(s: Devices, c: Call): (Devices, Option<PublishError>)
    requires Legal(s, c)
  {
    match c
    case Publish(image, proto, fw) =>
      if |image| == 0 then (s, Some(EmptyImage))
      else if |image| % BLOCK != 0 then (s, Some(NotAligned))
      else if fw.NoBootServices? then (s, Some(NoBootServicesTable))
      else if |s.images| >= SLOTS then (s, Some(RegistryFull))
      else if fw.Refused? then (s, Some(EfiError))
      else (Devices(s.images[proto := image], s.mounts[fw.handle := proto]), None)
    case Unpublish(handle, fw) =>
      if handle == 0 || handle !in s.mounts then (s, Some(NotPublished))
      else if fw.NoBootServices? then (s, Some(NoBootServicesTable))
      else if fw.Refused? then (s, Some(EfiError))
      else (Devices(s.images - {s.mounts[handle]}, s.mounts - {handle}), None)
  }

  ghost predicate LegalRun(s: Devices, cs: seq<Call>)
    decreases |cs|
  {
    cs == [] || (Legal(s, cs[0]) && LegalRun(Step(s, cs[0]).0, cs[1..]))
  }

  function Run(s: Devices, cs: seq<Call>): Devices
    requires LegalRun(s, cs)
    decreases |cs|
  {
    if cs == [] then s else Run(Step(s, cs[0]).0, cs[1..])
  }

  ghost predicate Mounted(mounts: map<Id, Id>, id: Id) { exists h :: h in mounts && mounts[h] == id }

  /** Handles and live structures are in one-to-one correspondence. */
  ghost predicate Paired(ids: set<Id>, mounts: map<Id, Id>)
  {
    && 0 !in ids
    && (forall h :: h in mounts ==> h != 0 && mounts[h] in ids)
    && (forall h, k :: h in mounts && k in mounts && mounts[h] == mounts[k] ==> h == k)
    && (forall id :: id in ids ==> Mounted(mounts, id))
  }

  ghost predicate WF(s: Devices) { |s.images| <= SLOTS && Paired(s.images.Keys, s.mounts) }

  function ImageOf(s: Devices, id: Id): Option<Image> { if id in s.images then Some(s.images[id]) else None }

  lemma PairAdd(ids: set<Id>, mounts: map<Id, Id>, id: Id, h: Id)
    requires Paired(ids, mounts) && id != 0 && id !in ids && h != 0 && h !in mounts
    ensures Paired(ids + {id}, mounts[h := id])
  {
    var mounts' := mounts[h := id];
    assert mounts'[h] == id;
    forall x | x in ids
      ensures Mounted(mounts', x)
    {
      assert Mounted(mounts, x);
      var k :| k in mounts && mounts[k] == x;
      assert mounts'[k] == x;
    }
  }

  lemma PairRemove(ids: set<Id>, mounts: map<Id, Id>, h: Id)
    requires Paired(ids, mounts) && h in mounts
    ensures Paired(ids - {mounts[h]}, mounts - {h})
  {
    var mounts' := mounts - {h};
    forall x | x in ids && x != mounts[h]
      ensures Mounted(mounts', x)
    {
      assert Mounted(mounts, x);
      var k :| k in mounts && mounts[k] == x;
      assert k in mounts' && mounts'[k] == x;
    }
  }

  lemma PublishKeeps(s: Devices, proto: Id, image: Image, h: Id)
    requires WF(s) && |s.images| < SLOTS && proto != 0 && proto !in s.images && h != 0 && h !in s.mounts
    ensures WF(Devices(s.images[proto := image], s.mounts[h := proto]))
  {
    hide Paired;
    PairAdd(s.images.Keys, s.mounts, proto, h);
    assert s.images[proto := image].Keys == s.images.Keys + {proto};
  }

  lemma UnpublishKeeps(s: Devices, h: Id)
    requires WF(s) && h in s.mounts
    ensures WF(Devices(s.images - {s.mounts[h]}, s.mounts - {h}))
  {
    hide Paired;
    PairRemove(s.images.Keys, s.mounts, h);
    var left := s.images - {s.mounts[h]};
    assert left.Keys == s.images.Keys - {s.mounts[h]};
    assert |left.Keys| <= |s.images.Keys|;
  }

  lemma StepKeeps(s: Devices, c: Call)
    requires WF(s) && Legal(s, c)
    ensures WF(Step(s, c).0)
  {
    hide WF;
    if Step(s, c).1.None? {
      match c
      case Publish(image, proto, fw) => PublishKeeps(s, proto, image, fw.handle);
      case Unpublish(handle, _) => UnpublishKeeps(s, handle);
    }
  }

  /** Publishing succeeds exactly for whole blocks, with boot services, a free slot and the firmware's consent. */
  lemma PublishSucceedsExactly(s: Devices, image: seq<byte>, proto: Id, fw: Firmware)
    requires Legal(s, Publish(image, proto, fw))
    ensures var (t, e) := Step(s, Publish(image, proto, fw));
            && (e == None <==> image != [] && |image| % 512 == 0 && |s.images| < 4 && fw.Accepted?)
            && (e != None ==> t == s)
            && (e == Some(EmptyImage) <==> image == [])
            && (e == Some(NotAligned) <==> |image| % 512 != 0)
            && (e == Some(RegistryFull) ==> |s.images| >= 4)
            && (e == Some(NoBootServicesTable) ==> fw == NoBootServices)
            && (e == Some(EfiError) ==> fw == Refused)
            && e != Some(NotPublished)
  {
  }

  /** Unpublishing succeeds exactly for a mounted handle and with the firmware's consent, and frees one slot. */
  lemma UnpublishSucceedsExactly(s: Devices, handle: Id, fw: Firmware)
    requires WF(s)
    ensures var (t, e) := Step(s, Unpublish(handle, fw));
            && (e == None <==> handle in s.mounts && fw.Accepted?)
            && (e == Some(NotPublished) <==> handle !in s.mounts)
            && (e == Some(NoBootServicesTable) ==> fw == NoBootServices)
            && (e == Some(EfiError) ==> fw == Refused)
            && (e != None ==> t == s)
            && (e == None ==> handle !in t.mounts && s.mounts[handle] !in t.images && |t.images| == |s.images| - 1)
  {
    if handle in s.mounts {
      var left := s.images - {s.mounts[handle]};
      assert left.Keys == s.images.Keys - {s.mounts[handle]};
      assert |left.Keys| == |s.images.Keys| - 1;
    }
  }

  /**
    From Publish to ReadBlocks: a published image is mounted on the firmware's handle, and through any later run
    that does not take it down its structure serves exactly the bytes given to Publish, in any split.
   */
  lemma PublishedImageServed(s: Devices, image: Image, proto: Id, h: Id, cs: seq<Call>, counts: seq<nat>)
    requires WF(s) && |s.images| < 4 && Legal(s, Publish(image, proto, Accepted(h)))
    requires var t := Step(s, Publish(image, proto, Accepted(h))).0;
             LegalRun(t, cs) && !TakenDown(t, cs, proto)
    requires forall i :: 0 <= i < |cs| ==> !Reissues(cs[i], proto)
    requires Sum(counts) == |image| / 512
    ensures var (t, e) := Step(s, Publish(image, proto, Accepted(h)));
            && e == None && h in t.mounts && t.mounts[h] == proto
            && ImageOf(Run(t, cs), proto) == Some(image)
            && Sum(counts) < TWO55 && ReadPieces(ImageOf(Run(t, cs), proto).value, 0, counts) == Some(image)
  {
    hide Run, TakenDown, WF, ReadPieces;
    StepKeeps(s, Publish(image, proto, Accepted(h)));
    RunsServe(Step(s, Publish(image, proto, Accepted(h))).0, cs, proto);
    AnySplitReassembles(image, counts);
  }

  predicate Reissues(c: Call, id: Id) { c.Publish? && c.proto == id }

  predicate TakesDown(s: Devices, c: Call, id: Id)
  {
    c.Unpublish? && c.handle != 0 && c.handle in s.mounts && s.mounts[c.handle] == id && c.fw.Accepted?
  }

  /** Some call of the run unpublishes `id`. */
  ghost predicate TakenDown(s: Devices, cs: seq<Call>, id: Id)
    requires LegalRun(s, cs)
    decreases |cs|
  {
    cs != [] && (TakesDown(s, cs[0], id) || TakenDown(Step(s, cs[0]).0, cs[1..], id))
  }

  lemma StepServes(s: Devices, c: Call, id: Id)
    requires Legal(s, c) && !Reissues(c, id)
    ensures id !in s.images ==> id !in Step(s, c).0.images
    ensures id in s.images ==>
              if TakesDown(s, c, id) then id !in Step(s, c).0.images
              else id in Step(s, c).0.images && Step(s, c).0.images[id] == s.images[id]
  {
  }

  /**
    Across all publish and unpublish runs: the registry stays consistent, a stale id is refused with NOT_FOUND
    until the allocator reissues it, and a live id serves the image it was published with exactly until it is
    unpublished.
   */
  lemma {:induction false} RunsServe(s: Devices, cs: seq<Call>, id: Id)
    requires WF(s) && LegalRun(s, cs)
    requires forall i :: 0 <= i < |cs| ==> !Reissues(cs[i], id)
    ensures WF(Run(s, cs))
    ensures ImageOf(Run(s, cs), id) == if id !in s.images || TakenDown(s, cs, id) then None else Some(s.images[id])
    ensures id !in s.images ==>
              forall lba: u64, size: u64, b: bool :: ReadStep(ImageOf(Run(s, cs), id), lba, size, b) == (NotFound, [])
    decreases |cs|
  {
    hide Step, WF, TakesDown;
    if cs != [] {
      StepKeeps(s, cs[0]);
      StepServes(s, cs[0], id);
      RunsServe(Step(s, cs[0]).0, cs[1..], id);
    }
  }
}

/** The registry the trampolines scan and the publish calls that fill it. */
module BlockIOServers {
  import opened Bytes
  import opened BlockIOSpec
  import opened Registries

  /** `proto == 0` marks a free slot. */
  datatype Slot = Slot(proto: Id, body: seq<byte>)

  const FREE: Slot := Slot(0, [])

  datatype Mount = Mount(protocol: Id, slot: nat)

  ghost predicate SlotTable(ss: seq<Slot>, images: map<Id, Image>)
  {
    && (forall i :: 0 <= i < |ss| && ss[i].proto != 0 ==> ss[i].proto in images && images[ss[i].proto] == ss[i].body)
    && (forall i, j :: 0 <= i < j < |ss| && ss[i].proto != 0 ==> ss[i].proto != ss[j].proto)
    && (forall id :: id in images ==> id != 0 && exists i :: 0 <= i < |ss| && ss[i].proto == id)
  }

  ghost predicate MountTable(mounted: map<Id, Mount>, mounts: map<Id, Id>, ss: seq<Slot>)
  {
    && mounted.Keys == mounts.Keys
    && forall h :: h in mounted ==>
         mounted[h].protocol == mounts[h] && mounted[h].slot < |ss| && ss[mounted[h].slot].proto == mounts[h]
  }

  lemma SlotPut(ss: seq<Slot>, images: map<Id, Image>, i: nat, proto: Id, image: Image)
    requires SlotTable(ss, images) && i < |ss| && ss[i].proto == 0 && proto != 0 && proto !in images
    ensures SlotTable(ss[i := Slot(proto, image)], images[proto := image])
  {
    var ss', images' := ss[i := Slot(proto, image)], images[proto := image];
    forall id | id in images'
      ensures id != 0 && exists k :: 0 <= k < |ss'| && ss'[k].proto == id
    {
      if id == proto {
        assert ss'[i].proto == id;
      } else {
        var k :| 0 <= k < |ss| && ss[k].proto == id;
        assert ss'[k].proto == id;
      }
    }
  }

  /** Freeing a slot removes whatever it held. */
  lemma SlotClear(ss: seq<Slot>, images: map<Id, Image>, i: nat)
    requires SlotTable(ss, images) && i < |ss|
    ensures SlotTable(ss[i := FREE], if ss[i].proto == 0 then images else images - {ss[i].proto})
  {
    var ss' := ss[i := FREE];
    var images' := if ss[i].proto == 0 then images else images - {ss[i].proto};
    forall id | id in images'
      ensures id != 0 && exists k :: 0 <= k < |ss'| && ss'[k].proto == id
    {
      var k :| 0 <= k < |ss| && ss[k].proto == id;
      assert ss'[k].proto == id;
    }
  }

  lemma SlotsFull(ss: seq<Slot>, images: map<Id, Image>)
    requires SlotTable(ss, images)
    ensures |images| <= |ss|
    ensures |images| == |ss| <==> forall i :: 0 <= i < |ss| ==> ss[i].proto != 0
  {
    var ids := seq(|ss|, i requires 0 <= i < |ss| => ss[i].proto);
    forall id | id in images
      ensures id != 0 && id in ids
    {
      var i :| 0 <= i < |ss| && ss[i].proto == id;
      assert ids[i] == id;
    }
    FullWhenCounted(ids, images.Keys);
    assert forall i :: 0 <= i < |ss| ==> ids[i] == ss[i].proto;
  }

  lemma PublishMounts(mounted: map<Id, Mount>, s: Devices, ss: seq<Slot>, slot: nat, e: Slot, h: Id)
    requires WF(s) && slot < |ss| && ss[slot].proto == 0 && MountTable(mounted, s.mounts, ss)
    ensures MountTable(mounted, s.mounts, ss[slot := FREE])
    ensures MountTable(mounted[h := Mount(e.proto, slot)], s.mounts[h := e.proto], ss[slot := e])
  {
  }

  lemma UnpublishMounts(mounted: map<Id, Mount>, s: Devices, ss: seq<Slot>, handle: Id)
    requires WF(s) && MountTable(mounted, s.mounts, ss) && SlotTable(ss, s.images) && handle in mounted
    ensures MountTable(mounted - {handle}, s.mounts - {handle}, ss[mounted[handle].slot := FREE])
  {
    MountsWithout(mounted, s.mounts, ss, handle);
  }

  lemma MountsWithout(mounted: map<Id, Mount>, mounts: map<Id, Id>, ss: seq<Slot>, handle: Id)
    requires MountTable(mounted, mounts, ss) && handle in mounted
    requires forall h :: h in mounts && mounts[h] == mounts[handle] ==> h == handle
    ensures MountTable(mounted - {handle}, mounts - {handle}, ss[mounted[handle].slot := FREE])
  {
    assert forall h :: h in mounted && h != handle ==> mounted[h].slot != mounted[handle].slot;
  }

  class BlockDevices {
    const slots: array<Slot>
    var mounted: map<Id, Mount>
    ghost var state: Devices

    ghost predicate Valid()
      reads this, slots
    {
      && slots.Length == SLOTS && WF(state)
      && SlotTable(slots[..], state.images)
      && MountTable(mounted, state.mounts, slots[..])
    }

    constructor ()
      ensures Valid() && state == Devices(map[], map[]) && fresh(slots)
    {
      slots := new Slot[SLOTS](_ => FREE);
      mounted := map[];
      state := Devices(map[], map[]);
    }

    method Lookup(this_: Id) returns (body: Option<Image>)
      requires Valid()
      ensures body == ImageOf(state, this_)
    {
      hide WF, MountTable;
      for i := 0 to SLOTS
        invariant forall k :: 0 <= k < i ==> slots[..][k].proto == 0 || slots[..][k].proto != this_
      {
        if slots[i].proto == this_ && slots[i].proto != 0 {
          assert slots[..][i].proto == this_;
          return Some(slots[i].body);
        }
      }
      body := None;
    }

    static method CopyBlocks(buffer: array<byte>, body: seq<byte>, off: nat, n: nat)
      requires off + n <= |body| && n <= buffer.Length
      modifies buffer
      ensures buffer[..] == Splice(old(buffer[..]), 0, body[off..off + n])
    {
      for i := 0 to n
        invariant forall k :: 0 <= k < i ==> buffer[k] == body[off + k]
        invariant forall k :: i <= k < buffer.Length ==> buffer[k] == old(buffer[k])
      {
        buffer[i] := body[off + i];
      }
      assert buffer[..n] == body[off..off + n];
      assert buffer[n..] == old(buffer[..])[n..];
    }

    /** Copies whole blocks into the caller's buffer, byte by byte. */
    method ReadBlocks(this_: Id, lba: u64, bufferSize: u64, buffer: array?<byte>) returns (status: Status)
      requires Valid()
      requires buffer != null ==> bufferSize <= buffer.Length
      modifies buffer
      ensures status == ReadStep(ImageOf(state, this_), lba, bufferSize, buffer != null).0
      ensures buffer != null ==>
                buffer[..] == Splice(old(buffer[..]), 0, ReadStep(ImageOf(state, this_), lba, bufferSize, true).1)
    {
      hide WF, SlotTable, MountTable;
      assert buffer != null ==> Splice(buffer[..], 0, []) == buffer[..];
      var ent := Lookup(this_);
      if ent.None? { return NotFound; }
      if bufferSize == 0 { return Success; }
      if bufferSize % BLOCK != 0 { return BadBufferSize; }
      if buffer == null { return InvalidParameter; }
      var size := |ent.value|;
      var off: u64 := lba * BLOCK % TWO64;
      if off > size { return InvalidParameter; }
      var end: u64 := (off + bufferSize) % TWO64;
      if end > size || end < off { return InvalidParameter; }
      RangeTest(ent.value, off, bufferSize);
      CopyBlocks(buffer, ent.value, off, bufferSize);
      return Success;
    }

    /** Reserves a slot before the firmware install and gives it back when that fails. */
    method Publish(image: seq<byte>, proto: Id, fw: Firmware) returns (error: Option<PublishError>, lastBlock: nat)
      requires Valid() && Legal(state, Call.Publish(image, proto, fw))
      modifies `state, `mounted, slots
      ensures Valid()
      ensures (state, error) == Step(old(state), Call.Publish(image, proto, fw))
      ensures error.None? ==> |image| == (lastBlock + 1) * BLOCK
    {
      hide WF, SlotTable, MountTable;
      lastBlock := 0;
      if |image| == 0 { return Some(EmptyImage), 0; }
      if |image| % BLOCK != 0 { return Some(NotAligned), 0; }
      if fw.NoBootServices? { return Some(NoBootServicesTable), 0; }
      lastBlock := |image| / BLOCK - 1;
      ghost var ss := slots[..];
      SlotsFull(ss, state.images);
      var slot := FreeSlot();
      if slot < 0 { return Some(RegistryFull), 0; }
      assert ss[slot].proto == 0;
      slots[slot] := Slot(proto, image);
      assert slots[..] == ss[slot := Slot(proto, image)];
      PublishMounts(mounted, state, ss, slot, Slot(proto, image), if fw.Accepted? then fw.handle else 0);
      if fw.Refused? {
        slots[slot] := FREE;
        assert slots[..] == ss[slot := FREE];
        SlotClear(ss, state.images, slot);
        return Some(EfiError), 0;
      }
      StepKeeps(state, Call.Publish(image, proto, fw));
      SlotPut(ss, state.images, slot, proto, image);
      mounted := mounted[fw.handle := Mount(proto, slot)];
      state := Step(state, Call.Publish(image, proto, fw)).0;
      error := None;
    }

    method FreeSlot() returns (slot: int)
      requires slots.Length == SLOTS
      ensures -1 <= slot < SLOTS
      ensures slot >= 0 ==> slots[slot].proto == 0
      ensures slot == -1 ==> forall k :: 0 <= k < SLOTS ==> slots[..][k].proto != 0
    {
      for i := 0 to SLOTS
        invariant forall k :: 0 <= k < i ==> slots[..][k].proto != 0
      {
        if slots[i].proto == 0 { return i; }
      }
      slot := -1;
    }

    method Unpublish(handle: Id, fw: Firmware) returns (error: Option<PublishError>)
      requires Valid()
      modifies `state, `mounted, slots
      ensures Valid()
      ensures (state, error) == Step(old(state), Call.Unpublish(handle, fw))
    {
      hide SlotTable, Paired;
      if handle == 0 { return Some(NotPublished); }
      if handle !in mounted { return Some(NotPublished); }
      var m := mounted[handle];
      if fw.NoBootServices? { return Some(NoBootServicesTable); }
      if fw.Refused? { return Some(EfiError); }
      ghost var ss := slots[..];
      SlotClear(ss, state.images, m.slot);
      UnpublishMounts(mounted, state, ss, handle);
      MountNonZero(state, handle);
      StepKeeps(state, Call.Unpublish(handle, fw));
      if m.slot < SLOTS { slots[m.slot] := FREE; }
      assert slots[..] == ss[m.slot := FREE];
      mounted := mounted - {handle};
      state := Step(state, Call.Unpublish(handle, fw)).0;
      error := None;
    }
  }

  lemma MountNonZero(s: Devices, handle: Id)
    requires WF(s) && handle in s.mounts
    ensures s.mounts[handle] != 0
  {
  }
}
