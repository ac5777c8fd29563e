/** EFI_FILE_INFO records (section 13.5.16 of UEFI 2.10): an 80-byte header and a NUL-terminated CHAR16 name. */
module FileInfo {
  import opened Bytes
  import opened Text

  const HEADER_SIZE: nat := 80
  const ATTR_READ_ONLY: u64 := 0x01
  const ATTR_DIRECTORY: u64 := 0x10

  function InfoSize(name: string): nat { HEADER_SIZE + 2 * (|name| + 1) }

  /** Size, FileSize, PhysicalSize, three zero EFI_TIMEs, Attribute, FileName. */
  function Encode(name: string, size: u64, attr: u64): (r: seq<byte>)
    ensures |r| == InfoSize(name)
  {
    LE(InfoSize(name), 8) + LE(size, 8) + LE(size, 8) + Zeros(48) + LE(attr, 8) + UnitBytes(Ucs2(name) + [0])
  }

  datatype Info = Info(size: nat, fileSize: nat, physicalSize: nat, attribute: nat, name: string)

  /** What a client finds by following the structure's field offsets. */
  function Decode(bs: seq<byte>): Option<Info>
  {
    if |bs| < HEADER_SIZE then None
    else Some(Info(FromLE(bs[..8]), FromLE(bs[8..16]), FromLE(bs[16..24]), FromLE(bs[72..80]),
                   NameOf(BytesUnits(bs[80..]), |bs|)))
  }

  /** A client recovers size, attributes and every NUL-free BMP name, and the record fills the size it announces. */
  lemma RoundTrip(name: string, size: u64, attr: u64)
    requires NulFree(name) && Bmp(name)
    requires InfoSize(name) < TWO64
    ensures Decode(Encode(name, size, attr)) == Some(Info(|Encode(name, size, attr)|, size, size, attr, name))
  {
    var e := Encode(name, size, attr);
    LE64RoundTrip(InfoSize(name));
    LE64RoundTrip(size);
    LE64RoundTrip(attr);
    assert e[..8] == LE(InfoSize(name), 8);
    assert e[8..16] == LE(size, 8);
    assert e[16..24] == LE(size, 8);
    assert e[72..80] == LE(attr, 8);
    assert e[80..] == UnitBytes(Ucs2(name) + [0]);
    UnitBytesRoundTrip(Ucs2(name) + [0]);
    NameRoundTrip(name, [], |e|);
    assert Ucs2(name) + [0] + [] == Ucs2(name) + [0];
  }

  /** The FileSize field alone, for any name at all. */
  lemma FileSizeField(name: string, size: u64, attr: u64)
    ensures FromLE(Encode(name, size, attr)[8..16]) == size
  {
    LE64RoundTrip(size);
    assert Encode(name, size, attr)[8..16] == LE(size, 8);
  }

  // --- The marshaller ---

  /** A record in progress: a finished prefix, a zero run still to fill, and the bytes past the record. */
  ghost function Partial(done: seq<byte>, room: nat, tail: seq<byte>): seq<byte>
  {
    done + Zeros(room) + tail
  }

  lemma PutAfter(done: seq<byte>, skip: nat, b: seq<byte>, room: nat, tail: seq<byte>)
    requires skip + |b| <= room
    ensures Splice(Partial(done, room, tail), |done| + skip, b) ==
              Partial(done + Zeros(skip) + b, room - skip - |b|, tail)
  {
    var s := Partial(done, room, tail);
    assert s[..|done| + skip] == done + Zeros(skip);
    assert s[|done| + skip + |b|..] == Zeros(room - skip - |b|) + tail;
  }

  method ZeroFill(dst: array<byte>, n: nat)
    requires n <= dst.Length
    modifies dst
    ensures dst[..] == Partial([], n, old(dst[..])[n..])
  {
    for i := 0 to n
      invariant forall j :: 0 <= j < i ==> dst[j] == 0
      invariant forall j :: i <= j < dst.Length ==> dst[j] == old(dst[j])
    {
      dst[i] := 0;
    }
    assert dst[..n] == Zeros(n);
    assert dst[n..] == old(dst[..])[n..];
  }

  method PutField(dst: array<byte>, off: nat, v: u64, ghost done: seq<byte>, ghost room: nat, ghost tail: seq<byte>)
    requires |done| <= off && off + 8 <= |done| + room
    requires dst[..] == Partial(done, room, tail)
    modifies dst
    ensures dst[..] == Partial(done + Zeros(off - |done|) + LE(v, 8), |done| + room - off - 8, tail)
  {
    PutLE64(dst, off, v);
    PutAfter(done, off - |done|, LE(v, 8), room, tail);
  }

  ghost function Header(total: nat, size: u64, attr: u64): (h: seq<byte>)
    ensures |h| == HEADER_SIZE
  {
    LE(total, 8) + LE(size, 8) + LE(size, 8) + Zeros(48) + LE(attr, 8)
  }

  method WriteHeader(dst: array<byte>, total: u64, size: u64, attr: u64, ghost tail: seq<byte>)
    requires total >= HEADER_SIZE
    requires dst[..] == Partial([], total, tail)
    modifies dst
    ensures dst[..] == Partial(Header(total, size, attr), total - HEADER_SIZE, tail)
  {
    hide LE;
    PutField(dst, 0, total, [], total, tail);
    ghost var h1 := LE(total, 8);
    assert [] + Zeros(0) + LE(total, 8) == h1;
    PutField(dst, 8, size, h1, total - 8, tail);
    ghost var h2 := h1 + LE(size, 8);
    assert h1 + Zeros(0) + LE(size, 8) == h2;
    PutField(dst, 16, size, h2, total - 16, tail);
    ghost var h3 := h2 + LE(size, 8);
    assert h2 + Zeros(0) + LE(size, 8) == h3;
    PutField(dst, 72, attr, h3, total - 24, tail);
  }

  /** Marshals a record into the first `len` bytes of `dst`, or reports that it does not fit. */
  method WriteFileInfo(dst: array<byte>, len: nat, name: string, size: u64, attr: u64) returns (total: nat, ok: bool)
    requires len <= dst.Length
    requires InfoSize(name) < TWO64
    modifies dst
    ensures total == InfoSize(name)
    ensures ok <==> len >= total
    ensures dst[..] == if ok then Splice(old(dst[..]), 0, Encode(name, size, attr)) else old(dst[..])
  {
    hide LE, UnitBytes, Ucs2;
    total := InfoSize(name);
    if len < total { return total, false; }
    ghost var tail := old(dst[..])[total..];
    ghost var us := Ucs2(name) + [0];
    ZeroFill(dst, total);
    WriteHeader(dst, total, size, attr, tail);
    ghost var h := Header(total, size, attr);
    var written, n := WriteUcs2(name, dst, HEADER_SIZE, total);
    PutAfter(h, 0, UnitBytes(us), total - HEADER_SIZE, tail);
    assert us[..n] == us;
    assert h + Zeros(0) + UnitBytes(us) == Encode(name, size, attr);
    assert Encode(name, size, attr) + Zeros(0) + tail == Splice(old(dst[..]), 0, Encode(name, size, attr));
    ok := true;
  }
}
