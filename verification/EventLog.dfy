/**
  The TCG event log range. Firmware reports where the first and the last record start; the byte range of the
  whole log follows by measuring the last record in place.
 */
module EventLog {
  import opened Bytes

  /** The width of a digest by TPM_ALG_ID. */
  function DigestSize(alg: u16): Option<nat>
  {
    match alg
    case 0x0004 => Some(20)
    case 0x000B => Some(32)
    case 0x000C => Some(48)
    case 0x000D => Some(64)
    case 0x0012 => Some(32)
    case _ => None
  }

  /** The registry's identifiers by number, and no others. */
  lemma DigestTable(alg: u16)
    ensures DigestSize(0x0004) == Some(20) && DigestSize(0x000B) == Some(32) && DigestSize(0x000C) == Some(48)
    ensures DigestSize(0x000D) == Some(64) && DigestSize(0x0012) == Some(32)
    ensures DigestSize(alg).Some? <==> alg in {0x0004, 0x000B, 0x000C, 0x000D, 0x0012}
  {
  }

  /** The hash algorithms of the TCG Algorithm Registry that a firmware log uses. */
  datatype Hash = Sha1 | Sha256 | Sha384 | Sha512 | Sm3

  function AlgId(h: Hash): u16
  {
    match h case Sha1 => 4 case Sha256 => 11 case Sha384 => 12 case Sha512 => 13 case Sm3 => 18
  }

  /** Digest lengths in bits, from FIPS 180-4 and GB/T 32905. */
  function DigestBits(h: Hash): nat
  {
    match h case Sha1 => 160 case Sha256 => 256 case Sha384 => 384 case Sha512 => 512 case Sm3 => 256
  }

  datatype Digest = Digest(hash: Hash, value: seq<byte>)

  /** TCG_PCR_EVENT, the legacy header record. */
  datatype Header = Header(pcr: u32, kind: u32, sha1: seq<byte>, event: seq<byte>)

  /** TCG_PCR_EVENT2, a crypto-agile record. */
  datatype Event = Event(pcr: u32, kind: u32, digests: seq<Digest>, event: seq<byte>)

  datatype Log = Log(header: Header, events: seq<Event>)

  predicate DigestOk(d: Digest) { 8 * |d.value| == DigestBits(d.hash) }

  predicate EventOk(e: Event)
  {
    && |e.digests| < 0x1_0000_0000 && |e.event| < 0x1_0000_0000
    && forall i :: 0 <= i < |e.digests| ==> DigestOk(e.digests[i])
  }

  predicate LogOk(l: Log)
  {
    && |l.header.sha1| == 20 && |l.header.event| < 0x1_0000_0000
    && forall i :: 0 <= i < |l.events| ==> EventOk(l.events[i])
  }

  function EncodeHeader(h: Header): seq<byte>
  {
    LE(h.pcr, 4) + LE(h.kind, 4) + h.sha1 + LE(|h.event|, 4) + h.event
  }

  function EncodeDigests(ds: seq<Digest>): seq<byte>
  {
    if ds == [] then [] else LE(AlgId(ds[0].hash), 2) + ds[0].value + EncodeDigests(ds[1..])
  }

  function EncodeEvent(e: Event): seq<byte>
  {
    LE(e.pcr, 4) + LE(e.kind, 4) + LE(|e.digests|, 4) + EncodeDigests(e.digests) + LE(|e.event|, 4) + e.event
  }

  function EncodeEvents(es: seq<Event>): seq<byte>
  {
    if es == [] then [] else EncodeEvent(es[0]) + EncodeEvents(es[1..])
  }

  function EncodeLog(l: Log): seq<byte> { EncodeHeader(l.header) + EncodeEvents(l.events) }

  // --- Measuring a record ---

  function ReadU16(m: Memory, a: nat): u16
  {
    Pow256Values(); FromLERoundTrip(Fetch(m, a, 2));
    FromLE(Fetch(m, a, 2))
  }

  function ReadU32(m: Memory, a: nat): u32
  {
    Pow256Values(); FromLERoundTrip(Fetch(m, a, 4));
    FromLE(Fetch(m, a, 4))
  }

  /** The address past `count` digests, or None at an unknown algorithm. */
  function SkipDigests(m: Memory, off: nat, count: nat): Option<nat>
    decreases count
  {
    if count == 0 then Some(off)
    else match DigestSize(ReadU16(m, off))
      case None => None
      case Some(n) => SkipDigests(m, (off + 2 + n) % TWO64, count - 1)
  }

  /** Addresses are 64-bit: sums wrap. */
  function EntrySize(m: Memory, location: nat, entry: nat): Option<nat>
  {
    if entry == location then Some((32 + ReadU32(m, (entry + 28) % TWO64)) % TWO64)
    else
      match SkipDigests(m, (entry + 12) % TWO64, ReadU32(m, (entry + 8) % TWO64))
      case None => None
      case Some(off) => Some((off + 4 + ReadU32(m, off) - entry) % TWO64)
  }

  method MeasureEntry(m: Memory, location: u64, entry: u64) returns (size: Option<nat>)
    ensures size == EntrySize(m, location, entry)
  {
    hide ReadU16, ReadU32;
    if entry == location {
      var eventSize := ReadU32(m, (entry + 28) % TWO64);
      return Some((32 + eventSize) % TWO64);
    }
    var off: nat := (entry + 8) % TWO64;
    var count := ReadU32(m, off);
    off := (entry + 12) % TWO64;
    ghost var start := off;
    for i := 0 to count
      invariant SkipDigests(m, off, count - i) == SkipDigests(m, start, count)
    {
      var ds := DigestSize(ReadU16(m, off));
      if ds.None? { return None; }
      off := (off + 2 + ds.value) % TWO64;
    }
    var eventSize := ReadU32(m, off);
    size := Some((off + 4 + eventSize - entry) % TWO64);
  }

  /** The width table agrees with the standards. */
  lemma DigestSizeMatches(h: Hash)
    ensures DigestBits(h) % 8 == 0 && DigestSize(AlgId(h)) == Some(DigestBits(h) / 8)
  {
  }

  lemma {:induction false} SkipsDigests(m: Memory, off: nat, ds: seq<Digest>)
    requires forall i :: 0 <= i < |ds| ==> DigestOk(ds[i])
    requires Holds(m, off, EncodeDigests(ds)) && off + |EncodeDigests(ds)| < TWO64
    ensures SkipDigests(m, off, |ds|) == Some(off + |EncodeDigests(ds)|)
    decreases |ds|
  {
    hide LE, FromLE, DigestSize, AlgId, DigestBits;
    if ds != [] {
      var d := ds[0];
      assert DigestOk(d);
      assert EncodeDigests(ds) == LE(AlgId(d.hash), 2) + (d.value + EncodeDigests(ds[1..]));
      HoldsSplit(m, off, LE(AlgId(d.hash), 2), d.value + EncodeDigests(ds[1..]));
      HoldsSplit(m, off + 2, d.value, EncodeDigests(ds[1..]));
      LE16RoundTrip(AlgId(d.hash));
      assert ReadU16(m, off) == AlgId(d.hash);
      DigestSizeMatches(d.hash);
      FitsU64(off + 2 + |d.value|);
      SkipsDigests(m, off + 2 + |d.value|, ds[1..]);
    }
  }

  lemma HeaderSize(m: Memory, location: nat, h: Header)
    requires |h.sha1| == 20 && |h.event| < 0x1_0000_0000
    requires Holds(m, location, EncodeHeader(h))
    ensures EntrySize(m, location, location) == Some(|EncodeHeader(h)|)
  {
    hide LE, FromLE;
    var prefix := LE(h.pcr, 4) + LE(h.kind, 4) + h.sha1;
    assert EncodeHeader(h) == prefix + (LE(|h.event|, 4) + h.event);
    HoldsSplit(m, location, prefix, LE(|h.event|, 4) + h.event);
    HoldsSplit(m, location + 28, LE(|h.event|, 4), h.event);
    LE32RoundTrip(|h.event|);
    assert ReadU32(m, location + 28) == |h.event|;
  }

  /** What the measuring walk meets in an encoded record. */
  lemma EventFields(m: Memory, entry: nat, e: Event)
    requires EventOk(e) && Holds(m, entry, EncodeEvent(e))
    ensures var n := |EncodeDigests(e.digests)|;
            && |EncodeEvent(e)| == 16 + n + |e.event| && 0 < entry && entry + |EncodeEvent(e)| <= TWO64
            && ReadU32(m, entry + 8) == |e.digests| && ReadU32(m, entry + 12 + n) == |e.event|
            && Holds(m, entry + 12, EncodeDigests(e.digests))
  {
    hide LE, FromLE, EncodeDigests;
    var ids := LE(e.pcr, 4) + LE(e.kind, 4);
    var count := LE(|e.digests|, 4);
    var ds := EncodeDigests(e.digests);
    var tail := LE(|e.event|, 4) + e.event;
    assert EncodeEvent(e) == ids + (count + (ds + tail));
    HoldsSplit(m, entry, ids, count + (ds + tail));
    HoldsSplit(m, entry + 8, count, ds + tail);
    HoldsSplit(m, entry + 12, ds, tail);
    HoldsSplit(m, entry + 12 + |ds|, LE(|e.event|, 4), e.event);
    LE32RoundTrip(|e.digests|);
    LE32RoundTrip(|e.event|);
  }

  lemma EventSize(m: Memory, location: nat, entry: nat, e: Event)
    requires EventOk(e) && entry != location && Holds(m, entry, EncodeEvent(e))
    ensures EntrySize(m, location, entry) == Some(|EncodeEvent(e)|)
  {
    hide ReadU32, EncodeEvent, EncodeDigests, SkipDigests, Holds;
    EventFields(m, entry, e);
    SkipsDigests(m, entry + 12, e.digests);
    FitsU64(entry + 8);
    FitsU64(entry + 12);
    FitsU64(|EncodeEvent(e)|);
  }

  // --- The whole log ---

  /** What the protocol answered: an error status, or the two addresses and the truncation flag. */
  datatype Answer = Refused | Located(location: u64, lastEntry: u64, truncated: bool)

  datatype Outcome = CallError | UnknownDigest(truncated: bool) | Bytes(log: seq<byte>, truncated: bool)

  /** A byte count of 2^63 or more is negative as an int, and nothing is read. */
  const MAX_INT: nat := 0x7FFF_FFFF_FFFF_FFFF

  function ReadBytes(m: Memory, addr: nat, n: u64): seq<byte>
  {
    if n > MAX_INT then [] else Fetch(m, addr, n)
  }

  /** The range from the first record to the end of the last one. */
  function Assembled(m: Memory, a: Answer): Outcome
  {
    match a
    case Refused => CallError
    case Located(location, lastEntry, truncated) =>
      if location == 0 then Bytes([], truncated)
      else match EntrySize(m, location, lastEntry)
        case None => UnknownDigest(truncated)
        case Some(n) => Bytes(ReadBytes(m, location, (lastEntry - location + n) % TWO64), truncated)
  }

  method ReadFirmwareBytes(m: Memory, addr: nat, total: u64) returns (out: seq<byte>)
    ensures out == ReadBytes(m, addr, total)
  {
    var n: int := if total > MAX_INT then total - TWO64 else total;
    if n <= 0 { return []; }
    out := Fetch(m, addr, n);
  }

  method GetEventLog(m: Memory, a: Answer) returns (r: Outcome)
    ensures r == Assembled(m, a)
  {
    hide EntrySize;
    if a.Refused? { return CallError; }
    if a.location == 0 { return Bytes([], a.truncated); }
    var lastSize := MeasureEntry(m, a.location, a.lastEntry);
    if lastSize.None? { return UnknownDigest(a.truncated); }
    var total := (a.lastEntry - a.location + lastSize.value) % TWO64;
    var log := ReadFirmwareBytes(m, a.location, total);
    r := Bytes(log, a.truncated);
  }

  /** Where the last record starts, relative to the log. */
  function LastOffset(l: Log): nat
  {
    if l.events == [] then 0
    else |EncodeHeader(l.header)| + |EncodeEvents(l.events[..|l.events| - 1])|
  }

  lemma {:induction false} EventsSnoc(es: seq<Event>)
    requires es != []
    ensures EncodeEvents(es) == EncodeEvents(es[..|es| - 1]) + EncodeEvent(es[|es| - 1])
  {
    hide EncodeEvent;
    if |es| == 1 {
      assert es[1..] == [];
    } else {
      EventsSnoc(es[1..]);
      assert es[1..][..|es| - 2] == es[..|es| - 1][1..];
    }
  }

  /**
    For every well-formed log laid out contiguously, header-only logs included, the first and last record
    addresses give back exactly the encoded log if and only if it takes less than 2^63 bytes; a longer one reads
    as empty.
   */
  lemma EventLogIsExact(m: Memory, location: u64, l: Log, truncated: bool)
    requires LogOk(l) && Holds(m, location, EncodeLog(l))
    ensures location + LastOffset(l) < TWO64
    ensures var r := Assembled(m, Located(location, location + LastOffset(l), truncated));
            && (r == Bytes(EncodeLog(l), truncated) <==> |EncodeLog(l)| < 0x8000_0000_0000_0000)
            && (|EncodeLog(l)| >= 0x8000_0000_0000_0000 ==> r == Bytes([], truncated))
  {
    hide EntrySize, EncodeLog, LastOffset, LogOk;
    LastEntryMeasured(m, location, l);
    var size: nat := |EncodeLog(l)| - LastOffset(l);
    assert (LastOffset(l) + size) % TWO64 == |EncodeLog(l)|;
  }

  /** The last record starts inside the log and measures what is left of it. */
  lemma LastEntryMeasured(m: Memory, location: u64, l: Log)
    requires LogOk(l) && Holds(m, location, EncodeLog(l))
    ensures LastOffset(l) < |EncodeLog(l)| && location > 0 && location + |EncodeLog(l)| <= TWO64
    ensures EntrySize(m, location, location + LastOffset(l)) == Some(|EncodeLog(l)| - LastOffset(l))
  {
    hide EncodeEvent, EntrySize, EncodeHeader, LE;
    var n := |l.events|;
    HeaderNonEmpty(l.header);
    if n == 0 {
      assert EncodeLog(l) == EncodeHeader(l.header);
      HeaderSize(m, location, l.header);
    } else {
      var last := l.events[n - 1];
      var front := EncodeHeader(l.header) + EncodeEvents(l.events[..n - 1]);
      EventsSnoc(l.events);
      EventNonEmpty(last);
      assert EncodeLog(l) == front + EncodeEvent(last);
      HoldsSplit(m, location, front, EncodeEvent(last));
      assert EventOk(last);
      EventSize(m, location, location + |front|, last);
    }
  }

  /** A last record that ends at or below the first one, by less than 2^63 bytes, is an empty log and no error. */
  lemma BackwardsLogIsEmpty(m: Memory, location: u64, lastEntry: u64, truncated: bool)
    requires location != 0 && EntrySize(m, location, lastEntry).Some?
    requires var end := lastEntry + EntrySize(m, location, lastEntry).value;
             end <= location <= end + 0x8000_0000_0000_0000
    ensures Assembled(m, Located(location, lastEntry, truncated)) == Bytes([], truncated)
  {
    hide EntrySize;
    var gap := location - lastEntry - EntrySize(m, location, lastEntry).value;
    if gap > 0 { assert -gap % TWO64 == TWO64 - gap; }
  }

  /** The other answers: an error status, no log area, or a record that cannot be measured. */
  lemma OtherAnswers(m: Memory, location: u64, lastEntry: u64, truncated: bool)
    ensures Assembled(m, Refused) == CallError
    ensures Assembled(m, Located(0, lastEntry, truncated)) == Bytes([], truncated)
    ensures location != 0 && EntrySize(m, location, lastEntry) == None ==>
              Assembled(m, Located(location, lastEntry, truncated)) == UnknownDigest(truncated)
  {
    hide EntrySize;
  }

  /** A record whose digest list holds an identifier outside the registry cannot be measured. */
  lemma UnknownAlgorithm(m: Memory, location: nat, entry: nat, count: u32, ds: seq<Digest>, alg: u16, ids: seq<byte>)
    requires entry != location && |ids| == 8 && |ds| < count
    requires forall i :: 0 <= i < |ds| ==> DigestOk(ds[i])
    requires alg !in {0x0004, 0x000B, 0x000C, 0x000D, 0x0012}
    requires Holds(m, entry, ids + (LE(count, 4) + (EncodeDigests(ds) + LE(alg, 2))))
    ensures EntrySize(m, location, entry) == None
  {
    hide ReadU16, ReadU32, LE, EncodeDigests, SkipDigests, DigestSize, DigestOk;
    ListFields(m, entry, count, EncodeDigests(ds), alg, ids);
    DigestTable(alg);
    StopsAtUnknown(m, entry + 12, ds, alg, count);
    FitsU64(entry + 8);
    FitsU64(entry + 12);
  }

  lemma ListFields(m: Memory, entry: nat, count: u32, e: seq<byte>, alg: u16, ids: seq<byte>)
    requires |ids| == 8 && Holds(m, entry, ids + (LE(count, 4) + (e + LE(alg, 2))))
    ensures 0 < entry && entry + 14 + |e| <= TWO64 && Holds(m, entry + 12, e)
    ensures ReadU32(m, entry + 8) == count && ReadU16(m, entry + 12 + |e|) == alg
  {
    hide LE, FromLE;
    HoldsSplit(m, entry, ids, LE(count, 4) + (e + LE(alg, 2)));
    HoldsSplit(m, entry + 8, LE(count, 4), e + LE(alg, 2));
    HoldsSplit(m, entry + 12, e, LE(alg, 2));
    LE32RoundTrip(count);
    LE16RoundTrip(alg);
  }

  lemma {:induction false} StopsAtUnknown(m: Memory, off: nat, ds: seq<Digest>, alg: u16, count: nat)
    requires forall i :: 0 <= i < |ds| ==> DigestOk(ds[i])
    requires |ds| < count && DigestSize(alg) == None
    requires Holds(m, off, EncodeDigests(ds)) && off + |EncodeDigests(ds)| + 2 <= TWO64
    requires ReadU16(m, off + |EncodeDigests(ds)|) == alg
    ensures SkipDigests(m, off, count) == None
    decreases |ds|
  {
    hide LE, FromLE, DigestSize, AlgId, DigestBits, ReadU16;
    if ds != [] {
      var d := ds[0];
      var rest := EncodeDigests(ds[1..]);
      assert DigestOk(d);
      assert EncodeDigests(ds) == LE(AlgId(d.hash), 2) + (d.value + rest);
      HoldsSplit(m, off, LE(AlgId(d.hash), 2), d.value + rest);
      HoldsSplit(m, off + 2, d.value, rest);
      KnownDigest(m, off, d);
      FitsU64(off + 2 + |d.value|);
      StopsAtUnknown(m, off + 2 + |d.value|, ds[1..], alg, count - 1);
    }
  }

  lemma KnownDigest(m: Memory, off: nat, d: Digest)
    requires DigestOk(d) && Fetch(m, off, 2) == LE(AlgId(d.hash), 2)
    ensures DigestSize(ReadU16(m, off)) == Some(|d.value|)
  {
    hide LE, FromLE;
    LE16RoundTrip(AlgId(d.hash));
    DigestSizeMatches(d.hash);
  }

  lemma HeaderNonEmpty(h: Header)
    ensures |EncodeHeader(h)| > 0
  {
  }

  lemma EventNonEmpty(e: Event)
    ensures |EncodeEvent(e)| > 0
  {
  }
}
