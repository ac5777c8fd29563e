/**
  GetMemoryMap: a sizing probe, then up to four attempts with slack, against firmware whose map may change between
  calls.
 */
module MemoryMaps {
  import opened Bytes

  const DESCRIPTOR_SIZE: nat := 40
  const ATTEMPTS: nat := 4
  const SLACK: nat := 4

  datatype Descriptor = Descriptor(kind: nat, physicalStart: nat, virtualStart: nat, pages: nat, attribute: nat)

  /** The leading 40 bytes of a firmware descriptor, which may be longer. */
  function DecodeDescriptor(b: seq<byte>): Descriptor
    requires |b| >= DESCRIPTOR_SIZE
  {
    Descriptor(FromLE(b[0..4]), FromLE(b[8..16]), FromLE(b[16..24]), FromLE(b[24..32]), FromLE(b[32..40]))
  }

  /** Descriptors at each stride; none if the stride is below the 40 bytes a descriptor has. */
  function Parsed(buf: seq<byte>, stride: nat): seq<Descriptor>
    decreases |buf|
  {
    if stride < DESCRIPTOR_SIZE || |buf| < stride then []
    else [DecodeDescriptor(buf)] + Parsed(buf[stride..], stride)
  }

  method ParseMemoryMap(buf: seq<byte>, stride: nat) returns (out: seq<Descriptor>)
    ensures out == Parsed(buf, stride)
  {
    hide DecodeDescriptor;
    hide Times;
    if |buf| == 0 || stride == 0 { return []; }
    if stride < DESCRIPTOR_SIZE { return []; }
    out := [];
    var n := |buf| / stride;
    StrideCount(|buf|, stride);
    if n == 0 { return []; }
    var base := 0;
    assert buf[0..] == buf;
    for i := 0 to n
      invariant base == Times(i, stride) <= |buf|
      invariant out + Parsed(buf[base..], stride) == Parsed(buf, stride)
    {
      StrideStep(|buf|, stride, i);
      // The parser's bounds check can never fail here: a whole stride remains.
      assert base + DESCRIPTOR_SIZE <= |buf|;
      out := out + [DecodeDescriptor(buf[base..])];
      assert buf[base..][stride..] == buf[base + stride..];
      base := base + stride;
    }
    assert |buf[base..]| < stride;
  }

  function Times(i: nat, stride: nat): nat { i * stride }

  lemma StrideCount(len: nat, stride: nat)
    requires stride > 0
    ensures Times(0, stride) == 0
    ensures Times(len / stride, stride) <= len < Times(len / stride, stride) + stride
    ensures len / stride == 0 ==> len < stride
  {
    assert len == len / stride * stride + len % stride;
  }

  lemma StrideStep(len: nat, stride: nat, i: nat)
    requires stride > 0 && i < len / stride
    ensures Times(i, stride) + stride == Times(i + 1, stride) <= len
  {
    StrideCount(len, stride);
    TimesMonotone(i + 1, len / stride, stride);
    assert (i + 1) * stride == i * stride + stride;
  }

  lemma TimesMonotone(i: nat, j: nat, stride: nat)
    requires i <= j
    ensures Times(i, stride) <= Times(j, stride)
    ensures Times(i, stride) + Times(j - i, stride) == Times(j, stride)
  {
    assert i * stride + (j - i) * stride == j * stride;
  }

  /** One descriptor for each whole stride and none for a rest; none at all for a stride below 40 bytes. */
  lemma {:induction false} ParsedCount(buf: seq<byte>, stride: nat)
    ensures stride < 40 ==> Parsed(buf, stride) == []
    ensures var n := |Parsed(buf, stride)|;
            stride >= 40 ==> Times(n, stride) <= |buf| < Times(n, stride) + stride
    decreases |buf|
  {
    hide DecodeDescriptor, Times;
    if stride >= 40 {
      TimesNext(0, stride);
      if stride <= |buf| {
        ParsedCount(buf[stride..], stride);
        TimesNext(|Parsed(buf[stride..], stride)|, stride);
      }
    }
  }

  lemma TimesNext(i: nat, stride: nat)
    ensures Times(0, stride) == 0 && Times(i + 1, stride) == Times(i, stride) + stride
  {
  }

  // --- Firmware ---

  datatype Status = Success | BufferTooSmall | Other

  /** What one call leaves behind: the status, *MemoryMapSize, the buffer, and the three other out parameters. */
  datatype Response = Response(status: Status, size: nat, data: seq<byte>, key: nat, stride: nat, version: nat)

  /** Firmware answers call number `i` made with a buffer of `n` bytes. */
  type Firmware = (nat, nat) -> Response

  /**
    After the probe it fills the buffer it is given, `data` being that buffer afterwards, and never claims to have
    written past it.
   */
  ghost predicate InBounds(fw: Firmware)
  {
    forall i: nat, n: nat :: i >= 1 && fw(i, n).status == Success ==> |fw(i, n).data| == n && fw(i, n).size <= n
  }

  datatype MemoryMap = MemoryMap(descriptors: seq<Descriptor>, key: nat, stride: nat, version: nat)

  /** `Panicked`: the address of the first byte of an empty buffer is taken. */
  datatype Result = NoBootServices | Failed | KeptTooSmall | Panicked | Got(map_: MemoryMap)

  /** Attempts `call`..4, the buffer growing to what firmware last asked for plus four descriptors. */
  function Attempts(fw: Firmware, call: nat, bufSize: nat): (Result, nat)
    requires InBounds(fw) && 1 <= call <= ATTEMPTS + 1
    decreases ATTEMPTS + 1 - call
  {
    if call > ATTEMPTS then (KeptTooSmall, call)
    else if bufSize == 0 then (Panicked, call)
    else
      var r := fw(call, bufSize);
      match r.status
      case Success => (Got(MemoryMap(Parsed(r.data[..r.size], r.stride), r.key, r.stride, r.version)), call + 1)
      case BufferTooSmall => Attempts(fw, call + 1, r.size + SLACK * r.stride)
      case Other => (Failed, call + 1)
  }

  /** The whole protocol: the result and the number of firmware calls made. */
  function Protocol(fw: Firmware): (Result, nat)
    requires InBounds(fw)
  {
    var r := fw(0, 0);
    if r.status == Other then (Failed, 1)
    else if r.size == 0 then (Got(MemoryMap([], r.key, r.stride, r.version)), 1)
    else Attempts(fw, 1, r.size + SLACK * (if r.stride == 0 then DESCRIPTOR_SIZE else r.stride))
  }

  method GetMemoryMap(bootServices: bool, fw: Firmware) returns (r: Result, calls: nat)
    requires InBounds(fw)
    ensures (r, calls) == if bootServices then Protocol(fw) else (NoBootServices, 0)
    ensures calls <= 5
  {
    hide InBounds, Parsed, Attempts;
    if !bootServices { return NoBootServices, 0; }
    var resp := fw(0, 0);
    if resp.status != BufferTooSmall && resp.status != Success { return Failed, 1; }
    if resp.size == 0 { return Got(MemoryMap([], resp.key, resp.stride, resp.version)), 1; }
    var descSize := resp.stride;
    if descSize == 0 { descSize := DESCRIPTOR_SIZE; }
    r, calls := RunAttempts(fw, 1, resp.size + SLACK * descSize);
  }

  method RunAttempts(fw: Firmware, first: nat, firstSize: nat) returns (r: Result, calls: nat)
    requires InBounds(fw) && 1 <= first <= ATTEMPTS + 1
    ensures (r, calls) == Attempts(fw, first, firstSize)
    ensures calls <= ATTEMPTS + 1
  {
    hide InBounds, Parsed;
    var call, bufSize: nat := first, firstSize;
    while call <= ATTEMPTS
      invariant 1 <= call <= ATTEMPTS + 1
      invariant Attempts(fw, call, bufSize) == Attempts(fw, first, firstSize)
    {
      if bufSize == 0 { return Panicked, call; }
      var resp := fw(call, bufSize);
      match resp.status {
        case Success =>
          SuccessInBounds(fw, call, bufSize);
          var descs := ParseMemoryMap(resp.data[..resp.size], resp.stride);
          return Got(MemoryMap(descs, resp.key, resp.stride, resp.version)), call + 1;
        case BufferTooSmall =>
          bufSize := resp.size + SLACK * resp.stride;
        case Other =>
          return Failed, call + 1;
      }
      call := call + 1;
    }
    return KeptTooSmall, call;
  }

  lemma SuccessInBounds(fw: Firmware, i: nat, n: nat)
    requires InBounds(fw) && i >= 1 && fw(i, n).status == Success
    ensures fw(i, n).size <= |fw(i, n).data|
  {
  }

  // --- Firmware that follows section 7.2.3 of UEFI 2.10 ---

  /** A descriptor in memory: the layout's padding may hold anything, and firmware may append bytes of its own. */
  datatype Entry = Entry(d: Descriptor, pad: seq<byte>, tail: seq<byte>)

  predicate EntryOk(e: Entry, stride: nat)
  {
    && e.d.kind < 0x1_0000_0000 && e.d.physicalStart < TWO64 && e.d.virtualStart < TWO64
    && e.d.pages < TWO64 && e.d.attribute < TWO64
    && |e.pad| == 4 && 40 + |e.tail| == stride
  }

  /** EFI_MEMORY_DESCRIPTOR: Type, padding, PhysicalStart, VirtualStart, NumberOfPages, Attribute. */
  function EncodeEntry(e: Entry): seq<byte>
  {
    LE(e.d.kind, 4) + e.pad + LE(e.d.physicalStart, 8) + LE(e.d.virtualStart, 8) + LE(e.d.pages, 8)
    + LE(e.d.attribute, 8) + e.tail
  }

  /** The memory map as it is at one call: descriptors of `stride` bytes each, and the key that tags it. */
  datatype Snapshot = Snapshot(descs: seq<Entry>, key: nat, stride: nat, version: nat)

  predicate SnapshotOk(s: Snapshot)
  {
    s.stride >= DESCRIPTOR_SIZE && forall i :: 0 <= i < |s.descs| ==> EntryOk(s.descs[i], s.stride)
  }

  function Flat(descs: seq<Entry>): seq<byte>
  {
    if descs == [] then [] else EncodeEntry(descs[0]) + Flat(descs[1..])
  }

  /** The descriptors of a map, as firmware has them. */
  function Contents(descs: seq<Entry>): (r: seq<Descriptor>)
    ensures |r| == |descs| && forall i :: 0 <= i < |descs| ==> r[i] == descs[i].d
  {
    seq(|descs|, i requires 0 <= i < |descs| => descs[i].d)
  }

  function Need(s: Snapshot): nat { Times(|s.descs|, s.stride) }

  /** Too small a buffer reports the size needed and nothing else to rely on; otherwise the map and its key. */
  ghost predicate Answers(r: Response, s: Snapshot, n: nat)
  {
    && r.stride == s.stride && r.size == Need(s) && r.version == s.version
    && if n < Need(s) then r.status == BufferTooSmall
       else r.status == Success && r.key == s.key && Need(s) <= |r.data| && r.data[..Need(s)] == Flat(s.descs)
  }

  /** Every call is answered from the map of the moment, or fails. */
  ghost predicate Conforms(fw: Firmware, maps: nat -> Snapshot)
  {
    forall i: nat, n: nat :: SnapshotOk(maps(i)) && (fw(i, n).status == Other || Answers(fw(i, n), maps(i), n))
  }

  lemma ConformsAt(fw: Firmware, maps: nat -> Snapshot, i: nat, n: nat)
    requires Conforms(fw, maps)
    ensures SnapshotOk(maps(i)) && (fw(i, n).status == Other || Answers(fw(i, n), maps(i), n))
  {
    var r := fw(i, n);
  }

  lemma EntryFields(e: Entry, rest: seq<byte>, stride: nat)
    requires EntryOk(e, stride)
    ensures var b := EncodeEntry(e) + rest;
            && |EncodeEntry(e)| == stride
            && b[0..4] == LE(e.d.kind, 4)
            && b[8..16] == LE(e.d.physicalStart, 8) && b[16..24] == LE(e.d.virtualStart, 8)
            && b[24..32] == LE(e.d.pages, 8) && b[32..40] == LE(e.d.attribute, 8)
  {
    hide LE;
  }

  /** The decoder recovers every field of a descriptor from the layout of section 7.2.3 of UEFI 2.10. */
  lemma DescriptorRoundTrip(e: Entry, rest: seq<byte>, stride: nat)
    requires EntryOk(e, stride)
    ensures |EncodeEntry(e) + rest| >= DESCRIPTOR_SIZE && DecodeDescriptor(EncodeEntry(e) + rest) == e.d
  {
    hide LE, FromLE, EncodeEntry;
    EntryFields(e, rest, stride);
    LE32RoundTrip(e.d.kind);
    LE64RoundTrip(e.d.physicalStart);
    LE64RoundTrip(e.d.virtualStart);
    LE64RoundTrip(e.d.pages);
    LE64RoundTrip(e.d.attribute);
  }

  /** A map of encoded descriptors parses into exactly those descriptors. */
  lemma {:induction false} ParsesFlat(descs: seq<Entry>, stride: nat)
    requires stride >= DESCRIPTOR_SIZE && forall i :: 0 <= i < |descs| ==> EntryOk(descs[i], stride)
    ensures Parsed(Flat(descs), stride) == Contents(descs)
  {
    hide DecodeDescriptor, EncodeEntry;
    if descs != [] {
      var rest := Flat(descs[1..]);
      ParsesFlat(descs[1..], stride);
      EntryFields(descs[0], rest, stride);
      assert Flat(descs)[stride..] == rest;
      DescriptorRoundTrip(descs[0], rest, stride);
      assert Contents(descs) == [descs[0].d] + Contents(descs[1..]);
    }
  }

  /** The returned map is the one firmware had at call `i`, key and all. */
  ghost predicate From(m: MemoryMap, s: Snapshot)
  {
    && SnapshotOk(s) && m.key == s.key && m.stride == s.stride && m.version == s.version
    && |m.descriptors| == |s.descs| && forall i :: 0 <= i < |s.descs| ==> m.descriptors[i] == s.descs[i].d
  }

  lemma CallFrom(fw: Firmware, maps: nat -> Snapshot, i: nat, n: nat)
    requires InBounds(fw) && Conforms(fw, maps) && i >= 1 && fw(i, n).status == Success
    ensures var r := fw(i, n);
            && r.size <= |r.data|
            && From(MemoryMap(Parsed(r.data[..r.size], r.stride), r.key, r.stride, r.version), maps(i))
  {
    var s := maps(i);
    ConformsAt(fw, maps, i, n);
    ParsesFlat(s.descs, s.stride);
  }

  lemma {:induction false} AttemptsFrom(fw: Firmware, maps: nat -> Snapshot, call: nat, bufSize: nat)
    requires InBounds(fw) && Conforms(fw, maps) && 1 <= call <= ATTEMPTS + 1 && bufSize > 0
    ensures var (r, calls) := Attempts(fw, call, bufSize);
            && call <= calls <= ATTEMPTS + 1 && r != Panicked
            && (r.Got? ==> calls >= 1 && From(r.map_, maps(calls - 1)))
    decreases ATTEMPTS + 1 - call
  {
    hide Parsed, From, Conforms, InBounds, Attempts;
    if call > ATTEMPTS {
      NoAttemptLeft(fw, call, bufSize);
    } else {
      var r := fw(call, bufSize);
      NextAttempt(fw, call, bufSize);
      if r.status == Success {
        FirstAttempt(fw, call, bufSize);
        CallFrom(fw, maps, call, bufSize);
      } else if r.status == BufferTooSmall {
        ConformsAt(fw, maps, call, bufSize);
        AttemptsFrom(fw, maps, call + 1, r.size + SLACK * r.stride);
      }
    }
  }

  /** At most five calls, no panic; a returned map's descriptors and key come from one and the same call, the last. */
  lemma MapIsConsistent(fw: Firmware, maps: nat -> Snapshot)
    requires InBounds(fw) && Conforms(fw, maps)
    ensures var (r, calls) := Protocol(fw);
            1 <= calls <= 5 && r != Panicked && (r.Got? ==> From(r.map_, maps(calls - 1)))
  {
    hide Attempts;
    var r := fw(0, 0);
    if r.status != Other {
      var s := maps(0);
      ConformsAt(fw, maps, 0, 0);
      if r.size == 0 {
        EmptyNeed(s);
      } else {
        AttemptsFrom(fw, maps, 1, r.size + SLACK * r.stride);
      }
    }
  }

  lemma EmptyNeed(s: Snapshot)
    requires SnapshotOk(s)
    ensures Need(s) == 0 <==> s.descs == []
  {
    if s.descs != [] { TimesMonotone(1, |s.descs|, s.stride); }
  }

  /** If the map gains at most four descriptors after the probe, the first attempt succeeds. */
  lemma SlackSuffices(fw: Firmware, maps: nat -> Snapshot)
    requires InBounds(fw) && Conforms(fw, maps)
    requires fw(0, 0).status != Other && forall n: nat :: fw(1, n).status != Other
    requires maps(0).descs != [] && maps(1).stride == maps(0).stride && |maps(1).descs| <= |maps(0).descs| + 4
    ensures var (r, calls) := Protocol(fw);
            r.Got? && calls == 2 && From(r.map_, maps(1))
  {
    hide Parsed, From, Times, Attempts, Need, Conforms;
    var s0, s1 := maps(0), maps(1);
    var r := fw(0, 0);
    ConformsAt(fw, maps, 0, 0);
    EmptyNeed(s0);
    var n := r.size + SLACK * r.stride;
    ConformsAt(fw, maps, 1, n);
    SlackFits(s0, s1);
    CallFrom(fw, maps, 1, n);
    FirstAttempt(fw, 1, n);
  }

  lemma SlackFits(s0: Snapshot, s1: Snapshot)
    requires s1.stride == s0.stride && |s1.descs| <= |s0.descs| + SLACK
    ensures Need(s1) <= Need(s0) + SLACK * s0.stride
  {
    TimesMonotone(|s1.descs|, |s0.descs| + SLACK, s0.stride);
    TimesMonotone(|s0.descs|, |s0.descs| + SLACK, s0.stride);
  }

  /** Between the call before and call `k` the map gained more than the slack. */
  ghost predicate Outgrows(maps: nat -> Snapshot, k: nat)
    requires k > 0
  {
    |maps(k).descs| > |maps(k - 1).descs| + SLACK
  }

  /** One descriptor size throughout, and no failure but a short buffer. */
  ghost predicate Steady(fw: Firmware, maps: nat -> Snapshot)
  {
    forall i: nat, n: nat :: maps(i).stride == maps(0).stride && fw(i, n).status != Other
  }

  lemma SteadyAt(fw: Firmware, maps: nat -> Snapshot, i: nat, n: nat)
    requires Steady(fw, maps)
    ensures maps(i).stride == maps(0).stride && fw(i, n).status != Other
  {
    var r := fw(i, n);
  }

  lemma SlackExact(s0: Snapshot, s1: Snapshot)
    requires s1.stride == s0.stride && s0.stride > 0
    ensures Need(s1) <= Need(s0) + SLACK * s0.stride <==> |s1.descs| <= |s0.descs| + SLACK
  {
    if |s1.descs| <= |s0.descs| + SLACK {
      SlackFits(s0, s1);
    } else {
      TimesMonotone(|s0.descs| + SLACK + 1, |s1.descs|, s0.stride);
      assert (|s0.descs| + SLACK + 1) * s0.stride == |s0.descs| * s0.stride + SLACK * s0.stride + s0.stride;
    }
  }

  /** A call with the buffer the one before asked for is short exactly if the map has outgrown the slack. */
  lemma ShortExactly(fw: Firmware, maps: nat -> Snapshot, call: nat, n: nat)
    requires Conforms(fw, maps) && Steady(fw, maps) && call > 0
    requires n == Need(maps(call - 1)) + SLACK * maps(0).stride
    ensures fw(call, n).status == (if Outgrows(maps, call) then BufferTooSmall else Success)
    ensures fw(call, n).size + SLACK * fw(call, n).stride == Need(maps(call)) + SLACK * maps(0).stride
  {
    hide Need, Conforms, Steady;
    ConformsAt(fw, maps, call, n);
    SteadyAt(fw, maps, call, n);
    SteadyAt(fw, maps, call - 1, n);
    SlackExact(maps(call - 1), maps(call));
  }

  /** The map outgrows the slack at call `k` and at every later attempt. */
  ghost predicate KeepsOutgrowing(maps: nat -> Snapshot, k: nat)
    requires k > 0
    decreases ATTEMPTS + 1 - k
  {
    k > ATTEMPTS || (Outgrows(maps, k) && KeepsOutgrowing(maps, k + 1))
  }

  lemma NextAttempt(fw: Firmware, call: nat, n: nat)
    requires InBounds(fw) && 1 <= call <= ATTEMPTS && n > 0
    ensures var r := fw(call, n);
            match r.status
            case Success => Attempts(fw, call, n).0.Got?
            case BufferTooSmall => Attempts(fw, call, n) == Attempts(fw, call + 1, r.size + SLACK * r.stride)
            case Other => Attempts(fw, call, n) == (Failed, call + 1)
  {
    hide Parsed;
  }

  lemma {:induction false} AttemptsExact(fw: Firmware, maps: nat -> Snapshot, call: nat, n: nat)
    requires InBounds(fw) && Conforms(fw, maps) && Steady(fw, maps) && 1 <= call <= ATTEMPTS + 1
    requires n == Need(maps(call - 1)) + SLACK * maps(0).stride
    ensures var (r, _) := Attempts(fw, call, n);
            if KeepsOutgrowing(maps, call) then r == KeptTooSmall else r.Got?
    decreases ATTEMPTS + 1 - call
  {
    hide Need, Conforms, Steady, InBounds, Outgrows, Attempts;
    if call > ATTEMPTS {
      assert Attempts(fw, call, n).0 == KeptTooSmall by { NoAttemptLeft(fw, call, n); }
    } else {
      ConformsAt(fw, maps, 0, 0);
      ShortExactly(fw, maps, call, n);
      NextAttempt(fw, call, n);
      if Outgrows(maps, call) {
        AttemptsExact(fw, maps, call + 1, Need(maps(call)) + SLACK * maps(0).stride);
      }
    }
  }

  lemma NoAttemptLeft(fw: Firmware, call: nat, n: nat)
    requires InBounds(fw) && call == ATTEMPTS + 1
    ensures Attempts(fw, call, n) == (KeptTooSmall, call)
  {
  }

  lemma OutgrowingEachTime(maps: nat -> Snapshot)
    ensures KeepsOutgrowing(maps, 1) <==> forall k :: 1 <= k <= 4 ==> Outgrows(maps, k)
  {
    hide Outgrows;
    assert KeepsOutgrowing(maps, 3) <==> Outgrows(maps, 3) && Outgrows(maps, 4);
  }

  /**
    Giving up, exactly: with one descriptor size and no other failure, the protocol ends without a map if and
    only if the map gained more than four descriptors between each two consecutive calls.
   */
  lemma GivesUpExactly(fw: Firmware, maps: nat -> Snapshot)
    requires InBounds(fw) && Conforms(fw, maps) && Steady(fw, maps)
    ensures var (r, _) := Protocol(fw);
            if maps(0).descs != [] && forall k :: 1 <= k <= 4 ==> Outgrows(maps, k) then r == KeptTooSmall else r.Got?
  {
    hide Parsed, Attempts, Need, Conforms, Steady, Outgrows, KeepsOutgrowing;
    var r := fw(0, 0);
    ConformsAt(fw, maps, 0, 0);
    SteadyAt(fw, maps, 0, 0);
    EmptyNeed(maps(0));
    OutgrowingEachTime(maps);
    if r.size != 0 { AttemptsExact(fw, maps, 1, r.size + SLACK * r.stride); }
  }

  predicate AnsweredAt(fw: Firmware, i: nat, n: nat, st: Status) { fw(i, n).status == st }

  /** Call number `i` got this status, with some buffer size. */
  ghost predicate Answered(fw: Firmware, i: nat, st: Status) { exists n: nat :: AnsweredAt(fw, i, n, st) }

  /** What the result says about the last firmware call: success for a map, a failure, or still too small. */
  lemma {:induction false} AttemptsSay(fw: Firmware, call: nat, n: nat)
    requires InBounds(fw) && 1 <= call <= ATTEMPTS + 1
    ensures var (r, calls) := Attempts(fw, call, n);
            && call <= calls <= 5 && r != NoBootServices
            && (r.Got? ==> Answered(fw, calls - 1, Success))
            && (r == Failed ==> Answered(fw, calls - 1, Other))
            && (r == KeptTooSmall ==> calls == 5)
    decreases ATTEMPTS + 1 - call
  {
    hide InBounds, Attempts, Parsed;
    if call > ATTEMPTS {
      NoAttemptLeft(fw, call, n);
    } else if n == 0 {
      EmptyBuffer(fw, call);
    } else {
      var r := fw(call, n);
      NextAttempt(fw, call, n);
      assert AnsweredAt(fw, call, n, r.status);
      if r.status == BufferTooSmall { AttemptsSay(fw, call + 1, r.size + SLACK * r.stride); }
      if r.status == Success { FirstAttempt(fw, call, n); }
    }
  }

  lemma EmptyBuffer(fw: Firmware, call: nat)
    requires InBounds(fw) && 1 <= call <= ATTEMPTS
    ensures Attempts(fw, call, 0) == (Panicked, call)
  {
  }

  /**
    Against any firmware: a map means that the last call succeeded or the probe asked for nothing, a failure that
    the last call failed otherwise than by a short buffer, and giving up that all five calls were made. A probe
    that leaves the descriptor size 0 is answered with 160 bytes of slack.
   */
  lemma ResultSays(fw: Firmware)
    requires InBounds(fw)
    ensures var (r, calls) := Protocol(fw);
            && 1 <= calls <= 5 && r != NoBootServices
            && (r.Got? ==> Answered(fw, calls - 1, Success) || (calls == 1 && fw(0, 0).size == 0))
            && (r == Failed ==> Answered(fw, calls - 1, Other))
            && (r == KeptTooSmall ==> calls == 5)
            && (fw(0, 0).status == Other ==> r == Failed && calls == 1)
    ensures var n := fw(0, 0).size + 160;
            fw(0, 0).status != Other && n > 160 && fw(0, 0).stride == 0 && fw(1, n).status == Success ==>
              Protocol(fw).0.Got? && Protocol(fw).1 == 2
  {
    hide Attempts, InBounds, Parsed;
    var r := fw(0, 0);
    assert AnsweredAt(fw, 0, 0, r.status);
    if r.status != Other && r.size != 0 {
      var n := r.size + SLACK * (if r.stride == 0 then DESCRIPTOR_SIZE else r.stride);
      AttemptsSay(fw, 1, n);
      NextAttempt(fw, 1, n);
      if fw(1, n).status == Success { FirstAttempt(fw, 1, n); }
    }
  }

  lemma FirstAttempt(fw: Firmware, call: nat, n: nat)
    requires InBounds(fw) && 1 <= call <= ATTEMPTS && n > 0 && fw(call, n).status == Success
    ensures fw(call, n).size <= |fw(call, n).data|
    ensures var r := fw(call, n);
            Attempts(fw, call, n) ==
              (Got(MemoryMap(Parsed(r.data[..r.size], r.stride), r.key, r.stride, r.version)), call + 1)
  {
  }
}
