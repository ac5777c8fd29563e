/** The crash log's disk frame and the host tool that reads it back. */
module LogFrames {
  import opened Bytes

  const FRAME_SIZE: nat := 32768
  const HEADER_SIZE: nat := 16
  const CAPACITY: nat := 32752
  const MAGIC: seq<byte> :=
    [0x63, 0x6C, 0x6F, 0x75, 0x64, 0x62, 0x6F, 0x6F, 0x74, 0x2D, 0x4D, 0x31, 0x2E, 0x36, 0x00, 0x00]

  /** Write count, payload length, payload, zero fill. */
  function Frame(count: u64, payload: seq<byte>): (r: seq<byte>)
    requires |payload| <= CAPACITY
    ensures |r| == FRAME_SIZE
  {
    LE(count, 8) + LE(|payload|, 8) + payload + Zeros(CAPACITY - |payload|)
  }

  datatype Decoded = Decoded(count: u64, payload: seq<byte>) | TooShort | BadLength | Truncated

  method DecodeFrame(frame: seq<byte>) returns (r: Decoded)
    ensures r == Decode(frame)
  {
    if |frame| < HEADER_SIZE { return TooShort; }
    FromLE64Bound(frame[..8]);
    var count: u64 := FromLE(frame[0..8]);
    assert frame[0..8] == frame[..8];
    var n := FromLE(frame[8..16]);
    if n > CAPACITY { return BadLength; }
    if |frame| < HEADER_SIZE + n { return Truncated; }
    r := Decoded(count, frame[HEADER_SIZE..HEADER_SIZE + n]);
  }

  function Decode(frame: seq<byte>): Decoded
  {
    if |frame| < HEADER_SIZE then TooShort
    else
      FromLE64Bound(frame[..8]);
      var n := FromLE(frame[8..16]);
      if n > CAPACITY then BadLength
      else if |frame| < HEADER_SIZE + n then Truncated
      else Decoded(FromLE(frame[..8]), frame[HEADER_SIZE..HEADER_SIZE + n])
  }

  /** Decoding a frame gives back its counter and payload. */
  lemma FrameRoundTrip(count: u64, payload: seq<byte>)
    requires |payload| <= CAPACITY
    ensures Decode(Frame(count, payload)) == Decoded(count, payload)
  {
    hide LE, FromLE;
    var f := Frame(count, payload);
    LE64RoundTrip(count);
    LE64RoundTrip(|payload|);
    assert f[..8] == LE(count, 8);
    assert f[8..16] == LE(|payload|, 8);
    assert f[16..16 + |payload|] == payload;
  }

  /** The frame byte by byte: counter at 0, payload length at 8, payload at 16, zeros to 32 KiB. */
  lemma FrameLayout(count: u64, payload: seq<byte>)
    requires |payload| <= 32752
    ensures var f := Frame(count, payload);
            && |f| == 32768 && FromLE(f[0..8]) == count && FromLE(f[8..16]) == |payload|
            && f[16..16 + |payload|] == payload && f[16 + |payload|..] == Zeros(32752 - |payload|)
  {
    hide LE, FromLE;
    var f := Frame(count, payload);
    LE64RoundTrip(count);
    LE64RoundTrip(|payload|);
    assert f[0..8] == LE(count, 8);
    assert f[8..16] == LE(|payload|, 8);
  }

  /** The scratch magic is the text "cloudboot-M1.6" and two NULs. */
  lemma MagicText()
    ensures var text := "cloudboot-M1.6";
            |MAGIC| == |text| + 2 && MAGIC[14] == 0 && MAGIC[15] == 0
            && forall i :: 0 <= i < |text| ==> MAGIC[i] == text[i] as int
  {
  }

  /** What is wrong with a frame that does not decode, and what a decoded one says. */
  lemma DecodeExactly(frame: seq<byte>)
    ensures var d := Decode(frame);
            && (d == TooShort <==> |frame| < 16)
            && (d == BadLength <==> |frame| >= 16 && FromLE(frame[8..16]) > 32752)
            && (d == Truncated <==>
                  |frame| >= 16 && FromLE(frame[8..16]) <= 32752 && |frame| < 16 + FromLE(frame[8..16]))
            && (d.Decoded? ==>
                  && d.count == FromLE(frame[0..8]) && |frame| >= 16 + FromLE(frame[8..16])
                  && d.payload == frame[16..16 + FromLE(frame[8..16])])
  {
    hide FromLE;
    if |frame| >= 16 { assert frame[0..8] == frame[..8]; }
  }

  lemma MagicLength()
    ensures FromLE(MAGIC[8..16]) > CAPACITY
  {
    var m := MAGIC[8..16];
    assert m == [0x74, 0x2D, 0x4D, 0x31, 0x2E, 0x36, 0x00, 0x00];
    assert FromLE(m) == m[0] + 0x100 * FromLE(m[1..]);
    assert FromLE(m[1..]) == m[1] + 0x100 * FromLE(m[1..][1..]);
    assert m[1..][1..] == m[2..];
    assert FromLE(m[2..]) == m[2] + 0x100 * FromLE(m[2..][1..]);
  }

  /** No frame starts with the scratch magic: bytes 8..15 of the magic are no payload length. */
  lemma FrameIsNotMagic(count: u64, payload: seq<byte>)
    requires |payload| <= CAPACITY
    ensures Frame(count, payload)[..16] != MAGIC
  {
    hide LE, FromLE;
    var f := Frame(count, payload);
    MagicLength();
    LE64RoundTrip(|payload|);
    assert f[8..16] == LE(|payload|, 8);
    assert f[..16][8..16] == f[8..16];
  }

  // --- The host-side reader ---

  datatype Outcome = ReadError | ProbeNotRun | DecodeError | Recovered(count: u64, payload: seq<byte>)

  method MagicAtOffset0(frame: seq<byte>) returns (r: bool)
    ensures r <==> |frame| >= 16 && frame[..16] == MAGIC
  {
    if |frame| < |MAGIC| { return false; }
    for i := 0 to |MAGIC|
      invariant frame[..i] == MAGIC[..i]
    {
      if frame[i] != MAGIC[i] {
        assert frame[..16][i] != MAGIC[i];
        return false;
      }
      assert frame[..i + 1] == frame[..i] + [frame[i]] && MAGIC[..i + 1] == MAGIC[..i] + [MAGIC[i]];
    }
    assert MAGIC[..16] == MAGIC;
    return true;
  }

  /** Reads the first 32 KiB of a scratch image and reports what the log left there. */
  method Recover(image: seq<byte>) returns (r: Outcome)
    ensures r == Recovery(image)
  {
    hide Decode;
    if |image| < FRAME_SIZE { return ReadError; }
    var frame := image[..FRAME_SIZE];
    assert frame[..16] == image[..16];
    var untouched := MagicAtOffset0(frame);
    if untouched { return ProbeNotRun; }
    var d := DecodeFrame(frame);
    match d
    case Decoded(count, payload) => return Recovered(count, payload);
    case _ => return DecodeError;
  }

  function Recovery(image: seq<byte>): Outcome
  {
    if |image| < FRAME_SIZE then ReadError
    else if image[..16] == MAGIC then ProbeNotRun
    else match Decode(image[..FRAME_SIZE])
      case Decoded(count, payload) => Recovered(count, payload)
      case _ => DecodeError
  }

  /** A short image is a read error whatever it holds, and an image without the magic decodes or does not. */
  lemma RecoveryErrors(image: seq<byte>)
    ensures Recovery(image) == ReadError <==> |image| < 32768
    ensures Recovery(image) == ProbeNotRun <==> |image| >= 32768 && image[..16] == MAGIC
    ensures Recovery(image) == DecodeError <==>
              |image| >= 32768 && image[..16] != MAGIC && FromLE(image[8..16]) > 32752
  {
    hide FromLE;
    if |image| >= 32768 {
      var frame := image[..FRAME_SIZE];
      DecodeExactly(frame);
      assert frame[8..16] == image[8..16];
    }
  }
}

/** What the log does, over whole runs: a history of bytes, a flush policy and the frames that reached the disk. */
module LogRuns {
  import opened Bytes
  import opened LogFrames

  const AUTO_FLUSH: nat := 4096
  const SENTINEL: byte := 0x04

  /** One frame that reached the disk: the flush attempt it was, and how much had been printed by then. */
  datatype Mark = Mark(attempt: nat, at: nat)

  datatype Log = Log(history: seq<byte>, attempts: nat, pending: nat, bound: bool, written: seq<Mark>)

  /** A byte to print or an explicit flush, and how WriteBlocks and FlushBlocks would answer if called. */
  datatype Event = Print(b: byte, writeOk: bool, flushOk: bool) | FlushNow(writeOk: bool, flushOk: bool)

  function Flushed(l: Log, writeOk: bool, flushOk: bool): Log
  {
    if !l.bound then l
    else if !writeOk then l.(attempts := l.attempts + 1)
    else l.(attempts := l.attempts + 1, written := l.written + [Mark(l.attempts + 1, |l.history|)],
            pending := if flushOk then 0 else l.pending)
  }

  function Appended(l: Log, b: byte): Log
  {
    l.(history := l.history + [b], pending := l.pending + 1)
  }

  function Step(l: Log, e: Event): Log
  {
    match e
    case FlushNow(w, f) => Flushed(l, w, f)
    case Print(b, w, f) =>
      var l1 := Appended(l, b);
      if b == SENTINEL || l1.pending >= AUTO_FLUSH then Flushed(l1, w, f) else l1
  }

  function Run(l: Log, es: seq<Event>): Log
    decreases |es|
  {
    if es == [] then l else Run(Step(l, es[0]), es[1..])
  }

  function Start(bound: bool): Log { Log([], 0, 0, bound, []) }

  // --- What the ring hands to a frame ---

  /** The last bytes of the history, as many as fit. */
  function Last(h: seq<byte>): seq<byte>
  {
    if |h| <= CAPACITY then h else h[|h| - CAPACITY..]
  }

  function Min(a: nat, b: nat): nat { if a <= b then a else b }

  /**
    The payload computed from the ring: `total` is a 64-bit counter, and until it exceeds the capacity the
    payload is taken to be the bytes before the write position.
   */
  function Window(h: seq<byte>): (r: seq<byte>)
    ensures |r| <= CAPACITY
  {
    var total := |h| % TWO64;
    var head := |h| % CAPACITY;
    if total > CAPACITY then Last(h)
    else
      var k := Min(head, total);
      h[|h| - head..|h| - head + k] + Zeros(total - k)
  }

  /** A sequence that equals its own tail followed by zeros is all zeros. */
  lemma {:induction false} ShiftedIntoZeros(s: seq<byte>, d: nat, i: nat)
    requires 0 < d <= |s| && s == s[d..] + Zeros(d) && i < |s|
    ensures s[i] == 0
    decreases |s| - i
  {
    if i + d < |s| {
      ShiftedIntoZeros(s, d, i + d);
      assert s[i] == (s[d..] + Zeros(d))[i] == s[i + d];
    } else {
      assert s[i] == (s[d..] + Zeros(d))[i] == Zeros(d)[i + d - |s|];
    }
  }

  lemma ShiftFixpoint(s: seq<byte>, d: nat)
    requires 0 < d <= |s|
    ensures s[d..] + Zeros(d) == s <==> s == Zeros(|s|)
  {
    if s[d..] + Zeros(d) == s {
      forall i | 0 <= i < |s| ensures s[i] == 0 { ShiftedIntoZeros(s, d, i); }
    }
  }

  /** The 64-bit total reads exactly one ring: the payload is what lies before the write position, then zeros. */
  lemma WindowAtCapacity(h: seq<byte>)
    requires |h| % TWO64 == CAPACITY
    ensures |h| >= CAPACITY
    ensures var head := |h| % CAPACITY; Window(h) == Last(h)[CAPACITY - head..] + Zeros(CAPACITY - head)
  {
    var head := |h| % CAPACITY;
    SuffixOfSuffix(h, CAPACITY, head);
  }

  lemma SuffixOfSuffix(h: seq<byte>, n: nat, k: nat)
    requires k <= n <= |h|
    ensures h[|h| - n..][n - k..] == h[|h| - k..]
  {
  }

  lemma WindowLength(h: seq<byte>)
    ensures |h| % TWO64 > CAPACITY ==> Window(h) == Last(h)
    ensures |h| % TWO64 <= CAPACITY ==> |Window(h)| == |h| % TWO64
    ensures |Last(h)| == Min(|h|, CAPACITY)
  {
  }

  lemma WindowOfFew(h: seq<byte>)
    requires |h| < CAPACITY
    ensures Window(h) == Last(h)
  {
    assert |h| % TWO64 == |h| && |h| % CAPACITY == |h|;
  }

  /**
    The payload is the last bytes printed if and only if the 64-bit total says that the ring has wrapped, or the
    ring has never been full, or the total is exactly the ring's size and those bytes happen to be zeros: at that
    point the ring does not count as wrapped while its write position has moved on.
   */
  lemma WindowIsLast(h: seq<byte>)
    ensures Window(h) == Last(h) <==>
              |h| < CAPACITY || |h| % TWO64 > CAPACITY || (|h| % TWO64 == CAPACITY && Last(h) == Zeros(CAPACITY))
    ensures |h| == CAPACITY ==> Window(h) == Zeros(CAPACITY)
  {
    hide Window, Last;
    WindowLength(h);
    if |h| < CAPACITY {
      WindowOfFew(h);
    } else if |h| % TWO64 == CAPACITY {
      ZerosAtCapacity(h);
    }
    if |h| == CAPACITY { FullWindow(h); }
  }

  lemma ZerosAtCapacity(h: seq<byte>)
    requires |h| % TWO64 == CAPACITY
    ensures Window(h) == Last(h) <==> Last(h) == Zeros(CAPACITY)
  {
    hide Window;
    WindowAtCapacity(h);
    ShiftFixpoint(Last(h), CAPACITY - |h| % CAPACITY);
  }

  lemma FullWindow(h: seq<byte>)
    requires |h| == CAPACITY
    ensures Window(h) == Zeros(CAPACITY)
  {
    hide Window;
    WindowAtCapacity(h);
    assert Last(h)[CAPACITY..] + Zeros(CAPACITY) == Zeros(CAPACITY);
  }

  /** After a full ring, 32752 letters: what comes out is not what went in. */
  lemma FullRingReadsZeros()
    ensures var h := seq(CAPACITY, _ => 0x41); |h| == CAPACITY && Window(h) != Last(h)
  {
    var h: seq<byte> := seq(CAPACITY, _ => 0x41);
    WindowIsLast(h);
    assert h[0] == 0x41 && Zeros(CAPACITY)[0] == 0;
  }

  // --- The disk ---

  function FrameOf(l: Log, m: Mark): seq<byte>
    requires m.at <= |l.history|
  {
    Frame(m.attempt % TWO64, Window(l.history[..m.at]))
  }

  ghost predicate MarksOk(l: Log)
  {
    && (forall i :: 0 <= i < |l.written| ==> 0 < l.written[i].attempt <= l.attempts && l.written[i].at <= |l.history|)
    && (forall i, j :: 0 <= i < j < |l.written| ==>
          l.written[i].attempt < l.written[j].attempt && l.written[i].at <= l.written[j].at)
  }

  /** The disk after the log's last successful write at byte offset `base`. */
  function DiskOf(disk: seq<byte>, base: nat, l: Log): seq<byte>
    requires base + FRAME_SIZE <= |disk|
    requires l.written != [] ==> l.written[|l.written| - 1].at <= |l.history|
  {
    if l.written == [] then disk else Splice(disk, base, FrameOf(l, l.written[|l.written| - 1]))
  }

  lemma StepMarks(l: Log, e: Event)
    requires MarksOk(l)
    ensures MarksOk(Step(l, e)) && l.history <= Step(l, e).history && l.attempts <= Step(l, e).attempts
  {
  }

  /** With any failures whatsoever, the counters of the frames that reach the disk strictly increase. */
  lemma {:induction false} CountersIncrease(l: Log, es: seq<Event>)
    requires MarksOk(l)
    ensures MarksOk(Run(l, es)) && l.history <= Run(l, es).history
    ensures var t := Run(l, es);
            t.attempts < TWO64 ==>
              forall i, j :: 0 <= i < j < |t.written| ==> t.written[i].attempt % TWO64 < t.written[j].attempt % TWO64
    decreases |es|
  {
    if es != [] {
      StepMarks(l, es[0]);
      CountersIncrease(Step(l, es[0]), es[1..]);
    }
  }

  /** One event's effect on the disk. */
  function DiskStep(disk: seq<byte>, base: nat, l: Log, e: Event): (r: seq<byte>)
    requires base + FRAME_SIZE <= |disk|
    ensures |r| == |disk|
  {
    var t := Step(l, e);
    if |t.written| > |l.written| then Splice(disk, base, Frame(t.attempts % TWO64, Window(t.history))) else disk
  }

  function DiskRun(disk: seq<byte>, base: nat, l: Log, es: seq<Event>): (r: seq<byte>)
    requires base + FRAME_SIZE <= |disk|
    ensures |r| == |disk|
    decreases |es|
  {
    if es == [] then disk else DiskRun(DiskStep(disk, base, l, es[0]), base, Step(l, es[0]), es[1..])
  }

  lemma DiskStepOf(disk: seq<byte>, base: nat, l: Log, e: Event)
    requires base + FRAME_SIZE <= |disk| && MarksOk(l)
    ensures MarksOk(Step(l, e))
    ensures DiskStep(DiskOf(disk, base, l), base, l, e) == DiskOf(disk, base, Step(l, e))
  {
    hide Window, Frame;
    StepMarks(l, e);
    var t := Step(l, e);
    if |t.written| > |l.written| {
      assert t.history[..|t.history|] == t.history;
      assert t.written[|t.written| - 1] == Mark(t.attempts, |t.history|);
      SpliceTwice(disk, base,
                  if l.written == [] then disk[base..base + FRAME_SIZE] else FrameOf(l, l.written[|l.written| - 1]),
                  Frame(t.attempts % TWO64, Window(t.history)));
      if l.written == [] { assert Splice(disk, base, disk[base..base + FRAME_SIZE]) == disk; }
    } else if l.written != [] {
      var m := l.written[|l.written| - 1];
      assert t.written == l.written;
      assert t.history[..m.at] == l.history[..m.at];
    }
  }

  lemma SpliceTwice(s: seq<byte>, o: nat, a: seq<byte>, b: seq<byte>)
    requires |a| == |b| && o + |a| <= |s|
    ensures Splice(Splice(s, o, a), o, b) == Splice(s, o, b)
  {
    assert Splice(s, o, a)[..o] == s[..o];
    assert Splice(s, o, a)[o + |b|..] == s[o + |b|..];
  }

  /** After any run the disk holds the frame of the last successful write, or is untouched. */
  lemma {:induction false} DiskHoldsLastFrame(disk: seq<byte>, base: nat, l: Log, es: seq<Event>)
    requires base + FRAME_SIZE <= |disk| && MarksOk(l)
    ensures MarksOk(Run(l, es))
    ensures DiskRun(DiskOf(disk, base, l), base, l, es) == DiskOf(disk, base, Run(l, es))
    decreases |es|
  {
    hide DiskStep, DiskOf, Step;
    if es != [] {
      DiskStepOf(disk, base, l, es[0]);
      DiskHoldsLastFrame(disk, base, Step(l, es[0]), es[1..]);
    }
  }

  /**
    End to end: on a scratch disk seeded with the magic, whatever is printed and whichever writes fail, the
    host tool reports "probe not run" if nothing was ever written, and otherwise the counter and payload of
    the last successful write.
   */
  lemma RecoverReportsLastWrite(disk: seq<byte>, l: Log, es: seq<Event>)
    requires FRAME_SIZE <= |disk| && disk[..16] == MAGIC
    requires MarksOk(l) && l.written == []
    ensures MarksOk(Run(l, es))
    ensures var t := Run(l, es);
            Recovery(DiskRun(disk, 0, l, es)) ==
              if t.written == [] then ProbeNotRun
              else var m := t.written[|t.written| - 1];
                   Recovered(m.attempt % TWO64, Window(t.history[..m.at]))
  {
    hide Window, Decode, Frame, DiskRun, Step;
    DiskHoldsLastFrame(disk, 0, l, es);
    var t := Run(l, es);
    if t.written != [] {
      var m := t.written[|t.written| - 1];
      var f := FrameOf(t, m);
      FrameIsNotMagic(m.attempt % TWO64, Window(t.history[..m.at]));
      FrameRoundTrip(m.attempt % TWO64, Window(t.history[..m.at]));
      var d := Splice(disk, 0, f);
      assert d[..FRAME_SIZE] == f;
      assert d[..16] == f[..16];
    }
  }

  // --- What the counter counts ---

  /** The event calls Flush on a bound ring. */
  predicate Tries(l: Log, e: Event)
  {
    l.bound && (e.FlushNow? || e.b == SENTINEL || l.pending + 1 >= AUTO_FLUSH)
  }

  /** The number of flushes of a run whose write failed. */
  function Misses(l: Log, es: seq<Event>): nat
    decreases |es|
  {
    if es == [] then 0
    else (if Tries(l, es[0]) && !es[0].writeOk then 1 else 0) + Misses(Step(l, es[0]), es[1..])
  }

  /** Every flush of the run got its write through. */
  predicate EveryTryWrites(l: Log, es: seq<Event>)
    decreases |es|
  {
    es == [] || ((Tries(l, es[0]) ==> es[0].writeOk) && EveryTryWrites(Step(l, es[0]), es[1..]))
  }

  /**
    The counter runs ahead of the number of frames written by one for each failed write. It counts the frames
    if and only if every flush of the run got its write through.
   */
  lemma {:induction false} CounterAhead(l: Log, es: seq<Event>)
    ensures var t := Run(l, es);
            t.attempts - |t.written| == l.attempts - |l.written| + Misses(l, es)
    ensures var t := Run(l, es);
            t.attempts - |t.written| == l.attempts - |l.written| <==> EveryTryWrites(l, es)
    decreases |es|
  {
    if es != [] { CounterAhead(Step(l, es[0]), es[1..]); }
  }

  /** The number of flushes of a run that succeeded: write and cache flush both. */
  function Successes(l: Log, es: seq<Event>): nat
    decreases |es|
  {
    if es == [] then 0
    else (if Tries(l, es[0]) && es[0].writeOk && es[0].flushOk then 1 else 0) + Successes(Step(l, es[0]), es[1..])
  }

  predicate EveryTrySucceeds(l: Log, es: seq<Event>)
    decreases |es|
  {
    es == [] || ((Tries(l, es[0]) ==> es[0].writeOk && es[0].flushOk) && EveryTrySucceeds(Step(l, es[0]), es[1..]))
  }

  /** Over every run the counter grows by the number of successful flushes if and only if no flush failed. */
  lemma {:induction false} CounterCountsSuccesses(l: Log, es: seq<Event>)
    ensures Run(l, es).attempts >= l.attempts + Successes(l, es)
    ensures Run(l, es).attempts == l.attempts + Successes(l, es) <==> EveryTrySucceeds(l, es)
    decreases |es|
  {
    if es != [] { CounterCountsSuccesses(Step(l, es[0]), es[1..]); }
  }

  /**
    "After N flushes this is N", read on the disk: the frame that event `e` writes after the run `es` carries the
    number of frames written so far, modulo 2^64, if and only if the failed writes before it are a multiple of 2^64.
   */
  lemma CounterOnDisk(l: Log, es: seq<Event>, e: Event)
    requires l.attempts == |l.written|
    requires Tries(Run(l, es), e) && e.writeOk
    ensures var t := Step(Run(l, es), e);
            && |t.written| == |Run(l, es).written| + 1
            && var m := t.written[|t.written| - 1];
               && (m.attempt % TWO64 == |t.written| % TWO64 <==> Misses(l, es) % TWO64 == 0)
               && (m.attempt == |t.written| <==> EveryTryWrites(l, es))
  {
    hide Run, Misses, EveryTryWrites;
    CounterAhead(l, es);
    var n := |Step(Run(l, es), e).written|;
    SameRemainder(n, Misses(l, es));
  }

  lemma SameRemainder(n: nat, k: nat)
    ensures (n + k) % TWO64 == n % TWO64 <==> k % TWO64 == 0
  {
    var a, b := n / TWO64, (n + k) / TWO64;
    assert n == a * TWO64 + n % TWO64 && n + k == b * TWO64 + (n + k) % TWO64;
    if (n + k) % TWO64 == n % TWO64 { assert k == (b - a) * TWO64; }
    if k % TWO64 == 0 { assert n + k == (a + k / TWO64) * TWO64 + n % TWO64; }
  }

  /** One failed write, then one that succeeds: the host tool reports 2 for the only frame ever written. */
  lemma FailedWriteIsCounted(disk: seq<byte>)
    requires FRAME_SIZE <= |disk| && disk[..16] == MAGIC
    ensures var es := [FlushNow(false, true), FlushNow(true, true)];
            |Run(Start(true), es).written| == 1 && Recovery(DiskRun(disk, 0, Start(true), es)) == Recovered(2, [])
  {
    hide DiskRun, Recovery, Run, Window;
    var a, b := FlushNow(false, true), FlushNow(true, true);
    RecoverReportsLastWrite(disk, Start(true), [a, b]);
    RunTwo(Start(true), a, b);
    var l := Step(Step(Start(true), a), b);
    assert l.written == [Mark(2, 0)];
    assert l.history[..0] == [];
    EmptyWindow();
  }

  lemma RunTwo(l: Log, a: Event, b: Event)
    ensures Run(l, [a, b]) == Step(Step(l, a), b)
  {
    hide Step;
    var es := [a, b];
    assert es[1..] == [b] && es[1..][1..] == [];
    assert Run(l, es) == Run(Step(l, a), es[1..]) == Run(Step(Step(l, a), b), []);
  }

  lemma EmptyWindow()
    ensures Window([]) == []
  {
  }

  // --- The flush policy ---

  /** Printing the sentinel, byte 0x04, on a bound ring writes a frame of everything printed, however little waits. */
  lemma SentinelFlushes(l: Log, flushOk: bool)
    requires l.bound
    ensures var t := Step(l, Print(0x04, true, flushOk));
            && t.history == l.history + [0x04]
            && t.written == l.written + [Mark(l.attempts + 1, |l.history| + 1)]
            && (flushOk ==> t.pending == 0)
  {
  }

  /** Other bytes are flushed exactly when 4096 are pending; an unbound ring is never flushed. */
  lemma OrdinaryBytes(l: Log, b: byte, w: bool, f: bool)
    requires b != 0x04
    ensures var t := Step(l, Print(b, w, f));
            && t.history == l.history + [b]
            && (t.attempts == l.attempts + 1 <==> l.bound && l.pending + 1 >= 4096)
            && (t.attempts != l.attempts ==> t.attempts == l.attempts + 1)
            && (|t.written| == |l.written| + 1 <==> l.bound && l.pending + 1 >= 4096 && w)
  {
  }

  /** A flush that fails, in the write or after it, leaves the budget spent, so the very next byte tries again. */
  lemma FailedFlushRetries(l: Log, a: byte, w: bool, f: bool, e: Event)
    requires l.bound && l.pending + 1 >= 4096 && !(w && f)
    ensures Step(Step(l, Print(a, w, f)), e).attempts == l.attempts + 2
  {
  }

  /** A successful flush starts a new budget: the next 4095 ordinary bytes are not flushed. */
  lemma {:induction false} FreshBudget(l: Log, es: seq<Event>)
    requires l.bound && l.pending + |es| < 4096
    requires forall i :: 0 <= i < |es| ==> es[i].Print? && es[i].b != 0x04
    ensures Run(l, es).attempts == l.attempts && Run(l, es).written == l.written
    decreases |es|
  {
    if es != [] { FreshBudget(Step(l, es[0]), es[1..]); }
  }

  predicate AllSucceed(es: seq<Event>)
  {
    forall i :: 0 <= i < |es| ==> es[i].writeOk && es[i].flushOk
  }

  function LastAt(l: Log): nat { if l.written == [] then 0 else l.written[|l.written| - 1].at }

  /** Some frame was written within 4096 bytes after every position old enough. */
  ghost predicate FlushedSoon(l: Log)
  {
    forall x: nat :: x + AUTO_FLUSH <= |l.history| ==> FlushAfter(l, x)
  }

  ghost predicate FlushAfter(l: Log, x: nat)
  {
    exists k :: 0 <= k < |l.written| && x < l.written[k].at <= x + AUTO_FLUSH
  }

  ghost predicate Prompt(l: Log)
  {
    && l.bound && MarksOk(l)
    && l.pending < AUTO_FLUSH
    && l.pending == |l.history| - LastAt(l)
    && FlushedSoon(l)
  }

  lemma PromptStep(l: Log, e: Event)
    requires Prompt(l) && e.writeOk && e.flushOk
    ensures Prompt(Step(l, e))
  {
    StepMarks(l, e);
    var t := Step(l, e);
    assert l.written <= t.written;
    forall x: nat | x + AUTO_FLUSH <= |t.history|
      ensures FlushAfter(t, x)
    {
      if x + AUTO_FLUSH <= |l.history| {
        assert FlushAfter(l, x);
        var k :| 0 <= k < |l.written| && x < l.written[k].at <= x + AUTO_FLUSH;
        assert t.written[k] == l.written[k];
      } else {
        var k := |t.written| - 1;
        assert x < t.written[k].at <= x + AUTO_FLUSH;
      }
    }
  }

  /**
    While flushes succeed, fewer than 4096 bytes are ever waiting after a call, and none waits longer than 4096
    bytes.
   */
  lemma {:induction false} PromptRun(l: Log, es: seq<Event>)
    requires Prompt(l) && AllSucceed(es)
    ensures Prompt(Run(l, es)) && Run(l, es).pending < 4096
    decreases |es|
  {
    hide Step, MarksOk, FlushedSoon;
    if es != [] {
      PromptStep(l, es[0]);
      PromptRun(Step(l, es[0]), es[1..]);
    }
  }
}

/** The in-memory ring and its live flush path. */
module Rings {
  import opened Bytes
  import opened LogFrames
  import opened LogRuns

  /** The ring holds the newest bytes of the history, each at its position modulo the capacity. */
  ghost predicate RingHolds(p: seq<byte>, h: seq<byte>)
  {
    |p| == CAPACITY && forall k :: 0 <= k < |h| && |h| - CAPACITY <= k ==> p[k % CAPACITY] == h[k]
  }

  lemma Wraps(q: nat, j: nat)
    requires j < CAPACITY
    ensures (q * CAPACITY + j) % CAPACITY == j
  {
  }

  lemma RingAppend(p: seq<byte>, h: seq<byte>, b: byte)
    requires RingHolds(p, h)
    ensures RingHolds(p[|h| % CAPACITY := b], h + [b])
  {
    var h', p' := h + [b], p[|h| % CAPACITY := b];
    forall k | 0 <= k < |h'| && |h'| - CAPACITY <= k
      ensures p'[k % CAPACITY] == h'[k]
    {
      if k < |h| { Apart(k, |h|); }
    }
  }

  lemma Apart(a: nat, b: nat)
    requires a < b < a + CAPACITY
    ensures a % CAPACITY != b % CAPACITY
  {
    var qa, qb := a / CAPACITY, b / CAPACITY;
    assert a == qa * CAPACITY + a % CAPACITY && b == qb * CAPACITY + b % CAPACITY;
  }

  /** The bytes before the write position are the newest. */
  lemma RingFront(p: seq<byte>, h: seq<byte>)
    requires RingHolds(p, h)
    ensures var head := |h| % CAPACITY; p[..head] == h[|h| - head..]
  {
    var head, q := |h| % CAPACITY, |h| / CAPACITY;
    assert |h| == q * CAPACITY + head;
    forall j | 0 <= j < head
      ensures p[..head][j] == h[|h| - head..][j]
    {
      Wraps(q, j);
      assert p[(q * CAPACITY + j) % CAPACITY] == h[q * CAPACITY + j];
    }
  }

  /** In a full ring, the bytes from the write position on are the oldest. */
  lemma RingBack(p: seq<byte>, h: seq<byte>)
    requires RingHolds(p, h) && |h| >= CAPACITY
    ensures var head := |h| % CAPACITY; p[head..] == h[|h| - CAPACITY..|h| - head]
  {
    var head, q := |h| % CAPACITY, |h| / CAPACITY;
    assert |h| == q * CAPACITY + head;
    forall j | 0 <= j < CAPACITY - head
      ensures p[head..][j] == h[|h| - CAPACITY..|h| - head][j]
    {
      Wraps(q - 1, head + j);
      assert (q - 1) * CAPACITY + (head + j) == |h| - CAPACITY + j;
      assert p[(|h| - CAPACITY + j) % CAPACITY] == h[|h| - CAPACITY + j];
    }
  }

  lemma RingWindow(p: seq<byte>, h: seq<byte>)
    requires |p| == CAPACITY && RingHolds(p, h)
    ensures var total, head := |h| % TWO64, |h| % CAPACITY;
            Window(h) == if total > CAPACITY then p[head..] + p[..head]
                         else p[..Min(head, total)] + Zeros(total - Min(head, total))
  {
    hide RingHolds;
    var total, head := |h| % TWO64, |h| % CAPACITY;
    RingFront(p, h);
    if total > CAPACITY {
      assert |h| >= total;
      RingBack(p, h);
      Rejoin(h, |h| - CAPACITY, |h| - head);
    } else {
      Truncate(p, h, head, Min(head, total));
    }
  }

  lemma Rejoin(h: seq<byte>, lo: nat, mid: nat)
    requires lo <= mid <= |h|
    ensures h[lo..] == h[lo..mid] + h[mid..]
  {
  }

  lemma Truncate(p: seq<byte>, h: seq<byte>, head: nat, k: nat)
    requires k <= head <= |p| && head <= |h| && p[..head] == h[|h| - head..]
    ensures p[..k] == h[|h| - head..|h| - head + k]
  {
    assert p[..k] == p[..head][..k];
    assert h[|h| - head..|h| - head + k] == h[|h| - head..][..k];
  }

  /** The scratch disk behind the bound Block IO handle. */
  class Disk {
    var bytes: seq<byte>

    constructor (image: seq<byte>)
      ensures bytes == image
    {
      bytes := image;
    }
  }

  datatype FlushResult = FlushedOk | NoSink | WriteFailed | FlushFailed

  class BlkRingBuffer {
    const payload: array<byte>
    var head: nat
    var total: u64
    var writeCount: u64
    var blockIO: nat
    var lba: u64
    var blockSize: u32
    var pendingAutoFlush: nat
    ghost var log: Log

    ghost predicate Valid()
      reads this, payload
    {
      && payload.Length == CAPACITY
      && head == |log.history| % CAPACITY
      && total == |log.history| % TWO64
      && writeCount == log.attempts % TWO64
      && pendingAutoFlush == log.pending
      && (log.bound <==> blockIO != 0)
      && RingHolds(payload[..], log.history)
    }

    constructor ()
      ensures Valid() && log == Start(false) && fresh(payload)
    {
      payload := new byte[CAPACITY](_ => 0);
      head, total, writeCount, blockIO, lba, blockSize, pendingAutoFlush := 0, 0, 0, 0, 0, 0, 0;
      log := Start(false);
    }

    /** Refuses a block size that does not divide the frame. */
    method BindBlockIO(handle: nat, size: u32, start: u64) returns (ok: bool)
      requires Valid()
      modifies `blockIO, `lba, `blockSize, `log
      ensures Valid()
      ensures ok <==> size != 0 && FRAME_SIZE % size == 0
      ensures ok ==> blockIO == handle && blockSize == size && lba == start && log == old(log).(bound := handle != 0)
      ensures !ok ==> blockIO == old(blockIO) && blockSize == old(blockSize) && lba == old(lba) && log == old(log)
    {
      if size == 0 || FRAME_SIZE % size != 0 { return false; }
      blockIO, blockSize, lba := handle, size, start;
      log := log.(bound := handle != 0);
      ok := true;
    }

    /** The payload in chronological order. */
    method PayloadBytes() returns (out: seq<byte>)
      requires Valid()
      ensures out == Window(log.history)
    {
      hide RingHolds, Window;
      RingWindow(payload[..], log.history);
      var n: nat := total;
      if n > CAPACITY { n := CAPACITY; }
      if !(total > CAPACITY) {
        var copied := Min(head, n);
        out := payload[..copied] + Zeros(n - copied);
        return;
      }
      out := payload[head..] + payload[..head];
    }

    method Append(b: byte)
      requires Valid()
      modifies `head, `total, `pendingAutoFlush, `log, payload
      ensures Valid() && log == Appended(old(log), b)
    {
      hide RingHolds;
      ghost var p, h := payload[..], log.history;
      RingAppend(p, h, b);
      payload[head] := b;
      assert payload[..] == p[head := b];
      head := head + 1;
      if head == CAPACITY { head := 0; }
      total := (total + 1) % TWO64;
      pendingAutoFlush := pendingAutoFlush + 1;
      log := Appended(log, b);
      NextPosition(|h|);
    }

    /** The frame about to be written; the counter is bumped by the caller. */
    method Serialize() returns (out: array<byte>)
      requires Valid()
      ensures fresh(out) && out[..] == Frame(writeCount, Window(log.history))
    {
      hide RingHolds, Window, LE;
      out := new byte[FRAME_SIZE](_ => 0);
      assert out[..] == Zeros(FRAME_SIZE);
      PutLE64(out, 0, writeCount);
      var bytes := PayloadBytes();
      PutLE64(out, 8, |bytes|);
      ghost var before := out[..];
      forall i | 0 <= i < |bytes| { out[HEADER_SIZE + i] := bytes[i]; }
      assert out[..] == Splice(before, HEADER_SIZE, bytes);
      FrameAssembles(writeCount, bytes);
    }

    /**
      Bumps the counter, writes the frame, asks for a cache flush, and only if all of that succeeded starts a
      new auto-flush budget. `writeOk` and `flushOk` are the firmware's answers; a failed write leaves the disk alone.
     */
    method Flush(disk: Disk, writeOk: bool, flushOk: bool) returns (r: FlushResult)
      requires Valid()
      requires writeOk ==> lba * blockSize + FRAME_SIZE <= |disk.bytes|
      modifies `writeCount, `pendingAutoFlush, `log, disk
      ensures Valid() && log == Flushed(old(log), writeOk, flushOk)
      ensures disk.bytes == if lba * blockSize + FRAME_SIZE <= |old(disk.bytes)|
                            then DiskStep(old(disk.bytes), lba * blockSize, old(log), FlushNow(writeOk, flushOk))
                            else old(disk.bytes)
      ensures r == if !log.bound then NoSink else if !writeOk then WriteFailed
                   else if !flushOk then FlushFailed else FlushedOk
    {
      hide RingHolds, Window, Frame;
      if blockIO == 0 { return NoSink; }
      NextPosition(log.attempts);
      writeCount := (writeCount + 1) % TWO64;
      log := log.(attempts := log.attempts + 1);
      var frame := Serialize();
      if !writeOk { return WriteFailed; }
      var off := lba * blockSize;
      disk.bytes := Splice(disk.bytes, off, frame[..]);
      log := log.(written := log.written + [Mark(log.attempts, |log.history|)]);
      if !flushOk { return FlushFailed; }
      pendingAutoFlush := 0;
      log := log.(pending := 0);
      return FlushedOk;
    }

    /** Prints one byte; flush failures are swallowed and retried at the next occasion. */
    method BlkPrintk(b: byte, disk: Disk, writeOk: bool, flushOk: bool)
      requires Valid()
      requires writeOk ==> lba * blockSize + FRAME_SIZE <= |disk.bytes|
      modifies `head, `total, `writeCount, `pendingAutoFlush, `log, payload, disk
      ensures Valid() && log == Step(old(log), Print(b, writeOk, flushOk))
      ensures disk.bytes == if lba * blockSize + FRAME_SIZE <= |old(disk.bytes)|
                            then DiskStep(old(disk.bytes), lba * blockSize, old(log), Print(b, writeOk, flushOk))
                            else old(disk.bytes)
    {
      hide RingHolds, Window, Frame;
      Append(b);
      if b == SENTINEL {
        var _ := Flush(disk, writeOk, flushOk);
        return;
      }
      if pendingAutoFlush >= AUTO_FLUSH {
        var _ := Flush(disk, writeOk, flushOk);
      }
    }
  }

  lemma NextPosition(n: nat)
    ensures (n + 1) % CAPACITY == if n % CAPACITY + 1 == CAPACITY then 0 else n % CAPACITY + 1
    ensures (n + 1) % TWO64 == (n % TWO64 + 1) % TWO64
  {
    assert n == n / CAPACITY * CAPACITY + n % CAPACITY;
    assert n == n / TWO64 * TWO64 + n % TWO64;
  }

  lemma FrameAssembles(count: u64, bytes: seq<byte>)
    requires |bytes| <= CAPACITY
    ensures Splice(Splice(Splice(Zeros(FRAME_SIZE), 0, LE(count, 8)), 8, LE(|bytes|, 8)), HEADER_SIZE, bytes) ==
              Frame(count, bytes)
  {
    hide LE;
    var z := Zeros(FRAME_SIZE);
    SpliceAppend(z, 0, LE(count, 8), LE(|bytes|, 8));
    SpliceAppend(z, 0, LE(count, 8) + LE(|bytes|, 8), bytes);
    assert z[HEADER_SIZE + |bytes|..] == Zeros(CAPACITY - |bytes|);
    assert z[..0] == [];
  }
}
