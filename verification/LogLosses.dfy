/** Which bytes of the crash log are sure to reach the disk, as long as flushes succeed, and which can be lost. */
module LogLosses {
  import opened Bytes
  import opened LogFrames
  import opened LogRuns

  /** Byte `i` of the history stands in the frame of mark `m` at its place. */
  ghost predicate InFrame(l: Log, m: Mark, i: nat)
    requires m.at <= |l.history|
  {
    var w := Window(l.history[..m.at]);
    var k := i - (if m.at > CAPACITY then m.at - CAPACITY else 0);
    i < m.at && 0 <= k < |w| && w[k] == l.history[i]
  }

  /** Some written frame held byte `i`. */
  ghost predicate Held(l: Log, i: nat)
  {
    exists k :: 0 <= k < |l.written| && l.written[k].at <= |l.history| && InFrame(l, l.written[k], i)
  }

  /** A frame written after `at` bytes shows the last of them: the ring was never full, or counts as wrapped. */
  predicate Clean(at: nat) { at < CAPACITY || at % TWO64 > CAPACITY }

  lemma HeldBy(l: Log, k: nat, i: nat)
    requires k < |l.written| && l.written[k].at <= |l.history|
    requires i < l.written[k].at <= i + CAPACITY && Clean(l.written[k].at)
    ensures Held(l, i)
  {
    hide Window;
    WindowIsLast(l.history[..l.written[k].at]);
    assert InFrame(l, l.written[k], i);
  }

  // --- Bytes that are safe ---

  /** At least 4096 bytes away from where the 64-bit total wraps to 0. */
  predicate FarFromWrap(i: nat)
  {
    i < AUTO_FLUSH || AUTO_FLUSH <= i % TWO64 < TWO64 - AUTO_FLUSH
  }

  /** From here on any frame of the next 4096 bytes will do: past byte `i` and past the first ring of its 2^64 bytes. */
  function Anchor(i: nat): nat
  {
    if i < AUTO_FLUSH || i % TWO64 >= CAPACITY then i else i - i % TWO64 + CAPACITY
  }

  lemma Remainder(w: nat, d: nat)
    requires w % TWO64 == 0 && d < TWO64
    ensures (w + d) % TWO64 == d
  {
    assert w == w / TWO64 * TWO64;
  }

  lemma WrapBefore(i: nat)
    ensures (i - i % TWO64) % TWO64 == 0
  {
    assert i - i % TWO64 == i / TWO64 * TWO64;
  }

  lemma AnchorClean(i: nat, at: nat)
    requires FarFromWrap(i) && Anchor(i) < at <= Anchor(i) + AUTO_FLUSH
    ensures Clean(at) && i < at <= i + CAPACITY
  {
    if i >= AUTO_FLUSH {
      var w := i - i % TWO64;
      WrapBefore(i);
      Remainder(w, at - w);
    }
  }

  lemma HeldAfterAnchor(l: Log, i: nat)
    requires MarksOk(l) && FarFromWrap(i) && FlushAfter(l, Anchor(i))
    ensures Held(l, i)
  {
    hide Held;
    var k :| 0 <= k < |l.written| && Anchor(i) < l.written[k].at <= Anchor(i) + AUTO_FLUSH;
    AnchorClean(i, l.written[k].at);
    HeldBy(l, k, i);
  }

  /**
    No byte is lost while flushes succeed: when the ring has overwritten byte `i`, some written frame held it.
    The one frame that holds zeros instead, at exactly 32752 bytes, is always followed in time by another.
    This holds however much is printed, except next to a wrap of the 64-bit total.
   */
  lemma NothingLost(l: Log, es: seq<Event>, i: nat)
    requires Prompt(l) && AllSucceed(es) && FarFromWrap(i)
    requires i + 32752 < |Run(l, es).history|
    ensures Held(Run(l, es), i)
  {
    hide Step, Held, FlushAfter;
    PromptRun(l, es);
    HeldAfterAnchor(Run(l, es), i);
  }

  // --- Binding late ---

  /** A ring bound after `h` was printed: all of it is pending and nothing was ever written. */
  function BoundAfter(h: seq<byte>): Log { Log(h, 0, |h|, true, []) }

  /** Whatever happens to an unbound ring, binding it leads to such a state. */
  lemma {:induction false} UnboundRun(h: seq<byte>, es: seq<Event>)
    ensures var l := Run(BoundAfter(h).(bound := false), es);
            l.(bound := true) == BoundAfter(l.history)
    decreases |es|
  {
    if es != [] {
      var l := Step(BoundAfter(h).(bound := false), es[0]);
      assert l == BoundAfter(l.history).(bound := false);
      UnboundRun(l.history, es[1..]);
    }
  }

  /**
    Byte `i` is safe in a ring bound after `n` bytes. Either it was printed before, and the first frame, written at
    `n` or `n + 1` bytes, is sure to show it; or a frame within 4096 bytes of its anchor is.
   */
  predicate Safe(n: nat, i: nat)
  {
    || (i < n < i + CAPACITY && Clean(n) && Clean(n + 1))
    || (FarFromWrap(i) && n < Anchor(i) + AUTO_FLUSH)
  }

  /** Some frame was written within 4096 bytes after every position old enough, from the binding on. */
  ghost predicate SoonFrom(l: Log, n: nat)
  {
    forall x: nat :: n < x + AUTO_FLUSH <= |l.history| ==> FlushAfter(l, x)
  }

  /** Bound after `n` bytes: nothing has happened yet, or the backlog has been flushed and flushes are prompt since. */
  ghost predicate PromptSince(l: Log, n: nat)
  {
    && l.bound && MarksOk(l) && l.pending == |l.history| - LastAt(l)
    && (|| (|l.history| == n && l.written == [])
        || (&& |l.history| >= n && l.pending < AUTO_FLUSH && SoonFrom(l, n)
            && (n >= AUTO_FLUSH ==> l.written != [] && n <= l.written[0].at <= n + 1)))
  }

  lemma PromptSinceStep(l: Log, n: nat, e: Event)
    requires PromptSince(l, n) && e.writeOk && e.flushOk
    ensures PromptSince(Step(l, e), n)
    ensures e.Print? ==> |Step(l, e).history| > n
  {
    StepMarks(l, e);
    var t := Step(l, e);
    assert l.written <= t.written;
    forall x: nat | n < x + AUTO_FLUSH <= |t.history|
      ensures FlushAfter(t, x)
    {
      if x + AUTO_FLUSH <= |l.history| {
        assert FlushAfter(l, x);
        var k :| 0 <= k < |l.written| && x < l.written[k].at <= x + AUTO_FLUSH;
        assert t.written[k] == l.written[k];
      } else {
        var k := |t.written| - 1;
        assert x < t.written[k].at <= x + AUTO_FLUSH;
      }
    }
  }

  lemma {:induction false} PromptSinceRun(l: Log, n: nat, es: seq<Event>)
    requires PromptSince(l, n) && AllSucceed(es)
    ensures PromptSince(Run(l, es), n)
    decreases |es|
  {
    hide PromptSince, Step;
    if es != [] {
      PromptSinceStep(l, n, es[0]);
      PromptSinceRun(Step(l, es[0]), n, es[1..]);
    }
  }

  lemma AnchorNear(i: nat)
    ensures i <= Anchor(i) && (FarFromWrap(i) ==> Anchor(i) + AUTO_FLUSH <= i + CAPACITY)
  {
  }

  lemma SafeIsHeld(h: seq<byte>, es: seq<Event>, i: nat)
    requires Safe(|h|, i) && AllSucceed(es) && i + 32752 < |Run(BoundAfter(h), es).history|
    ensures Held(Run(BoundAfter(h), es), i)
  {
    hide Run, Held, FlushAfter, Clean;
    var n, l := |h|, Run(BoundAfter(h), es);
    PromptSinceRun(BoundAfter(h), n, es);
    AnchorNear(i);
    if FarFromWrap(i) && n < Anchor(i) + AUTO_FLUSH {
      HeldAfterAnchor(l, i);
    } else {
      HeldBy(l, 0, i);
    }
  }

  // --- Bytes that can be lost ---

  /** Printing `h`, with every flush succeeding. */
  function Prints(h: seq<byte>): (es: seq<Event>)
    ensures |es| == |h| && forall k :: 0 <= k < |h| ==> es[k] == Print(h[k], true, true)
  {
    seq(|h|, k requires 0 <= k < |h| => Print(h[k], true, true))
  }

  const FLUSH: Event := FlushNow(true, true)

  /** From `base` on every frame is written by auto-flush, 4096 bytes after the one before. */
  ghost predicate OnGrid(l: Log, base: nat)
  {
    && l.bound && base <= |l.history| && l.pending == (|l.history| - base) % AUTO_FLUSH
    && forall k :: 0 <= k < |l.written| ==> l.written[k].at <= base || (l.written[k].at - base) % AUTO_FLUSH == 0
  }

  lemma {:induction false} PrintsOnGrid(l: Log, h: seq<byte>, base: nat)
    requires OnGrid(l, base) && SENTINEL !in h
    ensures OnGrid(Run(l, Prints(h)), base)
    decreases |h|
  {
    if h != [] {
      assert Prints(h)[1..] == Prints(h[1..]);
      PrintsOnGrid(Step(l, Prints(h)[0]), h[1..], base);
    }
  }

  /** Printing extends the history, and every frame written meanwhile comes after where it began. */
  lemma {:induction false} PrintsExtend(l: Log, h: seq<byte>)
    ensures var t := Run(l, Prints(h));
            && t.history == l.history + h && t.bound == l.bound && l.written <= t.written
            && forall k :: |l.written| <= k < |t.written| ==> t.written[k].at > |l.history|
    decreases |h|
  {
    if h == [] {
      assert l.history + h == l.history;
    } else {
      assert Prints(h)[1..] == Prints(h[1..]);
      PrintsExtend(Step(l, Prints(h)[0]), h[1..]);
      assert l.history + [h[0]] + h[1..] == l.history + h;
    }
  }

  lemma {:induction false} RunAppend(l: Log, a: seq<Event>, b: seq<Event>)
    ensures Run(l, a + b) == Run(Run(l, a), b)
    decreases |a|
  {
    hide Step;
    if a == [] {
      assert a + b == b;
    } else {
      assert (a + b)[1..] == a[1..] + b;
      RunAppend(Step(l, a[0]), a[1..], b);
    }
  }

  lemma RunOne(l: Log, e: Event)
    ensures Run(l, [e]) == Step(l, e)
  {
    hide Step;
    assert [e][1..] == [];
    assert Run(l, [e]) == Run(Step(l, e), [e][1..]);
  }

  /** Flush at once or not, print up to `base`, flush there, print the rest. */
  function LossRun(g: seq<byte>, n: nat, first: bool, base: nat): seq<Event>
    requires n <= base <= |g|
  {
    (if first then [FLUSH] else []) + Prints(g[n..base]) + [FLUSH] + Prints(g[base..])
  }

  /** The states such a run goes through: up to the flush at `base`, and from there to the end. */
  lemma LossRunSplits(l: Log, g: seq<byte>, n: nat, first: bool, base: nat)
    requires n <= base <= |g|
    ensures var l1 := if first then Step(l, FLUSH) else l;
            Run(l, LossRun(g, n, first, base)) == Run(Step(Run(l1, Prints(g[n..base])), FLUSH), Prints(g[base..]))
  {
    hide Step, Prints;
    var s0 := if first then [FLUSH] else [];
    var p, q := Prints(g[n..base]), Prints(g[base..]);
    RunAppend(l, s0 + p + [FLUSH], q);
    RunAppend(l, s0 + p, [FLUSH]);
    RunAppend(l, s0, p);
    RunOne(l, FLUSH);
    RunOne(Run(l, s0 + p), FLUSH);
  }

  /** What stands after the flush at `base`. */
  lemma UpToBase(g: seq<byte>, n: nat, first: bool, base: nat)
    requires n <= base <= |g|
    ensures var l := BoundAfter(g[..n]);
            var l1 := if first then Step(l, FLUSH) else l;
            var t := Step(Run(l1, Prints(g[n..base])), FLUSH);
            && OnGrid(t, base) && MarksOk(t) && t.history == g[..base]
            && forall k :: 0 <= k < |t.written| ==> t.written[k].at >= n && (first || base == n || t.written[k].at > n)
  {
    hide Prints, Run;
    var l := BoundAfter(g[..n]);
    var l1 := if first then Step(l, FLUSH) else l;
    PrintsExtend(l1, g[n..base]);
    CountersIncrease(l1, Prints(g[n..base]));
    assert g[..n] + g[n..base] == g[..base];
    StepMarks(Run(l1, Prints(g[n..base])), FLUSH);
  }

  lemma LossRunMarks(g: seq<byte>, n: nat, first: bool, base: nat)
    requires n <= base <= |g| && SENTINEL !in g
    ensures AllSucceed(LossRun(g, n, first, base))
    ensures var l := Run(BoundAfter(g[..n]), LossRun(g, n, first, base));
            && l.history == g
            && forall k :: 0 <= k < |l.written| ==>
                 var at := l.written[k].at;
                 && (at <= base || (at - base) % AUTO_FLUSH == 0)
                 && at >= n && (first || base == n || at > n)
  {
    hide Run, Step, MarksOk;
    var l := BoundAfter(g[..n]);
    LossRunSplits(l, g, n, first, base);
    UpToBase(g, n, first, base);
    var l1 := if first then Step(l, FLUSH) else l;
    var t := Step(Run(l1, Prints(g[n..base])), FLUSH);
    PrintsOnGrid(t, g[base..], base);
    PrintsExtend(t, g[base..]);
    assert g[..base] + g[base..] == g;
  }

  /** Letters, all alike but one. */
  function Letters(len: nat, i: nat): seq<byte> { seq(len, k => if k == i then 0x42 else 0x41) }

  /** A frame that is not clean shows another byte, or a zero, at the place of byte `i`. */
  lemma NotInFrame(l: Log, m: Mark, i: nat)
    requires i < |l.history| && l.history == Letters(|l.history|, i) && m.at <= |l.history|
    requires !(i < m.at <= i + CAPACITY) || !Clean(m.at)
    ensures !InFrame(l, m, i)
  {
    if i < m.at <= i + CAPACITY {
      var h := l.history[..m.at];
      var total, head := m.at % TWO64, m.at % CAPACITY;
      var k, copied := i - m.at + CAPACITY, Min(head, total);
      assert |h| == m.at;
      assert Window(h) == h[m.at - head..m.at - head + copied] + Zeros(total - copied);
      if k < copied { assert Window(h)[k] == h[i + CAPACITY - head]; }
    }
  }

  /** Frames written from the one at `first` bytes on, up to 32752 bytes past the wrap before it, are not clean. */
  lemma LateFrames(n: nat, i: nat, first: nat, at: nat)
    requires i < n < i + CAPACITY && n <= first <= n + 1 && !Clean(first)
    requires !(FarFromWrap(i) && n < Anchor(i) + AUTO_FLUSH)
    requires first <= at <= i + CAPACITY
    requires var base := first - first % TWO64 + CAPACITY; at <= base || (at - base) % AUTO_FLUSH == 0
    ensures !Clean(at)
  {
    var w := first - first % TWO64;
    WrapBefore(first);
    if at > w + CAPACITY {
      assert i - w >= AUTO_FLUSH;
      Remainder(w, i - w);
      assert false;
    }
    Remainder(w, at - w);
  }

  /** Around a wrap: flush at byte `i` before it, or 32752 bytes past it. */
  function WrapBase(i: nat): nat
  {
    if i % TWO64 >= TWO64 - AUTO_FLUSH then i else i - i % TWO64 + CAPACITY
  }

  lemma WrapFrames(i: nat, at: nat)
    requires !FarFromWrap(i) && i < at <= i + CAPACITY
    requires at <= WrapBase(i) || (at - WrapBase(i)) % AUTO_FLUSH == 0
    ensures !Clean(at)
  {
    var w := i - i % TWO64;
    WrapBefore(i);
    if i % TWO64 >= TWO64 - AUTO_FLUSH {
      assert at - i >= AUTO_FLUSH;
      assert (w + TWO64) % TWO64 == 0;
      Remainder(w + TWO64, at - w - TWO64);
    } else {
      assert at <= w + CAPACITY;
      Remainder(w, at - w);
    }
  }

  /** Where to flush so that byte `i` is lost: at once or not, and the position of the second flush. */
  function LossPlan(n: nat, i: nat): (p: (bool, nat))
    requires !Safe(n, i)
    ensures p.1 >= n
  {
    if i + CAPACITY <= n then (false, n + 1)
    else if i < n then
      var first := if Clean(n) then n + 1 else n;
      (!Clean(n), first - first % TWO64 + CAPACITY)
    else (false, WrapBase(i))
  }

  lemma PlanLoses(n: nat, i: nat, at: nat)
    requires !Safe(n, i) && i < at <= i + CAPACITY
    requires var (first, base) := LossPlan(n, i);
             && (at <= base || (at - base) % AUTO_FLUSH == 0)
             && at >= n && (first || base == n || at > n)
    ensures !Clean(at)
  {
    hide FarFromWrap, WrapBase;
    if i + CAPACITY <= n {
      assert false;
    } else if i < n {
      LateFrames(n, i, if Clean(n) then n + 1 else n, at);
    } else {
      AnchorNear(i);
      WrapFrames(i, at);
    }
  }

  /** The text that shows the loss, and what to do with it. */
  function LostText(n: nat, i: nat): seq<byte>
    requires !Safe(n, i)
  {
    Letters(LossPlan(n, i).1 + i + 32753, i)
  }

  /** A byte that is not safe is lost by some run in which every flush succeeds. */
  lemma UnsafeIsLost(n: nat, i: nat)
    requires !Safe(n, i)
    ensures var g := LostText(n, i);
            var (first, base) := LossPlan(n, i);
            && n <= base <= |g| && AllSucceed(LossRun(g, n, first, base))
            && var l := Run(BoundAfter(g[..n]), LossRun(g, n, first, base));
               i + 32752 < |l.history| && !Held(l, i)
  {
    hide Safe, LossPlan, LossRun, Run, InFrame, Clean;
    var g := LostText(n, i);
    var (first, base) := LossPlan(n, i);
    LossRunMarks(g, n, first, base);
    var l := Run(BoundAfter(g[..n]), LossRun(g, n, first, base));
    forall k | 0 <= k < |l.written| && l.written[k].at <= |l.history|
      ensures !InFrame(l, l.written[k], i)
    {
      var at := l.written[k].at;
      if i < at <= i + CAPACITY { PlanLoses(n, i, at); }
      NotInFrame(l, l.written[k], i);
    }
  }

  /**
    Exactly: in a ring bound after `n` bytes, byte `i` has stood in some frame by the time it is overwritten, in
    every run whose flushes succeed, if and only if it is `Safe`.
   */
  lemma SafeExactly(n: nat, i: nat)
    ensures Safe(n, i) <==>
              forall h: seq<byte>, es: seq<Event> ::
                |h| == n && AllSucceed(es) && i + 32752 < |Run(BoundAfter(h), es).history| ==>
                  Held(Run(BoundAfter(h), es), i)
  {
    hide Safe, Run, Held;
    if Safe(n, i) {
      forall h: seq<byte>, es: seq<Event> |
          |h| == n && AllSucceed(es) && i + 32752 < |Run(BoundAfter(h), es).history|
        ensures Held(Run(BoundAfter(h), es), i)
      {
        SafeIsHeld(h, es, i);
      }
    } else {
      UnsafeIsLost(n, i);
      assert |LostText(n, i)[..n]| == n;
    }
  }

  /** In a ring bound before anything is printed, exactly the bytes far from a wrap of the total are safe. */
  lemma SafeWhenBoundFirst(i: nat)
    ensures FarFromWrap(i) <==>
              forall es: seq<Event> ::
                AllSucceed(es) && i + 32752 < |Run(Start(true), es).history| ==> Held(Run(Start(true), es), i)
  {
    hide Run, Held;
    assert Start(true) == BoundAfter([]);
    assert Safe(0, i) <==> FarFromWrap(i);
    SafeExactly(0, i);
  }

  /**
    A ring bound one byte short of full can lose its first 4096 bytes and no later ones printed before it was
    bound.
   */
  lemma BoundOneShort(i: nat)
    requires i < 32751
    ensures Safe(32751, i) <==> i >= 4096
  {
  }

  // --- A byte that stands nowhere ---

  /** No frame of the first 2^64 + 2^63 bytes shows byte 2^64 - 4096, unless written in the 4095 bytes after it. */
  lemma OutsideWindow(h: seq<byte>, x: byte)
    requires x != 0 && |h| < TWO64 + 0x8000_0000_0000_0000
    requires !(TWO64 - AUTO_FLUSH < |h| < TWO64)
    requires forall k :: 0 <= k < |h| && h[k] == x ==> k == TWO64 - AUTO_FLUSH
    ensures x !in Window(h)
  {
    if |h| >= TWO64 {
      var total := |h| - TWO64;
      assert |h| % TWO64 == total;
      if total <= CAPACITY { HeadAfterWrap(total); }
    }
  }

  lemma HeadAfterWrap(total: nat)
    requires total <= CAPACITY
    ensures (TWO64 + total) % CAPACITY <= total + 512
  {
  }

  /**
    Lost for good: 2^64 + 32753 letters, one of them different, printed with auto-flush alone and every flush
    succeeding. The odd one out is overwritten and stands in no frame, at its place or any other.
   */
  lemma LostAtWrap()
    ensures var h := Letters(TWO64 + 32753, TWO64 - 4096);
            var l := Run(Start(true), Prints(h));
            && AllSucceed(Prints(h)) && l.history == h
            && forall k :: 0 <= k < |l.written| && l.written[k].at <= |h| ==> 0x42 !in Window(h[..l.written[k].at])
  {
    var h := Letters(TWO64 + 32753, TWO64 - 4096);
    assert SENTINEL !in h;
    PrintsOnGrid(Start(true), h, 0);
    PrintsExtend(Start(true), h);
    var l := Run(Start(true), Prints(h));
    forall k | 0 <= k < |l.written| && l.written[k].at <= |h|
      ensures 0x42 !in Window(h[..l.written[k].at])
    {
      var at := l.written[k].at;
      GridGap(at);
      OutsideWindow(h[..at], 0x42);
    }
  }

  lemma GridGap(at: nat)
    requires at == 0 || at % AUTO_FLUSH == 0
    ensures !(TWO64 - AUTO_FLUSH < at < TWO64)
  {
  }
}
