/** The arm64 clock: counter ticks to nanoseconds without leaving 64 bits. */
module Clock {
  import opened Bytes

  const NANOS: nat := 1_000_000_000

  /** Seconds and remainder separately, every product in 64 bits. */
  method Nanotime(freq: u64, cnt: u64) returns (ns: u64)
    ensures ns == Split(freq, cnt) && (freq == 0 ==> ns == 0)
  {
    if freq == 0 { return 0; }
    var secs := cnt / freq;
    var rem := cnt % freq;
    ns := (secs * NANOS % TWO64 + rem * NANOS % TWO64 / freq) % TWO64;
  }

  function Split(freq: u64, cnt: u64): u64
  {
    if freq == 0 then 0 else Combined(cnt / freq, cnt % freq, freq)
  }

  function Combined(secs: nat, rem: nat, freq: nat): u64
    requires freq > 0
  {
    (secs * NANOS % TWO64 + rem * NANOS % TWO64 / freq) % TWO64
  }

  lemma Regroup(q: nat, freq: nat)
    ensures (q * NANOS) * freq == (q * freq) * NANOS
  {
  }

  lemma DivSplit(cnt: nat, freq: nat, q: nat, r: nat)
    requires freq > 0 && cnt == q * freq + r
    ensures cnt * NANOS / freq == q * NANOS + r * NANOS / freq
  {
    Regroup(q, freq);
    DivAdd(q * NANOS, r * NANOS, freq);
  }

  lemma DivAdd(a: nat, b: nat, d: nat)
    requires d > 0
    ensures (a * d + b) / d == a + b / d
  {
    var q, r := b / d, b % d;
    assert b == q * d + r;
    Distribute(a, q, d);
    DivIs(a * d + b, a + q, r, d);
  }

  lemma DivIs(n: nat, q: nat, r: nat, d: nat)
    requires d > 0 && n == q * d + r && r < d
    ensures n / d == q
  {
    var k, s := n / d, n % d;
    assert n == k * d + s;
    MulOrder(q, k, d);
    MulOrder(k, q, d);
  }

  lemma Distribute(a: nat, b: nat, d: nat)
    ensures (a + b) * d == a * d + b * d
  {
  }

  lemma MulOrder(a: nat, b: nat, d: nat)
    ensures a < b ==> a * d + d <= b * d
  {
    if a < b {
      var k := b - a - 1;
      Distribute(a + 1, k, d);
      Distribute(a, 1, d);
      assert k * d >= 0;
    }
  }

  lemma CombinedExact(secs: nat, rem: nat, freq: nat, part: nat)
    requires rem < freq < 0x1_0000_0000 && part == rem * NANOS / freq
    requires secs * NANOS + part < 0x8000_0000_0000_0000
    ensures Combined(secs, rem, freq) == secs * NANOS + part
  {
    FitsU64(rem * NANOS);
    FitsU64(secs * NANOS);
    FitsU64(secs * NANOS + part);
  }

  /**
    For every counter value and every non-zero 32-bit frequency whose result fits in an int64, no intermediate
    leaves 64 bits and the split computes the exact quotient.
   */
  lemma NanotimeIsExact(freq: u64, cnt: u64)
    requires 0 < freq < 0x1_0000_0000 && cnt * 1_000_000_000 / freq < 0x8000_0000_0000_0000
    ensures cnt / freq * 1_000_000_000 < TWO64 && cnt % freq * 1_000_000_000 < TWO64
    ensures Split(freq, cnt) == cnt * 1_000_000_000 / freq
  {
    var secs, rem := cnt / freq, cnt % freq;
    assert cnt == secs * freq + rem;
    DivSplit(cnt, freq, secs, rem);
    CombinedExact(secs, rem, freq, rem * NANOS / freq);
  }

  /** And the clock never runs backwards. */
  lemma NanotimeIsMonotone(freq: u64, a: u64, b: u64)
    requires 0 < freq < 0x1_0000_0000 && a <= b && b * 1_000_000_000 / freq < 0x8000_0000_0000_0000
    ensures Split(freq, a) <= Split(freq, b)
  {
    DivMonotone(a * NANOS, b * NANOS, freq);
    NanotimeIsExact(freq, a);
    NanotimeIsExact(freq, b);
  }

  lemma DivMonotone(x: nat, y: nat, d: nat)
    requires d > 0 && x <= y
    ensures x / d <= y / d
  {
    var qx, qy := x / d, y / d;
    assert x == qx * d + x % d && y == qy * d + y % d;
    MulOrder(qy, qx, d);
  }
}
