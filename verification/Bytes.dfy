/** Machine integers, little-endian encoding and byte-addressed firmware memory. */
module Bytes {

  type byte = b: int | 0 <= b < 0x100
  type u16 = w: int | 0 <= w < 0x1_0000
  type u32 = w: int | 0 <= w < 0x1_0000_0000
  type u64 = w: int | 0 <= w < 0x1_0000_0000_0000_0000

  const TWO64: int := 0x1_0000_0000_0000_0000

  lemma FitsU64(x: nat)
    requires x < TWO64
    ensures x % TWO64 == x
  {
  }

  datatype Option<+T> = None | Some(value: T)

  /** The `n` low-order bytes of `v`, least significant first. */
  function LE(v: nat, n: nat): (r: seq<byte>)
    ensures |r| == n
  {
    if n == 0 then [] else [v % 0x100] + LE(v / 0x100, n - 1)
  }

  /** The number a little-endian byte string denotes. */
  function FromLE(s: seq<byte>): nat
  {
    if s == [] then 0 else s[0] + 0x100 * FromLE(s[1..])
  }

  function Pow256(n: nat): (p: nat)
    ensures p > 0
  {
    if n == 0 then 1 else 0x100 * Pow256(n - 1)
  }

  lemma {:induction false} LERoundTrip(v: nat, n: nat)
    requires v < Pow256(n)
    ensures FromLE(LE(v, n)) == v
  {
    if n > 0 {
      LERoundTrip(v / 0x100, n - 1);
      assert LE(v, n)[1..] == LE(v / 0x100, n - 1);
    }
  }

  lemma DivModByte(b: byte, x: nat)
    ensures (b + 0x100 * x) % 0x100 == b && (b + 0x100 * x) / 0x100 == x
  {
  }

  lemma {:induction false} FromLERoundTrip(s: seq<byte>)
    ensures FromLE(s) < Pow256(|s|)
    ensures LE(FromLE(s), |s|) == s
  {
    if s != [] {
      FromLERoundTrip(s[1..]);
      DivModByte(s[0], FromLE(s[1..]));
      assert s == [s[0]] + s[1..];
    }
  }

  lemma Pow256Values()
    ensures Pow256(2) == 0x1_0000
    ensures Pow256(4) == 0x1_0000_0000
    ensures Pow256(8) == TWO64
  {
    assert Pow256(2) == 0x100 * Pow256(1);
    assert Pow256(4) == 0x100 * Pow256(3) && Pow256(3) == 0x100 * Pow256(2);
    assert Pow256(6) == 0x100 * Pow256(5) && Pow256(5) == 0x100 * Pow256(4);
    assert Pow256(8) == 0x100 * Pow256(7) && Pow256(7) == 0x100 * Pow256(6);
  }

  lemma LE16RoundTrip(v: u16)
    ensures FromLE(LE(v, 2)) == v
  {
    Pow256Values();
    LERoundTrip(v, 2);
  }

  lemma LE32RoundTrip(v: u32)
    ensures FromLE(LE(v, 4)) == v
  {
    Pow256Values();
    LERoundTrip(v, 4);
  }

  lemma LE64RoundTrip(v: u64)
    ensures FromLE(LE(v, 8)) == v
  {
    Pow256Values();
    LERoundTrip(v, 8);
  }

  lemma FromLE64Bound(s: seq<byte>)
    requires |s| == 8
    ensures FromLE(s) < TWO64
  {
    Pow256Values();
    FromLERoundTrip(s);
  }

  lemma LE64Unrolled(v0: nat, v1: nat, v2: nat, v3: nat, v4: nat, v5: nat, v6: nat, v7: nat)
    requires v1 == v0 / 0x100 && v2 == v1 / 0x100 && v3 == v2 / 0x100 && v4 == v3 / 0x100
    requires v5 == v4 / 0x100 && v6 == v5 / 0x100 && v7 == v6 / 0x100
    ensures LE(v0, 8) ==
              [v0 % 0x100, v1 % 0x100, v2 % 0x100, v3 % 0x100, v4 % 0x100, v5 % 0x100, v6 % 0x100, v7 % 0x100]
  {
    assert LE(v6, 2) == [v6 % 0x100, v7 % 0x100];
    assert LE(v4, 4) == [v4 % 0x100, v5 % 0x100] + LE(v6, 2);
    assert LE(v2, 6) == [v2 % 0x100, v3 % 0x100] + LE(v4, 4);
    assert LE(v0, 8) == [v0 % 0x100, v1 % 0x100] + LE(v2, 6);
  }

  /** `s` with the bytes from index `o` on overwritten by `mid`. */
  function Splice(s: seq<byte>, o: nat, mid: seq<byte>): (r: seq<byte>)
    requires o + |mid| <= |s|
    ensures |r| == |s|
  {
    s[..o] + mid + s[o + |mid|..]
  }

  lemma SpliceAppend(s: seq<byte>, o: nat, a: seq<byte>, b: seq<byte>)
    requires o + |a| + |b| <= |s|
    ensures Splice(Splice(s, o, a), o + |a|, b) == Splice(s, o, a + b)
  {
    assert Splice(s, o, a)[..o + |a|] == s[..o] + a;
    assert Splice(s, o, a)[o + |a| + |b|..] == s[o + |a| + |b|..];
  }

  /** Stores `v` little-endian at `b[o..o+8]`, one shifted byte at a time. */
  method PutLE64(b: array<byte>, o: nat, v: u64)
    requires o + 8 <= b.Length
    modifies b
    ensures b[..] == Splice(old(b[..]), o, LE(v, 8))
  {
    var v1: u64 := v / 0x100;
    var v2: u64 := v1 / 0x100;
    var v3: u64 := v2 / 0x100;
    var v4: u64 := v3 / 0x100;
    var v5: u64 := v4 / 0x100;
    var v6: u64 := v5 / 0x100;
    var v7: u64 := v6 / 0x100;
    LE64Unrolled(v, v1, v2, v3, v4, v5, v6, v7);
    Store8(b, o, v % 0x100, v1 % 0x100, v2 % 0x100, v3 % 0x100, v4 % 0x100, v5 % 0x100, v6 % 0x100, v7 % 0x100);
  }

  method Store8(b: array<byte>, o: nat, b0: byte, b1: byte, b2: byte, b3: byte, b4: byte, b5: byte, b6: byte, b7: byte)
    requires o + 8 <= b.Length
    modifies b
    ensures b[..] == Splice(old(b[..]), o, [b0, b1, b2, b3, b4, b5, b6, b7])
  {
    Store4(b, o, b0, b1, b2, b3);
    Store4(b, o + 4, b4, b5, b6, b7);
    SpliceAppend(old(b[..]), o, [b0, b1, b2, b3], [b4, b5, b6, b7]);
    assert [b0, b1, b2, b3] + [b4, b5, b6, b7] == [b0, b1, b2, b3, b4, b5, b6, b7];
  }

  method Store4(b: array<byte>, o: nat, b0: byte, b1: byte, b2: byte, b3: byte)
    requires o + 4 <= b.Length
    modifies b
    ensures b[..] == Splice(old(b[..]), o, [b0, b1, b2, b3])
  {
    b[o], b[o + 1], b[o + 2], b[o + 3] := b0, b1, b2, b3;
  }

  /** `n` zero bytes: what a fresh Go slice holds. */
  function Zeros(n: nat): (r: seq<byte>)
    ensures |r| == n
    ensures forall i :: 0 <= i < n ==> r[i] == 0
  {
    seq(n, _ => 0)
  }

  /** Identity-mapped firmware memory. */
  type Memory = int -> byte

  function Fetch(m: Memory, addr: int, n: nat): (r: seq<byte>)
    ensures |r| == n
    ensures forall i :: 0 <= i < n ==> r[i] == m(addr + i)
  {
    seq(n, i => m(addr + i))
  }

  lemma FetchSplit(m: Memory, addr: int, a: nat, b: nat)
    ensures Fetch(m, addr, a + b) == Fetch(m, addr, a) + Fetch(m, addr + a, b)
  {
  }

  /** `bs` lies at `addr`: not at NULL, and below the top of the address space. */
  ghost predicate Holds(m: Memory, addr: nat, bs: seq<byte>)
  {
    0 < addr && addr + |bs| <= TWO64 && Fetch(m, addr, |bs|) == bs
  }

  lemma HoldsSplit(m: Memory, addr: nat, a: seq<byte>, b: seq<byte>)
    requires Holds(m, addr, a + b)
    ensures Fetch(m, addr, |a|) == a
    ensures Holds(m, addr, a) && Holds(m, addr + |a|, b)
  {
    FetchSplit(m, addr, |a|, |b|);
    var f := Fetch(m, addr, |a| + |b|);
    assert f[..|a|] == a && f[|a|..] == b;
  }
}
