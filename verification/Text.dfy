/**
  CHAR16 text: the UCS-2 file names of EFI_FILE_PROTOCOL and EFI_FILE_INFO, and the UTF-16 command line
  installed as LoadOptions. A Go string is a sequence of runes, which is Dafny's `string`.
 */
module Text {
  import opened Bytes

  // --- CHAR16 arrays as bytes ---

  function UnitBytes(us: seq<u16>): (r: seq<byte>)
    ensures |r| == 2 * |us|
  {
    if us == [] then [] else LE(us[0], 2) + UnitBytes(us[1..])
  }

  function BytesUnits(bs: seq<byte>): (r: seq<u16>)
    ensures |r| == |bs| / 2
  {
    if |bs| < 2 then []
    else
      Pow256Values(); FromLERoundTrip(bs[..2]);
      [FromLE(bs[..2])] + BytesUnits(bs[2..])
  }

  lemma {:induction false} UnitBytesRoundTrip(us: seq<u16>)
    ensures BytesUnits(UnitBytes(us)) == us
  {
    if us != [] {
      LE16RoundTrip(us[0]);
      UnitBytesRoundTrip(us[1..]);
      assert UnitBytes(us)[..2] == LE(us[0], 2);
      assert UnitBytes(us)[2..] == UnitBytes(us[1..]);
    }
  }

  lemma {:induction false} UnitBytesAppend(a: seq<u16>, b: seq<u16>)
    ensures UnitBytes(a + b) == UnitBytes(a) + UnitBytes(b)
  {
    if a == [] {
      assert a + b == b;
    } else {
      assert (a + b)[1..] == a[1..] + b;
      UnitBytesAppend(a[1..], b);
    }
  }

  // --- UCS-2 file names ---

  /** A file name as CHAR16s; a rune outside the Basic Multilingual Plane becomes '?'. */
  function Ucs2(s: string): (r: seq<u16>)
    ensures |r| == |s|
  {
    seq(|s|, i requires 0 <= i < |s| => if s[i] as int > 0xFFFF then '?' as int else s[i] as int)
  }

  predicate Bmp(s: string) { forall i :: 0 <= i < |s| ==> s[i] as int <= 0xFFFF }

  predicate NulFree(s: string) { forall i :: 0 <= i < |s| ==> s[i] as int != 0 }

  /** The most CHAR16s ever read for one name. */
  const NAME_CAP: nat := 65536

  function UnitRune(w: u16): char
  {
    if 0xD800 <= w <= 0xDFFF then '?' else w as char
  }

  /** The name before the first NUL among the first `cap` units; surrogates read as '?'. */
  function NameOf(us: seq<u16>, cap: nat): string
  {
    if us == [] || cap == 0 || us[0] == 0 then ""
    else [UnitRune(us[0])] + NameOf(us[1..], cap - 1)
  }

  lemma {:induction false} NameRoundTrip(s: string, rest: seq<u16>, cap: nat)
    requires NulFree(s) && Bmp(s) && |s| <= cap
    ensures NameOf(Ucs2(s) + [0] + rest, cap) == s
  {
    var us := Ucs2(s) + [0] + rest;
    if s != "" {
      assert us[1..] == Ucs2(s[1..]) + [0] + rest;
      NameRoundTrip(s[1..], rest, cap - 1);
      assert [s[0]] + s[1..] == s;
    }
  }

  /** Whatever the memory holds, a name read from it has no NUL, stays in the BMP and has at most `cap` runes. */
  lemma {:induction false} NameNulFree(us: seq<u16>, cap: nat)
    ensures NulFree(NameOf(us, cap)) && Bmp(NameOf(us, cap)) && |NameOf(us, cap)| <= cap
  {
    if !(us == [] || cap == 0 || us[0] == 0) { NameNulFree(us[1..], cap - 1); }
  }

  /** Unit by unit: the name ends at the first NUL or after `cap` units, and a surrogate reads as '?'. */
  lemma {:induction false} NameExactly(us: seq<u16>, cap: nat)
    ensures var name := NameOf(us, cap);
            && |name| <= |us| && |name| <= cap
            && (|name| < |us| && |name| < cap ==> us[|name|] == 0)
            && forall i :: 0 <= i < |name| ==>
                 us[i] != 0 && name[i] == if 0xD800 <= us[i] <= 0xDFFF then '?' else us[i] as char
  {
    if !(us == [] || cap == 0 || us[0] == 0) { NameExactly(us[1..], cap - 1); }
  }

  /** Names of any runes: a rune outside the BMP comes back as '?', every other one as itself. */
  lemma MaskedRoundTrip(s: string, rest: seq<u16>)
    requires NulFree(s) && |s| <= 65536
    ensures var name := NameOf(Ucs2(s) + [0] + rest, NAME_CAP);
            |name| == |s| && forall i :: 0 <= i < |s| ==> name[i] == if s[i] as int > 0xFFFF then '?' else s[i]
  {
    var us := Ucs2(s) + [0] + rest;
    var name := NameOf(us, NAME_CAP);
    NameExactly(us, NAME_CAP);
    assert us[|s|] == 0 && forall i :: 0 <= i < |s| ==> us[i] == Ucs2(s)[i] != 0;
    assert |name| == |s|;
  }

  /** What a CHAR16* argument designates: NULL, or an array that is terminated or long enough to hit the cap. */
  predicate Name16(p: Option<seq<u16>>)
  {
    p.Some? ==> 0 in p.value || |p.value| >= NAME_CAP
  }

  lemma NameStep(us: seq<u16>, i: nat, cap: nat)
    requires i <= |us| && (cap > 0 ==> i < |us|)
    ensures NameOf(us[i..], cap) ==
              if cap == 0 || us[i] == 0 then "" else [UnitRune(us[i])] + NameOf(us[i + 1..], cap - 1)
  {
    if cap > 0 { assert us[i..][1..] == us[i + 1..]; }
  }

  /** Reads a NUL-terminated CHAR16 name out of the caller's memory. */
  method ReadUcs2(p: Option<seq<u16>>) returns (name: string)
    requires Name16(p)
    ensures name == if p.None? then "" else NameOf(p.value, NAME_CAP)
  {
    hide NameOf;
    if p.None? { return ""; }
    var us := p.value;
    name := "";
    var i := 0;
    assert us[0..] == us;
    while i < NAME_CAP
      invariant 0 <= i <= NAME_CAP && i <= |us|
      invariant forall j :: 0 <= j < i ==> us[j] != 0
      invariant name + NameOf(us[i..], NAME_CAP - i) == NameOf(us, NAME_CAP)
    {
      assert i < |us|;
      NameStep(us, i, NAME_CAP - i);
      if us[i] == 0 { break; }
      if us[i] >= 0xD800 && us[i] <= 0xDFFF {
        name := name + ['?'];
      } else {
        name := name + [us[i] as char];
      }
      i := i + 1;
    }
    NameStep(us, i, NAME_CAP - i);
  }

  method StoreUnit(dst: array<byte>, o: nat, w: u16)
    requires o + 2 <= dst.Length
    modifies dst
    ensures dst[..] == Splice(old(dst[..]), o, LE(w, 2))
  {
    UnitBytesSnoc([], w);
    dst[o] := w % 0x100;
    dst[o + 1] := w / 0x100;
  }

  lemma UnitBytesPush(us: seq<u16>, w: u16)
    ensures UnitBytes(us + [w]) == UnitBytes(us) + LE(w, 2)
  {
    UnitBytesAppend(us, [w]);
    assert UnitBytes([w]) == LE(w, 2) + UnitBytes([w][1..]);
  }

  lemma StoreExtends(s: seq<byte>, lo: nat, us: seq<u16>, k: nat, wb: seq<byte>)
    requires k < |us| && wb == LE(us[k], 2)
    requires lo + 2 * k + 2 <= |s|
    ensures Splice(Splice(s, lo, UnitBytes(us[..k])), lo + 2 * k, wb) == Splice(s, lo, UnitBytes(us[..k + 1]))
  {
    assert us[..k + 1] == us[..k] + [us[k]];
    UnitBytesPush(us[..k], us[k]);
    SpliceAppend(s, lo, UnitBytes(us[..k]), wb);
  }

  /** The region of `base` from `lo` on, overwritten by the first `n` of `us`. */
  ghost function Filled(base: seq<byte>, lo: nat, us: seq<u16>, n: nat): seq<byte>
    requires n <= |us| && lo + 2 * n <= |base|
  {
    Splice(base, lo, UnitBytes(us[..n]))
  }

  method StoreNext(dst: array<byte>, lo: nat, k: nat, w: u16, ghost base: seq<byte>, ghost us: seq<u16>)
    requires k < |us| && w == us[k]
    requires lo + 2 * k + 2 <= dst.Length == |base|
    requires dst[..] == Filled(base, lo, us, k)
    modifies dst
    ensures dst[..] == Filled(base, lo, us, k + 1)
  {
    StoreUnit(dst, lo + 2 * k, w);
    StoreExtends(base, lo, us, k, LE(w, 2));
  }

  /** Writes `s` and a NUL as CHAR16s into `dst[lo..hi]`, as many whole units `n` as fit. */
  method WriteUcs2(s: string, dst: array<byte>, lo: nat, hi: nat) returns (written: nat, ghost n: nat)
    requires lo <= hi <= dst.Length
    modifies dst
    ensures written == 2 * n <= hi - lo
    ensures n == |s| + 1 || (n <= |s| && hi - lo < 2 * n + 2)
    ensures dst[..] == Filled(old(dst[..]), lo, Ucs2(s) + [0], n)
  {
    hide UnitBytes;
    ghost var us := Ucs2(s) + [0];
    var off := 0;
    for k := 0 to |s|
      invariant off == 2 * k <= hi - lo
      invariant dst[..] == Filled(old(dst[..]), lo, us, k)
    {
      var r := s[k] as int;
      if r > 0xFFFF { r := '?' as int; }
      if lo + off + 2 > hi { return off, k; }
      StoreNext(dst, lo, k, r, old(dst[..]), us);
      off := off + 2;
    }
    n := |s|;
    if lo + off + 2 <= hi {
      StoreNext(dst, lo, |s|, 0, old(dst[..]), us);
      off := off + 2;
      n := |s| + 1;
    }
    written := off;
  }

  lemma UnitBytesSnoc(us: seq<u16>, w: u16)
    ensures UnitBytes(us + [w]) == UnitBytes(us) + [w % 0x100, w / 0x100]
    ensures LE(w, 2) == [w % 0x100, w / 0x100]
  {
    UnitBytesAppend(us, [w]);
    assert UnitBytes([w]) == LE(w, 2) + UnitBytes([]);
  }

  // --- The UTF-16 command line ---

  function Surrogates(c: char): (r: seq<u16>)
    requires c as int >= 0x1_0000
    ensures |r| == 2 && 0xD800 <= r[0] <= 0xDBFF && 0xDC00 <= r[1] <= 0xDFFF
  {
    var v := c as int - 0x1_0000;
    [0xD800 + v / 0x400, 0xDC00 + v % 0x400]
  }

  function Utf16Rune(c: char): seq<u16>
  {
    if c as int < 0x1_0000 then [c as int] else Surrogates(c)
  }

  function Utf16(s: string): seq<u16>
  {
    if s == "" then [] else Utf16Rune(s[0]) + Utf16(s[1..])
  }

  /** The decoding procedure of section 2.2 of RFC 2781; None on an ill-formed sequence. */
  function DecodeUtf16(us: seq<u16>): Option<string>
  {
    if us == [] then Some("")
    else if !(0xD800 <= us[0] <= 0xDFFF) then
      match DecodeUtf16(us[1..])
      case None => None
      case Some(rest) => Some([us[0] as char] + rest)
    else if us[0] > 0xDBFF || |us| < 2 || !(0xDC00 <= us[1] <= 0xDFFF) then None
    else
      var hi: int, lo: int := us[0], us[1];
      match DecodeUtf16(us[2..])
      case None => None
      case Some(rest) => Some([((hi - 0xD800) * 0x400 + (lo - 0xDC00) + 0x1_0000) as char] + rest)
  }

  lemma {:induction false} Utf16RoundTrip(s: string)
    ensures DecodeUtf16(Utf16(s)) == Some(s)
  {
    if s != "" {
      Utf16RoundTrip(s[1..]);
      var us := Utf16(s);
      if s[0] as int < 0x1_0000 {
        assert us[1..] == Utf16(s[1..]);
      } else {
        assert us[2..] == Utf16(s[1..]);
      }
      assert [s[0]] + s[1..] == s;
    }
  }

  function Supplementary(s: string): nat
  {
    if s == "" then 0 else (if s[0] as int >= 0x1_0000 then 1 else 0) + Supplementary(s[1..])
  }

  lemma {:induction false} Utf16Append(a: string, b: string)
    ensures Utf16(a + b) == Utf16(a) + Utf16(b)
  {
    if a == "" {
      assert a + b == b;
    } else {
      assert (a + b)[1..] == a[1..] + b;
      Utf16Append(a[1..], b);
    }
  }

  lemma {:induction false} Utf16Shape(s: string)
    ensures |Utf16(s)| == |s| + Supplementary(s)
    ensures NulFree(s) <==> 0 !in Utf16(s)
  {
    if s != "" {
      Utf16Shape(s[1..]);
      assert NulFree(s) <==> s[0] as int != 0 && NulFree(s[1..]) by {
        assert forall i :: 1 <= i < |s| ==> s[i] == s[1..][i - 1];
      }
    }
  }

  /** The LoadOptions bytes of a command line. */
  function Cmdline(s: string): seq<byte> { UnitBytes(Utf16(s) + [0]) }

  /**
    The command line inverts: decoding its code units gives the text back followed by one NUL, its size
    counts supplementary runes twice, and the terminator is the only NUL exactly when the text has none.
   */
  lemma CmdlineDecodes(s: string)
    ensures DecodeUtf16(BytesUnits(Cmdline(s))) == Some(s + [0 as char])
    ensures |Cmdline(s)| == 2 * (1 + (|s| - Supplementary(s)) + 2 * Supplementary(s))
    ensures var us := BytesUnits(Cmdline(s));
            us[|us| - 1] == 0 && (NulFree(s) <==> 0 !in us[..|us| - 1])
  {
    var t := s + [0 as char];
    Utf16Append(s, [0 as char]);
    assert Utf16([0 as char]) == [0];
    Utf16RoundTrip(t);
    UnitBytesRoundTrip(Utf16(t));
    Utf16Shape(s);
    assert Utf16(t)[..|Utf16(t)| - 1] == Utf16(s);
  }

  lemma CmdlineInjective(s: string, t: string)
    ensures Cmdline(s) == Cmdline(t) <==> s == t
  {
    CmdlineDecodes(s);
    CmdlineDecodes(t);
    if Cmdline(s) == Cmdline(t) {
      assert s == (s + [0 as char])[..|s|];
      assert t == (t + [0 as char])[..|t|];
    }
  }

  method EncodeRune(c: char) returns (bs: seq<byte>)
    ensures bs == UnitBytes(Utf16Rune(c))
  {
    var r := c as int;
    if r < 0x1_0000 && (r < 0xD800 || r > 0xDFFF) {
      UnitBytesSnoc([], r);
      assert [] + [r] == Utf16Rune(c);
      bs := [r % 0x100, r / 0x100 % 0x100];
    } else if r >= 0x1_0000 && r <= 0x10_FFFF {
      var v := r - 0x1_0000;
      var hi := 0xD800 + v / 0x400;
      var lo := 0xDC00 + v % 0x400;
      UnitBytesSnoc([], hi);
      UnitBytesSnoc([hi], lo);
      assert [] + [hi] == [hi] && [hi] + [lo] == Utf16Rune(c);
      bs := [hi % 0x100, hi / 0x100 % 0x100, lo % 0x100, lo / 0x100 % 0x100];
    } else {
      // A rune is a scalar value, so the U+FFFD fallback is dead code.
      assert false;
    }
  }

  lemma EncodeExtends(s: string, c: char)
    ensures UnitBytes(Utf16(s + [c])) == UnitBytes(Utf16(s)) + UnitBytes(Utf16Rune(c))
  {
    Utf16Append(s, [c]);
    assert Utf16([c]) == Utf16Rune(c) + Utf16([c][1..]);
    assert Utf16Rune(c) + [] == Utf16Rune(c);
    UnitBytesAppend(Utf16(s), Utf16Rune(c));
  }

  /** Encodes a command line rune by rune, with a terminating NUL unit. */
  method EncodeCmdline(s: string) returns (buf: seq<byte>)
    ensures buf == Cmdline(s)
  {
    buf := [];
    for i := 0 to |s|
      invariant buf == UnitBytes(Utf16(s[..i]))
    {
      var bs := EncodeRune(s[i]);
      EncodeExtends(s[..i], s[i]);
      assert s[..i + 1] == s[..i] + [s[i]];
      buf := buf + bs;
    }
    assert s[..|s|] == s;
    UnitBytesSnoc(Utf16(s), 0);
    buf := buf + [0x00, 0x00];
  }
}
