/**
  Device paths (section 10.3 of UEFI 2.10): lists of nodes, each a type, a subtype, a 16-bit total length and
  data, closed by an end-entire node. The byte-level walkers are compared with plain list operations.
 */
module DevicePaths {
  import opened Bytes
  import opened Text

  const TYPE_MEDIA: byte := 0x04
  const SUBTYPE_FILE_PATH: byte := 0x04
  const TYPE_END: byte := 0x7F
  const SUBTYPE_END_WHOLE: byte := 0xFF

  datatype Node = Node(kind: byte, sub: byte, data: seq<byte>)

  function NodeSize(n: Node): nat { 4 + |n.data| }

  /** The length field keeps the low 16 bits. */
  function EncodeNode(n: Node): (r: seq<byte>)
    ensures |r| == NodeSize(n)
  {
    [n.kind, n.sub] + LE(NodeSize(n), 2) + n.data
  }

  const END_NODE: seq<byte> := [TYPE_END, SUBTYPE_END_WHOLE, 0x04, 0x00]

  function Bodies(ns: seq<Node>): seq<byte>
  {
    if ns == [] then [] else EncodeNode(ns[0]) + Bodies(ns[1..])
  }

  function Encode(ns: seq<Node>): seq<byte> { Bodies(ns) + END_NODE }

  /** A node of a well-formed path: its length fits and it does not end the path. */
  predicate NodeOk(n: Node)
  {
    NodeSize(n) < 0x1_0000 && !(n.kind == TYPE_END && n.sub == SUBTYPE_END_WHOLE)
  }

  predicate NodesOk(ns: seq<Node>) { forall i :: 0 <= i < |ns| ==> NodeOk(ns[i]) }

  predicate IsEnd(b: seq<byte>, i: int)
    requires 0 <= i && i + 2 <= |b|
  {
    b[i] == TYPE_END && b[i + 1] == SUBTYPE_END_WHOLE
  }

  lemma {:induction false} BodiesAppend(a: seq<Node>, b: seq<Node>)
    ensures Bodies(a + b) == Bodies(a) + Bodies(b)
  {
    if a == [] {
      assert a + b == b;
    } else {
      assert (a + b)[1..] == a[1..] + b;
      BodiesAppend(a[1..], b);
    }
  }

  /** The header of an encoded node, wherever it stands. */
  lemma NodeHeader(n: Node, rest: seq<byte>)
    ensures var s := EncodeNode(n) + rest;
            |s| >= 4 && s[0] == n.kind && s[1] == n.sub && s[2..4] == LE(NodeSize(n), 2)
    ensures NodeSize(n) < 0x1_0000 ==> FromLE((EncodeNode(n) + rest)[2..4]) == NodeSize(n)
    ensures (EncodeNode(n) + rest)[NodeSize(n)..] == rest
  {
    hide LE, FromLE;
    if NodeSize(n) < 0x1_0000 { LE16RoundTrip(NodeSize(n)); }
  }

  lemma {:induction false} EncodeHead(ns: seq<Node>)
    requires ns != []
    ensures Encode(ns) == EncodeNode(ns[0]) + Encode(ns[1..])
  {
  }

  // --- Prefix test ---

  /** The bytes divide into nodes by their own length fields. */
  predicate Tiled(b: seq<byte>)
    decreases |b|
  {
    b == [] ||
    (|b| >= 4 && 4 <= FromLE(b[2..4]) <= |b| && Tiled(b[FromLE(b[2..4])..]))
  }

  predicate EndTerminated(b: seq<byte>) { |b| >= 4 && IsEnd(b, |b| - 4) }

  predicate PathPrefix(prefix: seq<byte>, full: seq<byte>)
  {
    EndTerminated(prefix) && Tiled(prefix[..|prefix| - 4]) && Below(prefix[..|prefix| - 4], full)
  }

  /** `full` begins with the nodes of `prefix` and goes on with something other than the end. */
  predicate Below(body: seq<byte>, full: seq<byte>)
  {
    body <= full && |body| + 4 <= |full| && !IsEnd(full, |body|)
  }

  /** Compares the node bytes one by one. */
  method SameBytes(body: seq<byte>, full: seq<byte>, p: nat, ln: nat) returns (same: bool)
    requires p + ln <= |body| && p + ln <= |full| && body[..p] == full[..p]
    ensures same ==> body[..p + ln] == full[..p + ln]
    ensures !same ==> !(body <= full)
  {
    for i := 0 to ln
      invariant forall k :: p <= k < p + i ==> body[k] == full[k]
    {
      if body[p + i] != full[p + i] { return false; }
    }
    assert forall k :: 0 <= k < p ==> body[k] == body[..p][k] == full[..p][k] == full[k];
    return true;
  }

  method IsDevicePathPrefix(prefix: seq<byte>, full: seq<byte>) returns (r: bool)
    ensures r <==> PathPrefix(prefix, full)
  {
    hide FromLE;
    if |prefix| < 4 { return false; }
    var endIdx := |prefix| - 4;
    if prefix[endIdx] != TYPE_END || prefix[endIdx + 1] != SUBTYPE_END_WHOLE { return false; }
    var body := prefix[..endIdx];
    if |body| >= |full| { return false; }
    var p := 0;
    assert body[0..] == body;
    while p < |body|
      invariant 0 <= p <= |body| && p <= |full|
      invariant body[..p] == full[..p]
      invariant Tiled(body) <==> Tiled(body[p..])
    {
      if p + 4 > |body| || p + 4 > |full| { return false; }
      assert body[p..][2..4] == body[p + 2..p + 4];
      var ln := FromLE(body[p + 2..p + 4]);
      if ln < 4 { return false; }
      if p + ln > |body| || p + ln > |full| { return false; }
      var same := SameBytes(body, full, p, ln);
      if !same { return false; }
      assert body[p..][ln..] == body[p + ln..];
      p := p + ln;
    }
    assert body[..|body|] == body;
    if p + 4 > |full| { return false; }
    if full[p] == TYPE_END && full[p + 1] == SUBTYPE_END_WHOLE { return false; }
    return true;
  }

  lemma {:induction false} BodiesTiled(ns: seq<Node>)
    requires NodesOk(ns)
    ensures Tiled(Bodies(ns))
  {
    hide FromLE, EncodeNode;
    if ns != [] {
      BodiesTiled(ns[1..]);
      NodeHeader(ns[0], Bodies(ns[1..]));
    }
  }

  lemma NodeInjective(a: Node, b: Node)
    requires EncodeNode(a) == EncodeNode(b)
    ensures a == b
  {
    hide LE;
    assert EncodeNode(a)[0] == a.kind && EncodeNode(a)[1] == a.sub && EncodeNode(a)[4..] == a.data;
    assert EncodeNode(b)[0] == b.kind && EncodeNode(b)[1] == b.sub && EncodeNode(b)[4..] == b.data;
  }

  /** Two encodings that agree on the first node's bytes agree on the node. */
  lemma SameFirstNode(a: Node, b: Node, brest: seq<byte>)
    requires NodeOk(a) && NodeOk(b)
    requires EncodeNode(a) <= EncodeNode(b) + brest
    ensures a == b
  {
    hide EncodeNode, FromLE;
    NodeHeader(a, []);
    NodeHeader(b, brest);
    var s := EncodeNode(b) + brest;
    assert EncodeNode(a) + [] == EncodeNode(a);
    assert EncodeNode(a)[2..4] == s[2..4];
    assert EncodeNode(a) == s[..NodeSize(a)] == EncodeNode(b);
    NodeInjective(a, b);
  }

  lemma {:induction false} BelowNodes(ps: seq<Node>, fs: seq<Node>)
    requires NodesOk(ps) && NodesOk(fs)
    ensures Below(Bodies(ps), Encode(fs)) <==> ps < fs
  {
    hide EncodeNode, FromLE, LE;
    if ps == [] {
      if fs != [] {
        EncodeHead(fs);
        NodeHeader(fs[0], Encode(fs[1..]));
      }
    } else if fs == [] {
      NodeHeader(ps[0], Bodies(ps[1..]));
      assert NodeOk(ps[0]);
    } else {
      EncodeHead(fs);
      BelowNodes(ps[1..], fs[1..]);
      var p, f := EncodeNode(ps[0]), EncodeNode(fs[0]);
      if ps[0] == fs[0] {
        BelowTail(p, Bodies(ps[1..]), Encode(fs[1..]));
        assert ps == [ps[0]] + ps[1..] && fs == [fs[0]] + fs[1..];
        PrefixTail(ps, fs);
      } else {
        if Below(Bodies(ps), Encode(fs)) {
          assert p <= Bodies(ps) <= Encode(fs);
          SameFirstNode(ps[0], fs[0], Encode(fs[1..]));
        }
      }
    }
  }

  lemma BelowTail(p: seq<byte>, a: seq<byte>, b: seq<byte>)
    ensures Below(p + a, p + b) <==> Below(a, b)
  {
    if p + a <= p + b {
      assert a == (p + a)[|p|..] && b[..|a|] == (p + b)[|p|..|p| + |a|];
    }
    if a <= b { assert (p + b)[..|p| + |a|] == p + b[..|a|]; }
  }

  lemma PrefixTail(ps: seq<Node>, fs: seq<Node>)
    requires ps != [] && fs != [] && ps[0] == fs[0]
    ensures ps < fs <==> ps[1..] < fs[1..]
  {
    if ps[1..] < fs[1..] {
      assert forall i :: 1 <= i < |ps| ==> ps[i] == ps[1..][i - 1] == fs[1..][i - 1] == fs[i];
    }
  }

  /** The byte test decides exactly "proper prefix" on node lists. */
  lemma PrefixMeansProperPrefix(ps: seq<Node>, fs: seq<Node>)
    requires NodesOk(ps) && NodesOk(fs)
    ensures PathPrefix(Encode(ps), Encode(fs)) <==> ps < fs
  {
    hide FromLE, EncodeNode;
    assert Encode(ps)[..|Encode(ps)| - 4] == Bodies(ps);
    BodiesTiled(ps);
    BelowNodes(ps, fs);
  }

  // --- Walking a path in firmware memory ---

  const MAX_PATH: nat := 65536

  /** Node by node, keeping every byte up to and including the end node; None on any malformation. */
  function WalkPath(m: Memory, p: nat, out: seq<byte>): Option<seq<byte>>
    requires |out| <= MAX_PATH
    decreases MAX_PATH - |out|
  {
    if p == 0 then None
    else
      var ln := FromLE(Fetch(m, p + 2, 2));
      if ln < 4 then None
      else
        var out' := out + Fetch(m, p, ln);
        if m(p) == TYPE_END && m(p + 1) == SUBTYPE_END_WHOLE then Some(out')
        else if |out'| > MAX_PATH then None
        else WalkPath(m, (p + ln) % TWO64, out')
  }

  method DevicePathBytes(m: Memory, iface: nat) returns (r: Option<seq<byte>>)
    ensures r == WalkPath(m, iface, [])
  {
    hide FromLE;
    var out: seq<byte> := [];
    var p: nat := iface;
    while true
      invariant |out| <= MAX_PATH
      invariant WalkPath(m, p, out) == WalkPath(m, iface, [])
      decreases MAX_PATH - |out|
    {
      if p == 0 { return None; }
      var t := m(p);
      var st := m(p + 1);
      var ln := FromLE(Fetch(m, p + 2, 2));
      if ln < 4 { return None; }
      out := out + Fetch(m, p, ln);
      if t == TYPE_END && st == SUBTYPE_END_WHOLE { return Some(out); }
      if |out| > MAX_PATH { return None; }
      p := (p + ln) % TWO64;
    }
  }

  lemma HeaderAt(m: Memory, p: nat, n: Node, rest: seq<byte>)
    requires Holds(m, p, EncodeNode(n) + rest) && NodeSize(n) < 0x1_0000
    ensures m(p) == n.kind && m(p + 1) == n.sub && FromLE(Fetch(m, p + 2, 2)) == NodeSize(n)
    ensures Fetch(m, p, NodeSize(n)) == EncodeNode(n)
    ensures Holds(m, p + NodeSize(n), rest)
  {
    hide FromLE, EncodeNode;
    HoldsSplit(m, p, EncodeNode(n), rest);
    NodeHeader(n, []);
    var f := Fetch(m, p, NodeSize(n));
    assert EncodeNode(n) + [] == f;
    assert f[0] == m(p) && f[1] == m(p + 1);
    assert f[2..4] == Fetch(m, p + 2, 2);
  }

  lemma EndNodeBytes()
    ensures EncodeNode(Node(TYPE_END, SUBTYPE_END_WHOLE, [])) == END_NODE
  {
    UnitBytesSnoc([], 4);
  }

  /** The walk reads back exactly the encoded path, unless its nodes take more than 64 KiB. */
  lemma {:induction false} WalkReadsPath(m: Memory, p: nat, ns: seq<Node>, out: seq<byte>)
    requires NodesOk(ns) && Holds(m, p, Encode(ns)) && |out| <= MAX_PATH
    ensures WalkPath(m, p, out) == if |out| + |Bodies(ns)| <= 65536 then Some(out + Encode(ns)) else None
    decreases |ns|
  {
    hide FromLE, EncodeNode;
    if ns == [] {
      var e := Node(TYPE_END, SUBTYPE_END_WHOLE, []);
      EndNodeBytes();
      assert Encode(ns) == EncodeNode(e) + [];
      HeaderAt(m, p, e, []);
    } else {
      EncodeHead(ns);
      HeaderAt(m, p, ns[0], Encode(ns[1..]));
      assert NodeOk(ns[0]);
      var out' := out + EncodeNode(ns[0]);
      if |out'| <= MAX_PATH {
        WalkReadsPath(m, p + NodeSize(ns[0]), ns[1..], out');
        assert out' + Encode(ns[1..]) == out + Encode(ns);
      }
    }
  }

  /** A walk fails at NULL and at a node that claims less than its four header bytes. */
  lemma WalkRejects(m: Memory, p: nat, out: seq<byte>)
    requires |out| <= 65536
    ensures p == 0 || FromLE(Fetch(m, p + 2, 2)) < 4 ==> WalkPath(m, p, out) == None
  {
    hide FromLE;
  }

  /** A prefix is refused if its last node is not the end node, or any node before claims less than four bytes. */
  lemma PrefixRejects(a: seq<byte>, ns: seq<Node>, bad: seq<byte>, full: seq<byte>)
    requires NodesOk(ns) && |bad| >= 4 && FromLE(bad[2..4]) < 4
    ensures |a| < 4 || a[|a| - 4] != 0x7F || a[|a| - 3] != 0xFF ==> !PathPrefix(a, full)
    ensures !PathPrefix(Bodies(ns) + bad + [0x7F, 0xFF, 0x04, 0x00], full)
  {
    hide FromLE;
    var p := Bodies(ns) + bad + [0x7F, 0xFF, 0x04, 0x00];
    assert p[..|p| - 4] == Bodies(ns) + bad;
    NotTiled(ns, bad);
  }

  lemma {:induction false} NotTiled(ns: seq<Node>, bad: seq<byte>)
    requires NodesOk(ns) && |bad| >= 4 && FromLE(bad[2..4]) < 4
    ensures !Tiled(Bodies(ns) + bad)
    decreases |ns|
  {
    hide FromLE, EncodeNode;
    if ns == [] {
      assert Bodies(ns) + bad == bad;
    } else {
      NotTiled(ns[1..], bad);
      NodeHeader(ns[0], Bodies(ns[1..]) + bad);
      assert Bodies(ns) + bad == EncodeNode(ns[0]) + (Bodies(ns[1..]) + bad);
      assert NodeOk(ns[0]);
    }
  }

  // --- Finding the child file system ---

  /** What firmware exposes: memory, the DevicePath interface of a handle, and the SimpleFileSystem handles. */
  datatype Platform = Platform(mem: Memory, interfaceOf: nat -> Option<nat>, sfsHandles: Option<seq<nat>>)

  function HandlePath(pl: Platform, h: nat): Option<seq<byte>>
  {
    if h == 0 then None
    else match pl.interfaceOf(h)
      case None => None
      case Some(iface) => if iface == 0 then None else WalkPath(pl.mem, iface, [])
  }

  ghost predicate HasPath(pl: Platform, h: nat, ns: seq<Node>)
  {
    && h != 0 && pl.interfaceOf(h).Some? && NodesOk(ns) && |Bodies(ns)| <= MAX_PATH
    && Holds(pl.mem, pl.interfaceOf(h).value, Encode(ns))
  }

  lemma HasPathReads(pl: Platform, h: nat, ns: seq<Node>)
    requires HasPath(pl, h, ns)
    ensures HandlePath(pl, h) == Some(Encode(ns))
  {
    WalkReadsPath(pl.mem, pl.interfaceOf(h).value, ns, []);
    assert [] + Encode(ns) == Encode(ns);
  }

  datatype Search = Found(handle: nat, path: seq<byte>) | NoMatch | Failed

  method ReadHandlePath(pl: Platform, h: nat) returns (r: Option<seq<byte>>)
    ensures r == HandlePath(pl, h)
  {
    if h == 0 { return None; }
    var iface := pl.interfaceOf(h);
    if iface.None? { return None; }
    if iface.value == 0 { return None; }
    r := DevicePathBytes(pl.mem, iface.value);
  }

  /** A handle whose path is readable and strictly below the parent's. */
  predicate IsChild(pl: Platform, parent: nat, h: nat)
  {
    HandlePath(pl, parent).Some? && HandlePath(pl, h).Some? &&
      PathPrefix(HandlePath(pl, parent).value, HandlePath(pl, h).value)
  }

  /** Returns the first SimpleFileSystem handle below the parent, with its path; NoMatch only when there is none. */
  method FindSfsChildOf(pl: Platform, parent: nat) returns (r: Search)
    ensures r.Failed? <==> HandlePath(pl, parent) == None || pl.sfsHandles.None?
    ensures r.NoMatch? ==> forall i :: 0 <= i < |pl.sfsHandles.value| ==> !IsChild(pl, parent, pl.sfsHandles.value[i])
    ensures r.Found? ==> exists i :: (&& 0 <= i < |pl.sfsHandles.value| && r.handle == pl.sfsHandles.value[i]
                                      && IsChild(pl, parent, r.handle) && HandlePath(pl, r.handle) == Some(r.path)
                                      && forall j :: 0 <= j < i ==> !IsChild(pl, parent, pl.sfsHandles.value[j]))
  {
    hide HandlePath, PathPrefix;
    if parent == 0 {
      ZeroHandle(pl);
      return Failed;
    }
    var parentPath := ReadHandlePath(pl, parent);
    if parentPath.None? { return Failed; }
    if pl.sfsHandles.None? { return Failed; }
    var hs := pl.sfsHandles.value;
    for i := 0 to |hs|
      invariant forall j :: 0 <= j < i ==> !IsChild(pl, parent, hs[j])
    {
      var childPath := ReadHandlePath(pl, hs[i]);
      if childPath.Some? {
        var below := IsDevicePathPrefix(parentPath.value, childPath.value);
        if below { return Found(hs[i], childPath.value); }
      }
    }
    return NoMatch;
  }

  lemma ZeroHandle(pl: Platform)
    ensures HandlePath(pl, 0) == None
  {
  }

  /** On well-formed paths, the search looks for exactly the handles whose node list strictly extends the parent's. */
  lemma ChildMeansStrictlyBelow(pl: Platform, parent: nat, ps: seq<Node>, h: nat, ns: seq<Node>)
    requires HasPath(pl, parent, ps) && HasPath(pl, h, ns)
    ensures IsChild(pl, parent, h) <==> ps < ns
  {
    hide HandlePath, PathPrefix;
    HasPathReads(pl, parent, ps);
    HasPathReads(pl, h, ns);
    PrefixMeansProperPrefix(ps, ns);
  }

  // --- Building a file path ---

  function FilePathNode(path: string): Node
  {
    Node(TYPE_MEDIA, SUBTYPE_FILE_PATH, UnitBytes(Ucs2(path) + [0]))
  }

  method EncodePath(efiPath: string) returns (r: Option<seq<byte>>)
    ensures r == if Bmp(efiPath) then Some(UnitBytes(Ucs2(efiPath) + [0])) else None
  {
    hide UnitBytes;
    var ucs2: seq<byte> := [];
    ghost var us := Ucs2(efiPath);
    assert UnitBytes(us[..0]) == [];
    for i := 0 to |efiPath|
      invariant forall k :: 0 <= k < i ==> efiPath[k] as int <= 0xFFFF
      invariant ucs2 == UnitBytes(us[..i])
    {
      var c := efiPath[i] as int;
      if c > 0xFFFF { return None; }
      UnitBytesSnoc(us[..i], c);
      assert us[..i + 1] == us[..i] + [c];
      ucs2 := ucs2 + [c % 0x100, c / 0x100];
    }
    assert us[..|efiPath|] == us;
    UnitBytesSnoc(us, 0);
    r := Some(ucs2 + [0x00, 0x00]);
  }

  /**
    The parent's nodes, one file-path node and an end node; None if the parent is not terminated or a rune is not
    in the BMP.
   */
  method BuildFilePath(parent: seq<byte>, efiPath: string) returns (r: Option<seq<byte>>)
    ensures r == if EndTerminated(parent) && Bmp(efiPath)
                 then Some(parent[..|parent| - 4] + EncodeNode(FilePathNode(efiPath)) + END_NODE) else None
  {
    hide UnitBytes, Ucs2, LE;
    if |parent| < 4 { return None; }
    var endIdx := |parent| - 4;
    if parent[endIdx] != TYPE_END || parent[endIdx + 1] != SUBTYPE_END_WHOLE { return None; }
    var ucs2 := EncodePath(efiPath);
    if ucs2.None? { return None; }
    var ln: u16 := (4 + |ucs2.value|) % 0x1_0000;
    UnitBytesSnoc([], ln);
    LELow16(4 + |ucs2.value|);
    var node := [TYPE_MEDIA, SUBTYPE_FILE_PATH, ln % 0x100, ln / 0x100] + ucs2.value;
    assert node == EncodeNode(FilePathNode(efiPath));
    r := Some(parent[..endIdx] + node + [TYPE_END, SUBTYPE_END_WHOLE, 0x04, 0x00]);
  }

  lemma LELow16(v: nat)
    ensures LE(v, 2) == LE(v % 0x1_0000, 2)
  {
    var q, w := v / 0x1_0000, v % 0x1_0000;
    DivModByte(w % 0x100, q * 0x100 + w / 0x100);
    DivModByte(w / 0x100, q);
    assert v == w % 0x100 + 0x100 * (q * 0x100 + w / 0x100);
    assert LE(v, 2) == [v % 0x100] + LE(v / 0x100, 1);
    assert LE(w, 2) == [w % 0x100] + LE(w / 0x100, 1);
  }

  lemma BodiesSnoc(ps: seq<Node>, n: Node)
    ensures Encode(ps + [n]) == Bodies(ps) + (EncodeNode(n) + END_NODE)
  {
    hide EncodeNode;
    BodiesAppend(ps, [n]);
    assert Bodies([n]) == EncodeNode(n) + Bodies([n][1..]);
  }

  /** Whatever the node's length, a path with one more node, not an end node, is below its parent. */
  lemma ExtendedIsBelow(ps: seq<Node>, n: Node)
    requires NodesOk(ps) && n.kind != TYPE_END
    ensures PathPrefix(Encode(ps), Encode(ps + [n]))
  {
    hide EncodeNode, FromLE, LE, Tiled, Bodies;
    BodiesTiled(ps);
    BodiesSnoc(ps, n);
    NodeHeader(n, END_NODE);
    assert Encode(ps)[..|Encode(ps)| - 4] == Bodies(ps);
    assert Encode(ps + [n])[|Bodies(ps)|] == (EncodeNode(n) + END_NODE)[0];
  }

  lemma FilePathNodeSize(path: string)
    ensures NodeSize(FilePathNode(path)) == 2 * |path| + 6
    ensures NodeOk(FilePathNode(path)) <==> |path| <= 32764
  {
  }

  /** On an encoded parent the builder appends one node to the list, and the parent is a prefix of the result. */
  lemma BuildAppendsNode(ps: seq<Node>, path: string)
    requires NodesOk(ps)
    ensures EndTerminated(Encode(ps))
    ensures Encode(ps)[..|Encode(ps)| - 4] + EncodeNode(FilePathNode(path)) + END_NODE ==
              Encode(ps + [FilePathNode(path)])
    ensures NodeOk(FilePathNode(path)) <==> |path| <= 32764
    ensures PathPrefix(Encode(ps), Encode(ps + [FilePathNode(path)]))
  {
    hide EncodeNode, PathPrefix, UnitBytes, Bodies, NodeOk;
    var n := FilePathNode(path);
    BodiesSnoc(ps, n);
    ExtendedIsBelow(ps, n);
    FilePathNodeSize(path);
    assert Encode(ps)[..|Encode(ps)| - 4] == Bodies(ps);
  }

  /** The bytes of a built path: the file-path node starts 04 04, and the whole ends with 7F FF 04 00. */
  lemma BuiltBytes(ps: seq<Node>, path: string)
    ensures var b, at := Encode(ps + [FilePathNode(path)]), |Bodies(ps)|;
            && |b| == at + 2 * |path| + 10
            && b[at] == 0x04 && b[at + 1] == 0x04 && FromLE(b[at + 2..at + 4]) == (2 * |path| + 6) % 0x1_0000
            && BytesUnits(b[at + 4..at + 2 * |path| + 6]) == Ucs2(path) + [0]
            && b[|b| - 4..] == [0x7F, 0xFF, 0x04, 0x00]
  {
    hide LE, FromLE, BytesUnits, UnitBytes, Bodies, Ucs2;
    var n := FilePathNode(path);
    var e := EncodeNode(n);
    FilePathNodeSize(path);
    BodiesSnoc(ps, n);
    EmbeddedNode(Bodies(ps), e, END_NODE);
    LELow16(NodeSize(n));
    LE16RoundTrip(NodeSize(n) % 0x1_0000);
    assert e[2..4] == LE(NodeSize(n), 2) && e[4..] == n.data;
    UnitBytesRoundTrip(Ucs2(path) + [0]);
  }

  lemma EmbeddedNode(front: seq<byte>, e: seq<byte>, end: seq<byte>)
    requires |e| >= 4 && |end| == 4
    ensures var b, at := front + (e + end), |front|;
            && |b| == at + |e| + 4 && b[at] == e[0] && b[at + 1] == e[1] && b[at + 2..at + 4] == e[2..4]
            && b[at + 4..at + |e|] == e[4..] && b[|b| - 4..] == end
  {
  }

  // --- Collecting the path back ---

  const MAX_NODES: nat := 32
  const MAX_NODE_SIZE: nat := 4096

  function TrimNul(us: seq<u16>): seq<u16>
  {
    if us != [] && us[|us| - 1] == 0 then us[..|us| - 1] else us
  }

  /** The CHAR16s of the file-path nodes met within `budget` nodes, without their terminators. */
  function WalkUnits(m: Memory, cur: nat, budget: nat): seq<u16>
    decreases budget
  {
    if budget == 0 then []
    else
      var ln := FromLE(Fetch(m, cur + 2, 2));
      if ln < 4 || ln > MAX_NODE_SIZE || m(cur) == TYPE_END then []
      else
        NodeUnits(m, cur, ln) + WalkUnits(m, (cur + ln) % TWO64, budget - 1)
  }

  /** How many bytes of nodes the walk gets through. */
  function Span(m: Memory, cur: nat, budget: nat): nat
    decreases budget
  {
    if budget == 0 then 0
    else
      var ln := FromLE(Fetch(m, cur + 2, 2));
      if ln < 4 || ln > MAX_NODE_SIZE || m(cur) == TYPE_END then 0
      else ln + Span(m, (cur + ln) % TWO64, budget - 1)
  }

  /** What is collected fits between the headers of the nodes walked. */
  lemma {:induction false} UnitsFitSpan(m: Memory, cur: nat, budget: nat)
    ensures WalkUnits(m, cur, budget) == [] || 2 * |WalkUnits(m, cur, budget)| + 4 <= Span(m, cur, budget)
    decreases budget
  {
    hide FromLE, BytesUnits;
    if budget > 0 {
      var ln := FromLE(Fetch(m, cur + 2, 2));
      if 4 <= ln <= MAX_NODE_SIZE && m(cur) != TYPE_END {
        UnitsFitSpan(m, (cur + ln) % TWO64, budget - 1);
        assert 2 * |NodeUnits(m, cur, ln)| <= ln - 4;
      }
    }
  }

  function NodeUnits(m: Memory, cur: nat, ln: nat): seq<u16>
    requires ln >= 4
  {
    if m(cur) == TYPE_MEDIA && m(cur + 1) == SUBTYPE_FILE_PATH
    then TrimNul(BytesUnits(Fetch(m, cur + 4, (ln - 4) / 2 * 2))) else []
  }

  method CollectNode(m: Memory, cur: nat, t: byte, st: byte, ln: nat) returns (src: seq<u16>)
    requires ln >= 4 && t == m(cur) && st == m(cur + 1)
    ensures src == NodeUnits(m, cur, ln)
  {
    hide BytesUnits;
    src := [];
    if t == TYPE_MEDIA && st == SUBTYPE_FILE_PATH {
      var n16 := (ln - 4) / 2;
      src := BytesUnits(Fetch(m, cur + 4, n16 * 2));
      if n16 > 0 {
        if src[|src| - 1] == 0 { src := src[..|src| - 1]; }
      }
    }
  }

  method CollectUnits(m: Memory, dp: nat, budget: nat) returns (out: seq<u16>)
    ensures out == WalkUnits(m, dp, budget)
  {
    hide FromLE, NodeUnits;
    out := [];
    var cur: nat := dp;
    var i := 0;
    while i < budget
      invariant 0 <= i <= budget
      invariant out + WalkUnits(m, cur, budget - i) == WalkUnits(m, dp, budget)
    {
      var t := m(cur);
      var st := m(cur + 1);
      var ln := FromLE(Fetch(m, cur + 2, 2));
      if ln < 4 || ln > MAX_NODE_SIZE { break; }
      if t == TYPE_END { break; }
      var src := CollectNode(m, cur, t, st, ln);
      out := out + src;
      cur := (cur + ln) % TWO64;
      i := i + 1;
    }
  }

  /** The joined file path with one terminator; empty when there is none. */
  method BuildPath16(m: Memory, dp: nat) returns (out: seq<u16>)
    ensures out == if dp == 0 || WalkUnits(m, dp, MAX_NODES) == [] then [] else WalkUnits(m, dp, MAX_NODES) + [0]
  {
    hide WalkUnits;
    if dp == 0 { return []; }
    out := CollectUnits(m, dp, MAX_NODES);
    if |out| == 0 { return []; }
    out := out + [0];
  }

  /** The same on node lists. */
  function Units(ns: seq<Node>, budget: nat): seq<u16>
  {
    if ns == [] || budget == 0 || NodeSize(ns[0]) > MAX_NODE_SIZE || ns[0].kind == TYPE_END then []
    else
      UnitsOf(ns[0]) + Units(ns[1..], budget - 1)
  }

  function UnitsOf(n: Node): seq<u16>
  {
    if n.kind == TYPE_MEDIA && n.sub == SUBTYPE_FILE_PATH
    then TrimNul(BytesUnits(n.data[..|n.data| / 2 * 2])) else []
  }

  lemma DataAt(m: Memory, p: nat, n: Node)
    requires Fetch(m, p, NodeSize(n)) == EncodeNode(n)
    ensures Fetch(m, p + 4, |n.data| / 2 * 2) == n.data[..|n.data| / 2 * 2]
  {
    hide LE;
    var f := Fetch(m, p, NodeSize(n));
    var k := |n.data| / 2 * 2;
    assert f[4..4 + k] == n.data[..k];
    assert f[4..4 + k] == Fetch(m, p + 4, k);
  }

  lemma WalkUnitsStep(m: Memory, p: nat, n: Node, rest: seq<byte>, budget: nat)
    requires NodeOk(n) && Holds(m, p, EncodeNode(n) + rest) && rest != [] && budget > 0
    ensures Holds(m, p + NodeSize(n), rest)
    ensures WalkUnits(m, p, budget) ==
              if NodeSize(n) > MAX_NODE_SIZE || n.kind == TYPE_END then []
              else UnitsOf(n) + WalkUnits(m, p + NodeSize(n), budget - 1)
    ensures Span(m, p, budget) ==
              if NodeSize(n) > MAX_NODE_SIZE || n.kind == TYPE_END then 0
              else NodeSize(n) + Span(m, p + NodeSize(n), budget - 1)
  {
    hide FromLE, EncodeNode, BytesUnits, TrimNul;
    HeaderAt(m, p, n, rest);
    DataAt(m, p, n);
    FitsU64(p + NodeSize(n));
  }

  lemma {:induction false} WalkUnitsNodes(m: Memory, p: nat, ns: seq<Node>, budget: nat)
    requires NodesOk(ns) && Holds(m, p, Encode(ns))
    ensures WalkUnits(m, p, budget) == Units(ns, budget)
    decreases budget
  {
    hide FromLE, EncodeNode, UnitsOf, NodeUnits;
    if budget == 0 {
    } else if ns == [] {
      var e := Node(TYPE_END, SUBTYPE_END_WHOLE, []);
      EndNodeBytes();
      assert Encode(ns) == EncodeNode(e) + [];
      HeaderAt(m, p, e, []);
    } else {
      EncodeHead(ns);
      assert NodeOk(ns[0]);
      WalkUnitsStep(m, p, ns[0], Encode(ns[1..]), budget);
      WalkUnitsNodes(m, p + NodeSize(ns[0]), ns[1..], budget - 1);
    }
  }

  predicate Walkable(ns: seq<Node>)
  {
    forall i :: 0 <= i < |ns| ==> NodeSize(ns[i]) <= 4096 && ns[i].kind != 0x7F
  }

  lemma WalkableEmpty()
    ensures Walkable([])
  {
  }

  lemma WalkableHead(ns: seq<Node>)
    requires ns != []
    ensures Walkable(ns) <==> NodeSize(ns[0]) <= MAX_NODE_SIZE && ns[0].kind != TYPE_END && Walkable(ns[1..])
  {
    assert forall i :: 1 <= i < |ns| ==> ns[i] == ns[1..][i - 1];
  }

  predicate NoFilePath(ns: seq<Node>)
  {
    forall i :: 0 <= i < |ns| ==> !(ns[i].kind == TYPE_MEDIA && ns[i].sub == SUBTYPE_FILE_PATH)
  }

  /** The walk gets through nodes that are no file paths within its limits, or stops with nothing. */
  lemma {:induction false} WalkPastParent(m: Memory, p: nat, ps: seq<Node>, rest: seq<byte>, budget: nat)
    requires NodesOk(ps) && NoFilePath(ps) && rest != [] && Holds(m, p, Bodies(ps) + rest)
    ensures Holds(m, p + |Bodies(ps)|, rest)
    ensures WalkUnits(m, p, budget) ==
              if |ps| <= budget && Walkable(ps) then WalkUnits(m, p + |Bodies(ps)|, budget - |ps|) else []
    ensures if |ps| <= budget && Walkable(ps)
            then Span(m, p, budget) == |Bodies(ps)| + Span(m, p + |Bodies(ps)|, budget - |ps|)
            else Span(m, p, budget) <= |Bodies(ps)|
    decreases |ps|
  {
    hide WalkUnits, Span, EncodeNode, Walkable, Holds, NodeOk;
    if ps == [] {
      WalkableEmpty();
      assert Bodies(ps) + rest == rest;
    } else {
      var n, next := ps[0], Bodies(ps[1..]) + rest;
      assert Bodies(ps) + rest == EncodeNode(n) + next;
      HoldsSplit(m, p, EncodeNode(n), next);
      WalkPastParent(m, p + NodeSize(n), ps[1..], rest, if budget == 0 then 0 else budget - 1);
      WalkableHead(ps);
      assert NodeOk(n) && UnitsOf(n) == [];
      if budget == 0 {
        NoBudget(m, p);
      } else {
        WalkUnitsStep(m, p, n, next, budget);
      }
    }
  }

  lemma NoBudget(m: Memory, p: nat)
    ensures WalkUnits(m, p, 0) == [] && Span(m, p, 0) == 0
  {
  }

  /** The length the node's header announces: the low 16 bits. */
  function AnnouncedSize(path: string): nat { (2 * |path| + 6) % 0x1_0000 }

  lemma UnitsPrefix(us: seq<u16>, k: nat)
    requires k <= |us|
    ensures BytesUnits(UnitBytes(us)[..2 * k]) == us[..k]
  {
    hide BytesUnits, UnitBytes;
    SplitAt(us, k);
    FirstUnits(us[..k], us[k..]);
  }

  lemma SplitAt(us: seq<u16>, k: nat)
    requires k <= |us|
    ensures us[..k] + us[k..] == us
  {
  }

  lemma FirstUnits(a: seq<u16>, b: seq<u16>)
    ensures BytesUnits(UnitBytes(a + b)[..2 * |a|]) == a
  {
    hide BytesUnits, UnitBytes;
    UnitBytesAppend(a, b);
    UnitBytesRoundTrip(a);
    assert UnitBytes(a + b)[..2 * |a|] == UnitBytes(a);
  }

  /** What stands in memory where a file-path node does, its announced length possibly cut to 16 bits. */
  lemma FilePathInMemory(m: Memory, p: nat, path: string)
    requires Fetch(m, p, NodeSize(FilePathNode(path))) == EncodeNode(FilePathNode(path))
    ensures m(p) == TYPE_MEDIA && m(p + 1) == SUBTYPE_FILE_PATH
    ensures FromLE(Fetch(m, p + 2, 2)) == AnnouncedSize(path)
    ensures forall k: nat :: k <= 2 * |path| + 2 ==> Fetch(m, p + 4, k) == UnitBytes(Ucs2(path) + [0])[..k]
  {
    hide LE, FromLE, UnitBytes, Ucs2;
    var n := FilePathNode(path);
    var f := Fetch(m, p, NodeSize(n));
    assert f[0] == n.kind && f[1] == n.sub;
    assert Fetch(m, p + 2, 2) == f[2..4] == LE(NodeSize(n), 2);
    LELow16(NodeSize(n));
    LE16RoundTrip(AnnouncedSize(path));
    assert f[4..] == n.data;
    forall k: nat | k <= 2 * |path| + 2
      ensures Fetch(m, p + 4, k) == n.data[..k]
    {
      assert f[4..4 + k] == n.data[..k];
    }
  }

  /** One step of the collector at a file-path node. */
  lemma WalkFilePath(m: Memory, p: nat, path: string, budget: nat)
    requires Holds(m, p, EncodeNode(FilePathNode(path)) + END_NODE) && budget > 0
    ensures var ln := AnnouncedSize(path);
            WalkUnits(m, p, budget) ==
              if ln < 4 || ln > MAX_NODE_SIZE then []
              else TrimNul((Ucs2(path) + [0])[..(ln - 4) / 2]) + WalkUnits(m, p + ln, budget - 1)
    ensures var ln := AnnouncedSize(path);
            Span(m, p, budget) == if ln < 4 || ln > MAX_NODE_SIZE then 0 else ln + Span(m, p + ln, budget - 1)
    ensures Holds(m, p + NodeSize(FilePathNode(path)), END_NODE)
  {
    hide FromLE, EncodeNode, NodeUnits, TrimNul, Ucs2;
    var ln := AnnouncedSize(path);
    FilePathNodeSize(path);
    HoldsSplit(m, p, EncodeNode(FilePathNode(path)), END_NODE);
    FilePathInMemory(m, p, path);
    if 4 <= ln <= MAX_NODE_SIZE {
      FilePathNodeUnits(m, p, path);
      FitsU64(p + ln);
    }
  }

  lemma FilePathNodeUnits(m: Memory, p: nat, path: string)
    requires Fetch(m, p, NodeSize(FilePathNode(path))) == EncodeNode(FilePathNode(path)) && AnnouncedSize(path) >= 4
    ensures var ln := AnnouncedSize(path);
            (ln - 4) / 2 <= |path| + 1 && NodeUnits(m, p, ln) == TrimNul((Ucs2(path) + [0])[..(ln - 4) / 2])
  {
    hide FromLE, EncodeNode, UnitBytes, BytesUnits, TrimNul, Ucs2;
    var k := (AnnouncedSize(path) - 4) / 2;
    FilePathInMemory(m, p, path);
    assert (AnnouncedSize(path) - 4) / 2 * 2 == 2 * k;
    UnitsPrefix(Ucs2(path) + [0], k);
  }

  lemma WalkEnd(m: Memory, p: nat, budget: nat)
    requires Holds(m, p, END_NODE)
    ensures WalkUnits(m, p, budget) == [] && Span(m, p, budget) == 0
  {
    hide FromLE, EncodeNode;
    var e := Node(TYPE_END, SUBTYPE_END_WHOLE, []);
    EndNodeBytes();
    assert END_NODE == EncodeNode(e) + [];
    HeaderAt(m, p, e, []);
  }

  /**
    What the collector makes of a built path of any length. A parent or node beyond its limits gives nothing. A
    path of up to 32764 characters comes back whole. A longer one has its node length cut to 16 bits: what that
    length covers comes first, and the walk goes on in the middle of the text.
   */
  lemma CollectBuilt(m: Memory, dp: nat, ps: seq<Node>, path: string)
    requires NodesOk(ps) && NoFilePath(ps)
    requires Holds(m, dp, Encode(ps + [FilePathNode(path)]))
    ensures var ln := AnnouncedSize(path);
            WalkUnits(m, dp, MAX_NODES) ==
              if |ps| > MAX_NODES - 1 || !Walkable(ps) || ln < 4 || ln > MAX_NODE_SIZE then []
              else if |path| <= 32764 then Ucs2(path)
              else TrimNul(Ucs2(path)[..(ln - 4) / 2]) + WalkUnits(m, dp + |Bodies(ps)| + ln, MAX_NODES - 1 - |ps|)
    ensures var ln := AnnouncedSize(path);
            if |ps| > MAX_NODES - 1 || !Walkable(ps) || ln < 4 || ln > MAX_NODE_SIZE then
              Span(m, dp, MAX_NODES) <= |Bodies(ps)|
            else Span(m, dp, MAX_NODES) ==
                   |Bodies(ps)| + ln +
                   if |path| <= 32764 then 0 else Span(m, dp + |Bodies(ps)| + ln, MAX_NODES - 1 - |ps|)
  {
    hide WalkUnits, Span, EncodeNode, Bodies, TrimNul, Walkable, UnitBytes;
    var n, ln, budget := FilePathNode(path), AnnouncedSize(path), MAX_NODES;
    var us := Ucs2(path) + [0];
    BodiesSnoc(ps, n);
    WalkPastParent(m, dp, ps, EncodeNode(n) + END_NODE, budget);
    var p := dp + |Bodies(ps)|;
    NoBudget(m, p);
    FilePathNodeSize(path);
    if |ps| < budget {
      WalkFilePath(m, p, path, budget - |ps|);
      if |path| <= 32764 {
        assert us[..|us|] == us;
        WalkEnd(m, p + ln, budget - |ps| - 1);
        TrimOne(Ucs2(path));
      } else if ln >= 4 {
        assert us[..(ln - 4) / 2] == Ucs2(path)[..(ln - 4) / 2] by { CutShort(path); }
      }
    }
  }

  lemma TrimOne(us: seq<u16>)
    ensures TrimNul(us + [0]) == us && TrimNul(us + [0]) + [] == us
  {
  }

  /** A cut length covers less than the text. */
  lemma CutShort(path: string)
    requires |path| > 32764
    ensures AnnouncedSize(path) < 4 || (AnnouncedSize(path) - 4) / 2 <= |path|
  {
  }

  /** The walk from `dp` never leaves the nodes of the path built there. */
  ghost predicate StaysInside(m: Memory, dp: nat, ps: seq<Node>, path: string)
  {
    Span(m, dp, MAX_NODES) <= |Bodies(ps)| + 2 * |path| + 6
  }

  /** A walk that goes on in the middle of the text, and stays inside, misses the headers it takes from the text. */
  lemma CutIsShorter(m: Memory, cur: nat, budget: nat, path: string)
    requires |path| > 32764 && 4 <= AnnouncedSize(path) <= MAX_NODE_SIZE
    requires AnnouncedSize(path) + Span(m, cur, budget) <= 2 * |path| + 6
    ensures var k := (AnnouncedSize(path) - 4) / 2;
            k <= |path| && |TrimNul(Ucs2(path)[..k]) + WalkUnits(m, cur, budget)| < |path|
  {
    hide WalkUnits, Span;
    UnitsFitSpan(m, cur, budget);
  }

  /**
    Building a file path and walking it is the identity: from memory holding the built path, the collector returns
    the path if and only if the parent has at most 31 nodes, none of them an end node of any kind, and no node, the
    new one included, is longer than 4096 bytes. The walk must stay inside the path, which it does for every path
    but those whose node length is cut into 4..4096.
   */
  lemma BuildThenCollect(m: Memory, dp: nat, ps: seq<Node>, path: string)
    requires NodesOk(ps) && NoFilePath(ps)
    requires Holds(m, dp, Encode(ps + [FilePathNode(path)]))
    ensures StaysInside(m, dp, ps, path) ==>
              (WalkUnits(m, dp, MAX_NODES) == Ucs2(path) <==>
                 path == "" || (|ps| <= 31 && Walkable(ps) && 2 * |path| + 6 <= 4096))
    ensures |path| <= 32764 || AnnouncedSize(path) < 4 || AnnouncedSize(path) > MAX_NODE_SIZE ==>
              StaysInside(m, dp, ps, path)
  {
    hide WalkUnits, Span, Encode, Walkable, TrimNul;
    CollectBuilt(m, dp, ps, path);
    var ln := AnnouncedSize(path);
    if |path| > 32764 && 4 <= ln <= MAX_NODE_SIZE && |ps| < MAX_NODES && Walkable(ps) && StaysInside(m, dp, ps, path) {
      CutIsShorter(m, dp + |Bodies(ps)| + ln, MAX_NODES - 1 - |ps|, path);
    }
  }

  function Nodes(names: seq<string>): seq<Node>
  {
    if names == [] then [] else [FilePathNode(names[0])] + Nodes(names[1..])
  }

  function Joined(names: seq<string>): string
  {
    if names == [] then "" else names[0] + Joined(names[1..])
  }

  lemma {:induction false} NodesAre(names: seq<string>)
    requires forall i :: 0 <= i < |names| ==> |names[i]| <= 2045
    ensures |Nodes(names)| == |names| && NodesOk(Nodes(names))
  {
    hide UnitBytes, Ucs2;
    if names != [] {
      NodesAre(names[1..]);
      FilePathNodeSize(names[0]);
    }
  }

  lemma FilePathUnits(path: string)
    ensures UnitsOf(FilePathNode(path)) == Ucs2(path)
  {
    hide BytesUnits, UnitBytes;
    var us, n := Ucs2(path) + [0], FilePathNode(path);
    UnitBytesRoundTrip(us);
    assert n.data[..|n.data| / 2 * 2] == n.data;
    TrimOne(Ucs2(path));
  }

  lemma Ucs2Append(a: string, b: string)
    ensures Ucs2(a + b) == Ucs2(a) + Ucs2(b)
  {
  }

  /** A node's text with or without its terminator, and with or without a stray last byte. */
  lemma NodeText(us: seq<u16>, stray: seq<byte>)
    requires |stray| <= 1
    ensures UnitsOf(Node(0x04, 0x04, UnitBytes(us) + stray)) ==
              if us != [] && us[|us| - 1] == 0 then us[..|us| - 1] else us
  {
    hide BytesUnits, UnitBytes;
    WholeUnits(UnitBytes(us), stray, |us|);
    UnitBytesRoundTrip(us);
  }

  lemma WholeUnits(bs: seq<byte>, stray: seq<byte>, k: nat)
    requires |bs| == 2 * k && |stray| <= 1
    ensures var data := bs + stray; data[..|data| / 2 * 2] == bs
  {
    assert |bs + stray| / 2 * 2 == 2 * k;
  }

  lemma {:induction false} UnitsJoin(names: seq<string>, budget: nat)
    requires |names| <= budget && forall i :: 0 <= i < |names| ==> |names[i]| <= 2045
    ensures Units(Nodes(names), budget) == Ucs2(Joined(names))
  {
    hide UnitBytes, UnitsOf, Ucs2;
    if names == [] {
      assert Ucs2("") == [];
    } else {
      UnitsJoin(names[1..], budget - 1);
      FilePathNodeSize(names[0]);
      FilePathUnits(names[0]);
      assert Nodes(names)[1..] == Nodes(names[1..]);
      Ucs2Append(names[0], Joined(names[1..]));
    }
  }

  /** A path given as up to 32 file-path nodes of at most 2045 characters each is collected as their concatenation. */
  lemma CollectsConcatenation(m: Memory, dp: nat, names: seq<string>)
    requires |names| <= 32 && forall i :: 0 <= i < |names| ==> |names[i]| <= 2045
    requires Holds(m, dp, Encode(Nodes(names)))
    ensures WalkUnits(m, dp, MAX_NODES) == Ucs2(Joined(names))
  {
    hide WalkUnits, Units, Encode;
    NodesAre(names);
    WalkUnitsNodes(m, dp, Nodes(names), MAX_NODES);
    UnitsJoin(names, MAX_NODES);
  }
}
