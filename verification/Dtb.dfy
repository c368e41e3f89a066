/**
 extract_memory_info of lab2/kern/driver/dtb.c over the bytes of a device tree blob at an aligned address. The
 reader checks no bounds: it is given a structure block that is a sequence of whole tokens, in any order, up to one that
 stops it.
 */
module Dtb {
  import opened ByteSeq
  import opened Sequences
  import opened DeviceTree

  const BEGIN_NODE := 1
  const END_NODE := 2
  const PROP := 3
  const NOP := 4
  const END := 9
  const MAGIC := 0xd00dfeed

  // ---------- byte order ----------

  /** fdt32_to_cpu: the four bytes of a word in reverse. */
  function Fdt32ToCpu(x: int): int {
    var x1 := x / 256;
    var x2 := x1 / 256;
    var x3 := x2 / 256;
    0x100_0000 * (x % 256) + 0x1_0000 * (x1 % 256) + 0x100 * (x2 % 256) + x3 % 256
  }

  /** fdt64_to_cpu: each half reversed, and the halves exchanged. */
  function Fdt64ToCpu(x: int): int {
    0x1_0000_0000 * Fdt32ToCpu(x % 0x1_0000_0000) + Fdt32ToCpu(x / 0x1_0000_0000)
  }

  function LoadLe64(b: Bytes, p: nat): int
    requires p + 8 <= |b|
  {
    LoadLe32(b, p) + 0x1_0000_0000 * LoadLe32(b, p + 4)
  }

  lemma Digit(b: int, r: int)
    requires 0 <= b < 256 && r >= 0
    ensures (b + 256 * r) % 256 == b && (b + 256 * r) / 256 == r
  {
  }

  lemma BeSnoc(b: Bytes, x: byte)
    ensures Be(b + [x]) == 256 * Be(b) + x as int
  {
    assert (b + [x])[..|b|] == b;
  }

  lemma BeOfFour(b0: byte, b1: byte, b2: byte, b3: byte)
    ensures Be([b0, b1, b2, b3]) == 0x100_0000 * b0 as int + 0x1_0000 * b1 as int + 0x100 * b2 as int + b3 as int
  {
    BeSnoc([b0, b1, b2], b3);
    assert [b0, b1, b2] + [b3] == [b0, b1, b2, b3];
    BeSnoc([b0, b1], b2);
    assert [b0, b1] + [b2] == [b0, b1, b2];
    BeSnoc([b0], b1);
    assert [b0] + [b1] == [b0, b1];
    BeSnoc([], b0);
    assert [] + [b0] == [b0];
  }

  /** A word loaded little-endian and converted is the big-endian value of its bytes. */
  lemma Fdt32Meaning(b: Bytes, p: nat)
    requires p + 4 <= |b|
    ensures Fdt32ToCpu(LoadLe32(b, p)) == Be(b[p..p + 4])
  {
    var b0, b1, b2, b3 := b[p], b[p + 1], b[p + 2], b[p + 3];
    var r3 := b3 as int;
    var r2 := b2 as int + 256 * r3;
    var r1 := b1 as int + 256 * r2;
    Digit(b0 as int, r1);
    Digit(b1 as int, r2);
    Digit(b2 as int, r3);
    assert b[p..p + 4] == [b0, b1, b2, b3];
    BeOfFour(b0, b1, b2, b3);
  }

  lemma {:induction false} BeConcat(a: Bytes, b: Bytes)
    requires |b| == 4
    ensures Be(a + b) == 0x1_0000_0000 * Be(a) + Be(b)
  {
    hide Be;
    var a1 := a + [b[0]];
    var a2 := a1 + [b[1]];
    var a3 := a2 + [b[2]];
    assert a + b == a3 + [b[3]];
    BeSnoc(a, b[0]);
    BeSnoc(a1, b[1]);
    BeSnoc(a2, b[2]);
    BeSnoc(a3, b[3]);
    assert b == [b[0], b[1], b[2], b[3]];
    BeOfFour(b[0], b[1], b[2], b[3]);
  }

  lemma Halves(lo: int, hi: int)
    requires 0 <= lo < 0x1_0000_0000
    ensures (lo + 0x1_0000_0000 * hi) % 0x1_0000_0000 == lo && (lo + 0x1_0000_0000 * hi) / 0x1_0000_0000 == hi
  {
  }

  lemma Fdt64Meaning(b: Bytes, p: nat)
    requires p + 8 <= |b|
    ensures Fdt64ToCpu(LoadLe64(b, p)) == Be(b[p..p + 8])
  {
    hide Be, Fdt32ToCpu, LoadLe32;
    var lo, hi := LoadLe32(b, p), LoadLe32(b, p + 4);
    Halves(lo, hi);
    Fdt32Meaning(b, p);
    Fdt32Meaning(b, p + 4);
    assert b[p..p + 8] == b[p..p + 4] + b[p + 4..p + 8];
    BeConcat(b[p..p + 4], b[p + 4..p + 8]);
  }

  // ---------- tokens as bytes ----------

  function Be32(x: int): (b: Bytes)
    requires 0 <= x < 0x1_0000_0000
    ensures |b| == 4
  {
    var x1 := x / 256;
    var x2 := x1 / 256;
    [(x2 / 256) as byte, (x2 % 256) as byte, (x1 % 256) as byte, (x % 256) as byte]
  }

  lemma Be32Value(x: int)
    requires 0 <= x < 0x1_0000_0000
    ensures Be(Be32(x)) == x
  {
    hide Be;
    var x1 := x / 256;
    var x2 := x1 / 256;
    BeOfFour((x2 / 256) as byte, (x2 % 256) as byte, (x1 % 256) as byte, (x % 256) as byte);
  }

  /** Up to the next multiple of four, with zeros. */
  function Padded4(b: Bytes): (r: Bytes)
    ensures |r| % 4 == 0 && |b| <= |r| < |b| + 4 && r[..|b|] == b
  {
    b + seq((4 - |b| % 4) % 4, _ => 0)
  }

  predicate TokenOk(t: Token) {
    && (t.Begin? ==> 0 !in t.name)
    && (t.Other? ==> 0 <= t.word < 0x1_0000_0000 && t.word !in {1, 2, 3, 4, 9})
    && (t.Property? ==> 0 <= t.prop.nameoff < 0x1_0000_0000 && |t.prop.value| < 0x1_0000_0000)
  }

  /** The words of section 5.4.1 of the Devicetree Specification. */
  function Kind(t: Token): (k: int)
    requires TokenOk(t)
    ensures 0 <= k < 0x1_0000_0000
  {
    match t
    case Begin(_) => 1
    case EndNode => 2
    case Property(_) => 3
    case Nop => 4
    case End => 9
    case Other(word) => word
  }

  function Payload(t: Token): (b: Bytes)
    requires TokenOk(t)
    ensures |b| % 4 == 0
  {
    match t
    case Begin(name) => Padded4(name + [0])
    case Property(p) =>
      WholeWords(8, |Padded4(p.value)|);
      Be32(|p.value|) + (Be32(p.nameoff) + Padded4(p.value))
    case _ => []
  }

  function Encode(t: Token): (b: Bytes)
    requires TokenOk(t)
    ensures |b| % 4 == 0
  {
    WholeWords(4, |Payload(t)|);
    Be32(Kind(t)) + Payload(t)
  }

  lemma WholeWords(a: int, b: int)
    requires a % 4 == 0 && b % 4 == 0
    ensures (a + b) % 4 == 0
  {
  }

  ghost predicate AllOk(ts: seq<Token>) {
    forall i :: 0 <= i < |ts| ==> TokenOk(ts[i])
  }

  function EncodeAll(ts: seq<Token>): Bytes
    requires AllOk(ts)
  {
    if ts == [] then [] else Encode(ts[0]) + EncodeAll(ts[1..])
  }

  // ---------- reading at a position ----------

  ghost predicate At(dtb: Bytes, p: int, b: Bytes) {
    0 <= p && p + |b| <= |dtb| && dtb[p..p + |b|] == b
  }

  lemma AtSplit(dtb: Bytes, p: int, a: Bytes, b: Bytes)
    requires At(dtb, p, a + b)
    ensures At(dtb, p, a) && At(dtb, p + |a|, b)
  {
    var s := dtb[p..p + |a + b|];
    assert s[..|a|] == a && s[|a|..] == b;
    assert dtb[p..p + |a|] == s[..|a|] && dtb[p + |a|..p + |a| + |b|] == s[|a|..];
  }

  function Load(dtb: Bytes, p: nat): (x: int)
    requires p + 4 <= |dtb|
    ensures x >= 0
  {
    Fdt32ToCpu(LoadLe32(dtb, p))
  }

  lemma LoadAt(dtb: Bytes, p: int, x: int)
    requires 0 <= x < 0x1_0000_0000 && At(dtb, p, Be32(x))
    ensures p + 4 <= |dtb| && Load(dtb, p) == x
  {
    Be32Value(x);
    Fdt32Meaning(dtb, p);
  }

  /** The blob begins with the bytes of the magic number. */
  predicate HasMagic(dtb: Bytes) {
    |dtb| >= 4 && dtb[..4] == [0xd0, 0x0d, 0xfe, 0xed]
  }

  lemma MagicWord(dtb: Bytes)
    requires |dtb| >= 4
    ensures Load(dtb, 0) == 0xd00dfeed <==> HasMagic(dtb)
  {
    hide Be;
    Fdt32Meaning(dtb, 0);
    assert dtb[..4] == [dtb[0], dtb[1], dtb[2], dtb[3]];
    BeOfFour(dtb[0], dtb[1], dtb[2], dtb[3]);
    if Load(dtb, 0) == 0xd00dfeed {
      assert dtb[0] == 0xd0;
      assert dtb[1] == 0x0d;
      assert dtb[2] == 0xfe;
    }
  }

  lemma AtPrefix(dtb: Bytes, p: int, b: Bytes, n: nat)
    requires At(dtb, p, b) && n <= |b|
    ensures At(dtb, p, b[..n])
  {
    assert b == b[..n] + b[n..];
    AtSplit(dtb, p, b[..n], b[n..]);
  }

  /** strlen, on a string that ends inside the blob. */
  method Strlen(dtb: Bytes, p: nat, ghost name: Bytes) returns (n: nat)
    requires At(dtb, p, name + [0]) && 0 !in name
    ensures n == |name|
  {
    ghost var s := name + [0];
    assert forall i :: 0 <= i < |s| ==> dtb[p..p + |s|][i] == s[i];
    assert forall i :: 0 <= i < |name| ==> name[i] != 0;
    n := 0;
    while dtb[p + n] != 0
      invariant n <= |name|
      decreases |name| - n
    {
      assert dtb[p..p + |s|][n] == s[n];
      n := n + 1;
    }
    assert dtb[p..p + |s|][n] == s[n];
  }

  const MEMORY: Bytes := [109, 101, 109, 111, 114, 121]

  /** strncmp(name, "memory", 6) == 0 */
  method StartsWithMemory(dtb: Bytes, p: nat, ghost name: Bytes) returns (r: bool)
    requires At(dtb, p, name + [0]) && 0 !in name
    ensures r == IsMemory(name)
  {
    ghost var s := name + [0];
    assert MEMORY == Ascii("memory");
    assert forall i :: 0 <= i < |s| ==> dtb[p..p + |s|][i] == s[i];
    var n := 0;
    while n < 6 && dtb[p + n] == MEMORY[n]
      invariant n <= 6 && n <= |name| && name[..n] == MEMORY[..n]
      decreases 6 - n
    {
      assert dtb[p..p + |s|][n] == s[n];
      n := n + 1;
    }
    r := n == 6;
    if !r {
      assert dtb[p..p + |s|][n] == s[n];
      assert |name| >= 6 ==> name[..6][n] != MEMORY[n];
    } else {
      assert MEMORY[..6] == MEMORY;
    }
  }

  const REG: Bytes := [114, 101, 103, 0]

  /** strcmp of the string at offset `n` of the strings block with "reg" finds equality. */
  predicate IsReg(dtb: Bytes, strings: nat, n: nat) {
    strings + n + 4 <= |dtb| && dtb[strings + n..strings + n + 4] == REG
  }

  ghost predicate RegStands(dtb: Bytes, strings: nat, n: int) {
    At(dtb, strings + n, Ascii("reg") + [0])
  }

  /** The offsets into the strings block where "reg" stands. */
  ghost function Regs(dtb: Bytes, strings: nat): set<int> {
    set n | 0 <= n < |dtb| && RegStands(dtb, strings, n)
  }

  // ---------- the reader ----------

  ghost predicate Rest(dtb: Bytes, p: int, ts: seq<Token>) {
    AllOk(ts) && At(dtb, p, EncodeAll(ts)) && p % 4 == 0
  }

  /** The first token of the rest, and where the next one is. */
  lemma FirstToken(dtb: Bytes, p: int, ts: seq<Token>)
    requires Rest(dtb, p, ts) && ts != []
    ensures TokenOk(ts[0]) && p + 4 <= |dtb| && Load(dtb, p) == Kind(ts[0])
    ensures At(dtb, p + 4, Payload(ts[0]))
    ensures Rest(dtb, p + 4 + |Payload(ts[0])|, ts[1..])
    ensures ts[0].EndNode? || ts[0].Nop? ==> Payload(ts[0]) == []
  {
    hide Load, Kind, Be32, Padded4, At, EncodeAll, Encode;
    var t := ts[0];
    FirstBytes(ts);
    AtSplit(dtb, p, Be32(Kind(t)), Payload(t) + EncodeAll(ts[1..]));
    AtSplit(dtb, p + 4, Payload(t), EncodeAll(ts[1..]));
    LoadAt(dtb, p, Kind(t));
    WholeWords(p + 4, |Payload(t)|);
  }

  lemma FirstBytes(ts: seq<Token>)
    requires AllOk(ts) && ts != []
    ensures AllOk(ts[1..]) && EncodeAll(ts) == Be32(Kind(ts[0])) + (Payload(ts[0]) + EncodeAll(ts[1..]))
  {
    hide Be32, Kind, Payload;
  }

  /** FDT_BEGIN_NODE: the name, and the step over it. */
  lemma BeginPayload(dtb: Bytes, p: int, name: Bytes)
    requires 0 !in name && At(dtb, p, Payload(Begin(name))) && p % 4 == 0
    ensures At(dtb, p, name + [0])
    ensures (p + |name| + 4) / 4 * 4 == p + |Payload(Begin(name))|
  {
    hide Padded4;
    AtPrefix(dtb, p, Padded4(name + [0]), |name| + 1);
    RoundUp(p, |name| + 1, |Padded4(name + [0])|);
  }

  /** FDT_PROP: length, name offset and value, and the step over them. */
  lemma PropPayload(dtb: Bytes, p: int, v: Prop)
    requires TokenOk(Property(v)) && At(dtb, p, Payload(Property(v))) && p % 4 == 0
    ensures p + 8 <= |dtb| && Load(dtb, p) == |v.value| && Load(dtb, p + 4) == v.nameoff
    ensures At(dtb, p + 8, v.value)
    ensures (p + 8 + |v.value| + 3) / 4 * 4 == p + |Payload(Property(v))|
  {
    hide Load, Be32, Padded4;
    AtSplit(dtb, p, Be32(|v.value|), Be32(v.nameoff) + Padded4(v.value));
    AtSplit(dtb, p + 4, Be32(v.nameoff), Padded4(v.value));
    LoadAt(dtb, p, |v.value|);
    LoadAt(dtb, p + 4, v.nameoff);
    AtPrefix(dtb, p + 8, Padded4(v.value), |v.value|);
    RoundUp(p + 8, |v.value|, |Padded4(v.value)|);
  }

  lemma RoundUp(p: int, n: nat, m: nat)
    requires p % 4 == 0 && m % 4 == 0 && n <= m < n + 4
    ensures (p + n + 3) / 4 * 4 == p + m
  {
  }

  /** The `reg` value of a property. */
  lemma RegValue(dtb: Bytes, p: nat, value: Bytes)
    requires At(dtb, p, value) && |value| >= 16
    ensures p + 16 <= |dtb|
    ensures RegionOf(value) == Region(Fdt64ToCpu(LoadLe64(dtb, p)), Fdt64ToCpu(LoadLe64(dtb, p + 8)))
  {
    hide Be, LoadLe64, Fdt64ToCpu;
    Fdt64Meaning(dtb, p);
    Fdt64Meaning(dtb, p + 8);
    AtPrefix(dtb, p, value, 16);
    assert value[..16] == value[..8] + value[8..16];
    AtSplit(dtb, p, value[..8], value[8..16]);
  }

  /** The end of the block, or a word that is no token. */
  predicate Stops(t: Token) {
    t.End? || t.Other?
  }

  ghost predicate HasStop(ts: seq<Token>) {
    exists i :: 0 <= i < |ts| && Stops(ts[i])
  }

  lemma StopLater(ts: seq<Token>)
    requires HasStop(ts)
    ensures ts != [] && (!Stops(ts[0]) ==> HasStop(ts[1..]))
  {
    var i :| 0 <= i < |ts| && Stops(ts[i]);
    if i > 0 {
      assert ts[1..][i - 1] == ts[i];
    }
  }

  /** extract_memory_info: it stays on token boundaries, ends, and finds what reading the tokens finds. */
  method ExtractMemoryInfo(dtb: Bytes, start: nat, strings: nat, ghost ts: seq<Token>) returns (r: Option<Region>)
    requires Rest(dtb, start, ts) && HasStop(ts)
    ensures r == Scan(ts, false, Regs(dtb, strings))
  {
    hide Load, LoadLe64, Fdt64ToCpu, Payload, At, EncodeAll, Regs, RegionOf, HasStop;
    ghost var rest, regs := ts, Regs(dtb, strings);
    var p, inMemory := start, false;
    while true
      invariant 0 <= p && Rest(dtb, p, rest) && HasStop(rest)
      invariant Scan(ts, false, regs) == Scan(rest, inMemory, regs)
      decreases |rest|
    {
      StopLater(rest);
      FirstToken(dtb, p, rest);
      ghost var t := rest[0];
      var token := Load(dtb, p);
      p := p + 4;
      if token == BEGIN_NODE {
        BeginPayload(dtb, p, t.name);
        var n := Strlen(dtb, p, t.name);
        var memory := StartsWithMemory(dtb, p, t.name);
        if memory {
          inMemory := true;
        }
        p := (p + n + 4) / 4 * 4;
      } else if token == END_NODE {
        inMemory := false;
      } else if token == PROP {
        PropPayload(dtb, p, t.prop);
        var len := Load(dtb, p);
        var nameoff := Load(dtb, p + 4);
        p := p + 8;
        RegAt(dtb, strings, nameoff);
        if inMemory && IsReg(dtb, strings, nameoff) && len >= 16 {
          RegValue(dtb, p, t.prop.value);
          return Some(Region(Fdt64ToCpu(LoadLe64(dtb, p)), Fdt64ToCpu(LoadLe64(dtb, p + 8))));
        }
        p := (p + len + 3) / 4 * 4;
      } else if token == NOP {
      } else {
        return None;
      }
      rest := rest[1..];
    }
  }

  lemma RegAt(dtb: Bytes, strings: nat, n: nat)
    ensures n in Regs(dtb, strings) <==> IsReg(dtb, strings, n)
  {
    assert Ascii("reg") + [0] == REG;
    assert RegStands(dtb, strings, n) <==> IsReg(dtb, strings, n);
  }

  /** dtb_init: nothing without the magic number; otherwise what scanning the tokens finds. For the tokens of a device
      tree that is the reader's answer, which is the right one whenever no memory node has a first child that is not
      one. */
  method DtbInit(dtb: Bytes, ghost f: Forest, ghost ts: seq<Token>) returns (r: Option<Region>)
    requires |dtb| >= 40 && (HasMagic(dtb) ==> Rest(dtb, Load(dtb, 8), ts) && HasStop(ts))
    ensures !HasMagic(dtb) ==> r == None
    ensures HasMagic(dtb) ==> r == Scan(ts, false, Regs(dtb, Load(dtb, 12)))
    ensures HasMagic(dtb) && Significant(ts) == Tokens(f) + [End] ==>
              r == Read(f, false, Regs(dtb, Load(dtb, 12)))
    ensures HasMagic(dtb) && Significant(ts) == Tokens(f) + [End] && Safe(f) ==>
              r == Find(f, Regs(dtb, Load(dtb, 12)))
  {
    hide Regs, Load, Tokens, Read, Find, EncodeAll, HasStop, Scan, Safe;
    MagicWord(dtb);
    if Load(dtb, 0) != MAGIC {
      return None;
    }
    var start, strings := Load(dtb, 8), Load(dtb, 12);
    r := ExtractMemoryInfo(dtb, start, strings, ts);
    if Significant(ts) == Tokens(f) + [End] {
      ScanBlock(f, ts, Regs(dtb, strings));
      if Safe(f) {
        SafeReads(f, false, Regs(dtb, strings));
      }
    }
  }
}
