/**
 Device trees and their flattened form: the structure block of sections 5.4 and 5.5 of the Devicetree
 Specification as tokens, the tokens as big-endian bytes, and what the reader of
 lab2/kern/driver/dtb.c means on trees.
 */
module DeviceTree {
  import opened ByteSeq
  import opened Sequences

  /** A property: where its name is in the strings block, and its value. */
  datatype Prop = Prop(nameoff: int, value: Bytes)

  /** A list of sibling nodes, each with its properties and its children. */
  datatype Forest = Nil | Node(name: Bytes, props: seq<Prop>, kids: Forest, next: Forest)

  /** The tokens of a structure block; `Other` is any word that is none of the five. */
  datatype Token = Begin(name: Bytes) | EndNode | Property(prop: Prop) | Nop | End | Other(word: int)

  datatype Region = Region(base: int, size: int)

  // ---------- trees as tokens ----------

  function PropTokens(props: seq<Prop>): seq<Token> {
    if props == [] then [] else [Property(props[0])] + PropTokens(props[1..])
  }

  function Tokens(f: Forest): seq<Token> {
    match f
    case Nil => []
    case Node(name, props, kids, next) =>
      [Begin(name)] + PropTokens(props) + Tokens(kids) + [EndNode] + Tokens(next)
  }

  /** The tokens other than NOP, which may stand anywhere. */
  function Significant(ts: seq<Token>): seq<Token> {
    if ts == [] then [] else if ts[0] == Nop then Significant(ts[1..]) else [ts[0]] + Significant(ts[1..])
  }

  // ---------- what is looked for ----------

  predicate IsMemory(name: Bytes) {
    |name| >= 6 && name[..6] == Ascii("memory")
  }

  function Be(b: Bytes): int {
    if b == [] then 0 else 256 * Be(b[..|b| - 1]) + b[|b| - 1] as int
  }

  /** Base and size in a `reg` value with two address and two size cells. */
  function RegionOf(value: Bytes): Region
    requires |value| >= 16
  {
    Region(Be(value[..8]), Be(value[8..16]))
  }

  predicate Qualifies(p: Prop, regs: set<int>) {
    p.nameoff in regs && |p.value| >= 16
  }

  /** The first `reg` of at least 16 bytes; `regs` are the offsets where the string "reg" is. */
  function FirstReg(props: seq<Prop>, regs: set<int>): Option<Region> {
    if props == [] then None
    else if Qualifies(props[0], regs) then Some(RegionOf(props[0].value))
    else FirstReg(props[1..], regs)
  }

  function Or(a: Option<Region>, b: Option<Region>): Option<Region> {
    if a.Some? then a else b
  }

  /** What the reader is for: the first such `reg`, in document order, of a node whose name begins with
      "memory". */
  function Find(f: Forest, regs: set<int>): Option<Region> {
    match f
    case Nil => None
    case Node(name, props, kids, next) =>
      Or(if IsMemory(name) then FirstReg(props, regs) else None, Or(Find(kids, regs), Find(next, regs)))
  }

  /** What the reader does: the flag set by a memory node is still set at the beginning of its first child, and
      the end of any node clears it. */
  function Read(f: Forest, flag: bool, regs: set<int>): Option<Region> {
    match f
    case Nil => None
    case Node(name, props, kids, next) =>
      var inside := flag || IsMemory(name);
      Or(if inside then FirstReg(props, regs) else None, Or(Read(kids, inside, regs), Read(next, false, regs)))
  }

  /** The reader on tokens. */
  function Scan(ts: seq<Token>, flag: bool, regs: set<int>): Option<Region> {
    if ts == [] then None
    else match ts[0]
      case Begin(name) => Scan(ts[1..], flag || IsMemory(name), regs)
      case EndNode => Scan(ts[1..], false, regs)
      case Property(p) => if flag && Qualifies(p, regs) then Some(RegionOf(p.value)) else Scan(ts[1..], flag, regs)
      case Nop => Scan(ts[1..], flag, regs)
      case End => None
      case Other(_) => None
  }

  lemma {:induction false} ScanSignificant(ts: seq<Token>, flag: bool, regs: set<int>)
    ensures Scan(ts, flag, regs) == Scan(Significant(ts), flag, regs)
  {
    if ts != [] {
      var rest := Significant(ts[1..]);
      assert ([ts[0]] + rest)[1..] == rest;
      forall b ensures Scan(ts[1..], b, regs) == Scan(rest, b, regs) {
        ScanSignificant(ts[1..], b, regs);
      }
    }
  }

  lemma {:induction false} ScanProps(props: seq<Prop>, rest: seq<Token>, flag: bool, regs: set<int>)
    ensures Scan(PropTokens(props) + rest, flag, regs) ==
            Or(if flag then FirstReg(props, regs) else None, Scan(rest, flag, regs))
    decreases |props|
  {
    if props == [] {
      assert PropTokens(props) + rest == rest;
    } else {
      var more := PropTokens(props[1..]) + rest;
      assert PropTokens(props) + rest == [Property(props[0])] + more;
      assert ([Property(props[0])] + more)[1..] == more;
      ScanProps(props[1..], rest, flag, regs);
    }
  }

  lemma ScanStep(t: Token, rest: seq<Token>, flag: bool, regs: set<int>)
    requires t.Begin? || t.EndNode?
    ensures Scan([t] + rest, flag, regs) == Scan(rest, t.Begin? && (flag || IsMemory(t.name)), regs)
  {
    assert ([t] + rest)[1..] == rest;
  }

  /** Scanning a list of nodes is reading it, and leaves the flag clear if there was a node. */
  lemma {:induction false} ScanTree(f: Forest, rest: seq<Token>, flag: bool, regs: set<int>)
    ensures Scan(Tokens(f) + rest, flag, regs) == Or(Read(f, flag, regs), Scan(rest, flag && f.Nil?, regs))
    decreases f
  {
    match f
    case Nil =>
      assert Tokens(f) + rest == rest;
    case Node(name, props, kids, next) =>
      var inside := flag || IsMemory(name);
      var r1 := Tokens(next) + rest;
      var r2 := [EndNode] + r1;
      var r3 := Tokens(kids) + r2;
      assert Tokens(f) + rest == [Begin(name)] + (PropTokens(props) + r3);
      ScanStep(Begin(name), PropTokens(props) + r3, flag, regs);
      ScanProps(props, r3, inside, regs);
      ScanTree(kids, r2, inside, regs);
      ScanStep(EndNode, r1, inside && kids.Nil?, regs);
      ScanTree(next, rest, false, regs);
  }

  /** A whole structure block. */
  lemma ScanBlock(f: Forest, ts: seq<Token>, regs: set<int>)
    requires Significant(ts) == Tokens(f) + [End]
    ensures Scan(ts, false, regs) == Read(f, false, regs)
  {
    ScanSignificant(ts, false, regs);
    ScanTree(f, [End], false, regs);
  }

  // ---------- when reading finds what is looked for ----------

  predicate FirstKidOk(name: Bytes, kids: Forest) {
    IsMemory(name) && kids.Node? ==> IsMemory(kids.name)
  }

  /** Every memory node's first child, if it has one, is a memory node too. */
  predicate Safe(f: Forest) {
    f.Nil? || (FirstKidOk(f.name, f.kids) && Safe(f.kids) && Safe(f.next))
  }

  predicate Childless(f: Forest) {
    f.Nil? || ((IsMemory(f.name) ==> f.kids.Nil?) && Childless(f.kids) && Childless(f.next))
  }

  lemma {:induction false} ChildlessSafe(f: Forest)
    requires Childless(f)
    ensures Safe(f)
  {
    if f.Node? {
      ChildlessSafe(f.kids);
      ChildlessSafe(f.next);
    }
  }

  lemma {:induction false} SafeReads(f: Forest, flag: bool, regs: set<int>)
    requires Safe(f) && (flag && f.Node? ==> IsMemory(f.name))
    ensures Read(f, flag, regs) == Find(f, regs)
    decreases f
  {
    if f.Node? {
      SafeReads(f.kids, flag || IsMemory(f.name), regs);
      SafeReads(f.next, false, regs);
    }
  }

  /** The same nodes with other properties. */
  predicate SameShape(f: Forest, g: Forest)
    decreases f
  {
    if f.Nil? then g.Nil? else g.Node? && g.name == f.name && SameShape(f.kids, g.kids) && SameShape(f.next, g.next)
  }

  lemma {:induction false} SafeShape(f: Forest, g: Forest)
    requires SameShape(f, g)
    ensures Safe(f) <==> Safe(g)
    decreases f
  {
    if f.Node? {
      SafeShape(f.kids, g.kids);
      SafeShape(f.next, g.next);
    }
  }

  function Strip(f: Forest): Forest {
    if f.Nil? then Nil else Node(f.name, [], Strip(f.kids), Strip(f.next))
  }

  lemma {:induction false} Stripped(f: Forest, flag: bool, regs: set<int>)
    ensures SameShape(f, Strip(f)) && Read(Strip(f), flag, regs) == None && Find(Strip(f), regs) == None
    decreases f
  {
    if f.Node? {
      Stripped(f.kids, flag || IsMemory(f.name), regs);
      Stripped(f.next, false, regs);
    }
  }

  /** The same nodes with one property, in a first child that is no memory node but whose parent is. */
  function Plant(f: Forest, p: Prop): Forest
    requires !Safe(f)
  {
    if !FirstKidOk(f.name, f.kids) then
      Node(f.name, [], Node(f.kids.name, [p], Strip(f.kids.kids), Strip(f.kids.next)), Strip(f.next))
    else if !Safe(f.kids) then
      Node(f.name, [], Plant(f.kids, p), Strip(f.next))
    else
      Node(f.name, [], Strip(f.kids), Plant(f.next, p))
  }

  lemma {:induction false} Planted(f: Forest, p: Prop, flag: bool, regs: set<int>)
    requires !Safe(f) && Qualifies(p, regs)
    ensures SameShape(f, Plant(f, p))
    ensures Read(Plant(f, p), flag, regs) == Some(RegionOf(p.value)) && Find(Plant(f, p), regs) == None
    decreases f
  {
    var inside := flag || IsMemory(f.name);
    Stripped(f.next, false, regs);
    if !FirstKidOk(f.name, f.kids) {
      Stripped(f.kids.kids, true, regs);
      Stripped(f.kids.next, false, regs);
    } else if !Safe(f.kids) {
      Planted(f.kids, p, inside, regs);
    } else {
      Stripped(f.kids, inside, regs);
      Planted(f.next, p, false, regs);
    }
  }

  ghost predicate Right(f: Forest, regs: set<int>) {
    Read(f, false, regs) == Find(f, regs)
  }

  /** For given nodes, the reader finds the right region whatever their properties are, exactly if every
      memory node's first child, if it has one, is a memory node too. */
  lemma RightIffSafe(f: Forest, regs: set<int>, off: int)
    requires off in regs
    ensures Safe(f) <==> forall g :: SameShape(f, g) ==> Right(g, regs)
  {
    if Safe(f) {
      forall g | SameShape(f, g) ensures Right(g, regs) {
        SafeShape(f, g);
        SafeReads(g, false, regs);
      }
    } else {
      var p := Prop(off, seq(16, _ => 0));
      Planted(f, p, false, regs);
      assert !Right(Plant(f, p), regs);
    }
  }
}
