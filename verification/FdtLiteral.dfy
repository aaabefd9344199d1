/**
  One device tree blob as a dump of its bytes: what is written for a small tree, and what the
  walkers and searches make of it.  The byte values, tags, offsets and names are spelled out
  here, so that reader and writer cannot agree on wrong ones.
 */
module FdtLiteral {
  import opened Endian
  import opened Regions
  import opened FdtBlob
  import opened FdtTree
  import opened FdtWalk
  import opened FdtSites
  import opened FdtProps
  import opened FdtMeaning
  import opened FdtSearch
  import opened FdtDevices
  import opened FdtReserve
  import opened FdtImage
  import opened FdtNames

  /** The bytes of a text. */
  predicate Spells(bs: seq<Byte>, s: string) { |bs| == |s| && forall i :: 0 <= i < |s| ==> bs[i] == s[i] as int }

  /** The property names and the device type the searches look for. */
  lemma SearchedNames()
    ensures Spells(COMPATIBLE, "compatible") && Spells(DEVICE_TYPE, "device_type")
    ensures Spells(MEMORY, "memory") && Spells(PHANDLE, "phandle")
  {
  }

  // ----- byte order

  /** The big-endian bytes of a value, from the value's digits. */
  lemma EncodeBig(a: Byte, b: Byte, c: Byte, d: Byte)
    ensures Encode32(((a * 256 + b) * 256 + c) * 256 + d) == [a, b, c, d]
  {
    var w, z, y := a, a * 256 + b, (a * 256 + b) * 256 + c;
    var x := y * 256 + d;
    assert x / 256 == y && x % 256 == d && y / 256 == z && y % 256 == c && z / 256 == w && z % 256 == b;
    assert BytesOf(x, 4) == BytesOf(y, 3) + [d];
    assert BytesOf(y, 3) == BytesOf(z, 2) + [c];
    assert BytesOf(z, 2) == BytesOf(w, 1) + [b];
    assert BytesOf(w, 1) == BytesOf(0, 0) + [a];
  }

  /** Most significant byte first in memory, and what either host loads. */
  lemma ByteOrder()
    ensures Big32(0x12, 0x34, 0x56, 0x78) == 0x1234_5678
    ensures Load32(true, 0x12, 0x34, 0x56, 0x78) == 0x7856_3412 && Load32(false, 0x12, 0x34, 0x56, 0x78) == 0x1234_5678
    ensures Load64(true, 0x7856_3412, 0xf0de_bc9a) == 0xf0de_bc9a_7856_3412
    ensures Load64(false, 0x1234_5678, 0x9abc_def0) == 0x1234_5678_9abc_def0
  {
  }

  // ----- the tree

  function Memory(): NamedNode { NamedNode([109], 0, [NamedProp(DEVICE_TYPE, MEMORY + [0], 0)], [], 0) }

  function Inner(): NamedNode { NamedNode([98], 0, [NamedProp(PHANDLE, [0, 0, 0, 42], 0)], [], 0) }

  function Outer(): NamedNode { NamedNode([97], 0, [NamedProp(COMPATIBLE, [120, 0, 121, 0], 0)], [Inner()], 0) }

  /** A memory node "m", and a node "a" compatible with "x" and "y" around one "b" with phandle 42. */
  function Tree(): NamedNode { NamedNode([], 0, [], [Memory(), Outer()], 0) }

  function Tokens(): seq<Token> {
    [Begin([]), Begin([109]), Property(0, MEMORY + [0]), EndNode,
     Begin([97]), Property(12, [120, 0, 121, 0]), Begin([98]), Property(23, [0, 0, 0, 42]),
     EndNode, EndNode, EndNode, End]
  }

  lemma TokensOfTree()
    ensures BlockTokens(0, Offset(Tree(), 0)) == Tokens()
  {
    OffsetsOfTree();
    var m, b := Node([109], 0, [Prop(0, MEMORY + [0], 0)], [], 0), Node([98], 0, [Prop(23, [0, 0, 0, 42], 0)], [], 0);
    var a := Node([97], 0, [Prop(12, [120, 0, 121, 0], 0)], [b], 0);
    var tail: seq<Token> := [EndNode, End];
    LeafTokens(b, [EndNode] + tail);
    OneChildTokens(a, b, tail);
    LeafTokens(m, NodeThen(a, tail));
    TwoThen(m, a, tail);
    RootTokens(Node([], 0, [], [m, a], 0), tail);
  }

  lemma TwoThen(m: Node, a: Node, rest: seq<Token>)
    ensures ListThen([m, a], rest) == NodeThen(m, NodeThen(a, rest))
  {
    assert [m, a][1..] == [a] && [a][1..] == [];
    assert ListThen([a], rest) == NodeThen(a, ListThen([], rest));
  }

  lemma RootTokens(n: Node, tail: seq<Token>)
    requires n.nops == 0 && n.trail == 0 && n.props == [] && tail == [EndNode, End]
    ensures BlockTokens(0, n) == [Begin(n.name)] + ListThen(n.children, tail)
  {
    assert [EndNode] + NopsThen(0, [End]) == tail;
  }

  /** A node with one property and no children, as tokens. */
  lemma LeafTokens(n: Node, rest: seq<Token>)
    requires n.nops == 0 && n.trail == 0 && n.children == [] && |n.props| == 1 && n.props[0].nops == 0
    ensures NodeThen(n, rest) == [Begin(n.name), Property(n.props[0].nameOff, n.props[0].val), EndNode] + rest
  {
    assert n.props[1..] == [];
    assert PropsThen(n.props, [EndNode] + rest) == [Property(n.props[0].nameOff, n.props[0].val)] + ([EndNode] + rest);
  }

  lemma OneChildTokens(n: Node, c: Node, rest: seq<Token>)
    requires n.nops == 0 && n.trail == 0 && n.children == [c] && |n.props| == 1 && n.props[0].nops == 0
    ensures NodeThen(n, rest) ==
            [Begin(n.name), Property(n.props[0].nameOff, n.props[0].val)] + NodeThen(c, [EndNode] + rest)
  {
    assert n.props[1..] == [] && [c][1..] == [];
    var inner := NodeThen(c, [EndNode] + rest);
    assert ListThen([c], [EndNode] + rest) == inner;
    assert PropsThen(n.props, inner) == [Property(n.props[0].nameOff, n.props[0].val)] + inner;
  }

  lemma OffsetsOfTree()
    ensures var m := Node([109], 0, [Prop(0, MEMORY + [0], 0)], [], 0);
            var b := Node([98], 0, [Prop(23, [0, 0, 0, 42], 0)], [], 0);
            Offset(Tree(), 0) == Node([], 0, [], [m, Node([97], 0, [Prop(12, [120, 0, 121, 0], 0)], [b], 0)], 0)
    ensures Names(Tree()) == (DEVICE_TYPE + [0]) + ((COMPATIBLE + [0]) + (PHANDLE + [0]))
  {
    LeafOffsets(Memory(), 0);
    LeafOffsets(Inner(), 23);
    assert Outer().props[1..] == [] && [Inner()][1..] == [];
    assert PropNames(Outer().props) == COMPATIBLE + [0] + [];
    assert ListNames([Inner()]) == Names(Inner()) + [];
    assert OffsetProps(Outer().props, 12) == [Prop(12, [120, 0, 121, 0], 0)] + [];
    assert OffsetList([Inner()], 23) == [Offset(Inner(), 23)] + [];
    assert [Memory(), Outer()][1..] == [Outer()] && [Outer()][1..] == [];
    assert ListNames([Outer()]) == Names(Outer()) + [];
    assert ListNames([Memory(), Outer()]) == Names(Memory()) + ListNames([Outer()]);
    assert OffsetList([Outer()], 12) == [Offset(Outer(), 12)] + [];
    assert |Names(Memory())| == 12 && |PropNames(Outer().props)| == 11;
    assert Offset(Outer(), 12) == Node([97], 0, [Prop(12, [120, 0, 121, 0], 0)], [Offset(Inner(), 23)], 0);
    assert OffsetList([Memory(), Outer()], 0) == [Offset(Memory(), 0)] + OffsetList([Outer()], 12);
    assert PropNames([]) == [] && OffsetProps([], 0) == [];
    assert Names(Tree()) == [] + ListNames([Memory(), Outer()]);
  }

  lemma LeafOffsets(n: NamedNode, off: nat)
    requires n.children == [] && |n.props| == 1 && n.props[0].nops == 0
    ensures Offset(n, off) == Node(n.name, n.nops, [Prop(off, n.props[0].val, 0)], [], n.trail)
    ensures Names(n) == n.props[0].name + [0]
  {
    assert n.props[1..] == [];
    assert PropNames(n.props) == n.props[0].name + [0] + [];
    assert OffsetProps(n.props, off) == [Prop(off, n.props[0].val, 0)] + [];
  }

  // ----- the dump

  /** Magic number, total size, places of the blocks, versions, boot CPU, and sizes of two blocks. */
  function HeaderDump(): (bs: seq<Byte>)
    ensures |bs| == 40
  {
    [0xd0, 0x0d, 0xfe, 0xed, 0, 0, 0, 0xdf] + ([0, 0, 0, 0x48, 0, 0, 0, 0xb0] + ([0, 0, 0, 0x28, 0, 0, 0, 0x11] +
    ([0, 0, 0, 0x10, 0, 0, 0, 0] + [0, 0, 0, 0x1f, 0, 0, 0, 0x68])))
  }

  /** Two pages at 0x1000, and the terminator. */
  function ReservedDump(): (bs: seq<Byte>)
    ensures |bs| == 32
  {
    [0, 0, 0, 0, 0, 0, 0x10, 0, 0, 0, 0, 0, 0, 0, 0x20, 0, 0, 0, 0, 0, 0, 0, 0, 0, 0, 0, 0, 0, 0, 0, 0, 0]
  }

  /** Token by token, each on a line of its own. */
  function StructureDump(): (bs: seq<Byte>)
    ensures |bs| == 104
  {
    [0, 0, 0, 1, 0, 0, 0, 0] +
    ([0, 0, 0, 1, 0x6d, 0, 0, 0] +
    ([0, 0, 0, 3, 0, 0, 0, 7, 0, 0, 0, 0, 0x6d, 0x65, 0x6d, 0x6f, 0x72, 0x79, 0, 0] +
    ([0, 0, 0, 2] +
    ([0, 0, 0, 1, 0x61, 0, 0, 0] +
    ([0, 0, 0, 3, 0, 0, 0, 4, 0, 0, 0, 12, 0x78, 0, 0x79, 0] +
    ([0, 0, 0, 1, 0x62, 0, 0, 0] +
    ([0, 0, 0, 3, 0, 0, 0, 4, 0, 0, 0, 23, 0, 0, 0, 42] +
    ([0, 0, 0, 2] + ([0, 0, 0, 2] + ([0, 0, 0, 2] + [0, 0, 0, 9]))))))))))
  }

  function StringsDump(): (bs: seq<Byte>)
    ensures |bs| == 31
  {
    [100, 101, 118, 105, 99, 101, 95, 116, 121, 112, 101, 0] +
    ([99, 111, 109, 112, 97, 116, 105, 98, 108, 101, 0] + [112, 104, 97, 110, 100, 108, 101, 0])
  }

  function Dump(): seq<Byte> {
    HeaderDump() + (ReservedDump() + (StructureDump() + (StringsDump() + Zeros(16))))
  }

  lemma TagDump(t: Token)
    requires t == EndNode || t == Nop || t == End
    ensures TokenBytes(t) == match t case EndNode => [0, 0, 0, 2] case Nop => [0, 0, 0, 4] case _ => [0, 0, 0, 9]
  {
    EncodeBig(0, 0, 0, 2);
    EncodeBig(0, 0, 0, 4);
    EncodeBig(0, 0, 0, 9);
  }

  lemma BeginDump(name: seq<Byte>)
    requires |name| <= 1 && 0 !in name
    ensures TokenBytes(Begin(name)) == [0, 0, 0, 1, if name == [] then 0 else name[0], 0, 0, 0]
  {
    EncodeBig(0, 0, 0, 1);
    ZerosDump();
    assert name + [0] == if name == [] then [0] else [name[0], 0];
  }

  lemma ZerosDump()
    ensures Zeros(0) == [] && Zeros(1) == [0] && Zeros(2) == [0, 0] && Zeros(3) == [0, 0, 0]
  {
  }

  lemma CellDump(off: Byte, a: Byte, b: Byte, c: Byte, d: Byte)
    ensures TokenBytes(Property(off, [a, b, c, d])) == [0, 0, 0, 3, 0, 0, 0, 4, 0, 0, 0, off, a, b, c, d]
  {
    EncodeBig(0, 0, 0, 3);
    EncodeBig(0, 0, 0, 4);
    EncodeBig(0, 0, 0, off);
    ZerosDump();
  }

  lemma MemoryDump()
    ensures TokenBytes(Property(0, MEMORY + [0])) ==
            [0, 0, 0, 3, 0, 0, 0, 7, 0, 0, 0, 0, 0x6d, 0x65, 0x6d, 0x6f, 0x72, 0x79, 0, 0]
  {
    EncodeBig(0, 0, 0, 3);
    EncodeBig(0, 0, 0, 7);
    EncodeBig(0, 0, 0, 0);
    ZerosDump();
    assert MEMORY + [0] == [0x6d, 0x65, 0x6d, 0x6f, 0x72, 0x79, 0];
  }

  lemma SerialFront(t: Token, ts: seq<Token>, bytes: seq<Byte>, tail: seq<Byte>)
    requires Encodable(t) && TokenBytes(t) == bytes && AllEncodable(ts) && Serial(ts) == tail
    ensures AllEncodable([t] + ts) && Serial([t] + ts) == bytes + tail
  {
    assert ([t] + ts)[1..] == ts;
  }

  /** The END_NODE tokens and the END at the end. */
  lemma EndsDump() returns (ts: seq<Token>, bytes: seq<Byte>)
    ensures ts == [EndNode] + ([EndNode] + ([EndNode] + [End])) && AllEncodable(ts) && Serial(ts) == bytes
    ensures bytes == [0, 0, 0, 2] + ([0, 0, 0, 2] + ([0, 0, 0, 2] + [0, 0, 0, 9]))
  {
    TagDump(EndNode);
    TagDump(End);
    assert Serial([End]) == TokenBytes(End) + [];
    SerialFront(EndNode, [End], [0, 0, 0, 2], [0, 0, 0, 9]);
    SerialFront(EndNode, [EndNode] + [End], [0, 0, 0, 2], [0, 0, 0, 2] + [0, 0, 0, 9]);
    SerialFront(EndNode, [EndNode] + ([EndNode] + [End]), [0, 0, 0, 2], [0, 0, 0, 2] + ([0, 0, 0, 2] + [0, 0, 0, 9]));
    ts := [EndNode] + ([EndNode] + ([EndNode] + [End]));
    bytes := [0, 0, 0, 2] + ([0, 0, 0, 2] + ([0, 0, 0, 2] + [0, 0, 0, 9]));
  }

  /** The node "a" up to its inner node's property. */
  lemma OuterDump(ts: seq<Token>, bytes: seq<Byte>)
    requires AllEncodable(ts) && Serial(ts) == bytes
    ensures var all := [Begin([97])] + ([Property(12, [120, 0, 121, 0])] +
                       ([Begin([98])] + ([Property(23, [0, 0, 0, 42])] + ts)));
            AllEncodable(all) &&
            Serial(all) == [0, 0, 0, 1, 0x61, 0, 0, 0] +
                           ([0, 0, 0, 3, 0, 0, 0, 4, 0, 0, 0, 12, 0x78, 0, 0x79, 0] +
                           ([0, 0, 0, 1, 0x62, 0, 0, 0] +
                           ([0, 0, 0, 3, 0, 0, 0, 4, 0, 0, 0, 23, 0, 0, 0, 42] + bytes)))
  {
    CellDump(23, 0, 0, 0, 42);
    CellDump(12, 120, 0, 121, 0);
    BeginDump([98]);
    BeginDump([97]);
    var p3: seq<Byte> := [0, 0, 0, 3, 0, 0, 0, 4, 0, 0, 0, 23, 0, 0, 0, 42];
    var p1: seq<Byte> := [0, 0, 0, 3, 0, 0, 0, 4, 0, 0, 0, 12, 0x78, 0, 0x79, 0];
    SerialFront(Property(23, [0, 0, 0, 42]), ts, p3, bytes);
    var t2, b2 := [Property(23, [0, 0, 0, 42])] + ts, p3 + bytes;
    SerialFront(Begin([98]), t2, [0, 0, 0, 1, 0x62, 0, 0, 0], b2);
    var t1, b1 := [Begin([98])] + t2, [0, 0, 0, 1, 0x62, 0, 0, 0] + b2;
    SerialFront(Property(12, [120, 0, 121, 0]), t1, p1, b1);
    SerialFront(Begin([97]), [Property(12, [120, 0, 121, 0])] + t1, [0, 0, 0, 1, 0x61, 0, 0, 0], p1 + b1);
  }

  /** The root and the memory node in front. */
  lemma FrontDump(ts: seq<Token>, bytes: seq<Byte>)
    requires AllEncodable(ts) && Serial(ts) == bytes
    ensures var all := [Begin([])] + ([Begin([109])] + ([Property(0, MEMORY + [0])] + ([EndNode] + ts)));
            AllEncodable(all) &&
            Serial(all) == [0, 0, 0, 1, 0, 0, 0, 0] +
                           ([0, 0, 0, 1, 0x6d, 0, 0, 0] +
                           ([0, 0, 0, 3, 0, 0, 0, 7, 0, 0, 0, 0, 0x6d, 0x65, 0x6d, 0x6f, 0x72, 0x79, 0, 0] +
                           ([0, 0, 0, 2] + bytes)))
  {
    MemoryDump();
    BeginDump([109]);
    BeginDump([]);
    TagDump(EndNode);
    var p2: seq<Byte> := [0, 0, 0, 3, 0, 0, 0, 7, 0, 0, 0, 0, 0x6d, 0x65, 0x6d, 0x6f, 0x72, 0x79, 0, 0];
    SerialFront(EndNode, ts, [0, 0, 0, 2], bytes);
    var t3, b3 := [EndNode] + ts, [0, 0, 0, 2] + bytes;
    SerialFront(Property(0, MEMORY + [0]), t3, p2, b3);
    var t2, b2 := [Property(0, MEMORY + [0])] + t3, p2 + b3;
    SerialFront(Begin([109]), t2, [0, 0, 0, 1, 0x6d, 0, 0, 0], b2);
    SerialFront(Begin([]), [Begin([109])] + t2, [0, 0, 0, 1, 0, 0, 0, 0], [0, 0, 0, 1, 0x6d, 0, 0, 0] + b2);
  }

  /** Writing the tokens gives the structure block of the dump. */
  lemma TokensDump()
    ensures AllEncodable(Tokens()) && Serial(Tokens()) == StructureDump()
  {
    var t8, b8 := EndsDump();
    OuterDump(t8, b8);
    var t4 := [Begin([97])] + ([Property(12, [120, 0, 121, 0])] +
              ([Begin([98])] + ([Property(23, [0, 0, 0, 42])] + t8)));
    FrontDump(t4, Serial(t4));
    TokensInLine(t8, t4);
  }

  lemma TokensInLine(t8: seq<Token>, t4: seq<Token>)
    requires t8 == [EndNode] + ([EndNode] + ([EndNode] + [End]))
    requires t4 == [Begin([97])] + ([Property(12, [120, 0, 121, 0])] +
                   ([Begin([98])] + ([Property(23, [0, 0, 0, 42])] + t8)))
    ensures Tokens() == [Begin([])] + ([Begin([109])] + ([Property(0, MEMORY + [0])] + ([EndNode] + t4)))
  {
  }

  /** Writing the reservation gives the reservation block. */
  lemma EntriesDump()
    ensures AllStorable([Region(0x1000, 0x2000)]) && BlockBytes([Region(0x1000, 0x2000)]) == ReservedDump()
  {
    var r := Region(0x1000, 0x2000);
    EncodeBig(0, 0, 0, 0);
    EncodeBig(0, 0, 0x10, 0);
    EncodeBig(0, 0, 0x20, 0);
    assert [r][1..] == [];
    assert EntryBytes(r) == [0, 0, 0, 0, 0, 0, 0x10, 0] + [0, 0, 0, 0, 0, 0, 0x20, 0];
    assert EntryBytes(Region(0, 0)) == [0, 0, 0, 0, 0, 0, 0, 0] + [0, 0, 0, 0, 0, 0, 0, 0];
    assert BlockBytes([r]) == EntryBytes(r) + EntryBytes(Region(0, 0));
  }

  lemma NamesDump()
    ensures Names(Tree()) == StringsDump()
  {
    OffsetsOfTree();
  }

  // ----- reading it

  /** A blob with these bytes, on either host, as its header says. */
  ghost predicate IsDump(f: Fdt, little: bool) {
    f.mem == Dump() && f.ReadBy(little) && HeaderRead(f)
  }

  predicate HeaderWord(p: nat, d: Byte) {
    p <= 36 && var h := HeaderDump(); h[p] == 0 && h[p + 1] == 0 && h[p + 2] == 0 && h[p + 3] == d
  }

  lemma HeaderWords()
    ensures HeaderWord(4, 0xdf) && HeaderWord(8, 0x48) && HeaderWord(12, 0xb0) && HeaderWord(16, 0x28)
    ensures HeaderWord(32, 0x1f) && HeaderWord(36, 0x68)
  {
  }

  /** A small word of the header. */
  lemma WordOfDump(f: Fdt, little: bool, p: nat, d: Byte)
    requires IsDump(f, little)
    requires HeaderWord(p, d)
    ensures f.Be32(p) == d
  {
    HostReads(f, little, p);
    var h := f.mem[..40];
    assert h == HeaderDump();
    assert h[p] == f.mem[p] && h[p + 1] == f.mem[p + 1] && h[p + 2] == f.mem[p + 2] && h[p + 3] == f.mem[p + 3];
  }

  /** The words of the header that matter. */
  lemma HeaderOfDump(f: Fdt, little: bool)
    requires IsDump(f, little)
    ensures f.Be32(4) == 223 && f.Be32(8) == 72 && f.Be32(12) == 176 && f.Be32(16) == 40
    ensures f.Be32(32) == 31 && f.Be32(36) == 104
  {
    HeaderWords();
    WordOfDump(f, little, 4, 0xdf);
    WordOfDump(f, little, 8, 0x48);
    WordOfDump(f, little, 12, 0xb0);
    WordOfDump(f, little, 16, 0x28);
    WordOfDump(f, little, 32, 0x1f);
    WordOfDump(f, little, 36, 0x68);
  }

  /** It holds one reservation and the tree. */
  lemma DumpContains(f: Fdt, little: bool)
    requires IsDump(f, little)
    ensures Contains(f, little, ReservedDump(), StructureDump(), StringsDump())
  {
    HeaderOfDump(f, little);
    FiveParts(f.mem, HeaderDump(), ReservedDump(), StructureDump(), StringsDump(), Zeros(16));
    AllZeros(16);
  }

  /** What the dump says as a whole. */
  lemma DumpReads(f: Fdt, little: bool)
    requires IsDump(f, little)
    ensures ReadsAs(f, little, [Region(0x1000, 0x2000)], 0, Offset(Tree(), 0)) && f.structStart == 72
    ensures Keeps(f, Names(Tree())) && Encoded(f, BlockTokens(0, Offset(Tree(), 0)), 72) && f.Readable()
  {
    var root, rs := Offset(Tree(), 0), [Region(0x1000, 0x2000)];
    assert AllEncodable(BlockTokens(0, root)) && Serial(BlockTokens(0, root)) == StructureDump() by {
      TokensOfTree();
      TokensDump();
    }
    EntriesDump();
    NamesDump();
    DumpContains(f, little);
    TreeContained(f, little, rs, root, Names(Tree()));
  }

  lemma TreeContained(f: Fdt, little: bool, rs: seq<Region>, root: Node, strings: seq<Byte>)
    requires AllStorable(rs) && AllEncodable(BlockTokens(0, root))
    requires Contains(f, little, BlockBytes(rs), Serial(BlockTokens(0, root)), strings)
    ensures ReadsAs(f, little, rs, 0, root) && f.structStart == 40 + |BlockBytes(rs)|
    ensures Keeps(f, strings) && Encoded(f, BlockTokens(0, root), f.structStart)
  {
    ContainsReadsAs(f, little, rs, 0, root, strings);
    FlattenedIsEncoded(f, little, 0, root);
  }

  /** The sites of the tree. */
  lemma SitesOfTree(root: Node)
    requires root == Offset(Tree(), 0)
    ensures |root.children| == 2 && |root.children[1].children| == 1
    ensures var here := Site(72, root, []);
            var outer := Site(112, root.children[1], [here]);
            Sites(root, 72, []) ==
              [here, Site(80, root.children[0], [here]), outer, Site(136, root.children[1].children[0], [outer, here])]
  {
    OffsetsOfTree();
    FourSites(root, root.children[0], root.children[1], root.children[1].children[0]);
  }

  predicate HasOneProp(n: Node) { |n.props| == 1 && n.props[0].nops == 0 && n.nops == 0 }

  lemma FourSites(root: Node, m: Node, a: Node, b: Node)
    requires |root.name| == 0 && root.nops == 0 && root.props == [] && root.children == [m, a]
    requires HasOneProp(m) && |m.name| == 1 && |m.props[0].val| == 7 && m.children == [] && m.trail == 0
    requires HasOneProp(a) && |a.name| == 1 && |a.props[0].val| == 4 && a.children == [b]
    requires HasOneProp(b) && b.children == []
    ensures var here := Site(72, root, []);
            var outer := Site(112, a, [here]);
            Sites(root, 72, []) == [here, Site(80, m, [here]), outer, Site(136, b, [outer, here])]
  {
    var here := Site(72, root, []);
    var outer := Site(112, a, [here]);
    OneProp(m);
    OneProp(a);
    OneChildSites(a, b, 112, [here]);
    assert [here] + [] == [here] && [outer] + [here] == [outer, here];
    assert Sites(a, 112, [here]) == [outer, Site(136, b, [outer, here])];
    assert Sites(m, 80, [here]) == [Site(80, m, [here])] + [];
    assert [m, a][1..] == [a] && [a][1..] == [];
    assert ListSites([a], 112, [here]) == Sites(a, 112, [here]) + [];
    assert OpeningSize(root) == 8 && OpeningSize(m) == 28 && OpeningSize(a) == 24;
    assert NodeSize(m) == 32;
    assert ListSites([m, a], 80, [here]) == Sites(m, 80, [here]) + ListSites([a], 112, [here]);
    assert Sites(root, 72, []) == [here] + ListSites([m, a], 80, [here] + []);
  }

  lemma OneChildSites(a: Node, b: Node, off: nat, path: seq<Site>)
    requires a.children == [b] && b.children == []
    ensures var here := Site(off, a, path);
            Sites(a, off, path) == [here, Site(off + OpeningSize(a), b, [here] + path)]
  {
    var here := Site(off, a, path);
    var at := off + OpeningSize(a);
    assert Sites(b, at, [here] + path) == [Site(at, b, [here] + path)] + [];
    assert [b][1..] == [] && ListSites([b], at, [here] + path) == Sites(b, at, [here] + path) + [];
  }

  lemma OneProp(n: Node)
    requires HasOneProp(n)
    ensures OpeningSize(n) == 4 + 4 * Cells(|n.name| + 1) + 12 + 4 * Cells(|n.props[0].val|)
  {
    assert n.props[1..] == [] && PropsSize([]) == 0;
    assert PropsSize(n.props) == Size(Property(n.props[0].nameOff, n.props[0].val));
  }

  /** What the walk over the dump meets: places, depths, and ancestors closest first. */
  lemma DumpWalked(f: Fdt, little: bool)
    requires IsDump(f, little)
    ensures f.Readable()
    ensures Visits(f) == [Visit(72, 0, []), Visit(80, 1, [72]), Visit(112, 1, [72]), Visit(136, 2, [112, 72])]
    ensures PathTo(Visits(f), 136) == [112, 72] && MaxDepthOf(Visits(f)) == 2
    ensures EntriesFrom(f, 40, EntryBegin(f, 40)) == [Region(0x1000, 0x2000)]
  {
    var root := Offset(Tree(), 0);
    DumpReads(f, little);
    HeaderOfDump(f, little);
    SitesOfTree(root);
    var ss := Sites(root, 72, []);
    FourVisits(ss, ss[0], ss[1], ss[2], ss[3]);
    LiteralBranch(Visits(f));
  }

  lemma FourVisits(ss: seq<Site>, a: Site, b: Site, c: Site, d: Site)
    requires ss == [a, b, c, d] && a.path == [] && b.path == [a] && c.path == [a] && d.path == [c, a]
    requires a.pos == 72 && b.pos == 80 && c.pos == 112 && d.pos == 136
    ensures VisitsOf(ss) == [Visit(72, 0, []), Visit(80, 1, [72]), Visit(112, 1, [72]), Visit(136, 2, [112, 72])]
  {
    PositionsOfTwo(c, a);
    VisitsOfAt(ss, 0);
    VisitsOfAt(ss, 1);
    VisitsOfAt(ss, 2);
    VisitsOfAt(ss, 3);
  }

  lemma PositionsOfTwo(s: Site, t: Site)
    ensures Positions([t]) == [t.pos] && Positions([s, t]) == [s.pos, t.pos]
  {
    assert [t][1..] == [] && [s, t][1..] == [t];
  }

  lemma LiteralBranch(vs: seq<Visit>)
    requires vs == [Visit(72, 0, []), Visit(80, 1, [72]), Visit(112, 1, [72]), Visit(136, 2, [112, 72])]
    ensures PathTo(vs, 136) == [112, 72] && MaxDepthOf(vs) == 2
  {
    SearchStopsAt(vs, 136, 3);
    assert vs[3].depth == 2;
  }

  /** Four nodes where they are in the dump, and the values they have under that name. */
  predicate Values(f: Fdt, ss: seq<Site>, name: seq<Byte>,
                   v1: Option<seq<Byte>>, v2: Option<seq<Byte>>, v3: Option<seq<Byte>>)
    requires f.Readable()
  {
    && |ss| == 4 && ss[1].pos == 80 && ss[2].pos == 112 && ss[3].pos == 136
    && ValueIn(f, ss[0].node.props, name) == None && ValueIn(f, ss[1].node.props, name) == v1
    && ValueIn(f, ss[2].node.props, name) == v2 && ValueIn(f, ss[3].node.props, name) == v3
  }

  lemma OneValue(f: Fdt, strings: seq<Byte>, off: nat, np: NamedProp, ps: seq<Prop>, name: seq<Byte>)
    requires Keeps(f, strings) && 0 !in np.name && PartAt(strings, off, np.name + [0]) && ps == [Prop(off, np.val, 0)]
    ensures ValueIn(f, ps, name) == if name == np.name then Some(np.val) else None
  {
    NameWritten(strings, off, np.name);
    NameRead(f, strings, off, np.name);
    assert ps[1..] == [];
  }

  lemma NamesPlaced()
    ensures NamesAt(Names(Tree()))
  {
    OffsetsOfTree();
  }

  /** The sites of the dump and their property values, by name. */
  lemma ValuesOfDump(f: Fdt, little: bool) returns (root: Node, ss: seq<Site>)
    requires IsDump(f, little)
    ensures HoldsTree(f, root, ss)
    ensures Values(f, ss, DEVICE_TYPE, Some(MEMORY + [0]), None, None)
    ensures Values(f, ss, COMPATIBLE, None, Some([120, 0, 121, 0]), None)
    ensures Values(f, ss, PHANDLE, None, None, Some([0, 0, 0, 42]))
  {
    var strings;
    root, ss, strings := TreeOfDump(f, little);
    AllValuesAt(f, strings, ss);
  }

  lemma TreeOfDump(f: Fdt, little: bool) returns (root: Node, ss: seq<Site>, strings: seq<Byte>)
    requires IsDump(f, little)
    ensures HoldsTree(f, root, ss) && PropsAt(ss) && Keeps(f, strings) && NamesAt(strings)
  {
    DumpReads(f, little);
    root, strings := Offset(Tree(), 0), Names(Tree());
    ss := Sites(root, 72, []);
    NamesPlaced();
    PropsPlaced(root, ss);
  }

  lemma PropsPlaced(root: Node, ss: seq<Site>)
    requires root == Offset(Tree(), 0) && ss == Sites(root, 72, [])
    ensures PropsAt(ss)
  {
    SitesOfTree(root);
    PropsOfTree(root);
  }

  lemma AllValuesAt(f: Fdt, strings: seq<Byte>, ss: seq<Site>)
    requires Keeps(f, strings) && NamesAt(strings) && PropsAt(ss)
    ensures Values(f, ss, DEVICE_TYPE, Some(MEMORY + [0]), None, None)
    ensures Values(f, ss, COMPATIBLE, None, Some([120, 0, 121, 0]), None)
    ensures Values(f, ss, PHANDLE, None, None, Some([0, 0, 0, 42]))
  {
    SearchedNames();
    ValuesAt(f, strings, ss, DEVICE_TYPE);
    ValuesAt(f, strings, ss, COMPATIBLE);
    ValuesAt(f, strings, ss, PHANDLE);
  }

  predicate NamesAt(s: seq<Byte>) {
    PartAt(s, 0, DEVICE_TYPE + [0]) && PartAt(s, 12, COMPATIBLE + [0]) && PartAt(s, 23, PHANDLE + [0])
  }

  predicate PropsAt(ss: seq<Site>) {
    && |ss| == 4 && ss[1].pos == 80 && ss[2].pos == 112 && ss[3].pos == 136
    && ss[0].node.props == [] && ss[1].node.props == [Prop(0, MEMORY + [0], 0)]
    && ss[2].node.props == [Prop(12, [120, 0, 121, 0], 0)] && ss[3].node.props == [Prop(23, [0, 0, 0, 42], 0)]
  }

  lemma PropsOfTree(root: Node)
    requires root == Offset(Tree(), 0)
    ensures |root.children| == 2 && |root.children[1].children| == 1 && root.props == []
    ensures root.children[0].props == [Prop(0, MEMORY + [0], 0)]
    ensures root.children[1].props == [Prop(12, [120, 0, 121, 0], 0)]
    ensures root.children[1].children[0].props == [Prop(23, [0, 0, 0, 42], 0)]
  {
    OffsetsOfTree();
  }

  lemma ValuesAt(f: Fdt, strings: seq<Byte>, ss: seq<Site>, name: seq<Byte>)
    requires Keeps(f, strings) && NamesAt(strings) && PropsAt(ss)
    ensures Values(f, ss, name, if name == DEVICE_TYPE then Some(MEMORY + [0]) else None,
                   if name == COMPATIBLE then Some([120, 0, 121, 0]) else None,
                   if name == PHANDLE then Some([0, 0, 0, 42]) else None)
  {
    OneValue(f, strings, 0, NamedProp(DEVICE_TYPE, MEMORY + [0], 0), ss[1].node.props, name);
    OneValue(f, strings, 12, NamedProp(COMPATIBLE, [120, 0, 121, 0], 0), ss[2].node.props, name);
    OneValue(f, strings, 23, NamedProp(PHANDLE, [0, 0, 0, 42], 0), ss[3].node.props, name);
  }

  /** What the searches find in the dump. */
  lemma DumpSearched(f: Fdt, little: bool)
    requires IsDump(f, little)
    ensures f.Readable() && AllSound(f, Visits(f), DEVICE_TYPE) && AllSound(f, Visits(f), COMPATIBLE)
    ensures Typed(f, Visits(f), MEMORY) == [80]
    ensures SearchPhandle(f, Visits(f), 42) == Here(136)
    ensures SearchCompatible(f, Visits(f), [121]) == At(112) && SearchCompatible(f, Visits(f), [122]) == NoMore
  {
    var root, ss := ValuesOfDump(f, little);
    TypedInDump(f, root, ss);
    PhandleInDump(f, little, root, ss);
    CompatibleInDump(f, root, ss, [121]);
    CompatibleInDump(f, root, ss, [122]);
  }

  lemma Tails<T>(ss: seq<T>)
    requires |ss| == 4
    ensures ss[1..][0] == ss[1] && ss[1..][1..] == ss[2..] && ss[2..][0] == ss[2] && ss[2..][1..] == ss[3..]
    ensures ss[3..][0] == ss[3] && ss[3..][1..] == []
  {
  }

  /** The blob holds this tree from position 72 on, and its sites are these. */
  ghost predicate HoldsTree(f: Fdt, root: Node, ss: seq<Site>) {
    Encoded(f, BlockTokens(0, root), 72) && f.structStart == 72 && f.Readable() && ss == Sites(root, 72, [])
  }

  lemma TypedInDump(f: Fdt, root: Node, ss: seq<Site>)
    requires HoldsTree(f, root, ss) && Values(f, ss, DEVICE_TYPE, Some(MEMORY + [0]), None, None)
    ensures AllSound(f, Visits(f), DEVICE_TYPE) && Typed(f, Visits(f), MEMORY) == [80]
  {
    TypedInTree(f, 0, root, MEMORY);
    TypedFour(f, ss);
  }

  lemma TypedFour(f: Fdt, ss: seq<Site>)
    requires f.Readable() && Values(f, ss, DEVICE_TYPE, Some(MEMORY + [0]), None, None)
    ensures TypedSites(f, ss, MEMORY) == [80]
  {
    Tails(ss);
    assert TypedSites(f, [], MEMORY) == [];
    assert TypedSites(f, ss[3..], MEMORY) == [] + [];
    assert TypedSites(f, ss[2..], MEMORY) == [] + [];
    assert TypedSites(f, ss[1..], MEMORY) == [80] + [];
  }

  lemma PhandleInDump(f: Fdt, little: bool, root: Node, ss: seq<Site>)
    requires HoldsTree(f, root, ss) && Values(f, ss, PHANDLE, None, None, Some([0, 0, 0, 42])) && f.ReadBy(little)
    ensures SearchPhandle(f, Visits(f), 42) == Here(136)
  {
    PhandleFour(f, ss);
    PhandleInTree(f, little, 0, root, 42, 136);
    assert f.structStart + 4 * 0 == 72 && FirstWith(f, ss, 42, 3) && ss[3].pos == 136;
  }

  lemma PhandleFour(f: Fdt, ss: seq<Site>)
    requires f.Readable() && Values(f, ss, PHANDLE, None, None, Some([0, 0, 0, 42]))
    ensures FirstWith(f, ss, 42, 3)
  {
    assert Big32(0, 0, 0, 42) == 42;
  }

  lemma CompatibleInDump(f: Fdt, root: Node, ss: seq<Site>, compat: seq<Byte>)
    requires HoldsTree(f, root, ss) && Values(f, ss, COMPATIBLE, None, Some([120, 0, 121, 0]), None)
    ensures AllSound(f, Visits(f), COMPATIBLE)
    ensures SearchCompatible(f, Visits(f), compat) == if compat == [120] || compat == [121] then At(112) else NoMore
  {
    CompatibleFour(f, ss, compat);
    CompatibleInTree(f, 0, root, compat);
  }

  lemma CompatibleFour(f: Fdt, ss: seq<Site>, compat: seq<Byte>)
    requires f.Readable() && Values(f, ss, COMPATIBLE, None, Some([120, 0, 121, 0]), None)
    ensures AllEnded(f, ss)
    ensures CompatibleSites(f, ss, compat) == if compat == [120] || compat == [121] then [112] else []
  {
    Tails(ss);
    TwoStrings();
    assert AllEnded(f, []) && AllEnded(f, ss[3..]) && AllEnded(f, ss[2..]) && AllEnded(f, ss[1..]);
    assert CompatibleSites(f, [], compat) == [];
    assert CompatibleSites(f, ss[3..], compat) == [] + [];
    var hit := compat == [120] || compat == [121];
    assert hit <==> compat in CompatibleStrings(f, ss[2].node);
    assert CompatibleSites(f, ss[2..], compat) == (if hit then [112] else []) + [];
    assert CompatibleSites(f, ss[1..], compat) == [] + CompatibleSites(f, ss[2..], compat);
  }

  lemma TwoStrings()
    ensures Strings([120, 0, 121, 0]) == [[120], [121]]
  {
    var v: seq<Byte> := [120, 0, 121, 0];
    OneStringFirst(v, 120, [121, 0]);
    OneStringFirst([121, 0], 121, []);
    assert [121, 0] == [121, 0] + [] && v == [120, 0] + [121, 0] && Strings([]) == [];
  }

  lemma OneStringFirst(v: seq<Byte>, b: Byte, rest: seq<Byte>)
    requires b != 0 && v == [b, 0] + rest
    ensures Strings(v) == [[b]] + Strings(rest)
  {
    assert v[1..][0] == 0 && FirstZero(v[1..]) == 0 && FirstZero(v) == 1;
    assert v[..1] == [b] && v[2..] == rest;
  }
}
