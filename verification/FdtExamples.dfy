/**
  Blobs, byte for byte, on which the walkers depart from what they promise: a malformed phandle,
  a "compatible" value without its NUL, and a pointer that is no node.
 */
module FdtExamples {
  import opened Endian
  import opened FdtBlob
  import opened FdtTree
  import opened FdtWalk
  import opened FdtSites
  import opened FdtProps
  import opened FdtMeaning
  import opened FdtSearch
  import opened FdtDevices
  import opened FdtReserve
  import opened FdtImage

  // ----- a root with a single property

  function Root(val: seq<Byte>): Node { Node([], 0, [Prop(0, val, 0)], [], 0) }

  lemma RootTokens(val: seq<Byte>)
    ensures BlockTokens(0, Root(val)) == [Begin([]), Property(0, val), EndNode, End]
  {
    var n := Root(val);
    assert ListThen(n.children, [EndNode] + NopsThen(0, [End])) == [EndNode, End];
    assert n.props[1..] == [];
    assert PropsThen(n.props, [EndNode, End]) == [Property(0, val)] + [EndNode, End];
  }

  lemma RootFits(val: seq<Byte>)
    requires |val| < 0x1000
    ensures var ts := BlockTokens(0, Root(val));
            AllEncodable(ts) && |Serial(ts)| == 28 + 4 * Cells(|val|) && |BlockBytes([])| == 16
  {
    RootTokens(val);
    var ts := BlockTokens(0, Root(val));
    assert ts[3..] == [End] + [] && ts[2..] == [EndNode] + ts[3..];
    assert ts[1..] == [Property(0, val)] + ts[2..] && ts == [Begin([])] + ts[1..];
    SerialCons(End, []);
    SerialCons(EndNode, ts[3..]);
    SerialCons(Property(0, val), ts[2..]);
    SerialCons(Begin([]), ts[1..]);
  }

  /** A blob whose root, at 56, has the one property of that name and value. */
  ghost predicate HasOnly(f: Fdt, little: bool, name: seq<Byte>, val: seq<Byte>) {
    && Flattened(f, little, 0, Root(val)) && f.Readable() && f.structStart == 56
    && Visits(f) == [Visit(56, 0, [])] && NameAt(f, 0) == Some(name)
    && f.stringsStart == f.structEnd && f.stringsSize == |name| + 1 && ZerosBehind(f)
    && f.mem[f.stringsStart..f.stringsStart + f.stringsSize] == name + [0]
  }

  lemma RootImage(name: seq<Byte>, val: seq<Byte>, little: bool) returns (f: Fdt)
    requires 0 !in name && |name| < 0x1000 && |val| < 0x1000
    ensures HasOnly(f, little, name, val)
  {
    var ts := BlockTokens(0, Root(val));
    RootFits(val);
    f := Image(BlockBytes([]), Serial(ts), name + [0]);
    ImageContains(BlockBytes([]), Serial(ts), name + [0], little);
    RootHasOnly(f, name, val, little);
  }

  lemma RootHasOnly(f: Fdt, name: seq<Byte>, val: seq<Byte>, little: bool)
    requires 0 !in name && AllEncodable(BlockTokens(0, Root(val))) && |BlockBytes([])| == 16
    requires Contains(f, little, BlockBytes([]), Serial(BlockTokens(0, Root(val))), name + [0])
    ensures HasOnly(f, little, name, val)
  {
    ContainsReadsAs(f, little, [], 0, Root(val), name + [0]);
    RootVisits(val);
    FirstName(f, name);
  }

  lemma RootVisits(val: seq<Byte>)
    ensures VisitsOf(Sites(Root(val), 56, [])) == [Visit(56, 0, [])]
  {
    var here := Site(56, Root(val), []);
    assert Sites(Root(val), 56, []) == [here] + [];
    assert [here][1..] == [] && Positions([]) == [];
  }

  lemma FirstName(f: Fdt, name: seq<Byte>)
    requires f.Readable() && 0 !in name && f.stringsSize == |name| + 1
    requires f.mem[f.stringsStart..f.stringsStart + f.stringsSize] == name + [0]
    ensures NameAt(f, 0) == Some(name)
  {
    var s := f.mem[f.stringsStart..f.stringsStart + f.stringsSize];
    assert s[..|name|] == name && s[|name|] == 0;
    assert f.mem[f.stringsStart..f.stringsStart + |name|] == s[..|name|];
    StringAt(f.mem, f.stringsStart, name);
  }

  /** Looking the property up in such a blob gives its value. */
  lemma RootValue(f: Fdt, little: bool, name: seq<Byte>, val: seq<Byte>)
    requires HasOnly(f, little, name, val)
    ensures AllSound(f, Visits(f), name) && PropOf(f, 56, name) == Some(64)
    ensures ValueInMemory(f, 64) && Value(f, 64) == val
  {
    var root := Root(val);
    assert Encoded(f, BlockTokens(0, root), 56) by { FlattenedIsEncoded(f, little, 0, root); }
    assert AllSound(f, Visits(f), name) by { TreesAreSound(f, 0, root, name); }
    RootPlaced(f, root, name, val);
  }

  lemma RootPlaced(f: Fdt, root: Node, name: seq<Byte>, val: seq<Byte>)
    requires root == Root(val) && f.Readable() && Encoded(f, BlockTokens(0, root), 56) && NameAt(f, 0) == Some(name)
    ensures PropOf(f, 56, name) == Some(64) && ValueInMemory(f, 64) && Value(f, 64) == val
  {
    assert Placed(f, root, 56) by { assert PlacedBefore(f, root, 56, [End]); }
    assert Lookup(f, Site(56, root, []), name) == Some(64);
    PropIsLookup(f, Site(56, root, []), name);
    PropCarries(f, root, 56, name);
  }

  // ----- a phandle that is not one cell

  /** A root with an empty "phandle": looking for any phandle at all hangs. */
  lemma EmptyPhandleHangs(little: bool) returns (f: Fdt)
    ensures HasOnly(f, little, PHANDLE, []) && AllCellSound(f, Visits(f))
    ensures forall phandle: nat :: SearchPhandle(f, Visits(f), phandle) == Hangs
  {
    f := RootImage(PHANDLE, [], little);
    RootValue(f, little, PHANDLE, []);
    SoundCells(f, Visits(f));
    assert f.Be32(64 + 4) == 0;
    assert Malformed(f, 56);
  }

  // ----- a value without its NUL

  /** The bytes of the property token, with the padding of its value. */
  lemma RootBytes(f: Fdt, little: bool, val: seq<Byte>)
    requires Flattened(f, little, 0, Root(val)) && f.structStart == 56
    ensures Written(f, Property(0, val), 64)
  {
    RootTokens(val);
    TokenStored(f, BlockTokens(0, Root(val)), val);
  }

  lemma TokenStored(f: Fdt, ts: seq<Token>, val: seq<Byte>)
    requires Stores(f, ts, 56) && |ts| > 1 && ts[0] == Begin([]) && ts[1] == Property(0, val)
    ensures Written(f, Property(0, val), 64)
  {
    SecondStored(f, ts, 56);
  }

  lemma SecondStored(f: Fdt, ts: seq<Token>, p: nat)
    requires Stores(f, ts, p) && |ts| > 1
    ensures Written(f, ts[1], p + Size(ts[0]))
  {
    SerialIsLaid(f, ts, p);
    SecondLaid(f, ts, p);
  }

  lemma SecondLaid(f: Fdt, ts: seq<Token>, p: nat)
    requires |ts| > 1 && Laid(f, ts, p)
    ensures Written(f, ts[1], p + Size(ts[0]))
  {
    var q, rest := p + Size(ts[0]), ts[1..];
    assert Laid(f, rest, q) by { LaidHead(f, ts, p); }
    LaidHead(f, rest, q);
    assert rest[0] == ts[1];
  }

  lemma PaddedByte(f: Fdt, b: Byte)
    requires Written(f, Property(0, [b]), 64)
    ensures f.mem[76] == b && f.mem[77] == 0 && f.mem[78] == 0 && f.mem[79] == 0
  {
    var bs := TokenBytes(Property(0, [b]));
    assert bs == Encode32(PROP) + (Encode32(1) + Encode32(0) + Padded([b]));
    assert Padded([b]) == [b] + Zeros(3) && Zeros(3) == [0, 0, 0];
    assert bs[12] == b && bs[13] == 0 && bs[14] == 0 && bs[15] == 0;
    assert f.mem[64..80][12] == f.mem[76] && f.mem[64..80][13] == f.mem[77];
    assert f.mem[64..80][14] == f.mem[78] && f.mem[64..80][15] == f.mem[79];
  }

  /** A root whose "compatible" value is one byte, not NUL, with NULs behind it. */
  predicate OneByte(f: Fdt) {
    && f.Readable() && Visits(f) == [Visit(56, 0, [])] && AllSound(f, Visits(f), COMPATIBLE)
    && |f.mem| > 80 && PropOf(f, 56, COMPATIBLE) == Some(64) && f.Be32(68) == 1
    && f.mem[76] != 0 && f.mem[77] == 0 && f.mem[78] == 0
  }

  lemma RootOneByte(f: Fdt, little: bool)
    requires HasOnly(f, little, COMPATIBLE, [0x61])
    ensures OneByte(f)
  {
    assert AllSound(f, Visits(f), COMPATIBLE) && PropOf(f, 56, COMPATIBLE) == Some(64) && f.Be32(68) == 1 by {
      RootValue(f, little, COMPATIBLE, [0x61]);
    }
    RootBytes(f, little, [0x61]);
    PaddedByte(f, 0x61);
  }

  lemma SearchOne(f: Fdt, compat: seq<Byte>)
    requires OneByte(f)
    ensures SearchCompatible(f, Visits(f), compat) ==
              match Compare(f.mem, 76, 1, compat)
              case Yes => At(56) case Stray => At(56) case Overrun => Overruns(56) case No => NoMore
  {
    assert Visits(f)[1..] == [];
    assert Compatible(f, 56, compat) == Compare(f.mem, 76, 1, compat);
  }

  /**
    A root whose "compatible" value is the one byte 'a': searching for "" returns that node for
    what stands behind the value, and searching for "b" leaves memory.
   */
  lemma UnterminatedStrays(little: bool) returns (f: Fdt)
    ensures HasOnly(f, little, COMPATIBLE, [0x61]) && OneByte(f)
    ensures SearchCompatible(f, Visits(f), []) == At(56) && !HasString(f.mem, 76, 1, [])
    ensures SearchCompatible(f, Visits(f), [0x62]) == Overruns(56)
    ensures forall compat: seq<Byte> :: |compat| >= |f.mem| ==> SearchCompatible(f, Visits(f), compat) == Overruns(56)
  {
    f := RootImage(COMPATIBLE, [0x61], little);
    RootOneByte(f, little);
    ByteSearches(f);
    assert NoLoneB(f.mem, 76) by { TailBytes(f, little); }
    SearchOne(f, [0x62]);
    LoneBMissing(f.mem, 76);
  }

  /** No 'b' with a NUL behind it from `p` on. */
  predicate NoLoneB(mem: seq<Byte>, p: nat) {
    forall q :: p <= q < |mem| - 1 && mem[q] == 0x62 ==> mem[q + 1] != 0
  }

  lemma OneCharacter(mem: seq<Byte>, q: nat, c: Byte)
    requires q < |mem| && mem[|mem| - 1] == 0
    ensures CString(mem, q) == [c] ==> mem[q] == c && q + 1 < |mem| && mem[q + 1] == 0
  {
    FirstNul(mem, q);
    if CString(mem, q) == [c] { assert StrLen(mem, q) == 1 && CString(mem, q)[0] == mem[q]; }
  }

  lemma LoneBMissing(mem: seq<Byte>, p: nat)
    requires p + 3 <= |mem| && mem[|mem| - 1] == 0 && mem[p] != 0 && NoLoneB(mem, p)
    ensures Compare(mem, p, 1, [0x62]) == Overrun
  {
    forall q: nat | p <= q < |mem| ensures !StringFrom(mem, p, q, [0x62]) {
      OneCharacter(mem, q, 0x62);
    }
    OverrunExactly(mem, p, 1, [0x62]);
  }

  /** The bytes from the value on: two more tokens, the name "compatible", and zeros. */
  lemma TailBytes(f: Fdt, little: bool)
    requires HasOnly(f, little, COMPATIBLE, [0x61])
    ensures NoLoneB(f.mem, 76)
  {
    assert f.mem[76] == 0x61 && f.mem[77] == 0 && f.mem[78] == 0 && f.mem[79] == 0 by {
      RootBytes(f, little, [0x61]);
      PaddedByte(f, 0x61);
    }
    EndBytes(f, little, [0x61]);
    NameBytes(f.mem, 88);
    FourParts(f.mem);
  }

  lemma FourParts(mem: seq<Byte>)
    requires |mem| == 115 && mem[76] == 0x61 && mem[77] == 0 && mem[78] == 0 && mem[79] == 0
    requires forall q :: 80 <= q < 88 ==> mem[q] != 0x62
    requires forall q :: 88 <= q < 99 && mem[q] == 0x62 ==> mem[q + 1] != 0
    requires forall q :: 99 <= q < 115 ==> mem[q] == 0
    ensures NoLoneB(mem, 76)
  {
  }

  /** In "compatible" an 'l' follows the 'b'. */
  lemma NameBytes(mem: seq<Byte>, p: nat)
    requires p + 11 <= |mem| && mem[p..p + 11] == COMPATIBLE + [0]
    ensures forall q :: p <= q < p + 11 && mem[q] == 0x62 ==> mem[q + 1] != 0
  {
    var s := mem[p..p + 11];
    forall q | p <= q < p + 11 && mem[q] == 0x62 ensures q + 1 < |mem| && mem[q + 1] != 0 {
      assert s[q - p] == mem[q] && s[8] == mem[p + 8];
      assert q == p + 7;
    }
  }

  lemma EndBytes(f: Fdt, little: bool, val: seq<Byte>)
    requires Flattened(f, little, 0, Root(val)) && f.structStart == 56 && |val| == 1
    ensures f.structEnd == 88 && forall q :: 80 <= q < 88 ==> f.mem[q] != 0x62
  {
    RootTokens(val);
    var ts := BlockTokens(0, Root(val));
    assert Laid(f, ts, 56) by { SerialIsLaid(f, ts, 56); }
    LastLaid(f, ts, 56);
  }

  lemma LastLaid(f: Fdt, ts: seq<Token>, p: nat)
    requires |ts| == 4 && ts[2] == EndNode && ts[3] == End && Laid(f, ts, p) && Size(ts[0]) + Size(ts[1]) == 24
    ensures f.structEnd == p + 32 && forall q :: p + 24 <= q < p + 32 ==> f.mem[q] != 0x62
  {
    LaidHead(f, ts, p);
    LaidHead(f, ts[1..], p + Size(ts[0]));
    assert ts[1..][1..] == ts[2..] && ts[2..][1..] == ts[3..] && ts[3..][1..] == [];
    LaidHead(f, ts[2..], p + 24);
    LaidHead(f, ts[3..], p + 28);
    TagBytes(f, EndNode, p + 24);
    TagBytes(f, End, p + 28);
  }

  lemma TagBytes(f: Fdt, t: Token, p: nat)
    requires Written(f, t, p) && (t == EndNode || t == End)
    ensures forall q :: p <= q < p + 4 ==> f.mem[q] != 0x62
  {
    assert Encode32(2) == [0, 0, 0, 2] && Encode32(9) == [0, 0, 0, 9];
    var bs := TokenBytes(t);
    assert bs == Encode32(TagOf(t));
    forall q | p <= q < p + 4 ensures f.mem[q] != 0x62 {
      assert f.mem[p..p + 4][q - p] == f.mem[q];
    }
  }

  lemma ByteSearches(f: Fdt)
    requires OneByte(f)
    ensures SearchCompatible(f, Visits(f), []) == At(56) && !HasString(f.mem, 76, 1, [])
    ensures forall compat: seq<Byte> :: |compat| >= |f.mem| ==> SearchCompatible(f, Visits(f), compat) == Overruns(56)
  {
    SearchOne(f, []);
    StrayAtByte(f.mem, 76);
    forall compat: seq<Byte> | |compat| >= |f.mem| ensures SearchCompatible(f, Visits(f), compat) == Overruns(56) {
      SearchOne(f, compat);
      OverrunExactly(f.mem, 76, 1, compat);
    }
  }

  lemma StrayAtByte(mem: seq<Byte>, p: nat)
    requires p + 3 <= |mem| && mem[|mem| - 1] == 0 && mem[p] != 0 && mem[p + 1] == 0 && mem[p + 2] == 0
    ensures Compare(mem, p, 1, []) == Stray && !HasString(mem, p, 1, [])
  {
    assert StrLen(mem, p + 2) == 0 && StrLen(mem, p + 1) == 0;
    assert StrLen(mem, p) == 1;
    assert |CString(mem, p)| == 1 && CString(mem, p + 2) == [];
    OverrunExactly(mem, p, 1, []);
  }

  // ----- a pointer that is no node

  function Leaf(): Node { Node([], 0, [], [], 0) }

  function Pair(): Node { Node([], 0, [], [Leaf()], 0) }

  lemma PairTokens()
    ensures BlockTokens(0, Pair()) == [Begin([]), Begin([]), EndNode, EndNode, End]
  {
    var closing := [EndNode] + NopsThen(0, [End]);
    assert closing == [EndNode, End];
    assert ListThen([], [EndNode] + NopsThen(0, closing)) == [EndNode, EndNode, End];
    assert NodeThen(Leaf(), closing) == [Begin([])] + [EndNode, EndNode, End];
    assert [Leaf()][1..] == [] && ListThen([Leaf()], closing) == NodeThen(Leaf(), ListThen([], closing));
  }

  lemma PairFits()
    ensures var ts := BlockTokens(0, Pair()); AllEncodable(ts) && |Serial(ts)| == 28 && |BlockBytes([])| == 16
  {
    PairTokens();
    var ts := BlockTokens(0, Pair());
    assert ts[4..] == [End] + [] && ts[3..] == [EndNode] + ts[4..] && ts[2..] == [EndNode] + ts[3..];
    assert ts[1..] == [Begin([])] + ts[2..] && ts == [Begin([])] + ts[1..];
    SerialCons(End, []);
    SerialCons(EndNode, ts[4..]);
    SerialCons(EndNode, ts[3..]);
    SerialCons(Begin([]), ts[2..]);
    SerialCons(Begin([]), ts[1..]);
  }

  lemma PairVisits()
    ensures VisitsOf(Sites(Pair(), 56, [])) == [Visit(56, 0, []), Visit(64, 1, [56])]
  {
    var here := Site(56, Pair(), []);
    var leaf := Site(64, Leaf(), [here]);
    assert OpeningSize(Pair()) == 8 && Pair().children[1..] == [];
    assert [here] + [] == [here] && Leaf().children == [];
    assert ListSites([], 64 + OpeningSize(Leaf()), [leaf] + [here]) == [];
    assert Sites(Leaf(), 64, [here]) == [leaf] + [];
    assert ListSites(Pair().children, 64, [here]) == [leaf] + [];
    assert Sites(Pair(), 56, []) == [here, leaf];
    assert [here, leaf][1..] == [leaf] && [leaf][1..] == [] && [here][1..] == [];
    assert Positions([]) == [] && Positions([here]) == [56];
  }

  /** A root with one child, and a pointer past both: it gets the child's parent. */
  lemma OutsideNodeHasParents(little: bool) returns (f: Fdt)
    ensures Flattened(f, little, 0, Pair()) && f.Readable()
    ensures Visits(f) == [Visit(56, 0, []), Visit(64, 1, [56])]
    ensures PathTo(Visits(f), 100) == [56] && Target(Visits(f), 100).pos != 100
  {
    var ts := BlockTokens(0, Pair());
    PairFits();
    f := Image(BlockBytes([]), Serial(ts), []);
    assert Contains(f, little, BlockBytes([]), Serial(ts), []) by {
      ImageContains(BlockBytes([]), Serial(ts), [], little);
    }
    ContainsReadsAs(f, little, [], 0, Pair(), []);
    PairVisits();
    PairOutside(Visits(f));
  }

  lemma PairOutside(vs: seq<Visit>)
    requires vs == [Visit(56, 0, []), Visit(64, 1, [56])]
    ensures PathTo(vs, 100) == [56] && Target(vs, 100).pos != 100
  {
    assert vs[1..] == [Visit(64, 1, [56])];
    assert Target(vs, 100) == Target(vs[1..], 100) == Visit(64, 1, [56]);
  }
}
