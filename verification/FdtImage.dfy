/**
  Whole device tree images, byte for byte: header, reservation block, structure block and
  strings block.  Every tree and every list of reservations has one, and there are readable
  images whose tokens are not those of a tree.
 */
module FdtImage {
  import opened Endian
  import opened Regions
  import opened FdtBlob
  import opened FdtTree
  import opened FdtWalk
  import opened FdtSites
  import opened FdtMeaning
  import opened FdtReserve

  const MAGIC: nat := 0xd00d_feed

  predicate AllWords(ws: seq<nat>) { forall i :: 0 <= i < |ws| ==> ws[i] < P32 }

  function WordBytes(ws: seq<nat>): (bs: seq<Byte>)
    requires AllWords(ws)
    ensures |bs| == 4 * |ws|
  {
    if ws == [] then [] else Encode32(ws[0]) + WordBytes(ws[1..])
  }

  lemma {:induction false} WordBytesAt(ws: seq<nat>, i: nat)
    requires AllWords(ws) && i < |ws|
    ensures WordBytes(ws)[4 * i..4 * i + 4] == Encode32(ws[i])
  {
    var bs, more := WordBytes(ws), WordBytes(ws[1..]);
    if i == 0 {
      assert bs[0..4] == Encode32(ws[0]);
    } else {
      WordBytesAt(ws[1..], i - 1);
      assert bs[4..] == more;
      assert bs[4 * i..4 * i + 4] == more[4 * (i - 1)..4 * (i - 1) + 4];
    }
  }

  /** The ten words of the header, for blocks of these sizes one after the other. */
  function HeaderWords(reserved: nat, structure: nat, strings: nat): (ws: seq<nat>)
    requires 56 + reserved + structure + strings < P32
    ensures |ws| == 10 && AllWords(ws)
  {
    [MAGIC, 56 + reserved + structure + strings, 40 + reserved, 40 + reserved + structure, 40,
     17, 16, 0, strings, structure]
  }

  function Word(mem: seq<Byte>, p: nat): nat
    requires p + 4 <= |mem|
  {
    Big32(mem[p], mem[p + 1], mem[p + 2], mem[p + 3])
  }

  /** The image made of these blocks, as the walkers see it. */
  function Image(reserved: seq<Byte>, structure: seq<Byte>, strings: seq<Byte>): Fdt
    requires 56 + |reserved| + |structure| + |strings| < P32
  {
    var header := WordBytes(HeaderWords(|reserved|, |structure|, |strings|));
    var mem := header + (reserved + (structure + (strings + Zeros(16))));
    var start, end := 40 + |reserved|, 40 + |reserved| + |structure|;
    Fdt(mem, seq(|mem| - 3, p requires 0 <= p < |mem| - 3 => Word(mem, p)), start, end, end, |strings|)
  }

  /** A blob that a host can read, whose header leads to these blocks. */
  ghost predicate Contains(f: Fdt, little: bool, reserved: seq<Byte>, structure: seq<Byte>, strings: seq<Byte>) {
    && f.ReadBy(little) && f.Readable() && |f.words| >= 40 && HeaderRead(f) && f.Be32(16) == 40 && f.Be32(4) == |f.mem|
    && f.structStart == 40 + |reserved| && f.structEnd == f.structStart + |structure|
    && f.stringsSize == |strings|
    && f.mem[40..f.structStart] == reserved && f.mem[f.structStart..f.structEnd] == structure
    && f.mem[f.stringsStart..f.stringsStart + f.stringsSize] == strings
    && f.stringsStart == f.structEnd && ZerosBehind(f)
  }

  /** Nothing but zeros behind the strings. */
  predicate ZerosBehind(f: Fdt) {
    var end := f.stringsStart + f.stringsSize;
    |f.mem| == end + 16 && forall q :: end <= q < |f.mem| ==> f.mem[q] == 0
  }

  lemma ImageReadBy(reserved: seq<Byte>, structure: seq<Byte>, strings: seq<Byte>, little: bool)
    requires 56 + |reserved| + |structure| + |strings| < P32
    ensures Image(reserved, structure, strings).ReadBy(little)
  {
    var f := Image(reserved, structure, strings);
    forall p | 0 <= p < |f.words| ensures f.WordRead(little, p) {
      Be32OfLoad(little, f.mem[p], f.mem[p + 1], f.mem[p + 2], f.mem[p + 3]);
    }
  }

  lemma HeaderWord(f: Fdt, ws: seq<nat>, rest: seq<Byte>, i: nat)
    requires f.ReadBy(true) && AllWords(ws) && i < |ws| && f.mem == WordBytes(ws) + rest
    ensures f.Be32(4 * i) == ws[i]
  {
    WordBytesAt(ws, i);
    assert f.mem[0..4 * |ws|] == WordBytes(ws);
    SubSlice(f.mem, 0, WordBytes(ws), 4 * i, 4 * i + 4);
    ReadBack32(f, true, 4 * i, ws[i]);
  }

  /** Five parts one after the other can be taken apart again. */
  lemma FiveParts(mem: seq<Byte>, a: seq<Byte>, b: seq<Byte>, c: seq<Byte>, d: seq<Byte>, e: seq<Byte>)
    requires mem == a + (b + (c + (d + e)))
    ensures var p, q, r := |a|, |a| + |b|, |a| + |b| + |c|;
            mem[p..q] == b && mem[q..r] == c && mem[r..r + |d|] == d
    ensures forall i :: 0 <= i < |e| ==> mem[|mem| - |e| + i] == e[i]
  {
  }

  /** The image of any three blocks that fit contains them, for a host of either endianness. */
  lemma ImageContains(reserved: seq<Byte>, structure: seq<Byte>, strings: seq<Byte>, little: bool)
    requires 56 + |reserved| + |structure| + |strings| < P32
    ensures Contains(Image(reserved, structure, strings), little, reserved, structure, strings)
  {
    var f := Image(reserved, structure, strings);
    var ws := HeaderWords(|reserved|, |structure|, |strings|);
    var rest := reserved + (structure + (strings + Zeros(16)));
    ImageReadBy(reserved, structure, strings, little);
    ImageReadBy(reserved, structure, strings, true);
    HeaderIs(f, ws, rest);
    FiveParts(f.mem, WordBytes(ws), reserved, structure, strings, Zeros(16));
    AllZeros(16);
  }

  /** The header words the walkers look at. */
  lemma HeaderIs(f: Fdt, ws: seq<nat>, rest: seq<Byte>)
    requires f.ReadBy(true) && AllWords(ws) && |ws| == 10 && f.mem == WordBytes(ws) + rest && |rest| >= 3
    ensures f.Be32(4) == ws[1] && f.Be32(8) == ws[2] && f.Be32(12) == ws[3] && f.Be32(16) == ws[4]
    ensures f.Be32(32) == ws[8] && f.Be32(36) == ws[9]
  {
    HeaderWord(f, ws, rest, 1);
    HeaderWord(f, ws, rest, 2);
    HeaderWord(f, ws, rest, 3);
    HeaderWord(f, ws, rest, 4);
    HeaderWord(f, ws, rest, 8);
    HeaderWord(f, ws, rest, 9);
  }

  lemma {:induction false} AllZeros(n: nat)
    ensures forall i :: 0 <= i < n ==> Zeros(n)[i] == 0
  {
    if n > 0 { AllZeros(n - 1); }
  }

  /** What such a blob says of its reservations and of its tokens. */
  lemma ContainsBlocks(f: Fdt, little: bool, rs: seq<Region>, ts: seq<Token>, strings: seq<Byte>)
    requires AllStorable(rs) && AllEncodable(ts) && Contains(f, little, BlockBytes(rs), Serial(ts), strings)
    ensures Stores(f, ts, f.structStart) && BlockAt(f, rs, 40)
  {
  }

  /**
    Round trip: any tree and any list of reservations have an image, which reads back as that
    tree, walked in pre-order, and as that list, on a host of either endianness.
   */
  lemma ImageRoundTrip(rs: seq<Region>, lead: nat, root: Node, strings: seq<Byte>, little: bool)
    requires AllStorable(rs) && AllEncodable(BlockTokens(lead, root))
    requires 56 + |BlockBytes(rs)| + |Serial(BlockTokens(lead, root))| + |strings| < P32
    ensures var f := Image(BlockBytes(rs), Serial(BlockTokens(lead, root)), strings);
            ReadsAs(f, little, rs, lead, root)
  {
    var f := Image(BlockBytes(rs), Serial(BlockTokens(lead, root)), strings);
    assert Contains(f, little, BlockBytes(rs), Serial(BlockTokens(lead, root)), strings) by {
      ImageContains(BlockBytes(rs), Serial(BlockTokens(lead, root)), strings, little);
    }
    ContainsReadsAs(f, little, rs, lead, root, strings);
  }

  ghost predicate ReadsAs(f: Fdt, little: bool, rs: seq<Region>, lead: nat, root: Node) {
    && Flattened(f, little, lead, root) && f.Readable()
    && Visits(f) == VisitsOf(Sites(root, f.structStart + 4 * lead, []))
    && EntryInside(f, f.Be32(16)) && EntriesFrom(f, f.Be32(16), EntryBegin(f, f.Be32(16))) == rs
  }

  lemma ContainsReadsAs(f: Fdt, little: bool, rs: seq<Region>, lead: nat, root: Node, strings: seq<Byte>)
    requires AllStorable(rs) && AllEncodable(BlockTokens(lead, root))
    requires Contains(f, little, BlockBytes(rs), Serial(BlockTokens(lead, root)), strings)
    ensures ReadsAs(f, little, rs, lead, root)
  {
    ContainsBlocks(f, little, rs, BlockTokens(lead, root), strings);
    FlattenedIsEncoded(f, little, lead, root);
    ReservationsRoundTrip(f, little, 40, rs);
  }

  // ----- an image that is no tree

  /** A node, two END_NODE tokens, and another node. */
  function SurplusEnd(): seq<Token> { [Begin([]), EndNode, EndNode, Begin([]), EndNode, End] }

  lemma SurplusScan(ts: seq<Token>, off: nat)
    requires ts == SurplusEnd()
    ensures Scan(Entries(ts, off), [], 0) == [Visit(off, 0, []), Visit(off + 16, -1, [])]
  {
    assert ts == [Begin([])] + ts[1..] && ts[1..] == [EndNode] + ts[2..];
    SurplusMiddle(ts[2..], off + 12);
    FirstNodeClosed(ts[2..], off, [Visit(off + 16, -1, [])]);
    assert [Begin([])] + ([EndNode] + ts[2..]) == ts;
  }

  /** A node that is opened and closed again, in front of what follows. */
  lemma FirstNodeClosed(rest: seq<Token>, off: nat, after: seq<Visit>)
    requires Scan(Entries(rest, off + 12), [], 0) == after
    ensures Scan(Entries([Begin([])] + ([EndNode] + rest), off), [], 0) == [Visit(off, 0, [])] + after
  {
    assert Pop([off]) == [];
    ScanToken(EndNode, rest, off + 8, [off], 1);
    ScanInFront(Begin([]), [EndNode] + rest, off, [], 0, after);
  }

  lemma SurplusMiddle(ts: seq<Token>, off: nat)
    requires ts == [EndNode, Begin([]), EndNode, End]
    ensures Scan(Entries(ts, off), [], 0) == [Visit(off + 4, -1, [])]
  {
    assert ts == [EndNode] + ts[1..];
    SurplusRest(ts[1..], off + 4);
    ScanToken(EndNode, ts[1..], off, [], 0);
  }

  lemma SurplusRest(ts: seq<Token>, off: nat)
    requires ts == [Begin([]), EndNode, End]
    ensures Scan(Entries(ts, off), [], -1) == [Visit(off, -1, [])]
  {
    assert ts == [Begin([])] + ts[1..] && ts[1..] == [EndNode] + ts[2..] && ts[2..] == [End] + [];
    ScanToken(End, [], off + 12, [], -1);
    ScanToken(EndNode, ts[2..], off + 8, [off], 0);
    ScanToken(Begin([]), ts[1..], off, [], -1);
  }

  /**
    A readable image with a surplus END_NODE: its second node is at depth -1, and asking for the
    parents of that node leaves the branch array.
   */
  lemma SurplusEndUnderflows(little: bool) returns (f: Fdt)
    ensures f.ReadBy(little) && f.Readable() && |f.words| >= 40 && HeaderRead(f)
    ensures Visits(f) == [Visit(56, 0, []), Visit(72, -1, [])]
    ensures !InRange(Visits(f), 72, 1)
  {
    var ts := SurplusEnd();
    SurplusFits();
    f := Image(BlockBytes([]), Serial(ts), []);
    ImageContains(BlockBytes([]), Serial(ts), [], little);
    SurplusVisits(f, little, ts);
  }

  lemma SurplusVisits(f: Fdt, little: bool, ts: seq<Token>)
    requires ts == SurplusEnd() && AllEncodable(ts) && |BlockBytes([])| == 16
    requires Contains(f, little, BlockBytes([]), Serial(ts), [])
    ensures Visits(f) == [Visit(56, 0, []), Visit(72, -1, [])] && !InRange(Visits(f), 72, 1)
  {
    ContainsBlocks(f, little, [], ts, []);
    assert Terminated(ts) by { SurplusTerminated(ts); }
    SerialReadsBack(f, little, ts, 56);
    SurplusScan(ts, 56);
    WalkOver(f, 0, ts, [Visit(56, 0, []), Visit(72, -1, [])]);
  }

  lemma SurplusTerminated(ts: seq<Token>)
    requires ts == SurplusEnd()
    ensures Terminated(ts)
  {
    assert ts[5..] == [End] && ts[4..][1..] == ts[5..] && ts[3..][1..] == ts[4..];
    assert ts[2..][1..] == ts[3..] && ts[1..][1..] == ts[2..];
    assert Terminated(ts[5..]);
    assert Terminated(ts[4..]);
    assert Terminated(ts[3..]);
    assert Terminated(ts[2..]);
    assert Terminated(ts[1..]);
  }

  lemma SurplusFits()
    ensures AllEncodable(SurplusEnd()) && |BlockBytes([])| == 16 && |Serial(SurplusEnd())| == 32
  {
    var ts := SurplusEnd();
    assert ts[5..] == [End] + [] && ts[4..] == [EndNode] + ts[5..] && ts[3..] == [Begin([])] + ts[4..];
    assert ts[2..] == [EndNode] + ts[3..] && ts[1..] == [EndNode] + ts[2..] && ts == [Begin([])] + ts[1..];
    SerialCons(End, []);
    SerialCons(EndNode, ts[5..]);
    SerialCons(Begin([]), ts[4..]);
    SerialCons(EndNode, ts[3..]);
    SerialCons(EndNode, ts[2..]);
    SerialCons(Begin([]), ts[1..]);
  }

  lemma SerialCons(t: Token, ts: seq<Token>)
    requires Encodable(t) && AllEncodable(ts)
    ensures AllEncodable([t] + ts) && |Serial([t] + ts)| == Size(t) + |Serial(ts)|
  {
    assert ([t] + ts)[1..] == ts;
  }
}
