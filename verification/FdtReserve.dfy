/**
  The memory reservation block (Devicetree Specification, section 5.3): iteration over its
  entries and the two 64-bit accessors of kernel/of/fdt.c.
 */
module FdtReserve {
  import opened Endian
  import opened Regions
  import opened FdtBlob
  import opened FdtTree

  /** `be64toh` of the doubleword at `p`. */
  function Be64(f: Fdt, p: nat): nat
    requires p + 4 < |f.words|
  {
    f.Be32(p) * P32 + f.Be32(p + 4)
  }

  /** A raw 64-bit load at `p` by a host of this endianness. */
  function Raw64(f: Fdt, little: bool, p: nat): nat
    requires p + 8 <= |f.mem|
  {
    Load64(little, Load32(little, f.mem[p], f.mem[p + 1], f.mem[p + 2], f.mem[p + 3]),
           Load32(little, f.mem[p + 4], f.mem[p + 5], f.mem[p + 6], f.mem[p + 7]))
  }

  /** On either host the accessors yield `Be64`, and a raw zero is a zero. */
  lemma HostReads64(f: Fdt, little: bool, p: nat)
    requires f.ReadBy(little) && p + 4 < |f.words|
    ensures Raw64(f, little, p) < P64 && Be64ToHost(little, Raw64(f, little, p)) == Be64(f, p)
    ensures Raw64(f, little, p) == 0 <==> Be64(f, p) == 0
  {
    var m := f.mem;
    Be64OfLoad(little, m[p], m[p + 1], m[p + 2], m[p + 3], m[p + 4], m[p + 5], m[p + 6], m[p + 7]);
    HostReads(f, little, p);
    HostReads(f, little, p + 4);
  }

  /** An entry that may be read at `p`. */
  predicate EntryInside(f: Fdt, p: nat) { |f.words| + 3 == |f.mem| && p + 16 <= |f.mem| && f.structStart <= |f.mem| }

  function EntryAt(f: Fdt, p: nat): Region
    requires EntryInside(f, p)
  {
    Region(Be64(f, p), Be64(f, p + 8))
  }

  /** `fdt_reserve_entry_begin`: nothing if the first entry is the terminator. */
  function EntryBegin(f: Fdt, rsv: nat): Option<nat>
    requires EntryInside(f, rsv)
  {
    if EntryAt(f, rsv) == Region(0, 0) then None else Some(rsv)
  }

  /** `fdt_next_reserve_entry`: the next one, unless it is the terminator or reaches the structure block. */
  function NextEntry(f: Fdt, rsv: nat, p: nat): (r: Option<nat>)
    requires EntryInside(f, p)
    ensures r.Some? ==> r.value == p + 16 && p + 32 <= f.structStart
  {
    var next := p + 16;
    if next + 15 < rsv || next + 15 >= f.structStart then None
    else if EntryAt(f, next) == Region(0, 0) then None
    else Some(next)
  }

  /** The sixteen bytes of a terminator. */
  ghost predicate ZerosAt(f: Fdt, p: nat)
    requires p + 16 <= |f.mem|
  {
    forall i :: p <= i < p + 16 ==> f.mem[i] == 0
  }

  lemma TerminatorExactly(f: Fdt, little: bool, p: nat)
    requires f.ReadBy(little) && EntryInside(f, p)
    ensures EntryAt(f, p) == Region(0, 0) <==> ZerosAt(f, p)
  {
    HostReads(f, little, p);
    HostReads(f, little, p + 4);
    HostReads(f, little, p + 8);
    HostReads(f, little, p + 12);
    if EntryAt(f, p) == Region(0, 0) {
      assert f.Be32(p) == 0 && f.Be32(p + 4) == 0 && f.Be32(p + 8) == 0 && f.Be32(p + 12) == 0;
    }
  }

  /** The entry after another is 16 bytes on, unless those reach the structure block or are all zero. */
  lemma NextEntryExactly(f: Fdt, little: bool, rsv: nat, p: nat, q: nat)
    requires f.ReadBy(little) && EntryInside(f, p) && rsv <= p
    ensures EntryInside(f, q) ==>
              (NextEntry(f, rsv, p) == Some(q) <==> q == p + 16 && q + 16 <= f.structStart && !ZerosAt(f, q))
  {
    if EntryInside(f, q) { TerminatorExactly(f, little, q); }
  }

  /** The entries from a pointer on. */
  function EntriesFrom(f: Fdt, rsv: nat, p: Option<nat>): seq<Region>
    requires p.Some? ==> EntryInside(f, p.value)
    decreases if p.Some? then |f.mem| - p.value + 1 else 0
  {
    if p.None? then [] else [EntryAt(f, p.value)] + EntriesFrom(f, rsv, NextEntry(f, rsv, p.value))
  }

  /** The iteration as its callers write it. */
  method ReserveEntries(f: Fdt, rsv: nat) returns (entries: seq<Region>)
    requires EntryInside(f, rsv)
    ensures entries == EntriesFrom(f, rsv, EntryBegin(f, rsv))
  {
    entries := [];
    var p := EntryBegin(f, rsv);
    while p.Some?
      invariant p.Some? ==> EntryInside(f, p.value)
      invariant entries + EntriesFrom(f, rsv, p) == EntriesFrom(f, rsv, EntryBegin(f, rsv))
      decreases if p.Some? then |f.mem| - p.value + 1 else 0
    {
      entries := entries + [EntryAt(f, p.value)];
      p := NextEntry(f, rsv, p.value);
    }
  }

  // ----- the block as bytes

  predicate Storable(r: Region) { r.start < P64 && r.size < P64 && r != Region(0, 0) }

  predicate AllStorable(rs: seq<Region>) { rs == [] || (Storable(rs[0]) && AllStorable(rs[1..])) }

  function EntryBytes(r: Region): (bs: seq<Byte>)
    requires r.start < P64 && r.size < P64
    ensures |bs| == 16
  {
    Encode64(r.start) + Encode64(r.size)
  }

  /** The entries, then the terminating pair of zeros. */
  function BlockBytes(rs: seq<Region>): (bs: seq<Byte>)
    requires AllStorable(rs)
    ensures |bs| == 16 * |rs| + 16
  {
    if rs == [] then EntryBytes(Region(0, 0)) else EntryBytes(rs[0]) + BlockBytes(rs[1..])
  }

  lemma ReadBack64(f: Fdt, little: bool, p: nat, x: nat)
    requires f.ReadBy(little) && p + 8 <= |f.mem| && x < P64 && f.mem[p..p + 8] == Encode64(x)
    ensures Be64(f, p) == x
  {
    SubSlice(f.mem, p, Encode64(x), 0, 4);
    SubSlice(f.mem, p, Encode64(x), 4, 8);
    assert Encode64(x)[0..4] == Encode32(x / P32) && Encode64(x)[4..8] == Encode32(x % P32);
    ReadBack32(f, little, p, x / P32);
    ReadBack32(f, little, p + 4, x % P32);
  }

  lemma EntryReadsBack(f: Fdt, little: bool, p: nat, r: Region)
    requires f.ReadBy(little) && EntryInside(f, p) && r.start < P64 && r.size < P64
    requires f.mem[p..p + 16] == EntryBytes(r)
    ensures EntryAt(f, p) == r
  {
    var bs := EntryBytes(r);
    SubSlice(f.mem, p, bs, 0, 8);
    SubSlice(f.mem, p, bs, 8, 16);
    assert bs[0..8] == Encode64(r.start) && bs[8..16] == Encode64(r.size);
    ReadBack64(f, little, p, r.start);
    ReadBack64(f, little, p + 8, r.size);
  }

  /** The bytes of a reservation list at `p`, below the structure block. */
  ghost predicate BlockAt(f: Fdt, rs: seq<Region>, p: nat) {
    && AllStorable(rs) && f.structStart <= |f.mem| && |f.words| + 3 == |f.mem|
    && p + |BlockBytes(rs)| <= f.structStart && f.mem[p..p + |BlockBytes(rs)|] == BlockBytes(rs)
  }

  /** What the first 16 bytes of a block say. */
  lemma BlockHead(f: Fdt, little: bool, rs: seq<Region>, p: nat)
    requires f.ReadBy(little) && BlockAt(f, rs, p)
    ensures EntryInside(f, p) && EntryAt(f, p) == if rs == [] then Region(0, 0) else rs[0]
    ensures rs != [] ==> BlockAt(f, rs[1..], p + 16)
  {
    var bs := BlockBytes(rs);
    SubSlice(f.mem, p, bs, 0, 16);
    SubSlice(f.mem, p, bs, 16, |bs|);
    if rs == [] {
      assert bs[0..16] == bs;
      EntryReadsBack(f, little, p, Region(0, 0));
    } else {
      assert bs[0..16] == EntryBytes(rs[0]) && bs[16..|bs|] == BlockBytes(rs[1..]);
      EntryReadsBack(f, little, p, rs[0]);
    }
  }

  lemma {:induction false} BlockReadsBack(f: Fdt, little: bool, rsv: nat, rs: seq<Region>, p: nat)
    requires f.ReadBy(little) && BlockAt(f, rs, p) && rsv <= p && rs != []
    ensures EntryInside(f, p) && EntriesFrom(f, rsv, Some(p)) == rs
    decreases |rs|
  {
    BlockHead(f, little, rs, p);
    BlockHead(f, little, rs[1..], p + 16);
    if |rs| > 1 {
      BlockReadsBack(f, little, rsv, rs[1..], p + 16);
    } else {
      assert EntriesFrom(f, rsv, None) == [];
    }
  }

  /**
    Round trip: any list of entries other than (0, 0), written big-endian with its terminator
    below the structure block, is what iterating yields, on a host of either endianness.
   */
  lemma ReservationsRoundTrip(f: Fdt, little: bool, rsv: nat, rs: seq<Region>)
    requires f.ReadBy(little) && BlockAt(f, rs, rsv)
    ensures EntryInside(f, rsv) && EntriesFrom(f, rsv, EntryBegin(f, rsv)) == rs
  {
    BlockHead(f, little, rs, rsv);
    if rs != [] { BlockReadsBack(f, little, rsv, rs, rsv); }
  }
}
