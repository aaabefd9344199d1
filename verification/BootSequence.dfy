/**
  The boot sequence: `fdt_boot_mem_init` turns the register blocks of the memory nodes into
  donations, and afterwards anybody may request blocks, write to them and give them back.
 */
module BootSequence {
  import opened Regions
  import opened Alignment
  import opened FreeSpec
  import opened FreeLinks
  import opened FreeList
  import opened Donations
  import opened Reserved
  import opened BootRun

  // ----- memory nodes

  /** A memory node and its register blocks. */
  datatype MemoryNode = MemoryNode(blocks: seq<Region>)

  function Repeat(r: Region, n: nat): seq<Region> { if n == 0 then [] else Repeat(r, n - 1) + [r] }

  /** The regions read of a node: block 0, once per register block. */
  function NodeReadings(node: MemoryNode): seq<Region> {
    if node.blocks == [] then [] else Repeat(node.blocks[0], |node.blocks|)
  }

  function Readings(nodes: seq<MemoryNode>): seq<Region> {
    if nodes == [] then [] else Readings(nodes[..|nodes| - 1]) + NodeReadings(nodes[|nodes| - 1])
  }

  /** Of one node block 0 is read, as many times as there are blocks. */
  lemma NodeReadExactly(node: MemoryNode)
    ensures var read := Readings([node]);
            && |read| == |node.blocks| && (forall r :: r in read ==> r == node.blocks[0])
            && (node.blocks != [] ==> Total(read) == |node.blocks| * node.blocks[0].size)
  {
    OneNodeRead(node);
    if node.blocks != [] { RepeatExactly(node.blocks[0], |node.blocks|); }
  }

  lemma {:induction false} RepeatExactly(r: Region, n: nat)
    ensures |Repeat(r, n)| == n && (forall q :: q in Repeat(r, n) ==> q == r) && Total(Repeat(r, n)) == n * r.size
  {
    if n > 0 {
      RepeatExactly(r, n - 1);
      TotalConcat(Repeat(r, n - 1), [r]);
      assert Total([r]) == r.size;
    }
  }

  /** The nodes are read one after the other. */
  lemma {:induction false} ReadingsConcat(a: seq<MemoryNode>, b: seq<MemoryNode>)
    ensures Readings(a + b) == Readings(a) + Readings(b)
    decreases |b|
  {
    if b == [] {
      assert a + b == a;
    } else {
      var front, last := b[..|b| - 1], b[|b| - 1];
      assert Readings(a + b) == Readings(a + front) + NodeReadings(last) by {
        assert a + b == a + front + [last];
        ReadingsNext(a + front, last);
      }
      ReadingsConcat(a, front);
    }
  }

  lemma ReadingsNext(nodes: seq<MemoryNode>, node: MemoryNode)
    ensures Readings(nodes + [node]) == Readings(nodes) + NodeReadings(node)
  {
    assert (nodes + [node])[..|nodes|] == nodes;
  }

  lemma OneNodeRead(node: MemoryNode)
    ensures Readings([node]) == NodeReadings(node)
  {
    assert [node][..0] == [] && Readings([]) == [];
  }

  /** Some register block of a memory node contains the address. */
  ghost predicate Described(nodes: seq<MemoryNode>, x: int) {
    exists i :: 0 <= i < |nodes| && Covered(nodes[i].blocks, x)
  }

  ghost predicate FirstHas(node: MemoryNode, x: int) { node.blocks != [] && Has(node.blocks[0], x) }

  ghost predicate Read(nodes: seq<MemoryNode>, x: int) { exists i :: 0 <= i < |nodes| && FirstHas(nodes[i], x) }

  lemma {:induction false} RepeatCovers(r: Region, n: nat)
    ensures forall x :: Covered(Repeat(r, n), x) <==> n > 0 && Has(r, x)
  {
    if n > 0 {
      RepeatCovers(r, n - 1);
      CoveredConcat(Repeat(r, n - 1), [r]);
      CoveredSingle(r);
    }
  }

  lemma {:induction false} ReadingsCover(nodes: seq<MemoryNode>)
    ensures forall x :: Covered(Readings(nodes), x) <==> Read(nodes, x)
  {
    if nodes != [] {
      var n := |nodes| - 1;
      ReadingsCover(nodes[..n]);
      CoveredConcat(Readings(nodes[..n]), NodeReadings(nodes[n]));
      if nodes[n].blocks != [] { RepeatCovers(nodes[n].blocks[0], |nodes[n].blocks|); }
      forall x ensures Read(nodes, x) <==> Read(nodes[..n], x) || FirstHas(nodes[n], x) {
        if Read(nodes[..n], x) {
          var i :| 0 <= i < n && FirstHas(nodes[..n][i], x);
          assert FirstHas(nodes[i], x);
        }
        if Read(nodes, x) && !FirstHas(nodes[n], x) {
          var i :| 0 <= i < |nodes| && FirstHas(nodes[i], x);
          assert FirstHas(nodes[..n][i], x);
        }
      }
    }
  }

  predicate Inside(b: Region, r: Region) { b.size == 0 || (r.start <= b.start && b.End() <= r.End()) }

  lemma InsideExactly(b: Region, r: Region)
    ensures Inside(b, r) <==> forall x :: Has(b, x) ==> Has(r, x)
  {
    if b.size > 0 { assert Has(b, b.start) && Has(b, b.End() - 1); }
  }

  /** Different nodes describe different memory. */
  ghost predicate NodesApart(nodes: seq<MemoryNode>) {
    forall i, j, x :: 0 <= i < |nodes| && 0 <= j < |nodes| && i != j ==>
                        !(Covered(nodes[i].blocks, x) && Covered(nodes[j].blocks, x))
  }

  /** Reading block 0 every time reaches all described memory iff no other block holds anything more. */
  lemma AllReadExactly(nodes: seq<MemoryNode>)
    requires NodesApart(nodes)
    ensures (forall x :: Described(nodes, x) ==> Covered(Readings(nodes), x)) <==>
            forall i, k :: 0 <= i < |nodes| && 0 <= k < |nodes[i].blocks| ==>
                             Inside(nodes[i].blocks[k], nodes[i].blocks[0])
  {
    ReadingsCover(nodes);
    if forall x :: Described(nodes, x) ==> Read(nodes, x) {
      forall i, k | 0 <= i < |nodes| && 0 <= k < |nodes[i].blocks|
        ensures Inside(nodes[i].blocks[k], nodes[i].blocks[0])
      {
        OwnBlockRead(nodes, i, k);
      }
    } else {
      var x :| Described(nodes, x) && !Read(nodes, x);
      var i :| 0 <= i < |nodes| && Covered(nodes[i].blocks, x);
      var k :| 0 <= k < |nodes[i].blocks| && Has(nodes[i].blocks[k], x);
      assert !FirstHas(nodes[i], x);
      InsideExactly(nodes[i].blocks[k], nodes[i].blocks[0]);
    }
  }

  lemma OwnBlockRead(nodes: seq<MemoryNode>, i: nat, k: nat)
    requires NodesApart(nodes) && i < |nodes| && k < |nodes[i].blocks|
    requires forall x :: Described(nodes, x) ==> Read(nodes, x)
    ensures Inside(nodes[i].blocks[k], nodes[i].blocks[0])
  {
    var b := nodes[i].blocks[k];
    forall x | Has(b, x) ensures Has(nodes[i].blocks[0], x) {
      assert Covered(nodes[i].blocks, x);
      assert Described(nodes, x);
      var j :| 0 <= j < |nodes| && FirstHas(nodes[j], x);
      assert Has(nodes[j].blocks[0], x) && Covered(nodes[j].blocks, x);
    }
    InsideExactly(b, nodes[i].blocks[0]);
  }

  /** Two banks of RAM in one node: the second is never looked at. */
  lemma SecondBankLost()
    ensures var bank0, bank1 := Region(0x8000_0000, 0x1000), Region(0x9000_0000, 0x1000);
            var nodes := [MemoryNode([bank0, bank1])];
            Readings(nodes) == [bank0, bank0] && Described(nodes, 0x9000_0000) && !Covered(Readings(nodes), 0x9000_0000)
  {
    var bank0, bank1 := Region(0x8000_0000, 0x1000), Region(0x9000_0000, 0x1000);
    var nodes := [MemoryNode([bank0, bank1])];
    assert nodes[..0] == [] && Readings([]) == [];
    assert Repeat(bank0, 0) == [] && Repeat(bank0, 1) == [bank0] && Repeat(bank0, 2) == [bank0, bank0];
    assert Has(nodes[0].blocks[1], 0x9000_0000) && Covered(nodes[0].blocks, 0x9000_0000);
  }

  // ----- donating every reading

  function AllPieces(env: Platform, readings: seq<Region>): seq<Region> {
    if readings == [] then []
    else AllPieces(env, readings[..|readings| - 1]) + Pieces(env, readings[|readings| - 1])
  }

  ghost predicate AllGapped(env: Platform, readings: seq<Region>) {
    forall i :: 0 <= i < |readings| ==> Gapped(env, readings[i])
  }

  /** The blocks passed to `boot_free`: those of each reading in turn, in some order within it. */
  ghost predicate Rounds(env: Platform, readings: seq<Region>, passed: seq<Region>)
    decreases |readings|
  {
    if readings == [] then passed == []
    else
      var n := |readings| - 1;
      var k := |passed| - |Pieces(env, readings[n])|;
      k >= 0 && multiset(passed[k..]) == multiset(Pieces(env, readings[n])) && Rounds(env, readings[..n], passed[..k])
  }

  /** Donating every reading in turn; the order within a reading does not matter if it has no empty cut. */
  ghost predicate AllServed(env: Platform, readings: seq<Region>, rs: seq<Region>, passed: seq<Region>,
                            rs': seq<Region>) {
    && Rounds(env, readings, passed) && rs' == After(rs, passed)
    && (AllGapped(env, readings) ==> rs' == After(rs, AllPieces(env, readings)))
  }

  lemma ServedNext(env: Platform, readings: seq<Region>, r: Region, rs: seq<Region>, p: seq<Region>, mid: seq<Region>,
                   q: seq<Region>, rs': seq<Region>)
    requires AllServed(env, readings, rs, p, mid) && Served(env, r, mid, q, rs')
    ensures AllServed(env, readings + [r], rs, p + q, rs')
  {
    var all := readings + [r];
    assert all[..|readings|] == readings;
    assert |q| == |Pieces(env, r)| by { assert |multiset(q)| == |multiset(Pieces(env, r))|; }
    assert (p + q)[|p|..] == q && (p + q)[..|p|] == p;
    AfterConcat(rs, p, q);
    if AllGapped(env, all) {
      assert Gapped(env, all[|readings|]);
      assert forall i :: 0 <= i < |readings| ==> readings[i] == all[i];
      AfterConcat(rs, AllPieces(env, readings), Pieces(env, r));
    }
  }

  /** The pieces of all readings hold exactly the permitted addresses that were read. */
  lemma {:induction false} AllPiecesUsable(env: Platform, readings: seq<Region>)
    ensures forall x :: Covered(AllPieces(env, readings), x) <==> Covered(readings, x) && Permitted(env, x)
  {
    if readings != [] {
      var n := |readings| - 1;
      AllPiecesUsable(env, readings[..n]);
      PiecesMakeUp(env, readings[n]);
      assert readings == readings[..n] + [readings[n]];
      CoveredConcat(readings[..n], [readings[n]]);
      CoveredSingle(readings[n]);
      CoveredConcat(AllPieces(env, readings[..n]), Pieces(env, readings[n]));
    }
  }

  lemma {:induction false} RoundsPermute(env: Platform, readings: seq<Region>, passed: seq<Region>)
    requires Rounds(env, readings, passed)
    ensures multiset(passed) == multiset(AllPieces(env, readings))
    decreases |readings|
  {
    if readings != [] {
      var n := |readings| - 1;
      var k := |passed| - |Pieces(env, readings[n])|;
      RoundsPermute(env, readings[..n], passed[..k]);
      assert passed == passed[..k] + passed[k..];
    }
  }

  lemma {:induction false} AllPiecesFit(env: Platform, readings: seq<Region>)
    requires env.Valid() && forall i :: 0 <= i < |readings| ==> readings[i].End() < WORD
    ensures Blocks(AllPieces(env, readings)) && Total(AllPieces(env, readings)) <= Total(readings)
  {
    if readings != [] {
      var n := |readings| - 1;
      AllPiecesFit(env, readings[..n]);
      PiecesWithin(env, readings[n]);
      PiecesMakeUp(env, readings[n]);
      assert readings == readings[..n] + [readings[n]];
      TotalConcat(readings[..n], [readings[n]]);
      assert Total([readings[n]]) == readings[n].size;
      TotalConcat(AllPieces(env, readings[..n]), Pieces(env, readings[n]));
    }
  }

  /** What the blocks passed on are, whatever the order. */
  lemma RoundsFit(env: Platform, readings: seq<Region>, passed: seq<Region>)
    requires Rounds(env, readings, passed) && env.Valid()
    requires forall i :: 0 <= i < |readings| ==> readings[i].End() < WORD
    ensures Blocks(passed) && Total(passed) <= Total(readings)
    ensures forall x :: Covered(passed, x) <==> Covered(readings, x) && Permitted(env, x)
    ensures forall p :: p in passed <==> p in AllPieces(env, readings)
  {
    var all := AllPieces(env, readings);
    RoundsPermute(env, readings, passed);
    forall p ensures p in passed <==> p in all {
      assert p in passed <==> p in multiset(passed);
    }
    SameTotal(passed, all);
    SameMembers(passed, all);
    AllPiecesFit(env, readings);
    AllPiecesUsable(env, readings);
  }

  /** Readings that fit the allocator, however they are served. */
  ghost predicate Fitting(readings: seq<Region>) {
    Total(readings) < SIGNED && forall r :: r in readings ==> r.End() < WORD
  }

  /** Conditions on the pieces of all readings under which none of them is lost. */
  ghost predicate NoneLost(env: Platform, readings: seq<Region>) {
    var all := AllPieces(env, readings); Separate(all) || (AllGapped(env, readings) && AllWelcome(all))
  }

  /**
    From an empty list, only permitted addresses that were read become free.  All of them do if
    the pieces keep apart and can hold a header, or if each is welcome after those before it,
    as where adjacent banks of memory are read in ascending order.
   */
  lemma BootFrees(env: Platform, readings: seq<Region>, passed: seq<Region>, rs: seq<Region>)
    requires AllServed(env, readings, [], passed, rs) && env.Valid() && Fitting(readings)
    ensures forall x :: Covered(rs, x) ==> Covered(readings, x) && Permitted(env, x)
    ensures forall x :: Covered(rs, x) <==> FreeAfter(passed, |passed|, x)
    ensures NoneLost(env, readings) ==> forall x :: Covered(rs, x) <==> Covered(readings, x) && Permitted(env, x)
  {
    var all := AllPieces(env, readings);
    RoundsFit(env, readings, passed);
    DonationsGain([], passed);
    FreeExactly(passed, |passed|);
    assert passed[..|passed|] == passed;
    if Separate(all) {
      SeparateWelcome(passed);
      WelcomeCovered(passed);
    } else if NoneLost(env, readings) {
      AllPiecesFit(env, readings);
      AllPiecesUsable(env, readings);
      WelcomeCovered(all);
    }
  }

  lemma {:induction false} RepeatGrows(r: Region, m: nat, n: nat)
    requires m < n
    ensures Total(Repeat(r, m + 1)) == Total(Repeat(r, m)) + r.size && Total(Repeat(r, m + 1)) <= Total(Repeat(r, n))
  {
    TotalConcat(Repeat(r, n - 1), [r]);
    assert Total([r]) == r.size;
    if m + 1 < n {
      RepeatGrows(r, m, n - 1);
    }
  }

  lemma ServedAgain(env: Platform, before: seq<Region>, block: Region, i: nat, p: seq<Region>, mid: seq<Region>,
                    q: seq<Region>, rs': seq<Region>)
    requires AllServed(env, before + Repeat(block, i), [], p, mid) && Served(env, block, mid, q, rs')
    ensures AllServed(env, before + Repeat(block, i + 1), [], p + q, rs')
  {
    ServedNext(env, before + Repeat(block, i), block, [], p, mid, q, rs');
    assert before + Repeat(block, i) + [block] == before + Repeat(block, i + 1);
  }

  /** One reading more: still nothing is written outside the pieces passed on. */
  lemma WritesAgain(env: Platform, readings: seq<Region>, passed: seq<Region>, rs: seq<Region>, pieces: seq<Region>,
                    mem: Memory, mem': Memory, mem'': Memory)
    requires env.Valid() && Fitting(readings) && AllServed(env, readings, [], passed, rs)
    requires WritesOnly(mem, mem', passed) && WritesOnly(mem', mem'', rs + pieces)
    ensures WritesOnly(mem, mem'', passed + pieces)
  {
    RoundsFit(env, readings, passed);
    DonationsGain([], passed);
    CoveredConcat(rs, pieces);
    CoveredConcat(passed, pieces);
    WritesTwice(mem, mem', mem'', passed, rs + pieces, passed + pieces);
  }

  lemma BootWrites(env: Platform, readings: seq<Region>, passed: seq<Region>, mem: Memory, mem': Memory)
    requires env.Valid() && Fitting(readings) && Rounds(env, readings, passed) && WritesOnly(mem, mem', passed)
    ensures WritesOnly(mem, mem', AllPieces(env, readings))
  {
    RoundsFit(env, readings, passed);
    SameMembers(passed, AllPieces(env, readings));
    WritesMore(mem, mem', passed, AllPieces(env, readings));
  }

  lemma PrefixFitting(before: seq<Region>, block: Region, i: nat, n: nat)
    requires i <= n && Fitting(before + Repeat(block, n)) && block.End() < WORD
    ensures Fitting(before + Repeat(block, i))
  {
    TotalConcat(before, Repeat(block, n));
    TotalConcat(before, Repeat(block, i));
    if i < n { RepeatGrows(block, i, n); }
    RepeatMembers(block, i);
    forall r | r in before ensures r in before + Repeat(block, n) {}
  }

  /** The inner loop of `fdt_boot_mem_init`: the same block `n` times over. */
  method DonateBlock(list: BootFreeList, env: Platform, block: Region, n: nat, seen0: nat, freed0: nat,
                     ghost before: seq<Region>, ghost passed0: seq<Region>, ghost mem0: Memory)
    returns (seen: nat, freed: nat, ghost passed: seq<Region>)
    requires list.Valid() && env.Valid() && block.End() < WORD
    requires Total(list.regions) + Total(Repeat(block, n)) < SIGNED
    requires AllServed(env, before, [], passed0, list.regions) && Fitting(before + Repeat(block, n))
    requires WritesOnly(mem0, list.mem, passed0)
    modifies list
    ensures list.Valid() && AllServed(env, before + Repeat(block, n), [], passed, list.regions)
    ensures seen == seen0 + Total(Repeat(block, n))
    ensures Total(list.regions) == Total(old(list.regions)) + freed - freed0
    ensures freed0 <= freed <= freed0 + seen - seen0
    ensures WritesOnly(mem0, list.mem, passed)
  {
    seen, freed, passed := seen0, freed0, passed0;
    assert before + Repeat(block, 0) == before;
    for i := 0 to n
      invariant list.Valid() && seen == seen0 + Total(Repeat(block, i))
      invariant Total(list.regions) == Total(old(list.regions)) + freed - freed0
      invariant freed0 <= freed <= freed0 + Total(Repeat(block, i))
      invariant AllServed(env, before + Repeat(block, i), [], passed, list.regions)
      invariant WritesOnly(mem0, list.mem, passed)
    {
      RepeatGrows(block, i, n);
      seen := seen + block.size;
      ghost var mid, mem := list.regions, list.mem;
      var more, pieces := TryBootFreeRegion(list, env, block.start, block.size);
      PrefixFitting(before, block, i, n);
      WritesAgain(env, before + Repeat(block, i), passed, mid, pieces, mem0, mem, list.mem);
      ServedAgain(env, before, block, i, passed, mid, pieces, list.regions);
      freed, passed := freed + more, passed + pieces;
    }
  }

  ghost predicate NodesFit(nodes: seq<MemoryNode>) {
    forall i :: 0 <= i < |nodes| && nodes[i].blocks != [] ==> nodes[i].blocks[0].End() < WORD
  }

  lemma {:induction false} ReadingsFit(nodes: seq<MemoryNode>)
    requires NodesFit(nodes)
    ensures forall r :: r in Readings(nodes) ==> r.End() < WORD
  {
    if nodes != [] {
      var n := |nodes| - 1;
      ReadingsFit(nodes[..n]);
      if nodes[n].blocks != [] { RepeatMembers(nodes[n].blocks[0], |nodes[n].blocks|); }
    }
  }

  lemma {:induction false} RepeatMembers(r: Region, n: nat)
    ensures forall q :: q in Repeat(r, n) ==> q == r
  {
    if n > 0 { RepeatMembers(r, n - 1); }
  }

  lemma PartFitting(nodes: seq<MemoryNode>, i: nat)
    requires NodesFit(nodes) && Total(Readings(nodes)) < SIGNED && i <= |nodes|
    ensures Fitting(Readings(nodes[..i]))
  {
    ReadingsFit(nodes);
    ReadingsPart(nodes, i);
    if i < |nodes| { ReadingsGrow(nodes, i); } else { assert nodes[..i] == nodes; }
  }

  /** The readings of the first nodes are among all of them. */
  lemma {:induction false} ReadingsPart(nodes: seq<MemoryNode>, i: nat)
    requires i <= |nodes|
    ensures forall r :: r in Readings(nodes[..i]) ==> r in Readings(nodes)
    decreases |nodes| - i
  {
    if i < |nodes| {
      ReadingsGrow(nodes, i);
      ReadingsPart(nodes, i + 1);
    } else {
      assert nodes[..i] == nodes;
    }
  }

  lemma {:induction false} ReadingsGrow(nodes: seq<MemoryNode>, i: nat)
    requires i < |nodes|
    ensures Readings(nodes[..i + 1]) == Readings(nodes[..i]) + NodeReadings(nodes[i])
    ensures Total(Readings(nodes[..i + 1])) == Total(Readings(nodes[..i])) + Total(NodeReadings(nodes[i]))
    ensures Total(Readings(nodes[..i + 1])) <= Total(Readings(nodes))
    decreases |nodes| - i
  {
    assert nodes[..i + 1][..i] == nodes[..i];
    TotalConcat(Readings(nodes[..i]), NodeReadings(nodes[i]));
    if i + 1 < |nodes| {
      ReadingsGrow(nodes, i + 1);
    } else {
      assert nodes[..i + 1] == nodes;
    }
  }

  /** What serving all readings comes to. */
  lemma BootEnds(env: Platform, nodes: seq<MemoryNode>, passed: seq<Region>, rs: seq<Region>, mem: Memory, mem': Memory)
    requires env.Valid() && NodesFit(nodes) && Total(Readings(nodes)) < SIGNED
    requires AllServed(env, Readings(nodes), [], passed, rs) && WritesOnly(mem, mem', passed)
    ensures forall x :: Covered(rs, x) ==> Permitted(env, x) && Read(nodes, x)
    ensures forall x :: Covered(rs, x) <==> FreeAfter(passed, |passed|, x)
    ensures NoneLost(env, Readings(nodes)) ==> forall x :: Permitted(env, x) && Read(nodes, x) ==> Covered(rs, x)
    ensures WritesOnly(mem, mem', AllPieces(env, Readings(nodes)))
  {
    ReadingsFit(nodes);
    BootWrites(env, Readings(nodes), passed, mem, mem');
    BootFrees(env, Readings(nodes), passed, rs);
    ReadingsCover(nodes);
  }

  /**
    `fdt_boot_mem_init` on an empty allocator: every reading is cut into its pieces and each is
    donated.  Only permitted memory that was read becomes free; all of it does if none
    of the pieces is lost.  The totals are the bytes read and the bytes now free.
   */
  method FdtBootMemInit(list: BootFreeList, env: Platform, nodes: seq<MemoryNode>)
    returns (seen: nat, freed: nat, ghost passed: seq<Region>)
    requires list.Valid() && list.regions == [] && env.Valid()
    requires NodesFit(nodes) && Total(Readings(nodes)) < SIGNED
    modifies list
    ensures list.Valid() && AllServed(env, Readings(nodes), [], passed, list.regions)
    ensures seen == Total(Readings(nodes)) && freed == Total(list.regions) <= seen
    ensures forall x :: Covered(list.regions, x) ==> Permitted(env, x) && Read(nodes, x)
    ensures forall x :: Covered(list.regions, x) <==> FreeAfter(passed, |passed|, x)
    ensures NoneLost(env, Readings(nodes)) ==>
              forall x :: Permitted(env, x) && Read(nodes, x) ==> Covered(list.regions, x)
    ensures WritesOnly(old(list.mem), list.mem, AllPieces(env, Readings(nodes)))
  {
    seen, freed, passed := 0, 0, [];
    ghost var read: seq<Region> := [];
    for i := 0 to |nodes|
      invariant list.Valid() && read == Readings(nodes[..i]) && seen == Total(read)
      invariant freed == Total(list.regions) <= seen
      invariant AllServed(env, read, [], passed, list.regions) && WritesOnly(old(list.mem), list.mem, passed)
    {
      ghost var more := NodeReadings(nodes[i]);
      assert read + more == Readings(nodes[..i + 1]) && Total(read + more) == Total(read) + Total(more)
             && Total(read + more) < SIGNED && Fitting(read + more) by {
        ReadingsGrow(nodes, i);
        PartFitting(nodes, i + 1);
      }
      if nodes[i].blocks != [] {
        seen, freed, passed := DonateBlock(list, env, nodes[i].blocks[0], |nodes[i].blocks|, seen, freed,
                                           read, passed, old(list.mem));
      } else {
        assert read + more == read;
      }
      read := read + more;
    }
    assert nodes[..|nodes|] == nodes;
    BootEnds(env, nodes, passed, list.regions, old(list.mem), list.mem);
  }

  // ----- after boot

  /** What callers do: request blocks, write into them, give them back. */
  datatype Action = Request(size: nat, alignment: nat) | Write(block: nat, offset: nat) | Release(block: nat)

  /** What they get for it. */
  datatype Answer = Pointer(p: nat) | Status(err: Error) | Done

  /** The event an action amounts to, given its answer. */
  ghost predicate Reported(action: Action, answer: Answer, s: State, e: Event) {
    match action
    case Request(size, alignment) => answer.Pointer? && e == Alloc(size, alignment, answer.p)
    case Write(_, _) => answer == Done && e == Idle
    case Release(k) =>
      if k < |s.handed| then answer.Status? && e == GiveBack(k, answer.err) else answer == Done && e == Idle
  }

  /** A run with one event for each action, as its answer reports it. */
  ghost predicate Log(env: Platform, actions: seq<Action>, answers: seq<Answer>, states: seq<State>,
                      events: seq<Event>) {
    && |answers| == |actions| == |events| && Run(env, states, events)
    && forall i :: 0 <= i < |actions| ==> Reported(actions[i], answers[i], states[i], events[i])
  }

  lemma LogGrows(env: Platform, actions: seq<Action>, answers: seq<Answer>, states: seq<State>, events: seq<Event>,
                 action: Action, answer: Answer, e: Event, s: State)
    requires Log(env, actions, answers, states, events)
    requires Reported(action, answer, states[|events|], e) && Next(env, states[|events|], e, s)
    ensures Log(env, actions + [action], answers + [answer], states + [s], events + [e])
  {
    var states', events' := states + [s], events + [e];
    forall i | 0 <= i < |events'| ensures Next(env, states'[i], events'[i], states'[i + 1]) {
      if i < |events| { assert Next(env, states[i], events[i], states[i + 1]); }
    }
    forall i | 0 <= i < |actions| ensures Reported(actions[i], answers[i], states'[i], events'[i]) {
      assert Reported(actions[i], answers[i], states[i], events[i]);
    }
  }

  /** What an answer tells a caller, in terms of addresses. */
  ghost predicate Tells(action: Action, answer: Answer, s: State, s': State) {
    match action
    case Request(size, alignment) =>
      answer.Pointer? && if answer.p == 0 then s' == s && NothingFits(s, size, alignment)
                         else Granted(Region(answer.p, size), alignment, s, s')
    case Write(_, _) => s' == s
    case Release(k) =>
      if k < |s.handed| && answer == Status(Success) then TakenBack(k, s, s')
      else s' == s && (k < |s.handed| ==> answer.Status?)
  }

  ghost predicate NothingFits(s: State, size: nat, alignment: nat) {
    forall i :: 0 <= i < |s.free| ==> !Fits(s.free[i], size, alignment)
  }

  /** Aligned memory that was free and nobody's, and is now owned and no longer free. */
  ghost predicate Granted(b: Region, alignment: nat, s: State, s': State) {
    && b.start % Pow2(alignment) == 0 && s'.handed == s.handed + [b]
    && (forall x :: Has(b, x) ==> Covered(s.free, x) && !Covered(s'.free, x) && !Covered(s.handed, x))
    && (forall x :: Covered(s'.free, x) ==> Covered(s.free, x))
  }

  /** Block `k` is owned no more, the others are, and its bytes are free. */
  ghost predicate TakenBack(k: nat, s: State, s': State)
    requires k < |s.handed|
  {
    && |s'.handed| == |s.handed| - 1
    && (forall j :: 0 <= j < |s'.handed| ==> s'.handed[j] == s.handed[if j < k then j else j + 1])
    && (forall x :: Covered(s'.free, x) <==> Covered(s.free, x) || Has(s.handed[k], x))
  }

  lemma StepTells(env: Platform, action: Action, answer: Answer, s: State, e: Event, s': State)
    requires Safe(env, s) && Next(env, s, e, s') && Reported(action, answer, s, e)
    ensures Tells(action, answer, s, s')
  {
    match action
    case Request(size, alignment) =>
      AllocFailsExactly(s.free, size, alignment, answer.p, s'.free);
      if answer.p != NULL { AllocGrants(s.free, size, alignment, answer.p, s'.free); }
    case Write(_, _) =>
    case Release(k) =>
      if k < |s.handed| { FreeAdds(s.free, s.handed[k], answer.err, s'.free); }
  }

  /** Every answer of a log is true of the step it was given for, in a state that is safe. */
  lemma AnswersAreTrue(env: Platform, actions: seq<Action>, answers: seq<Answer>, states: seq<State>,
                       events: seq<Event>, i: nat)
    requires Log(env, actions, answers, states, events) && Safe(env, states[0]) && i < |actions|
    ensures Safe(env, states[i]) && Tells(actions[i], answers[i], states[i], states[i + 1])
  {
    RunIsSafe(env, states, events);
    assert Next(env, states[i], events[i], states[i + 1]) && Reported(actions[i], answers[i], states[i], events[i]);
    StepTells(env, actions[i], answers[i], states[i], events[i], states[i + 1]);
  }

  /** Everything handed out is safe, could be given back, and the byte counts stay below 2^63. */
  ghost predicate Sound(env: Platform, s: State) {
    Safe(env, s) && Blocks(s.handed) && Bytes(s) < SIGNED
  }

  lemma NextKeepsSound(env: Platform, s: State, e: Event, s': State)
    requires Sound(env, s) && !e.Donation? && Next(env, s, e, s')
    ensures Sound(env, s')
  {
    assert Safe(env, s') by { NextKeepsSafe(env, s, e, s'); }
    assert Bytes(s') <= Bytes(s) by {
      NextConserves(env, s, e, s');
      CountsOfOne(e);
    }
    NextKeepsBlocks(env, s, e, s');
  }

  lemma NextKeepsBlocks(env: Platform, s: State, e: Event, s': State)
    requires WellFormed(s.free) && Blocks(s.handed) && Next(env, s, e, s')
    ensures Blocks(s'.handed)
  {
    if e.Alloc? && e.p != NULL {
      GrantedBlock(s.free, e.size, e.alignment, e.p, s'.free);
    }
    forall b | b in s'.handed && b in s.handed ensures 0 < b.start && b.End() < WORD {}
  }

  lemma GrantedBlock(rs: seq<Region>, size: nat, alignment: nat, p: nat, rs': seq<Region>)
    requires WellFormed(rs) && Sane(size, alignment) && p != NULL && AllocStep(rs, size, alignment, p, rs')
    ensures 0 < p && p + size < WORD
  {
    AllocGrants(rs, size, alignment, p, rs');
  }

  /** Everything free or handed out is in this area. */
  ghost predicate Stays(s: State, area: seq<Region>) {
    forall x :: Covered(s.free, x) || Covered(s.handed, x) ==> Covered(area, x)
  }

  lemma NextStays(env: Platform, s: State, e: Event, s': State, area: seq<Region>)
    requires Sound(env, s) && !e.Donation? && Next(env, s, e, s') && Stays(s, area)
    ensures Stays(s', area)
  {
    match e
    case Alloc(size, alignment, p) =>
      if p != NULL {
        AllocGrants(s.free, size, alignment, p, s'.free);
        CoveredConcat(s.handed, [Region(p, size)]);
        CoveredSingle(Region(p, size));
      }
    case GiveBack(i, err) =>
      FreeAdds(s.free, s.handed[i], err, s'.free);
      CoveredWithout(s.handed, i);
      assert forall x :: Has(s.handed[i], x) ==> Covered(s.handed, x);
    case Idle =>
  }

  lemma AreaStays(action: Action, s: State, area: seq<Region>)
    requires Stays(s, area)
    ensures forall x :: Covered(WriteArea(action, s.free, s.handed), x) ==> Covered(area, x)
  {
    match action
    case Request(_, _) =>
    case Write(k, offset) =>
      if k < |s.handed| && offset < s.handed[k].size {
        CoveredSingle(Region(s.handed[k].start + offset, 1));
        assert Has(s.handed[k], s.handed[k].start + offset);
      }
    case Release(k) =>
      if k < |s.handed| {
        CoveredConcat(s.free, [s.handed[k]]);
        CoveredSingle(s.handed[k]);
        assert forall x :: Has(s.handed[k], x) ==> Covered(s.handed, x);
      }
  }

  lemma HandedDonatable(env: Platform, s: State, k: nat)
    requires Sound(env, s) && k < |s.handed|
    ensures Donatable(s.free, s.handed[k])
  {
    MemberSize(s.handed, k);
  }

  /** The memory an action may write: what is free, and what its caller gives back or writes to. */
  ghost function WriteArea(action: Action, rs: seq<Region>, blocks: seq<Region>): seq<Region> {
    match action
    case Request(_, _) => rs
    case Write(k, offset) =>
      if k < |blocks| && offset < blocks[k].size then [Region(blocks[k].start + offset, 1)] else []
    case Release(k) => if k < |blocks| then rs + [blocks[k]] else []
  }

  /** One action on the allocator. */
  method Perform(list: BootFreeList, env: Platform, action: Action, blocks0: seq<Region>)
    returns (answer: Answer, blocks: seq<Region>, ghost e: Event)
    requires list.Valid() && Sound(env, State(list.regions, blocks0))
    requires action.Request? ==> Sane(action.size, action.alignment)
    modifies list
    ensures list.Valid() && !e.Donation?
    ensures Next(env, State(old(list.regions), blocks0), e, State(list.regions, blocks))
    ensures Reported(action, answer, State(old(list.regions), blocks0), e)
    ensures action.Write? ==>
              list.mem == if action.block < |blocks0| && action.offset < blocks0[action.block].size
                          then Scribble(old(list.mem), blocks0[action.block].start + action.offset)
                          else old(list.mem)
    ensures WritesOnly(old(list.mem), list.mem, WriteArea(action, old(list.regions), blocks0))
  {
    answer, blocks, e := Done, blocks0, Idle;
    match action
    case Request(size, alignment) =>
      var p := list.BootAlloc(size, alignment);
      answer, e := Pointer(p), Alloc(size, alignment, p);
      if p != NULL {
        blocks := blocks + [Region(p, size)];
      }
    case Write(k, offset) =>
      if k < |blocks| && offset < blocks[k].size {
        assert Has(blocks[k], blocks[k].start + offset);
        ScribbleWrites(list.mem, blocks[k].start + offset);
        list.ClientWrite(blocks[k].start + offset);
      }
    case Release(k) =>
      if k < |blocks| {
        HandedDonatable(env, State(list.regions, blocks), k);
        var err := list.BootFree(blocks[k].start, blocks[k].size);
        answer, e := Status(err), GiveBack(k, err);
        if err == Success {
          blocks := Without(blocks, k);
        }
      }
  }

  /**
    Serving any sequence of actions is a run with one event per action, reported truthfully to
    the caller; owners may write anything anywhere in their blocks meanwhile.  All of it, the
    owners' writes included, happens in memory that was free at the start.
   */
  method Serve(list: BootFreeList, env: Platform, actions: seq<Action>)
    returns (answers: seq<Answer>, blocks: seq<Region>, ghost states: seq<State>, ghost events: seq<Event>)
    requires list.Valid() && Sound(env, State(list.regions, []))
    requires forall i :: 0 <= i < |actions| && actions[i].Request? ==> Sane(actions[i].size, actions[i].alignment)
    modifies list
    ensures list.Valid() && Log(env, actions, answers, states, events)
    ensures states[0] == State(old(list.regions), []) && states[|actions|] == State(list.regions, blocks)
    ensures WritesOnly(old(list.mem), list.mem, old(list.regions))
  {
    answers, blocks, states, events := [], [], [State(list.regions, [])], [];
    for i := 0 to |actions|
      invariant list.Valid() && Log(env, actions[..i], answers, states, events)
      invariant states[0] == State(old(list.regions), []) && states[i] == State(list.regions, blocks)
      invariant Sound(env, State(list.regions, blocks)) && Stays(State(list.regions, blocks), old(list.regions))
      invariant WritesOnly(old(list.mem), list.mem, old(list.regions))
    {
      var answer;
      ghost var e;
      ghost var s, mem := State(list.regions, blocks), list.mem;
      answer, blocks, e := Perform(list, env, actions[i], blocks);
      NextStays(env, s, e, State(list.regions, blocks), old(list.regions));
      AreaStays(actions[i], s, old(list.regions));
      WritesTwice(old(list.mem), mem, list.mem, old(list.regions), WriteArea(actions[i], s.free, s.handed),
                  old(list.regions));
      NextKeepsSound(env, s, e, State(list.regions, blocks));
      LogGrows(env, actions[..i], answers, states, events, actions[i], answer, e, State(list.regions, blocks));
      assert actions[..i + 1] == actions[..i] + [actions[i]];
      answers, states, events := answers + [answer], states + [State(list.regions, blocks)], events + [e];
    }
    assert actions[..|actions|] == actions;
  }

  /** The actions follow the donations. */
  lemma WholeRun(env: Platform, passed: seq<Region>, boot: seq<State>,
                 actions: seq<Action>, answers: seq<Answer>, later: seq<State>, events: seq<Event>)
    requires Run(env, boot, Donated([], passed)) && boot[0] == State([], [])
    requires Log(env, actions, answers, later, events) && boot[|passed|] == later[0]
    ensures var states, all := boot + later[1..], Donated([], passed) + events;
            && Run(env, states, all) && states[0] == State([], []) && states[|passed|..] == later
            && (forall i :: 0 <= i < |states| ==> Safe(env, states[i]))
            && Total(Taken([], passed)) - WasteBound(events) <= Bytes(later[|actions|]) <= Total(Taken([], passed))
  {
    var states, all := boot + later[1..], Donated([], passed) + events;
    RunConcat(env, boot, Donated([], passed), later, events);
    RunIsSafe(env, states, all);
    assert states[|passed|..] == later && states[|states| - 1] == later[|actions|];
    CountsConcat(Donated([], passed), events);
    DonatedReceives([], passed);
    LogReceivesNothing(env, actions, answers, later, events);
  }

  lemma LogReceivesNothing(env: Platform, actions: seq<Action>, answers: seq<Answer>, states: seq<State>,
                           events: seq<Event>)
    requires Log(env, actions, answers, states, events)
    ensures Received(events) == 0
  {
    forall i | 0 <= i < |events| ensures !events[i].Donation? {
      assert Reported(actions[i], answers[i], states[i], events[i]);
    }
    NothingReceived(events);
  }

  /**
    From an empty list to any number of actions: one run, starting with the donations of all
    readings and going on with an event per action.  Every state of it is safe, and free plus
    owned bytes are those donated, less at most the padding.  After boot, that is before the
    first action, only permitted memory that was read is free, and all of it if none is lost.
   */
  ghost predicate WholeBoot(env: Platform, nodes: seq<MemoryNode>, actions: seq<Action>, answers: seq<Answer>,
                            passed: seq<Region>, states: seq<State>, events: seq<Event>, last: State) {
    && Rounds(env, Readings(nodes), passed)
    && Run(env, states, Donated([], passed) + events) && |states| == |passed| + |actions| + 1
    && states[0] == State([], []) && states[|passed| + |actions|] == last
    && Log(env, actions, answers, states[|passed|..], events)
    && (forall i :: 0 <= i < |states| ==> Safe(env, states[i]))
    && Total(Taken([], passed)) - WasteBound(events) <= Bytes(last) <= Total(Taken([], passed))
    && (forall x :: Covered(states[|passed|].free, x) ==> Permitted(env, x) && Read(nodes, x))
    && (NoneLost(env, Readings(nodes)) ==>
          forall x :: Permitted(env, x) && Read(nodes, x) ==> Covered(states[|passed|].free, x))
  }

  lemma BootIsWhole(env: Platform, nodes: seq<MemoryNode>, passed: seq<Region>, boot: seq<State>,
                    actions: seq<Action>, answers: seq<Answer>, later: seq<State>, events: seq<Event>)
    requires Rounds(env, Readings(nodes), passed)
    requires Run(env, boot, Donated([], passed)) && boot[0] == State([], [])
    requires Log(env, actions, answers, later, events) && boot[|passed|] == later[0]
    requires forall x :: Covered(later[0].free, x) ==> Permitted(env, x) && Read(nodes, x)
    requires NoneLost(env, Readings(nodes)) ==>
               forall x :: Permitted(env, x) && Read(nodes, x) ==> Covered(later[0].free, x)
    ensures WholeBoot(env, nodes, actions, answers, passed, boot + later[1..], events, later[|actions|])
  {
    WholeRun(env, passed, boot, actions, answers, later, events);
    var states := boot + later[1..];
    assert states[|passed|] == later[0] && states[|passed| + |actions|] == later[|actions|];
  }

  method BootAndServe(env: Platform, nodes: seq<MemoryNode>, actions: seq<Action>)
    returns (list: BootFreeList, answers: seq<Answer>, blocks: seq<Region>,
             ghost passed: seq<Region>, ghost states: seq<State>, ghost events: seq<Event>)
    requires env.Valid() && NodesFit(nodes) && Total(Readings(nodes)) < SIGNED
    requires forall i :: 0 <= i < |actions| && actions[i].Request? ==> Sane(actions[i].size, actions[i].alignment)
    ensures list.Valid()
    ensures WholeBoot(env, nodes, actions, answers, passed, states, events, State(list.regions, blocks))
  {
    list := new BootFreeList();
    var seen, freed;
    seen, freed, passed := FdtBootMemInit(list, env, nodes);
    ReadingsFit(nodes);
    RoundsFit(env, Readings(nodes), passed);
    ghost var boot := DonationsRun(env, [], passed);
    RunIsSafe(env, boot, Donated([], passed));
    ghost var later;
    answers, blocks, later, events := Serve(list, env, actions);
    states := boot + later[1..];
    BootIsWhole(env, nodes, passed, boot, actions, answers, later, events);
  }
}
