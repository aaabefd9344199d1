/**
  The two halves together: the reserve entries and the memory nodes come from the device tree
  blob, and what is left of the memory they describe feeds the allocator.
 */
module BootFromTree {
  import opened Regions
  import opened Alignment
  import opened FreeList
  import opened Reserved
  import opened BootRun
  import opened BootSequence
  import opened FdtBlob
  import opened FdtWalk
  import opened FdtTree
  import opened FdtSites
  import opened FdtSearch
  import opened FdtDevices
  import opened FdtReserve
  import opened FdtMeaning
  import opened FdtImage

  /** A blob from which the reservations and the memory nodes can be read. */
  predicate Bootable(f: Fdt) {
    && f.Readable() && |f.words| >= 40 && EntryInside(f, f.Be32(16)) && AllSound(f, Visits(f), DEVICE_TYPE)
  }

  /** What must not be donated: below the end of the kernel, the reserve entries, the blob itself. */
  function PlatformOf(f: Fdt, base: nat, kernelEnd: nat): Platform
    requires Bootable(f)
  {
    Platform(kernelEnd, EntriesFrom(f, f.Be32(16), EntryBegin(f, f.Be32(16))), Region(base, f.Be32(4)))
  }

  /** The nodes at these places, with their register blocks. */
  function WithBlocks(places: seq<nat>, regs: nat -> seq<Region>): (nodes: seq<MemoryNode>)
    ensures |nodes| == |places| && forall i :: 0 <= i < |places| ==> nodes[i].blocks == regs(places[i])
  {
    if places == [] then [] else WithBlocks(places[..|places| - 1], regs) + [MemoryNode(regs(places[|places| - 1]))]
  }

  function NodesOf(f: Fdt, regs: nat -> seq<Region>): seq<MemoryNode>
    requires Bootable(f)
  {
    WithBlocks(Typed(f, Visits(f), MEMORY), regs)
  }

  /** Block 0 of the memory node at one of these places contains the address. */
  ghost predicate ReadAt(places: seq<nat>, regs: nat -> seq<Region>, x: int) {
    exists p :: p in places && regs(p) != [] && Has(regs(p)[0], x)
  }

  /** One node for each place, in that order, with its own blocks; so what is read is block 0 at each place. */
  lemma NodesAreThere(places: seq<nat>, regs: nat -> seq<Region>)
    ensures var nodes := WithBlocks(places, regs);
            && |nodes| == |places| && (forall i :: 0 <= i < |places| ==> nodes[i] == MemoryNode(regs(places[i])))
            && forall x :: Read(nodes, x) <==> ReadAt(places, regs, x)
  {
    var nodes := WithBlocks(places, regs);
    forall x ensures Read(nodes, x) <==> ReadAt(places, regs, x) {
      if Read(nodes, x) {
        var i :| 0 <= i < |nodes| && FirstHas(nodes[i], x);
        assert places[i] in places;
      }
      if ReadAt(places, regs, x) {
        var p :| p in places && regs(p) != [] && Has(regs(p)[0], x);
        var i :| 0 <= i < |places| && places[i] == p;
        assert FirstHas(nodes[i], x);
      }
    }
  }

  method ReadNodes(places: seq<nat>, regs: nat -> seq<Region>) returns (nodes: seq<MemoryNode>)
    ensures nodes == WithBlocks(places, regs)
  {
    nodes := [];
    for i := 0 to |places|
      invariant nodes == WithBlocks(places[..i], regs)
    {
      assert places[..i + 1][..i] == places[..i];
      nodes := nodes + [MemoryNode(regs(places[i]))];
    }
    assert places[..|places|] == places;
  }

  /**
    From the blob to any number of actions.  Every state is safe: no byte of the kernel, of a
    reserve entry or of the blob, and no byte twice, is ever free or handed out; and what is
    free after boot lies in block 0 of a node found by `fdt_find_node_by_device_type`.
   */
  method BootFromBlob(f: Fdt, base: nat, kernelEnd: nat, regs: nat -> seq<Region>, actions: seq<Action>)
    returns (list: BootFreeList, answers: seq<Answer>, blocks: seq<Region>,
             ghost passed: seq<Region>, ghost states: seq<State>, ghost events: seq<Event>)
    requires Bootable(f) && PlatformOf(f, base, kernelEnd).Valid()
    requires NodesFit(NodesOf(f, regs)) && Total(Readings(NodesOf(f, regs))) < SIGNED
    requires forall i :: 0 <= i < |actions| && actions[i].Request? ==> Sane(actions[i].size, actions[i].alignment)
    ensures list.Valid()
    ensures WholeBoot(PlatformOf(f, base, kernelEnd), NodesOf(f, regs), actions, answers, passed, states, events,
                      State(list.regions, blocks))
    ensures forall x :: Covered(states[|passed|].free, x) ==>
                          Permitted(PlatformOf(f, base, kernelEnd), x) && ReadAt(Typed(f, Visits(f), MEMORY), regs, x)
  {
    var entries := ReserveEntries(f, f.Be32(16));
    var places := MemoryNodes(f);
    var nodes := ReadNodes(places, regs);
    list, answers, blocks, passed, states, events :=
      BootAndServe(Platform(kernelEnd, entries, Region(base, f.Be32(4))), nodes, actions);
    NodesAreThere(places, regs);
  }

  /**
    On the image of a tree with a list of reservations, exactly those reservations and the blob
    are kept out, and of the nodes of the tree exactly those whose "device_type" is "memory" are
    read, each with its own block 0, in pre-order.
   */
  lemma ImageBoots(f: Fdt, little: bool, rs: seq<Region>, lead: nat, root: Node,
                   base: nat, kernelEnd: nat, regs: nat -> seq<Region>)
    requires ReadsAs(f, little, rs, lead, root)
    ensures Bootable(f) && PlatformOf(f, base, kernelEnd) == Platform(kernelEnd, rs, Region(base, f.Be32(4)))
    ensures var places := Typed(f, Visits(f), MEMORY);
            && |NodesOf(f, regs)| == |places| && Increasing(places)
            && (forall p :: p in places <==> TypeAt(f, Sites(root, f.structStart + 4 * lead, []), MEMORY, p))
            && forall i :: 0 <= i < |places| ==> NodesOf(f, regs)[i] == MemoryNode(regs(places[i]))
  {
    FlattenedIsEncoded(f, little, lead, root);
    TypedInTree(f, lead, root, MEMORY);
    NodesAreThere(Typed(f, Visits(f), MEMORY), regs);
  }

  /** So the memory read is block 0 of the memory nodes of the tree. */
  lemma ImageReads(f: Fdt, little: bool, rs: seq<Region>, lead: nat, root: Node, regs: nat -> seq<Region>, x: int)
    requires ReadsAs(f, little, rs, lead, root)
    ensures Bootable(f)
    ensures Read(NodesOf(f, regs), x) <==>
              exists p :: TypeAt(f, Sites(root, f.structStart + 4 * lead, []), MEMORY, p)
                          && regs(p) != [] && Has(regs(p)[0], x)
  {
    ImageBoots(f, little, rs, lead, root, 0, 0, regs);
    NodesAreThere(Typed(f, Visits(f), MEMORY), regs);
  }
}
