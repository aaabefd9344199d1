/**
  The boot allocator with its state: a head pointer and memory holding the headers.  A ghost
  list of regions is tied to both by the invariant, and every method says what it does to
  that list.
 */
module FreeList {
  import opened Regions
  import opened Alignment
  import opened FreeSpec
  import opened FreeLinks
  import opened AsWritten

  // ----- writes stay in free memory

  lemma OwnWrites(mem: Memory, mem': Memory, rs: seq<Region>)
    requires Ordered(rs) && Kept(mem, mem', rs)
    ensures WritesOnly(mem, mem', rs)
  {
    forall i, x | 0 <= i < |rs| && rs[i].start <= x < rs[i].start + HEADER ensures Covered(rs, x) {
      assert Has(rs[i], x);
    }
    KeptWrites(mem, mem', rs, rs);
  }

  lemma MoreWrites(mem: Memory, mem': Memory, rs: seq<Region>, b: Region)
    requires WritesOnly(mem, mem', rs)
    ensures WritesOnly(mem, mem', rs + [b])
  {
    CoveredConcat(rs, [b]);
    WritesTwice(mem, mem', mem', rs, [], rs + [b]);
  }

  /** A header moved inside its own region. */
  lemma InnerWrites(mem: Memory, mem': Memory, rs: seq<Region>, k: nat, r: Region)
    requires Ordered(rs) && k < |rs| && Kept(mem, mem', rs + [r])
    requires rs[k].start <= r.start && r.End() <= rs[k].End() && HEADER <= r.size
    ensures WritesOnly(mem, mem', rs)
  {
    var places := rs + [r];
    forall i, x | 0 <= i < |places| && places[i].start <= x < places[i].start + HEADER ensures Covered(rs, x) {
      assert Has(rs[if i < |rs| then i else k], x);
    }
    KeptWrites(mem, mem', places, rs);
  }

  /** A header written into the donated block. */
  lemma DonatedWrites(mem: Memory, mem': Memory, rs: seq<Region>, b: Region)
    requires Ordered(rs) && HEADER <= b.size && Kept(mem, mem', rs + [b])
    ensures WritesOnly(mem, mem', rs + [b])
  {
    var places := rs + [b];
    forall i, x | 0 <= i < |places| && places[i].start <= x < places[i].start + HEADER ensures Covered(places, x) {
      assert Has(places[i], x);
    }
    KeptWrites(mem, mem', places, places);
  }

  class BootFreeList {
    var head: nat
    var mem: Memory
    ghost var regions: seq<Region>

    ghost predicate Valid()
      reads this
    {
      WellFormed(regions) && Linked(head, mem, regions)
    }

    constructor ()
      ensures Valid() && regions == []
    {
      head, mem, regions := NULL, map[], [];
    }

    /** Takes region `k` out of the list: its neighbours, or the head, bypass it. */
    method Unlink(region: nat, ghost k: nat)
      requires Spaced(regions) && Linked(head, mem, regions)
      requires k < |regions| && regions[k].start == region
      modifies this
      ensures regions == Splice(old(regions), k, [])
      ensures Linked(head, mem, regions) && Kept(old(mem), mem, old(regions))
    {
      assert LinkAt(mem, regions, k);
      BypassLinks(mem, regions, k);
      ghost var bypassed := Bypass(mem, regions, k);
      var h := mem[region];
      if h.prev != NULL {
        assert LinkAt(mem, regions, k - 1);
        StoreIsKept(mem, regions, k - 1, mem[h.prev].(next := h.next));
        mem := Store(mem, h.prev, mem[h.prev].(next := h.next));
      } else {
        head := h.next;
      }
      if h.next != NULL {
        assert LinkAt(old(mem), regions, k + 1);
        StoreIsKept(mem, regions, k + 1, mem[h.next].(prev := h.prev));
        KeptTwice(old(mem), mem, Store(mem, h.next, mem[h.next].(prev := h.prev)), regions);
        mem := Store(mem, h.next, mem[h.next].(prev := h.prev));
      }
      assert mem == bypassed;
      regions := Splice(regions, k, []);
    }

    /** Changes the size recorded for region `k`. */
    method Resize(region: nat, size: nat, ghost k: nat)
      requires Spaced(regions) && Linked(head, mem, regions)
      requires k < |regions| && regions[k].start == region
      modifies this
      ensures regions == old(regions)[k := Region(region, size)]
      ensures Linked(head, mem, regions) && Kept(old(mem), mem, old(regions))
    {
      ResizeLinks(mem, regions, k, size);
      StoreIsKept(mem, regions, k, mem[region].(size := size));
      mem := Store(mem, region, mem[region].(size := size));
      regions := regions[k := Region(region, size)];
    }

    /** Region `k` keeps its first `left` bytes, or goes if they cannot hold its header. */
    method ShrinkTo(region: nat, left: nat, ghost k: nat)
      requires Spaced(regions) && Linked(head, mem, regions)
      requires k < |regions| && regions[k].start == region
      modifies this
      ensures regions == Splice(old(regions), k, if left < HEADER then [] else [Region(region, left)])
      ensures Linked(head, mem, regions) && Kept(old(mem), mem, old(regions))
    {
      SpliceOne(regions, k, Region(region, left));
      Resize(region, left, k);
      ghost var mid := mem;
      if left < HEADER {
        ghost var resized := regions;
        Unlink(region, k);
        KeptResized(mid, mem, old(regions), resized);
        KeptTwice(old(mem), mid, mem, old(regions));
      }
    }

    method AllocAfter(region: nat, size: nat, alignment: nat, ghost k: nat) returns (p: nat)
      requires Valid() && Sane(size, alignment)
      requires k < |regions| && regions[k].start == region
      requires AfterLeft(regions[k], size, alignment) == BestLeft(regions[k], size, alignment) >= 0
      modifies this
      ensures var c := CarveFrom(old(regions)[k], size, alignment);
              p == c.block.start && regions == Splice(old(regions), k, c.rest)
      ensures Linked(head, mem, regions) && WritesOnly(old(mem), mem, old(regions))
    {
      MemberSize(regions, k);
      CarveAtEnd(regions[k], size, alignment);
      assert LinkAt(mem, regions, k);
      var unalignment := AfterPad(Region(region, mem[region].size), size, alignment);
      var left := mem[region].size - (size + unalignment);
      ShrinkTo(region, left, k);
      OwnWrites(old(mem), mem, old(regions));
      p := region + left;
    }

    /** Writes a header between `prev` and `next` and makes both, or the head, point to it. */
    method AttachHeader(prev: nat, r: Region, next: nat, ghost k: nat, ghost d: nat)
      requires d <= 1 && k + d <= |regions| && prev == StartAt(regions, k - 1) && next == StartAt(regions, k + d)
      requires Linked(head, mem, regions) && Spaced(regions) && Spaced(Placed(regions, k, d, r))
      modifies this
      ensures regions == Placed(old(regions), k, d, r)
      ensures Linked(head, mem, regions) && Kept(old(mem), mem, old(regions) + [r])
    {
      ghost var places := regions + [r];
      assert places[|regions|] == r;
      StoreIsKept(mem, places, |regions|, Header(next, prev, r.size));
      AttachLinks(mem, regions, k, d, r);
      AttachDefined(mem, regions, k, d, r);
      ghost var attached := Attach(mem, prev, r, next);
      mem := Store(mem, r.start, Header(next, prev, r.size));
      ghost var mem1 := mem;
      if prev != NULL {
        StoreIsKept(mem, places, k - 1, mem[prev].(next := r.start));
        mem := Store(mem, prev, mem[prev].(next := r.start));
      } else {
        head := r.start;
      }
      ghost var mem2 := mem;
      KeptTwice(old(mem), mem1, mem2, places);
      if next != NULL {
        StoreIsKept(mem, places, k + d, mem[next].(prev := r.start));
        mem := Store(mem, next, mem[next].(prev := r.start));
      }
      KeptTwice(old(mem), mem2, mem, places);
      assert mem == attached;
      regions := Placed(regions, k, d, r);
    }

    /** Region `k` gives way to one inside it, whose header is written anew, or goes if that cannot hold one. */
    method ShiftTo(region: nat, newRegion: Region, ghost k: nat)
      requires Valid() && k < |regions| && regions[k].start == region
      requires region <= newRegion.start && newRegion.End() <= regions[k].End()
      modifies this
      ensures regions == Splice(old(regions), k, if newRegion.size < HEADER then [] else [newRegion])
      ensures Linked(head, mem, regions) && WritesOnly(old(mem), mem, old(regions))
    {
      assert LinkAt(mem, regions, k);
      if newRegion.size < HEADER {
        Unlink(region, k);
        OwnWrites(old(mem), mem, old(regions));
      } else {
        var prev, next := mem[region].prev, mem[region].next;
        SpliceKeeps(regions, k, [newRegion]);
        assert Splice(regions, k, [newRegion]) == Placed(regions, k, 1, newRegion);
        AttachHeader(prev, newRegion, next, k, 1);
        InnerWrites(old(mem), mem, old(regions), k, newRegion);
      }
    }

    method AllocBefore(region: nat, size: nat, alignment: nat, ghost k: nat) returns (p: nat)
      requires Valid() && Sane(size, alignment)
      requires k < |regions| && regions[k].start == region
      requires AfterLeft(regions[k], size, alignment) < BestLeft(regions[k], size, alignment)
      requires BestLeft(regions[k], size, alignment) >= 0
      modifies this
      ensures var c := CarveFrom(old(regions)[k], size, alignment);
              p == c.block.start && regions == Splice(old(regions), k, c.rest)
      ensures Linked(head, mem, regions) && WritesOnly(old(mem), mem, old(regions))
    {
      ghost var r := regions[k];
      MemberSize(regions, k);
      CarveAtStart(r, size, alignment);
      assert LinkAt(mem, regions, k);
      var unalignment := BeforePad(Region(region, mem[region].size), alignment);
      var newSize := mem[region].size - (size + unalignment);
      ShiftTo(region, Region(region + (size + unalignment), newSize), k);
      p := region + unalignment;
    }

    /** The scan of `boot_alloc`: which region serves the request, and from which end. */
    method FindBest(size: nat, alignment: nat) returns (fitting: nat, before: bool, ghost k: nat)
      requires Valid() && Sane(size, alignment)
      ensures fitting == NULL ==> NoneFits(Lefts(regions, size, alignment), |regions|)
      ensures fitting != NULL ==>
                && IsBest(regions, size, alignment, k) && fitting == regions[k].start
                && BestLeft(regions[k], size, alignment) >= 0
                && before == (AfterLeft(regions[k], size, alignment) != BestLeft(regions[k], size, alignment))
    {
      fitting, before, k := NULL, false, 0;
      var fit := WORD - 1;
      var curr := head;
      ghost var i, lefts := 0, Lefts(regions, size, alignment);
      while curr != NULL
        invariant 0 <= i <= |regions| && curr == StartAt(regions, i)
        invariant fitting == NULL ==> fit == WORD - 1 && NoneFits(lefts, i)
        invariant fitting != NULL ==>
                    && Smallest(lefts, k, i) && fitting == regions[k].start
                    && fit == lefts[k] == BestLeft(regions[k], size, alignment)
                    && before == (AfterLeft(regions[k], size, alignment) != fit)
        decreases |regions| - i
      {
        assert LinkAt(mem, regions, i);
        var region, next := Region(curr, mem[curr].size), mem[curr].next;
        assert region == regions[i] && next == StartAt(regions, i + 1);
        LeftBelowSize(regions, i, size, alignment);
        LeftsAt(regions, size, alignment, i);
        var after := AfterLeft(region, size, alignment);
        var greater := BestLeft(region, size, alignment);
        assert lefts[i] == greater;
        if fitting == NULL {
          NoneFitsYet(lefts, i);
        } else if 0 <= greater < fit {
          SmallestMoves(lefts, k, i);
        } else {
          SmallestStays(lefts, k, i);
        }
        if greater >= 0 {
          if fit > greater {
            fit, fitting, before, k := greater, curr, after != greater, i;
          }
        }
        curr, i := next, i + 1;
      }
    }

    /** Best-fit search over the list, then a carve from the chosen end. */
    method BootAlloc(size: nat, alignment: nat) returns (p: nat)
      requires Valid() && Sane(size, alignment)
      modifies this
      ensures Valid()
      ensures AllocStep(old(regions), size, alignment, p, regions)
      ensures WritesOnly(old(mem), mem, old(regions))
    {
      var fitting, before, k := FindBest(size, alignment);
      if fitting == NULL {
        return NULL;
      }
      MemberSize(regions, k);
      CarveInside(regions[k], size, alignment);
      SpliceKeeps(regions, k, CarveFrom(regions[k], size, alignment).rest);
      if before {
        p := AllocBefore(fitting, size, alignment, k);
      } else {
        p := AllocAfter(fitting, size, alignment, k);
      }
      assert AllocFrom(old(regions), size, alignment, k, p, regions);
    }

    /** The branch of `boot_free` for a block that starts where region `k` ends. */
    method MergeAbove(curr: nat, start: nat, size: nat, ghost k: nat) returns (err: Error)
      requires Spaced(regions) && Linked(head, mem, regions)
      requires k < |regions| && regions[k].start == curr && regions[k].End() == start
      requires k + 1 < |regions| ==> start < regions[k + 1].End()
      modifies this
      ensures Linked(head, mem, regions) && Kept(old(mem), mem, old(regions))
      ensures FreeStep(old(regions), Region(start, size), err, regions)
    {
      assert LinkAt(mem, regions, k);
      var end, next := start + size, mem[curr].next;
      if next != NULL && next == end {
        assert LinkAt(mem, regions, k + 1);
        Swallow(curr, next, size, k);
        assert Accepted(old(regions), Region(start, size), k, regions);
        return Success;
      } else if next == NULL || next > end {
        SpliceOne(regions, k, Region(curr, mem[curr].size + size));
        Resize(curr, mem[curr].size + size, k);
        assert Accepted(old(regions), Region(start, size), k, regions);
        return Success;
      }
      assert Conflicts(regions[k + 1], Region(start, size));
      return Exist;
    }

    /** Region `k` grows over `size` bytes and the whole of its successor. */
    method Swallow(curr: nat, next: nat, size: nat, ghost k: nat)
      requires Spaced(regions) && Linked(head, mem, regions)
      requires k + 1 < |regions| && regions[k].start == curr && regions[k + 1].start == next
      modifies this
      ensures Linked(head, mem, regions) && Kept(old(mem), mem, old(regions))
      ensures var rs := old(regions);
              regions == rs[..k] + [Region(curr, rs[k].size + size + rs[k + 1].size)] + rs[k + 2..]
    {
      assert LinkAt(mem, regions, k) && LinkAt(mem, regions, k + 1);
      Resize(curr, mem[curr].size + (size + mem[next].size), k);
      SpliceTwo(old(regions), k, regions[k]);
      ghost var mid, resized := mem, regions;
      Unlink(next, k + 1);
      KeptResized(mid, mem, old(regions), resized);
      KeptTwice(old(mem), mid, mem, old(regions));
    }

    /** The end of `boot_free`: a new region goes between two that it does not touch. */
    method InsertBetween(before: nat, start: nat, size: nat, after: nat, ghost k: nat) returns (err: Error)
      requires Valid() && Donatable(regions, Region(start, size))
      requires k <= |regions| && before == StartAt(regions, k - 1) && after == StartAt(regions, k)
      requires (k > 0 ==> regions[k - 1].End() < start) && (k < |regions| ==> start + size < regions[k].start)
      modifies this
      ensures Linked(head, mem, regions) && WritesOnly(old(mem), mem, old(regions) + [Region(start, size)])
      ensures FreeStep(old(regions), Region(start, size), err, regions)
    {
      ghost var b := Region(start, size);
      if size < HEADER {
        InsertGap(regions, b, k);
        return Empty;
      }
      assert Accepted(regions, b, k, Placed(regions, k, 0, b));
      FreeAdds(regions, b, Success, Placed(regions, k, 0, b));
      AttachHeader(before, Region(start, size), after, k, 0);
      DonatedWrites(old(mem), mem, old(regions), b);
      return Success;
    }

    /**
      `boot_free` as its header documents it: the C code with byte-sized ends, a loop that
      advances, an insertion that copes with a missing neighbour, and the size check wherever
      a new header is needed.
     */
    method BootFree(start: nat, size: nat) returns (err: Error)
      requires Valid() && Donatable(regions, Region(start, size))
      modifies this
      ensures Valid()
      ensures FreeStep(old(regions), Region(start, size), err, regions)
      ensures WritesOnly(old(mem), mem, old(regions) + [Region(start, size)])
    {
      ghost var b := Region(start, size);
      var end := start + size;
      var before, after, curr := NULL, NULL, head;
      ghost var i := 0;
      while curr != NULL
        invariant 0 <= i <= |regions| && curr == StartAt(regions, i) && before == StartAt(regions, i - 1)
        invariant after == NULL && (i > 0 ==> regions[i - 1].End() < start)
        modifies {}
        decreases |regions| - i
      {
        assert LinkAt(mem, regions, i);
        var currEnd := curr + mem[curr].size;
        if currEnd == start {
          break;
        } else if currEnd < start {
          before := curr;
        } else if curr > end {
          after := curr;
          break;
        } else {
          OverlapRefused(regions, b, i);
          return Exist;
        }
        curr, i := mem[curr].next, i + 1;
      }
      if curr != NULL && after == NULL {
        err := MergeAbove(curr, start, size, i);
        OwnWrites(old(mem), mem, old(regions));
        MoreWrites(old(mem), mem, old(regions), b);
      } else {
        err := InsertBetween(before, start, size, after, i);
      }
      FreeAdds(old(regions), b, err, regions);
    }

    /** `boot_free` with every branch as the C code has it; a null-pointer write is a fault. */
    method BootFreeLiterally(start: nat, size: nat) returns (fault: bool, err: Error)
      requires Valid() && Donatable(regions, Region(start, size))
      modifies this
      ensures var o := FreeLiterally(old(regions), Region(start, size));
              if fault then o == Fault else o == Returned(err, regions) && Linked(head, mem, regions)
    {
      fault, err := false, Exist;
      var end := start + size;
      if head == NULL {
        if size < HEADER {
          return false, Empty;
        }
        mem := Store(mem, start, Header(NULL, NULL, size));
        head := start;
        regions := [Region(start, size)];
        return false, Success;
      }
      var curr := head;
      assert LinkAt(mem, regions, 0);
      var currEnd := (curr + HEADER * mem[curr].size) % WORD;
      if currEnd == start {
        var next := mem[curr].next;
        if next != NULL && next == end {
          Swallow(curr, next, size, 0);
          return false, Success;
        } else if next == NULL || next > end {
          Resize(curr, mem[curr].size + size, 0);
          return false, Success;
        }
        return false, Exist;
      } else if currEnd < start {
        return false, Exist;
      } else if curr > end {
        return true, Exist;
      }
      return false, Exist;
    }

    /** Anyone may write to memory that is not free: the list does not live there. */
    method ClientWrite(x: nat)
      requires Valid() && !Covered(regions, x)
      modifies this
      ensures Valid() && regions == old(regions) && mem == Scribble(old(mem), x)
    {
      mem := Scribble(mem, x);
      forall i | 0 <= i < |regions| ensures LinkAt(mem, regions, i) {
        assert LinkAt(old(mem), regions, i);
        assert !Has(regions[i], x);
      }
    }
  }
}
