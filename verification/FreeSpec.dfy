/**
  The boot allocator of kernel/mem/boot/free_list.c seen as steps on an address-ordered list of
  free regions: what `boot_alloc` and `boot_free` do to the list, and what that means for the
  addresses, alignment and byte counts a caller cares about.
 */
module FreeSpec {
  import opened Regions
  import opened Alignment

  /** `sizeof(struct boot_free_region)` on a 64-bit machine. */
  const HEADER: nat := 24

  const NULL: nat := 0

  datatype Error = Success | Exist | Empty

  /** Every region holds its header and ends below 2^64; addresses ascend without overlap. */
  ghost predicate Ordered(rs: seq<Region>) {
    && (forall i :: 0 <= i < |rs| ==> 0 < rs[i].start && HEADER <= rs[i].size && rs[i].End() < WORD)
    && (forall i, j :: 0 <= i < j < |rs| ==> rs[i].End() <= rs[j].start)
  }

  /** Fewer than 2^63 free bytes in all, so that no size is negative as an `ssize_t`. */
  ghost predicate WellFormed(rs: seq<Region>) { Ordered(rs) && Total(rs) < SIGNED }

  // ----- allocation on the list of regions

  datatype Carve = Carve(block: Region, rest: seq<Region>)

  /** The end that leaves more is used; less than a header's worth of rest is dropped. */
  function CarveFrom(r: Region, size: nat, alignment: nat): Carve
    requires BestLeft(r, size, alignment) >= 0
  {
    var left := BestLeft(r, size, alignment);
    if AfterLeft(r, size, alignment) == left then
      Carve(Region(r.start + left, size), if left < HEADER then [] else [Region(r.start, left)])
    else
      var pad := BeforePad(r, alignment);
      Carve(Region(r.start + pad, size), if left < HEADER then [] else [Region(r.start + size + pad, left)])
  }

  function Splice(rs: seq<Region>, k: nat, mid: seq<Region>): seq<Region>
    requires k < |rs|
  {
    rs[..k] + mid + rs[k + 1..]
  }

  /** What a request would leave of each region, negative where it does not fit. */
  ghost function Lefts(rs: seq<Region>, size: nat, alignment: nat): (ls: seq<int>)
    ensures |ls| == |rs|
  {
    if rs == [] then [] else [BestLeft(rs[0], size, alignment)] + Lefts(rs[1..], size, alignment)
  }

  lemma {:induction false} LeftsAt(rs: seq<Region>, size: nat, alignment: nat, i: nat)
    requires i < |rs|
    ensures Lefts(rs, size, alignment)[i] == BestLeft(rs[i], size, alignment)
  {
    if i > 0 { LeftsAt(rs[1..], size, alignment, i - 1); }
  }

  /** Entry `k` is the smallest non-negative one among the first `n`, and the lowest such. */
  ghost predicate Smallest(ls: seq<int>, k: nat, n: nat)
    requires n <= |ls|
  {
    && k < n && ls[k] >= 0
    && forall j :: 0 <= j < n && ls[j] >= 0 ==> ls[k] <= ls[j] && (j < k ==> ls[k] < ls[j])
  }

  /** The first `n` entries are all negative. */
  ghost predicate NoneFits(ls: seq<int>, n: nat)
    requires n <= |ls|
  {
    forall j :: 0 <= j < n ==> ls[j] < 0
  }

  /** Best fit: region `k` fits and is left smallest, the lowest address winning ties. */
  ghost predicate IsBest(rs: seq<Region>, size: nat, alignment: nat, k: nat) {
    Smallest(Lefts(rs, size, alignment), k, |rs|)
  }

  ghost predicate AllocFrom(rs: seq<Region>, size: nat, alignment: nat, k: nat, p: nat, rs': seq<Region>) {
    && IsBest(rs, size, alignment, k) && BestLeft(rs[k], size, alignment) >= 0
    && p == CarveFrom(rs[k], size, alignment).block.start
    && rs' == Splice(rs, k, CarveFrom(rs[k], size, alignment).rest)
  }

  /** `boot_alloc` as a step from one list of free regions to the next. */
  ghost predicate AllocStep(rs: seq<Region>, size: nat, alignment: nat, p: nat, rs': seq<Region>) {
    if p == NULL then
      rs' == rs && NoneFits(Lefts(rs, size, alignment), |rs|)
    else
      exists k: nat :: AllocFrom(rs, size, alignment, k, p, rs')
  }

  lemma SpliceOne(rs: seq<Region>, k: nat, r: Region)
    requires k < |rs|
    ensures rs[k := r] == Splice(rs, k, [r]) && Splice(rs[k := r], k, []) == Splice(rs, k, [])
  {
  }

  lemma SpliceTwo(rs: seq<Region>, k: nat, r: Region)
    requires k + 1 < |rs|
    ensures Splice(rs[k := r], k + 1, []) == rs[..k] + [r] + rs[k + 2..]
  {
  }

  // ----- donation on the list of regions

  predicate Conflicts(r: Region, b: Region) { r.start < b.End() && b.start < r.End() }

  /** Why `boot_free` answers `KERR_EXIST`: a real overlap, or contact only with the region above. */
  ghost predicate Refused(rs: seq<Region>, b: Region) {
    || (exists i :: 0 <= i < |rs| && Conflicts(rs[i], b))
    || ((exists i :: 0 <= i < |rs| && rs[i].start == b.End()) && !EndsAt(rs, b.start))
  }

  ghost predicate EndsAt(rs: seq<Region>, x: nat) { exists i :: 0 <= i < |rs| && rs[i].End() == x }

  ghost predicate MergedBefore(rs: seq<Region>, b: Region, k: nat, rs': seq<Region>) {
    && k < |rs| && rs[k].End() == b.start
    && (k + 1 < |rs| ==> b.End() < rs[k + 1].start)
    && rs' == Splice(rs, k, [Region(rs[k].start, rs[k].size + b.size)])
  }

  ghost predicate MergedBoth(rs: seq<Region>, b: Region, k: nat, rs': seq<Region>) {
    && k + 1 < |rs| && rs[k].End() == b.start && rs[k + 1].start == b.End()
    && rs' == rs[..k] + [Region(rs[k].start, rs[k].size + b.size + rs[k + 1].size)] + rs[k + 2..]
  }

  ghost predicate Inserted(rs: seq<Region>, b: Region, k: nat, rs': seq<Region>) {
    && k <= |rs| && HEADER <= b.size
    && (k > 0 ==> rs[k - 1].End() < b.start)
    && (k < |rs| ==> b.End() < rs[k].start)
    && rs' == rs[..k] + [b] + rs[k..]
  }

  ghost predicate Accepted(rs: seq<Region>, b: Region, k: nat, rs': seq<Region>) {
    MergedBefore(rs, b, k, rs') || MergedBoth(rs, b, k, rs') || Inserted(rs, b, k, rs')
  }

  /** `boot_free` as its header documents it. */
  ghost predicate FreeStep(rs: seq<Region>, b: Region, err: Error, rs': seq<Region>) {
    match err
    case Success => exists k: nat :: Accepted(rs, b, k, rs')
    case Exist => rs' == rs && Refused(rs, b)
    case Empty => rs' == rs && b.size < HEADER && !Refused(rs, b) && !EndsAt(rs, b.start)
  }

  // ----- taking lists apart and putting them together

  ghost predicate Under(rs: seq<Region>, x: int) { forall i :: 0 <= i < |rs| ==> rs[i].End() <= x }

  ghost predicate Over(rs: seq<Region>, x: int) { forall i :: 0 <= i < |rs| ==> x <= rs[i].start }

  /** The part below member `k`. */
  lemma CutLow(rs: seq<Region>, k: nat)
    requires Ordered(rs) && k <= |rs|
    ensures Ordered(rs[..k])
    ensures k < |rs| ==> Under(rs[..k], rs[k].start)
    ensures k > 0 ==> Under(rs[..k], rs[k - 1].End())
  {
    assert forall i :: 0 <= i < |rs[..k]| ==> rs[..k][i] == rs[i];
  }

  /** The part from member `k` upwards. */
  lemma CutHigh(rs: seq<Region>, k: nat)
    requires Ordered(rs) && k <= |rs|
    ensures Ordered(rs[k..])
    ensures k > 0 ==> Over(rs[k..], rs[k - 1].End())
    ensures k < |rs| ==> Over(rs[k..], rs[k].start)
  {
    var hi := rs[k..];
    assert forall i :: 0 <= i < |hi| ==> hi[i] == rs[k + i];
    if k < |rs| {
      forall i | 0 <= i < |hi| ensures rs[k].start <= hi[i].start {
        assert i == 0 || rs[k].End() <= rs[k + i].start;
      }
    }
  }

  lemma Sums(lo: seq<Region>, mid: seq<Region>, hi: seq<Region>)
    ensures Total(lo + mid + hi) == Total(lo) + Total(mid) + Total(hi)
    ensures forall x :: Covered(lo + mid + hi, x) <==> Covered(lo, x) || Covered(mid, x) || Covered(hi, x)
  {
    TotalConcat(lo, mid);
    TotalConcat(lo + mid, hi);
    CoveredConcat(lo, mid);
    CoveredConcat(lo + mid, hi);
  }

  lemma JoinTwo(a: seq<Region>, b: seq<Region>, x: int)
    requires Ordered(a) && Ordered(b) && Under(a, x) && Over(b, x)
    ensures Ordered(a + b)
  {
    forall i, j | 0 <= i < j < |a + b| ensures (a + b)[i].End() <= (a + b)[j].start {
      if i < |a| <= j { assert a[i].End() <= x <= b[j - |a|].start; }
    }
  }

  /** Parts separated by the addresses `x` and `y` make an ordered list again. */
  lemma Join(lo: seq<Region>, r: Region, hi: seq<Region>)
    requires Ordered(lo) && Ordered([r]) && Ordered(hi) && Under(lo, r.start) && Over(hi, r.End())
    ensures Ordered(lo + [r] + hi)
  {
    JoinTwo(lo, [r], r.start);
    assert Under(lo + [r], r.End());
    JoinTwo(lo + [r], hi, r.End());
  }

  // ----- the steps keep the list well formed

  lemma MemberSize(rs: seq<Region>, k: nat)
    requires k < |rs|
    ensures rs[k].size <= Total(rs)
  {
    TotalAround(rs, k);
  }

  lemma SpliceTotal(rs: seq<Region>, k: nat, mid: seq<Region>)
    requires k < |rs|
    ensures Total(Splice(rs, k, mid)) == Total(rs) - rs[k].size + Total(mid)
  {
    TotalAround(rs, k);
    TotalConcat(rs[..k], mid);
    TotalConcat(rs[..k] + mid, rs[k + 1..]);
  }

  /** A member may be replaced by at most one region lying inside it. */
  lemma SpliceOrder(rs: seq<Region>, k: nat, mid: seq<Region>)
    requires Ordered(rs) && k < |rs| && |mid| <= 1
    requires mid != [] ==> rs[k].start <= mid[0].start && mid[0].End() <= rs[k].End() && HEADER <= mid[0].size
    ensures Ordered(Splice(rs, k, mid))
  {
    CutLow(rs, k);
    CutHigh(rs, k + 1);
    if mid == [] {
      assert rs[..k] + mid == rs[..k];
      JoinTwo(rs[..k], rs[k + 1..], rs[k].start);
    } else {
      assert mid == [mid[0]];
      Join(rs[..k], mid[0], rs[k + 1..]);
    }
  }

  lemma SpliceKeeps(rs: seq<Region>, k: nat, mid: seq<Region>)
    requires WellFormed(rs) && k < |rs| && |mid| <= 1
    requires mid != [] ==> rs[k].start <= mid[0].start && mid[0].End() <= rs[k].End() && HEADER <= mid[0].size
    ensures WellFormed(Splice(rs, k, mid))
    ensures Total(Splice(rs, k, mid)) == Total(rs) - rs[k].size + Total(mid)
  {
    SpliceOrder(rs, k, mid);
    SpliceTotal(rs, k, mid);
    assert mid != [] ==> Total(mid) == mid[0].size;
  }

  /** Addresses outside the replaced member stay as they were. */
  lemma SpliceCovers(rs: seq<Region>, k: nat, mid: seq<Region>)
    requires Ordered(rs) && k < |rs|
    ensures forall x :: Covered(Splice(rs, k, mid), x) <==> Covered(mid, x) || (Covered(rs, x) && !Has(rs[k], x))
  {
    Sums(rs[..k], mid, rs[k + 1..]);
    Sums(rs[..k], [rs[k]], rs[k + 1..]);
    CoveredSingle(rs[k]);
    assert rs == rs[..k] + [rs[k]] + rs[k + 1..];
    CutLow(rs, k);
    CutHigh(rs, k + 1);
  }

  /** Block and rest lie inside the region and apart from each other; the block is aligned. */
  lemma CarveInside(r: Region, size: nat, alignment: nat)
    requires 0 < r.start && r.size < SIGNED && r.End() < WORD && Sane(size, alignment)
    requires BestLeft(r, size, alignment) >= 0
    ensures var c := CarveFrom(r, size, alignment);
            && c.block.size == size && 0 < c.block.start && Aligned(c.block.start, alignment)
            && r.start <= c.block.start && c.block.End() <= r.End()
            && |c.rest| <= 1
            && (c.rest != [] ==>
                  && HEADER <= c.rest[0].size && r.start <= c.rest[0].start && c.rest[0].End() <= r.End()
                  && (c.rest[0].End() <= c.block.start || c.block.End() <= c.rest[0].start))
  {
    PlainLefts(r, size, alignment);
    AfterEnd(r, size, alignment);
    BeforeStart(r, size, alignment);
  }

  /** A carve from the end, with plain arithmetic. */
  lemma CarveAtEnd(r: Region, size: nat, alignment: nat)
    requires r.size < SIGNED && r.End() < WORD && Sane(size, alignment)
    requires AfterLeft(r, size, alignment) == BestLeft(r, size, alignment) >= 0
    ensures var left := r.size - (size + AfterPad(r, size, alignment));
            && 0 <= left <= r.size
            && CarveFrom(r, size, alignment)
                 == Carve(Region(r.start + left, size), if left < HEADER then [] else [Region(r.start, left)])
  {
    PlainLefts(r, size, alignment);
  }

  /** A carve from the start, with plain arithmetic. */
  lemma CarveAtStart(r: Region, size: nat, alignment: nat)
    requires r.size < SIGNED && r.End() < WORD && Sane(size, alignment)
    requires AfterLeft(r, size, alignment) < BestLeft(r, size, alignment) && BestLeft(r, size, alignment) >= 0
    ensures var pad := BeforePad(r, alignment);
            var left := r.size - (size + pad);
            && 0 <= pad && 0 <= left <= r.size
            && CarveFrom(r, size, alignment)
                 == Carve(Region(r.start + pad, size),
                          if left < HEADER then [] else [Region(r.start + size + pad, left)])
  {
    PlainLefts(r, size, alignment);
  }

  /** One more region that does not fit better. */
  lemma SmallestStays(ls: seq<int>, k: nat, n: nat)
    requires n < |ls| && Smallest(ls, k, n) && (ls[n] < 0 || ls[k] <= ls[n])
    ensures Smallest(ls, k, n + 1)
  {
  }

  lemma NoneFitsYet(ls: seq<int>, n: nat)
    requires n < |ls| && NoneFits(ls, n)
    ensures if ls[n] < 0 then NoneFits(ls, n + 1) else Smallest(ls, n, n + 1)
  {
  }

  /** One more region that does. */
  lemma SmallestMoves(ls: seq<int>, k: nat, n: nat)
    requires n < |ls| && Smallest(ls, k, n) && 0 <= ls[n] < ls[k]
    ensures Smallest(ls, n, n + 1)
  {
  }

  lemma LeftBelowSize(rs: seq<Region>, k: nat, size: nat, alignment: nat)
    requires WellFormed(rs) && k < |rs| && Sane(size, alignment)
    ensures BestLeft(rs[k], size, alignment) <= rs[k].size < SIGNED
  {
    MemberSize(rs, k);
    PlainLefts(rs[k], size, alignment);
  }


  // ----- what an allocation promises

  lemma FitsExactly(rs: seq<Region>, size: nat, alignment: nat, i: nat)
    requires WellFormed(rs) && Sane(size, alignment) && i < |rs|
    ensures Lefts(rs, size, alignment)[i] >= 0 <==> Fits(rs[i], size, alignment)
  {
    MemberSize(rs, i);
    LeftsAt(rs, size, alignment, i);
    ScanTestIsExact(rs[i], size, alignment);
  }

  /** A failed allocation means that no free region holds an aligned block of that size, and conversely. */
  lemma AllocFailsExactly(rs: seq<Region>, size: nat, alignment: nat, p: nat, rs': seq<Region>)
    requires WellFormed(rs) && Sane(size, alignment) && AllocStep(rs, size, alignment, p, rs')
    ensures p == NULL <==> forall i :: 0 <= i < |rs| ==> !Fits(rs[i], size, alignment)
  {
    if p == NULL {
      forall i | 0 <= i < |rs| ensures !Fits(rs[i], size, alignment) {
        FitsExactly(rs, size, alignment, i);
      }
    } else {
      var k: nat :| AllocFrom(rs, size, alignment, k, p, rs');
      FitsExactly(rs, size, alignment, k);
    }
  }

  /** What is left of region `r` by a block of that size with the smaller padding. */
  function LeftOf(r: Region, size: nat, alignment: nat): int { r.size - size - LeastPad(r, size, alignment) }

  /** Region `k` is left smallest among all that hold an aligned block, the lowest address winning ties. */
  ghost predicate BestFit(rs: seq<Region>, size: nat, alignment: nat, k: nat) {
    && k < |rs| && Fits(rs[k], size, alignment)
    && forall j :: 0 <= j < |rs| && Fits(rs[j], size, alignment) ==>
                     && LeftOf(rs[k], size, alignment) <= LeftOf(rs[j], size, alignment)
                     && (j < k ==> LeftOf(rs[k], size, alignment) < LeftOf(rs[j], size, alignment))
  }

  lemma BestLeftIs(rs: seq<Region>, size: nat, alignment: nat, i: nat)
    requires WellFormed(rs) && Sane(size, alignment) && i < |rs|
    ensures Lefts(rs, size, alignment)[i] == LeftOf(rs[i], size, alignment)
    ensures Fits(rs[i], size, alignment) <==> LeftOf(rs[i], size, alignment) >= 0
  {
    MemberSize(rs, i);
    LeftsAt(rs, size, alignment, i);
    GreaterLeft(rs[i], size, alignment);
    ScanTestIsExact(rs[i], size, alignment);
  }

  lemma BestIsBestFit(rs: seq<Region>, size: nat, alignment: nat, k: nat)
    requires WellFormed(rs) && Sane(size, alignment) && IsBest(rs, size, alignment, k)
    ensures BestFit(rs, size, alignment, k)
  {
    BestLeftIs(rs, size, alignment, k);
    forall j | 0 <= j < |rs| && Fits(rs[j], size, alignment)
      ensures LeftOf(rs[k], size, alignment) <= LeftOf(rs[j], size, alignment)
      ensures j < k ==> LeftOf(rs[k], size, alignment) < LeftOf(rs[j], size, alignment)
    {
      BestLeftIs(rs, size, alignment, j);
    }
  }

  /** The carve of region `r` in plain arithmetic: from the end with the smaller padding, a tie going to the end. */
  lemma CarvePlainly(r: Region, size: nat, alignment: nat)
    requires r.size < SIGNED && r.End() < WORD && Sane(size, alignment) && BestLeft(r, size, alignment) >= 0
    ensures var a, b, left := AfterPad(r, size, alignment), BeforePad(r, alignment), LeftOf(r, size, alignment);
            var c := CarveFrom(r, size, alignment);
            && left >= 0
            && c.block == Region(if b < a then r.start + b else r.End() - size - a, size)
            && c.rest == if left < 24 then []
                         else if b < a then [Region(r.start + b + size, left)] else [Region(r.start, left)]
  {
    GreaterLeft(r, size, alignment);
    if AfterLeft(r, size, alignment) == BestLeft(r, size, alignment) {
      CarveAtEnd(r, size, alignment);
    } else {
      PlainLefts(r, size, alignment);
      CarveAtStart(r, size, alignment);
    }
  }

  /**
    Where a block comes from, said without the scan: from the best-fitting region, at whichever
    end costs less padding, the end of the region on ties.  What is left stays in the list as one
    region, if it can hold the 24 bytes of a header.
   */
  lemma AllocExactly(rs: seq<Region>, size: nat, alignment: nat, p: nat, rs': seq<Region>) returns (k: nat)
    requires WellFormed(rs) && Sane(size, alignment) && p != NULL && AllocStep(rs, size, alignment, p, rs')
    ensures BestFit(rs, size, alignment, k)
    ensures var r := rs[k];
            var a, b, left := AfterPad(r, size, alignment), BeforePad(r, alignment), LeftOf(r, size, alignment);
            && left >= 0 && p == (if b < a then r.start + b else r.End() - size - a)
            && rs' == rs[..k] + (if left < 24 then []
                                 else if b < a then [Region(p + size, left)] else [Region(r.start, left)]) + rs[k + 1..]
  {
    k :| AllocFrom(rs, size, alignment, k, p, rs');
    assert BestFit(rs, size, alignment, k) by { BestIsBestFit(rs, size, alignment, k); }
    AllocFromPlainly(rs, size, alignment, k, p, rs');
  }

  lemma AllocFromPlainly(rs: seq<Region>, size: nat, alignment: nat, k: nat, p: nat, rs': seq<Region>)
    requires WellFormed(rs) && Sane(size, alignment) && k < |rs| && BestLeft(rs[k], size, alignment) >= 0
    requires var c := CarveFrom(rs[k], size, alignment); p == c.block.start && rs' == Splice(rs, k, c.rest)
    ensures var r := rs[k];
            var a, b, left := AfterPad(r, size, alignment), BeforePad(r, alignment), LeftOf(r, size, alignment);
            && left >= 0 && p == (if b < a then r.start + b else r.End() - size - a)
            && rs' == rs[..k] + (if left < 24 then []
                                 else if b < a then [Region(p + size, left)] else [Region(r.start, left)]) + rs[k + 1..]
  {
    MemberSize(rs, k);
    CarvePlainly(rs[k], size, alignment);
  }

  /** Unaligned at both ends: the start costs 16 bytes of padding, the end 2048, so the block is at the start. */
  lemma StartIsCheaper(rs': seq<Region>, p: nat)
    requires AllocStep([Region(0x1ff0, 0x2810)], 0x1000, 12, p, rs')
    ensures p == 0x2000 && rs' == [Region(0x3000, 0x1800)]
  {
    assert Pow2(12) == 4096 by { assert Pow2(6) == 64; }
    StartIsCheaperAt([Region(0x1ff0, 0x2810)], p, rs');
  }

  lemma StartIsCheaperAt(rs: seq<Region>, p: nat, rs': seq<Region>)
    requires rs == [Region(0x1ff0, 0x2810)] && AllocStep(rs, 0x1000, 12, p, rs') && Pow2(12) == 4096
    ensures p == 0x2000 && rs' == [Region(0x3000, 0x1800)]
  {
    assert WellFormed(rs) by { assert Total(rs) == 0x2810; }
    PlainLefts(rs[0], 0x1000, 12);
    assert p != NULL by { LeftsAt(rs, 0x1000, 12, 0); }
    var k := AllocExactly(rs, 0x1000, 12, p, rs');
  }

  /** An unpadded request that leaves 23 bytes: too few for a header, so they are lost, and no request loses more. */
  lemma SliverIsLost(rs': seq<Region>, p: nat)
    requires AllocStep([Region(0x1000, 0x40)], 0x29, 0, p, rs')
    ensures p == 0x1017 && rs' == [] && Pow2(0) + 24 - 2 == 23
  {
    assert Pow2(0) == 1;
    SliverIsLostAt([Region(0x1000, 0x40)], p, rs');
  }

  lemma SliverIsLostAt(rs: seq<Region>, p: nat, rs': seq<Region>)
    requires rs == [Region(0x1000, 0x40)] && AllocStep(rs, 0x29, 0, p, rs') && Pow2(0) == 1
    ensures p == 0x1017 && rs' == []
  {
    assert WellFormed(rs) by { assert Total(rs) == 0x40; }
    PlainLefts(rs[0], 0x29, 0);
    assert p != NULL by { LeftsAt(rs, 0x29, 0, 0); }
    var k := AllocExactly(rs, 0x29, 0, p, rs');
  }

  /** The block: aligned, inside one formerly free region, and no longer free afterwards. */
  lemma AllocGrants(rs: seq<Region>, size: nat, alignment: nat, p: nat, rs': seq<Region>)
    requires WellFormed(rs) && Sane(size, alignment) && p != NULL
    requires AllocStep(rs, size, alignment, p, rs')
    ensures Aligned(p, alignment)
    ensures exists k :: 0 <= k < |rs| && rs[k].start <= p && p + size <= rs[k].End()
    ensures forall x :: Has(Region(p, size), x) ==> Covered(rs, x) && !Covered(rs', x)
    ensures forall x :: Covered(rs', x) ==> Covered(rs, x)
  {
    var k: nat :| AllocFrom(rs, size, alignment, k, p, rs');
    var c := CarveFrom(rs[k], size, alignment);
    MemberSize(rs, k);
    CarveInside(rs[k], size, alignment);
    SpliceCovers(rs, k, c.rest);
    InBlock(rs, k, c);
  }

  /** Addresses of a block carved out of member `k`. */
  lemma InBlock(rs: seq<Region>, k: nat, c: Carve)
    requires k < |rs| && rs[k].start <= c.block.start && c.block.End() <= rs[k].End()
    requires c.rest == [] || (|c.rest| == 1 && (c.rest[0].End() <= c.block.start || c.block.End() <= c.rest[0].start))
    requires c.rest != [] ==> rs[k].start <= c.rest[0].start && c.rest[0].End() <= rs[k].End()
    ensures forall x :: Has(c.block, x) ==> Has(rs[k], x) && Covered(rs, x) && !Covered(c.rest, x)
    ensures forall x :: Covered(c.rest, x) ==> Has(rs[k], x) && Covered(rs, x)
  {
    forall x | Has(rs[k], x) ensures Covered(rs, x) {}
    if c.rest != [] {
      assert c.rest == [c.rest[0]];
      CoveredSingle(c.rest[0]);
    }
  }

  /** What a carve leaves out of its region besides the block itself. */
  lemma CarveWaste(r: Region, size: nat, alignment: nat)
    requires r.size < SIGNED && r.End() < WORD && Sane(size, alignment)
    requires BestLeft(r, size, alignment) >= 0
    ensures var rest := CarveFrom(r, size, alignment).rest;
            0 <= r.size - Total(rest) - size <= Pow2(alignment) + HEADER - 2
  {
    PlainLefts(r, size, alignment);
    var rest := CarveFrom(r, size, alignment).rest;
    assert Total(rest) == if rest == [] then 0 else rest[0].size;
  }

  /** Free bytes drop by the request plus padding plus at most a dropped sliver. */
  lemma AllocConserves(rs: seq<Region>, size: nat, alignment: nat, p: nat, rs': seq<Region>)
    requires WellFormed(rs) && Sane(size, alignment)
    requires AllocStep(rs, size, alignment, p, rs')
    ensures WellFormed(rs')
    ensures p == NULL ==> rs' == rs
    ensures p != NULL ==> 0 <= Total(rs) - Total(rs') - size <= Pow2(alignment) + HEADER - 2
  {
    if p != NULL {
      var k: nat :| AllocFrom(rs, size, alignment, k, p, rs');
      MemberSize(rs, k);
      CarveInside(rs[k], size, alignment);
      CarveWaste(rs[k], size, alignment);
      SpliceKeeps(rs, k, CarveFrom(rs[k], size, alignment).rest);
    }
  }

  // ----- what a donation promises

  ghost predicate Donatable(rs: seq<Region>, b: Region) {
    0 < b.start && b.End() < WORD && Total(rs) + b.size < SIGNED
  }

  /** The `d` members at `k` and the donated block together become the single region `r`. */
  ghost predicate Absorbs(rs: seq<Region>, b: Region, k: nat, d: nat, r: Region) {
    && k + d <= |rs| && HEADER <= r.size && 0 < r.start && r.End() < WORD
    && (k > 0 ==> rs[k - 1].End() <= r.start) && (k + d < |rs| ==> r.End() <= rs[k + d].start)
    && match d
       case 0 => r == b
       case 1 => rs[k].End() == b.start && r == Region(rs[k].start, rs[k].size + b.size)
       case 2 => && rs[k].End() == b.start && rs[k + 1].start == b.End()
                 && r == Region(rs[k].start, rs[k].size + b.size + rs[k + 1].size)
       case _ => false
  }

  /** That region holds exactly the block and those members, which do not overlap. */
  ghost predicate MadeOf(r: Region, b: Region, part: seq<Region>) {
    && r.size == Total(part) + b.size
    && (forall x :: Has(r, x) <==> Has(b, x) || Covered(part, x))
    && (forall x :: Has(b, x) ==> !Covered(part, x))
  }

  lemma MadeOfTwo(r: Region, b: Region)
    requires r.End() == b.start
    ensures MadeOf(Region(r.start, r.size + b.size), b, [r])
  {
    CoveredSingle(r);
    assert Total([r]) == r.size;
  }

  lemma MadeOfThree(r: Region, b: Region, q: Region)
    requires r.End() == b.start && b.End() == q.start
    ensures MadeOf(Region(r.start, r.size + b.size + q.size), b, [r, q])
  {
    assert [r, q] == [r] + [q];
    CoveredConcat([r], [q]);
    CoveredSingle(r);
    CoveredSingle(q);
    TotalConcat([r], [q]);
    assert Total([r]) == r.size && Total([q]) == q.size;
  }

  lemma AbsorbedPart(rs: seq<Region>, b: Region, k: nat, d: nat, r: Region)
    requires Absorbs(rs, b, k, d, r)
    ensures MadeOf(r, b, rs[k..k + d])
  {
    if d == 0 {
      assert rs[k..k + d] == [];
    } else if d == 1 {
      assert rs[k..k + d] == [rs[k]];
      MadeOfTwo(rs[k], b);
    } else {
      assert rs[k..k + d] == [rs[k], rs[k + 1]];
      MadeOfThree(rs[k], b, rs[k + 1]);
    }
  }

  /** A range between two parts of a list shares no address with either. */
  lemma Between(lo: seq<Region>, r: Region, hi: seq<Region>)
    requires Under(lo, r.start) && Over(hi, r.End())
    ensures forall x :: Has(r, x) ==> !Covered(lo, x) && !Covered(hi, x)
  {
  }

  lemma AbsorbOrder(rs: seq<Region>, b: Region, k: nat, d: nat, r: Region)
    requires Ordered(rs) && Absorbs(rs, b, k, d, r)
    ensures Ordered(rs[..k] + [r] + rs[k + d..])
    ensures forall x :: Has(r, x) ==> !Covered(rs[..k], x) && !Covered(rs[k + d..], x)
  {
    CutLow(rs, k);
    CutHigh(rs, k + d);
    assert Under(rs[..k], r.start) && Over(rs[k + d..], r.End());
    Join(rs[..k], r, rs[k + d..]);
    Between(rs[..k], r, rs[k + d..]);
  }

  /** Exactly the block's bytes and addresses have come in, none of them free before. */
  ghost predicate Added(rs: seq<Region>, b: Region, rs': seq<Region>) {
    && WellFormed(rs') && Total(rs') == Total(rs) + b.size
    && (forall x :: Covered(rs', x) <==> Covered(rs, x) || Has(b, x))
    && (forall x :: Has(b, x) ==> !Covered(rs, x))
  }

  lemma AbsorbKeeps(rs: seq<Region>, b: Region, k: nat, d: nat, r: Region)
    requires WellFormed(rs) && Donatable(rs, b) && Absorbs(rs, b, k, d, r)
    ensures Added(rs, b, rs[..k] + [r] + rs[k + d..])
  {
    AbsorbOrder(rs, b, k, d, r);
    AbsorbedPart(rs, b, k, d, r);
    ThreeParts(rs, k, k + d);
    SwapMiddle(rs[..k], rs[k..k + d], r, rs[k + d..], b, rs);
  }

  /** Replacing the middle of a list by the region made of it and a block. */
  lemma SwapMiddle(lo: seq<Region>, part: seq<Region>, r: Region, hi: seq<Region>, b: Region, rs: seq<Region>)
    requires rs == lo + part + hi && MadeOf(r, b, part) && Ordered(lo + [r] + hi) && Total(rs) + b.size < SIGNED
    requires forall x :: Has(r, x) ==> !Covered(lo, x) && !Covered(hi, x)
    ensures Added(rs, b, lo + [r] + hi)
  {
    Sums(lo, part, hi);
    Sums(lo, [r], hi);
    CoveredSingle(r);
    assert Total([r]) == r.size;
  }

  lemma AcceptedAbsorbs(rs: seq<Region>, b: Region, k: nat, rs': seq<Region>) returns (d: nat, r: Region)
    requires WellFormed(rs) && Donatable(rs, b) && Accepted(rs, b, k, rs')
    ensures Absorbs(rs, b, k, d, r) && rs' == rs[..k] + [r] + rs[k + d..]
  {
    if MergedBefore(rs, b, k, rs') {
      d, r := 1, Region(rs[k].start, rs[k].size + b.size);
    } else if MergedBoth(rs, b, k, rs') {
      d, r := 2, Region(rs[k].start, rs[k].size + b.size + rs[k + 1].size);
    } else {
      d, r := 0, b;
    }
  }

  /**
    A donation keeps the list well formed.  When accepted, exactly the donated addresses are
    added, none of which was free before; otherwise nothing changes.
   */
  lemma FreeAdds(rs: seq<Region>, b: Region, err: Error, rs': seq<Region>)
    requires WellFormed(rs) && Donatable(rs, b) && FreeStep(rs, b, err, rs')
    ensures WellFormed(rs')
    ensures err != Success ==> rs' == rs
    ensures err == Success ==>
              && Total(rs') == Total(rs) + b.size
              && (forall x :: Covered(rs', x) <==> Covered(rs, x) || Has(b, x))
              && (forall x :: Has(b, x) ==> !Covered(rs, x))
  {
    if err == Success {
      var k: nat :| Accepted(rs, b, k, rs');
      var d, r := AcceptedAbsorbs(rs, b, k, rs');
      AbsorbKeeps(rs, b, k, d, r);
    }
  }

  /** A block strictly between two neighbours meets no region. */
  lemma InsertGap(rs: seq<Region>, b: Region, k: nat)
    requires Ordered(rs) && k <= |rs|
    requires (k > 0 ==> rs[k - 1].End() < b.start) && (k < |rs| ==> b.End() < rs[k].start)
    ensures !Refused(rs, b) && !EndsAt(rs, b.start)
  {
    CutLow(rs, k);
    CutHigh(rs, k);
    forall i | 0 <= i < |rs| ensures rs[i].End() < b.start || b.End() < rs[i].start {
      if i < k { assert rs[..k][i] == rs[i]; } else { assert rs[k..][i - k] == rs[i]; }
    }
  }

  /** A block that starts where a region ends and does not reach into the next meets no region. */
  lemma MergeGap(rs: seq<Region>, b: Region, k: nat)
    requires Ordered(rs) && k < |rs| && rs[k].End() == b.start
    requires k + 1 < |rs| ==> b.End() <= rs[k + 1].start
    ensures !Refused(rs, b) && EndsAt(rs, b.start)
  {
    CutLow(rs, k);
    CutHigh(rs, k + 1);
    forall i | 0 <= i < |rs| ensures rs[i].End() <= b.start || b.End() <= rs[i].start {
      if i < k {
        assert rs[..k][i] == rs[i];
      } else if i > k {
        assert rs[k + 1..][i - k - 1] == rs[i];
      }
    }
  }

  /** The scan's last case: the first region not wholly below the block reaches down to its end. */
  lemma OverlapRefused(rs: seq<Region>, b: Region, k: nat)
    requires Ordered(rs) && k < |rs| && (k > 0 ==> rs[k - 1].End() < b.start)
    requires b.start < rs[k].End() && rs[k].start <= b.End()
    ensures Refused(rs, b)
  {
    if rs[k].start == b.End() {
      CutLow(rs, k);
      CutHigh(rs, k + 1);
      forall i | 0 <= i < |rs| ensures rs[i].End() != b.start {
        if i < k {
          assert rs[..k][i] == rs[i];
        } else if i > k {
          assert rs[k + 1..][i - k - 1] == rs[i];
        }
      }
    } else {
      assert Conflicts(rs[k], b);
    }
  }

  /** Where an accepted block goes. */
  ghost predicate Goes(rs: seq<Region>, b: Region, k: nat) {
    || (k < |rs| && rs[k].End() == b.start && (k + 1 < |rs| ==> b.End() <= rs[k + 1].start))
    || (k <= |rs| && HEADER <= b.size && (k > 0 ==> rs[k - 1].End() < b.start) && (k < |rs| ==> b.End() < rs[k].start))
  }

  lemma AcceptedGoes(rs: seq<Region>, b: Region, k: nat, rs': seq<Region>)
    requires Accepted(rs, b, k, rs')
    ensures Goes(rs, b, k)
  {
  }

  lemma GoesUnrefused(rs: seq<Region>, b: Region, k: nat)
    requires Ordered(rs) && Goes(rs, b, k)
    ensures !Refused(rs, b) && (EndsAt(rs, b.start) || HEADER <= b.size)
  {
    if k < |rs| && rs[k].End() == b.start && (k + 1 < |rs| ==> b.End() <= rs[k + 1].start) {
      MergeGap(rs, b, k);
    } else {
      InsertGap(rs, b, k);
    }
  }

  /** Which answer a donation gets is decided by the list and the block alone. */
  lemma FreeAnswer(rs: seq<Region>, b: Region, err: Error, rs': seq<Region>)
    requires Ordered(rs) && FreeStep(rs, b, err, rs')
    ensures err == Exist <==> Refused(rs, b)
    ensures err == Empty <==> !Refused(rs, b) && !EndsAt(rs, b.start) && b.size < HEADER
  {
    if err == Success {
      var k: nat :| Accepted(rs, b, k, rs');
      AcceptedGoes(rs, b, k, rs');
      GoesUnrefused(rs, b, k);
    }
  }
}
