/**
  kernel/of/fdt_mem.c: what is left of a RAM region once the kernel, every reserve entry and
  the device tree blob have been cut out of it, and the donation of the pieces.
 */
module Reserved {
  import opened Regions
  import opened FreeSpec
  import opened FreeLinks
  import opened FreeList
  import opened Donations

  datatype Platform = Platform(kernelEnd: nat, entries: seq<Region>, blob: Region) {
    /** Reservations do not wrap, and there is something below the end of the kernel. */
    ghost predicate Valid() {
      0 < kernelEnd < WORD && blob.End() < WORD && forall i :: 0 <= i < |entries| ==> entries[i].End() < WORD
    }

    function Cuts(): seq<Region> { entries + [blob] }
  }

  /** Memory that may be handed to the allocator. */
  ghost predicate Permitted(env: Platform, x: int) {
    env.kernelEnd <= x && !Covered(env.entries, x) && !Has(env.blob, x)
  }

  ghost predicate Usable(env: Platform, r: Region, x: int) { Has(r, x) && Permitted(env, x) }

  /** A reservation that would cut the range in two. */
  predicate Splits(cut: Region, lo: int, hi: int) { lo < cut.start && cut.End() < hi }

  function CountSplits(cuts: seq<Region>, lo: int, hi: int): nat {
    if cuts == [] then 0
    else (if Splits(cuts[0], lo, hi) then 1 else 0) + CountSplits(cuts[1..], lo, hi)
  }

  lemma {:induction false} CountShrinks(cuts: seq<Region>, lo: int, hi: int, lo': int, hi': int)
    requires lo <= lo' && hi' <= hi
    ensures CountSplits(cuts, lo', hi') <= CountSplits(cuts, lo, hi) <= |cuts|
  {
    if cuts != [] { CountShrinks(cuts[1..], lo, hi, lo', hi'); }
  }

  /** Once it has split a range, a reservation splits neither half, and no other splits both. */
  lemma {:induction false} CountHalves(cuts: seq<Region>, lo: int, hi: int, k: nat)
    requires k < |cuts| && Splits(cuts[k], lo, hi)
    ensures CountSplits(cuts, lo, cuts[k].start) + CountSplits(cuts, cuts[k].End(), hi) + 1 <= CountSplits(cuts, lo, hi)
  {
    if k > 0 {
      CountHalves(cuts[1..], lo, hi, k - 1);
    } else {
      CountOthers(cuts[1..], lo, hi, cuts[0]);
    }
  }

  lemma {:induction false} CountOthers(cuts: seq<Region>, lo: int, hi: int, cut: Region)
    requires Splits(cut, lo, hi)
    ensures CountSplits(cuts, lo, cut.start) + CountSplits(cuts, cut.End(), hi) <= CountSplits(cuts, lo, hi)
  {
    if cuts != [] { CountOthers(cuts[1..], lo, hi, cut); }
  }

  // ----- the pieces of a range

  /** What a reservation that does not split the range leaves of it. */
  function Trimmed(r: Region, cut: Region): (t: Region)
    ensures t.size <= r.size
  {
    if cut.End() <= r.start || r.End() < cut.start then r
    else if cut.start > r.start then Region(r.start, cut.start - r.start)
    else if cut.End() < r.End() then Region(cut.End(), r.End() - cut.End())
    else Region(0, 0)
  }

  function AboveKernel(env: Platform, r: Region): (t: Region)
    ensures t.size <= r.size
  {
    if env.kernelEnd <= r.start then r
    else if env.kernelEnd < r.End() then Region(env.kernelEnd, r.End() - env.kernelEnd)
    else Region(0, 0)
  }

  /** What is left of a range after the reservations from `i` on, lowest address first. */
  function PiecesFrom(env: Platform, cur: Region, i: nat): seq<Region>
    requires i <= |env.Cuts()|
    decreases cur.size, |env.Cuts()| - i
  {
    if cur.size == 0 then []
    else if i == |env.Cuts()| then [cur]
    else
      var cut := env.Cuts()[i];
      if Splits(cut, cur.start, cur.End()) then
        Pieces(env, Region(cur.start, cut.start - cur.start)) + Pieces(env, Region(cut.End(), cur.End() - cut.End()))
      else
        PiecesFrom(env, Trimmed(cur, cut), i + 1)
  }

  function Pieces(env: Platform, r: Region): seq<Region>
    decreases r.size, |env.Cuts()| + 1
  {
    PiecesFrom(env, AboveKernel(env, r), 0)
  }

  /** All ways of passing on one of `a` and one of `b`, either first. */
  ghost function BothWays(a: set<seq<Region>>, b: set<seq<Region>>): set<seq<Region>> {
    (set p, q | p in a && q in b :: p + q) + (set p, q | p in a && q in b :: q + p)
  }

  /** The orders in which the pieces may be passed on: at every split either side first. */
  ghost function OrdersFrom(env: Platform, cur: Region, i: nat): set<seq<Region>>
    requires i <= |env.Cuts()|
    decreases cur.size, |env.Cuts()| - i
  {
    if cur.size == 0 then {[]}
    else if i == |env.Cuts()| then {[cur]}
    else
      var cut := env.Cuts()[i];
      if Splits(cut, cur.start, cur.End()) then
        BothWays(Orders(env, Region(cur.start, cut.start - cur.start)),
                 Orders(env, Region(cut.End(), cur.End() - cut.End())))
      else
        OrdersFrom(env, Trimmed(cur, cut), i + 1)
  }

  ghost function Orders(env: Platform, r: Region): set<seq<Region>>
    decreases r.size, |env.Cuts()| + 1
  {
    OrdersFrom(env, AboveKernel(env, r), 0)
  }

  lemma {:induction false} OrdersFromPermute(env: Platform, cur: Region, i: nat, p: seq<Region>)
    requires i <= |env.Cuts()| && p in OrdersFrom(env, cur, i)
    ensures multiset(p) == multiset(PiecesFrom(env, cur, i))
    decreases cur.size, |env.Cuts()| - i
  {
    if cur.size != 0 && i < |env.Cuts()| {
      var cut := env.Cuts()[i];
      if Splits(cut, cur.start, cur.End()) {
        var left, right := Region(cur.start, cut.start - cur.start), Region(cut.End(), cur.End() - cut.End());
        SidesPermute(env, left, right, p, cur.size);
      } else {
        OrdersFromPermute(env, Trimmed(cur, cut), i + 1, p);
      }
    }
  }

  lemma {:induction false} SidesPermute(env: Platform, left: Region, right: Region, p: seq<Region>, bound: nat)
    requires left.size < bound && right.size < bound
    requires p in BothWays(Orders(env, left), Orders(env, right))
    ensures multiset(p) == multiset(Pieces(env, left) + Pieces(env, right))
    decreases bound, 0
  {
    var l, r := OfBothWays(Orders(env, left), Orders(env, right), p);
    OrdersPermute(env, left, l);
    OrdersPermute(env, right, r);
    assert multiset(p) == multiset(l) + multiset(r);
  }

  lemma OfBothWays(a: set<seq<Region>>, b: set<seq<Region>>, p: seq<Region>) returns (l: seq<Region>, r: seq<Region>)
    requires p in BothWays(a, b)
    ensures l in a && r in b && (p == l + r || p == r + l)
  {
    if p in (set p, q | p in a && q in b :: p + q) {
      l, r :| l in a && r in b && p == l + r;
    } else {
      l, r :| l in a && r in b && p == r + l;
    }
  }

  /** Every order passes on exactly the pieces. */
  lemma {:induction false} OrdersPermute(env: Platform, r: Region, p: seq<Region>)
    requires p in Orders(env, r)
    ensures multiset(p) == multiset(Pieces(env, r))
    decreases r.size, |env.Cuts()| + 1
  {
    OrdersFromPermute(env, AboveKernel(env, r), 0, p);
  }

  /** Ascending order is one of them. */
  lemma {:induction false} PiecesFromOrdered(env: Platform, cur: Region, i: nat)
    requires i <= |env.Cuts()|
    ensures PiecesFrom(env, cur, i) in OrdersFrom(env, cur, i)
    decreases cur.size, |env.Cuts()| - i
  {
    if cur.size != 0 && i < |env.Cuts()| {
      var cut := env.Cuts()[i];
      if Splits(cut, cur.start, cur.End()) {
        PiecesOrdered(env, Region(cur.start, cut.start - cur.start));
        PiecesOrdered(env, Region(cut.End(), cur.End() - cut.End()));
      } else {
        PiecesFromOrdered(env, Trimmed(cur, cut), i + 1);
      }
    }
  }

  lemma {:induction false} PiecesOrdered(env: Platform, r: Region)
    ensures Pieces(env, r) in Orders(env, r)
    decreases r.size, |env.Cuts()| + 1
  {
    PiecesFromOrdered(env, AboveKernel(env, r), 0);
  }

  /** One reservation further on in the loop. */
  lemma OneCut(env: Platform, cur: Region, i: nat, left: Region, split: bool, right: Region)
    requires i < |env.Cuts()| && cur.size != 0 && split == Splits(env.Cuts()[i], cur.start, cur.End())
    requires !split ==> left == Trimmed(cur, env.Cuts()[i])
    requires split ==> && left.start == cur.start && left.End() == env.Cuts()[i].start
                       && right.start == env.Cuts()[i].End() && right.End() == cur.End()
    ensures split ==> PiecesFrom(env, cur, i) == Pieces(env, left) + Pieces(env, right)
    ensures !split && left.size == 0 ==> PiecesFrom(env, cur, i) == []
    ensures !split && left.size != 0 ==>
              PiecesFrom(env, cur, i) == if i + 1 == |env.Cuts()| then [left] else PiecesFrom(env, left, i + 1)
  {
    if split {
      var cut := env.Cuts()[i];
      assert left == Region(cur.start, cut.start - cur.start);
      assert right == Region(cut.End(), cur.End() - cut.End());
    } else {
      TrimPieces(env, cur, i, left);
      LastPieces(env, left, i + 1);
    }
  }

  lemma TrimPieces(env: Platform, cur: Region, i: nat, left: Region)
    requires i < |env.Cuts()| && cur.size != 0 && !Splits(env.Cuts()[i], cur.start, cur.End())
    requires left == Trimmed(cur, env.Cuts()[i])
    ensures PiecesFrom(env, cur, i) == PiecesFrom(env, left, i + 1)
  {
  }

  lemma LastPieces(env: Platform, cur: Region, i: nat)
    requires i <= |env.Cuts()|
    ensures cur.size == 0 ==> PiecesFrom(env, cur, i) == []
    ensures cur.size != 0 && i == |env.Cuts()| ==> PiecesFrom(env, cur, i) == [cur]
  {
  }

  // The same for the orders.

  lemma SidesOf(cur: Region, cut: Region, left: Region, right: Region)
    requires Splits(cut, cur.start, cur.End()) && left.start == cur.start && left.End() == cut.start
    requires right.start == cut.End() && right.End() == cur.End()
    ensures left == Region(cur.start, cut.start - cur.start) && right == Region(cut.End(), cur.End() - cut.End())
  {
  }

  lemma OrdersOfSplit(env: Platform, cur: Region, i: nat, all: set<seq<Region>>)
    requires i < |env.Cuts()| && cur.size != 0 && Splits(env.Cuts()[i], cur.start, cur.End())
    requires var cut := env.Cuts()[i];
             all == BothWays(Orders(env, Region(cur.start, cut.start - cur.start)),
                             Orders(env, Region(cut.End(), cur.End() - cut.End())))
    ensures OrdersFrom(env, cur, i) == all
  {
  }

  lemma TrimOrders(env: Platform, cur: Region, i: nat, left: Region)
    requires i < |env.Cuts()| && cur.size != 0 && !Splits(env.Cuts()[i], cur.start, cur.End())
    requires left == Trimmed(cur, env.Cuts()[i])
    ensures OrdersFrom(env, cur, i) == OrdersFrom(env, left, i + 1)
  {
  }

  lemma LastOrders(env: Platform, cur: Region, i: nat)
    requires i <= |env.Cuts()|
    ensures cur.size == 0 ==> OrdersFrom(env, cur, i) == {[]}
    ensures cur.size != 0 && i == |env.Cuts()| ==> OrdersFrom(env, cur, i) == {[cur]}
  {
  }

  /** What the pieces of a range are, without saying how they are found. */
  ghost predicate MakeUp(env: Platform, r: Region, ps: seq<Region>) {
    && (forall x :: Covered(ps, x) <==> Usable(env, r, x))
    && PairwiseApart(ps)
    && (forall i :: 0 <= i < |ps| ==> 0 < ps[i].size)
    && Total(ps) <= r.size && |ps| <= CountSplits(env.Cuts(), r.start, r.End()) + 1
  }

  lemma CutsCovered(env: Platform)
    ensures forall x :: Covered(env.Cuts(), x) <==> Covered(env.entries, x) || Has(env.blob, x)
  {
    CoveredConcat(env.entries, [env.blob]);
    CoveredSingle(env.blob);
  }

  /** A range narrowed to its usable part has the same pieces. */
  lemma Narrowed(env: Platform, r: Region, cur: Region, ps: seq<Region>)
    requires MakeUp(env, cur, ps) && cur.size <= r.size
    requires cur.size == 0 || (r.start <= cur.start && cur.End() <= r.End())
    requires forall x :: Usable(env, r, x) <==> Usable(env, cur, x)
    ensures MakeUp(env, r, ps)
  {
    if cur.size == 0 {
      assert ps == [];
    } else {
      CountShrinks(env.Cuts(), r.start, r.End(), cur.start, cur.End());
    }
  }

  /** The pieces of the two sides of a reservation make up those of the whole. */
  lemma JoinPieces(env: Platform, cur: Region, k: nat, left: Region, right: Region, p: seq<Region>, q: seq<Region>)
    requires k < |env.Cuts()| && Splits(env.Cuts()[k], cur.start, cur.End())
    requires left.start == cur.start && left.End() == env.Cuts()[k].start
    requires right.start == env.Cuts()[k].End() && right.End() == cur.End()
    requires MakeUp(env, left, p) && MakeUp(env, right, q)
    ensures MakeUp(env, cur, p + q)
  {
    var cut := env.Cuts()[k];
    CountHalves(env.Cuts(), cur.start, cur.End(), k);
    TotalConcat(p, q);
    CoveredConcat(p, q);
    CutsCovered(env);
    assert forall x :: Has(cut, x) ==> Covered(env.Cuts(), x);
    PairwiseConcat(p, q);
  }

  /** Trimming and splitting take away exactly the reserved addresses. */
  lemma CutExactly(r: Region, cut: Region)
    ensures !Splits(cut, r.start, r.End()) ==> forall x :: Has(Trimmed(r, cut), x) <==> Has(r, x) && !Has(cut, x)
    ensures Splits(cut, r.start, r.End()) ==>
              forall x :: Has(Region(r.start, cut.start - r.start), x) || Has(Region(cut.End(), r.End() - cut.End()), x)
                          <==> Has(r, x) && !Has(cut, x)
  {
  }

  /** Cutting away one more reservation. */
  lemma TrimMore(env: Platform, cur: Region, i: nat)
    requires i < |env.Cuts()| && !Splits(env.Cuts()[i], cur.start, cur.End())
    ensures var t, cut := Trimmed(cur, env.Cuts()[i]), env.Cuts()[i];
            && (forall x :: Has(t, x) <==> Has(cur, x) && !Has(cut, x))
            && (forall x :: Usable(env, cur, x) <==> Usable(env, t, x))
            && (t.size == 0 || (cur.start <= t.start && t.End() <= cur.End()))
  {
    CutsCovered(env);
    var cut := env.Cuts()[i];
    assert forall x :: Has(cut, x) ==> Covered(env.Cuts(), x);
  }

  ghost predicate Clear(env: Platform, cur: Region, i: nat)
    requires i <= |env.Cuts()|
  {
    forall x :: Has(cur, x) ==> env.kernelEnd <= x && !Covered(env.Cuts()[..i], x)
  }

  lemma ClearMore(env: Platform, cur: Region, t: Region, i: nat)
    requires i < |env.Cuts()| && Clear(env, cur, i)
    requires forall x :: Has(t, x) <==> Has(cur, x) && !Has(env.Cuts()[i], x)
    ensures Clear(env, t, i + 1)
  {
    var cuts := env.Cuts();
    assert cuts[..i + 1] == cuts[..i] + [cuts[i]];
    CoveredConcat(cuts[..i], [cuts[i]]);
    CoveredSingle(cuts[i]);
  }

  lemma {:induction false} PiecesFromMakeUp(env: Platform, cur: Region, i: nat)
    requires i <= |env.Cuts()| && Clear(env, cur, i)
    ensures MakeUp(env, cur, PiecesFrom(env, cur, i))
    decreases cur.size, |env.Cuts()| - i
  {
    if cur.size == 0 {
    } else if i == |env.Cuts()| {
      CutsCovered(env);
      assert env.Cuts()[..i] == env.Cuts();
      CoveredSingle(cur);
      assert Total([cur]) == cur.size;
    } else {
      var cut := env.Cuts()[i];
      if Splits(cut, cur.start, cur.End()) {
        var left, right := Region(cur.start, cut.start - cur.start), Region(cut.End(), cur.End() - cut.End());
        PiecesMakeUp(env, left);
        PiecesMakeUp(env, right);
        JoinPieces(env, cur, i, left, right, Pieces(env, left), Pieces(env, right));
      } else {
        var t := Trimmed(cur, cut);
        TrimMore(env, cur, i);
        ClearMore(env, cur, t, i);
        PiecesFromMakeUp(env, t, i + 1);
        Narrowed(env, cur, t, PiecesFrom(env, t, i + 1));
      }
    }
  }

  lemma KernelCut(env: Platform, r: Region)
    ensures var cur := AboveKernel(env, r);
            && Clear(env, cur, 0) && (cur.size == 0 || (r.start <= cur.start && cur.End() <= r.End()))
            && forall x :: Usable(env, r, x) <==> Usable(env, cur, x)
  {
    assert env.Cuts()[..0] == [];
  }

  /**
    The pieces of a range are non-empty, pairwise disjoint, at most one more than the
    reservations that split it, and together hold exactly its usable addresses.
   */
  lemma {:induction false} PiecesMakeUp(env: Platform, r: Region)
    ensures MakeUp(env, r, Pieces(env, r))
    decreases r.size, |env.Cuts()| + 1
  {
    var cur := AboveKernel(env, r);
    KernelCut(env, r);
    PiecesFromMakeUp(env, cur, 0);
    Narrowed(env, r, cur, PiecesFrom(env, cur, 0));
  }

  /** No reservation that splits the range is empty. */
  ghost predicate Gapped(env: Platform, r: Region) {
    forall k :: 0 <= k < |env.Cuts()| && Splits(env.Cuts()[k], r.start, r.End()) ==> 0 < env.Cuts()[k].size
  }

  ghost predicate Within(ps: seq<Region>, r: Region) {
    forall p :: p in ps ==> 0 < p.size && r.start <= p.start && p.End() <= r.End()
  }

  lemma PiecesWithin(env: Platform, r: Region)
    ensures Within(Pieces(env, r), r) && forall p :: p in Pieces(env, r) ==> env.kernelEnd <= p.start
  {
    var ps := Pieces(env, r);
    PiecesMakeUp(env, r);
    forall p | p in ps ensures 0 < p.size && r.start <= p.start && p.End() <= r.End() && env.kernelEnd <= p.start {
      var i :| 0 <= i < |ps| && ps[i] == p;
      assert Has(ps[i], p.start) && Has(ps[i], p.End() - 1);
      assert Usable(env, r, p.start) && Usable(env, r, p.End() - 1);
    }
  }

  /** Around a reservation that holds something, nothing of one side touches the other. */
  lemma SidesApart(env: Platform, cur: Region, k: nat, left: Region, right: Region)
    requires k < |env.Cuts()| && Splits(env.Cuts()[k], cur.start, cur.End()) && Gapped(env, cur)
    requires left.start == cur.start && left.End() == env.Cuts()[k].start
    requires right.start == env.Cuts()[k].End() && right.End() == cur.End()
    ensures Gapped(env, left) && Gapped(env, right)
    ensures forall p, q :: p in Pieces(env, left) && q in Pieces(env, right) ==> p.End() < q.start
  {
    PiecesWithin(env, left);
    PiecesWithin(env, right);
  }

  ghost predicate Ascending(ps: seq<Region>) { forall i, j :: 0 <= i < j < |ps| ==> ps[i].End() < ps[j].start }

  lemma {:induction false} PiecesFromAscend(env: Platform, cur: Region, i: nat)
    requires i <= |env.Cuts()| && Gapped(env, cur)
    ensures Ascending(PiecesFrom(env, cur, i))
    decreases cur.size, |env.Cuts()| - i
  {
    if cur.size != 0 && i < |env.Cuts()| {
      var cut := env.Cuts()[i];
      if Splits(cut, cur.start, cur.End()) {
        var left, right := Region(cur.start, cut.start - cur.start), Region(cut.End(), cur.End() - cut.End());
        SidesApart(env, cur, i, left, right);
        PiecesAscend(env, left);
        PiecesAscend(env, right);
        AscendBoth(Pieces(env, left), Pieces(env, right));
      } else {
        PiecesFromAscend(env, Trimmed(cur, cut), i + 1);
      }
    }
  }

  lemma AscendBoth(p: seq<Region>, q: seq<Region>)
    requires Ascending(p) && Ascending(q) && forall a, b :: a in p && b in q ==> a.End() < b.start
    ensures Ascending(p + q)
  {
    forall i, j | 0 <= i < j < |p + q| ensures (p + q)[i].End() < (p + q)[j].start {
      if i < |p| <= j { assert p[i] in p && q[j - |p|] in q; }
    }
  }

  lemma {:induction false} PiecesAscend(env: Platform, r: Region)
    requires Gapped(env, r)
    ensures Ascending(Pieces(env, r))
    decreases r.size, |env.Cuts()| + 1
  {
    PiecesFromAscend(env, AboveKernel(env, r), 0);
  }

  /** Without empty reservations the pieces are the maximal runs of usable addresses, in order. */
  lemma PiecesAreRuns(env: Platform, r: Region)
    requires Gapped(env, r)
    ensures Ascending(Pieces(env, r))
    ensures forall p :: p in Pieces(env, r) ==> !Usable(env, r, p.start - 1) && !Usable(env, r, p.End())
  {
    var ps := Pieces(env, r);
    PiecesAscend(env, r);
    PiecesMakeUp(env, r);
    forall p | p in ps ensures !Covered(ps, p.start - 1) && !Covered(ps, p.End()) {
      var i :| 0 <= i < |ps| && ps[i] == p;
      assert forall j :: 0 <= j < |ps| ==> j == i || ps[j].End() < p.start || p.End() < ps[j].start;
    }
  }

  // ----- cutting and donating

  /**
    `trim_or_split_around_reserved`: the one or two ranges returned hold exactly the addresses
    of the given range that are not reserved.  A range is split only around a reservation with
    something left on both sides, and vanishes only if all of it is reserved.
   */
  method TrimOrSplit(start: nat, size: nat, resvStart: nat, resvSize: nat)
    returns (start': nat, size': nat, split: bool, splitStart: nat, splitSize: nat)
    requires start + size < WORD && resvStart + resvSize < WORD
    ensures forall x :: Has(Region(start', size'), x) || (split && Has(Region(splitStart, splitSize), x))
                        <==> Has(Region(start, size), x) && !Has(Region(resvStart, resvSize), x)
    ensures split <==> Splits(Region(resvStart, resvSize), start, start + size)
    ensures split ==> start' == start && start' + size' == resvStart && 0 < size'
                      && splitStart == resvStart + resvSize && splitStart + splitSize == start + size && 0 < splitSize
    ensures !split ==> Region(start', size') == Trimmed(Region(start, size), Region(resvStart, resvSize))
    ensures size' != 0 ==> start <= start' && start' + size' <= start + size
  {
    start', size', split, splitStart, splitSize := start, size, false, 0, 0;
    var end := Add64(start, size);
    var resvEnd := Add64(resvStart, resvSize);
    if resvEnd <= start || resvStart > end {
      // no overlap
    } else if resvStart <= start {
      if resvEnd >= end {
        start', size' := 0, 0;
      } else {
        start', size' := resvEnd, end - resvEnd;
      }
    } else if resvEnd < end {
      size', split, splitStart, splitSize := resvStart - start, true, resvEnd, end - resvEnd;
    } else {
      size' := resvStart - start;
    }
    CutExactly(Region(start, size), Region(resvStart, resvSize));
  }

  /** Donating, in some order, the pieces of `r`; if no two of them touch, the order makes no difference. */
  ghost predicate Served(env: Platform, r: Region, rs: seq<Region>, passed: seq<Region>, rs': seq<Region>) {
    && passed in Orders(env, r) && multiset(passed) == multiset(Pieces(env, r)) && rs' == After(rs, passed)
    && (Gapped(env, r) ==> rs' == After(rs, Pieces(env, r)))
  }

  lemma ServedGain(env: Platform, r: Region, rs: seq<Region>, passed: seq<Region>)
    requires WellFormed(rs) && env.Valid() && r.End() < WORD && Total(rs) + r.size < SIGNED
    requires multiset(passed) == multiset(Pieces(env, r))
    ensures WellFormed(After(rs, passed)) && Gained(rs, Taken(rs, passed), After(rs, passed))
    ensures Blocks(passed) && Total(passed) <= r.size && Total(Taken(rs, passed)) <= r.size
    ensures forall x :: Covered(passed, x) <==> Usable(env, r, x)
    ensures forall x :: Covered(Taken(rs, passed), x) ==> Usable(env, r, x)
  {
    PiecesMakeUp(env, r);
    PiecesWithin(env, r);
    SameTotal(passed, Pieces(env, r));
    forall p ensures p in passed <==> p in Pieces(env, r) {
      assert p in passed <==> p in multiset(passed);
    }
    SameMembers(passed, Pieces(env, r));
    DonationsGain(rs, passed);
  }

  lemma ServedTotals(env: Platform, r: Region, rs: seq<Region>, passed: seq<Region>)
    requires WellFormed(rs) && env.Valid() && r.End() < WORD && Total(rs) + r.size < SIGNED
    requires multiset(passed) == multiset(Pieces(env, r))
    ensures Total(After(rs, passed)) == Total(rs) + Total(Taken(rs, passed)) && Total(Taken(rs, passed)) <= r.size
  {
    ServedGain(env, r, rs, passed);
  }

  lemma ServedNone(env: Platform, r: Region, rs: seq<Region>)
    requires Pieces(env, r) == [] && [] in Orders(env, r)
    ensures Served(env, r, rs, [], rs) && Total(Taken(rs, [])) == 0
  {
  }

  /** Around a reservation that holds something, the sides may change places. */
  lemma SidesCommute(env: Platform, cur: Region, k: nat, left: Region, right: Region, rs: seq<Region>)
    requires k < |env.Cuts()| && Splits(env.Cuts()[k], cur.start, cur.End()) && Gapped(env, cur)
    requires left.start == cur.start && left.End() == env.Cuts()[k].start
    requires right.start == env.Cuts()[k].End() && right.End() == cur.End()
    ensures Gapped(env, left) && Gapped(env, right)
    ensures After(rs, Pieces(env, left) + Pieces(env, right)) == After(rs, Pieces(env, right) + Pieces(env, left))
  {
    var l, r := Pieces(env, left), Pieces(env, right);
    AfterConcat(rs, l, r);
    AfterConcat(rs, r, l);
    SidesApart(env, cur, k, left, right);
    GapCommutesAll(rs, l, r);
  }

  /** With no empty reservation in between, one side's order and then the other's end like ascending order. */
  lemma SidesAgree(env: Platform, cur: Region, k: nat, left: Region, right: Region, l: seq<Region>, r: seq<Region>,
                   p: seq<Region>, rs: seq<Region>)
    requires k < |env.Cuts()| && Splits(env.Cuts()[k], cur.start, cur.End()) && Gapped(env, cur)
    requires left.start == cur.start && left.End() == env.Cuts()[k].start
    requires right.start == env.Cuts()[k].End() && right.End() == cur.End()
    requires p == l + r || p == r + l
    requires forall rs :: After(rs, l) == After(rs, Pieces(env, left))
    requires forall rs :: After(rs, r) == After(rs, Pieces(env, right))
    ensures After(rs, p) == After(rs, Pieces(env, left) + Pieces(env, right))
  {
    SidesCommute(env, cur, k, left, right, rs);
    AfterConcat(rs, l, r);
    AfterConcat(rs, r, l);
    AfterConcat(rs, Pieces(env, left), Pieces(env, right));
    AfterConcat(rs, Pieces(env, right), Pieces(env, left));
  }

  lemma {:induction false} GappedFrom(env: Platform, cur: Region, i: nat, p: seq<Region>, rs: seq<Region>)
    requires i <= |env.Cuts()| && Gapped(env, cur) && p in OrdersFrom(env, cur, i)
    ensures After(rs, p) == After(rs, PiecesFrom(env, cur, i))
    decreases cur.size, |env.Cuts()| - i
  {
    if cur.size != 0 && i < |env.Cuts()| {
      var cut := env.Cuts()[i];
      if Splits(cut, cur.start, cur.End()) {
        var left, right := Region(cur.start, cut.start - cur.start), Region(cut.End(), cur.End() - cut.End());
        SidesApart(env, cur, i, left, right);
        GappedSides(env, cur, i, left, right, p, rs);
      } else {
        GappedFrom(env, Trimmed(cur, cut), i + 1, p, rs);
      }
    }
  }

  lemma {:induction false} GappedSides(env: Platform, cur: Region, k: nat, left: Region, right: Region, p: seq<Region>,
                                       rs: seq<Region>)
    requires k < |env.Cuts()| && Splits(env.Cuts()[k], cur.start, cur.End()) && Gapped(env, cur)
    requires left.start == cur.start && left.End() == env.Cuts()[k].start
    requires right.start == env.Cuts()[k].End() && right.End() == cur.End()
    requires p in BothWays(Orders(env, left), Orders(env, right))
    ensures After(rs, p) == After(rs, Pieces(env, left) + Pieces(env, right))
    decreases cur.size, 0
  {
    var l, r := OfBothWays(Orders(env, left), Orders(env, right), p);
    SidesApart(env, cur, k, left, right);
    forall rs ensures After(rs, l) == After(rs, Pieces(env, left)) { GappedOrders(env, left, l, rs); }
    forall rs ensures After(rs, r) == After(rs, Pieces(env, right)) { GappedOrders(env, right, r, rs); }
    SidesAgree(env, cur, k, left, right, l, r, p, rs);
  }

  /** If no empty reservation splits the range, every order ends with the same free list. */
  lemma {:induction false} GappedOrders(env: Platform, r: Region, p: seq<Region>, rs: seq<Region>)
    requires Gapped(env, r) && p in Orders(env, r)
    ensures After(rs, p) == After(rs, Pieces(env, r))
    decreases r.size, |env.Cuts()| + 1
  {
    GappedFrom(env, AboveKernel(env, r), 0, p, rs);
  }

  lemma ServedBy(env: Platform, r: Region, rs: seq<Region>, passed: seq<Region>)
    requires passed in Orders(env, r)
    ensures Served(env, r, rs, passed, After(rs, passed))
  {
    OrdersPermute(env, r, passed);
    if Gapped(env, r) { GappedOrders(env, r, passed, rs); }
  }

  /** Both sides, one after the other: what they bring together, and what they write. */
  lemma BothServed(env: Platform, a: Region, b: Region, rs: seq<Region>, p: seq<Region>, q: seq<Region>,
                   mem: Memory, mem': Memory, mem'': Memory)
    requires WellFormed(rs) && env.Valid() && a.End() < WORD && Total(rs) + a.size < SIGNED
    requires p in Orders(env, a) && q in Orders(env, b)
    requires WritesOnly(mem, mem', rs + p) && WritesOnly(mem', mem'', After(rs, p) + q)
    ensures After(After(rs, p), q) == After(rs, p + q)
    ensures Total(Taken(rs, p + q)) == Total(Taken(rs, p)) + Total(Taken(After(rs, p), q))
    ensures p + q in BothWays(Orders(env, a), Orders(env, b)) && p + q in BothWays(Orders(env, b), Orders(env, a))
    ensures WritesOnly(mem, mem'', rs + (p + q))
  {
    AfterConcat(rs, p, q);
    TotalConcat(Taken(rs, p), Taken(After(rs, p), q));
    OrdersPermute(env, a, p);
    ServedGain(env, a, rs, p);
    DonationsGain(rs, p);
    CoveredConcat(rs, p);
    CoveredConcat(After(rs, p), q);
    CoveredConcat(rs, p + q);
    CoveredConcat(p, q);
    WritesTwice(mem, mem', mem'', rs + p, After(rs, p) + q, rs + (p + q));
  }

  /** Both halves of a split range, in either order: C leaves the order of the calls open. */
  method FreeBothSides(list: BootFreeList, env: Platform, start: nat, size: nat, splitStart: nat, splitSize: nat,
                       ghost cur: Region, ghost k: nat)
    returns (freed: nat, ghost passed: seq<Region>)
    requires list.Valid() && env.Valid() && k < |env.Cuts()| && Splits(env.Cuts()[k], cur.start, cur.End())
    requires start == cur.start && start + size == env.Cuts()[k].start
    requires splitStart == env.Cuts()[k].End() && splitStart + splitSize == cur.End()
    requires cur.End() < WORD && Total(list.regions) + cur.size < SIGNED
    modifies list
    ensures list.Valid() && list.regions == After(old(list.regions), passed)
    ensures passed in BothWays(Orders(env, Region(start, size)), Orders(env, Region(splitStart, splitSize)))
    ensures var pieces := Pieces(env, Region(start, size)) + Pieces(env, Region(splitStart, splitSize));
            && multiset(passed) == multiset(pieces)
            && (Gapped(env, cur) ==> list.regions == After(old(list.regions), pieces))
    ensures freed == Total(Taken(old(list.regions), passed))
    ensures WritesOnly(old(list.mem), list.mem, old(list.regions) + passed)
    decreases cur.size, 0
  {
    var freed1, freed2;
    ghost var p, q;
    ghost var left, right := Region(start, size), Region(splitStart, splitSize);
    ghost var rs, mem := list.regions, list.mem;
    if * {
      freed1, p := TryBootFreeRegion(list, env, start, size);
      ghost var mem' := list.mem;
      freed2, q := TryBootFreeRegion(list, env, splitStart, splitSize);
      BothServed(env, left, right, rs, p, q, mem, mem', list.mem);
    } else {
      freed1, p := TryBootFreeRegion(list, env, splitStart, splitSize);
      ghost var mem' := list.mem;
      freed2, q := TryBootFreeRegion(list, env, start, size);
      BothServed(env, right, left, rs, p, q, mem, mem', list.mem);
    }
    freed, passed := freed1 + freed2, p + q;
    SidesPermute(env, left, right, passed, cur.size);
    if Gapped(env, cur) { GappedSides(env, cur, k, left, right, passed, rs); }
  }

  /** The end of `try_boot_free_region`: one unreserved range goes to `boot_free`. */
  method FreePiece(list: BootFreeList, start: nat, size: nat) returns (freed: nat)
    requires list.Valid() && Donatable(list.regions, Region(start, size))
    modifies list
    ensures list.Valid() && list.regions == After(old(list.regions), [Region(start, size)])
    ensures freed == Total(Taken(old(list.regions), [Region(start, size)])) <= size
    ensures WritesOnly(old(list.mem), list.mem, old(list.regions) + [Region(start, size)])
  {
    ghost var b := Region(start, size);
    var err := list.BootFree(start, size);
    StepIsDonate(old(list.regions), b, err, list.regions);
    freed := if err != Success then 0 else size;
    DonateOnly(old(list.regions), b);
  }

  lemma DonateOnly(rs: seq<Region>, b: Region)
    ensures After(rs, [b]) == Donate(rs, b).free
    ensures Total(Taken(rs, [b])) == if Donate(rs, b).err == Success then b.size else 0
  {
    var o := Donate(rs, b);
    assert [b][1..] == [] && After(o.free, []) == o.free && Taken(o.free, []) == [];
    assert Taken(rs, [b]) == if o.err == Success then [b] else [];
    assert Total([b]) == b.size;
  }

  /** What one pass over the reservations leaves: nothing, one range, or the two sides of reservation `k`. */
  ghost predicate Shrunk(env: Platform, r: Region, all: seq<Region>, orders: set<seq<Region>>,
                         left: Region, split: bool, right: Region, k: nat) {
    if split then
      && k < |env.Cuts()| && r.start <= left.start && right.End() <= r.End()
      && Splits(env.Cuts()[k], left.start, right.End())
      && left.End() == env.Cuts()[k].start && right.start == env.Cuts()[k].End()
      && all == Pieces(env, left) + Pieces(env, right)
      && orders == OrdersFrom(env, Region(left.start, right.End() - left.start), k)
    else if left.size == 0 then
      all == [] && orders == {[]}
    else
      r.start <= left.start && left.End() <= r.End() && all == [left] && orders == {[left]}
  }

  /** The middle of `try_boot_free_region`: the reserve entries in turn, then the blob. */
  method ShrinkOrSplit(env: Platform, start0: nat, size0: nat, ghost all: seq<Region>, ghost orders: set<seq<Region>>)
    returns (start: nat, size: nat, split: bool, splitStart: nat, splitSize: nat, ghost k: nat)
    requires env.Valid() && 0 < size0 && start0 + size0 < WORD
    requires all == PiecesFrom(env, Region(start0, size0), 0)
    requires orders == OrdersFrom(env, Region(start0, size0), 0)
    ensures Shrunk(env, Region(start0, size0), all, orders, Region(start, size), split,
                   Region(splitStart, splitSize), k)
  {
    start, size, split, splitStart, splitSize, k := start0, size0, false, 0, 0, 0;
    var i := 0;
    while i < |env.entries|
      invariant 0 <= i <= |env.entries| && 0 < size
      invariant start0 <= start && start + size <= start0 + size0
      invariant all == PiecesFrom(env, Region(start, size), i)
      invariant orders == OrdersFrom(env, Region(start, size), i)
    {
      ghost var cur := Region(start, size);
      k := i;
      start, size, split, splitStart, splitSize := TrimOrSplit(start, size, env.entries[i].start, env.entries[i].size);
      OneCut(env, cur, i, Region(start, size), split, Region(splitStart, splitSize));
      if split {
        return;
      }
      TrimOrders(env, cur, i, Region(start, size));
      LastOrders(env, Region(start, size), i + 1);
      if size == 0 {
        return;
      }
      i := i + 1;
    }
    ghost var cur := Region(start, size);
    k := i;
    start, size, split, splitStart, splitSize := TrimOrSplit(start, size, env.blob.start, env.blob.size);
    OneCut(env, cur, i, Region(start, size), split, Region(splitStart, splitSize));
    if !split {
      TrimOrders(env, cur, i, Region(start, size));
      LastOrders(env, Region(start, size), i + 1);
    }
  }

  /**
    `try_boot_free_region`: the pieces of the region are passed to `boot_free` one after the
    other, in one of the orders C allows, and the result counts the bytes accepted.  If no
    reservation that splits the region is empty, every order ends with the same free list.
   */
  method TryBootFreeRegion(list: BootFreeList, env: Platform, start0: nat, size0: nat)
    returns (freed: nat, ghost passed: seq<Region>)
    requires list.Valid() && env.Valid() && start0 + size0 < WORD
    requires Total(list.regions) + size0 < SIGNED
    modifies list
    ensures list.Valid() && Served(env, Region(start0, size0), old(list.regions), passed, list.regions)
    ensures freed == Total(Taken(old(list.regions), passed)) <= size0
    ensures Total(list.regions) == Total(old(list.regions)) + freed
    ensures WritesOnly(old(list.mem), list.mem, old(list.regions) + passed)
    decreases size0, 1
  {
    ghost var r := Region(start0, size0);
    freed, passed := 0, [];
    var start, size := start0, size0;
    if size == 0 {
      ServedNone(env, r, list.regions);
      return;
    }
    if start < env.kernelEnd {
      if Add64(start, size) <= env.kernelEnd {
        ServedNone(env, r, list.regions);
        return;
      }
      size := Add64(start, size) - env.kernelEnd;
      start := env.kernelEnd;
    }
    var split, splitStart, splitSize;
    ghost var k;
    ghost var cut, all, orders := Region(start, size), Pieces(env, r), Orders(env, r);
    start, size, split, splitStart, splitSize, k := ShrinkOrSplit(env, start, size, all, orders);
    ghost var left, right := Region(start, size), Region(splitStart, splitSize);
    if split {
      ghost var cur := Region(start, splitStart + splitSize - start);
      freed, passed := FreeBothSides(list, env, start, size, splitStart, splitSize, cur, k);
    } else if size != 0 {
      freed := FreePiece(list, start, size);
      passed := [left];
    } else {
      DonateNone(list.regions);
    }
    ShrunkOrder(env, cut, all, orders, left, split, right, k, passed);
    ServedBy(env, r, old(list.regions), passed);
    ServedTotals(env, r, old(list.regions), passed);
  }

  lemma DonateNone(rs: seq<Region>)
    ensures After(rs, []) == rs && Total(Taken(rs, [])) == 0
  {
  }

  /** What the two outcomes pass on is in one of the orders. */
  lemma ShrunkOrder(env: Platform, r: Region, all: seq<Region>, orders: set<seq<Region>>,
                    left: Region, split: bool, right: Region, k: nat, passed: seq<Region>)
    requires Shrunk(env, r, all, orders, left, split, right, k)
    requires if split then passed in BothWays(Orders(env, left), Orders(env, right))
             else passed == if left.size == 0 then [] else [left]
    ensures passed in orders
  {
    if split {
      var cur := Region(left.start, right.End() - left.start);
      SidesOf(cur, env.Cuts()[k], left, right);
      OrdersOfSplit(env, cur, k, BothWays(Orders(env, left), Orders(env, right)));
    } else if left.size == 0 {
      assert orders == {[]};
    } else {
      assert orders == {[left]};
    }
  }

  predicate Leaves(cut: Region, r: Region) { cut.End() <= r.start || r.End() <= cut.start }

  /** A range no further reservation overlaps stays in one piece. */
  lemma {:induction false} OnePiece(env: Platform, r: Region, i: nat)
    requires i <= |env.Cuts()| && 0 < r.size
    requires forall j :: i <= j < |env.Cuts()| ==> Leaves(env.Cuts()[j], r)
    ensures PiecesFrom(env, r, i) == [r]
    decreases |env.Cuts()| - i
  {
    if i < |env.Cuts()| {
      assert Trimmed(r, env.Cuts()[i]) == r;
      OnePiece(env, r, i + 1);
    }
  }

  /** Reservations that do not overlap the range are passed over. */
  lemma {:induction false} PassOver(env: Platform, r: Region, i: nat, k: nat)
    requires i <= k < |env.Cuts()| && 0 < r.size
    requires forall j :: i <= j < k ==> Leaves(env.Cuts()[j], r)
    ensures PiecesFrom(env, r, i) == PiecesFrom(env, r, k)
    decreases k - i
  {
    if i < k {
      assert Trimmed(r, env.Cuts()[i]) == r;
      PassOver(env, r, i + 1, k);
    }
  }

  /** A range cut by one reservation only has two pieces. */
  lemma TwoPieces(env: Platform, r: Region, k: nat)
    requires env.kernelEnd <= r.start && k < |env.Cuts()| && Splits(env.Cuts()[k], r.start, r.End())
    requires forall j :: 0 <= j < |env.Cuts()| && j != k ==> Leaves(env.Cuts()[j], r)
    ensures var cut := env.Cuts()[k];
            Pieces(env, r) == [Region(r.start, cut.start - r.start), Region(cut.End(), r.End() - cut.End())]
  {
    var cut := env.Cuts()[k];
    var left, right := Region(r.start, cut.start - r.start), Region(cut.End(), r.End() - cut.End());
    PassOver(env, r, 0, k);
    OnePiece(env, left, 0);
    OnePiece(env, right, 0);
    OneCut(env, r, k, left, true, right);
  }

  /**
    A region cut by one empty reservation only: its halves touch, and the order in which they
    are donated can be told from the resulting list exactly unless `OrderFree` says otherwise.
   */
  lemma EmptyCutExactly(env: Platform, r: Region, k: nat, rs: seq<Region>)
    requires Ordered(rs) && env.kernelEnd <= r.start
    requires k < |env.Cuts()| && Splits(env.Cuts()[k], r.start, r.End()) && env.Cuts()[k].size == 0
    requires forall j :: 0 <= j < |env.Cuts()| && j != k ==> Leaves(env.Cuts()[j], r)
    ensures var at := env.Cuts()[k].start;
            var left, right := Region(r.start, at - r.start), Region(at, r.End() - at);
            && Pieces(env, r) == [left, right]
            && (After(rs, [left, right]) == After(rs, [right, left]) <==> OrderFree(rs, left, right))
  {
    var at := env.Cuts()[k].start;
    var left, right := Region(r.start, at - r.start), Region(at, r.End() - at);
    assert Pieces(env, r) == [left, right] by { TwoPieces(env, r, k); }
    AfterTwo(rs, left, right);
    AfterTwo(rs, right, left);
    OrderMattersExactly(rs, left, right);
  }

  /**
    An empty reservation inside a region: the pieces are the two halves, left first they become
    one free region, right first the left half is refused.
   */
  lemma EmptyReservationMatters()
    ensures var env := Platform(0x1000, [Region(0x3000, 0)], Region(0x10000, 0x100));
            var left, right := Region(0x2000, 0x1000), Region(0x3000, 0x1000);
            && Pieces(env, Region(0x2000, 0x2000)) == [left, right]
            && After([], [left, right]) == [Region(0x2000, 0x2000)] && After([], [right, left]) == [right]
  {
    var env := Platform(0x1000, [Region(0x3000, 0)], Region(0x10000, 0x100));
    var r, left, right := Region(0x2000, 0x2000), Region(0x2000, 0x1000), Region(0x3000, 0x1000);
    assert env.Cuts() == [Region(0x3000, 0), Region(0x10000, 0x100)];
    TwoPieces(env, r, 0);
    AfterTwo([], left, right);
    AfterTwo([], right, left);
  }

  // ----- reserve entries split before the blob does

  lemma {:induction false} WholeFrom(env: Platform, x: Region, i: nat)
    requires i <= |env.Cuts()| && 0 < x.size
    requires forall c :: c in env.Cuts() ==> c.End() <= x.start || x.End() <= c.start
    ensures OrdersFrom(env, x, i) == {[x]}
    decreases |env.Cuts()| - i
  {
    if i < |env.Cuts()| {
      assert env.Cuts()[i] in env.Cuts() && Trimmed(x, env.Cuts()[i]) == x;
      WholeFrom(env, x, i + 1);
    }
  }

  lemma Whole(env: Platform, x: Region)
    requires 0 < x.size && env.kernelEnd <= x.start
    requires forall c :: c in env.Cuts() ==> c.End() <= x.start || x.End() <= c.start
    ensures Orders(env, x) == {[x]}
  {
    WholeFrom(env, x, 0);
  }

  lemma BothOfOne(a: seq<Region>, b: seq<Region>)
    ensures BothWays({a}, {b}) == {a + b, b + a}
  {
  }

  lemma BothOfTwo(a: seq<Region>, b: seq<Region>, c: seq<Region>)
    ensures BothWays({a}, {b, c}) == {a + b, a + c, b + a, c + a}
  {
  }

  /**
    A region around one reserve entry and, above it, the blob is split at the entry first: the
    two pieces above the entry are passed on next to each other, before or after the one below.
   */
  lemma EntriesSplitFirst(env: Platform, e: Region, r: Region)
    requires env.entries == [e] && env.kernelEnd <= r.start < e.start
    requires e.End() < env.blob.start && env.blob.End() < r.End()
    ensures var lo := Region(r.start, e.start - r.start);
            var mid := Region(e.End(), env.blob.start - e.End());
            var hi := Region(env.blob.End(), r.End() - env.blob.End());
            Orders(env, r) == {[lo, mid, hi], [lo, hi, mid], [mid, hi, lo], [hi, mid, lo]}
  {
    var lo, upper := Region(r.start, e.start - r.start), Region(e.End(), r.End() - e.End());
    var mid := Region(e.End(), env.blob.start - e.End());
    var hi := Region(env.blob.End(), r.End() - env.blob.End());
    assert env.Cuts() == [e, env.blob];
    Whole(env, lo);
    assert Orders(env, upper) == {[mid, hi], [hi, mid]} by { UpperOrders(env, e, upper, mid, hi); }
    assert Orders(env, r) == BothWays({[lo]}, {[mid, hi], [hi, mid]}) by {
      OrdersOfSplit(env, r, 0, BothWays(Orders(env, lo), Orders(env, upper)));
    }
    BothOfTwo([lo], [mid, hi], [hi, mid]);
    assert [lo] + [mid, hi] == [lo, mid, hi] && [lo] + [hi, mid] == [lo, hi, mid];
    assert [mid, hi] + [lo] == [mid, hi, lo] && [hi, mid] + [lo] == [hi, mid, lo];
  }

  lemma UpperOrders(env: Platform, e: Region, upper: Region, mid: Region, hi: Region)
    requires env.Cuts() == [e, env.blob] && env.kernelEnd <= upper.start == e.End() < env.blob.start
    requires env.blob.End() < upper.End()
    requires mid == Region(upper.start, env.blob.start - upper.start)
    requires hi == Region(env.blob.End(), upper.End() - env.blob.End())
    ensures Orders(env, upper) == {[mid, hi], [hi, mid]}
  {
    Whole(env, mid);
    Whole(env, hi);
    BothOfOne([mid], [hi]);
    assert [mid] + [hi] == [mid, hi] && [hi] + [mid] == [hi, mid];
    OrdersOfSplit(env, upper, 1, BothWays(Orders(env, mid), Orders(env, hi)));
    assert Trimmed(upper, e) == upper && AboveKernel(env, upper) == upper && !Splits(e, upper.start, upper.End());
    assert OrdersFrom(env, upper, 0) == OrdersFrom(env, upper, 1);
  }

  lemma AfterTwo(rs: seq<Region>, b: Region, c: Region)
    ensures After(rs, [b, c]) == Donate(Donate(rs, b).free, c).free
  {
    assert [b, c][1..] == [c] && [c][1..] == [];
    var mid := Donate(rs, b).free;
    assert After(mid, [c]) == After(Donate(mid, c).free, []);
  }
}
