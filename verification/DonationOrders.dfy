/**
  C leaves open in which order `try_boot_free_region` passes on the pieces on either side of a
  reservation.  This says exactly when that can be told from the resulting free list, for any
  number of reservations.
 */
module DonationOrders {
  import opened Regions
  import opened FreeSpec
  import opened Donations
  import opened Reserved

  // ----- lists without touching regions are determined by their addresses

  /** No region touches the next. */
  predicate Loose(rs: seq<Region>) {
    rs == [] || (0 < rs[0].size && (|rs| > 1 ==> rs[0].End() < rs[1].start) && Loose(rs[1..]))
  }

  lemma {:induction false} LooseAbove(rs: seq<Region>)
    requires Loose(rs) && rs != []
    ensures forall x :: Covered(rs, x) <==> Has(rs[0], x) || Covered(rs[1..], x)
    ensures forall x :: Covered(rs, x) ==> rs[0].start <= x
    ensures forall x :: Covered(rs[1..], x) ==> rs[0].End() < x
  {
    assert rs == [rs[0]] + rs[1..];
    CoveredConcat([rs[0]], rs[1..]);
    CoveredSingle(rs[0]);
    if |rs| > 1 { LooseAbove(rs[1..]); }
  }

  lemma FirstCovered(rs: seq<Region>)
    requires Loose(rs) && rs != []
    ensures Covered(rs, rs[0].start)
  {
    assert Has(rs[0], rs[0].start);
  }

  lemma {:induction false} LooseSame(a: seq<Region>, b: seq<Region>)
    requires Loose(a) && Loose(b) && SameCover(a, b)
    ensures a == b
  {
    if a == [] {
      if b != [] {
        FirstCovered(b);
        assert false;
      }
    } else {
      assert Has(a[0], a[0].start) && Covered(b, a[0].start);
      LooseAbove(a);
      LooseAbove(b);
      LooseFirst(a, b);
      forall x ensures Covered(a[1..], x) <==> Covered(b[1..], x) {
        assert Covered(a, x) <==> Covered(b, x);
      }
      LooseSame(a[1..], b[1..]);
      assert a == [a[0]] + a[1..] && b == [b[0]] + b[1..];
    }
  }

  lemma LooseFirst(a: seq<Region>, b: seq<Region>)
    requires Loose(a) && Loose(b) && SameCover(a, b) && a != [] && b != []
    ensures a[0] == b[0]
  {
    LooseAbove(a);
    LooseAbove(b);
    assert Has(a[0], a[0].start) && Has(b[0], b[0].start);
    assert Covered(b, a[0].start) && Covered(a, b[0].start);
    assert !Covered(a, a[0].End()) && !Covered(b, b[0].End());
    var x, y := a[0].End(), b[0].End();
    assert Has(a[0], y) ==> Covered(a, y);
    assert Has(b[0], x) ==> Covered(b, x);
  }

  // ----- donations keep them so

  lemma {:induction false} DonateLoose(rs: seq<Region>, b: Region)
    requires Loose(rs)
    ensures Loose(Donate(rs, b).free)
  {
    if rs == [] {
    } else if rs[0].End() < b.start {
      DonateLoose(rs[1..], b);
      if |rs| > 1 { FirstAfter(rs[1..], b); }
      LooseFront(rs[0], Donate(rs[1..], b).free);
    } else if rs[0].End() == b.start {
      if |rs| > 1 && rs[1].start == b.End() {
        assert rs[1..][1..] == rs[2..];
        LooseFront(Region(rs[0].start, rs[0].size + b.size + rs[1].size), rs[2..]);
      } else if |rs| == 1 || b.End() < rs[1].start {
        LooseFront(Region(rs[0].start, rs[0].size + b.size), rs[1..]);
      }
    } else if b.End() < rs[0].start && HEADER <= b.size {
      LooseFront(b, rs);
    }
  }

  lemma LooseFront(r: Region, rs: seq<Region>)
    requires 0 < r.size && Loose(rs) && (rs != [] ==> r.End() < rs[0].start)
    ensures Loose([r] + rs)
  {
    assert ([r] + rs)[1..] == rs;
  }

  /** Every list built by donations is of this kind. */
  lemma {:induction false} AfterLoose(rs: seq<Region>, bs: seq<Region>)
    requires Loose(rs)
    ensures Loose(After(rs, bs))
    decreases |bs|
  {
    if bs != [] {
      DonateLoose(rs, bs[0]);
      AfterLoose(Donate(rs, bs[0]).free, bs[1..]);
    }
  }

  // ----- what later donations cannot hide

  /** A list to which these blocks may be donated. */
  ghost predicate Ready(rs: seq<Region>, bs: seq<Region>) {
    WellFormed(rs) && Loose(rs) && Blocks(bs) && Total(rs) + Total(bs) < SIGNED
  }

  lemma ReadyAfter(rs: seq<Region>, a: seq<Region>, b: seq<Region>)
    requires Ready(rs, a + b)
    ensures Ready(rs, a) && Ready(After(rs, a), b)
    ensures forall x :: Covered(After(rs, a), x) ==> Covered(rs, x) || Covered(a, x)
    ensures forall x :: Covered(rs, x) ==> Covered(After(rs, a), x)
  {
    TotalConcat(a, b);
    forall c | c in a || c in b ensures c in a + b {}
    DonationsGain(rs, a);
    AfterLoose(rs, a);
  }

  /** Different lists that agree on the blocks still to come remain different. */
  lemma StillDifferent(rs: seq<Region>, rs': seq<Region>, bs: seq<Region>)
    requires Ready(rs, bs) && Ready(rs', bs) && forall x :: Covered(bs, x) ==> (Covered(rs, x) <==> Covered(rs', x))
    ensures After(rs, bs) == After(rs', bs) <==> rs == rs'
  {
    DonationsGain(rs, bs);
    DonationsGain(rs', bs);
    if After(rs, bs) == After(rs', bs) {
      forall x ensures Covered(rs, x) <==> Covered(rs', x) {
        if !Covered(bs, x) { assert Covered(After(rs, bs), x) <==> Covered(rs, x); }
      }
      LooseSame(rs, rs');
    }
  }

  // ----- two sides that may touch in the middle

  ghost predicate Sorted(bs: seq<Region>) {
    && (forall i :: 0 <= i < |bs| ==> 0 < bs[i].size)
    && (forall i, j :: 0 <= i < j < |bs| ==> bs[i].End() <= bs[j].start)
  }

  /** The last block of the lower side and the first of the upper one decide. */
  ghost predicate MiddleFree(rs: seq<Region>, l: seq<Region>, r: seq<Region>) {
    l == [] || r == [] || OrderFree(After(rs, l[..|l| - 1]), l[|l| - 1], r[0])
  }

  /** Upper side first: everything but the two in the middle may be moved where it is in ascending order. */
  lemma UpperFirst(rs: seq<Region>, low: seq<Region>, b: Region, c: Region, high: seq<Region>)
    requires Sorted(low + [b] + [c] + high)
    ensures After(rs, [c] + high + (low + [b])) == After(Donate(Donate(After(rs, low), c).free, b).free, high)
  {
    var all := low + [b] + [c] + high;
    assert all[|low|] == b && all[|low| + 1] == c;
    assert forall i :: 0 <= i < |low| ==> low[i] == all[i];
    assert forall i :: 0 <= i < |high| ==> high[i] == all[|low| + 2 + i];
    forall x, y | x in low && y in [c] + high ensures x.End() < y.start {
      assert x.End() <= b.start;
    }
    AfterConcat(rs, [c] + high, low + [b]);
    AfterConcat(After(rs, [c] + high), low, [b]);
    GapCommutesAll(rs, low, [c] + high);
    var mid := After(rs, low);
    AfterConcat(mid, [c], high);
    DonateOnly(mid, c);
    DonateOnly(After(Donate(mid, c).free, high), b);
    forall y | y in high ensures b.End() < y.start {}
    GapCommutesOne(Donate(mid, c).free, b, high);
  }

  lemma LowerFirst(rs: seq<Region>, low: seq<Region>, b: Region, c: Region, high: seq<Region>)
    ensures After(rs, low + [b] + ([c] + high)) == After(Donate(Donate(After(rs, low), b).free, c).free, high)
  {
    AfterConcat(rs, low + [b], [c] + high);
    AfterConcat(rs, low, [b]);
    DonateOnly(After(rs, low), b);
    var mid := Donate(After(rs, low), b).free;
    AfterConcat(mid, [c], high);
    DonateOnly(mid, c);
  }

  /** The order of the two sides can be told from the list exactly unless the middle is free of it. */
  lemma MiddleExactly(rs: seq<Region>, l: seq<Region>, r: seq<Region>,
                      low: seq<Region>, b: Region, c: Region, high: seq<Region>)
    requires l == low + [b] && r == [c] + high && Sorted(l + r) && Ready(rs, l + r)
    ensures After(rs, l + r) == After(rs, r + l) <==> OrderFree(After(rs, low), b, c)
  {
    var d, u := Donate(Donate(After(rs, low), b).free, c).free, Donate(Donate(After(rs, low), c).free, b).free;
    assert l + r == low + [b] + [c] + high && l + r == low + ([b] + [c] + high);
    assert After(rs, l + r) == After(d, high) by { LowerFirst(rs, low, b, c, high); }
    assert After(rs, r + l) == After(u, high) by { UpperFirst(rs, low, b, c, high); }
    assert After(d, high) == After(u, high) <==> OrderFree(After(rs, low), b, c) by {
      SortedMiddle(low, b, c, high);
      ReadyAfter(rs, low, [b] + [c] + high);
      MiddleDecides(After(rs, low), b, c, high);
    }
  }

  lemma MiddleDecides(rs: seq<Region>, b: Region, c: Region, high: seq<Region>)
    requires Ready(rs, [b] + [c] + high) && 0 < b.size && 0 < c.size && b.End() <= c.start
    requires forall i :: 0 <= i < |high| ==> b.End() <= high[i].start && c.End() <= high[i].start
    ensures After(Donate(Donate(rs, b).free, c).free, high) == After(Donate(Donate(rs, c).free, b).free, high)
            <==> OrderFree(rs, b, c)
  {
    OrderMattersExactly(rs, b, c);
    PairThenHigh(rs, b, c, high);
  }

  lemma SortedMiddle(low: seq<Region>, b: Region, c: Region, high: seq<Region>)
    requires Sorted(low + [b] + [c] + high)
    ensures 0 < b.size && 0 < c.size && b.End() <= c.start
    ensures forall i :: 0 <= i < |high| ==> b.End() <= high[i].start && c.End() <= high[i].start
  {
    var all := low + [b] + [c] + high;
    assert all[|low|] == b && all[|low| + 1] == c && forall i :: 0 <= i < |high| ==> high[i] == all[|low| + 2 + i];
  }

  lemma PairThenHigh(rs: seq<Region>, b: Region, c: Region, high: seq<Region>)
    requires Ready(rs, [b] + [c] + high) && b.End() <= c.start
    requires forall i :: 0 <= i < |high| ==> b.End() <= high[i].start && c.End() <= high[i].start
    ensures var d, u := Donate(Donate(rs, b).free, c).free, Donate(Donate(rs, c).free, b).free;
            After(d, high) == After(u, high) <==> d == u
  {
    ReadyAfter(rs, [b] + [c], high);
    assert [b] + [c] == [b, c] && [c] + [b] == [c, b];
    AfterTwo(rs, b, c);
    AfterTwo(rs, c, b);
    SwappedReady(rs, b, c, high);
    ReadyAfter(rs, [c] + [b], high);
    CoveredConcat([b], [c]);
    CoveredConcat([c], [b]);
    CoveredSingle(b);
    CoveredSingle(c);
    forall x | Covered(high, x) ensures !Has(b, x) && !Has(c, x) {
      var i :| 0 <= i < |high| && Has(high[i], x);
    }
    StillDifferent(Donate(Donate(rs, b).free, c).free, Donate(Donate(rs, c).free, b).free, high);
  }

  lemma SwappedReady(rs: seq<Region>, b: Region, c: Region, high: seq<Region>)
    requires Ready(rs, [b] + [c] + high)
    ensures Ready(rs, [c] + [b] + high)
  {
    forall x ensures x in [c] + [b] + high <==> x in [b] + [c] + high {}
    TotalConcat([b] + [c], high);
    TotalConcat([c] + [b], high);
    TotalConcat([b], [c]);
    TotalConcat([c], [b]);
  }

  /** The two sides as a whole. */
  lemma SidesExactly(rs: seq<Region>, l: seq<Region>, r: seq<Region>)
    requires Sorted(l + r) && Ready(rs, l + r)
    ensures After(rs, l + r) == After(rs, r + l) <==> MiddleFree(rs, l, r)
  {
    if l == [] || r == [] {
      assert l + r == r + l;
    } else {
      var low, b, c, high := l[..|l| - 1], l[|l| - 1], r[0], r[1..];
      assert l == low + [b] && r == [c] + high;
      MiddleExactly(rs, l, r, low, b, c, high);
    }
  }

  // ----- any number of reservations

  /** Every order C allows leads from `rs` to the same list. */
  ghost predicate AllAgree(rs: seq<Region>, orders: set<seq<Region>>) {
    forall p, q :: p in orders && q in orders ==> After(rs, p) == After(rs, q)
  }

  /**
    The condition, split by split: the orders of either side agree, before and after the other
    side, and the two pieces that meet in the middle may change places.
   */
  ghost predicate FreeFrom(env: Platform, cur: Region, i: nat, rs: seq<Region>)
    requires i <= |env.Cuts()|
    decreases cur.size, |env.Cuts()| - i
  {
    cur.size == 0 || i == |env.Cuts()| ||
    var cut := env.Cuts()[i];
    if !Splits(cut, cur.start, cur.End()) then FreeFrom(env, Trimmed(cur, cut), i + 1, rs)
    else
      var left, right := Region(cur.start, cut.start - cur.start), Region(cut.End(), cur.End() - cut.End());
      var l, r := Pieces(env, left), Pieces(env, right);
      && FreeOf(env, left, rs) && FreeOf(env, right, After(rs, l))
      && FreeOf(env, right, rs) && FreeOf(env, left, After(rs, r))
      && MiddleFree(rs, l, r)
  }

  ghost predicate FreeOf(env: Platform, r: Region, rs: seq<Region>)
    decreases r.size, |env.Cuts()| + 1
  {
    FreeFrom(env, AboveKernel(env, r), 0, rs)
  }

  lemma {:induction false} PiecesFromSorted(env: Platform, cur: Region, i: nat)
    requires i <= |env.Cuts()|
    ensures Sorted(PiecesFrom(env, cur, i))
    decreases cur.size, |env.Cuts()| - i
  {
    if cur.size != 0 && i < |env.Cuts()| {
      var cut := env.Cuts()[i];
      if Splits(cut, cur.start, cur.End()) {
        SidesSorted(env, Region(cur.start, cut.start - cur.start), Region(cut.End(), cur.End() - cut.End()), cur.size);
      } else {
        PiecesFromSorted(env, Trimmed(cur, cut), i + 1);
      }
    }
  }

  lemma {:induction false} SidesSorted(env: Platform, left: Region, right: Region, bound: nat)
    requires left.End() <= right.start && left.size < bound && right.size < bound
    ensures Sorted(Pieces(env, left) + Pieces(env, right))
    decreases bound, 0
  {
    PiecesFromSorted(env, AboveKernel(env, left), 0);
    PiecesFromSorted(env, AboveKernel(env, right), 0);
    PiecesWithin(env, left);
    PiecesWithin(env, right);
    var l, r := Pieces(env, left), Pieces(env, right);
    var lr: seq<Region> := l + r;
    forall i, j | 0 <= i < j < |lr| ensures lr[i].End() <= lr[j].start {
      if i < |l| <= j { assert l[i] in l && r[j - |l|] in r; }
    }
  }

  /** What the theorem takes for granted: there is room for the whole range. */
  ghost predicate Room(env: Platform, r: Region, rs: seq<Region>) {
    env.Valid() && WellFormed(rs) && Loose(rs) && r.End() < WORD && Total(rs) + r.size < SIGNED
  }

  /** Any order of the pieces of a range may be donated. */
  lemma OrderReady(env: Platform, r: Region, rs: seq<Region>, p: seq<Region>)
    requires Room(env, r, rs) && p in Orders(env, r)
    ensures Ready(rs, p) && forall x :: Covered(p, x) <==> Usable(env, r, x)
    ensures Total(p) <= r.size && Total(After(rs, p)) <= Total(rs) + Total(p)
  {
    OrdersPermute(env, r, p);
    ServedGain(env, r, rs, p);
    DonationsGain(rs, p);
  }

  lemma RoomAfter(env: Platform, a: Region, b: Region, rs: seq<Region>, p: seq<Region>)
    requires Room(env, a, rs) && p in Orders(env, a) && b.End() < WORD && Total(rs) + a.size + b.size < SIGNED
    ensures Room(env, b, After(rs, p))
  {
    OrderReady(env, a, rs, p);
    DonationsGain(rs, p);
    AfterLoose(rs, p);
  }

  /** Later donations of the other side cannot hide a difference on this one. */
  lemma OtherSideShows(env: Platform, a: Region, b: Region, rs: seq<Region>, p: seq<Region>, p': seq<Region>,
                       q: seq<Region>)
    requires Room(env, a, rs) && b.End() < WORD && Total(rs) + a.size + b.size < SIGNED
    requires p in Orders(env, a) && p' in Orders(env, a) && q in Orders(env, b)
    requires a.End() <= b.start || b.End() <= a.start
    ensures After(After(rs, p), q) == After(After(rs, p'), q) <==> After(rs, p) == After(rs, p')
  {
    OrderReady(env, a, rs, p);
    OrderReady(env, a, rs, p');
    RoomAfter(env, a, b, rs, p);
    RoomAfter(env, a, b, rs, p');
    OrderReady(env, b, After(rs, p), q);
    OrderReady(env, b, After(rs, p'), q);
    DonationsGain(rs, p);
    DonationsGain(rs, p');
    forall x | Covered(q, x) ensures Covered(After(rs, p), x) <==> Covered(After(rs, p'), x) {
      assert !Covered(p, x) && !Covered(p', x);
    }
    StillDifferent(After(rs, p), After(rs, p'), q);
  }

  /** If all orders of the whole agree, so do those of one side that come first, and of the other that come next. */
  lemma SideAgrees(env: Platform, a: Region, b: Region, rs: seq<Region>, all: set<seq<Region>>)
    requires Room(env, a, rs) && b.End() < WORD && Total(rs) + a.size + b.size < SIGNED
    requires a.End() <= b.start || b.End() <= a.start
    requires forall p, q :: p in Orders(env, a) && q in Orders(env, b) ==> p + q in all
    requires AllAgree(rs, all)
    ensures AllAgree(rs, Orders(env, a)) && AllAgree(After(rs, Pieces(env, a)), Orders(env, b))
  {
    var a0, b0 := Pieces(env, a), Pieces(env, b);
    PiecesOrdered(env, a);
    PiecesOrdered(env, b);
    forall p, p' | p in Orders(env, a) && p' in Orders(env, a) ensures After(rs, p) == After(rs, p') {
      assert p + b0 in all && p' + b0 in all;
      AfterConcat(rs, p, b0);
      AfterConcat(rs, p', b0);
      OtherSideShows(env, a, b, rs, p, p', b0);
    }
    forall q, q' | q in Orders(env, b) && q' in Orders(env, b)
      ensures After(After(rs, a0), q) == After(After(rs, a0), q')
    {
      assert a0 + q in all && a0 + q' in all;
      AfterConcat(rs, a0, q);
      AfterConcat(rs, a0, q');
    }
  }

  /** Conversely, an order of one side and then one of the other end like ascending order within each. */
  lemma SidesFollow(env: Platform, a: Region, b: Region, rs: seq<Region>, p: seq<Region>, q: seq<Region>)
    requires AllAgree(rs, Orders(env, a)) && AllAgree(After(rs, Pieces(env, a)), Orders(env, b))
    requires p in Orders(env, a) && q in Orders(env, b)
    ensures After(rs, p + q) == After(rs, Pieces(env, a) + Pieces(env, b))
  {
    PiecesOrdered(env, a);
    PiecesOrdered(env, b);
    AfterConcat(rs, p, q);
    AfterConcat(rs, Pieces(env, a), Pieces(env, b));
  }

  /** At a split: all orders agree exactly if those of each side do, and the sides may change places. */
  lemma SplitExactly(env: Platform, left: Region, right: Region, rs: seq<Region>)
    requires Room(env, left, rs) && left.End() <= right.start && right.End() < WORD
    requires Total(rs) + left.size + right.size < SIGNED
    ensures var l, r := Pieces(env, left), Pieces(env, right);
            AllAgree(rs, BothWays(Orders(env, left), Orders(env, right))) <==>
              && AllAgree(rs, Orders(env, left)) && AllAgree(After(rs, l), Orders(env, right))
              && AllAgree(rs, Orders(env, right)) && AllAgree(After(rs, r), Orders(env, left))
              && MiddleFree(rs, l, r)
  {
    var l, r, all := Pieces(env, left), Pieces(env, right), BothWays(Orders(env, left), Orders(env, right));
    PiecesOrdered(env, left);
    PiecesOrdered(env, right);
    assert l + r in all && r + l in all;
    SidesReady(env, left, right, rs);
    SidesSorted(env, left, right, left.size + right.size + 1);
    SidesExactly(rs, l, r);
    if AllAgree(rs, all) {
      SideAgrees(env, left, right, rs, all);
      SideAgrees(env, right, left, rs, all);
    }
    if && AllAgree(rs, Orders(env, left)) && AllAgree(After(rs, l), Orders(env, right))
       && AllAgree(rs, Orders(env, right)) && AllAgree(After(rs, r), Orders(env, left)) && MiddleFree(rs, l, r) {
      forall p | p in all ensures After(rs, p) == After(rs, l + r) {
        var pl, pr := OfBothWays(Orders(env, left), Orders(env, right), p);
        SidesFollow(env, left, right, rs, pl, pr);
        SidesFollow(env, right, left, rs, pr, pl);
      }
    }
  }

  lemma SidesReady(env: Platform, left: Region, right: Region, rs: seq<Region>)
    requires Room(env, left, rs) && right.End() < WORD && Total(rs) + left.size + right.size < SIGNED
    ensures Ready(rs, Pieces(env, left) + Pieces(env, right))
  {
    PiecesOrdered(env, left);
    PiecesOrdered(env, right);
    OrderReady(env, left, rs, Pieces(env, left));
    assert Room(env, right, rs);
    OrderReady(env, right, rs, Pieces(env, right));
    TotalConcat(Pieces(env, left), Pieces(env, right));
  }

  lemma {:induction false} OrdersAgreeFrom(env: Platform, cur: Region, i: nat, rs: seq<Region>)
    requires i <= |env.Cuts()| && Room(env, cur, rs)
    ensures AllAgree(rs, OrdersFrom(env, cur, i)) <==> FreeFrom(env, cur, i, rs)
    decreases cur.size, |env.Cuts()| - i
  {
    if cur.size != 0 && i < |env.Cuts()| {
      var cut := env.Cuts()[i];
      if Splits(cut, cur.start, cur.End()) {
        var left, right := Region(cur.start, cut.start - cur.start), Region(cut.End(), cur.End() - cut.End());
        var l, r := Pieces(env, left), Pieces(env, right);
        SplitExactly(env, left, right, rs);
        PiecesOrdered(env, left);
        PiecesOrdered(env, right);
        RoomAfter(env, left, right, rs, l);
        RoomAfter(env, right, left, rs, r);
        OrdersAgreeExactly(env, left, rs);
        OrdersAgreeExactly(env, right, After(rs, l));
        OrdersAgreeExactly(env, right, rs);
        OrdersAgreeExactly(env, left, After(rs, r));
      } else {
        OrdersAgreeFrom(env, Trimmed(cur, cut), i + 1, rs);
      }
    }
  }

  /**
    For any region, any reservations and any list built by donations: every order in which
    `try_boot_free_region` may pass on the pieces ends with the same list exactly if the
    condition holds, which speaks of the pieces in ascending order only.
   */
  lemma {:induction false} OrdersAgreeExactly(env: Platform, r: Region, rs: seq<Region>)
    requires Room(env, r, rs)
    ensures AllAgree(rs, Orders(env, r)) <==> FreeOf(env, r, rs)
    decreases r.size, |env.Cuts()| + 1
  {
    OrdersAgreeFrom(env, AboveKernel(env, r), 0, rs);
  }
}
