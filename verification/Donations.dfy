/**
  Donations to the boot allocator as a function of the list and the block, and what follows for
  sequences of them: what they add up to, and when their order matters.
 */
module Donations {
  import opened Regions
  import opened FreeSpec

  datatype Outcome = Outcome(err: Error, free: seq<Region>)

  /** The scan of `boot_free`, region by region. */
  function Donate(rs: seq<Region>, b: Region): Outcome {
    if rs == [] then
      if b.size < HEADER then Outcome(Empty, []) else Outcome(Success, [b])
    else if rs[0].End() == b.start then
      if |rs| > 1 && rs[1].start == b.End() then
        Outcome(Success, [Region(rs[0].start, rs[0].size + b.size + rs[1].size)] + rs[2..])
      else if |rs| == 1 || b.End() < rs[1].start then
        Outcome(Success, [Region(rs[0].start, rs[0].size + b.size)] + rs[1..])
      else
        Outcome(Exist, rs)
    else if rs[0].End() < b.start then
      var o := Donate(rs[1..], b); Outcome(o.err, [rs[0]] + o.free)
    else if b.End() < rs[0].start then
      if b.size < HEADER then Outcome(Empty, rs) else Outcome(Success, [b] + rs)
    else
      Outcome(Exist, rs)
  }

  // ----- it is the documented step

  /** A region wholly below the block, and not touching it, has no say. */
  lemma StepBelow(r: Region, rs: seq<Region>, b: Region, err: Error, rs': seq<Region>)
    requires r.End() < b.start && FreeStep(rs, b, err, rs')
    ensures FreeStep([r] + rs, b, err, [r] + rs')
  {
    if err == Success {
      var k: nat :| Accepted(rs, b, k, rs');
      AcceptedBelow(r, rs, b, k, rs');
    } else {
      RefusedBelow(r, rs, b);
    }
  }

  lemma AcceptedBelow(r: Region, rs: seq<Region>, b: Region, k: nat, rs': seq<Region>)
    requires r.End() < b.start && Accepted(rs, b, k, rs')
    ensures Accepted([r] + rs, b, k + 1, [r] + rs')
  {
    var all := [r] + rs;
    assert all[..k + 1] == [r] + rs[..k];
    if k < |rs| { assert all[k + 2..] == rs[k + 1..]; }
    if k + 1 < |rs| { assert all[k + 3..] == rs[k + 2..]; }
    if MergedBefore(rs, b, k, rs') {
      assert MergedBefore(all, b, k + 1, [r] + rs');
    } else if MergedBoth(rs, b, k, rs') {
      assert MergedBoth(all, b, k + 1, [r] + rs');
    } else {
      assert all[k + 1..] == rs[k..];
      assert Inserted(all, b, k + 1, [r] + rs');
    }
  }

  lemma RefusedBelow(r: Region, rs: seq<Region>, b: Region)
    requires r.End() < b.start
    ensures Refused([r] + rs, b) <==> Refused(rs, b)
    ensures EndsAt([r] + rs, b.start) <==> EndsAt(rs, b.start)
  {
    var all := [r] + rs;
    assert forall i :: 0 <= i < |rs| ==> all[i + 1] == rs[i];
    assert forall i :: 1 <= i < |all| ==> all[i] == rs[i - 1];
  }

  /** What the scan computes is a documented step. */
  lemma {:induction false} DonateSteps(rs: seq<Region>, b: Region)
    requires Ordered(rs)
    ensures FreeStep(rs, b, Donate(rs, b).err, Donate(rs, b).free)
  {
    if rs != [] && rs[0].End() < b.start {
      CutHigh(rs, 1);
      DonateSteps(rs[1..], b);
      assert rs == [rs[0]] + rs[1..];
      StepBelow(rs[0], rs[1..], b, Donate(rs[1..], b).err, Donate(rs[1..], b).free);
    } else {
      DonateHere(rs, b);
    }
  }

  /** The case where the scan ends at the first region. */
  lemma DonateHere(rs: seq<Region>, b: Region)
    requires Ordered(rs) && (rs == [] || b.start <= rs[0].End())
    ensures FreeStep(rs, b, Donate(rs, b).err, Donate(rs, b).free)
  {
    if rs != [] && rs[0].End() == b.start {
      DonateMerges(rs, b);
    } else if rs == [] || b.End() < rs[0].start {
      InsertGap(rs, b, 0);
      if HEADER <= b.size {
        assert rs[..0] == [] && rs[0..] == rs && Donate(rs, b).free == [b] + rs;
        assert Inserted(rs, b, 0, [b] + rs);
        assert Accepted(rs, b, 0, [b] + rs);
      }
    } else {
      OverlapRefused(rs, b, 0);
    }
  }

  lemma DonateMerges(rs: seq<Region>, b: Region)
    requires Ordered(rs) && rs != [] && rs[0].End() == b.start
    ensures FreeStep(rs, b, Donate(rs, b).err, Donate(rs, b).free)
  {
    var r, t := rs[0], rs[1..];
    assert rs == [r] + t;
    if t == [] || b.End() < t[0].start {
      MergeSteps(r, t, b);
      DonateMerge(r, t, b);
    } else if t[0].start == b.End() {
      assert t == [t[0]] + t[1..];
      BridgeSteps(r, t[0], t[1..], b);
      DonateBridge(r, t[0], t[1..], b);
    } else {
      assert Conflicts(rs[1], b);
      DonateClash(r, t, b);
    }
  }

  lemma MergeSteps(r: Region, t: seq<Region>, b: Region)
    requires r.End() == b.start && (t == [] || b.End() < t[0].start)
    ensures FreeStep([r] + t, b, Success, [Region(r.start, r.size + b.size)] + t)
  {
    var rs, rs' := [r] + t, [Region(r.start, r.size + b.size)] + t;
    assert rs[..0] == [] && rs[1..] == t;
    assert MergedBefore(rs, b, 0, rs');
    assert Accepted(rs, b, 0, rs');
  }

  lemma BridgeSteps(r: Region, s: Region, u: seq<Region>, b: Region)
    requires r.End() == b.start && s.start == b.End()
    ensures FreeStep([r] + ([s] + u), b, Success, [Region(r.start, r.size + b.size + s.size)] + u)
  {
    var rs, rs' := [r] + ([s] + u), [Region(r.start, r.size + b.size + s.size)] + u;
    assert rs[..0] == [] && rs[2..] == u;
    assert MergedBoth(rs, b, 0, rs');
    assert Accepted(rs, b, 0, rs');
  }

  /** An accepted block has one place to go. */
  lemma OnePlace(rs: seq<Region>, b: Region, j: nat, k: nat)
    requires Ordered(rs) && Goes(rs, b, j) && Goes(rs, b, k)
    ensures j == k
  {
    if j < k {
      PlacesApart(rs, b, j, k);
    } else if k < j {
      PlacesApart(rs, b, k, j);
    }
  }

  lemma PlacesApart(rs: seq<Region>, b: Region, j: nat, k: nat)
    requires Ordered(rs) && j < k && Goes(rs, b, j)
    ensures !Goes(rs, b, k)
  {
    if k <= |rs| {
      assert j + 1 < |rs| ==> rs[j].End() < rs[j + 1].End();
      assert k < |rs| ==> rs[j].End() <= rs[k].start;
      assert j < k - 1 ==> rs[j].End() <= rs[k - 1].start;
      assert j + 1 < k - 1 ==> rs[j + 1].End() <= rs[k - 1].start;
    }
  }

  lemma OneResult(rs: seq<Region>, b: Region, k: nat, p: seq<Region>, q: seq<Region>)
    requires Ordered(rs) && Accepted(rs, b, k, p) && Accepted(rs, b, k, q)
    ensures p == q
  {
  }

  /** The documented step is exactly what the scan computes: one answer and one new list. */
  lemma StepIsDonate(rs: seq<Region>, b: Region, err: Error, rs': seq<Region>)
    requires Ordered(rs)
    ensures FreeStep(rs, b, err, rs') <==> Donate(rs, b) == Outcome(err, rs')
  {
    DonateSteps(rs, b);
    if FreeStep(rs, b, err, rs') {
      var o := Donate(rs, b);
      FreeAnswer(rs, b, err, rs');
      FreeAnswer(rs, b, o.err, o.free);
      if err == Success {
        var j: nat :| Accepted(rs, b, j, rs');
        var k: nat :| Accepted(rs, b, k, o.free);
        AcceptedGoes(rs, b, j, rs');
        AcceptedGoes(rs, b, k, o.free);
        OnePlace(rs, b, j, k);
        OneResult(rs, b, j, rs', o.free);
      }
    }
  }

  // ----- two donations, in either order

  /** Donating above the first region leaves its start, or puts the block in front of it. */
  lemma FirstAfter(rs: seq<Region>, c: Region)
    requires rs != []
    ensures var f := Donate(rs, c).free;
            f != [] && ((f == [c] + rs && c.End() < rs[0].start)
                        || (f[0].start == rs[0].start && rs[0].size <= f[0].size))
  {
  }

  /** Blocks with a gap between them: the order of two donations changes neither list nor answers. */
  lemma {:induction false} GapCommutes(rs: seq<Region>, b: Region, c: Region)
    requires b.End() < c.start
    ensures Donate(Donate(rs, b).free, c).free == Donate(Donate(rs, c).free, b).free
    ensures Donate(Donate(rs, b).free, c).err == Donate(rs, c).err
    ensures Donate(Donate(rs, c).free, b).err == Donate(rs, b).err
  {
    if rs == [] {
    } else if rs[0].End() < b.start {
      GapCommutes(rs[1..], b, c);
      CommuteBelow(rs[0], rs[1..], b, c);
    } else if rs[0].End() == b.start {
      CommuteAt(rs, b, c);
    } else {
      CommuteAbove(rs, b, c);
    }
  }

  // One turn of the scan.

  lemma DonatePast(r: Region, t: seq<Region>, c: Region)
    requires r.End() < c.start
    ensures Donate([r] + t, c) == Outcome(Donate(t, c).err, [r] + Donate(t, c).free)
  {
    assert ([r] + t)[1..] == t;
  }

  lemma DonateMerge(r: Region, t: seq<Region>, b: Region)
    requires r.End() == b.start && (t == [] || b.End() < t[0].start)
    ensures Donate([r] + t, b) == Outcome(Success, [Region(r.start, r.size + b.size)] + t)
  {
    assert ([r] + t)[1..] == t;
  }

  lemma DonateBridge(r: Region, s: Region, u: seq<Region>, b: Region)
    requires r.End() == b.start && s.start == b.End()
    ensures Donate([r] + ([s] + u), b) == Outcome(Success, [Region(r.start, r.size + b.size + s.size)] + u)
  {
    assert ([r] + ([s] + u))[2..] == u;
  }

  lemma DonateClash(r: Region, t: seq<Region>, b: Region)
    requires r.End() == b.start && t != [] && t[0].start < b.End()
    ensures Donate([r] + t, b) == Outcome(Exist, [r] + t)
  {
  }

  lemma DonateFront(rs: seq<Region>, b: Region)
    requires rs == [] || (b.End() < rs[0].start && b.start < rs[0].End())
    ensures Donate(rs, b) == if b.size < HEADER then Outcome(Empty, rs) else Outcome(Success, [b] + rs)
  {
    if rs == [] { assert [b] + rs == [b]; }
  }

  lemma DonateBlocked(rs: seq<Region>, b: Region)
    requires rs != [] && rs[0].start <= b.End() && b.start < rs[0].End()
    ensures Donate(rs, b) == Outcome(Exist, rs)
  {
  }

  /** A region below both blocks can be set aside. */
  lemma CommuteBelow(r: Region, t: seq<Region>, b: Region, c: Region)
    requires r.End() < b.start && r.End() < c.start
    ensures var rs := [r] + t;
            && Donate(rs, b) == Outcome(Donate(t, b).err, [r] + Donate(t, b).free)
            && Donate(Donate(rs, b).free, c) ==
                 Outcome(Donate(Donate(t, b).free, c).err, [r] + Donate(Donate(t, b).free, c).free)
  {
    var rs := [r] + t;
    assert rs[1..] == t;
    var f := [r] + Donate(t, b).free;
    assert f[1..] == Donate(t, b).free;
  }

  /** Both blocks lie above the end of the first region, and only the lower one touches it. */
  lemma CommuteAt(rs: seq<Region>, b: Region, c: Region)
    requires rs != [] && rs[0].End() == b.start && b.End() < c.start
    ensures Donate(Donate(rs, b).free, c).free == Donate(Donate(rs, c).free, b).free
    ensures Donate(Donate(rs, b).free, c).err == Donate(rs, c).err
    ensures Donate(Donate(rs, c).free, b).err == Donate(rs, b).err
  {
    CommuteTouching(rs[0], rs[1..], b, c);
    assert rs == [rs[0]] + rs[1..];
  }

  lemma CommuteTouching(r: Region, t: seq<Region>, b: Region, c: Region)
    requires r.End() == b.start && b.End() < c.start
    ensures var rs := [r] + t;
            && Donate(Donate(rs, b).free, c) == Outcome(Donate(rs, c).err, Donate(Donate(rs, c).free, b).free)
            && Donate(Donate(rs, c).free, b).err == Donate(rs, b).err
  {
    if t == [] || b.End() < t[0].start {
      CommuteMerge(r, t, b, c);
    } else if t[0].start == b.End() {
      CommuteBridge(r, t[0], t[1..], b, c);
      assert t == [t[0]] + t[1..];
    } else {
      CommuteClash(r, t, b, c);
    }
  }

  lemma CommuteMerge(r: Region, t: seq<Region>, b: Region, c: Region)
    requires r.End() == b.start && b.End() < c.start && (t == [] || b.End() < t[0].start)
    ensures var rs := [r] + t;
            && Donate(Donate(rs, b).free, c) == Outcome(Donate(rs, c).err, Donate(Donate(rs, c).free, b).free)
            && Donate(Donate(rs, c).free, b).err == Donate(rs, b).err
  {
    var g := Donate(t, c).free;
    assert g == [] || b.End() < g[0].start by {
      if t != [] { FirstAfter(t, c); }
    }
    DonateMerge(r, t, b);
    DonateMerge(r, g, b);
    DonatePast(r, t, c);
    DonatePast(Region(r.start, r.size + b.size), t, c);
  }

  lemma CommuteBridge(r: Region, s: Region, u: seq<Region>, b: Region, c: Region)
    requires r.End() == b.start && b.End() < c.start && s.start == b.End()
    ensures var rs := [r] + ([s] + u);
            && Donate(Donate(rs, b).free, c) == Outcome(Donate(rs, c).err, Donate(Donate(rs, c).free, b).free)
            && Donate(Donate(rs, c).free, b).err == Donate(rs, b).err
  {
    var rs, t, m := [r] + ([s] + u), [s] + u, Region(r.start, s.End() - r.start);
    assert Donate(rs, b) == Outcome(Success, [m] + u) by { DonateBridge(r, s, u, b); }
    assert Donate(rs, c) == Outcome(Donate(t, c).err, [r] + Donate(t, c).free) by { DonatePast(r, t, c); }
    BridgeOver(r, s, u, b, c);
  }

  lemma BridgeOver(r: Region, s: Region, u: seq<Region>, b: Region, c: Region)
    requires r.End() == b.start && b.End() < c.start && s.start == b.End()
    ensures var g, g' := Donate([s] + u, c), Donate([Region(r.start, s.End() - r.start)] + u, c);
            g'.err == g.err && Donate([r] + g.free, b) == Outcome(Success, g'.free)
  {
    var m := Region(r.start, s.End() - r.start);
    var g, g' := Donate([s] + u, c), Donate([m] + u, c);
    assert g'.err == g.err && Stretched(g.free, r.start, g'.free) && g.free[0].start == s.start by {
      HeadStretches(m, s, u, c);
    }
    BridgeAfter(r, g.free, g'.free, b);
  }

  lemma BridgeAfter(r: Region, g: seq<Region>, g': seq<Region>, b: Region)
    requires r.End() == b.start && Stretched(g, r.start, g') && g[0].start == b.End()
    ensures Donate([r] + g, b) == Outcome(Success, g')
  {
    assert g == [g[0]] + g[1..] && g' == [g'[0]] + g'[1..];
    DonateBridge(r, g[0], g[1..], b);
  }

  lemma CommuteClash(r: Region, t: seq<Region>, b: Region, c: Region)
    requires r.End() == b.start && b.End() < c.start && t != [] && t[0].start < b.End()
    ensures var rs := [r] + t;
            && Donate(Donate(rs, b).free, c) == Outcome(Donate(rs, c).err, Donate(Donate(rs, c).free, b).free)
            && Donate(Donate(rs, c).free, b).err == Donate(rs, b).err
  {
    var g := Donate(t, c).free;
    assert g != [] && g[0].start < b.End() by { FirstAfter(t, c); }
    assert Donate([r] + t, c) == Outcome(Donate(t, c).err, [r] + g) by { DonatePast(r, t, c); }
    DonateClash(r, t, b);
    DonateClash(r, g, b);
  }

  /** The same list with the first region reaching down to `s`. */
  predicate Stretched(f: seq<Region>, s: nat, f': seq<Region>) {
    f != [] && f' != [] && f'[0].start == s && f'[0].End() == f[0].End() && f'[1..] == f[1..]
  }

  /** Where the first region starts makes no difference to a donation further up. */
  lemma HeadStretches(r': Region, r: Region, t: seq<Region>, c: Region)
    requires r'.start <= r.start <= c.start && r'.End() == r.End()
    ensures var f, f' := Donate([r] + t, c), Donate([r'] + t, c);
            Stretched(f.free, r'.start, f'.free) && f.free[0].start == r.start && f'.err == f.err
  {
    assert ([r] + t)[1..] == t && ([r'] + t)[1..] == t;
    if t != [] { assert ([r] + t)[2..] == t[1..] && ([r'] + t)[2..] == t[1..]; }
  }

  /** The first region reaches above the start of the lower block. */
  lemma CommuteAbove(rs: seq<Region>, b: Region, c: Region)
    requires rs != [] && b.start < rs[0].End() && b.End() < c.start
    ensures Donate(Donate(rs, b).free, c).free == Donate(Donate(rs, c).free, b).free
    ensures Donate(Donate(rs, b).free, c).err == Donate(rs, c).err
    ensures Donate(Donate(rs, c).free, b).err == Donate(rs, b).err
  {
    FirstAfter(rs, c);
    if b.End() < rs[0].start && HEADER <= b.size {
      assert ([b] + rs)[1..] == rs;
    }
  }

  /** Some region shares an address with the block. */
  ghost predicate Meets(rs: seq<Region>, b: Region) { exists i :: 0 <= i < |rs| && Conflicts(rs[i], b) }

  ghost predicate StartsAt(rs: seq<Region>, x: nat) { exists i :: 0 <= i < |rs| && rs[i].start == x }

  /** Whether the order of donating `b` and, above it, `c` can be told from the resulting list. */
  ghost predicate OrderFree(rs: seq<Region>, b: Region, c: Region) {
    || b.End() < c.start || Meets(rs, b) || Meets(rs, c)
    || (b.size < HEADER && !EndsAt(rs, b.start))
    || (EndsAt(rs, b.start) && HEADER <= c.size && !StartsAt(rs, c.End()))
  }

  predicate Alike(rs: seq<Region>, b: Region, c: Region) {
    Donate(Donate(rs, b).free, c).free == Donate(Donate(rs, c).free, b).free
  }

  lemma BelowAlike(r: Region, t: seq<Region>, b: Region, c: Region)
    requires r.End() < b.start && r.End() < c.start
    ensures Alike([r] + t, b, c) <==> Alike(t, b, c)
  {
    CommuteBelow(r, t, b, c);
    CommuteBelow(r, t, c, b);
    var f, g := Donate(Donate(t, b).free, c).free, Donate(Donate(t, c).free, b).free;
    assert f == ([r] + f)[1..] && g == ([r] + g)[1..];
  }

  /** Regions above the block: only the first one can touch it. */
  lemma HighRegions(rs: seq<Region>, b: Region)
    requires Ordered(rs) && (rs == [] || b.End() <= rs[0].start) && 0 < b.size
    ensures !Meets(rs, b) && !EndsAt(rs, b.start) && !EndsAt(rs, b.End())
    ensures StartsAt(rs, b.End()) <==> rs != [] && rs[0].start == b.End()
  {
    forall i | 0 <= i < |rs| ensures b.End() <= rs[i].start && (i > 0 ==> b.End() < rs[i].start) {
      assert i == 0 || rs[0].End() <= rs[i].start;
    }
  }

  /** The predicates on a list and on its tail. */
  lemma AddFirst(r: Region, t: seq<Region>, b: Region, c: Region)
    ensures Meets([r] + t, b) <==> Conflicts(r, b) || Meets(t, b)
    ensures Meets([r] + t, c) <==> Conflicts(r, c) || Meets(t, c)
    ensures StartsAt([r] + t, c.End()) <==> r.start == c.End() || StartsAt(t, c.End())
    ensures EndsAt([r] + t, b.start) <==> r.End() == b.start || EndsAt(t, b.start)
  {
    var rs := [r] + t;
    assert rs[0] == r && forall i :: 0 <= i < |t| ==> rs[i + 1] == t[i];
    assert forall i :: 1 <= i < |rs| ==> rs[i] == t[i - 1];
  }

  /** The first region ends where the lower block starts. */
  lemma TouchingAt(r: Region, t: seq<Region>, b: Region, c: Region)
    requires Ordered([r] + t) && r.End() == b.start && b.End() == c.start && 0 < b.size && 0 < c.size
    ensures Alike([r] + t, b, c) <==> OrderFree([r] + t, b, c)
  {
    var rs := [r] + t;
    assert rs[0] == r && EndsAt(rs, b.start);
    DonatePast(r, t, c);
    if t != [] && t[0].start < b.End() {
      assert Conflicts(rs[1], b);
      DonateClash(r, t, b);
      FirstAfter(t, c);
      DonateClash(r, Donate(t, c).free, b);
    } else if t != [] && t[0].start < c.End() {
      assert Conflicts(rs[1], c);
      TouchingInside(r, t, b, c);
    } else {
      TouchingUnder(r, t, b, c);
    }
  }

  lemma TouchingInside(r: Region, t: seq<Region>, b: Region, c: Region)
    requires r.End() == b.start && b.End() == c.start && 0 < b.size
    requires t != [] && c.start <= t[0].start < c.End() && 0 < t[0].size
    ensures Alike([r] + t, b, c)
  {
    DonatePast(r, t, c);
    DonateBlocked(t, c);
    if t[0].start == b.End() {
      assert t == [t[0]] + t[1..];
      DonateBridge(r, t[0], t[1..], b);
      DonateBlocked([Region(r.start, r.size + b.size + t[0].size)] + t[1..], c);
    } else {
      DonateMerge(r, t, b);
      DonateClash(Region(r.start, r.size + b.size), t, c);
    }
  }

  lemma TouchingUnder(r: Region, t: seq<Region>, b: Region, c: Region)
    requires Ordered([r] + t) && r.End() == b.start && b.End() == c.start && 0 < b.size && 0 < c.size
    requires t == [] || c.End() <= t[0].start
    ensures Alike([r] + t, b, c) <==> OrderFree([r] + t, b, c)
  {
    var rs := [r] + t;
    assert OrderFree(rs, b, c) <==> HEADER <= c.size && (t == [] || c.End() < t[0].start) by {
      CutHigh(rs, 1);
      assert rs[1..] == t && rs[0] == r;
      HighRegions(t, b);
      HighRegions(t, c);
      AddFirst(r, t, b, c);
    }
    DonatePast(r, t, c);
    DonateMerge(r, t, b);
    if t != [] && c.End() == t[0].start {
      DonateBlocked(t, c);
      assert t == [t[0]] + t[1..];
      DonateBridge(Region(r.start, r.size + b.size), t[0], t[1..], c);
    } else {
      DonateFront(t, c);
      DonateMerge(Region(r.start, r.size + b.size), t, c);
      if HEADER <= c.size { DonateBridge(r, c, t, b); }
    }
  }

  /** No region below the blocks matters. */
  lemma TouchingAbove(rs: seq<Region>, b: Region, c: Region)
    requires Ordered(rs) && b.End() == c.start && 0 < b.size && 0 < c.size
    requires rs == [] || b.start < rs[0].End()
    ensures Alike(rs, b, c) <==> OrderFree(rs, b, c)
  {
    if rs == [] || c.End() <= rs[0].start {
      TouchingFront(rs, b, c);
    } else if b.End() < rs[0].start {
      assert Conflicts(rs[0], c);
      DonateBlocked(rs, c);
      DonateFront(rs, b);
      DonateClash(b, rs, c);
    } else {
      assert Conflicts(rs[0], b) || Conflicts(rs[0], c);
      DonateBlocked(rs, b);
      FirstAfter(rs, c);
      DonateBlocked(Donate(rs, c).free, b);
    }
  }

  lemma TouchingFront(rs: seq<Region>, b: Region, c: Region)
    requires Ordered(rs) && b.End() == c.start && 0 < b.size && 0 < c.size
    requires rs == [] || c.End() <= rs[0].start
    ensures Alike(rs, b, c) <==> OrderFree(rs, b, c)
  {
    HighRegions(rs, b);
    HighRegions(rs, c);
    DonateFront(rs, b);
    if rs != [] && c.End() == rs[0].start {
      DonateBlocked(rs, c);
      assert rs == [rs[0]] + rs[1..];
      DonateBridge(b, rs[0], rs[1..], c);
    } else {
      DonateFront(rs, c);
      DonateMerge(b, rs, c);
      if HEADER <= c.size { DonateBlocked([c] + rs, b); }
    }
  }

  /**
    When the order of two donations matters: never with a gap between the blocks; for blocks
    that touch, exactly unless one of them is refused or dropped whatever happens, or the lower
    one has a region below it to grow and the upper one stands on its own.
   */
  lemma {:induction false} OrderMattersExactly(rs: seq<Region>, b: Region, c: Region)
    requires Ordered(rs) && 0 < b.size && 0 < c.size && b.End() <= c.start
    ensures Donate(Donate(rs, b).free, c).free == Donate(Donate(rs, c).free, b).free <==> OrderFree(rs, b, c)
  {
    if b.End() < c.start {
      GapCommutes(rs, b, c);
    } else if rs == [] || b.start < rs[0].End() {
      TouchingAbove(rs, b, c);
    } else {
      assert rs == [rs[0]] + rs[1..];
      if rs[0].End() == b.start {
        TouchingAt(rs[0], rs[1..], b, c);
      } else {
        CutHigh(rs, 1);
        OrderMattersExactly(rs[1..], b, c);
        AddFirst(rs[0], rs[1..], b, c);
        BelowAlike(rs[0], rs[1..], b, c);
      }
    }
  }

  // ----- sequences of donations

  /** The list after donating the blocks one by one. */
  function After(rs: seq<Region>, bs: seq<Region>): seq<Region>
    decreases |bs|
  {
    if bs == [] then rs else After(Donate(rs, bs[0]).free, bs[1..])
  }

  /** The blocks among them that were accepted. */
  function Taken(rs: seq<Region>, bs: seq<Region>): seq<Region>
    decreases |bs|
  {
    if bs == [] then []
    else
      var o := Donate(rs, bs[0]);
      (if o.err == Success then [bs[0]] else []) + Taken(o.free, bs[1..])
  }

  lemma {:induction false} AfterConcat(rs: seq<Region>, a: seq<Region>, b: seq<Region>)
    ensures After(rs, a + b) == After(After(rs, a), b)
    ensures Taken(rs, a + b) == Taken(rs, a) + Taken(After(rs, a), b)
    decreases |a|
  {
    if a == [] {
      assert a + b == b;
    } else {
      assert (a + b)[1..] == a[1..] + b;
      var o := Donate(rs, a[0]);
      AfterConcat(o.free, a[1..], b);
      var first := if o.err == Success then [a[0]] else [];
      var t, u := Taken(o.free, a[1..]), Taken(After(o.free, a[1..]), b);
      assert first + (t + u) == first + t + u;
    }
  }

  /** Whole blocks of donations may change places if a gap separates them. */
  lemma {:induction false} GapCommutesOne(rs: seq<Region>, b: Region, cs: seq<Region>)
    requires forall c :: c in cs ==> b.End() < c.start
    ensures After(Donate(rs, b).free, cs) == Donate(After(rs, cs), b).free
    decreases |cs|
  {
    if cs != [] {
      GapCommutes(rs, b, cs[0]);
      GapCommutesOne(Donate(rs, cs[0]).free, b, cs[1..]);
    }
  }

  lemma {:induction false} GapCommutesAll(rs: seq<Region>, bs: seq<Region>, cs: seq<Region>)
    requires forall b, c :: b in bs && c in cs ==> b.End() < c.start
    ensures After(After(rs, bs), cs) == After(After(rs, cs), bs)
    decreases |bs|
  {
    if bs != [] {
      GapCommutesAll(Donate(rs, bs[0]).free, bs[1..], cs);
      GapCommutesOne(rs, bs[0], cs);
    }
  }

  /** Blocks that may be passed to `boot_free`. */
  ghost predicate Blocks(bs: seq<Region>) { forall b :: b in bs ==> 0 < b.start && b.End() < WORD }

  /** The free list gains exactly the given blocks. */
  ghost predicate Gained(rs: seq<Region>, blocks: seq<Region>, rs': seq<Region>) {
    && Total(rs') == Total(rs) + Total(blocks)
    && (forall x :: Covered(rs', x) <==> Covered(rs, x) || Covered(blocks, x))
    && (forall x :: Covered(blocks, x) ==> !Covered(rs, x))
  }

  lemma GainOne(rs: seq<Region>, b: Region)
    requires WellFormed(rs) && Donatable(rs, b)
    ensures var o := Donate(rs, b);
            WellFormed(o.free) && Gained(rs, if o.err == Success then [b] else [], o.free)
  {
    var o := Donate(rs, b);
    DonateSteps(rs, b);
    FreeAdds(rs, b, o.err, o.free);
    if o.err == Success { AddedGain(rs, b, o.free); }
  }

  lemma AddedGain(rs: seq<Region>, b: Region, rs': seq<Region>)
    requires Total(rs') == Total(rs) + b.size && forall x :: Has(b, x) ==> !Covered(rs, x)
    requires forall x :: Covered(rs', x) <==> Covered(rs, x) || Has(b, x)
    ensures Gained(rs, [b], rs')
  {
    CoveredSingle(b);
    assert Total([b]) == b.size;
  }

  lemma JoinGains(rs: seq<Region>, p: seq<Region>, rs': seq<Region>, q: seq<Region>, rs'': seq<Region>)
    requires Gained(rs, p, rs') && Gained(rs', q, rs'')
    ensures Gained(rs, p + q, rs'')
  {
    TotalConcat(p, q);
    CoveredConcat(p, q);
  }

  /** Any sequence of donations adds exactly the accepted blocks, none of them free before. */
  lemma {:induction false} DonationsGain(rs: seq<Region>, bs: seq<Region>)
    requires WellFormed(rs) && Blocks(bs) && Total(rs) + Total(bs) < SIGNED
    ensures WellFormed(After(rs, bs)) && Gained(rs, Taken(rs, bs), After(rs, bs))
    ensures Total(Taken(rs, bs)) <= Total(bs) && forall x :: Covered(Taken(rs, bs), x) ==> Covered(bs, x)
    decreases |bs|
  {
    if bs != [] {
      var o := Donate(rs, bs[0]);
      var first := if o.err == Success then [bs[0]] else [];
      GainOne(rs, bs[0]);
      assert Total(first) <= bs[0].size;
      DonationsGain(o.free, bs[1..]);
      JoinGains(rs, first, o.free, Taken(o.free, bs[1..]), After(rs, bs));
      TotalConcat(first, Taken(o.free, bs[1..]));
      CoveredConcat(first, Taken(o.free, bs[1..]));
      assert bs == [bs[0]] + bs[1..];
      CoveredConcat([bs[0]], bs[1..]);
    }
  }

  // ----- when nothing is lost

  ghost predicate SameCover(a: seq<Region>, b: seq<Region>) { forall x :: Covered(a, x) <==> Covered(b, x) }

  /**
    A block that can be donated after these without losing a byte: it is free already, or none
    of it is and it either continues a free region upwards, or can hold a header and does not
    touch a region above it.
   */
  ghost predicate Welcome(bs: seq<Region>, b: Region) {
    || (forall x :: Has(b, x) ==> Covered(bs, x))
    || ((forall x :: Has(b, x) ==> !Covered(bs, x))
        && (Covered(bs, b.start - 1) || (HEADER <= b.size && !Covered(bs, b.End()))))
  }

  ghost predicate AllWelcome(bs: seq<Region>) { forall i :: 0 <= i < |bs| ==> Welcome(bs[..i], bs[i]) }

  /** Overlap is sharing an address. */
  lemma MeetsExactly(rs: seq<Region>, b: Region)
    requires Ordered(rs) && 0 < b.size
    ensures Meets(rs, b) <==> exists x :: Has(b, x) && Covered(rs, x)
  {
    if Meets(rs, b) {
      var i :| 0 <= i < |rs| && Conflicts(rs[i], b);
      var x := if rs[i].start < b.start then b.start else rs[i].start;
      assert Has(b, x) && Has(rs[i], x);
    }
    if x :| Has(b, x) && Covered(rs, x) {
      var i :| 0 <= i < |rs| && Has(rs[i], x);
      assert Conflicts(rs[i], b);
    }
  }

  /** For a block that overlaps nothing, contact is covering the address next to it. */
  lemma ContactExactly(rs: seq<Region>, b: Region)
    requires Ordered(rs) && 0 < b.size && !Meets(rs, b)
    ensures EndsAt(rs, b.start) <==> Covered(rs, b.start - 1)
    ensures StartsAt(rs, b.End()) <==> Covered(rs, b.End())
  {
    if i :| 0 <= i < |rs| && rs[i].End() == b.start { assert Has(rs[i], b.start - 1); }
    if i :| 0 <= i < |rs| && rs[i].start == b.End() { assert Has(rs[i], b.End()); }
    if i :| 0 <= i < |rs| && Has(rs[i], b.start - 1) { assert !Conflicts(rs[i], b); }
    if i :| 0 <= i < |rs| && Has(rs[i], b.End()) { assert !Conflicts(rs[i], b); }
  }

  lemma TakenExactly(rs: seq<Region>, b: Region)
    requires Ordered(rs) && 0 < b.size
    ensures Donate(rs, b).err == Success <==>
              && (forall x :: Has(b, x) ==> !Covered(rs, x))
              && (Covered(rs, b.start - 1) || (HEADER <= b.size && !Covered(rs, b.End())))
  {
    DonateSteps(rs, b);
    FreeAnswer(rs, b, Donate(rs, b).err, Donate(rs, b).free);
    MeetsExactly(rs, b);
    if !Meets(rs, b) { ContactExactly(rs, b); }
  }

  /**
    The answer to a donation of at least one byte, told from addresses alone: it exists if some
    of it is free already, or if it would touch a free region above it and none below; it is
    empty if it touches none and cannot hold the 24 bytes of a header.
   */
  lemma AnswerExactly(rs: seq<Region>, b: Region)
    requires Ordered(rs) && 0 < b.size
    ensures var err, below := Donate(rs, b).err, Covered(rs, b.start - 1);
            var clash := (exists x :: Has(b, x) && Covered(rs, x)) || (Covered(rs, b.End()) && !below);
            && (err == Exist <==> clash)
            && (err == Empty <==> !clash && !below && b.size < 24)
  {
    DonateSteps(rs, b);
    FreeAnswer(rs, b, Donate(rs, b).err, Donate(rs, b).free);
    MeetsExactly(rs, b);
    if !Meets(rs, b) { ContactExactly(rs, b); }
  }

  /** One donation loses nothing exactly if the block is welcome. */
  lemma KeptExactly(rs: seq<Region>, bs: seq<Region>, b: Region)
    requires WellFormed(rs) && Donatable(rs, b) && SameCover(rs, bs)
    ensures SameCover(Donate(rs, b).free, bs + [b]) <==> Welcome(bs, b)
  {
    GainOne(rs, b);
    CoveredConcat(bs, [b]);
    CoveredSingle(b);
    if 0 < b.size { TakenExactly(rs, b); }
    if Donate(rs, b).err != Success { assert Welcome(bs, b) <==> forall x :: Has(b, x) ==> Covered(bs, x); }
  }

  lemma AfterNext(rs: seq<Region>, bs: seq<Region>, i: nat)
    requires i < |bs|
    ensures After(rs, bs[..i + 1]) == Donate(After(rs, bs[..i]), bs[i]).free
  {
    assert bs[..i + 1] == bs[..i] + [bs[i]] && [bs[i]][1..] == [];
    AfterConcat(rs, bs[..i], [bs[i]]);
    var mid := After(rs, bs[..i]);
    assert After(mid, [bs[i]]) == After(Donate(mid, bs[i]).free, []);
  }

  lemma PrefixFits(bs: seq<Region>, i: nat)
    requires Blocks(bs) && Total(bs) < SIGNED && i < |bs|
    ensures WellFormed(After([], bs[..i])) && Donatable(After([], bs[..i]), bs[i])
  {
    TotalAround(bs, i);
    PartFits(bs, bs[..i]);
  }

  lemma PartFits(bs: seq<Region>, part: seq<Region>)
    requires Blocks(bs) && Total(part) < SIGNED && forall b :: b in part ==> b in bs
    ensures WellFormed(After([], part)) && Total(After([], part)) <= Total(part)
  {
    DonationsGain([], part);
  }

  lemma NextKept(bs: seq<Region>, i: nat)
    requires Blocks(bs) && Total(bs) < SIGNED && i < |bs| && SameCover(After([], bs[..i]), bs[..i])
    ensures SameCover(After([], bs[..i + 1]), bs[..i + 1]) <==> Welcome(bs[..i], bs[i])
  {
    PrefixFits(bs, i);
    AfterNext([], bs, i);
    assert bs[..i + 1] == bs[..i] + [bs[i]];
    KeptExactly(After([], bs[..i]), bs[..i], bs[i]);
  }

  /**
    From an empty list, nothing is lost at any time exactly if every block is welcome after the
    ones before it.
   */
  lemma NothingLostExactly(bs: seq<Region>)
    requires Blocks(bs) && Total(bs) < SIGNED
    ensures (forall i :: 0 <= i <= |bs| ==> SameCover(After([], bs[..i]), bs[..i])) <==> AllWelcome(bs)
  {
    if forall i :: 0 <= i <= |bs| ==> SameCover(After([], bs[..i]), bs[..i]) {
      forall i | 0 <= i < |bs| ensures Welcome(bs[..i], bs[i]) {
        assert SameCover(After([], bs[..i]), bs[..i]) && SameCover(After([], bs[..i + 1]), bs[..i + 1]);
        NextKept(bs, i);
      }
    }
    if AllWelcome(bs) {
      forall i | 0 <= i <= |bs| ensures SameCover(After([], bs[..i]), bs[..i]) { AllKept(bs, i); }
    }
  }

  lemma {:induction false} AllKept(bs: seq<Region>, i: nat)
    requires Blocks(bs) && Total(bs) < SIGNED && i <= |bs| && AllWelcome(bs)
    ensures SameCover(After([], bs[..i]), bs[..i])
  {
    if i > 0 {
      AllKept(bs, i - 1);
      NextKept(bs, i - 1);
    }
  }

  /**
    Which addresses are free after the first `i` donations, told from the blocks alone: those of
    every block that met the condition when its turn came.
   */
  ghost predicate FreeAfter(bs: seq<Region>, i: nat, x: int)
    requires i <= |bs|
    decreases i, 0
  {
    i > 0 && (FreeAfter(bs, i - 1, x) || (Has(bs[i - 1], x) && MetAt(bs, i - 1)))
  }

  /** The condition: none of the block is free, and it continues a free region upwards or stands alone. */
  ghost predicate MetAt(bs: seq<Region>, i: nat)
    requires i < |bs|
    decreases i, 1
  {
    && (forall x :: Has(bs[i], x) ==> !FreeAfter(bs, i, x))
    && (FreeAfter(bs, i, bs[i].start - 1) || (HEADER <= bs[i].size && !FreeAfter(bs, i, bs[i].End())))
  }

  /**
    Any sequence of donations: an address is free in the end exactly if a block that contains it
    met the condition when it was donated.
   */
  lemma {:induction false} FreeExactly(bs: seq<Region>, i: nat)
    requires Blocks(bs) && Total(bs) < SIGNED && i <= |bs|
    ensures forall x :: Covered(After([], bs[..i]), x) <==> FreeAfter(bs, i, x)
  {
    if i > 0 {
      FreeExactly(bs, i - 1);
      PrefixFits(bs, i - 1);
      AfterNext([], bs, i - 1);
      FreeNext(bs, i - 1, After([], bs[..i - 1]));
    }
  }

  lemma FreeNext(bs: seq<Region>, i: nat, rs: seq<Region>)
    requires i < |bs| && WellFormed(rs) && Donatable(rs, bs[i])
    requires forall x :: Covered(rs, x) <==> FreeAfter(bs, i, x)
    ensures forall x :: Covered(Donate(rs, bs[i]).free, x) <==> FreeAfter(bs, i + 1, x)
  {
    var b := bs[i];
    GainOne(rs, b);
    CoveredSingle(b);
    if 0 < b.size {
      TakenExactly(rs, b);
      assert Donate(rs, b).err == Success <==> MetAt(bs, i);
    }
  }

  /** Any two blocks are the same or have a gap between them, and each can hold a header. */
  ghost predicate Separate(bs: seq<Region>) {
    && (forall b :: b in bs ==> HEADER <= b.size)
    && (forall b, c :: b in bs && c in bs ==> b == c || b.End() < c.start || c.End() < b.start)
  }

  lemma WelcomeCovered(bs: seq<Region>)
    requires Blocks(bs) && Total(bs) < SIGNED && AllWelcome(bs)
    ensures SameCover(After([], bs), bs)
  {
    AllKept(bs, |bs|);
    assert bs[..|bs|] == bs;
  }

  /** Of such blocks nothing is lost, in whatever order they come. */
  lemma SeparateWelcome(bs: seq<Region>)
    requires Separate(bs)
    ensures AllWelcome(bs)
  {
    forall i | 0 <= i < |bs| ensures Welcome(bs[..i], bs[i]) {
      if bs[i] in bs[..i] {
        var j :| 0 <= j < i && bs[j] == bs[i];
        assert forall x :: Has(bs[i], x) ==> Has(bs[..i][j], x);
      } else {
        assert forall j :: 0 <= j < i ==> bs[..i][j] in bs && bs[..i][j] != bs[i];
      }
    }
  }

  /** Ascending blocks, each of which can hold a header or starts where the one before it ends. */
  ghost predicate Stacked(bs: seq<Region>) {
    && (forall i, j :: 0 <= i < j < |bs| ==> bs[i].End() <= bs[j].start)
    && (forall i :: 0 <= i < |bs| ==> 0 < bs[i].size)
    && (forall i :: 0 <= i < |bs| ==> HEADER <= bs[i].size || (i > 0 && bs[i - 1].End() == bs[i].start))
  }

  /** Of such blocks nothing is lost either: those that touch are merged. */
  lemma StackedWelcome(bs: seq<Region>)
    requires Stacked(bs)
    ensures AllWelcome(bs)
  {
    forall i | 0 <= i < |bs| ensures Welcome(bs[..i], bs[i]) {
      var lower := bs[..i];
      assert forall j :: 0 <= j < |lower| ==> lower[j].End() <= bs[i].start;
      if i > 0 && bs[i - 1].End() == bs[i].start { assert Has(lower[i - 1], bs[i].start - 1); }
    }
  }

  lemma SameMembers(a: seq<Region>, b: seq<Region>)
    requires forall r :: r in a <==> r in b
    ensures forall x :: Covered(a, x) <==> Covered(b, x)
  {
    forall x ensures Covered(a, x) <==> Covered(b, x) {
      if Covered(a, x) {
        var i :| 0 <= i < |a| && Has(a[i], x);
        assert a[i] in b;
      }
      if Covered(b, x) {
        var i :| 0 <= i < |b| && Has(b[i], x);
        assert b[i] in a;
      }
    }
  }

  /** The order of blocks does not change how much they hold. */
  lemma {:induction false} SameTotal(a: seq<Region>, b: seq<Region>)
    requires multiset(a) == multiset(b)
    ensures Total(a) == Total(b)
  {
    if a == [] {
      assert |multiset(b)| == 0;
    } else {
      assert a[0] in multiset(b);
      var j :| 0 <= j < |b| && b[j] == a[0];
      var b' := b[..j] + b[j + 1..];
      assert multiset(a[1..]) == multiset(b') by {
        assert a[..0] + a[1..] == a[1..];
        TakeOut(a, 0);
        TakeOut(b, j);
      }
      SameTotal(a[1..], b');
      LessOne(b, j);
    }
  }

  lemma TakeMiddle(lo: seq<Region>, r: Region, hi: seq<Region>, all: seq<Region>)
    requires all == lo + [r] + hi
    ensures multiset(lo + hi) == multiset(all) - multiset{r}
  {
    assert multiset(lo + [r] + hi) == multiset(lo) + multiset{r} + multiset(hi);
    assert multiset(lo + hi) == multiset(lo) + multiset(hi);
  }

  lemma TakeOut(a: seq<Region>, j: nat)
    requires j < |a|
    ensures multiset(a[..j] + a[j + 1..]) == multiset(a) - multiset{a[j]}
  {
    TakeMiddle(a[..j], a[j], a[j + 1..], a);
  }

  lemma LessOne(a: seq<Region>, j: nat)
    requires j < |a|
    ensures Total(a) == Total(a[..j] + a[j + 1..]) + a[j].size
  {
    TotalAround(a, j);
    TotalConcat(a[..j], a[j + 1..]);
  }
}
