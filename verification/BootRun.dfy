/**
  Whole runs of the boot memory code: any mixture of donations, allocations, blocks given
  back and writes by the owners of blocks.  A run never hands out the same byte twice, nor a
  byte of the kernel, of a reservation or of the device tree, and loses no byte beyond the
  padding each allocation may cost.
 */
module BootRun {
  import opened Regions
  import opened Alignment
  import opened FreeSpec
  import opened Donations
  import opened Reserved

  /** The free list and the blocks currently owned by callers of `boot_alloc`. */
  datatype State = State(free: seq<Region>, handed: seq<Region>)

  datatype Event =
    | Donation(b: Region, err: Error)
    | Alloc(size: nat, alignment: nat, p: nat)
    | GiveBack(i: nat, err: Error)
    | Idle

  ghost predicate Safe(env: Platform, s: State) {
    && WellFormed(s.free)
    && PairwiseApart(s.handed)
    && (forall x :: Covered(s.handed, x) ==> !Covered(s.free, x) && Permitted(env, x))
    && (forall x :: Covered(s.free, x) ==> Permitted(env, x))
  }

  function Without(bs: seq<Region>, i: nat): seq<Region>
    requires i < |bs|
  {
    bs[..i] + bs[i + 1..]
  }

  /**
    One step.  The caller's part is the one the header file asks for: a donated block is
    permitted memory, and no byte of it is in somebody's hands.
   */
  ghost predicate Next(env: Platform, s: State, e: Event, s': State) {
    match e
    case Donation(b, err) =>
      && Donatable(s.free, b) && (forall x :: Has(b, x) ==> Permitted(env, x) && !Covered(s.handed, x))
      && FreeStep(s.free, b, err, s'.free) && s'.handed == s.handed
    case Alloc(size, alignment, p) =>
      && Sane(size, alignment) && AllocStep(s.free, size, alignment, p, s'.free)
      && s'.handed == if p == NULL then s.handed else s.handed + [Region(p, size)]
    case GiveBack(i, err) =>
      && i < |s.handed| && Donatable(s.free, s.handed[i]) && FreeStep(s.free, s.handed[i], err, s'.free)
      && s'.handed == if err == Success then Without(s.handed, i) else s.handed
    case Idle => s' == s
  }

  lemma CoveredWithout(bs: seq<Region>, i: nat)
    requires i < |bs| && PairwiseApart(bs)
    ensures forall x :: Covered(Without(bs, i), x) <==> Covered(bs, x) && !Has(bs[i], x)
  {
    var lo, hi := bs[..i], bs[i + 1..];
    assert bs == lo + [bs[i]] + hi;
    Sums(lo, [bs[i]], hi);
    CoveredSingle(bs[i]);
    CoveredConcat(lo, hi);
    forall x | Has(bs[i], x) ensures !Covered(lo, x) && !Covered(hi, x) {
      OnlyOneHas(bs, i, x);
    }
  }

  lemma OnlyOneHas(bs: seq<Region>, i: nat, x: int)
    requires i < |bs| && PairwiseApart(bs) && Has(bs[i], x)
    ensures !Covered(bs[..i], x) && !Covered(bs[i + 1..], x)
  {
    forall j | 0 <= j < |bs| && j != i ensures !Has(bs[j], x) {
      if j < i { assert Apart(bs[j], bs[i]); } else { assert Apart(bs[i], bs[j]); }
    }
  }

  lemma WithoutApart(bs: seq<Region>, i: nat)
    requires i < |bs| && PairwiseApart(bs)
    ensures PairwiseApart(Without(bs, i))
  {
    var ws := Without(bs, i);
    forall j, k | 0 <= j < k < |ws| ensures Apart(ws[j], ws[k]) {
      assert ws[j] == bs[if j < i then j else j + 1] && ws[k] == bs[if k < i then k else k + 1];
    }
  }

  lemma TotalWithout(bs: seq<Region>, i: nat)
    requires i < |bs|
    ensures Total(Without(bs, i)) == Total(bs) - bs[i].size
  {
    TotalAround(bs, i);
    TotalConcat(bs[..i], bs[i + 1..]);
  }

  lemma AllocKeepsSafe(env: Platform, s: State, size: nat, alignment: nat, p: nat, free': seq<Region>)
    requires Safe(env, s) && Sane(size, alignment) && AllocStep(s.free, size, alignment, p, free')
    ensures Safe(env, State(free', if p == NULL then s.handed else s.handed + [Region(p, size)]))
  {
    AllocConserves(s.free, size, alignment, p, free');
    if p != NULL {
      AllocGrants(s.free, size, alignment, p, free');
      CoveredConcat(s.handed, [Region(p, size)]);
      CoveredSingle(Region(p, size));
      PairwiseConcat(s.handed, [Region(p, size)]);
    }
  }

  /**
    A donation of permitted memory keeps the state safe exactly if it is turned down or no
    byte of it is in somebody's hands: the list alone cannot notice the latter.
   */
  lemma DonationSafeExactly(env: Platform, s: State, b: Region, err: Error, free': seq<Region>)
    requires Safe(env, s) && Donatable(s.free, b) && FreeStep(s.free, b, err, free')
    requires forall x :: Has(b, x) ==> Permitted(env, x)
    ensures Safe(env, State(free', s.handed)) <==>
              err != Success || forall x :: Has(b, x) ==> !Covered(s.handed, x)
  {
    FreeAdds(s.free, b, err, free');
  }

  lemma NextKeepsSafe(env: Platform, s: State, e: Event, s': State)
    requires Safe(env, s) && Next(env, s, e, s')
    ensures Safe(env, s')
  {
    match e
    case Donation(b, err) =>
      DonationSafeExactly(env, s, b, err, s'.free);
    case Alloc(size, alignment, p) =>
      AllocKeepsSafe(env, s, size, alignment, p, s'.free);
    case GiveBack(i, err) =>
      GiveBackKeepsSafe(env, s, i, err, s'.free);
    case Idle =>
  }

  lemma GiveBackKeepsSafe(env: Platform, s: State, i: nat, err: Error, free': seq<Region>)
    requires Safe(env, s) && i < |s.handed| && Donatable(s.free, s.handed[i])
    requires FreeStep(s.free, s.handed[i], err, free')
    ensures Safe(env, State(free', if err == Success then Without(s.handed, i) else s.handed))
  {
    FreeAdds(s.free, s.handed[i], err, free');
    CoveredWithout(s.handed, i);
    WithoutApart(s.handed, i);
    assert forall x :: Has(s.handed[i], x) ==> Covered(s.handed, x);
  }

  // ----- runs

  ghost predicate Run(env: Platform, states: seq<State>, events: seq<Event>) {
    && |states| == |events| + 1
    && forall i :: 0 <= i < |events| ==> Next(env, states[i], events[i], states[i + 1])
  }

  function Bytes(s: State): nat { Total(s.free) + Total(s.handed) }

  /** Bytes that entered through accepted donations. */
  function Received(events: seq<Event>): nat {
    if events == [] then 0
    else (if events[0].Donation? && events[0].err == Success then events[0].b.size else 0) + Received(events[1..])
  }

  /** The most that padding and dropped slivers may have cost. */
  function WasteBound(events: seq<Event>): nat {
    if events == [] then 0
    else (if events[0].Alloc? && events[0].p != NULL then Pow2(events[0].alignment) + HEADER - 2 else 0)
         + WasteBound(events[1..])
  }

  lemma CountsOfOne(e: Event)
    ensures Received([e]) == if e.Donation? && e.err == Success then e.b.size else 0
    ensures WasteBound([e]) == if e.Alloc? && e.p != NULL then Pow2(e.alignment) + HEADER - 2 else 0
  {
    assert [e][1..] == [] && Received([]) == 0 && WasteBound([]) == 0;
  }

  lemma AllocBytes(s: State, size: nat, alignment: nat, p: nat, s': State)
    requires WellFormed(s.free) && Sane(size, alignment) && AllocStep(s.free, size, alignment, p, s'.free)
    requires s'.handed == if p == NULL then s.handed else s.handed + [Region(p, size)]
    ensures Bytes(s) - (if p == NULL then 0 else Pow2(alignment) + HEADER - 2) <= Bytes(s') <= Bytes(s)
  {
    AllocConserves(s.free, size, alignment, p, s'.free);
    TotalConcat(s.handed, [Region(p, size)]);
    assert Total([Region(p, size)]) == size;
  }

  lemma NextConserves(env: Platform, s: State, e: Event, s': State)
    requires Safe(env, s) && Next(env, s, e, s')
    ensures Bytes(s) + Received([e]) - WasteBound([e]) <= Bytes(s') <= Bytes(s) + Received([e])
  {
    CountsOfOne(e);
    match e
    case Donation(b, err) =>
      FreeAdds(s.free, b, err, s'.free);
    case Alloc(size, alignment, p) =>
      AllocBytes(s, size, alignment, p, s');
    case GiveBack(i, err) =>
      FreeAdds(s.free, s.handed[i], err, s'.free);
      TotalWithout(s.handed, i);
    case Idle =>
  }

  /**
    Whole-run safety and conservation: every state a run reaches is safe, and free plus owned
    bytes are what came in, less at most the waste bound.
   */
  lemma {:induction false} RunIsSafe(env: Platform, states: seq<State>, events: seq<Event>)
    requires Run(env, states, events) && Safe(env, states[0])
    ensures forall i :: 0 <= i < |states| ==> Safe(env, states[i])
    ensures var first, last := states[0], states[|states| - 1];
            Bytes(first) + Received(events) - WasteBound(events) <= Bytes(last) <= Bytes(first) + Received(events)
    decreases |events|
  {
    if events != [] {
      assert Next(env, states[0], events[0], states[1]);
      NextKeepsSafe(env, states[0], events[0], states[1]);
      NextConserves(env, states[0], events[0], states[1]);
      RunIsSafe(env, states[1..], events[1..]);
      assert forall i :: 1 <= i < |states| ==> states[i] == states[1..][i - 1];
      assert [events[0]][1..] == [] && Received([]) == 0 && WasteBound([]) == 0;
    }
  }

  /** A run goes on where another ends. */
  lemma RunConcat(env: Platform, states: seq<State>, events: seq<Event>, states': seq<State>, events': seq<Event>)
    requires Run(env, states, events) && Run(env, states', events') && states[|events|] == states'[0]
    ensures Run(env, states + states'[1..], events + events')
    ensures (states + states'[1..])[0] == states[0]
    ensures (states + states'[1..])[|events| + |events'|] == states'[|events'|]
  {
    var ss, es := states + states'[1..], events + events';
    forall i | 0 <= i < |es| ensures Next(env, ss[i], es[i], ss[i + 1]) {
      if i < |events| {
        assert Next(env, states[i], events[i], states[i + 1]);
      } else {
        var j := i - |events|;
        assert Next(env, states'[j], events'[j], states'[j + 1]);
        assert ss[i] == states'[j] && ss[i + 1] == states'[j + 1];
      }
    }
  }

  // ----- donations as a run

  /** The donations of the blocks, with the answers they get. */
  function Donated(rs: seq<Region>, bs: seq<Region>): (es: seq<Event>)
    ensures |es| == |bs|
    decreases |bs|
  {
    if bs == [] then [] else [Donation(bs[0], Donate(rs, bs[0]).err)] + Donated(Donate(rs, bs[0]).free, bs[1..])
  }

  lemma {:induction false} DonationsRun(env: Platform, rs: seq<Region>, bs: seq<Region>) returns (states: seq<State>)
    requires WellFormed(rs) && Blocks(bs) && Total(rs) + Total(bs) < SIGNED
    requires forall x :: Covered(bs, x) ==> Permitted(env, x)
    ensures Run(env, states, Donated(rs, bs))
    ensures states[0] == State(rs, []) && states[|states| - 1] == State(After(rs, bs), [])
    decreases |bs|
  {
    states := [State(rs, [])];
    if bs != [] {
      var o := Donate(rs, bs[0]);
      GainOne(rs, bs[0]);
      assert bs == [bs[0]] + bs[1..];
      CoveredConcat([bs[0]], bs[1..]);
      CoveredSingle(bs[0]);
      assert Total(o.free) <= Total(rs) + bs[0].size by { assert Total([bs[0]]) == bs[0].size; }
      var rest := DonationsRun(env, o.free, bs[1..]);
      DonationStep(env, rs, bs[0]);
      RunConcat(env, [State(rs, []), State(o.free, [])], [Donation(bs[0], o.err)], rest, Donated(o.free, bs[1..]));
      states := [State(rs, []), State(o.free, [])] + rest[1..];
    }
  }

  lemma DonationStep(env: Platform, rs: seq<Region>, b: Region)
    requires WellFormed(rs) && Donatable(rs, b) && forall x :: Has(b, x) ==> Permitted(env, x)
    ensures Run(env, [State(rs, []), State(Donate(rs, b).free, [])], [Donation(b, Donate(rs, b).err)])
  {
    DonateSteps(rs, b);
    assert Next(env, State(rs, []), Donation(b, Donate(rs, b).err), State(Donate(rs, b).free, []));
  }

  /** The bytes a sequence of donations brings in. */
  lemma {:induction false} DonatedReceives(rs: seq<Region>, bs: seq<Region>)
    ensures WasteBound(Donated(rs, bs)) == 0 && Received(Donated(rs, bs)) == Total(Taken(rs, bs))
    decreases |bs|
  {
    if bs != [] {
      var o := Donate(rs, bs[0]);
      DonatedReceives(o.free, bs[1..]);
      assert Donated(rs, bs)[1..] == Donated(o.free, bs[1..]);
      TotalConcat(if o.err == Success then [bs[0]] else [], Taken(o.free, bs[1..]));
      assert Total([bs[0]]) == bs[0].size;
    }
  }

  lemma {:induction false} CountsConcat(a: seq<Event>, b: seq<Event>)
    ensures WasteBound(a + b) == WasteBound(a) + WasteBound(b) && Received(a + b) == Received(a) + Received(b)
  {
    if a == [] {
      assert a + b == b;
    } else {
      CountsConcat(a[1..], b);
      assert (a + b)[1..] == a[1..] + b;
    }
  }

  lemma {:induction false} NothingReceived(es: seq<Event>)
    requires forall i :: 0 <= i < |es| ==> !es[i].Donation?
    ensures Received(es) == 0
  {
    if es != [] { NothingReceived(es[1..]); }
  }
}
