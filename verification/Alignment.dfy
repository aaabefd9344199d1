/**
  The arithmetic of `boot_alloc`: padding at either end of a free region, the size a region
  would be left with, and when a region can hold an aligned block at all.
 */
module Alignment {
  import opened Regions

  function Pow2(n: nat): (m: nat)
    ensures m >= 1
  {
    if n == 0 then 1 else 2 * Pow2(n - 1)
  }

  /** Bytes skipped above a block carved from the end of the region. */
  function AfterPad(r: Region, size: nat, alignment: nat): nat {
    Sub64(r.End(), size) % Pow2(alignment)
  }

  /** Bytes skipped below a block carved from the start; a full unit when already aligned. */
  function BeforePad(r: Region, alignment: nat): nat {
    Pow2(alignment) - r.start % Pow2(alignment)
  }

  /** A signed 64-bit difference: what does not fit an `ssize_t` comes out 2^64 too low or too high. */
  function SignedSub(a: int, b: int): int {
    if a - b >= SIGNED then a - b - WORD else if a - b + SIGNED < 0 then a - b + WORD else a - b
  }

  /** Size left after carving from the end, as the signed subtraction computes it. */
  function AfterLeft(r: Region, size: nat, alignment: nat): int {
    SignedSub(Signed(r.size), Signed(Add64(size, AfterPad(r, size, alignment))))
  }

  /** Size left after carving from the start. */
  function BeforeLeft(r: Region, size: nat, alignment: nat): int {
    SignedSub(Signed(r.size), Signed(Add64(size, BeforePad(r, alignment))))
  }

  function BestLeft(r: Region, size: nat, alignment: nat): int {
    var after, before := AfterLeft(r, size, alignment), BeforeLeft(r, size, alignment);
    if after > before then after else before
  }

  predicate Aligned(p: int, alignment: nat) { p % Pow2(alignment) == 0 }

  /** The region contains an aligned block of the requested size. */
  ghost predicate Fits(r: Region, size: nat, alignment: nat) {
    exists p :: FitsAt(r, size, alignment, p)
  }

  predicate FitsAt(r: Region, size: nat, alignment: nat, p: int) {
    r.start <= p && p + size <= r.End() && Aligned(p, alignment)
  }

  /** What a caller of `boot_alloc` must respect for its signed casts to be exact. */
  predicate Sane(size: nat, alignment: nat) { alignment < 64 && size + Pow2(alignment) < SIGNED }

  // ----- modular arithmetic

  /** A nonzero multiple is at least one unit away from zero. */
  lemma MultipleIsFar(q: int, m: nat)
    requires m > 0
    ensures q >= 1 ==> q * m >= m
    ensures q <= -1 ==> q * m + m <= 0
  {
    if q >= 1 {
      assert (q - 1) * m >= 0;
    } else if q <= -1 {
      assert (-1 - q) * m >= 0;
    }
  }

  lemma MultipleIsAligned(q: int, m: nat)
    requires m > 0
    ensures (q * m) % m == 0
  {
    var d := (q * m) / m;
    assert (q - d) * m == q * m - d * m;
    MultipleIsFar(q - d, m);
  }

  /** Rounding down gives a multiple. */
  lemma RoundDown(x: int, m: nat)
    requires m > 0
    ensures 0 <= x % m < m && (x - x % m) % m == 0
  {
    assert x - x % m == (x / m) * m;
    MultipleIsAligned(x / m, m);
  }

  /** It is the largest multiple not above `x`. */
  lemma RoundDownLargest(x: int, m: nat, p: int)
    requires m > 0 && p <= x && p % m == 0
    ensures p <= x - x % m
  {
    var q := p / m - x / m;
    assert p == (p / m) * m;
    assert q * m == p - (x - x % m);
    MultipleIsFar(q, m);
  }

  lemma RoundUp(x: int, m: nat)
    requires m > 0
    ensures (x + (m - x % m)) % m == 0
  {
    assert x + (m - x % m) == (x / m + 1) * m;
    MultipleIsAligned(x / m + 1, m);
  }

  // ----- deciding whether a region can serve a request

  /** For sane requests both left-over sizes are the plain differences. */
  lemma PlainLefts(r: Region, size: nat, alignment: nat)
    requires r.size < SIGNED && r.End() < WORD && Sane(size, alignment)
    ensures 0 <= AfterPad(r, size, alignment) < Pow2(alignment)
    ensures 1 <= BeforePad(r, alignment) <= Pow2(alignment)
    ensures AfterLeft(r, size, alignment) == r.size - size - AfterPad(r, size, alignment)
    ensures BeforeLeft(r, size, alignment) == r.size - size - BeforePad(r, alignment)
  {
    RoundDown(Sub64(r.End(), size), Pow2(alignment));
    RoundDown(r.start, Pow2(alignment));
  }

  /** The highest aligned block of a region that is long enough. */
  lemma HighestBlock(r: Region, size: nat, alignment: nat)
    requires size <= r.size && r.End() < WORD
    ensures var p := r.End() - size - AfterPad(r, size, alignment);
            Aligned(p, alignment) && forall q :: FitsAt(r, size, alignment, q) ==> q <= p
  {
    var m, top := Pow2(alignment), r.End() - size;
    RoundDown(top, m);
    forall q | FitsAt(r, size, alignment, q) ensures q <= top - top % m {
      RoundDownLargest(top, m, q);
    }
  }

  /** Carving from the end reaches the highest aligned block, which exists iff any does. */
  lemma AfterEnd(r: Region, size: nat, alignment: nat)
    requires r.size < SIGNED && r.End() < WORD && Sane(size, alignment)
    ensures AfterLeft(r, size, alignment) >= 0 <==> Fits(r, size, alignment)
    ensures AfterLeft(r, size, alignment) >= 0 ==>
              FitsAt(r, size, alignment, r.start + AfterLeft(r, size, alignment))
  {
    PlainLefts(r, size, alignment);
    if size <= r.size {
      HighestBlock(r, size, alignment);
      var p := r.End() - size - AfterPad(r, size, alignment);
      assert p >= r.start ==> FitsAt(r, size, alignment, p);
    }
  }

  /** Carving from the start reaches an aligned block whenever enough is left. */
  lemma BeforeStart(r: Region, size: nat, alignment: nat)
    requires r.size < SIGNED && r.End() < WORD && Sane(size, alignment)
    ensures BeforeLeft(r, size, alignment) >= 0 ==>
              FitsAt(r, size, alignment, r.start + BeforePad(r, alignment))
  {
    PlainLefts(r, size, alignment);
    RoundUp(r.start, Pow2(alignment));
  }

  /** The smaller of the two paddings. */
  function LeastPad(r: Region, size: nat, alignment: nat): (pad: nat)
    ensures pad <= AfterPad(r, size, alignment) && pad <= BeforePad(r, alignment)
    ensures pad == AfterPad(r, size, alignment) || pad == BeforePad(r, alignment)
  {
    var a, b := AfterPad(r, size, alignment), BeforePad(r, alignment); if b < a then b else a
  }

  /** The greater left-over size is that of the end with the smaller padding. */
  lemma GreaterLeft(r: Region, size: nat, alignment: nat)
    requires r.size < SIGNED && r.End() < WORD && Sane(size, alignment)
    ensures var a, b := AfterPad(r, size, alignment), BeforePad(r, alignment);
            && BestLeft(r, size, alignment) == r.size - size - (if b < a then b else a)
            && (AfterLeft(r, size, alignment) == BestLeft(r, size, alignment) <==> a <= b)
  {
    PlainLefts(r, size, alignment);
  }

  /** The padding at the end leads down to the nearest aligned place for the block. */
  lemma EndPadExactly(r: Region, size: nat, alignment: nat)
    requires size <= r.size && r.End() < WORD
    ensures 0 <= AfterPad(r, size, alignment) < Pow2(alignment)
    ensures Aligned(r.End() - size - AfterPad(r, size, alignment), alignment)
  {
    RoundDown(r.End() - size, Pow2(alignment));
  }

  /** The padding at the start leads up to the next one, a whole unit on if the start is one. */
  lemma StartPadExactly(r: Region, alignment: nat)
    ensures 1 <= BeforePad(r, alignment) <= Pow2(alignment)
    ensures Aligned(r.start + BeforePad(r, alignment), alignment)
  {
    RoundDown(r.start, Pow2(alignment));
    RoundUp(r.start, Pow2(alignment));
  }

  /** The scan's test `greater >= 0` decides exactly whether an aligned block fits. */
  lemma ScanTestIsExact(r: Region, size: nat, alignment: nat)
    requires r.size < SIGNED && r.End() < WORD && Sane(size, alignment)
    ensures BestLeft(r, size, alignment) >= 0 <==> Fits(r, size, alignment)
  {
    AfterEnd(r, size, alignment);
    BeforeStart(r, size, alignment);
  }

  /** Whether an aligned block fits is a matter of the true padded size. */
  lemma FitsByPadding(r: Region, size: nat, alignment: nat)
    requires r.End() < WORD && size < WORD
    ensures Fits(r, size, alignment) <==> size + AfterPad(r, size, alignment) <= r.size
  {
    var pad := AfterPad(r, size, alignment);
    RoundDown(Sub64(r.End(), size), Pow2(alignment));
    if size <= r.size {
      HighestBlock(r, size, alignment);
      var p := r.End() - size - pad;
      assert p >= r.start ==> FitsAt(r, size, alignment, p);
    }
  }

  /** A left-over size is negative exactly if the padded request exceeds the region by at most 2^63. */
  lemma LeftNegative(size: nat, t: nat)
    requires size < SIGNED && t < WORD
    ensures SignedSub(Signed(size), Signed(t)) < 0 <==> size < t <= size + SIGNED
  {
  }

  /**
    Without the bound on the request the test at the end of the region goes wrong.  With the
    padded request `t` reduced to 64 bits, it is right for a request that does not wrap exactly
    when `t` does not exceed the region's size by more than 2^63, and for one that wraps exactly
    when `t` exceeds the region's size and that by at most 2^63.
   */
  lemma EndTestExactlyWhen(r: Region, size: nat, alignment: nat)
    requires r.size < SIGNED && r.End() < WORD && size < WORD && alignment < 64
    ensures var pad := AfterPad(r, size, alignment);
            var t := Add64(size, pad);
            (AfterLeft(r, size, alignment) >= 0 <==> Fits(r, size, alignment))
            <==> t <= r.size + SIGNED && (size + pad >= WORD ==> r.size < t)
  {
    RoundDown(Sub64(r.End(), size), Pow2(alignment));
    PowersGrow(alignment, 64);
    FitsByPadding(r, size, alignment);
    LeftNegative(r.size, Add64(size, AfterPad(r, size, alignment)));
  }

  /**
    When the scan's own test, which looks at both ends, comes out right: a block really fits, or
    the padded requests at both ends, reduced to 64 bits, exceed the region's size, and that by
    at most 2^63.
   */
  lemma SignedTestExactlyWhen(r: Region, size: nat, alignment: nat)
    requires r.size < SIGNED && r.End() < WORD && size < WORD && alignment < 64
    ensures var a, b := AfterPad(r, size, alignment), BeforePad(r, alignment);
            (BestLeft(r, size, alignment) >= 0 <==> Fits(r, size, alignment))
            <==> size + a <= r.size || (r.size < Add64(size, a) <= r.size + SIGNED
                                        && r.size < Add64(size, b) <= r.size + SIGNED)
  {
    RoundDown(Sub64(r.End(), size), Pow2(alignment));
    RoundDown(r.start, Pow2(alignment));
    PowersGrow(alignment, 63);
    PowersGrow(63, 64);
    FitsByPadding(r, size, alignment);
    LeftNegative(r.size, Add64(size, AfterPad(r, size, alignment)));
    LeftNegative(r.size, Add64(size, BeforePad(r, alignment)));
  }

  lemma {:induction false} PowersGrow(m: nat, n: nat)
    requires m <= n
    ensures Pow2(m) <= Pow2(n) && Pow2(64) == WORD
  {
    PowerOf64();
    if m < n { PowersGrow(m, n - 1); }
  }

  lemma PowerOf64()
    ensures Pow2(64) == WORD
  {
    assert Pow2(8) == 0x100;
    assert Pow2(16) == 0x1_0000;
    assert Pow2(24) == 0x100_0000;
    assert Pow2(32) == 0x1_0000_0000;
    assert Pow2(40) == 0x100_0000_0000;
    assert Pow2(48) == 0x1_0000_0000_0000;
    assert Pow2(56) == 0x100_0000_0000_0000;
  }

  /** A one-page region and a request of 2^64 - 8 bytes: accepted, though nothing fits. */
  lemma HugeRequestAccepted()
    ensures var r := Region(0x1000, 0x1000);
            AfterLeft(r, WORD - 8, 0) == 0x1008 && !Fits(r, WORD - 8, 0)
  {
    assert Pow2(0) == 1;
  }

  /** A request of 2^64 - 1 bytes whose padding wraps around: the whole region seems to be left. */
  lemma WrappedRequestAccepted()
    ensures var r := Region(0x1000, 0x1010);
            AfterLeft(r, WORD - 1, 4) == 0x1010 && !Fits(r, WORD - 1, 4)
  {
    assert Pow2(4) == 16;
  }

  /** A request for which only the test at the start of the region goes wrong; the scan takes the region. */
  lemma StartTestAccepts()
    ensures var r, size := Region(0x1000, 0x1000), SIGNED + 0xff8;
            && AfterLeft(r, size, 4) < 0 && BeforeLeft(r, size, 4) == SIGNED - 8
            && BestLeft(r, size, 4) >= 0 && !Fits(r, size, 4)
  {
    assert Pow2(4) == 16;
  }
}
