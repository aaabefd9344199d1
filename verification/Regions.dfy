/**
  Half-open address ranges and lists of them.  Everything the boot memory code promises is
  stated through the addresses a range contains, so the statements do not depend on how a
  list happens to be cut into ranges.
 */
module Regions {

  /** One past the largest 64-bit value: `size_t` and pointers are computed modulo this. */
  const WORD: nat := 0x1_0000_0000_0000_0000

  /** One past the largest value of `ssize_t`. */
  const SIGNED: nat := 0x8000_0000_0000_0000

  /** Unsigned 64-bit addition: the carry out of the top bit is lost. */
  function Add64(a: nat, b: nat): int { if a + b < WORD then a + b else a + b - WORD }

  /** Unsigned 64-bit subtraction: a borrow out of the top bit is lost. */
  function Sub64(a: nat, b: nat): int { if b <= a then a - b else a + WORD - b }

  /** A cast from `size_t` to `ssize_t`. */
  function Signed(x: int): int { if x < SIGNED then x else x - WORD }

  datatype Region = Region(start: nat, size: nat) {
    function End(): nat { start + size }
  }

  predicate Has(r: Region, x: int) { r.start <= x < r.End() }

  ghost predicate Covered(rs: seq<Region>, x: int) { exists i :: 0 <= i < |rs| && Has(rs[i], x) }

  /** No address lies in both ranges. */
  ghost predicate Apart(r: Region, q: Region) { forall x :: Has(r, x) ==> !Has(q, x) }

  ghost predicate PairwiseApart(rs: seq<Region>) {
    forall i, j :: 0 <= i < j < |rs| ==> Apart(rs[i], rs[j])
  }

  function Total(rs: seq<Region>): nat { if rs == [] then 0 else rs[0].size + Total(rs[1..]) }

  lemma {:induction false} TotalConcat(a: seq<Region>, b: seq<Region>)
    ensures Total(a + b) == Total(a) + Total(b)
  {
    if a == [] {
      assert a + b == b;
    } else {
      TotalConcat(a[1..], b);
      assert (a + b)[1..] == a[1..] + b;
    }
  }

  /** Splitting a list around one of its members. */
  lemma TotalAround(rs: seq<Region>, k: nat)
    requires k < |rs|
    ensures Total(rs) == Total(rs[..k]) + rs[k].size + Total(rs[k + 1..])
  {
    assert rs == rs[..k] + rs[k..];
    TotalConcat(rs[..k], rs[k..]);
    assert rs[k..][1..] == rs[k + 1..];
  }

  lemma CoveredConcat(a: seq<Region>, b: seq<Region>)
    ensures forall x :: Covered(a + b, x) <==> Covered(a, x) || Covered(b, x)
  {
    forall x ensures Covered(a + b, x) <==> Covered(a, x) || Covered(b, x) {
      if Covered(a, x) {
        var i :| 0 <= i < |a| && Has(a[i], x);
        assert Has((a + b)[i], x);
      }
      if Covered(b, x) {
        var i :| 0 <= i < |b| && Has(b[i], x);
        assert Has((a + b)[|a| + i], x);
      }
    }
  }

  lemma CoveredSingle(r: Region)
    ensures forall x :: Covered([r], x) <==> Has(r, x)
  {
    forall x ensures Covered([r], x) <==> Has(r, x) {
      if Has(r, x) { assert Has([r][0], x); }
    }
  }

  /** Lists whose members avoid each other's addresses can be joined. */
  lemma PairwiseConcat(a: seq<Region>, b: seq<Region>)
    requires PairwiseApart(a) && PairwiseApart(b)
    requires forall x :: !(Covered(a, x) && Covered(b, x))
    ensures PairwiseApart(a + b)
  {
    forall i, j | 0 <= i < j < |a + b| ensures Apart((a + b)[i], (a + b)[j]) {
      if i < |a| <= j {
        forall x | Has(a[i], x) ensures !Has(b[j - |a|], x) {
          assert Covered(a, x) && !Covered(b, x);
        }
      }
    }
  }

  lemma ThreeParts<T>(s: seq<T>, i: nat, j: nat)
    requires i <= j <= |s|
    ensures s == s[..i] + s[i..j] + s[j..]
  {
  }
}
