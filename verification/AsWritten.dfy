/**
  `boot_free` read literally.  On a non-empty list the C code looks at the head region only:
  the end it computes is scaled by the size of the header, no branch of its loop goes on to
  the next region, and the insertion that follows writes through a null pointer.  This module
  says exactly for which blocks that code nevertheless keeps the contract of its header file.
 */
module AsWritten {
  import opened Regions
  import opened FreeSpec

  datatype Outcome = Fault | Returned(err: Error, rs: seq<Region>)

  /** `curr + curr->size` in units of the struct, modulo 2^64. */
  function ScaledEnd(r: Region): nat { (r.start + HEADER * r.size) % WORD }

  function FreeLiterally(rs: seq<Region>, b: Region): Outcome {
    if rs == [] then
      if b.size < HEADER then Returned(Empty, rs) else Returned(Success, [b])
    else if ScaledEnd(rs[0]) == b.start then
      if |rs| > 1 && rs[1].start == b.End() then
        Returned(Success, [Region(rs[0].start, rs[0].size + b.size + rs[1].size)] + rs[2..])
      else if |rs| == 1 || rs[1].start > b.End() then
        Returned(Success, rs[0 := Region(rs[0].start, rs[0].size + b.size)])
      else
        Returned(Exist, rs)
    else if ScaledEnd(rs[0]) < b.start then
      Returned(Exist, rs)
    else if rs[0].start > b.End() then
      Fault
    else
      Returned(Exist, rs)
  }

  ghost predicate DoubleFree(rs: seq<Region>, b: Region) { exists x :: Covered(rs, x) && Has(b, x) }

  /** The header's promise: add exactly the block, or report a double free or a block too small. */
  ghost predicate KeepsPromise(rs: seq<Region>, b: Region, o: Outcome) {
    match o
    case Fault => false
    case Returned(Success, rs') =>
      !DoubleFree(rs, b) && forall x :: Covered(rs', x) <==> Covered(rs, x) || Has(b, x)
    case Returned(Exist, rs') => rs' == rs && DoubleFree(rs, b)
    case Returned(Empty, rs') => rs' == rs && b.size < HEADER
  }

  /** The block starts at the scaled end of the head region and does not reach into the second. */
  predicate Aliases(rs: seq<Region>, b: Region)
    requires rs != []
  {
    ScaledEnd(rs[0]) == b.start && (|rs| == 1 || b.End() <= rs[1].start)
  }

  lemma ScaledEndIsWrong(r: Region)
    requires HEADER <= r.size < SIGNED && r.End() < WORD
    ensures ScaledEnd(r) != r.End()
  {
  }

  /** A block above the head region: the merge adds the byte just above the head instead. */
  lemma WrongByte(rs: seq<Region>, b: Region, r: Region, rest: seq<Region>)
    requires Ordered(rs) && rs != [] && rs[0].End() < b.start && (|rs| > 1 ==> b.End() <= rs[1].start)
    requires r.start == rs[0].start && r.End() > rs[0].End()
    ensures var z := rs[0].End(); Covered([r] + rest, z) && !Covered(rs, z) && !Has(b, z)
  {
    assert Has(([r] + rest)[0], rs[0].End());
    CutHigh(rs, 1);
    forall i | 0 <= i < |rs| ensures !Has(rs[i], rs[0].End()) {
      assert i == 0 || rs[1..][i - 1] == rs[i];
    }
  }

  /** A block below the head region: the merge leaves it out. */
  lemma MissedByte(rs: seq<Region>, b: Region, r: Region)
    requires Ordered(rs) && rs != [] && b.End() <= rs[0].start && b.size > 0
    requires r.start == rs[0].start
    ensures !Covered(rs[0 := r], b.start) && Has(b, b.start)
  {
    CutHigh(rs, 0);
    assert rs[0..] == rs;
  }

  lemma Untouched(rs: seq<Region>, b: Region)
    requires !DoubleFree(rs, b) && rs != [] && rs[0].size > 0
    ensures b.size == 0 || b.End() <= rs[0].start || rs[0].End() <= b.start
  {
    var y := if b.start <= rs[0].start then rs[0].start else b.start;
    if b.size > 0 && b.End() > rs[0].start && rs[0].End() > b.start {
      assert Has(rs[0], y) && Has(b, y) && Covered(rs, y);
    }
  }

  /** An aliased block is accepted; that is right only if there was nothing to add. */
  lemma AliasedMerge(rs: seq<Region>, b: Region)
    requires WellFormed(rs) && rs != [] && Aliases(rs, b)
    ensures KeepsPromise(rs, b, FreeLiterally(rs, b)) <==>
              b.size == 0 && (|rs| == 1 || b.End() < rs[1].start)
  {
    MemberSize(rs, 0);
    ScaledEndIsWrong(rs[0]);
    var o := FreeLiterally(rs, b);
    if DoubleFree(rs, b) {
      var x :| Covered(rs, x) && Has(b, x);
    } else {
      Untouched(rs, b);
      if |rs| > 1 && rs[1].start == b.End() {
        WrongByte(rs, b, o.rs[0], rs[2..]);
      } else if b.size == 0 {
        assert o.rs == rs;
      } else if b.start > rs[0].End() {
        WrongByte(rs, b, o.rs[0], rs[1..]);
        assert o.rs == [o.rs[0]] + rs[1..];
      } else {
        MissedByte(rs, b, o.rs[0]);
      }
    }
  }

  /**
    On a non-empty list the code keeps its header's promise exactly for double frees that do
    not hit the scaled end of the head region, and for an empty block placed exactly there.
    In particular no further memory is ever added correctly.
   */
  lemma LiteralExactlyWhen(rs: seq<Region>, b: Region)
    requires WellFormed(rs) && rs != []
    ensures KeepsPromise(rs, b, FreeLiterally(rs, b)) <==>
              if Aliases(rs, b) then b.size == 0 && (|rs| == 1 || b.End() < rs[1].start)
              else DoubleFree(rs, b)
  {
    if Aliases(rs, b) {
      AliasedMerge(rs, b);
    }
  }

  /**
    Every answer on a non-empty list, told from the head region, its successor and the block: the
    end of the head is computed in units of 24 bytes, a block that starts there is merged unless
    it reaches into the second region, a block below the head whose start is not beyond that end
    faults, and any other block is turned down with the list as it was.
   */
  lemma LiteralAnswers(rs: seq<Region>, b: Region)
    requires rs != []
    ensures var o, end := FreeLiterally(rs, b), (rs[0].start + 24 * rs[0].size) % 0x1_0000_0000_0000_0000;
            var merges := b.start == end && (|rs| == 1 || b.End() <= rs[1].start);
            var faults := b.start < end && b.End() < rs[0].start;
            && (o == Fault <==> faults)
            && (o.Returned? && o.err == Success <==> merges)
            && (!merges && !faults ==> o == Returned(Exist, rs))
  {
  }

  /** What a merge makes of the list: the head grows by the block, and by a successor that it reaches. */
  lemma LiteralMerges(rs: seq<Region>, b: Region)
    requires rs != [] && FreeLiterally(rs, b).Returned? && FreeLiterally(rs, b).err == Success
    ensures var rs', head := FreeLiterally(rs, b).rs, rs[0];
            if |rs| > 1 && rs[1].start == b.End()
            then rs' == [Region(head.start, head.size + b.size + rs[1].size)] + rs[2..]
            else rs' == [Region(head.start, head.size + b.size)] + rs[1..]
  {
  }

  /** On an empty list: the block becomes the list, if it holds 24 bytes. */
  lemma LiteralFirst(b: Region)
    ensures FreeLiterally([], b) == if b.size < 24 then Returned(Empty, []) else Returned(Success, [b])
  {
  }

  /** A second bank of RAM above the scaled end of the first is turned down. */
  lemma SecondBankTurnedDown()
    ensures var rs := [Region(0x8000_0000, 0x1000)];
            FreeLiterally(rs, Region(0x9000_0000, 0x1000)) == Returned(Exist, rs)
  {
    LiteralAnswers([Region(0x8000_0000, 0x1000)], Region(0x9000_0000, 0x1000));
  }

  /** On an empty list it always keeps the promise. */
  lemma LiteralOnEmptyList(b: Region)
    ensures KeepsPromise([], b, FreeLiterally([], b))
  {
    CoveredSingle(b);
  }

  /**
    A page of RAM is free, and another page is donated at 24 times the first one's size above
    it: the list then claims the page between them that nobody donated.
   */
  lemma LiteralStealsMemory()
    ensures var rs, b := [Region(0x10000, 0x1000)], Region(0x28000, 0x1000);
            var o := FreeLiterally(rs, b);
            o.Returned? && o.err == Success && Covered(o.rs, 0x11000) && !Covered(rs, 0x11000) && !Has(b, 0x11000)
  {
    var rs, b := [Region(0x10000, 0x1000)], Region(0x28000, 0x1000);
    assert FreeLiterally(rs, b).rs[0] == Region(0x10000, 0x2000);
    assert Has(FreeLiterally(rs, b).rs[0], 0x11000);
  }
}
