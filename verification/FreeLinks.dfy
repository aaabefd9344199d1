/**
  Headers in memory.  A header occupies the first 24 bytes of its region, so a write to one
  destroys any other it overlaps; these lemmas say which writes keep a list linked.
 */
module FreeLinks {
  import opened Regions
  import opened FreeSpec

  datatype Header = Header(next: nat, prev: nat, size: nat)

  type Memory = map<nat, Header>

  /** Writing a header destroys every other header whose bytes it overlaps. */
  function Store(mem: Memory, a: nat, h: Header): Memory {
    (map k | k in mem && (k + HEADER <= a || a + HEADER <= k) :: mem[k])[a := h]
  }

  /** A write of one byte destroys every header that contains it. */
  function Scribble(mem: Memory, x: nat): Memory {
    map k | k in mem && !(k <= x < k + HEADER) :: mem[k]
  }

  ghost function StartAt(rs: seq<Region>, i: int): nat {
    if 0 <= i < |rs| then rs[i].start else NULL
  }

  /** The header of region `i` is in place and names its neighbours. */
  ghost predicate LinkAt(mem: Memory, rs: seq<Region>, i: int)
    requires 0 <= i < |rs|
  {
    && rs[i].start in mem
    && mem[rs[i].start] == Header(StartAt(rs, i + 1), StartAt(rs, i - 1), rs[i].size)
  }

  /** Head and headers spell out exactly this list, forwards and backwards. */
  ghost predicate Linked(head: nat, mem: Memory, rs: seq<Region>) {
    && head == StartAt(rs, 0)
    && forall i :: 0 <= i < |rs| ==> LinkAt(mem, rs, i)
  }

  // ----- headers in memory

  /** Far enough apart that no header overlaps another. */
  ghost predicate Spaced(rs: seq<Region>) {
    && (forall i :: 0 <= i < |rs| ==> 0 < rs[i].start)
    && (forall i, j :: 0 <= i < j < |rs| ==> rs[i].start + HEADER <= rs[j].start)
  }

  /** Rewriting the header of `rs[j]` leaves the other headers of a spaced list as they were. */
  lemma StoreKeeps(mem: Memory, rs: seq<Region>, j: nat, h: Header, i: nat)
    requires Spaced(rs) && j < |rs| && i < |rs| && i != j && rs[i].start in mem
    ensures var mem' := Store(mem, rs[j].start, h);
            rs[i].start in mem' && mem'[rs[i].start] == mem[rs[i].start]
  {
    assert rs[i].start + HEADER <= rs[j].start || rs[j].start + HEADER <= rs[i].start;
  }

  // ----- what is left alone

  predicate SameAt(mem: Memory, mem': Memory, k: nat) {
    (k in mem <==> k in mem') && (k in mem && k in mem' ==> mem[k] == mem'[k])
  }

  /** A header at `k` would overlap none of those of the list. */
  ghost predicate Clear(rs: seq<Region>, k: nat) {
    forall i :: 0 <= i < |rs| ==> k + HEADER <= rs[i].start || rs[i].start + HEADER <= k
  }

  /** Nothing was written but headers of the list. */
  ghost predicate Kept(mem: Memory, mem': Memory, rs: seq<Region>) {
    forall k: nat :: Clear(rs, k) ==> SameAt(mem, mem', k)
  }

  lemma StoreIsKept(mem: Memory, rs: seq<Region>, j: nat, h: Header)
    requires j < |rs|
    ensures Kept(mem, Store(mem, rs[j].start, h), rs)
  {
  }

  lemma KeptTwice(mem: Memory, mem': Memory, mem'': Memory, rs: seq<Region>)
    requires Kept(mem, mem', rs) && Kept(mem', mem'', rs)
    ensures Kept(mem, mem'', rs)
  {
    forall k | Clear(rs, k) ensures SameAt(mem, mem'', k) {
      assert SameAt(mem, mem', k) && SameAt(mem', mem'', k);
    }
  }

  /** The places of the headers matter, not the sizes. */
  lemma KeptResized(mem: Memory, mem': Memory, rs: seq<Region>, rs': seq<Region>)
    requires Kept(mem, mem', rs') && |rs'| == |rs| && forall i :: 0 <= i < |rs| ==> rs[i].start == rs'[i].start
    ensures Kept(mem, mem', rs)
  {
    forall k | Clear(rs, k) ensures SameAt(mem, mem', k) {
      assert Clear(rs', k);
    }
  }

  /** None of the addresses a header at `k` takes is among these. */
  ghost predicate Outside(rs: seq<Region>, k: nat) { forall x :: k <= x < k + HEADER ==> !Covered(rs, x) }

  /** Nothing was written outside these addresses. */
  ghost predicate WritesOnly(mem: Memory, mem': Memory, rs: seq<Region>) {
    forall k: nat :: Outside(rs, k) ==> SameAt(mem, mem', k)
  }

  /** Headers lie in their regions. */
  lemma KeptWrites(mem: Memory, mem': Memory, rs: seq<Region>, area: seq<Region>)
    requires Kept(mem, mem', rs)
    requires forall i, x :: 0 <= i < |rs| && rs[i].start <= x < rs[i].start + HEADER ==> Covered(area, x)
    ensures WritesOnly(mem, mem', area)
  {
    forall k: nat | Outside(area, k) ensures SameAt(mem, mem', k) {
      forall i | 0 <= i < |rs| ensures k + HEADER <= rs[i].start || rs[i].start + HEADER <= k {
        var x := if k <= rs[i].start then rs[i].start else k;
        assert x < k + HEADER && x < rs[i].start + HEADER ==> Covered(area, x);
      }
      assert Clear(rs, k);
    }
  }

  /** Writing one byte. */
  lemma ScribbleWrites(mem: Memory, x: nat)
    ensures WritesOnly(mem, Scribble(mem, x), [Region(x, 1)])
  {
    CoveredSingle(Region(x, 1));
    forall k: nat | Outside([Region(x, 1)], k) ensures SameAt(mem, Scribble(mem, x), k) {
      assert Has(Region(x, 1), x);
    }
  }

  lemma WritesMore(mem: Memory, mem': Memory, a: seq<Region>, area: seq<Region>)
    requires WritesOnly(mem, mem', a) && forall x :: Covered(a, x) ==> Covered(area, x)
    ensures WritesOnly(mem, mem', area)
  {
    forall k: nat | Outside(area, k) ensures SameAt(mem, mem', k) {
      assert Outside(a, k);
    }
  }

  lemma WritesTwice(mem: Memory, mem': Memory, mem'': Memory, a: seq<Region>, b: seq<Region>, area: seq<Region>)
    requires WritesOnly(mem, mem', a) && WritesOnly(mem', mem'', b)
    requires forall x :: Covered(a, x) || Covered(b, x) ==> Covered(area, x)
    ensures WritesOnly(mem, mem'', area)
  {
    forall k | Outside(area, k) ensures SameAt(mem, mem'', k) {
      assert Outside(a, k) && Outside(b, k);
      assert SameAt(mem, mem', k) && SameAt(mem', mem'', k);
    }
  }

  /** Memory after the member at `k` has been bypassed by its neighbours. */
  ghost function Bypass(mem: Memory, rs: seq<Region>, k: nat): Memory
    requires k < |rs| && Linked(StartAt(rs, 0), mem, rs) && Spaced(rs)
  {
    assert LinkAt(mem, rs, k);
    var p, n := StartAt(rs, k - 1), StartAt(rs, k + 1);
    assert k > 0 ==> LinkAt(mem, rs, k - 1);
    var mem1 := if k == 0 then mem else Store(mem, p, mem[p].(next := n));
    if k + 1 == |rs| then mem1 else
      assert LinkAt(mem, rs, k + 1);
      assert k > 0 ==> (StoreKeeps(mem, rs, k - 1, mem[p].(next := n), k + 1); n in mem1);
      Store(mem1, n, mem1[n].(prev := p))
  }

  lemma BypassLinks(mem: Memory, rs: seq<Region>, k: nat)
    requires k < |rs| && Linked(StartAt(rs, 0), mem, rs) && Spaced(rs)
    ensures Linked(if k == 0 then StartAt(rs, 1) else StartAt(rs, 0), Bypass(mem, rs, k), Splice(rs, k, []))
  {
    var rs', mem' := Splice(rs, k, []), Bypass(mem, rs, k);
    forall i | 0 <= i < |rs'| ensures LinkAt(mem', rs', i) {
      assert LinkAt(mem, rs, if i < k then i else i + 1);
      RemainingLink(rs, k, i);
    }
  }

  /** Where a member that stays was before, and who its neighbours are now. */
  lemma RemainingLink(rs: seq<Region>, k: nat, i: nat)
    requires k < |rs| && i + 1 < |rs|
    ensures var o, rs' := if i < k then i else i + 1, Splice(rs, k, []);
            && rs'[i] == rs[o]
            && StartAt(rs', i - 1) == StartAt(rs, if o - 1 == k then k - 1 else o - 1)
            && StartAt(rs', i + 1) == StartAt(rs, if o + 1 == k then k + 1 else o + 1)
  {
  }

  /** A member's size may change without touching any link. */
  lemma ResizeLinks(mem: Memory, rs: seq<Region>, k: nat, size: nat)
    requires k < |rs| && Linked(StartAt(rs, 0), mem, rs) && Spaced(rs)
    ensures LinkAt(mem, rs, k)
    ensures var rs' := rs[k := Region(rs[k].start, size)];
            Linked(StartAt(rs', 0), Store(mem, rs[k].start, mem[rs[k].start].(size := size)), rs')
  {
    assert LinkAt(mem, rs, k);
    var rs' := rs[k := Region(rs[k].start, size)];
    var mem' := Store(mem, rs[k].start, mem[rs[k].start].(size := size));
    forall i | 0 <= i < |rs'| ensures LinkAt(mem', rs', i) {
      assert LinkAt(mem, rs, i);
      assert StartAt(rs', i - 1) == StartAt(rs, i - 1) && StartAt(rs', i + 1) == StartAt(rs, i + 1);
    }
  }

  /** Memory after a header has been written between two neighbours that then point to it. */
  ghost function Attach(mem: Memory, prev: nat, r: Region, next: nat): Memory {
    var mem1 := Store(mem, r.start, Header(next, prev, r.size));
    var mem2 := if prev in mem1 && prev != NULL then Store(mem1, prev, mem1[prev].(next := r.start)) else mem1;
    if next in mem2 && next != NULL then Store(mem2, next, mem2[next].(prev := r.start)) else mem2
  }

  /** What the three writes of `Attach` leave in each header of the resulting list. */
  lemma AttachedHeader(mem: Memory, rs: seq<Region>, k: nat, i: nat)
    requires Spaced(rs) && k < |rs| && i < |rs|
    requires i != k ==> rs[i].start in mem
    requires k > 0 ==> rs[k - 1].start in mem
    requires k + 1 < |rs| ==> rs[k + 1].start in mem
    ensures var mem' := Attach(mem, StartAt(rs, k - 1), rs[k], StartAt(rs, k + 1));
            && rs[i].start in mem'
            && mem'[rs[i].start] ==
                 if i == k then Header(StartAt(rs, k + 1), StartAt(rs, k - 1), rs[k].size)
                 else if i + 1 == k then mem[rs[i].start].(next := rs[k].start)
                 else if i == k + 1 then mem[rs[i].start].(prev := rs[k].start)
                 else mem[rs[i].start]
  {
    var p, n := StartAt(rs, k - 1), StartAt(rs, k + 1);
    var h := Header(n, p, rs[k].size);
    var mem1 := Store(mem, rs[k].start, h);
    if i != k { StoreKeeps(mem, rs, k, h, i); }
    if k > 0 { StoreKeeps(mem, rs, k, h, k - 1); }
    if k + 1 < |rs| { StoreKeeps(mem, rs, k, h, k + 1); }
    var mem2 := if k > 0 then Store(mem1, p, mem1[p].(next := rs[k].start)) else mem1;
    if k > 0 {
      if i != k - 1 { StoreKeeps(mem1, rs, k - 1, mem1[p].(next := rs[k].start), i); }
      if k + 1 < |rs| { StoreKeeps(mem1, rs, k - 1, mem1[p].(next := rs[k].start), k + 1); }
    }
    if k + 1 < |rs| && i != k + 1 { StoreKeeps(mem2, rs, k + 1, mem2[n].(prev := rs[k].start), i); }
  }

  /** `r` takes the place of the `d` members at `k`: none (an insertion) or one (a move). */
  function Placed(rs: seq<Region>, k: nat, d: nat, r: Region): seq<Region>
    requires k + d <= |rs|
  {
    rs[..k] + [r] + rs[k + d..]
  }

  /**
    Attaching a header between the neighbours of a gap gives a linked list again, provided
    the new header overlaps no other.
   */
  lemma AttachLinks(mem: Memory, rs: seq<Region>, k: nat, d: nat, r: Region)
    requires d <= 1 && k + d <= |rs|
    requires Linked(StartAt(rs, 0), mem, rs) && Spaced(rs) && Spaced(Placed(rs, k, d, r))
    ensures var rs' := Placed(rs, k, d, r);
            Linked(StartAt(rs', 0), Attach(mem, StartAt(rs, k - 1), r, StartAt(rs, k + d)), rs')
  {
    var rs' := Placed(rs, k, d, r);
    assert rs'[k] == r && StartAt(rs', k - 1) == StartAt(rs, k - 1) && StartAt(rs', k + 1) == StartAt(rs, k + d);
    assert k > 0 ==> LinkAt(mem, rs, k - 1) && rs'[k - 1] == rs[k - 1];
    assert k + d < |rs| ==> LinkAt(mem, rs, k + d) && rs'[k + 1] == rs[k + d];
    var mem' := Attach(mem, StartAt(rs, k - 1), r, StartAt(rs, k + d));
    forall i | 0 <= i < |rs'| ensures LinkAt(mem', rs', i) {
      if i != k { MovedLink(mem, rs, k, d, r, i); }
      AttachedHeader(mem, rs', k, i);
    }
  }

  /** Where a member other than the new one was before, and who its neighbours are now. */
  lemma MovedLink(mem: Memory, rs: seq<Region>, k: nat, d: nat, r: Region, i: nat)
    requires d <= 1 && k + d <= |rs| && i < |Placed(rs, k, d, r)| && i != k && Linked(StartAt(rs, 0), mem, rs)
    ensures var o: nat := if i < k then i else i - 1 + d;
            var rs' := Placed(rs, k, d, r);
            && o < |rs| && rs'[i] == rs[o] && LinkAt(mem, rs, o)
            && StartAt(rs', i - 1) == (if i == k + 1 then r.start else StartAt(rs, o - 1))
            && StartAt(rs', i + 1) == (if i + 1 == k then r.start else StartAt(rs, o + 1))
  {
    var o := if i < k then i else i - 1 + d;
    assert LinkAt(mem, rs, o);
  }

  /** The neighbours written by `Attach` still have their headers when they are written. */
  lemma AttachDefined(mem: Memory, rs: seq<Region>, k: nat, d: nat, r: Region)
    requires d <= 1 && k + d <= |rs|
    requires Linked(StartAt(rs, 0), mem, rs) && Spaced(rs) && Spaced(Placed(rs, k, d, r))
    ensures var p, n := StartAt(rs, k - 1), StartAt(rs, k + d);
            var mem1 := Store(mem, r.start, Header(n, p, r.size));
            && (k > 0 ==> p in mem1 && p != NULL)
            && (k + d < |rs| ==> n in mem1 && n != NULL)
            && (k > 0 && k + d < |rs| ==> n in Store(mem1, p, mem1[p].(next := r.start)))
  {
    var rs' := Placed(rs, k, d, r);
    assert rs'[k] == r;
    assert k > 0 ==> LinkAt(mem, rs, k - 1) && rs'[k - 1] == rs[k - 1];
    assert k + d < |rs| ==> LinkAt(mem, rs, k + d) && rs'[k + 1] == rs[k + d];
  }
}
