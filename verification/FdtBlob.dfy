/**
  The bytes of a flattened device tree and the step from one token of its structure block to
  the next (kernel/of/fdt.c).  Pointers are offsets from the start of the blob.
 */
module FdtBlob {
  import opened Endian

  datatype Option<T> = None | Some(value: T)

  const BEGIN_NODE: nat := 1
  const END_NODE: nat := 2
  const PROP: nat := 3
  const NOP: nat := 4
  const END: nat := 9

  /**
    Memory from the start of the blob onwards, the value `be32toh` yields for the word at each
    offset, and what the header says about the blocks.
   */
  datatype Fdt = Fdt(mem: seq<Byte>, words: seq<nat>, structStart: nat, structEnd: nat,
                     stringsStart: nat, stringsSize: nat) {

    /** `be32toh` of the word at `p`. */
    function Be32(p: nat): nat
      requires p < |words|
    {
      words[p]
    }

    /** The word at `p` is the one a host of this endianness loads and converts. */
    predicate WordRead(little: bool, p: nat)
      requires p < |words| && p + 4 <= |mem|
    {
      words[p] == Be32ToHost(little, Load32(little, mem[p], mem[p + 1], mem[p + 2], mem[p + 3]))
    }

    ghost predicate ReadBy(little: bool) {
      |words| + 3 == |mem| && forall p :: 0 <= p < |words| ==> WordRead(little, p)
    }

    /**
      What the walkers take for granted of any blob, however malformed: its blocks lie in
      memory, and a string that runs off the end of everything is stopped by a NUL.
     */
    predicate Readable() {
      && |words| + 3 == |mem| < P64 && structStart <= structEnd && structEnd + 12 <= |mem|
      && stringsStart + stringsSize <= |mem| && mem[|mem| - 1] == 0
    }
  }

  /** The block offsets and sizes are those in the header. */
  predicate HeaderRead(f: Fdt)
    requires |f.words| >= 40
  {
    && f.structStart == f.Be32(8) && f.structEnd == f.Be32(8) + f.Be32(36)
    && f.stringsStart == f.Be32(12) && f.stringsSize == f.Be32(32)
  }

  /** Whatever the endianness of the host, the words are the big-endian values of the bytes. */
  lemma HostReads(f: Fdt, little: bool, p: nat)
    requires f.ReadBy(little) && p < |f.words|
    ensures f.Be32(p) == Big32(f.mem[p], f.mem[p + 1], f.mem[p + 2], f.mem[p + 3])
  {
    assert f.WordRead(little, p);
    Be32OfLoad(little, f.mem[p], f.mem[p + 1], f.mem[p + 2], f.mem[p + 3]);
  }

  function StrLen(mem: seq<Byte>, p: nat): (n: nat)
    requires p < |mem| && mem[|mem| - 1] == 0
    ensures p + n < |mem|
    decreases |mem| - p
  {
    if mem[p] == 0 then 0 else 1 + StrLen(mem, p + 1)
  }

  /** `StrLen` stops at the first NUL. */
  lemma {:induction false} FirstNul(mem: seq<Byte>, p: nat)
    requires p < |mem| && mem[|mem| - 1] == 0
    ensures mem[p + StrLen(mem, p)] == 0 && forall i :: p <= i < p + StrLen(mem, p) ==> mem[i] != 0
    decreases |mem| - p
  {
    if mem[p] != 0 { FirstNul(mem, p + 1); }
  }

  /** The string at `p`, without its NUL. */
  function CString(mem: seq<Byte>, p: nat): seq<Byte>
    requires p < |mem| && mem[|mem| - 1] == 0
  {
    mem[p..p + StrLen(mem, p)]
  }

  /** Length in 4-byte cells, rounded up. */
  function Cells(n: nat): nat { n / 4 + if n % 4 != 0 then 1 else 0 }

  /** A position where a token may be read. */
  predicate Inside(f: Fdt, p: nat) { f.Readable() && f.structStart <= p <= f.structEnd }

  /**
    `fdt_next_token`.  Whatever the block holds, the result lies inside it and strictly
    further on, so every walk along the tokens ends.
   */
  function NextToken(f: Fdt, p: nat): (r: Option<nat>)
    requires Inside(f, p)
    ensures r.Some? ==> p < r.value < f.structEnd
  {
    var tag := f.Be32(p);
    var next :=
      if tag == NOP || tag == END_NODE then Some(p + 4)
      else if tag == BEGIN_NODE then Some(p + 4 + 4 * Cells(StrLen(f.mem, p + 4) + 1))
      else if tag == PROP then Some(p + 4 + 4 * (2 + Cells(f.Be32(p + 4))))
      else None;
    if next.None? || next.value < f.structStart || next.value >= f.structEnd then None else next
  }

  /**
    What a token is followed by, in bytes: a name with its terminating NUL or a property with its
    value, padded to whole cells, or a bare tag; and only below the end of the block.  Anything
    else has no next token.
   */
  lemma NextTokenExactly(f: Fdt, little: bool, p: nat, n: nat, q: nat)
    requires f.ReadBy(little) && Inside(f, p) && p + 4 + n < |f.mem|
    requires f.mem[p + 4 + n] == 0 && forall i :: p + 4 <= i < p + 4 + n ==> f.mem[i] != 0
    ensures var tag := Big32(f.mem[p], f.mem[p + 1], f.mem[p + 2], f.mem[p + 3]);
            var len := Big32(f.mem[p + 4], f.mem[p + 5], f.mem[p + 6], f.mem[p + 7]);
            NextToken(f, p) == Some(q) <==>
              && q < f.structEnd && (q - p) % 4 == 0
              && if tag == 1 then p + 4 + n < q <= p + 8 + n
                 else if tag == 3 then p + 12 + len <= q < p + 16 + len
                 else (tag == 2 || tag == 4) && q == p + 4
  {
    HostReads(f, little, p);
    HostReads(f, little, p + 4);
    StrLenIs(f.mem, p + 4, n);
    WholeCells(p + 4, n + 1, q);
    WholeCells(p + 12, f.Be32(p + 4), q);
    assert (q - p) % 4 == (q - (p + 4)) % 4 == (q - (p + 12)) % 4;
  }

  lemma {:induction false} StrLenIs(mem: seq<Byte>, p: nat, n: nat)
    requires p + n < |mem| && mem[|mem| - 1] == 0
    requires mem[p + n] == 0 && forall i :: p <= i < p + n ==> mem[i] != 0
    ensures StrLen(mem, p) == n
    decreases n
  {
    if n > 0 { StrLenIs(mem, p + 1, n - 1); }
  }

  /** Padding to whole cells is going on to the next multiple of four bytes. */
  lemma WholeCells(base: nat, n: nat, q: int)
    ensures q == base + 4 * Cells(n) <==> (q - base) % 4 == 0 && base + n <= q < base + n + 4
  {
  }

  /** A token met on a walk: where it is and what kind it is. */
  datatype Entry = Entry(pos: nat, tag: nat)

  /** All tokens from `p` on, as repeated `fdt_next_token` meets them. */
  function Chain(f: Fdt, p: nat): (es: seq<Entry>)
    requires Inside(f, p)
    ensures es != [] && es[0] == Entry(p, f.Be32(p))
    decreases f.structEnd - p
  {
    [Entry(p, f.Be32(p))] + match NextToken(f, p) case None => [] case Some(q) => Chain(f, q)
  }

  /** The rest of a chain is the chain of the next token. */
  lemma ChainTail(f: Fdt, p: nat)
    requires Inside(f, p)
    ensures Chain(f, p)[1..] == match NextToken(f, p) case None => [] case Some(q) => Chain(f, q)
  {
  }
}
