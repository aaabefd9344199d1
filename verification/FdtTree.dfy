/**
  Device trees, and their flattened form: the structure block of the Devicetree Specification,
  section 5.4, with FDT_NOP tokens allowed wherever the format allows them.  The chain of
  tokens read back from a flattened tree is the one that was written.
 */
module FdtTree {
  import opened Endian
  import opened FdtBlob

  /** A property, and the number of NOPs after it. */
  datatype Prop = Prop(nameOff: nat, val: seq<Byte>, nops: nat)

  /** A node, with the number of NOPs after its name and after its end. */
  datatype Node = Node(name: seq<Byte>, nops: nat, props: seq<Prop>, children: seq<Node>, trail: nat)

  datatype Token = Begin(name: seq<Byte>) | Property(nameOff: nat, val: seq<Byte>) | EndNode | Nop | End

  function TagOf(t: Token): nat {
    match t
    case Begin(_) => BEGIN_NODE
    case Property(_, _) => PROP
    case EndNode => END_NODE
    case Nop => NOP
    case End => END
  }

  // ----- tokens as bytes

  predicate Encodable(t: Token) {
    match t
    case Begin(name) => 0 !in name
    case Property(nameOff, val) => nameOff < P32 && |val| < P32
    case _ => true
  }

  function Zeros(n: nat): (z: seq<Byte>)
    ensures |z| == n
  {
    if n == 0 then [] else [0] + Zeros(n - 1)
  }

  function Padded(bs: seq<Byte>): (r: seq<Byte>)
    ensures |r| == 4 * Cells(|bs|) && bs <= r
  {
    bs + Zeros(4 * Cells(|bs|) - |bs|)
  }

  /** Bytes a token takes, padding included. */
  function Size(t: Token): (n: nat)
    ensures n >= 4
  {
    match t
    case Begin(name) => 4 + 4 * Cells(|name| + 1)
    case Property(_, val) => 12 + 4 * Cells(|val|)
    case _ => 4
  }

  function TokenBytes(t: Token): (bs: seq<Byte>)
    requires Encodable(t)
    ensures |bs| == Size(t)
  {
    Encode32(TagOf(t)) +
    match t
    case Begin(name) => Padded(name + [0])
    case Property(nameOff, val) => Encode32(|val|) + Encode32(nameOff) + Padded(val)
    case _ => []
  }

  predicate AllEncodable(ts: seq<Token>) { ts == [] || (Encodable(ts[0]) && AllEncodable(ts[1..])) }

  function Serial(ts: seq<Token>): seq<Byte>
    requires AllEncodable(ts)
  {
    if ts == [] then [] else TokenBytes(ts[0]) + Serial(ts[1..])
  }

  /** Where each token lands when the list is written from `off` on. */
  function Entries(ts: seq<Token>, off: nat): seq<Entry> {
    if ts == [] then [] else [Entry(off, TagOf(ts[0]))] + Entries(ts[1..], off + Size(ts[0]))
  }

  /** A token list as it may appear in a structure block: ended by END, and only there. */
  predicate Terminated(ts: seq<Token>)
    decreases |ts|
  {
    ts != [] && if |ts| == 1 then ts[0] == End else ts[0] != End && Terminated(ts[1..])
  }

  // ----- reading tokens back

  lemma ReadBack32(f: Fdt, little: bool, p: nat, x: nat)
    requires f.ReadBy(little) && p + 4 <= |f.mem| && x < P32 && Encode32(x) == f.mem[p..p + 4]
    ensures f.Be32(p) == x
  {
    Decode32(x);
    HostReads(f, little, p);
    var bs := f.mem[p..p + 4];
    assert bs[0] == f.mem[p] && bs[1] == f.mem[p + 1] && bs[2] == f.mem[p + 2] && bs[3] == f.mem[p + 3];
  }

  lemma SubSlice(mem: seq<Byte>, p: nat, bs: seq<Byte>, i: nat, j: nat)
    requires p + |bs| <= |mem| && mem[p..p + |bs|] == bs && i <= j <= |bs|
    ensures mem[p + i..p + j] == bs[i..j]
  {
    forall k | 0 <= k < j - i ensures mem[p + i..p + j][k] == bs[i..j][k] {
      assert mem[p..p + |bs|][i + k] == mem[p + i + k];
    }
  }

  lemma StrLenOf(mem: seq<Byte>, p: nat, name: seq<Byte>)
    requires mem != [] && mem[|mem| - 1] == 0 && p + |name| + 1 <= |mem|
    requires mem[p..p + |name| + 1] == name + [0] && 0 !in name
    ensures StrLen(mem, p) == |name|
  {
    FirstNul(mem, p);
    var s := mem[p..p + |name| + 1];
    assert mem[p + |name|] == s[|name|] == 0;
    assert forall i :: 0 <= i < |name| ==> mem[p + i] == s[i] == name[i] && name[i] in name;
  }

  /** The bytes of a token found at `p`. */
  ghost predicate Written(f: Fdt, t: Token, p: nat) {
    && Inside(f, p) && p + Size(t) <= f.structEnd
    && Encodable(t) && f.mem[p..p + Size(t)] == TokenBytes(t)
  }

  lemma TagReadBack(f: Fdt, little: bool, t: Token, p: nat)
    requires f.ReadBy(little) && Written(f, t, p)
    ensures f.Be32(p) == TagOf(t)
  {
    SubSlice(f.mem, p, TokenBytes(t), 0, 4);
    assert TokenBytes(t)[0..4] == Encode32(TagOf(t));
    ReadBack32(f, little, p, TagOf(t));
  }

  lemma NameReadBack(f: Fdt, name: seq<Byte>, p: nat)
    requires Written(f, Begin(name), p)
    ensures StrLen(f.mem, p + 4) == |name|
  {
    var bs := TokenBytes(Begin(name));
    SubSlice(f.mem, p, bs, 4, 4 + |name| + 1);
    assert bs[4..] == Padded(name + [0]);
    assert bs[4..4 + |name| + 1] == name + [0];
    StrLenOf(f.mem, p + 4, name);
  }

  /** The four parts of a property token. */
  lemma PropertyParts(nameOff: nat, val: seq<Byte>)
    requires nameOff < P32 && |val| < P32
    ensures var bs := TokenBytes(Property(nameOff, val));
            && |bs| >= 12 + |val| && bs[4..8] == Encode32(|val|) && bs[8..12] == Encode32(nameOff)
            && bs[12..12 + |val|] == val
  {
    var bs := TokenBytes(Property(nameOff, val));
    var a, b, c, d := Encode32(PROP), Encode32(|val|), Encode32(nameOff), Padded(val);
    assert bs == a + (b + c + d);
    assert d[..|val|] == val;
  }

  lemma LengthReadBack(f: Fdt, little: bool, nameOff: nat, val: seq<Byte>, p: nat)
    requires f.ReadBy(little) && Written(f, Property(nameOff, val), p)
    ensures f.Be32(p + 4) == |val| && f.Be32(p + 8) == nameOff
    ensures f.mem[p + 12..p + 12 + |val|] == val
  {
    var bs := TokenBytes(Property(nameOff, val));
    PropertyParts(nameOff, val);
    assert f.mem[p + 4..p + 8] == Encode32(|val|) by { SubSlice(f.mem, p, bs, 4, 8); }
    assert f.mem[p + 8..p + 12] == Encode32(nameOff) by { SubSlice(f.mem, p, bs, 8, 12); }
    assert f.mem[p + 12..p + 12 + |val|] == val by { SubSlice(f.mem, p, bs, 12, 12 + |val|); }
    ReadBack32(f, little, p + 4, |val|);
    ReadBack32(f, little, p + 8, nameOff);
  }

  lemma NextAfterBegin(f: Fdt, little: bool, name: seq<Byte>, p: nat)
    requires f.ReadBy(little) && Written(f, Begin(name), p)
    ensures NextToken(f, p) == if p + Size(Begin(name)) == f.structEnd then None else Some(p + Size(Begin(name)))
  {
    TagReadBack(f, little, Begin(name), p);
    NameReadBack(f, name, p);
  }

  lemma NextAfterProperty(f: Fdt, little: bool, nameOff: nat, val: seq<Byte>, p: nat)
    requires f.ReadBy(little) && Written(f, Property(nameOff, val), p)
    ensures var n := Size(Property(nameOff, val));
            NextToken(f, p) == if p + n == f.structEnd then None else Some(p + n)
  {
    TagReadBack(f, little, Property(nameOff, val), p);
    LengthReadBack(f, little, nameOff, val, p);
  }

  /** The token at `p` is followed by the one written after it. */
  lemma TokenStep(f: Fdt, little: bool, t: Token, p: nat)
    requires f.ReadBy(little) && Written(f, t, p)
    ensures f.Be32(p) == TagOf(t)
    ensures NextToken(f, p) == if t == End || p + Size(t) == f.structEnd then None else Some(p + Size(t))
  {
    assert f.Be32(p) == TagOf(t) by { TagReadBack(f, little, t, p); }
    match t
    case Begin(name) => NextAfterBegin(f, little, name, p);
    case Property(nameOff, val) => NextAfterProperty(f, little, nameOff, val, p);
    case _ => NextAfterTag(f, t, p);
  }

  lemma NextAfterTag(f: Fdt, t: Token, p: nat)
    requires Inside(f, p) && f.Be32(p) == TagOf(t) && !t.Begin? && !t.Property? && p + 4 <= f.structEnd
    ensures NextToken(f, p) == if t == End || p + 4 == f.structEnd then None else Some(p + 4)
  {
  }

  /** A block holding a token list from `p` to its end. */
  ghost predicate Stores(f: Fdt, ts: seq<Token>, p: nat) {
    && Inside(f, p) && AllEncodable(ts)
    && p + |Serial(ts)| == f.structEnd && f.mem[p..f.structEnd] == Serial(ts)
  }

  lemma StoresTail(f: Fdt, ts: seq<Token>, p: nat)
    requires ts != [] && Stores(f, ts, p)
    ensures Written(f, ts[0], p) && Stores(f, ts[1..], p + Size(ts[0]))
  {
    var first, rest := TokenBytes(ts[0]), Serial(ts[1..]);
    assert Serial(ts) == first + rest;
    TwoParts(f.mem, p, first, rest);
  }

  lemma TwoParts(mem: seq<Byte>, p: nat, a: seq<Byte>, b: seq<Byte>)
    requires p + |a| + |b| <= |mem| && mem[p..p + |a| + |b|] == a + b
    ensures mem[p..p + |a|] == a && mem[p + |a|..p + |a| + |b|] == b
  {
    SubSlice(mem, p, a + b, 0, |a|);
    SubSlice(mem, p, a + b, |a|, |a + b|);
    assert (a + b)[0..|a|] == a && (a + b)[|a|..|a + b|] == b;
  }

  // ----- token lists as they read

  /** A token found at `p`, with all it carries. */
  ghost predicate TokenAt(f: Fdt, t: Token, p: nat) {
    && Inside(f, p) && f.Be32(p) == TagOf(t)
    && (t.Begin? ==> CString(f.mem, p + 4) == t.name)
    && (t.Property? ==> f.Be32(p + 4) == |t.val| && f.Be32(p + 8) == t.nameOff
                        && p + 12 + |t.val| <= |f.mem| && f.mem[p + 12..p + 12 + |t.val|] == t.val)
  }

  /** Walking from `p` meets exactly these tokens. */
  ghost predicate Encoded(f: Fdt, ts: seq<Token>, p: nat)
    decreases |ts|
  {
    && ts != [] && TokenAt(f, ts[0], p)
    && if |ts| == 1 then ts[0] == End
       else NextToken(f, p) == Some(p + Size(ts[0])) && Encoded(f, ts[1..], p + Size(ts[0]))
  }

  lemma NameText(f: Fdt, name: seq<Byte>, p: nat)
    requires Written(f, Begin(name), p)
    ensures CString(f.mem, p + 4) == name
  {
    var bs := TokenBytes(Begin(name));
    NameReadBack(f, name, p);
    SubSlice(f.mem, p, bs, 4, 4 + |name|);
    assert bs[4..] == Padded(name + [0]);
    assert bs[4..4 + |name|] == name;
  }

  lemma WrittenIsAt(f: Fdt, little: bool, t: Token, p: nat)
    requires f.ReadBy(little) && Written(f, t, p)
    ensures TokenAt(f, t, p)
  {
    TagReadBack(f, little, t, p);
    match t
    case Begin(name) => NameText(f, name, p);
    case Property(nameOff, val) => LengthReadBack(f, little, nameOff, val, p);
    case _ =>
  }

  /** The tokens stand in memory one after the other, up to the end of the block. */
  ghost predicate Laid(f: Fdt, ts: seq<Token>, p: nat)
    decreases |ts|
  {
    if ts == [] then p == f.structEnd
    else Written(f, ts[0], p) && Laid(f, ts[1..], p + Size(ts[0]))
  }

  lemma {:induction false} SerialIsLaid(f: Fdt, ts: seq<Token>, p: nat)
    requires Stores(f, ts, p)
    ensures Laid(f, ts, p)
    decreases |ts|
  {
    if ts != [] {
      var q := p + Size(ts[0]);
      assert Written(f, ts[0], p) && Stores(f, ts[1..], q) by { StoresTail(f, ts, p); }
      SerialIsLaid(f, ts[1..], q);
      LaidCons(f, ts, p);
    }
  }

  lemma LaidCons(f: Fdt, ts: seq<Token>, p: nat)
    requires ts != [] && Written(f, ts[0], p) && Laid(f, ts[1..], p + Size(ts[0]))
    ensures Laid(f, ts, p)
  {
  }

  lemma EncodedCons(f: Fdt, ts: seq<Token>, p: nat)
    requires |ts| > 1 && TokenAt(f, ts[0], p) && NextToken(f, p) == Some(p + Size(ts[0]))
    requires Encoded(f, ts[1..], p + Size(ts[0]))
    ensures Encoded(f, ts, p)
  {
  }

  lemma LaidHead(f: Fdt, ts: seq<Token>, p: nat)
    requires ts != [] && Laid(f, ts, p)
    ensures Written(f, ts[0], p) && p + Size(ts[0]) <= f.structEnd && Laid(f, ts[1..], p + Size(ts[0]))
  {
  }

  lemma LaidPair(f: Fdt, ts: seq<Token>, p: nat)
    requires |ts| > 1 && Laid(f, ts, p)
    ensures Written(f, ts[0], p) && p + Size(ts[0]) < f.structEnd && Laid(f, ts[1..], p + Size(ts[0]))
  {
  }

  lemma WrittenStep(f: Fdt, little: bool, t: Token, p: nat)
    requires f.ReadBy(little) && Written(f, t, p) && t != End && p + Size(t) < f.structEnd
    ensures TokenAt(f, t, p) && NextToken(f, p) == Some(p + Size(t))
  {
    WrittenIsAt(f, little, t, p);
    TokenStep(f, little, t, p);
  }

  lemma {:induction false} LaidReadsBack(f: Fdt, little: bool, ts: seq<Token>, p: nat)
    requires f.ReadBy(little) && Terminated(ts) && Laid(f, ts, p)
    ensures Encoded(f, ts, p)
    decreases |ts|
  {
    if |ts| == 1 {
      WrittenIsAt(f, little, ts[0], p);
    } else {
      var t, rest, q := ts[0], ts[1..], p + Size(ts[0]);
      LaidPair(f, ts, p);
      assert TokenAt(f, t, p) && NextToken(f, p) == Some(q) by { WrittenStep(f, little, t, p); }
      assert Encoded(f, rest, q) by { LaidReadsBack(f, little, rest, q); }
      EncodedCons(f, ts, p);
    }
  }

  /** Reading a serialised token list gives back exactly its tokens. */
  lemma SerialReadsBack(f: Fdt, little: bool, ts: seq<Token>, p: nat)
    requires f.ReadBy(little) && Terminated(ts) && Stores(f, ts, p)
    ensures Encoded(f, ts, p)
  {
    SerialIsLaid(f, ts, p);
    LaidReadsBack(f, little, ts, p);
  }

  lemma ChainCons(f: Fdt, p: nat, tag: nat, q: nat, es: seq<Entry>)
    requires Inside(f, p) && f.Be32(p) == tag && NextToken(f, p) == Some(q) && Chain(f, q) == es
    ensures Chain(f, p) == [Entry(p, tag)] + es
  {
  }

  /** The chain of tokens is the list, each token at the place it was written. */
  lemma {:induction false} ChainOfEncoded(f: Fdt, ts: seq<Token>, p: nat)
    requires Encoded(f, ts, p)
    ensures Inside(f, p) && Chain(f, p) == Entries(ts, p)
    decreases |ts|
  {
    if |ts| > 1 {
      ChainOfEncoded(f, ts[1..], p + Size(ts[0]));
      ChainCons(f, p, TagOf(ts[0]), p + Size(ts[0]), Entries(ts[1..], p + Size(ts[0])));
    } else {
      assert ts[1..] == [];
    }
  }
}
