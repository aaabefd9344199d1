/**
  Device trees whose properties carry their names, and the strings block that holds them: on a
  blob with that block, a property looked up by name is the first of that name in the tree node.
 */
module FdtNames {
  import opened Endian
  import opened Regions
  import opened FdtBlob
  import opened FdtTree
  import opened FdtWalk
  import opened FdtSites
  import opened FdtProps
  import opened FdtMeaning
  import opened FdtSearch
  import opened FdtDevices
  import opened FdtReserve
  import opened FdtImage

  datatype NamedProp = NamedProp(name: seq<Byte>, val: seq<Byte>, nops: nat)

  datatype NamedNode =
    NamedNode(name: seq<Byte>, nops: nat, props: seq<NamedProp>, children: seq<NamedNode>, trail: nat)

  /** The value of the first property of that name. */
  function ValueOf(ps: seq<NamedProp>, name: seq<Byte>): Option<seq<Byte>> {
    if ps == [] then None else if ps[0].name == name then Some(ps[0].val) else ValueOf(ps[1..], name)
  }

  /** It is what the first property of that name holds, and nothing only if there is none. */
  lemma {:induction false} ValueIsFirst(ps: seq<NamedProp>, name: seq<Byte>)
    ensures ValueOf(ps, name) == None <==> forall i :: 0 <= i < |ps| ==> ps[i].name != name
    ensures forall i :: 0 <= i < |ps| && ps[i].name == name && (forall j :: 0 <= j < i ==> ps[j].name != name) ==>
                          ValueOf(ps, name) == Some(ps[i].val)
  {
    if ps != [] {
      ValueIsFirst(ps[1..], name);
      assert forall i :: 1 <= i < |ps| ==> ps[i] == ps[1..][i - 1];
      assert forall i :: 0 <= i < |ps| - 1 ==> ps[1..][i] == ps[i + 1];
    }
  }

  /** The node and its descendants in pre-order. */
  function Preorder(n: NamedNode): seq<NamedNode>
    decreases n, 0
  {
    [n] + ListPreorder(n.children)
  }

  function ListPreorder(ns: seq<NamedNode>): seq<NamedNode>
    decreases ns
  {
    if ns == [] then [] else Preorder(ns[0]) + ListPreorder(ns[1..])
  }

  // ----- names in a strings block, which may share or repeat them

  predicate NameIn(strings: seq<Byte>, off: nat, name: seq<Byte>) {
    && 0 !in name && off + |name| < |strings|
    && strings[off..off + |name|] == name && strings[off + |name|] == 0
  }

  predicate PropsNamed(strings: seq<Byte>, nps: seq<NamedProp>, ps: seq<Prop>) {
    if nps == [] || ps == [] then nps == [] && ps == []
    else
      && NameIn(strings, ps[0].nameOff, nps[0].name) && ps[0].val == nps[0].val && ps[0].nops == nps[0].nops
      && PropsNamed(strings, nps[1..], ps[1..])
  }

  /** The tree with offsets is the tree with names. */
  predicate NodeNamed(strings: seq<Byte>, nn: NamedNode, n: Node)
    decreases nn, 0
  {
    && n.name == nn.name && n.nops == nn.nops && n.trail == nn.trail
    && PropsNamed(strings, nn.props, n.props) && ListNamed(strings, nn.children, n.children)
  }

  predicate ListNamed(strings: seq<Byte>, nns: seq<NamedNode>, ns: seq<Node>)
    decreases nns
  {
    if nns == [] || ns == [] then nns == [] && ns == []
    else NodeNamed(strings, nns[0], ns[0]) && ListNamed(strings, nns[1..], ns[1..])
  }

  /** The strings block of the blob is this one. */
  predicate Keeps(f: Fdt, strings: seq<Byte>) {
    && f.Readable() && f.stringsSize == |strings|
    && f.mem[f.stringsStart..f.stringsStart + f.stringsSize] == strings
  }

  lemma NameRead(f: Fdt, strings: seq<Byte>, off: nat, name: seq<Byte>)
    requires Keeps(f, strings) && NameIn(strings, off, name)
    ensures NameAt(f, off) == Some(name)
  {
    var p := f.stringsStart + off;
    SubSlice(f.mem, f.stringsStart, strings, off, off + |name|);
    assert f.mem[f.stringsStart..f.stringsStart + f.stringsSize][off + |name|] == f.mem[p + |name|];
    StringAt(f.mem, p, name);
  }

  /** The value found through offsets is the one found by name. */
  lemma {:induction false} ValueByName(f: Fdt, strings: seq<Byte>, nps: seq<NamedProp>, ps: seq<Prop>,
                                       name: seq<Byte>)
    requires Keeps(f, strings) && PropsNamed(strings, nps, ps)
    ensures ValueIn(f, ps, name) == ValueOf(nps, name)
    decreases |ps|
  {
    if ps != [] {
      NameRead(f, strings, ps[0].nameOff, nps[0].name);
      ValueByName(f, strings, nps[1..], ps[1..], name);
    }
  }

  /** Each site is the node of the named tree in the same place of the pre-order. */
  predicate AllNamed(strings: seq<Byte>, nns: seq<NamedNode>, ss: seq<Site>) {
    if nns == [] || ss == [] then nns == [] && ss == []
    else PropsNamed(strings, nns[0].props, ss[0].node.props) && AllNamed(strings, nns[1..], ss[1..])
  }

  lemma {:induction false} AllNamedConcat(strings: seq<Byte>, a: seq<NamedNode>, s: seq<Site>,
                                          b: seq<NamedNode>, t: seq<Site>)
    requires AllNamed(strings, a, s) && AllNamed(strings, b, t)
    ensures AllNamed(strings, a + b, s + t)
    decreases |a|
  {
    if a == [] {
      assert a + b == b && s + t == t;
    } else {
      AllNamedConcat(strings, a[1..], s[1..], b, t);
      assert (a + b)[1..] == a[1..] + b && (s + t)[1..] == s[1..] + t;
    }
  }

  lemma {:induction false} SitesNamed(strings: seq<Byte>, nn: NamedNode, n: Node, off: nat, path: seq<Site>)
    requires NodeNamed(strings, nn, n)
    ensures AllNamed(strings, Preorder(nn), Sites(n, off, path))
    decreases nn, 1
  {
    var here := Site(off, n, path);
    var kids, sites := ListPreorder(nn.children), ListSites(n.children, off + OpeningSize(n), [here] + path);
    ListSitesNamed(strings, nn.children, n.children, off + OpeningSize(n), [here] + path);
    assert ([nn] + kids)[1..] == kids && ([here] + sites)[1..] == sites;
  }

  lemma {:induction false} ListSitesNamed(strings: seq<Byte>, nns: seq<NamedNode>, ns: seq<Node>, off: nat,
                                          path: seq<Site>)
    requires ListNamed(strings, nns, ns)
    ensures AllNamed(strings, ListPreorder(nns), ListSites(ns, off, path))
    decreases nns
  {
    if nns != [] {
      var next := off + NodeSize(ns[0]);
      var a, b := Preorder(nns[0]), ListPreorder(nns[1..]);
      var s, t := Sites(ns[0], off, path), ListSites(ns[1..], next, path);
      assert AllNamed(strings, a, s) by { SitesNamed(strings, nns[0], ns[0], off, path); }
      assert AllNamed(strings, b, t) by { ListSitesNamed(strings, nns[1..], ns[1..], next, path); }
      assert ListPreorder(nns) == a + b && ListSites(ns, off, path) == s + t;
      AllNamedConcat(strings, a, s, b, t);
    }
  }

  lemma {:induction false} NamedAt(strings: seq<Byte>, nns: seq<NamedNode>, ss: seq<Site>, i: nat)
    requires AllNamed(strings, nns, ss) && i < |ss|
    ensures |nns| == |ss| && PropsNamed(strings, nns[i].props, ss[i].node.props)
    decreases |ss|
  {
    NamedLength(strings, nns, ss);
    if i > 0 { NamedAt(strings, nns[1..], ss[1..], i - 1); }
  }

  lemma {:induction false} NamedLength(strings: seq<Byte>, nns: seq<NamedNode>, ss: seq<Site>)
    requires AllNamed(strings, nns, ss)
    ensures |nns| == |ss|
    decreases |ss|
  {
    if ss != [] && nns != [] { NamedLength(strings, nns[1..], ss[1..]); }
  }

  /** Looking up the name at `p` gives what the tree node has under it. */
  ghost predicate LooksUp(f: Fdt, p: nat, n: NamedNode) {
    forall name :: Inside(f, p) && Carries(f, PropOf(f, p, name), ValueOf(n.props, name))
  }

  /**
    On a flattened tree with these strings, the nodes met by the walk are those of the named
    tree in pre-order, and `fdt_get_prop_by_name` finds at each the first property of that name.
   */
  lemma LookupByName(f: Fdt, strings: seq<Byte>, lead: nat, nn: NamedNode, root: Node)
    requires Encoded(f, BlockTokens(lead, root), f.structStart) && Keeps(f, strings) && NodeNamed(strings, nn, root)
    ensures |Visits(f)| == |Preorder(nn)|
    ensures forall i :: 0 <= i < |Visits(f)| ==> LooksUp(f, Visits(f)[i].pos, Preorder(nn)[i])
  {
    var ss := Sites(root, f.structStart + 4 * lead, []);
    WalkIsPreorder(f, lead, root);
    SitesNamed(strings, nn, root, f.structStart + 4 * lead, []);
    NamedLength(strings, Preorder(nn), ss);
    forall i | 0 <= i < |ss| ensures LooksUp(f, Visits(f)[i].pos, Preorder(nn)[i]) {
      VisitsOfAt(ss, i);
      InTreePlaced(f, lead, root, ss[i]);
      NamedAt(strings, Preorder(nn), ss, i);
      SiteLooksUp(f, strings, ss[i], Preorder(nn)[i]);
    }
  }

  lemma SiteLooksUp(f: Fdt, strings: seq<Byte>, s: Site, nn: NamedNode)
    requires Placed(f, s.node, s.pos) && Keeps(f, strings) && PropsNamed(strings, nn.props, s.node.props)
    ensures LooksUp(f, s.pos, nn)
  {
    forall name ensures Inside(f, s.pos) && Carries(f, PropOf(f, s.pos, name), ValueOf(nn.props, name)) {
      PropCarries(f, s.node, s.pos, name);
      ValueByName(f, strings, nn.props, s.node.props, name);
    }
  }

  // ----- a strings block for every tree

  function PropNames(ps: seq<NamedProp>): seq<Byte> {
    if ps == [] then [] else ps[0].name + [0] + PropNames(ps[1..])
  }

  /** All names of a tree, one after the other. */
  function Names(n: NamedNode): seq<Byte>
    decreases n, 0
  {
    PropNames(n.props) + ListNames(n.children)
  }

  function ListNames(ns: seq<NamedNode>): seq<Byte>
    decreases ns
  {
    if ns == [] then [] else Names(ns[0]) + ListNames(ns[1..])
  }

  function OffsetProps(ps: seq<NamedProp>, off: nat): seq<Prop> {
    if ps == [] then []
    else [Prop(off, ps[0].val, ps[0].nops)] + OffsetProps(ps[1..], off + |ps[0].name| + 1)
  }

  /** The tree with the offsets its names have when they are written from `off` on. */
  function Offset(n: NamedNode, off: nat): Node
    decreases n, 0
  {
    Node(n.name, n.nops, OffsetProps(n.props, off), OffsetList(n.children, off + |PropNames(n.props)|), n.trail)
  }

  function OffsetList(ns: seq<NamedNode>, off: nat): seq<Node>
    decreases ns
  {
    if ns == [] then [] else [Offset(ns[0], off)] + OffsetList(ns[1..], off + |Names(ns[0])|)
  }

  predicate PropsPlain(ps: seq<NamedProp>) { ps == [] || (0 !in ps[0].name && PropsPlain(ps[1..])) }

  /** No property name contains a NUL. */
  predicate Plain(n: NamedNode)
    decreases n, 0
  {
    PropsPlain(n.props) && ListPlain(n.children)
  }

  predicate ListPlain(ns: seq<NamedNode>)
    decreases ns
  {
    ns == [] || (Plain(ns[0]) && ListPlain(ns[1..]))
  }

  /** The bytes `part` stand at `off`. */
  predicate PartAt(strings: seq<Byte>, off: nat, part: seq<Byte>) {
    off + |part| <= |strings| && strings[off..off + |part|] == part
  }

  lemma SplitPart(strings: seq<Byte>, off: nat, a: seq<Byte>, b: seq<Byte>)
    requires PartAt(strings, off, a + b)
    ensures PartAt(strings, off, a) && PartAt(strings, off + |a|, b)
  {
    SubSlice(strings, off, a + b, 0, |a|);
    SubSlice(strings, off, a + b, |a|, |a + b|);
    assert (a + b)[0..|a|] == a && (a + b)[|a|..|a + b|] == b;
  }

  lemma NameWritten(strings: seq<Byte>, off: nat, name: seq<Byte>)
    requires 0 !in name && PartAt(strings, off, name + [0])
    ensures NameIn(strings, off, name)
  {
    SplitPart(strings, off, name, [0]);
    assert strings[off + |name|..off + |name| + 1][0] == strings[off + |name|];
  }

  lemma {:induction false} OffsetPropsNamed(strings: seq<Byte>, ps: seq<NamedProp>, off: nat)
    requires PropsPlain(ps) && PartAt(strings, off, PropNames(ps))
    ensures PropsNamed(strings, ps, OffsetProps(ps, off))
    decreases |ps|
  {
    if ps != [] {
      var next := off + |ps[0].name| + 1;
      FirstNameWritten(strings, ps, off);
      OffsetPropsNamed(strings, ps[1..], next);
      assert OffsetProps(ps, off)[1..] == OffsetProps(ps[1..], next);
    }
  }

  lemma FirstNameWritten(strings: seq<Byte>, ps: seq<NamedProp>, off: nat)
    requires ps != [] && 0 !in ps[0].name && PartAt(strings, off, PropNames(ps))
    ensures NameIn(strings, off, ps[0].name) && PartAt(strings, off + |ps[0].name| + 1, PropNames(ps[1..]))
  {
    SplitPart(strings, off, ps[0].name + [0], PropNames(ps[1..]));
    NameWritten(strings, off, ps[0].name);
  }

  lemma {:induction false} OffsetNamed(strings: seq<Byte>, n: NamedNode, off: nat)
    requires Plain(n) && PartAt(strings, off, Names(n))
    ensures NodeNamed(strings, n, Offset(n, off))
    decreases n, 1
  {
    SplitPart(strings, off, PropNames(n.props), ListNames(n.children));
    OffsetPropsNamed(strings, n.props, off);
    OffsetListNamed(strings, n.children, off + |PropNames(n.props)|);
  }

  lemma {:induction false} OffsetListNamed(strings: seq<Byte>, ns: seq<NamedNode>, off: nat)
    requires ListPlain(ns) && PartAt(strings, off, ListNames(ns))
    ensures ListNamed(strings, ns, OffsetList(ns, off))
    decreases ns
  {
    if ns != [] {
      SplitPart(strings, off, Names(ns[0]), ListNames(ns[1..]));
      OffsetNamed(strings, ns[0], off);
      OffsetListNamed(strings, ns[1..], off + |Names(ns[0])|);
      assert OffsetList(ns, off)[1..] == OffsetList(ns[1..], off + |Names(ns[0])|);
    }
  }

  /**
    Round trip with names: any tree and any list of reservations have an image in which the walk
    meets the nodes in pre-order and every property is found by its name, on either host.
   */
  lemma NamedRoundTrip(rs: seq<Region>, lead: nat, nn: NamedNode, little: bool) returns (f: Fdt)
    requires Plain(nn) && AllStorable(rs) && AllEncodable(BlockTokens(lead, Offset(nn, 0)))
    requires 56 + |BlockBytes(rs)| + |Serial(BlockTokens(lead, Offset(nn, 0)))| + |Names(nn)| < P32
    ensures ReadsAs(f, little, rs, lead, Offset(nn, 0)) && |Visits(f)| == |Preorder(nn)|
    ensures forall i :: 0 <= i < |Visits(f)| ==> LooksUp(f, Visits(f)[i].pos, Preorder(nn)[i])
  {
    var root, strings := Offset(nn, 0), Names(nn);
    var ts := BlockTokens(lead, root);
    f := Image(BlockBytes(rs), Serial(ts), strings);
    ImageContains(BlockBytes(rs), Serial(ts), strings, little);
    NamedReadBack(f, rs, lead, nn, little);
  }

  lemma NamedReadBack(f: Fdt, rs: seq<Region>, lead: nat, nn: NamedNode, little: bool)
    requires Plain(nn) && AllStorable(rs) && AllEncodable(BlockTokens(lead, Offset(nn, 0)))
    requires Contains(f, little, BlockBytes(rs), Serial(BlockTokens(lead, Offset(nn, 0))), Names(nn))
    ensures ReadsAs(f, little, rs, lead, Offset(nn, 0)) && |Visits(f)| == |Preorder(nn)|
    ensures forall i :: 0 <= i < |Visits(f)| ==> LooksUp(f, Visits(f)[i].pos, Preorder(nn)[i])
  {
    var root, strings := Offset(nn, 0), Names(nn);
    assert ReadsAs(f, little, rs, lead, root) by { ContainsReadsAs(f, little, rs, lead, root, strings); }
    assert NodeNamed(strings, nn, root) by {
      assert strings[0..0 + |strings|] == strings;
      OffsetNamed(strings, nn, 0);
    }
    assert Encoded(f, BlockTokens(lead, root), f.structStart) by { FlattenedIsEncoded(f, little, lead, root); }
    LookupByName(f, strings, lead, nn, root);
  }
}
