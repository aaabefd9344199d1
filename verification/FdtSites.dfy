/**
  The nodes of a device tree with the places their tokens take in the flattened form, and the
  proof that walking the tokens is walking the tree in pre-order.
 */
module FdtSites {
  import opened FdtBlob
  import opened FdtTree
  import opened FdtWalk

  // ----- a tree as tokens; each function puts its tokens in front of `rest`

  function NopsThen(n: nat, rest: seq<Token>): seq<Token> {
    if n == 0 then rest else [Nop] + NopsThen(n - 1, rest)
  }

  function PropsThen(ps: seq<Prop>, rest: seq<Token>): seq<Token> {
    if ps == [] then rest
    else [Property(ps[0].nameOff, ps[0].val)] + NopsThen(ps[0].nops, PropsThen(ps[1..], rest))
  }

  function NodeThen(n: Node, rest: seq<Token>): seq<Token>
    decreases n, 0
  {
    var closing := [EndNode] + NopsThen(n.trail, rest);
    [Begin(n.name)] + NopsThen(n.nops, PropsThen(n.props, ListThen(n.children, closing)))
  }

  function ListThen(ns: seq<Node>, rest: seq<Token>): seq<Token>
    decreases ns
  {
    if ns == [] then rest else NodeThen(ns[0], ListThen(ns[1..], rest))
  }

  /** A whole structure block: NOPs, the root, and the END token. */
  function BlockTokens(lead: nat, root: Node): seq<Token> { NopsThen(lead, NodeThen(root, [End])) }

  // ----- sizes in bytes

  function PropsSize(ps: seq<Prop>): nat {
    if ps == [] then 0 else Size(Property(ps[0].nameOff, ps[0].val)) + 4 * ps[0].nops + PropsSize(ps[1..])
  }

  /** From the start of a node to its first child. */
  function OpeningSize(n: Node): nat { Size(Begin(n.name)) + 4 * n.nops + PropsSize(n.props) }

  function NodeSize(n: Node): nat
    decreases n, 0
  {
    OpeningSize(n) + ListSize(n.children) + 4 + 4 * n.trail
  }

  function ListSize(ns: seq<Node>): nat
    decreases ns
  {
    if ns == [] then 0 else NodeSize(ns[0]) + ListSize(ns[1..])
  }

  // ----- the tree in pre-order

  /** A node, where its BEGIN_NODE token stands, and its ancestors, closest first. */
  datatype Site = Site(pos: nat, node: Node, path: seq<Site>)

  /** The node at `off` and all its descendants in pre-order. */
  function Sites(n: Node, off: nat, path: seq<Site>): seq<Site>
    decreases n, 0
  {
    [Site(off, n, path)] + ListSites(n.children, off + OpeningSize(n), [Site(off, n, path)] + path)
  }

  function ListSites(ns: seq<Node>, off: nat, path: seq<Site>): seq<Site>
    decreases ns
  {
    if ns == [] then [] else Sites(ns[0], off, path) + ListSites(ns[1..], off + NodeSize(ns[0]), path)
  }

  function Positions(ss: seq<Site>): (ps: seq<nat>)
    ensures |ps| == |ss|
  {
    if ss == [] then [] else [ss[0].pos] + Positions(ss[1..])
  }

  /** What a walk should report about a node: its place, its true depth and its ancestors. */
  function VisitOf(s: Site): Visit { Visit(s.pos, |s.path|, Positions(s.path)) }

  function VisitsOf(ss: seq<Site>): (vs: seq<Visit>)
    ensures |vs| == |ss|
  {
    if ss == [] then [] else [VisitOf(ss[0])] + VisitsOf(ss[1..])
  }

  lemma {:induction false} VisitsOfAt(ss: seq<Site>, i: nat)
    requires i < |ss|
    ensures VisitsOf(ss)[i] == VisitOf(ss[i])
  {
    if i > 0 { VisitsOfAt(ss[1..], i - 1); }
  }

  lemma {:induction false} VisitsConcat(a: seq<Site>, b: seq<Site>)
    ensures VisitsOf(a + b) == VisitsOf(a) + VisitsOf(b)
  {
    if a == [] {
      assert a + b == b;
    } else {
      assert (a + b)[1..] == a[1..] + b;
      VisitsConcat(a[1..], b);
    }
  }

  // ----- scanning tokens

  lemma ScanToken(t: Token, rest: seq<Token>, off: nat, path: seq<nat>, depth: int)
    ensures var es := Entries(rest, off + Size(t));
            Scan(Entries([t] + rest, off), path, depth) ==
              if t.Begin? then [Visit(off, depth, path)] + Scan(es, [off] + path, depth + 1)
              else if t.EndNode? then Scan(es, Pop(path), depth - 1)
              else Scan(es, path, depth)
  {
    assert ([t] + rest)[1..] == rest;
    var es := Entries([t] + rest, off);
    assert es[1..] == Entries(rest, off + Size(t));
  }

  lemma {:induction false} ScanNops(n: nat, rest: seq<Token>, off: nat, path: seq<nat>, depth: int)
    ensures Scan(Entries(NopsThen(n, rest), off), path, depth) == Scan(Entries(rest, off + 4 * n), path, depth)
  {
    if n > 0 {
      ScanToken(Nop, NopsThen(n - 1, rest), off, path, depth);
      ScanNops(n - 1, rest, off + 4, path, depth);
    }
  }

  /** A property and the NOPs behind it. */
  lemma ScanPart(t: Token, nops: nat, more: seq<Token>, off: nat, path: seq<nat>, depth: int)
    requires t.Property?
    ensures Scan(Entries([t] + NopsThen(nops, more), off), path, depth)
            == Scan(Entries(more, off + Size(t) + 4 * nops), path, depth)
  {
    ScanToken(t, NopsThen(nops, more), off, path, depth);
    ScanNops(nops, more, off + Size(t), path, depth);
  }

  lemma {:induction false} ScanProps(ps: seq<Prop>, rest: seq<Token>, off: nat, path: seq<nat>, depth: int)
    ensures Scan(Entries(PropsThen(ps, rest), off), path, depth)
            == Scan(Entries(rest, off + PropsSize(ps)), path, depth)
  {
    if ps != [] {
      var t := Property(ps[0].nameOff, ps[0].val);
      ScanPart(t, ps[0].nops, PropsThen(ps[1..], rest), off, path, depth);
      ScanProps(ps[1..], rest, off + Size(t) + 4 * ps[0].nops, path, depth);
    }
  }

  lemma ScanBegin(t: Token, nops: nat, more: seq<Token>, off: nat, ps: seq<nat>, d: int)
    requires t.Begin?
    ensures Scan(Entries([t] + NopsThen(nops, more), off), ps, d)
            == [Visit(off, d, ps)] + Scan(Entries(more, off + Size(t) + 4 * nops), [off] + ps, d + 1)
  {
    ScanNops(nops, more, off + Size(t), [off] + ps, d + 1);
    ScanInFront(t, NopsThen(nops, more), off, ps, d, Scan(Entries(more, off + Size(t) + 4 * nops), [off] + ps, d + 1));
  }

  lemma ScanInFront(t: Token, inner: seq<Token>, off: nat, ps: seq<nat>, d: int, tail: seq<Visit>)
    requires t.Begin? && Scan(Entries(inner, off + Size(t)), [off] + ps, d + 1) == tail
    ensures Scan(Entries([t] + inner, off), ps, d) == [Visit(off, d, ps)] + tail
  {
    ScanToken(t, inner, off, ps, d);
  }

  /** Opening a node: it is reported, and its children are scanned with it on the path. */
  lemma ScanOpening(n: Node, rest: seq<Token>, off: nat, ps: seq<nat>, d: int)
    ensures Scan(Entries([Begin(n.name)] + NopsThen(n.nops, PropsThen(n.props, rest)), off), ps, d) ==
            [Visit(off, d, ps)] + Scan(Entries(rest, off + OpeningSize(n)), [off] + ps, d + 1)
  {
    ScanBegin(Begin(n.name), n.nops, PropsThen(n.props, rest), off, ps, d);
    ScanProps(n.props, rest, off + Size(Begin(n.name)) + 4 * n.nops, [off] + ps, d + 1);
  }

  /** Closing a node: it leaves the path. */
  lemma ScanClosing(trail: nat, rest: seq<Token>, off: nat, pos: nat, ps: seq<nat>, d: int)
    ensures Scan(Entries([EndNode] + NopsThen(trail, rest), off), [pos] + ps, d + 1) ==
            Scan(Entries(rest, off + 4 + 4 * trail), ps, d)
  {
    ScanToken(EndNode, NopsThen(trail, rest), off, [pos] + ps, d + 1);
    assert Pop([pos] + ps) == ps;
    ScanNops(trail, rest, off + 4, ps, d);
  }

  lemma PathGrows(here: Site, path: seq<Site>)
    ensures Positions([here] + path) == [here.pos] + Positions(path)
  {
    assert ([here] + path)[1..] == path;
  }

  // ----- pre-order, written in front of what follows

  function VisitsThen(n: Node, off: nat, path: seq<Site>, after: seq<Visit>): seq<Visit>
    decreases n, 0
  {
    [VisitOf(Site(off, n, path))] + ListVisitsThen(n.children, off + OpeningSize(n), [Site(off, n, path)] + path, after)
  }

  function ListVisitsThen(ns: seq<Node>, off: nat, path: seq<Site>, after: seq<Visit>): seq<Visit>
    decreases ns
  {
    if ns == [] then after
    else VisitsThen(ns[0], off, path, ListVisitsThen(ns[1..], off + NodeSize(ns[0]), path, after))
  }

  lemma AppendVisits(ss: seq<Site>, tt: seq<Site>, after: seq<Visit>)
    ensures VisitsOf(ss) + (VisitsOf(tt) + after) == VisitsOf(ss + tt) + after
  {
    VisitsConcat(ss, tt);
  }

  lemma PrependVisit(here: Site, ss: seq<Site>, after: seq<Visit>)
    ensures [VisitOf(here)] + (VisitsOf(ss) + after) == VisitsOf([here] + ss) + after
  {
    assert ([here] + ss)[1..] == ss;
  }

  lemma {:induction false} ThenIsSites(n: Node, off: nat, path: seq<Site>, after: seq<Visit>)
    ensures VisitsThen(n, off, path, after) == VisitsOf(Sites(n, off, path)) + after
    decreases n, 1
  {
    var here, kids := Site(off, n, path), off + OpeningSize(n);
    ListThenIsSites(n.children, kids, [here] + path, after);
    PrependVisit(here, ListSites(n.children, kids, [here] + path), after);
  }

  lemma {:induction false} ListThenIsSites(ns: seq<Node>, off: nat, path: seq<Site>, after: seq<Visit>)
    ensures ListVisitsThen(ns, off, path, after) == VisitsOf(ListSites(ns, off, path)) + after
    decreases ns
  {
    if ns != [] {
      var next := off + NodeSize(ns[0]);
      ListThenIsSites(ns[1..], next, path, after);
      ThenIsSites(ns[0], off, path, ListVisitsThen(ns[1..], next, path, after));
      AppendVisits(Sites(ns[0], off, path), ListSites(ns[1..], next, path), after);
    }
  }

  lemma {:induction false} ScanThen(n: Node, rest: seq<Token>, off: nat, path: seq<Site>, after: seq<Visit>)
    requires Scan(Entries(rest, off + NodeSize(n)), Positions(path), |path|) == after
    ensures Scan(Entries(NodeThen(n, rest), off), Positions(path), |path|) == VisitsThen(n, off, path, after)
    decreases n, 1
  {
    var here, kids := Site(off, n, path), off + OpeningSize(n);
    var closing := [EndNode] + NopsThen(n.trail, rest);
    PathGrows(here, path);
    ScanClosing(n.trail, rest, kids + ListSize(n.children), off, Positions(path), |path|);
    ScanListThen(n.children, closing, kids, [here] + path, after);
    ScanAround(n, ListThen(n.children, closing), here, ListVisitsThen(n.children, kids, [here] + path, after));
  }

  /** A node in front of its children, once those are scanned. */
  lemma ScanAround(n: Node, kids: seq<Token>, here: Site, inner: seq<Visit>)
    requires Scan(Entries(kids, here.pos + OpeningSize(n)), [here.pos] + Positions(here.path), |here.path| + 1) == inner
    ensures Scan(Entries([Begin(n.name)] + NopsThen(n.nops, PropsThen(n.props, kids)), here.pos),
                 Positions(here.path), |here.path|) == [VisitOf(here)] + inner
  {
    ScanOpening(n, kids, here.pos, Positions(here.path), |here.path|);
  }

  lemma {:induction false} ScanListThen(ns: seq<Node>, rest: seq<Token>, off: nat, path: seq<Site>, after: seq<Visit>)
    requires Scan(Entries(rest, off + ListSize(ns)), Positions(path), |path|) == after
    ensures Scan(Entries(ListThen(ns, rest), off), Positions(path), |path|) == ListVisitsThen(ns, off, path, after)
    decreases ns
  {
    if ns != [] {
      var next := off + NodeSize(ns[0]);
      ScanListThen(ns[1..], rest, next, path, after);
      ScanThen(ns[0], ListThen(ns[1..], rest), off, path, ListVisitsThen(ns[1..], next, path, after));
    }
  }

  /** A walk over the tokens of a node reports it and its descendants in pre-order, and goes on after it. */
  lemma ScanNode(n: Node, rest: seq<Token>, off: nat, path: seq<Site>)
    ensures Scan(Entries(NodeThen(n, rest), off), Positions(path), |path|) ==
            VisitsOf(Sites(n, off, path)) + Scan(Entries(rest, off + NodeSize(n)), Positions(path), |path|)
  {
    var after := Scan(Entries(rest, off + NodeSize(n)), Positions(path), |path|);
    ScanThen(n, rest, off, path, after);
    ThenIsSites(n, off, path, after);
  }

  // ----- from the block to the tree

  lemma {:induction false} FirstInEntries(n: nat, rest: seq<Token>, off: nat)
    requires rest != [] && rest[0].Begin?
    ensures FirstBegin(Entries(NopsThen(n, rest), off)) == Some(off + 4 * n)
  {
    if n > 0 {
      var es := Entries(NopsThen(n, rest), off);
      assert es[1..] == Entries(NopsThen(n - 1, rest), off + 4);
      FirstInEntries(n - 1, rest, off + 4);
    }
  }

  lemma EncodedAfterToken(f: Fdt, t: Token, rest: seq<Token>, p: nat)
    requires rest != [] && Encoded(f, [t] + rest, p)
    ensures Encoded(f, rest, p + Size(t)) && TokenAt(f, t, p) && NextToken(f, p) == Some(p + Size(t))
  {
    assert ([t] + rest)[1..] == rest;
  }

  lemma {:induction false} EncodedAfterNops(f: Fdt, n: nat, rest: seq<Token>, p: nat)
    requires rest != [] && Encoded(f, NopsThen(n, rest), p)
    ensures Encoded(f, rest, p + 4 * n)
    decreases n
  {
    if n > 0 {
      NopsNonempty(n - 1, rest);
      EncodedAfterToken(f, Nop, NopsThen(n - 1, rest), p);
      EncodedAfterNops(f, n - 1, rest, p + 4);
    }
  }

  lemma {:induction false} NopsNonempty(n: nat, rest: seq<Token>)
    requires rest != []
    ensures NopsThen(n, rest) != []
  {
  }

  lemma VisitsFrom(f: Fdt, at: nat)
    requires Inside(f, f.structStart) && Inside(f, at) && FirstBegin(Chain(f, f.structStart)) == Some(at)
    ensures Visits(f) == Scan(Chain(f, at), [], 0)
  {
  }

  lemma FirstAfterNops(f: Fdt, lead: nat, rest: seq<Token>)
    requires rest != [] && rest[0].Begin? && Encoded(f, NopsThen(lead, rest), f.structStart)
    ensures Inside(f, f.structStart) && FirstBegin(Chain(f, f.structStart)) == Some(f.structStart + 4 * lead)
  {
    FirstInEntries(lead, rest, f.structStart);
    FirstInChain(f, NopsThen(lead, rest), f.structStart + 4 * lead);
  }

  lemma FirstInChain(f: Fdt, ts: seq<Token>, at: nat)
    requires Encoded(f, ts, f.structStart) && FirstBegin(Entries(ts, f.structStart)) == Some(at)
    ensures Inside(f, f.structStart) && FirstBegin(Chain(f, f.structStart)) == Some(at)
  {
    var es := Entries(ts, f.structStart);
    assert Inside(f, f.structStart) && Chain(f, f.structStart) == es by { ChainOfEncoded(f, ts, f.structStart); }
  }

  lemma ScanEnd(off: nat)
    ensures Scan(Entries([End], off), [], 0) == []
  {
    assert [End] + [] == [End];
    ScanToken(End, [], off, [], 0);
  }

  /**
    Every flattened tree is walked in pre-order: the nodes met from `fdt_node_begin` on are
    exactly those of the tree, each once, with their true depths and ancestors.
   */
  lemma WalkIsPreorder(f: Fdt, lead: nat, root: Node)
    requires Encoded(f, BlockTokens(lead, root), f.structStart)
    ensures f.Readable() && Visits(f) == VisitsOf(Sites(root, f.structStart + 4 * lead, []))
  {
    var at := f.structStart + 4 * lead;
    ScanRoot(root, at);
    WalkOver(f, lead, NodeThen(root, [End]), VisitsOf(Sites(root, at, [])));
  }

  lemma WalkOver(f: Fdt, lead: nat, ts: seq<Token>, vs: seq<Visit>)
    requires ts != [] && ts[0].Begin? && Encoded(f, NopsThen(lead, ts), f.structStart)
    requires Scan(Entries(ts, f.structStart + 4 * lead), [], 0) == vs
    ensures f.Readable() && Visits(f) == vs
  {
    var at := f.structStart + 4 * lead;
    assert Inside(f, at) && Chain(f, at) == Entries(ts, at) by {
      assert Encoded(f, ts, at) by { EncodedAfterNops(f, lead, ts, f.structStart); }
      ChainOfEncoded(f, ts, at);
    }
    WalkStarts(f, lead, ts, at);
  }

  /** The walk starts at the first node after any leading NOPs. */
  lemma WalkStarts(f: Fdt, lead: nat, ts: seq<Token>, at: nat)
    requires ts != [] && ts[0].Begin? && Encoded(f, NopsThen(lead, ts), f.structStart)
    requires at == f.structStart + 4 * lead && Inside(f, at)
    ensures f.Readable() && Visits(f) == Scan(Chain(f, at), [], 0)
  {
    FirstAfterNops(f, lead, ts);
    VisitsFrom(f, at);
  }

  lemma ScanRoot(root: Node, at: nat)
    ensures Scan(Entries(NodeThen(root, [End]), at), [], 0) == VisitsOf(Sites(root, at, []))
  {
    ScanNode(root, [End], at, []);
    ScanEnd(at + NodeSize(root));
  }

  /** In a flattened tree no walk ever closes more nodes than it opened. */
  lemma TreesNeverUnderflow(f: Fdt, lead: nat, root: Node)
    requires Encoded(f, BlockTokens(lead, root), f.structStart)
    ensures f.Readable() && NeverUnderflows(Visits(f))
  {
    WalkIsPreorder(f, lead, root);
    forall i | 0 <= i < |Visits(f)| ensures Visits(f)[i].depth >= 0 {
      VisitsOfAt(Sites(root, f.structStart + 4 * lead, []), i);
    }
  }
}
