/**
  What the walkers of kernel/of/fdt.c mean on a flattened tree: subnodes are the children of
  the tree node, properties are its properties, and an inherited property is the one of the
  nearest enclosing node that defines it.
 */
module FdtMeaning {
  import opened Endian
  import opened FdtBlob
  import opened FdtTree
  import opened FdtWalk
  import opened FdtSites
  import opened FdtProps

  // ----- every node of the tree is found where its site says

  /** The tokens of `n` stand at `p`. */
  ghost predicate Placed(f: Fdt, n: Node, p: nat) {
    exists rest :: PlacedBefore(f, n, p, rest)
  }

  ghost predicate PlacedBefore(f: Fdt, n: Node, p: nat, rest: seq<Token>) {
    rest != [] && Encoded(f, NodeThen(n, rest), p)
  }

  ghost predicate SitePlaced(f: Fdt, s: Site) {
    Placed(f, s.node, s.pos) && PathPlaced(f, s.path)
  }

  ghost predicate PathPlaced(f: Fdt, path: seq<Site>) {
    forall i :: 0 <= i < |path| ==> Placed(f, path[i].node, path[i].pos)
  }

  lemma {:induction false} PropsNonempty(ps: seq<Prop>, rest: seq<Token>)
    requires rest != []
    ensures PropsThen(ps, rest) != []
  {
  }

  lemma {:induction false} ListNonempty(ns: seq<Node>, rest: seq<Token>)
    requires rest != []
    ensures ListThen(ns, rest) != []
  {
  }

  /** Past a token and the NOPs behind it. */
  lemma EncodedAfterPart(f: Fdt, t: Token, nops: nat, more: seq<Token>, p: nat)
    requires more != [] && Encoded(f, [t] + NopsThen(nops, more), p)
    ensures TokenAt(f, t, p) && Encoded(f, more, p + Size(t) + 4 * nops)
  {
    NopsNonempty(nops, more);
    EncodedAfterToken(f, t, NopsThen(nops, more), p);
    EncodedAfterNops(f, nops, more, p + Size(t));
  }

  lemma {:induction false} EncodedAfterProps(f: Fdt, ps: seq<Prop>, rest: seq<Token>, p: nat)
    requires rest != [] && Encoded(f, PropsThen(ps, rest), p)
    ensures Encoded(f, rest, p + PropsSize(ps))
    decreases |ps|
  {
    if ps != [] {
      var t, more := Property(ps[0].nameOff, ps[0].val), PropsThen(ps[1..], rest);
      PropsNonempty(ps[1..], rest);
      var q := p + Size(t) + 4 * ps[0].nops;
      assert Encoded(f, more, q) by { EncodedAfterPart(f, t, ps[0].nops, more, p); }
      EncodedAfterProps(f, ps[1..], rest, q);
    }
  }

  function Closing(n: Node, rest: seq<Token>): seq<Token> { [EndNode] + NopsThen(n.trail, rest) }

  lemma EncodedAfterOpening(f: Fdt, n: Node, rest: seq<Token>, p: nat)
    requires Encoded(f, NodeThen(n, rest), p)
    ensures Encoded(f, ListThen(n.children, Closing(n, rest)), p + OpeningSize(n))
  {
    var kids := ListThen(n.children, Closing(n, rest));
    EncodedAfterName(f, n, rest, p);
    EncodedAfterProps(f, n.props, kids, p + Size(Begin(n.name)) + 4 * n.nops);
  }

  /** Past the name of a node and the NOPs behind it. */
  lemma EncodedAfterName(f: Fdt, n: Node, rest: seq<Token>, p: nat)
    requires Encoded(f, NodeThen(n, rest), p)
    ensures var kids := ListThen(n.children, Closing(n, rest));
            kids != [] && Encoded(f, PropsThen(n.props, kids), p + Size(Begin(n.name)) + 4 * n.nops)
    ensures TokenAt(f, Begin(n.name), p)
  {
    var kids := ListThen(n.children, Closing(n, rest));
    ListNonempty(n.children, Closing(n, rest));
    PropsNonempty(n.props, kids);
    EncodedAfterPart(f, Begin(n.name), n.nops, PropsThen(n.props, kids), p);
  }

  lemma {:induction false} EncodedAfterNode(f: Fdt, n: Node, rest: seq<Token>, p: nat)
    requires rest != [] && Encoded(f, NodeThen(n, rest), p)
    ensures Encoded(f, rest, p + NodeSize(n))
    decreases n, 2
  {
    EncodedAfterOpening(f, n, rest, p);
    EncodedAfterInside(f, n, rest, p + OpeningSize(n), p + NodeSize(n));
  }

  /** From the first child of a node to what follows the node. */
  lemma {:induction false} EncodedAfterInside(f: Fdt, n: Node, rest: seq<Token>, p: nat, q: nat)
    requires rest != [] && Encoded(f, ListThen(n.children, Closing(n, rest)), p)
    requires q == p + ListSize(n.children) + 4 + 4 * n.trail
    ensures Encoded(f, rest, q)
    decreases n, 1
  {
    EncodedAfterList(f, n.children, Closing(n, rest), p);
    EncodedAfterClosing(f, n, rest, p + ListSize(n.children), q);
  }

  lemma EncodedAfterClosing(f: Fdt, n: Node, rest: seq<Token>, p: nat, q: nat)
    requires rest != [] && Encoded(f, Closing(n, rest), p) && q == p + 4 + 4 * n.trail
    ensures Encoded(f, rest, q)
  {
    NopsNonempty(n.trail, rest);
    EncodedAfterToken(f, EndNode, NopsThen(n.trail, rest), p);
    EncodedAfterNops(f, n.trail, rest, p + 4);
  }

  lemma {:induction false} EncodedRest(f: Fdt, ns: seq<Node>, rest: seq<Token>, p: nat)
    requires ns != [] && rest != [] && Encoded(f, ListThen(ns, rest), p)
    ensures Encoded(f, ListThen(ns[1..], rest), p + NodeSize(ns[0]))
    decreases ns, 0
  {
    ListNonempty(ns[1..], rest);
    EncodedAfterNode(f, ns[0], ListThen(ns[1..], rest), p);
  }

  lemma {:induction false} EncodedAfterList(f: Fdt, ns: seq<Node>, rest: seq<Token>, p: nat)
    requires rest != [] && Encoded(f, ListThen(ns, rest), p)
    ensures Encoded(f, rest, p + ListSize(ns))
    decreases ns, 1
  {
    if ns != [] {
      EncodedRest(f, ns, rest, p);
      EncodedAfterList(f, ns[1..], rest, p + NodeSize(ns[0]));
    }
  }

  lemma PathPlacedGrows(f: Fdt, s: Site)
    requires Placed(f, s.node, s.pos) && PathPlaced(f, s.path)
    ensures PathPlaced(f, [s] + s.path)
  {
  }

  lemma {:induction false} SitesArePlaced(f: Fdt, n: Node, rest: seq<Token>, off: nat, path: seq<Site>, i: nat)
    requires PlacedBefore(f, n, off, rest) && PathPlaced(f, path) && i < |Sites(n, off, path)|
    ensures SitePlaced(f, Sites(n, off, path)[i])
    decreases n, 1
  {
    var here := Site(off, n, path);
    var kids := ListSites(n.children, off + OpeningSize(n), [here] + path);
    assert Sites(n, off, path) == [here] + kids;
    assert Placed(f, n, off);
    if i > 0 {
      PathPlacedGrows(f, here);
      assert Encoded(f, ListThen(n.children, Closing(n, rest)), off + OpeningSize(n)) by {
        EncodedAfterOpening(f, n, rest, off);
      }
      ListSitesArePlaced(f, n.children, Closing(n, rest), off + OpeningSize(n), [here] + path, i - 1);
      assert Sites(n, off, path)[i] == kids[i - 1];
    }
  }

  lemma {:induction false} ListSitesArePlaced(f: Fdt, ns: seq<Node>, rest: seq<Token>, off: nat, path: seq<Site>,
                                              i: nat)
    requires rest != [] && Encoded(f, ListThen(ns, rest), off) && PathPlaced(f, path) && i < |ListSites(ns, off, path)|
    ensures SitePlaced(f, ListSites(ns, off, path)[i])
    decreases ns
  {
    var more, q := ListThen(ns[1..], rest), off + NodeSize(ns[0]);
    var first, others := Sites(ns[0], off, path), ListSites(ns[1..], q, path);
    assert more != [] by { ListNonempty(ns[1..], rest); }
    assert ListSites(ns, off, path) == first + others;
    if i < |first| {
      SitesArePlaced(f, ns[0], more, off, path, i);
    } else {
      EncodedRest(f, ns, rest, off);
      ListSitesArePlaced(f, ns[1..], rest, q, path, i - |first|);
    }
  }

  /** A node of the tree flattened into the blob. */
  ghost predicate InTree(f: Fdt, lead: nat, root: Node, s: Site) {
    && Encoded(f, BlockTokens(lead, root), f.structStart)
    && s in Sites(root, f.structStart + 4 * lead, [])
  }

  lemma InTreePlaced(f: Fdt, lead: nat, root: Node, s: Site)
    requires InTree(f, lead, root, s)
    ensures SitePlaced(f, s)
  {
    var at := f.structStart + 4 * lead;
    EncodedAfterNops(f, lead, NodeThen(root, [End]), f.structStart);
    assert PlacedBefore(f, root, at, [End]);
    var i :| 0 <= i < |Sites(root, at, [])| && Sites(root, at, [])[i] == s;
    SitesArePlaced(f, root, [End], at, [], i);
  }

  // ----- subnodes are children

  /** Where the children of a node stand. */
  function ChildPlaces(ns: seq<Node>, off: nat): (ps: seq<nat>)
    ensures |ps| == |ns|
  {
    if ns == [] then [] else [off] + ChildPlaces(ns[1..], off + NodeSize(ns[0]))
  }

  /** From the subnode at `places[i]`, `fdt_node_next_subnode` goes to the next place. */
  ghost predicate LeadsOn(f: Fdt, places: seq<nat>, i: nat)
    requires i < |places|
  {
    && Inside(f, places[i])
    && FirstSubnode(AfterNode(Chain(f, places[i]), 0)) == if i + 1 < |places| then Some(places[i + 1]) else None
  }

  lemma SkipToken(t: Token, rest: seq<Token>, off: nat, depth: int)
    ensures var es, d := Entries(rest, off + Size(t)), Bump(TagOf(t), depth);
            AfterNode(Entries([t] + rest, off), depth) == if d > 0 then AfterNode(es, d) else es
  {
    assert ([t] + rest)[1..] == rest;
    var es := Entries([t] + rest, off);
    assert es[1..] == Entries(rest, off + Size(t));
  }

  lemma {:induction false} SkipNops(n: nat, rest: seq<Token>, off: nat, depth: int)
    requires depth > 0
    ensures AfterNode(Entries(NopsThen(n, rest), off), depth) == AfterNode(Entries(rest, off + 4 * n), depth)
  {
    if n > 0 {
      SkipToken(Nop, NopsThen(n - 1, rest), off, depth);
      SkipNops(n - 1, rest, off + 4, depth);
    }
  }

  lemma SkipPart(t: Token, nops: nat, more: seq<Token>, off: nat, depth: int)
    requires t.Property? && depth > 0
    ensures AfterNode(Entries([t] + NopsThen(nops, more), off), depth)
            == AfterNode(Entries(more, off + Size(t) + 4 * nops), depth)
  {
    SkipToken(t, NopsThen(nops, more), off, depth);
    SkipNops(nops, more, off + Size(t), depth);
  }

  lemma {:induction false} SkipProps(ps: seq<Prop>, rest: seq<Token>, off: nat, depth: int)
    requires depth > 0
    ensures AfterNode(Entries(PropsThen(ps, rest), off), depth) == AfterNode(Entries(rest, off + PropsSize(ps)), depth)
  {
    if ps != [] {
      var t := Property(ps[0].nameOff, ps[0].val);
      SkipPart(t, ps[0].nops, PropsThen(ps[1..], rest), off, depth);
      SkipProps(ps[1..], rest, off + Size(t) + 4 * ps[0].nops, depth);
    }
  }

  lemma SkipBegin(t: Token, nops: nat, more: seq<Token>, off: nat, depth: int)
    requires t.Begin? && depth >= 0
    ensures AfterNode(Entries([t] + NopsThen(nops, more), off), depth)
            == AfterNode(Entries(more, off + Size(t) + 4 * nops), depth + 1)
  {
    SkipToken(t, NopsThen(nops, more), off, depth);
    SkipNops(nops, more, off + Size(t), depth + 1);
  }

  lemma SkipOpening(n: Node, rest: seq<Token>, off: nat, depth: int)
    requires depth >= 0
    ensures AfterNode(Entries([Begin(n.name)] + NopsThen(n.nops, PropsThen(n.props, rest)), off), depth) ==
            AfterNode(Entries(rest, off + OpeningSize(n)), depth + 1)
  {
    SkipBegin(Begin(n.name), n.nops, PropsThen(n.props, rest), off, depth);
    SkipProps(n.props, rest, off + Size(Begin(n.name)) + 4 * n.nops, depth + 1);
  }

  /** From the start of a node to its closing token, the nesting never drops below its own. */
  lemma {:induction false} SkipToClosing(n: Node, rest: seq<Token>, off: nat, depth: int)
    requires depth >= 0
    ensures AfterNode(Entries(NodeThen(n, rest), off), depth) ==
            AfterNode(Entries(Closing(n, rest), off + OpeningSize(n) + ListSize(n.children)), depth + 1)
    decreases n, 1
  {
    SkipOpening(n, ListThen(n.children, Closing(n, rest)), off, depth);
    SkipList(n.children, Closing(n, rest), off + OpeningSize(n), depth + 1);
  }

  lemma {:induction false} SkipChild(n: Node, more: seq<Token>, off: nat, depth: int)
    requires depth > 0
    ensures AfterNode(Entries(NodeThen(n, more), off), depth) == AfterNode(Entries(more, off + NodeSize(n)), depth)
    decreases n, 2
  {
    SkipToClosing(n, more, off, depth);
    SkipClosing(n.trail, more, off + OpeningSize(n) + ListSize(n.children), depth);
  }

  lemma SkipClosing(trail: nat, more: seq<Token>, end: nat, depth: int)
    requires depth > 0
    ensures AfterNode(Entries([EndNode] + NopsThen(trail, more), end), depth + 1)
            == AfterNode(Entries(more, end + 4 + 4 * trail), depth)
  {
    SkipToken(EndNode, NopsThen(trail, more), end, depth + 1);
    SkipNops(trail, more, end + 4, depth);
  }

  lemma {:induction false} SkipList(ns: seq<Node>, rest: seq<Token>, off: nat, depth: int)
    requires depth > 0
    ensures AfterNode(Entries(ListThen(ns, rest), off), depth) == AfterNode(Entries(rest, off + ListSize(ns)), depth)
    decreases ns
  {
    if ns != [] {
      SkipChild(ns[0], ListThen(ns[1..], rest), off, depth);
      SkipList(ns[1..], rest, off + NodeSize(ns[0]), depth);
    }
  }

  lemma SkipWhole(n: Node, rest: seq<Token>, off: nat)
    ensures AfterNode(Entries(NodeThen(n, rest), off), 0) ==
            Entries(NopsThen(n.trail, rest), off + OpeningSize(n) + ListSize(n.children) + 4)
  {
    SkipToClosing(n, rest, off, 0);
    SkipToken(EndNode, NopsThen(n.trail, rest), off + OpeningSize(n) + ListSize(n.children), 1);
  }

  lemma AfterNodeOf(f: Fdt, ts: seq<Token>, p: nat, after: seq<Entry>)
    requires Encoded(f, ts, p) && AfterNode(Entries(ts, p), 0) == after
    ensures Inside(f, p) && AfterNode(Chain(f, p), 0) == after
  {
    var es := Entries(ts, p);
    assert Inside(f, p) && Chain(f, p) == es by { ChainOfEncoded(f, ts, p); }
  }

  /** `fdt_next_token_after_node` lands right after the END_NODE that matches the node. */
  lemma AfterNodeLands(f: Fdt, n: Node, rest: seq<Token>, p: nat)
    requires PlacedBefore(f, n, p, rest)
    ensures Inside(f, p)
    ensures AfterNode(Chain(f, p), 0) == Entries(NopsThen(n.trail, rest), p + OpeningSize(n) + ListSize(n.children) + 4)
  {
    SkipWhole(n, rest, p);
    AfterNodeOf(f, NodeThen(n, rest), p,
                Entries(NopsThen(n.trail, rest), p + OpeningSize(n) + ListSize(n.children) + 4));
  }

  lemma SubToken(t: Token, rest: seq<Token>, off: nat)
    ensures FirstSubnode(Entries([t] + rest, off)) ==
              if t.Begin? then Some(off)
              else if t.Nop? || t.Property? then FirstSubnode(Entries(rest, off + Size(t))) else None
  {
    assert ([t] + rest)[1..] == rest;
    var es := Entries([t] + rest, off);
    assert es[1..] == Entries(rest, off + Size(t));
  }

  lemma {:induction false} SubNops(n: nat, rest: seq<Token>, off: nat)
    ensures FirstSubnode(Entries(NopsThen(n, rest), off)) == FirstSubnode(Entries(rest, off + 4 * n))
  {
    if n > 0 {
      SubToken(Nop, NopsThen(n - 1, rest), off);
      SubNops(n - 1, rest, off + 4);
    }
  }

  lemma SubPart(t: Token, nops: nat, more: seq<Token>, off: nat)
    requires t.Property?
    ensures FirstSubnode(Entries([t] + NopsThen(nops, more), off))
            == FirstSubnode(Entries(more, off + Size(t) + 4 * nops))
  {
    SubToken(t, NopsThen(nops, more), off);
    SubNops(nops, more, off + Size(t));
  }

  lemma {:induction false} SubProps(ps: seq<Prop>, rest: seq<Token>, off: nat)
    ensures FirstSubnode(Entries(PropsThen(ps, rest), off)) == FirstSubnode(Entries(rest, off + PropsSize(ps)))
  {
    if ps != [] {
      var t := Property(ps[0].nameOff, ps[0].val);
      SubPart(t, ps[0].nops, PropsThen(ps[1..], rest), off);
      SubProps(ps[1..], rest, off + Size(t) + 4 * ps[0].nops);
    }
  }

  /** In front of a list of nodes, the first subnode is its first member, if it has one. */
  lemma SubList(ns: seq<Node>, n: Node, rest: seq<Token>, off: nat)
    ensures FirstSubnode(Entries(ListThen(ns, Closing(n, rest)), off)) == if ns == [] then None else Some(off)
  {
    if ns == [] {
      SubToken(EndNode, NopsThen(n.trail, rest), off);
    } else {
      var c, more := ns[0], ListThen(ns[1..], Closing(n, rest));
      SubToken(Begin(c.name), NopsThen(c.nops, PropsThen(c.props, ListThen(c.children, Closing(c, more)))), off);
    }
  }

  lemma ChainAfterHead(f: Fdt, t: Token, rest: seq<Token>, p: nat)
    requires rest != [] && Encoded(f, [t] + rest, p)
    ensures Inside(f, p) && f.Be32(p) == TagOf(t) && Chain(f, p)[1..] == Entries(rest, p + Size(t))
  {
    assert TokenAt(f, t, p) && NextToken(f, p) == Some(p + Size(t)) && Encoded(f, rest, p + Size(t)) by {
      EncodedAfterToken(f, t, rest, p);
    }
    var q, es := p + Size(t), Entries(rest, p + Size(t));
    assert Inside(f, q) && Chain(f, q) == es by { ChainOfEncoded(f, rest, q); }
    TailOfChain(f, p, q, es);
  }

  lemma TailOfChain(f: Fdt, p: nat, q: nat, es: seq<Entry>)
    requires Inside(f, p) && Inside(f, q) && NextToken(f, p) == Some(q) && Chain(f, q) == es
    ensures Chain(f, p)[1..] == es
  {
    ChainTail(f, p);
  }

  lemma SubOpening(n: Node, rest: seq<Token>, off: nat)
    ensures FirstSubnode(Entries(NopsThen(n.nops, PropsThen(n.props, rest)), off)) ==
            FirstSubnode(Entries(rest, off + 4 * n.nops + PropsSize(n.props)))
  {
    SubNops(n.nops, PropsThen(n.props, rest), off);
    SubProps(n.props, rest, off + 4 * n.nops);
  }

  /** `fdt_node_subnode_begin` finds the first child. */
  lemma FirstSubnodeIsFirstChild(f: Fdt, n: Node, rest: seq<Token>, p: nat)
    requires PlacedBefore(f, n, p, rest)
    ensures IsNode(f, p)
    ensures FirstSubnode(Chain(f, p)[1..]) == if n.children == [] then None else Some(p + OpeningSize(n))
  {
    ListNonempty(n.children, Closing(n, rest));
    SubList(n.children, n, rest, p + OpeningSize(n));
    SubnodeInside(f, n, ListThen(n.children, Closing(n, rest)), p,
                  if n.children == [] then None else Some(p + OpeningSize(n)));
  }

  /** The first subnode behind a node's name, NOPs and properties is the first behind those. */
  lemma SubnodeInside(f: Fdt, n: Node, kids: seq<Token>, p: nat, r: Option<nat>)
    requires kids != [] && Encoded(f, [Begin(n.name)] + NopsThen(n.nops, PropsThen(n.props, kids)), p)
    requires FirstSubnode(Entries(kids, p + OpeningSize(n))) == r
    ensures IsNode(f, p) && FirstSubnode(Chain(f, p)[1..]) == r
  {
    var props, at := PropsThen(n.props, kids), p + Size(Begin(n.name));
    assert NopsThen(n.nops, props) != [] by {
      PropsNonempty(n.props, kids);
      NopsNonempty(n.nops, props);
    }
    assert FirstSubnode(Entries(NopsThen(n.nops, props), at)) == r by { SubOpening(n, kids, at); }
    SubnodeAfterHead(f, Begin(n.name), NopsThen(n.nops, props), p, r);
  }

  lemma SubnodeAfterHead(f: Fdt, t: Token, inner: seq<Token>, p: nat, r: Option<nat>)
    requires t.Begin? && inner != [] && Encoded(f, [t] + inner, p) && FirstSubnode(Entries(inner, p + Size(t))) == r
    ensures IsNode(f, p) && FirstSubnode(Chain(f, p)[1..]) == r
  {
    var es := Entries(inner, p + Size(t));
    assert IsNode(f, p) && Chain(f, p)[1..] == es by { ChainAfterHead(f, t, inner, p); }
  }

  lemma SubAfterTrail(trail: nat, siblings: seq<Node>, n: Node, rest: seq<Token>, off: nat)
    ensures FirstSubnode(Entries(NopsThen(trail, ListThen(siblings, Closing(n, rest))), off)) ==
            if siblings == [] then None else Some(off + 4 * trail)
  {
    SubNops(trail, ListThen(siblings, Closing(n, rest)), off);
    SubList(siblings, n, rest, off + 4 * trail);
  }

  /** After a child, the first subnode is its next sibling. */
  lemma SiblingFollows(c: Node, siblings: seq<Node>, n: Node, rest: seq<Token>, p: nat)
    ensures FirstSubnode(AfterNode(Entries(NodeThen(c, ListThen(siblings, Closing(n, rest))), p), 0)) ==
            if siblings == [] then None else Some(p + NodeSize(c))
  {
    SkipWhole(c, ListThen(siblings, Closing(n, rest)), p);
    SubAfterTrail(c.trail, siblings, n, rest, p + OpeningSize(c) + ListSize(c.children) + 4);
  }

  lemma SubnodeAfter(f: Fdt, ts: seq<Token>, p: nat, r: Option<nat>)
    requires Encoded(f, ts, p) && FirstSubnode(AfterNode(Entries(ts, p), 0)) == r
    ensures Inside(f, p) && FirstSubnode(AfterNode(Chain(f, p), 0)) == r
  {
    var es := Entries(ts, p);
    assert Inside(f, p) && Chain(f, p) == es by { ChainOfEncoded(f, ts, p); }
  }

  /** From a child of `n` followed by its siblings, `fdt_node_next_subnode` finds the next of them. */
  lemma NextSubnodeIsSibling(f: Fdt, c: Node, siblings: seq<Node>, n: Node, rest: seq<Token>, p: nat)
    requires Encoded(f, NodeThen(c, ListThen(siblings, Closing(n, rest))), p)
    ensures Inside(f, p)
    ensures FirstSubnode(AfterNode(Chain(f, p), 0)) == if siblings == [] then None else Some(p + NodeSize(c))
  {
    SiblingFollows(c, siblings, n, rest, p);
    SubnodeAfter(f, NodeThen(c, ListThen(siblings, Closing(n, rest))), p,
                 if siblings == [] then None else Some(p + NodeSize(c)));
  }

  lemma {:induction false} SiblingsInOrder(f: Fdt, ns: seq<Node>, n: Node, rest: seq<Token>, off: nat, i: nat)
    requires Encoded(f, ListThen(ns, Closing(n, rest)), off) && i < |ChildPlaces(ns, off)|
    ensures LeadsOn(f, ChildPlaces(ns, off), i)
    decreases |ns|
  {
    if i == 0 {
      FirstLeadsOn(f, ns, n, rest, off);
    } else {
      EncodedRest(f, ns, Closing(n, rest), off);
      SiblingsInOrder(f, ns[1..], n, rest, off + NodeSize(ns[0]), i - 1);
      LeadsOnLater(f, off, ChildPlaces(ns[1..], off + NodeSize(ns[0])), i - 1);
    }
  }

  lemma FirstLeadsOn(f: Fdt, ns: seq<Node>, n: Node, rest: seq<Token>, off: nat)
    requires ns != [] && Encoded(f, ListThen(ns, Closing(n, rest)), off)
    ensures LeadsOn(f, ChildPlaces(ns, off), 0)
  {
    var tail := ChildPlaces(ns[1..], off + NodeSize(ns[0]));
    assert ChildPlaces(ns, off) == [off] + tail;
    NextSubnodeIsSibling(f, ns[0], ns[1..], n, rest, off);
  }

  lemma LeadsOnLater(f: Fdt, off: nat, places: seq<nat>, i: nat)
    requires i < |places| && LeadsOn(f, places, i)
    ensures LeadsOn(f, [off] + places, i + 1)
  {
    var all := [off] + places;
    assert all[i + 1] == places[i] && (i + 1 < |places| ==> all[i + 2] == places[i + 1]);
  }

  /**
    Enumerating subnodes with begin and next gives exactly the direct children, in order:
    each whole subtree is skipped, and nothing follows the last child.
   */
  lemma SubnodesAreChildren(f: Fdt, n: Node, p: nat)
    requires Placed(f, n, p)
    ensures IsNode(f, p)
    ensures var places := ChildPlaces(n.children, p + OpeningSize(n));
            && FirstSubnode(Chain(f, p)[1..]) == (if places == [] then None else Some(places[0]))
            && forall i :: 0 <= i < |places| ==> LeadsOn(f, places, i)
  {
    var rest :| PlacedBefore(f, n, p, rest);
    var places := ChildPlaces(n.children, p + OpeningSize(n));
    FirstSubnodeIsFirstChild(f, n, rest, p);
    assert Encoded(f, ListThen(n.children, Closing(n, rest)), p + OpeningSize(n)) by {
      EncodedAfterOpening(f, n, rest, p);
    }
    forall i | 0 <= i < |places| ensures LeadsOn(f, places, i) {
      SiblingsInOrder(f, n.children, n, rest, p + OpeningSize(n), i);
    }
  }

  /** Those places are where the children stand in the tree. */
  lemma ChildrenAreSites(n: Node, off: nat, path: seq<Site>, i: nat)
    requires i < |n.children|
    ensures var here := Site(off, n, path);
            Site(ChildPlaces(n.children, off + OpeningSize(n))[i], n.children[i], [here] + path) in Sites(n, off, path)
  {
    ListChildrenAreSites(n.children, off + OpeningSize(n), [Site(off, n, path)] + path, i);
  }

  lemma {:induction false} ListChildrenAreSites(ns: seq<Node>, off: nat, path: seq<Site>, i: nat)
    requires i < |ns|
    ensures Site(ChildPlaces(ns, off)[i], ns[i], path) in ListSites(ns, off, path)
    decreases i
  {
    if i > 0 {
      ListChildrenAreSites(ns[1..], off + NodeSize(ns[0]), path, i - 1);
    } else {
      assert Sites(ns[0], off, path)[0] == Site(off, ns[0], path);
    }
  }

  // ----- properties are the node's properties

  /** The first property of that name in a node's list, by where it stands. */
  function LookupIn(f: Fdt, ps: seq<Prop>, off: nat, name: seq<Byte>): Option<nat>
    requires f.Readable()
  {
    if ps == [] then None
    else if NameAt(f, ps[0].nameOff) == Some(name) then Some(off)
    else LookupIn(f, ps[1..], off + Size(Property(ps[0].nameOff, ps[0].val)) + 4 * ps[0].nops, name)
  }

  function Lookup(f: Fdt, s: Site, name: seq<Byte>): Option<nat>
    requires f.Readable()
  {
    LookupIn(f, s.node.props, s.pos + Size(Begin(s.node.name)) + 4 * s.node.nops, name)
  }

  /** Property `i` is the first of that name. */
  ghost predicate FirstNamed(f: Fdt, ps: seq<Prop>, name: seq<Byte>, i: nat)
    requires f.Readable()
  {
    && i < |ps| && NameAt(f, ps[i].nameOff) == Some(name)
    && forall j :: 0 <= j < i ==> NameAt(f, ps[j].nameOff) != Some(name)
  }

  /** The lookup gives the place of the first property of that name, behind all those in front of it. */
  lemma {:induction false} LookupIsFirst(f: Fdt, ps: seq<Prop>, off: nat, name: seq<Byte>)
    requires f.Readable()
    ensures forall i: nat :: FirstNamed(f, ps, name, i) ==> LookupIn(f, ps, off, name) == Some(off + PropsSize(ps[..i]))
    ensures LookupIn(f, ps, off, name) == None ==> forall i :: 0 <= i < |ps| ==> NameAt(f, ps[i].nameOff) != Some(name)
  {
    if ps != [] {
      var next := off + Size(Property(ps[0].nameOff, ps[0].val)) + 4 * ps[0].nops;
      LookupIsFirst(f, ps[1..], next, name);
      forall i: nat | FirstNamed(f, ps, name, i) ensures LookupIn(f, ps, off, name) == Some(off + PropsSize(ps[..i])) {
        if i > 0 {
          assert NameAt(f, ps[0].nameOff) != Some(name);
          assert FirstNamed(f, ps[1..], name, i - 1);
          assert ps[..i][1..] == ps[1..][..i - 1];
        }
      }
    }
  }

  /** Where property `i` stands the properties from it on are encoded. */
  lemma EncodedFromProp(f: Fdt, ps: seq<Prop>, rest: seq<Token>, p: nat, i: nat)
    requires rest != [] && Encoded(f, PropsThen(ps, rest), p) && i <= |ps|
    ensures Encoded(f, PropsThen(ps[i..], rest), p + PropsSize(ps[..i]))
  {
    PropsInParts(ps, rest, i);
    PropsNonempty(ps[i..], rest);
    EncodedAfterProps(f, ps[..i], PropsThen(ps[i..], rest), p);
  }

  lemma {:induction false} PropsInParts(ps: seq<Prop>, rest: seq<Token>, i: nat)
    requires i <= |ps|
    ensures PropsThen(ps, rest) == PropsThen(ps[..i], PropsThen(ps[i..], rest))
    decreases i
  {
    if i == 0 {
      assert ps[0..] == ps;
    } else {
      PropsInParts(ps[1..], rest, i - 1);
      assert ps[..i][1..] == ps[1..][..i - 1] && ps[i..] == ps[1..][i - 1..];
    }
  }

  lemma FrontSize(ps: seq<Prop>, i: nat)
    requires 0 < i <= |ps|
    ensures PropsSize(ps[..i]) ==
            Size(Property(ps[0].nameOff, ps[0].val)) + 4 * ps[0].nops + PropsSize(ps[1..][..i - 1])
  {
    assert ps[..i][1..] == ps[1..][..i - 1];
  }

  lemma {:induction false} SizeUpTo(ps: seq<Prop>, i: nat)
    requires i < |ps|
    ensures PropsSize(ps[..i + 1]) == PropsSize(ps[..i]) + Size(Property(ps[i].nameOff, ps[i].val)) + 4 * ps[i].nops
    decreases i
  {
    FrontSize(ps, i + 1);
    if i > 0 {
      FrontSize(ps, i);
      SizeUpTo(ps[1..], i - 1);
    }
  }

  /** A search that resumes after a property goes on with the properties behind it. */
  lemma SearchResumes(f: Fdt, ps: seq<Prop>, rest: seq<Token>, p: nat, i: nat, name: seq<Byte>)
    requires rest != [] && (rest[0].Begin? || rest[0].EndNode?) && Encoded(f, PropsThen(ps, rest), p) && i < |ps|
    ensures Inside(f, p + PropsSize(ps[..i]))
    ensures FindProp(f, NextToken(f, p + PropsSize(ps[..i])), name) ==
            LookupIn(f, ps[i + 1..], p + PropsSize(ps[..i + 1]), name)
  {
    var t, at := Property(ps[i].nameOff, ps[i].val), p + PropsSize(ps[..i]);
    assert Encoded(f, [t] + NopsThen(ps[i].nops, PropsThen(ps[i + 1..], rest)), at) by {
      EncodedFromProp(f, ps, rest, p, i);
      assert ps[i..][0] == ps[i] && ps[i..][1..] == ps[i + 1..];
    }
    assert at + Size(t) + 4 * ps[i].nops == p + PropsSize(ps[..i + 1]) by { SizeUpTo(ps, i); }
    ResumesBehind(f, t, ps[i].nops, ps[i + 1..], rest, at, name);
  }

  lemma ResumesBehind(f: Fdt, t: Token, nops: nat, ps: seq<Prop>, rest: seq<Token>, p: nat, name: seq<Byte>)
    requires rest != [] && (rest[0].Begin? || rest[0].EndNode?) && t.Property?
    requires Encoded(f, [t] + NopsThen(nops, PropsThen(ps, rest)), p)
    ensures Inside(f, p) && FindProp(f, NextToken(f, p), name) == LookupIn(f, ps, p + Size(t) + 4 * nops, name)
  {
    PropsNonempty(ps, rest);
    ResumesAfter(f, t, nops, PropsThen(ps, rest), p, name);
    FindIsLookup(f, ps, rest, p + Size(t) + 4 * nops, name);
  }

  lemma ResumesAfter(f: Fdt, t: Token, nops: nat, more: seq<Token>, p: nat, name: seq<Byte>)
    requires t.Property? && more != [] && Encoded(f, [t] + NopsThen(nops, more), p)
    ensures var q := p + Size(t) + 4 * nops;
            && Inside(f, p) && Inside(f, q) && Encoded(f, more, q)
            && FindProp(f, NextToken(f, p), name) == FindProp(f, Some(q), name)
  {
    NopsNonempty(nops, more);
    EncodedAfterToken(f, t, NopsThen(nops, more), p);
    FindPastNops(f, nops, more, p + Size(t), name);
    EncodedAfterNops(f, nops, more, p + Size(t));
  }

  lemma FindPastNop(f: Fdt, more: seq<Token>, p: nat, name: seq<Byte>)
    requires more != [] && Encoded(f, [Nop] + more, p)
    ensures Inside(f, p) && Inside(f, p + 4) && Encoded(f, more, p + 4)
    ensures FindProp(f, Some(p), name) == FindProp(f, Some(p + 4), name)
  {
    EncodedAfterToken(f, Nop, more, p);
  }

  lemma {:induction false} FindPastNops(f: Fdt, n: nat, rest: seq<Token>, p: nat, name: seq<Byte>)
    requires rest != [] && Encoded(f, NopsThen(n, rest), p)
    ensures Inside(f, p) && Inside(f, p + 4 * n) && FindProp(f, Some(p), name) == FindProp(f, Some(p + 4 * n), name)
    decreases n
  {
    if n > 0 {
      NopsNonempty(n - 1, rest);
      FindPastNop(f, NopsThen(n - 1, rest), p, name);
      FindPastNops(f, n - 1, rest, p + 4, name);
    }
  }

  /** Searching the tokens after a node's name is searching the node's properties. */
  lemma {:induction false} FindIsLookup(f: Fdt, ps: seq<Prop>, rest: seq<Token>, p: nat, name: seq<Byte>)
    requires rest != [] && (rest[0].Begin? || rest[0].EndNode?) && Encoded(f, PropsThen(ps, rest), p)
    ensures Inside(f, p) && FindProp(f, Some(p), name) == LookupIn(f, ps, p, name)
    decreases |ps|
  {
    if ps != [] {
      var t, more := Property(ps[0].nameOff, ps[0].val), PropsThen(ps[1..], rest);
      var q := p + Size(t) + 4 * ps[0].nops;
      assert Inside(f, p) && Inside(f, q) && Encoded(f, more, q)
             && FindProp(f, Some(p), name) ==
                  if NameAt(f, t.nameOff) == Some(name) then Some(p) else FindProp(f, Some(q), name) by {
        PropsNonempty(ps[1..], rest);
        FindPastPart(f, t, ps[0].nops, more, p, name);
      }
      FindIsLookup(f, ps[1..], rest, q, name);
      LookupStep(f, ps, p, name);
    }
  }

  lemma LookupStep(f: Fdt, ps: seq<Prop>, p: nat, name: seq<Byte>)
    requires f.Readable() && ps != []
    ensures var q := p + Size(Property(ps[0].nameOff, ps[0].val)) + 4 * ps[0].nops;
            LookupIn(f, ps, p, name) ==
              if NameAt(f, ps[0].nameOff) == Some(name) then Some(p) else LookupIn(f, ps[1..], q, name)
  {
  }

  /** A property and the NOPs behind it: the one looked for, or to be passed over. */
  lemma FindPastPart(f: Fdt, t: Token, nops: nat, more: seq<Token>, p: nat, name: seq<Byte>)
    requires t.Property? && more != [] && Encoded(f, [t] + NopsThen(nops, more), p)
    ensures var q := p + Size(t) + 4 * nops;
            && Inside(f, p) && Inside(f, q) && Encoded(f, more, q)
            && FindProp(f, Some(p), name) ==
                 if NameAt(f, t.nameOff) == Some(name) then Some(p) else FindProp(f, Some(q), name)
  {
    NopsNonempty(nops, more);
    EncodedAfterToken(f, t, NopsThen(nops, more), p);
    FindPastNops(f, nops, more, p + Size(t), name);
    EncodedAfterNops(f, nops, more, p + Size(t));
  }

  lemma ListHead(ns: seq<Node>, n: Node, rest: seq<Token>)
    ensures var ts := ListThen(ns, Closing(n, rest)); ts != [] && (ts[0].Begin? || ts[0].EndNode?)
  {
  }

  /** `fdt_get_prop_by_name` finds the first property of that name in the tree node. */
  lemma PropIsLookup(f: Fdt, s: Site, name: seq<Byte>)
    requires Placed(f, s.node, s.pos)
    ensures Inside(f, s.pos) && PropOf(f, s.pos, name) == Lookup(f, s, name)
  {
    var rest :| PlacedBefore(f, s.node, s.pos, rest);
    var kids := ListThen(s.node.children, Closing(s.node, rest));
    ListHead(s.node.children, s.node, rest);
    FindAfterName(f, s.node, kids, s.pos, name);
  }

  lemma FindAfterName(f: Fdt, n: Node, kids: seq<Token>, p: nat, name: seq<Byte>)
    requires kids != [] && (kids[0].Begin? || kids[0].EndNode?)
    requires Encoded(f, [Begin(n.name)] + NopsThen(n.nops, PropsThen(n.props, kids)), p)
    ensures Inside(f, p) && PropOf(f, p, name) == LookupIn(f, n.props, p + Size(Begin(n.name)) + 4 * n.nops, name)
  {
    var q := p + Size(Begin(n.name)) + 4 * n.nops;
    assert Inside(f, p) && Inside(f, q) && Encoded(f, PropsThen(n.props, kids), q)
           && PropOf(f, p, name) == FindProp(f, Some(q), name) by {
      PropsNonempty(n.props, kids);
      FindPastName(f, Begin(n.name), n.nops, PropsThen(n.props, kids), p, name);
    }
    FindIsLookup(f, n.props, kids, q, name);
  }

  /** The name of a node and the NOPs behind it are passed over. */
  lemma FindPastName(f: Fdt, t: Token, nops: nat, more: seq<Token>, p: nat, name: seq<Byte>)
    requires t.Begin? && more != [] && Encoded(f, [t] + NopsThen(nops, more), p)
    ensures var q := p + Size(t) + 4 * nops;
            && Inside(f, p) && Inside(f, q) && Encoded(f, more, q)
            && PropOf(f, p, name) == FindProp(f, Some(q), name)
  {
    NopsNonempty(nops, more);
    EncodedAfterToken(f, t, NopsThen(nops, more), p);
    FindPastNops(f, nops, more, p + Size(t), name);
    EncodedAfterNops(f, nops, more, p + Size(t));
  }

  // ----- ancestors and inherited properties

  lemma VisitsAscend(f: Fdt, j: nat, k: nat)
    requires f.Readable() && j < k < |Visits(f)|
    ensures Visits(f)[j].pos < Visits(f)[k].pos
  {
    VisitAt(f, j);
    WalkAscends(f, Visits(f)[j].pos, Visits(f)[j..], k - j);
  }

  /** `fdt_node_get_parents` reports the true ancestors of a node of the tree, closest first. */
  lemma ParentsAreAncestors(f: Fdt, lead: nat, root: Node, s: Site)
    requires InTree(f, lead, root, s)
    ensures f.Readable() && NeverUnderflows(Visits(f)) && PathTo(Visits(f), s.pos) == Positions(s.path)
    ensures forall len: nat :: InRange(Visits(f), s.pos, len)
  {
    var ss := Sites(root, f.structStart + 4 * lead, []);
    WalkIsPreorder(f, lead, root);
    TreesNeverUnderflow(f, lead, root);
    var i :| 0 <= i < |ss| && ss[i] == s;
    VisitsOfAt(ss, i);
    forall j | 0 <= j < i ensures Visits(f)[j].pos != s.pos {
      VisitsAscend(f, j, i);
    }
    SearchStopsAt(Visits(f), s.pos, i);
    forall len: nat ensures InRange(Visits(f), s.pos, len) { NeverUnderflowsInRange(Visits(f), s.pos, len); }
  }

  /** The definition of the nearest of these nodes that has one. */
  function NearestDefinition(f: Fdt, ss: seq<Site>, name: seq<Byte>): Option<nat>
    requires f.Readable()
  {
    if ss == [] then None
    else if Lookup(f, ss[0], name).Some? then Lookup(f, ss[0], name)
    else NearestDefinition(f, ss[1..], name)
  }

  /** Nothing is found if no node has the property, else that of the first one that has. */
  lemma {:induction false} NearestExactly(f: Fdt, ss: seq<Site>, name: seq<Byte>)
    requires f.Readable()
    ensures NearestDefinition(f, ss, name) == None <==> forall i :: 0 <= i < |ss| ==> Lookup(f, ss[i], name) == None
    ensures forall i :: 0 <= i < |ss| && Lookup(f, ss[i], name).Some?
                        && (forall j :: 0 <= j < i ==> Lookup(f, ss[j], name) == None) ==>
                          NearestDefinition(f, ss, name) == Lookup(f, ss[i], name)
  {
    if ss != [] {
      NearestExactly(f, ss[1..], name);
      assert forall i :: 1 <= i < |ss| ==> ss[i] == ss[1..][i - 1];
      assert forall i :: 0 <= i < |ss| - 1 ==> ss[1..][i] == ss[i + 1];
      forall i | 0 <= i < |ss| && Lookup(f, ss[i], name).Some?
                 && (forall j :: 0 <= j < i ==> Lookup(f, ss[j], name) == None)
        ensures NearestDefinition(f, ss, name) == Lookup(f, ss[i], name)
      {
        if i > 0 { assert Lookup(f, ss[0], name) == None && Lookup(f, ss[1..][i - 1], name).Some?; }
      }
    }
  }

  lemma {:induction false} NearestIsDefinition(f: Fdt, ss: seq<Site>, name: seq<Byte>)
    requires f.Readable() && PathPlaced(f, ss) && AllNodes(f, Positions(ss))
    ensures Nearest(f, Positions(ss), name) == NearestDefinition(f, ss, name)
  {
    if ss != [] {
      PropIsLookup(f, ss[0], name);
      assert Positions(ss)[1..] == Positions(ss[1..]);
      NearestIsDefinition(f, ss[1..], name);
    }
  }

  lemma PlacedIsNode(f: Fdt, n: Node, p: nat)
    requires Placed(f, n, p)
    ensures IsNode(f, p)
  {
    var rest :| PlacedBefore(f, n, p, rest);
    EncodedAfterName(f, n, rest, p);
  }

  /**
    `fdt_node_get_inherited_prop` on a node of the tree: the property of the node itself or
    of the closest ancestor that defines it, and nothing only if none of them does.
   */
  lemma InheritedIsNearest(f: Fdt, lead: nat, root: Node, s: Site, name: seq<Byte>)
    requires InTree(f, lead, root, s)
    ensures f.Readable() && AllNodes(f, [s.pos] + PathTo(Visits(f), s.pos))
    ensures Nearest(f, [s.pos] + PathTo(Visits(f), s.pos), name) == NearestDefinition(f, [s] + s.path, name)
  {
    ParentsAreAncestors(f, lead, root, s);
    InTreePlaced(f, lead, root, s);
    PathPlacedGrows(f, s);
    PathGrows(s, s.path);
    PathToNodes(f, s.pos);
    PlacedIsNode(f, s.node, s.pos);
    NearestIsDefinition(f, [s] + s.path, name);
  }

  // ----- from bytes

  lemma {:induction false} NopsTerminated(n: nat, rest: seq<Token>)
    requires Terminated(rest)
    ensures Terminated(NopsThen(n, rest))
  {
    if n > 0 {
      NopsTerminated(n - 1, rest);
      assert NopsThen(n, rest)[1..] == NopsThen(n - 1, rest);
    }
  }

  lemma {:induction false} PropsTerminated(ps: seq<Prop>, rest: seq<Token>)
    requires Terminated(rest)
    ensures Terminated(PropsThen(ps, rest))
  {
    if ps != [] {
      PropsTerminated(ps[1..], rest);
      NopsTerminated(ps[0].nops, PropsThen(ps[1..], rest));
      assert PropsThen(ps, rest)[1..] == NopsThen(ps[0].nops, PropsThen(ps[1..], rest));
    }
  }

  lemma {:induction false} NodeTerminated(n: Node, rest: seq<Token>)
    requires Terminated(rest)
    ensures Terminated(NodeThen(n, rest))
    decreases n, 1
  {
    NopsTerminated(n.trail, rest);
    assert Closing(n, rest)[1..] == NopsThen(n.trail, rest);
    ListTerminated(n.children, Closing(n, rest));
    PropsTerminated(n.props, ListThen(n.children, Closing(n, rest)));
    NopsTerminated(n.nops, PropsThen(n.props, ListThen(n.children, Closing(n, rest))));
    assert NodeThen(n, rest)[1..] == NopsThen(n.nops, PropsThen(n.props, ListThen(n.children, Closing(n, rest))));
  }

  lemma {:induction false} ListTerminated(ns: seq<Node>, rest: seq<Token>)
    requires Terminated(rest)
    ensures Terminated(ListThen(ns, rest))
    decreases ns
  {
    if ns != [] {
      ListTerminated(ns[1..], rest);
      NodeTerminated(ns[0], ListThen(ns[1..], rest));
    }
  }

  /** The structure block the header points to holds the bytes of this tree. */
  ghost predicate Flattened(f: Fdt, little: bool, lead: nat, root: Node) {
    f.ReadBy(little) && |f.words| >= 40 && HeaderRead(f) && Stores(f, BlockTokens(lead, root), f.structStart)
  }

  /**
    On a host of either endianness, a blob whose structure block is a serialised tree reads
    back as that tree, so that everything said above of encoded trees holds of it.
   */
  lemma FlattenedIsEncoded(f: Fdt, little: bool, lead: nat, root: Node)
    requires Flattened(f, little, lead, root)
    ensures Encoded(f, BlockTokens(lead, root), f.structStart)
    ensures f.Readable() && Visits(f) == VisitsOf(Sites(root, f.structStart + 4 * lead, []))
  {
    assert Terminated([End]);
    NodeTerminated(root, [End]);
    NopsTerminated(lead, NodeThen(root, [End]));
    SerialReadsBack(f, little, BlockTokens(lead, root), f.structStart);
    WalkIsPreorder(f, lead, root);
  }
}
