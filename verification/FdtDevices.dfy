/**
  Searches on a flattened tree: every property value can be read safely, and matching a node
  is matching the property values of the tree node.
 */
module FdtDevices {
  import opened Endian
  import opened FdtBlob
  import opened FdtTree
  import opened FdtWalk
  import opened FdtSites
  import opened FdtProps
  import opened FdtMeaning
  import opened FdtSearch

  /** The value of the first property of that name in a node's list. */
  function ValueIn(f: Fdt, ps: seq<Prop>, name: seq<Byte>): Option<seq<Byte>>
    requires f.Readable()
  {
    if ps == [] then None
    else if NameAt(f, ps[0].nameOff) == Some(name) then Some(ps[0].val)
    else ValueIn(f, ps[1..], name)
  }

  /** A property found by name carries the value it has in the tree, wholly in memory. */
  ghost predicate Carries(f: Fdt, q: Option<nat>, v: Option<seq<Byte>>) {
    (q.Some? <==> v.Some?) && (q.Some? ==> ValueInMemory(f, q.value) && Value(f, q.value) == v.value)
  }

  lemma {:induction false} LookupCarries(f: Fdt, ps: seq<Prop>, rest: seq<Token>, p: nat, name: seq<Byte>)
    requires f.Readable() && rest != [] && Encoded(f, PropsThen(ps, rest), p)
    ensures Carries(f, LookupIn(f, ps, p, name), ValueIn(f, ps, name))
    decreases |ps|
  {
    if ps != [] {
      var t, more := Property(ps[0].nameOff, ps[0].val), PropsThen(ps[1..], rest);
      var q := p + Size(t) + 4 * ps[0].nops;
      assert ValueInMemory(f, p) && Value(f, p) == ps[0].val && Encoded(f, more, q) by {
        PropsNonempty(ps[1..], rest);
        EncodedAfterPart(f, t, ps[0].nops, more, p);
      }
      if NameAt(f, ps[0].nameOff) != Some(name) {
        LookupCarries(f, ps[1..], rest, q, name);
      }
    }
  }

  lemma LookupInNode(f: Fdt, s: Site, rest: seq<Token>, name: seq<Byte>)
    requires PlacedBefore(f, s.node, s.pos, rest)
    ensures IsNode(f, s.pos) && Carries(f, Lookup(f, s, name), ValueIn(f, s.node.props, name))
  {
    var kids := ListThen(s.node.children, Closing(s.node, rest));
    EncodedAfterName(f, s.node, rest, s.pos);
    LookupCarries(f, s.node.props, kids, s.pos + Size(Begin(s.node.name)) + 4 * s.node.nops, name);
  }

  /** `fdt_get_prop_by_name` and the value accessors give the value the tree node has. */
  lemma PropCarries(f: Fdt, n: Node, p: nat, name: seq<Byte>)
    requires Placed(f, n, p)
    ensures IsNode(f, p) && Carries(f, PropOf(f, p, name), ValueIn(f, n.props, name))
  {
    var rest :| PlacedBefore(f, n, p, rest);
    var s := Site(p, n, []);
    assert IsNode(f, p) && Carries(f, Lookup(f, s, name), ValueIn(f, n.props, name)) by {
      LookupInNode(f, s, rest, name);
    }
    assert PropOf(f, p, name) == Lookup(f, s, name) by { PropIsLookup(f, s, name); }
  }

  /** On a flattened tree the searches never read a value outside memory. */
  lemma TreesAreSound(f: Fdt, lead: nat, root: Node, name: seq<Byte>)
    requires Encoded(f, BlockTokens(lead, root), f.structStart)
    ensures f.Readable() && AllSound(f, Visits(f), name)
  {
    var ss := Sites(root, f.structStart + 4 * lead, []);
    WalkIsPreorder(f, lead, root);
    forall i | 0 <= i < |Visits(f)| ensures Sound(f, Visits(f)[i].pos, name) {
      VisitsOfAt(ss, i);
      InTreePlaced(f, lead, root, ss[i]);
      PropCarries(f, ss[i].node, ss[i].pos, name);
    }
    SoundEverywhere(f, Visits(f), name);
  }

  /**
    A node whose "compatible" value is a list of NUL-terminated strings is compatible with
    exactly the members of that list; a node without the property with nothing.
   */
  lemma CompatibleExactly(f: Fdt, n: Node, p: nat, ss: seq<seq<Byte>>, compat: seq<Byte>)
    requires Placed(f, n, p) && NulFree(ss)
    requires match ValueIn(f, n.props, COMPATIBLE) case None => ss == [] case Some(v) => v == Joined(ss)
    ensures Sound(f, p, COMPATIBLE)
    ensures Compatible(f, p, compat) == if compat in ss then Yes else No
  {
    PropCarries(f, n, p, COMPATIBLE);
    ValueDecides(f, p, ss, compat);
  }

  lemma ValueDecides(f: Fdt, p: nat, ss: seq<seq<Byte>>, compat: seq<Byte>)
    requires Sound(f, p, COMPATIBLE) && NulFree(ss)
    requires match PropOf(f, p, COMPATIBLE) case None => ss == [] case Some(q) => Value(f, q) == Joined(ss)
    ensures Compatible(f, p, compat) == if compat in ss then Yes else No
  {
    var q := PropOf(f, p, COMPATIBLE);
    if q.Some? { MemberDecides(f.mem, q.value + 12, f.Be32(q.value + 4), ss, compat); }
  }

  lemma MemberDecides(mem: seq<Byte>, at: nat, len: nat, ss: seq<seq<Byte>>, compat: seq<Byte>)
    requires mem != [] && mem[|mem| - 1] == 0 && NulFree(ss) && at + len <= |mem| && mem[at..at + len] == Joined(ss)
    ensures Compare(mem, at, len, compat) == if compat in ss then Yes else No
  {
    assert len == |Joined(ss)|;
    CompareIsMembership(mem, at, ss, compat);
  }

  /** A node is of a device type exactly if its "device_type" is that string, NUL or not. */
  lemma OfTypeExactly(f: Fdt, n: Node, p: nat, kind: seq<Byte>)
    requires Placed(f, n, p)
    ensures Sound(f, p, DEVICE_TYPE)
    ensures OfType(f, p, kind) <==> ValueIn(f, n.props, DEVICE_TYPE) in {Some(kind), Some(kind + [0])}
  {
    PropCarries(f, n, p, DEVICE_TYPE);
  }

  // ----- searches over the whole tree

  ghost predicate AllPlaced(f: Fdt, ss: seq<Site>) {
    ss == [] || (Placed(f, ss[0].node, ss[0].pos) && AllPlaced(f, ss[1..]))
  }

  lemma {:induction false} PlacedEverywhere(f: Fdt, ss: seq<Site>)
    requires forall i :: 0 <= i < |ss| ==> Placed(f, ss[i].node, ss[i].pos)
    ensures AllPlaced(f, ss)
  {
    if ss != [] {
      assert forall i :: 0 <= i < |ss[1..]| ==> ss[1..][i] == ss[i + 1];
      PlacedEverywhere(f, ss[1..]);
    }
  }

  lemma TreePlaced(f: Fdt, lead: nat, root: Node)
    requires Encoded(f, BlockTokens(lead, root), f.structStart)
    ensures AllPlaced(f, Sites(root, f.structStart + 4 * lead, []))
  {
    var ss := Sites(root, f.structStart + 4 * lead, []);
    forall i | 0 <= i < |ss| ensures Placed(f, ss[i].node, ss[i].pos) {
      InTreePlaced(f, lead, root, ss[i]);
    }
    PlacedEverywhere(f, ss);
  }

  /** The nodes whose "device_type" is that string, with or without its NUL. */
  function TypedSites(f: Fdt, ss: seq<Site>, kind: seq<Byte>): seq<nat>
    requires f.Readable()
  {
    if ss == [] then []
    else (if ValueIn(f, ss[0].node.props, DEVICE_TYPE) in {Some(kind), Some(kind + [0])} then [ss[0].pos] else [])
         + TypedSites(f, ss[1..], kind)
  }

  lemma {:induction false} TypedIsFilter(f: Fdt, ss: seq<Site>, kind: seq<Byte>)
    requires f.Readable() && AllPlaced(f, ss)
    ensures AllSound(f, VisitsOf(ss), DEVICE_TYPE) && Typed(f, VisitsOf(ss), kind) == TypedSites(f, ss, kind)
  {
    if ss != [] {
      TypedIsFilter(f, ss[1..], kind);
      OfTypeExactly(f, ss[0].node, ss[0].pos, kind);
      assert VisitsOf(ss)[1..] == VisitsOf(ss[1..]);
    }
  }

  predicate IsType(f: Fdt, s: Site, kind: seq<Byte>)
    requires f.Readable()
  {
    var v := ValueIn(f, s.node.props, DEVICE_TYPE); v == Some(kind) || v == Some(kind + [0])
  }

  /** A site of that type stands at `p`. */
  ghost predicate TypeAt(f: Fdt, ss: seq<Site>, kind: seq<Byte>, p: nat)
    requires f.Readable()
  {
    exists s :: s in ss && s.pos == p && IsType(f, s, kind)
  }

  /** Exactly the sites of that type are among them. */
  lemma {:induction false} TypedSitesAre(f: Fdt, ss: seq<Site>, kind: seq<Byte>)
    requires f.Readable()
    ensures forall p :: p in TypedSites(f, ss, kind) <==> TypeAt(f, ss, kind, p)
  {
    if ss != [] {
      TypedSitesAre(f, ss[1..], kind);
      assert ss == [ss[0]] + ss[1..];
    }
  }

  ghost predicate Increasing(ps: seq<nat>) { forall i, j :: 0 <= i < j < |ps| ==> ps[i] < ps[j] }

  lemma IncreasingFront(p: nat, ps: seq<nat>)
    requires Increasing(ps) && forall q :: q in ps ==> p < q
    ensures Increasing([p] + ps)
  {
    var all := [p] + ps;
    forall i, j | 0 <= i < j < |all| ensures all[i] < all[j] {
      assert all[j] in ps;
    }
  }

  lemma {:induction false} TypedAreVisits(f: Fdt, vs: seq<Visit>, kind: seq<Byte>)
    requires AllSound(f, vs, DEVICE_TYPE)
    ensures forall p :: p in Typed(f, vs, kind) ==> exists i :: 0 <= i < |vs| && vs[i].pos == p
  {
    if vs != [] {
      TypedAreVisits(f, vs[1..], kind);
      forall p | p in Typed(f, vs, kind) ensures exists i :: 0 <= i < |vs| && vs[i].pos == p {
        if p in Typed(f, vs[1..], kind) {
          var i :| 0 <= i < |vs[1..]| && vs[1..][i].pos == p;
          assert vs[i + 1].pos == p;
        } else {
          assert vs[0].pos == p;
        }
      }
    }
  }

  /** Positions of a search are in the order of the walk. */
  lemma {:induction false} TypedIncreases(f: Fdt, vs: seq<Visit>, kind: seq<Byte>)
    requires AllSound(f, vs, DEVICE_TYPE) && forall i, j :: 0 <= i < j < |vs| ==> vs[i].pos < vs[j].pos
    ensures Increasing(Typed(f, vs, kind))
  {
    if vs != [] {
      var rest := Typed(f, vs[1..], kind);
      TypedIncreases(f, vs[1..], kind);
      TypedAreVisits(f, vs[1..], kind);
      forall p | p in rest ensures vs[0].pos < p {
        var i :| 0 <= i < |vs[1..]| && vs[1..][i].pos == p;
        assert vs[1..][i] == vs[i + 1];
      }
      IncreasingFront(vs[0].pos, rest);
      assert Typed(f, vs, kind) == [vs[0].pos] + rest || Typed(f, vs, kind) == rest;
    }
  }

  /** On a flattened tree, searching by device type finds the nodes of that type, in pre-order. */
  lemma TypedInTree(f: Fdt, lead: nat, root: Node, kind: seq<Byte>)
    requires Encoded(f, BlockTokens(lead, root), f.structStart)
    ensures f.Readable() && AllSound(f, Visits(f), DEVICE_TYPE)
    ensures Typed(f, Visits(f), kind) == TypedSites(f, Sites(root, f.structStart + 4 * lead, []), kind)
    ensures forall p :: p in Typed(f, Visits(f), kind) <==>
                          TypeAt(f, Sites(root, f.structStart + 4 * lead, []), kind, p)
    ensures Increasing(Typed(f, Visits(f), kind))
  {
    WalkIsPreorder(f, lead, root);
    TreePlaced(f, lead, root);
    TypedIsFilter(f, Sites(root, f.structStart + 4 * lead, []), kind);
    TypedSitesAre(f, Sites(root, f.structStart + 4 * lead, []), kind);
    forall i, j | 0 <= i < j < |Visits(f)| ensures Visits(f)[i].pos < Visits(f)[j].pos { VisitsAscend(f, i, j); }
    TypedIncreases(f, Visits(f), kind);
  }

  function FirstZero(v: seq<Byte>): (n: nat)
    ensures n <= |v| && 0 !in v[..n] && (n < |v| ==> v[n] == 0)
  {
    if v == [] || v[0] == 0 then 0 else 1 + FirstZero(v[1..])
  }

  /** The strings of a list in which each is followed by a NUL. */
  function Strings(v: seq<Byte>): seq<seq<Byte>> {
    if v == [] then []
    else
      var n := FirstZero(v);
      [v[..n]] + if n < |v| then Strings(v[n + 1..]) else []
  }

  predicate Ended(v: seq<Byte>) { v == [] || v[|v| - 1] == 0 }

  lemma EndedHasZero(v: seq<Byte>)
    requires Ended(v) && v != []
    ensures FirstZero(v) < |v|
  {
    assert v[..|v|] == v && v[|v| - 1] in v;
  }

  lemma JoinOne(s: seq<Byte>, ss: seq<seq<Byte>>, v: seq<Byte>)
    requires 0 !in s && NulFree(ss) && Joined(ss) == v
    ensures Joined([s] + ss) == s + [0] + v && NulFree([s] + ss)
  {
    assert ([s] + ss)[1..] == ss;
  }

  lemma {:induction false} StringsJoin(v: seq<Byte>)
    requires Ended(v)
    ensures Joined(Strings(v)) == v && NulFree(Strings(v))
    decreases |v|
  {
    if v != [] {
      var n := FirstZero(v);
      assert n < |v| by { EndedHasZero(v); }
      var rest := v[n + 1..];
      assert v == v[..n] + [0] + rest && Strings(v) == [v[..n]] + Strings(rest);
      assert Ended(rest);
      StringsJoin(rest);
      JoinOne(v[..n], Strings(rest), rest);
    }
  }

  function CompatibleStrings(f: Fdt, n: Node): seq<seq<Byte>>
    requires f.Readable()
  {
    match ValueIn(f, n.props, COMPATIBLE) case None => [] case Some(v) => Strings(v)
  }

  predicate ListEnded(f: Fdt, n: Node)
    requires f.Readable()
  {
    match ValueIn(f, n.props, COMPATIBLE) case None => true case Some(v) => Ended(v)
  }

  /** The nodes with that string in their "compatible" list. */
  function CompatibleSites(f: Fdt, ss: seq<Site>, compat: seq<Byte>): seq<nat>
    requires f.Readable()
  {
    if ss == [] then []
    else (if compat in CompatibleStrings(f, ss[0].node) then [ss[0].pos] else []) + CompatibleSites(f, ss[1..], compat)
  }

  predicate AllEnded(f: Fdt, ss: seq<Site>)
    requires f.Readable()
  {
    ss == [] || (ListEnded(f, ss[0].node) && AllEnded(f, ss[1..]))
  }

  lemma SiteDecides(f: Fdt, s: Site, compat: seq<Byte>)
    requires f.Readable() && Placed(f, s.node, s.pos) && ListEnded(f, s.node)
    ensures Sound(f, s.pos, COMPATIBLE)
    ensures Compatible(f, s.pos, compat) == if compat in CompatibleStrings(f, s.node) then Yes else No
  {
    var v := ValueIn(f, s.node.props, COMPATIBLE);
    if v.Some? { StringsJoin(v.value); }
    CompatibleExactly(f, s.node, s.pos, CompatibleStrings(f, s.node), compat);
  }

  lemma {:induction false} CompatibleIsFilter(f: Fdt, ss: seq<Site>, compat: seq<Byte>)
    requires f.Readable() && AllPlaced(f, ss) && AllEnded(f, ss)
    ensures AllSound(f, VisitsOf(ss), COMPATIBLE) && NoOverrun(f, VisitsOf(ss), compat)
    ensures CompatibleNodes(f, VisitsOf(ss), compat) == CompatibleSites(f, ss, compat)
  {
    if ss != [] {
      CompatibleIsFilter(f, ss[1..], compat);
      SiteDecides(f, ss[0], compat);
      assert VisitsOf(ss)[1..] == VisitsOf(ss[1..]);
    }
  }

  /** Exactly the sites with that string in their list are among them. */
  lemma {:induction false} CompatibleSitesAre(f: Fdt, ss: seq<Site>, compat: seq<Byte>)
    requires f.Readable()
    ensures forall p :: p in CompatibleSites(f, ss, compat) <==>
                          exists s :: s in ss && s.pos == p && compat in CompatibleStrings(f, s.node)
  {
    if ss != [] {
      CompatibleSitesAre(f, ss[1..], compat);
      assert ss == [ss[0]] + ss[1..];
    }
  }

  /**
    On a flattened tree whose "compatible" lists end in a NUL, no comparison overruns, and
    searching by compatible string finds the nodes with that string in their list, in pre-order.
   */
  lemma CompatibleInTree(f: Fdt, lead: nat, root: Node, compat: seq<Byte>)
    requires Encoded(f, BlockTokens(lead, root), f.structStart) && f.Readable()
    requires AllEnded(f, Sites(root, f.structStart + 4 * lead, []))
    ensures AllSound(f, Visits(f), COMPATIBLE) && NoOverrun(f, Visits(f), compat)
    ensures var all := CompatibleSites(f, Sites(root, f.structStart + 4 * lead, []), compat);
            && CompatibleNodes(f, Visits(f), compat) == all
            && SearchCompatible(f, Visits(f), compat) == (if all == [] then NoMore else At(all[0]))
            && forall p :: p in all <==> exists s :: s in Sites(root, f.structStart + 4 * lead, []) && s.pos == p
                                                    && compat in CompatibleStrings(f, s.node)
  {
    CompatibleSitesAre(f, Sites(root, f.structStart + 4 * lead, []), compat);
    WalkIsPreorder(f, lead, root);
    TreePlaced(f, lead, root);
    CompatibleIsFilter(f, Sites(root, f.structStart + 4 * lead, []), compat);
    SearchFindsFirst(f, Visits(f), compat);
  }

  // ----- phandles in a tree

  /** A value of one cell, and that cell. */
  predicate CellIs(v: Option<seq<Byte>>, x: nat) {
    v.Some? && 4 <= |v.value| < 8 && Big32(v.value[0], v.value[1], v.value[2], v.value[3]) == x
  }

  predicate NoCell(v: Option<seq<Byte>>) { v.Some? && !(4 <= |v.value| < 8) }

  function PhandleOf(f: Fdt, n: Node): Option<seq<Byte>>
    requires f.Readable()
  {
    ValueIn(f, n.props, PHANDLE)
  }

  /** A node of the tree has the phandle its "phandle" property says, and is malformed if that is not one cell. */
  lemma PhandleOfNode(f: Fdt, little: bool, n: Node, p: nat, phandle: nat)
    requires f.ReadBy(little) && Placed(f, n, p)
    ensures f.Readable() && CellSound(f, p)
    ensures HasPhandle(f, p, phandle) <==> CellIs(PhandleOf(f, n), phandle)
    ensures Malformed(f, p) <==> NoCell(PhandleOf(f, n))
  {
    assert IsNode(f, p) && Carries(f, PropOf(f, p, PHANDLE), PhandleOf(f, n)) by { PropCarries(f, n, p, PHANDLE); }
    var q := PropOf(f, p, PHANDLE);
    if q.Some? { CellOfValue(f, little, q.value, PhandleOf(f, n).value, phandle); }
  }

  lemma CellOfValue(f: Fdt, little: bool, q: nat, v: seq<Byte>, x: nat)
    requires f.ReadBy(little) && ValueInMemory(f, q) && Value(f, q) == v
    ensures |v| == f.Be32(q + 4)
    ensures |v| >= 4 ==> q + 16 <= |f.mem| && f.Be32(q + 12) == Big32(v[0], v[1], v[2], v[3])
  {
    if |v| >= 4 {
      HostReads(f, little, q + 12);
      assert v[0] == f.mem[q + 12] && v[1] == f.mem[q + 13] && v[2] == f.mem[q + 14] && v[3] == f.mem[q + 15];
    }
  }

  /** Site `i` is the first with that phandle, and none before it has one that is not a cell. */
  ghost predicate FirstWith(f: Fdt, ss: seq<Site>, phandle: nat, i: nat)
    requires f.Readable()
  {
    && i < |ss| && CellIs(PhandleOf(f, ss[i].node), phandle)
    && forall j :: 0 <= j < i ==> !CellIs(PhandleOf(f, ss[j].node), phandle) && !NoCell(PhandleOf(f, ss[j].node))
  }

  /** Site `i` has a phandle that is not a cell, and none before it has the one looked for. */
  ghost predicate StuckAt(f: Fdt, ss: seq<Site>, phandle: nat, i: nat)
    requires f.Readable()
  {
    && i < |ss| && NoCell(PhandleOf(f, ss[i].node))
    && forall j :: 0 <= j < i ==> !CellIs(PhandleOf(f, ss[j].node), phandle)
  }

  /** What the nodes met by the walk say of phandles is what the tree says. */
  ghost predicate SaysOf(f: Fdt, ss: seq<Site>, phandle: nat, i: nat)
    requires f.Readable() && i < |ss|
  {
    && (HasPhandle(f, ss[i].pos, phandle) <==> CellIs(PhandleOf(f, ss[i].node), phandle))
    && (Malformed(f, ss[i].pos) <==> NoCell(PhandleOf(f, ss[i].node)))
  }

  lemma {:induction false} CellsEverywhere(f: Fdt, vs: seq<Visit>)
    requires forall i :: 0 <= i < |vs| ==> CellSound(f, vs[i].pos)
    ensures AllCellSound(f, vs)
  {
    if vs != [] {
      assert forall i :: 0 <= i < |vs[1..]| ==> vs[1..][i] == vs[i + 1];
      CellsEverywhere(f, vs[1..]);
    }
  }

  lemma TreeSaysOf(f: Fdt, little: bool, lead: nat, root: Node, phandle: nat)
    requires f.ReadBy(little) && Encoded(f, BlockTokens(lead, root), f.structStart)
    ensures f.Readable() && AllCellSound(f, Visits(f))
    ensures var ss := Sites(root, f.structStart + 4 * lead, []);
            && |Visits(f)| == |ss|
            && forall i :: 0 <= i < |ss| ==> Visits(f)[i].pos == ss[i].pos && SaysOf(f, ss, phandle, i)
  {
    var ss := Sites(root, f.structStart + 4 * lead, []);
    WalkIsPreorder(f, lead, root);
    forall i | 0 <= i < |ss|
      ensures Visits(f)[i].pos == ss[i].pos && SaysOf(f, ss, phandle, i) && CellSound(f, Visits(f)[i].pos)
    {
      VisitsOfAt(ss, i);
      InTreePlaced(f, lead, root, ss[i]);
      PhandleOfNode(f, little, ss[i].node, ss[i].pos, phandle);
    }
    CellsEverywhere(f, Visits(f));
  }

  /**
    On a flattened tree, searching by phandle finds the first node in pre-order with that value,
    unless a "phandle" that is not one cell comes before it, where it hangs.
   */
  lemma PhandleInTree(f: Fdt, little: bool, lead: nat, root: Node, phandle: nat, p: nat)
    requires f.ReadBy(little) && Encoded(f, BlockTokens(lead, root), f.structStart)
    ensures f.Readable() && AllCellSound(f, Visits(f))
    ensures var ss := Sites(root, f.structStart + 4 * lead, []);
            && (SearchPhandle(f, Visits(f), phandle) == Here(p) <==>
                  exists i: nat :: FirstWith(f, ss, phandle, i) && ss[i].pos == p)
            && (SearchPhandle(f, Visits(f), phandle) == Hangs <==> exists i: nat :: StuckAt(f, ss, phandle, i))
  {
    var ss := Sites(root, f.structStart + 4 * lead, []);
    TreeSaysOf(f, little, lead, root, phandle);
    FoundExactly(f, Visits(f), phandle, p);
    HangsExactly(f, Visits(f), phandle);
    SameSearch(f, Visits(f), ss, phandle, p);
  }

  lemma SameSearch(f: Fdt, vs: seq<Visit>, ss: seq<Site>, phandle: nat, p: nat)
    requires f.Readable() && |vs| == |ss|
    requires forall i :: 0 <= i < |ss| ==> vs[i].pos == ss[i].pos && SaysOf(f, ss, phandle, i)
    ensures (exists i: nat :: EndsSearchAt(f, vs, phandle, i) && vs[i].pos == p && HasPhandle(f, p, phandle)) <==>
            exists i: nat :: FirstWith(f, ss, phandle, i) && ss[i].pos == p
    ensures (exists i: nat :: HangsAt(f, vs, phandle, i)) <==> exists i: nat :: StuckAt(f, ss, phandle, i)
  {
    forall i: nat
      ensures i < |ss| && EndsSearchAt(f, vs, phandle, i) && HasPhandle(f, vs[i].pos, phandle) <==>
              FirstWith(f, ss, phandle, i)
      ensures HangsAt(f, vs, phandle, i) <==> StuckAt(f, ss, phandle, i)
    {
      forall j | 0 <= j < |ss| && j <= i ensures SaysOf(f, ss, phandle, j) && vs[j].pos == ss[j].pos {}
    }
    if i: nat :| FirstWith(f, ss, phandle, i) && ss[i].pos == p { assert EndsSearchAt(f, vs, phandle, i); }
  }
}
