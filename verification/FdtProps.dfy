/**
  Subnodes and properties of a node: the loops of kernel/of/fdt.c that look at the tokens
  right after a node or a property, each against a function of the chain of tokens.
 */
module FdtProps {
  import opened Endian
  import opened FdtBlob
  import opened FdtWalk

  // ----- subnodes

  function Bump(tag: nat, depth: int): int {
    if tag == BEGIN_NODE then depth + 1 else if tag == END_NODE then depth - 1 else depth
  }

  /** What follows once all nodes opened from here on are closed again. */
  function AfterNode(es: seq<Entry>, depth: int): seq<Entry> {
    if es == [] then []
    else if Bump(es[0].tag, depth) > 0 then AfterNode(es[1..], Bump(es[0].tag, depth))
    else es[1..]
  }

  /** The token list starting at a pointer, nothing for NULL. */
  function ChainFrom(f: Fdt, token: Option<nat>): seq<Entry>
    requires token.Some? ==> Inside(f, token.value)
  {
    if token.None? then [] else Chain(f, token.value)
  }

  lemma ChainStep(f: Fdt, p: nat)
    requires Inside(f, p)
    ensures Chain(f, p)[1..] == ChainFrom(f, NextToken(f, p))
  {
    ChainTail(f, p);
  }

  method NextTokenAfterNode(f: Fdt, node: Option<nat>) returns (r: Option<nat>)
    requires node.Some? ==> Inside(f, node.value)
    ensures r.Some? ==> Inside(f, r.value)
    ensures ChainFrom(f, r) == AfterNode(ChainFrom(f, node), 0)
  {
    if node.None? {
      return None;
    }
    var token, depth, first := node.value, 0, true;
    while first || depth > 0
      invariant Inside(f, token)
      invariant if first || depth > 0
                then AfterNode(Chain(f, node.value), 0) == AfterNode(Chain(f, token), depth)
                else AfterNode(Chain(f, node.value), 0) == Chain(f, token)
      decreases f.structEnd - token
    {
      var tag := f.Be32(token);
      ChainStep(f, token);
      if tag == BEGIN_NODE {
        depth := depth + 1;
      } else if tag == END_NODE {
        depth := depth - 1;
      }
      var next := NextToken(f, token);
      if next.None? {
        return None;
      }
      token, first := next.value, false;
    }
    return Some(token);
  }

  /** The first node in a chain, with only properties and NOPs before it. */
  function FirstSubnode(es: seq<Entry>): Option<nat> {
    if es == [] then None
    else if es[0].tag == BEGIN_NODE then Some(es[0].pos)
    else if es[0].tag == NOP || es[0].tag == PROP then FirstSubnode(es[1..])
    else None
  }

  /** The loop shared by `fdt_node_subnode_begin` and `fdt_node_next_subnode`. */
  method SeekSubnode(f: Fdt, start: Option<nat>) returns (r: Option<nat>)
    requires start.Some? ==> Inside(f, start.value)
    ensures r == FirstSubnode(ChainFrom(f, start)) && (r.Some? ==> IsNode(f, r.value))
  {
    var token := start;
    while token.Some?
      invariant token.Some? ==> Inside(f, token.value)
      invariant FirstSubnode(ChainFrom(f, start)) == FirstSubnode(ChainFrom(f, token))
      decreases if token.Some? then f.structEnd - token.value + 1 else 0
    {
      var tag := f.Be32(token.value);
      if tag == BEGIN_NODE {
        return token;
      } else if tag != NOP && tag != PROP {
        return None;
      }
      ChainStep(f, token.value);
      token := NextToken(f, token.value);
    }
    return None;
  }

  method SubnodeBegin(f: Fdt, node: nat) returns (r: Option<nat>)
    requires IsNode(f, node)
    ensures r == FirstSubnode(Chain(f, node)[1..]) && (r.Some? ==> IsNode(f, r.value))
  {
    ChainStep(f, node);
    r := SeekSubnode(f, NextToken(f, node));
  }

  method NextSubnode(f: Fdt, subnode: nat) returns (r: Option<nat>)
    requires IsNode(f, subnode)
    ensures r == FirstSubnode(AfterNode(Chain(f, subnode), 0)) && (r.Some? ==> IsNode(f, r.value))
  {
    var after := NextTokenAfterNode(f, Some(subnode));
    r := SeekSubnode(f, after);
  }

  // ----- properties

  predicate IsProp(f: Fdt, p: nat) { Inside(f, p) && f.Be32(p) == PROP }

  /** The name of a property, unless its offset lies outside the strings block. */
  function PropName(f: Fdt, p: nat): Option<seq<Byte>>
    requires Inside(f, p)
  {
    NameAt(f, f.Be32(p + 8))
  }

  function NameAt(f: Fdt, offset: nat): Option<seq<Byte>>
    requires f.Readable()
  {
    if offset < f.stringsSize then Some(CString(f.mem, f.stringsStart + offset)) else None
  }

  /** An offset inside the strings block names what stands there up to the next NUL. */
  lemma NameExactly(f: Fdt, offset: nat, name: seq<Byte>)
    requires f.Readable()
    ensures NameAt(f, offset) == Some(name) <==>
              && offset < f.stringsSize && 0 !in name
              && f.stringsStart + offset + |name| < |f.mem| && f.mem[f.stringsStart + offset + |name|] == 0
              && f.mem[f.stringsStart + offset..f.stringsStart + offset + |name|] == name
  {
    if offset < f.stringsSize { StringExactly(f.mem, f.stringsStart + offset, name); }
  }

  lemma StringExactly(mem: seq<Byte>, p: nat, s: seq<Byte>)
    requires p < |mem| && mem[|mem| - 1] == 0
    ensures CString(mem, p) == s <==> 0 !in s && p + |s| < |mem| && mem[p + |s|] == 0 && mem[p..p + |s|] == s
  {
    FirstNul(mem, p);
    if 0 !in s && p + |s| < |mem| && mem[p + |s|] == 0 && mem[p..p + |s|] == s {
      assert forall i :: p <= i < p + |s| ==> mem[i] == s[i - p];
      StrLenIs(mem, p, |s|);
    }
  }

  /** The first property of that name among those leading a chain. */
  function FindProp(f: Fdt, token: Option<nat>, name: seq<Byte>): (r: Option<nat>)
    requires token.Some? ==> Inside(f, token.value)
    ensures r.Some? ==> IsProp(f, r.value) && PropName(f, r.value) == Some(name)
    decreases if token.Some? then f.structEnd - token.value + 1 else 0
  {
    if token.None? then None
    else if f.Be32(token.value) == PROP && PropName(f, token.value) == Some(name) then token
    else if f.Be32(token.value) == PROP || f.Be32(token.value) == NOP then FindProp(f, NextToken(f, token.value), name)
    else None
  }

  /** The first property token in a run of NOPs: `fdt_node_prop_begin` and `fdt_node_next_prop`. */
  method SeekProp(f: Fdt, start: nat, ghost name: seq<Byte>) returns (r: Option<nat>)
    requires Inside(f, start)
    ensures r.Some? ==> IsProp(f, r.value) && start < r.value
    ensures FindProp(f, NextToken(f, start), name) == FindProp(f, r, name)
  {
    var token := NextToken(f, start);
    while token.Some?
      invariant token.Some? ==> Inside(f, token.value) && start < token.value
      invariant FindProp(f, NextToken(f, start), name) == FindProp(f, token, name)
      decreases if token.Some? then f.structEnd - token.value + 1 else 0
    {
      var tag := f.Be32(token.value);
      if tag == PROP {
        return token;
      } else if tag != NOP {
        return None;
      }
      token := NextToken(f, token.value);
    }
    return None;
  }

  /** The property of `node` with that name, after `start` if one is given. */
  method GetPropByName(f: Fdt, node: nat, start: Option<nat>, name: seq<Byte>) returns (r: Option<nat>)
    requires IsNode(f, node) && (start.Some? ==> IsProp(f, start.value))
    ensures r == FindProp(f, NextToken(f, if start.Some? then start.value else node), name)
  {
    var prop := SeekProp(f, if start.Some? then start.value else node, name);
    while prop.Some?
      invariant prop.Some? ==> IsProp(f, prop.value)
      invariant FindProp(f, NextToken(f, if start.Some? then start.value else node), name) == FindProp(f, prop, name)
      decreases if prop.Some? then f.structEnd - prop.value + 1 else 0
    {
      if PropName(f, prop.value) == Some(name) {
        return prop;
      }
      prop := SeekProp(f, prop.value, name);
    }
    return None;
  }

  /** The property of a node with the given name. */
  function PropOf(f: Fdt, node: nat, name: seq<Byte>): Option<nat>
    requires Inside(f, node)
  {
    FindProp(f, NextToken(f, node), name)
  }

  /** The first of these nodes that defines the property decides. */
  function Nearest(f: Fdt, nodes: seq<nat>, name: seq<Byte>): Option<nat>
    requires forall i :: 0 <= i < |nodes| ==> Inside(f, nodes[i])
  {
    if nodes == [] then None
    else
      var r := PropOf(f, nodes[0], name);
      if r.Some? then r else Nearest(f, nodes[1..], name)
  }

  // ----- inherited properties

  /** Up to the first negative depth and including it, a depth is the number of ancestors. */
  lemma {:induction false} DepthCountsAncestors(es: seq<Entry>, path: seq<nat>, depth: int, k: nat)
    requires Counts(depth, path) && k < |Scan(es, path, depth)|
    requires forall j :: 0 <= j < k ==> Scan(es, path, depth)[j].depth >= 0
    ensures Counts(Scan(es, path, depth)[k].depth, Scan(es, path, depth)[k].path)
  {
    var vs := Scan(es, path, depth);
    if es[0].tag == BEGIN_NODE {
      if k > 0 {
        assert vs[0].depth >= 0;
        var rest := Scan(es[1..], [es[0].pos] + path, depth + 1);
        assert forall j :: 0 <= j < |rest| ==> rest[j] == vs[j + 1];
        DepthCountsAncestors(es[1..], [es[0].pos] + path, depth + 1, k - 1);
      }
    } else if es[0].tag == END_NODE {
      DepthCountsAncestors(es[1..], Pop(path), depth - 1, k);
    } else {
      DepthCountsAncestors(es[1..], path, depth, k);
    }
  }

  ghost predicate AllNodes(f: Fdt, ps: seq<nat>) { forall i :: 0 <= i < |ps| ==> IsNode(f, ps[i]) }

  /** Everything a walk reports as an ancestor is a node. */
  lemma {:induction false} AncestorsAreNodes(f: Fdt, p: nat, path: seq<nat>, depth: int, k: nat)
    requires Inside(f, p) && AllNodes(f, path) && k < |Scan(Chain(f, p), path, depth)|
    ensures AllNodes(f, Scan(Chain(f, p), path, depth)[k].path)
    decreases f.structEnd - p
  {
    var tag, rest := f.Be32(p), NextToken(f, p);
    ScanStep(f, p, path, depth);
    if tag == BEGIN_NODE {
      if k > 0 { AncestorsAreNodes(f, rest.value, [p] + path, depth + 1, k - 1); }
    } else if tag == END_NODE {
      AncestorsAreNodes(f, rest.value, Pop(path), depth - 1, k);
    } else {
      AncestorsAreNodes(f, rest.value, path, depth, k);
    }
  }

  lemma {:induction false} TargetIsOne(vs: seq<Visit>, node: nat) returns (k: nat)
    requires vs != []
    ensures k < |vs| && Target(vs, node) == vs[k]
    ensures forall j :: 0 <= j < k ==> vs[j] in Before(vs, node)
    ensures (exists i :: 0 <= i < |vs| && vs[i].pos == node) ==> vs[k].pos == node
  {
    if |vs| == 1 || vs[0].pos == node {
      k := 0;
    } else {
      var i := TargetIsOne(vs[1..], node);
      k := i + 1;
      forall j | 0 <= j < k ensures vs[j] in Before(vs, node) {
        if j > 0 { assert vs[1..][j - 1] == vs[j]; }
      }
      if i :| 0 <= i < |vs| && vs[i].pos == node {
        assert vs[1..][i - 1].pos == node;
      }
    }
  }

  /** Reported ancestors are nodes. */
  lemma PathToNodes(f: Fdt, node: nat)
    requires f.Readable()
    ensures AllNodes(f, PathTo(Visits(f), node))
  {
    var vs := Visits(f);
    if vs != [] {
      FirstIsInside(f, f.structStart);
      var k := TargetIsOne(vs, node);
      AncestorsAreNodes(f, FirstBegin(Chain(f, f.structStart)).value, [], 0, k);
    }
  }

  /** They are no more than the maximal depth, if no negative depth comes before the node. */
  lemma PathToFits(f: Fdt, node: nat)
    requires f.Readable() && NoneBelow(Before(Visits(f), node))
    ensures |PathTo(Visits(f), node)| <= MaxDepthOf(Visits(f))
  {
    var vs := Visits(f);
    if vs != [] {
      FirstIsInside(f, f.structStart);
      var k := TargetIsOne(vs, node);
      DepthCountsAncestors(Chain(f, FirstBegin(Chain(f, f.structStart)).value), [], 0, k);
    }
  }

  /**
    `fdt_node_get_inherited_prop`: the definition in the node itself or else in its nearest
    ancestor that has one, and nothing only if none does; the parents array is large enough.
   */
  method GetInheritedProp(f: Fdt, node: nat, name: seq<Byte>) returns (r: Option<nat>)
    requires IsNode(f, node)
    requires PropOf(f, node, name).Some? || InRange(Visits(f), node, MaxDepthOf(Visits(f)))
    ensures AllNodes(f, [node] + PathTo(Visits(f), node))
    ensures r == Nearest(f, [node] + PathTo(Visits(f), node), name)
  {
    ghost var path := PathTo(Visits(f), node);
    PathToNodes(f, node);
    r := GetPropByName(f, node, None, name);
    assert ([node] + path)[1..] == path;
    if r.Some? {
      return;
    }
    PathToFits(f, node);
    var maxDepth := MaxDepth(f);
    var parents := new nat[maxDepth];
    var n := GetParents(f, node, parents);
    assert parents[..n] == path;
    for i := 0 to n
      invariant Nearest(f, path, name) == Nearest(f, path[i..], name)
      invariant parents[..n] == path
    {
      assert parents[i] == path[i] && path[i..][1..] == path[i + 1..];
      r := GetPropByName(f, parents[i], None, name);
      if r.Some? {
        return;
      }
    }
    return None;
  }
}
