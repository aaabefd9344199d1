/**
  Walks over the nodes of a device tree: `fdt_node_begin`, `fdt_next_node`, `fdt_max_depth` and
  `fdt_node_get_parents`.  Each loop is proved against a function of the chain of tokens, for
  every readable blob.
 */
module FdtWalk {
  import opened FdtBlob

  /** A node met on a walk, its depth by counting tokens, and its open ancestors, closest first. */
  datatype Visit = Visit(pos: nat, depth: int, path: seq<nat>)

  function Pop(path: seq<nat>): seq<nat> { if path == [] then [] else path[1..] }

  /** All nodes along a chain, given the nodes open at its start. */
  function Scan(es: seq<Entry>, path: seq<nat>, depth: int): seq<Visit> {
    if es == [] then []
    else if es[0].tag == BEGIN_NODE then
      [Visit(es[0].pos, depth, path)] + Scan(es[1..], [es[0].pos] + path, depth + 1)
    else if es[0].tag == END_NODE then Scan(es[1..], Pop(path), depth - 1)
    else Scan(es[1..], path, depth)
  }

  function ScanFrom(f: Fdt, token: Option<nat>, path: seq<nat>, depth: int): seq<Visit>
    requires token.Some? ==> Inside(f, token.value)
  {
    if token.None? then [] else Scan(Chain(f, token.value), path, depth)
  }

  /** What one token contributes to a walk. */
  lemma ScanStep(f: Fdt, p: nat, path: seq<nat>, depth: int)
    requires Inside(f, p)
    ensures var tag, rest := f.Be32(p), NextToken(f, p);
            Scan(Chain(f, p), path, depth) ==
              if tag == BEGIN_NODE then [Visit(p, depth, path)] + ScanFrom(f, rest, [p] + path, depth + 1)
              else if tag == END_NODE then ScanFrom(f, rest, Pop(path), depth - 1)
              else ScanFrom(f, rest, path, depth)
  {
    ChainTail(f, p);
  }

  /** A token that is neither the start nor the end of a node changes nothing. */
  lemma ScanPast(f: Fdt, p: nat, path: seq<nat>, depth: int)
    requires Inside(f, p) && f.Be32(p) != BEGIN_NODE && f.Be32(p) != END_NODE
    ensures ScanFrom(f, Some(p), path, depth) == ScanFrom(f, NextToken(f, p), path, depth)
  {
    ScanStep(f, p, path, depth);
  }

  /** The end of a node takes it off the path. */
  lemma ScanPastEnd(f: Fdt, p: nat, path: seq<nat>, depth: int)
    requires Inside(f, p) && f.Be32(p) == END_NODE
    ensures ScanFrom(f, Some(p), path, depth) == ScanFrom(f, NextToken(f, p), Pop(path), depth - 1)
  {
    ScanStep(f, p, path, depth);
  }

  function FirstBegin(es: seq<Entry>): Option<nat> {
    if es == [] then None else if es[0].tag == BEGIN_NODE then Some(es[0].pos) else FirstBegin(es[1..])
  }

  /** All nodes of the blob, in the order of the walk from `fdt_node_begin`. */
  function Visits(f: Fdt): seq<Visit>
    requires f.Readable()
  {
    FirstIsInside(f, f.structStart);
    match FirstBegin(Chain(f, f.structStart))
    case None => []
    case Some(p) => Scan(Chain(f, p), [], 0)
  }

  lemma {:induction false} FirstIsInside(f: Fdt, p: nat)
    requires Inside(f, p)
    ensures var r := FirstBegin(Chain(f, p)); r.Some? ==> IsNode(f, r.value)
    decreases f.structEnd - p
  {
    ChainTail(f, p);
    var next := NextToken(f, p);
    if next.Some? {
      FirstIsInside(f, next.value);
    }
  }

  /** A pointer to a node: a BEGIN_NODE token of the structure block. */
  predicate IsNode(f: Fdt, p: nat) { Inside(f, p) && f.Be32(p) == BEGIN_NODE }

  method NodeBegin(f: Fdt) returns (r: Option<nat>)
    requires f.Readable()
    ensures r == FirstBegin(Chain(f, f.structStart))
    ensures r.Some? ==> IsNode(f, r.value)
  {
    var token := Some(f.structStart);
    while token.Some?
      invariant token.Some? ==> Inside(f, token.value)
      invariant FirstBegin(Chain(f, f.structStart)) ==
                  if token.Some? then FirstBegin(Chain(f, token.value)) else None
      decreases if token.Some? then f.structEnd - token.value + 1 else 0
    {
      if f.Be32(token.value) == BEGIN_NODE {
        return token;
      }
      ChainTail(f, token.value);
      token := NextToken(f, token.value);
    }
    return None;
  }

  /** What is left open after closing `n` nodes; closing too many leaves nothing. */
  function Closed(path: seq<nat>, n: nat): seq<nat> { if n <= |path| then path[n..] else [] }

  lemma CloseOneMore(path: seq<nat>, n: nat)
    ensures Pop(Closed(path, n)) == Closed(path, n + 1)
  {
  }

  /** `vs` is the rest of a walk, starting with `node`. */
  ghost predicate Walks(f: Fdt, node: nat, vs: seq<Visit>) {
    && IsNode(f, node) && vs != [] && vs[0].pos == node
    && vs == Scan(Chain(f, node), vs[0].path, vs[0].depth)
  }

  lemma WalkTail(f: Fdt, node: nat, vs: seq<Visit>)
    requires Walks(f, node, vs)
    ensures vs[1..] == ScanFrom(f, NextToken(f, node), [node] + vs[0].path, vs[0].depth + 1)
  {
    ScanStep(f, node, vs[0].path, vs[0].depth);
  }

  lemma WalkHead(f: Fdt, node: nat, path: seq<nat>, depth: int)
    requires IsNode(f, node)
    ensures var vs := Scan(Chain(f, node), path, depth); Walks(f, node, vs) && vs[0] == Visit(node, depth, path)
  {
    ScanStep(f, node, path, depth);
  }

  /** The next node a scan finds is the next entry of the walk. */
  lemma WalkGoesOn(f: Fdt, node: nat, vs: seq<Visit>, p: nat, closed: nat)
    requires Walks(f, node, vs) && IsNode(f, p)
    requires var open, d := [node] + vs[0].path, vs[0].depth + 1;
             ScanFrom(f, NextToken(f, node), open, d) == ScanFrom(f, Some(p), Closed(open, closed), d - closed)
    ensures |vs| > 1 && Walks(f, p, vs[1..])
    ensures vs[1] == Visit(p, vs[0].depth + 1 - closed, Closed([node] + vs[0].path, closed))
  {
    WalkTail(f, node, vs);
    WalkHead(f, p, Closed([node] + vs[0].path, closed), vs[0].depth + 1 - closed);
    assert vs[1] == vs[1..][0];
  }

  /** The loop of `fdt_next_node`: the next node from a token on, and how many nodes are closed before it. */
  method SeekNode(f: Fdt, start: Option<nat>, ghost open: seq<nat>, ghost depth: int)
    returns (r: Option<nat>, closed: nat)
    requires start.Some? ==> Inside(f, start.value)
    ensures r.Some? ==> IsNode(f, r.value) && start.Some? && start.value <= r.value
    ensures ScanFrom(f, start, open, depth) == ScanFrom(f, r, Closed(open, closed), depth - closed)
  {
    var token := start;
    closed := 0;
    ghost var all, left, d := ScanFrom(f, start, open, depth), open, depth;
    while token.Some?
      invariant token.Some? ==> Inside(f, token.value) && start.Some? && start.value <= token.value
      invariant left == Closed(open, closed) && d == depth - closed && all == ScanFrom(f, token, left, d)
      decreases if token.Some? then f.structEnd - token.value + 1 else 0
    {
      var tag := f.Be32(token.value);
      if tag == END_NODE {
        ScanPastEnd(f, token.value, left, d);
        CloseOneMore(open, closed);
        closed, left, d := closed + 1, Pop(left), d - 1;
      } else if tag == BEGIN_NODE {
        return token, closed;
      } else {
        ScanPast(f, token.value, left, d);
      }
      token := NextToken(f, token.value);
    }
    r := None;
  }

  /**
    `fdt_next_node`: the next node of the walk, or nothing after the last; `*depth` moves by
    the difference in depth.  The ancestors of the new node are what is left of the old node
    and its ancestors once some of them are closed.
   */
  method NextNode(f: Fdt, node: nat, depth: int, ghost vs: seq<Visit>) returns (r: Option<nat>, depth': int)
    requires Walks(f, node, vs)
    ensures match r
            case None => |vs| == 1 && depth' == depth
            case Some(p) =>
              && |vs| > 1 && Walks(f, p, vs[1..]) && node < p && depth' - depth == vs[1].depth - vs[0].depth
              && vs[1].depth <= vs[0].depth + 1
              && vs[1].path == Closed([node] + vs[0].path, vs[0].depth + 1 - vs[1].depth)
  {
    var closed;
    r, closed := SeekNode(f, NextToken(f, node), [node] + vs[0].path, vs[0].depth + 1);
    if r.None? {
      WalkTail(f, node, vs);
      return None, depth;
    }
    WalkGoesOn(f, node, vs, r.value, closed);
    depth' := depth + 1 - closed;
  }

  /** Entry `k` of a walk from a token on is a node from which the rest of the walk goes on. */
  lemma {:induction false} ScanAt(f: Fdt, p: nat, path: seq<nat>, depth: int, k: nat)
    requires Inside(f, p) && k < |ScanFrom(f, Some(p), path, depth)|
    ensures var vs := ScanFrom(f, Some(p), path, depth); p <= vs[k].pos && Walks(f, vs[k].pos, vs[k..])
    decreases f.structEnd - p
  {
    var vs, tag, rest := ScanFrom(f, Some(p), path, depth), f.Be32(p), NextToken(f, p);
    if tag == BEGIN_NODE {
      WalkHead(f, p, path, depth);
      if k > 0 {
        var tail := ScanFrom(f, rest, [p] + path, depth + 1);
        assert vs[1..] == tail by { WalkTail(f, p, vs); }
        assert vs[k] == tail[k - 1] && vs[k..] == tail[k - 1..];
        ScanAt(f, rest.value, [p] + path, depth + 1, k - 1);
      } else {
        assert vs[k..] == vs;
      }
    } else if tag == END_NODE {
      ScanPastEnd(f, p, path, depth);
      ScanAt(f, rest.value, Pop(path), depth - 1, k);
    } else {
      ScanPast(f, p, path, depth);
      ScanAt(f, rest.value, path, depth, k);
    }
  }

  /** Every entry of the whole walk is a node, and the walk goes on from it. */
  lemma VisitAt(f: Fdt, k: nat)
    requires f.Readable() && k < |Visits(f)|
    ensures Walks(f, Visits(f)[k].pos, Visits(f)[k..])
  {
    var r := FirstBegin(Chain(f, f.structStart));
    FirstIsInside(f, f.structStart);
    ScanAt(f, r.value, [], 0, k);
  }

  /** Positions strictly increase along a walk, so no node is visited twice. */
  lemma WalkAscends(f: Fdt, node: nat, vs: seq<Visit>, k: nat)
    requires Walks(f, node, vs) && 0 < k < |vs|
    ensures node < vs[k].pos
  {
    ScanStep(f, node, vs[0].path, vs[0].depth);
    assert vs[1..][k - 1] == vs[k];
    ScanAt(f, NextToken(f, node).value, [node] + vs[0].path, vs[0].depth + 1, k - 1);
  }

  function MaxDepthOf(vs: seq<Visit>): (d: nat)
    ensures forall i :: 0 <= i < |vs| ==> vs[i].depth <= d
    ensures d == 0 || exists i :: 0 <= i < |vs| && vs[i].depth == d
  {
    if vs == [] then 0
    else
      var rest := MaxDepthOf(vs[1..]);
      assert rest > 0 ==> exists i :: 0 <= i < |vs[1..]| && vs[1..][i].depth == rest && vs[i + 1].depth == rest;
      if vs[0].depth > rest then vs[0].depth else rest
  }

  method MaxDepth(f: Fdt) returns (d: nat)
    requires f.Readable()
    ensures d == MaxDepthOf(Visits(f))
  {
    var depth := 0;
    d := 0;
    var node := NodeBegin(f);
    if node.Some? { ScanStep(f, node.value, [], 0); }
    ghost var vs := Visits(f);
    while node.Some?
      invariant if node.Some? then Walks(f, node.value, vs) && vs[0].depth == depth else vs == []
      invariant MaxDepthOf(Visits(f)) == if d > MaxDepthOf(vs) then d else MaxDepthOf(vs)
      decreases |vs|
    {
      d := if depth > d then depth else d;
      node, depth := NextNode(f, node.value, depth, vs);
      vs := vs[1..];
    }
  }

  /** The walk never closes more nodes than it opened before it meets another node. */
  predicate NeverUnderflows(vs: seq<Visit>) { forall i :: 0 <= i < |vs| ==> vs[i].depth >= 0 }

  /** The entry for `node`, or the last one if there is none. */
  function Target(vs: seq<Visit>, node: nat): Visit
    requires vs != []
  {
    if |vs| == 1 || vs[0].pos == node then vs[0] else Target(vs[1..], node)
  }

  /** The search ends at the node exactly if the walk meets it. */
  lemma {:induction false} TargetFoundExactly(vs: seq<Visit>, node: nat)
    requires vs != []
    ensures Target(vs, node).pos == node <==> exists i :: 0 <= i < |vs| && vs[i].pos == node
  {
    if |vs| > 1 && vs[0].pos != node {
      TargetFoundExactly(vs[1..], node);
      if i :| 0 <= i < |vs[1..]| && vs[1..][i].pos == node { assert vs[i + 1].pos == node; }
      if i :| 0 <= i < |vs| && vs[i].pos == node { assert vs[1..][i - 1].pos == node; }
    } else if vs[0].pos != node {
      assert Target(vs, node) == vs[0];
    }
  }

  /** The entries that come before `node`, all of them if it is not met. */
  function Before(vs: seq<Visit>, node: nat): seq<Visit> {
    if vs == [] || vs[0].pos == node then [] else [vs[0]] + Before(vs[1..], node)
  }

  /** The search ends at the first entry for the node, with the entries in front of it before. */
  lemma {:induction false} SearchStopsAt(vs: seq<Visit>, node: nat, i: nat)
    requires i < |vs| && vs[i].pos == node && forall j :: 0 <= j < i ==> vs[j].pos != node
    ensures Target(vs, node) == vs[i] && Before(vs, node) == vs[..i]
  {
    if i > 0 {
      SearchStopsAt(vs[1..], node, i - 1);
      assert vs[..i] == [vs[0]] + vs[1..][..i - 1];
    }
  }

  /** Without one it runs to the last entry. */
  lemma {:induction false} SearchRunsOut(vs: seq<Visit>, node: nat)
    requires vs != [] && forall j :: 0 <= j < |vs| ==> vs[j].pos != node
    ensures Target(vs, node) == vs[|vs| - 1] && Before(vs, node) == vs
  {
    if |vs| > 1 {
      SearchRunsOut(vs[1..], node);
      assert vs == [vs[0]] + vs[1..];
    }
  }

  /** The depth `fdt_node_get_parents` ends its search with. */
  function FinalDepth(vs: seq<Visit>, node: nat): int { if vs == [] then 0 else Target(vs, node).depth }

  /** `min(len, (size_t)depth)`: a negative depth turns into a size beyond any array. */
  function Returned(depth: int, len: nat): nat { if depth < 0 || len < depth then len else depth }

  /** The elements of the branch array that get written or read. */
  ghost predicate Touched(vs: seq<Visit>, node: nat, len: nat, i: int) {
    || (exists v :: v in Before(vs, node) && v.depth == i)
    || FinalDepth(vs, node) - Returned(FinalDepth(vs, node), len) <= i < FinalDepth(vs, node)
  }

  ghost predicate NoneBelow(vs: seq<Visit>) { forall v :: v in vs ==> v.depth >= 0 }

  ghost predicate InRange(vs: seq<Visit>, node: nat, len: nat) {
    NoneBelow(Before(vs, node)) && (FinalDepth(vs, node) >= 0 || len == 0)
  }

  /**
    The branch array, with one element more than the maximal depth, is never left exactly if no
    node before the one looked for has a negative depth, and neither has that node itself,
    unless nothing is to be copied.
   */
  lemma InRangeExactly(vs: seq<Visit>, node: nat, len: nat)
    ensures (forall i :: Touched(vs, node, len, i) ==> 0 <= i < MaxDepthOf(vs) + 1) <==> InRange(vs, node, len)
  {
    var d := FinalDepth(vs, node);
    BeforeIsPart(vs, node);
    if vs != [] { TargetIsPart(vs, node); }
    if InRange(vs, node, len) {
      forall i | Touched(vs, node, len, i) ensures 0 <= i < MaxDepthOf(vs) + 1 {
        if v :| v in Before(vs, node) && v.depth == i { assert v in vs; }
      }
    } else if d < 0 && len > 0 {
      assert Touched(vs, node, len, d - 1);
    } else {
      var v :| v in Before(vs, node) && v.depth < 0;
      assert Touched(vs, node, len, v.depth);
    }
  }

  lemma {:induction false} BeforeIsPart(vs: seq<Visit>, node: nat)
    ensures forall v :: v in Before(vs, node) ==> v in vs && v.depth <= MaxDepthOf(vs)
  {
    if vs != [] { BeforeIsPart(vs[1..], node); }
  }

  lemma {:induction false} TargetIsPart(vs: seq<Visit>, node: nat)
    requires vs != []
    ensures Target(vs, node) in vs && Target(vs, node).depth <= MaxDepthOf(vs)
  {
    if |vs| > 1 { TargetIsPart(vs[1..], node); }
  }

  /** The search for `node` ends at `target`, and stays between depth 0 and `max` before. */
  ghost predicate LeadsTo(vs: seq<Visit>, node: nat, target: Visit, max: nat) {
    && vs != [] && vs[0].depth <= max
    && if vs[0].pos == node then target == vs[0]
       else vs[0].depth >= 0 && if |vs| == 1 then target == vs[0] else LeadsTo(vs[1..], node, target, max)
  }

  lemma {:induction false} SearchLeads(vs: seq<Visit>, node: nat, max: nat)
    requires vs != [] && NoneBelow(Before(vs, node)) && MaxDepthOf(vs) <= max
    ensures LeadsTo(vs, node, Target(vs, node), max)
  {
    if vs[0].pos != node {
      assert vs[0] in Before(vs, node);
      if |vs| > 1 { SearchLeads(vs[1..], node, max); }
    }
  }

  /** A walk without negative depths is always in range. */
  lemma NeverUnderflowsInRange(vs: seq<Visit>, node: nat, len: nat)
    requires NeverUnderflows(vs)
    ensures InRange(vs, node, len)
  {
    BeforeIsPart(vs, node);
    if vs != [] { TargetIsPart(vs, node); }
  }

  /** The branch of open nodes as an array from the root down. */
  ghost predicate Holds(branch: seq<nat>, path: seq<nat>) {
    |path| <= |branch| && forall i :: 0 <= i < |path| ==> branch[|path| - 1 - i] == path[i]
  }

  /** Writing a node below its branch leaves the branch as it was. */
  lemma HoldsKept(branch: seq<nat>, path: seq<nat>, node: nat)
    requires Holds(branch, path) && |path| < |branch|
    ensures Holds(branch[|path| := node], path) && Holds(branch[|path| := node], [node] + path)
  {
    var b := branch[|path| := node];
    forall i | 0 <= i < |path| + 1 ensures b[|path| - i] == ([node] + path)[i] {
      assert i == 0 || branch[|path| - 1 - (i - 1)] == path[i - 1];
    }
  }

  lemma HoldsClosed(branch: seq<nat>, path: seq<nat>, n: nat)
    requires Holds(branch, path)
    ensures Holds(branch, Closed(path, n))
  {
    var c := Closed(path, n);
    forall i | 0 <= i < |c| ensures branch[|c| - 1 - i] == c[i] {
      assert branch[|path| - 1 - (n + i)] == path[n + i] == c[i];
    }
  }

  /** Depth and path agree, as long as no more nodes have been closed than opened. */
  predicate Counts(depth: int, path: seq<nat>) { depth == |path| || (depth < 0 && path == []) }

  lemma BranchCloses(branch: seq<nat>, path: seq<nat>, n: nat)
    requires Holds(branch, path)
    ensures Holds(branch, Closed(path, n)) && Counts(|path| - n, Closed(path, n))
  {
    HoldsClosed(branch, path, n);
  }

  /** The search loop of `fdt_node_get_parents`: the branch down to the node it stops at. */
  method FindBranch(f: Fdt, root: nat, node: nat, branch: array<nat>, ghost all: seq<Visit>) returns (depth: int)
    requires Walks(f, root, all) && all[0].path == [] && all[0].depth == 0 && NoneBelow(Before(all, node))
    requires MaxDepthOf(all) < branch.Length
    modifies branch
    ensures depth == Target(all, node).depth && Counts(depth, Target(all, node).path)
    ensures Holds(branch[..], Target(all, node).path)
  {
    depth := 0;
    var curr := root;
    ghost var vs, path, target, max := all, [], Target(all, node), MaxDepthOf(all);
    SearchLeads(all, node, max);
    while curr != node
      invariant Walks(f, curr, vs) && path == vs[0].path && vs[0].depth == depth && Counts(depth, path)
      invariant LeadsTo(vs, node, target, max) && Holds(branch[..], path)
      decreases |vs|
    {
      ghost var was := branch[..];
      branch[depth] := curr;
      assert branch[..] == was[depth := curr];
      HoldsKept(was, path, curr);
      var next, depth' := NextNode(f, curr, depth, vs);
      if next.None? {
        return;
      }
      BranchCloses(branch[..], [curr] + path, depth + 1 - vs[1].depth);
      curr, depth, vs, path := next.value, depth', vs[1..], vs[1].path;
    }
  }

  /** The copying loop, which turns the branch around. */
  method CopyBranch(branch: array<nat>, depth: int, parents: array<nat>, ghost path: seq<nat>) returns (n: nat)
    requires branch != parents && Counts(depth, path) && Holds(branch[..], path) && (depth >= 0 || parents.Length == 0)
    modifies parents
    ensures n == if parents.Length < |path| then parents.Length else |path|
    ensures parents[..n] == path[..n] && parents[n..] == old(parents[n..])
  {
    n := Returned(depth, parents.Length);
    for i := 0 to n
      invariant forall j :: 0 <= j < i ==> parents[j] == path[j]
      invariant forall j :: n <= j < parents.Length ==> parents[j] == old(parents[j])
    {
      assert branch[..][|path| - 1 - i] == path[i];
      parents[i] := branch[depth - (i + 1)];
    }
  }

  /** The ancestors `fdt_node_get_parents` reports, closest first. */
  function PathTo(vs: seq<Visit>, node: nat): seq<nat> { if vs == [] then [] else Target(vs, node).path }

  /**
    `fdt_node_get_parents`: the ancestors of the node, closest first, as many as fit, whenever
    the branch array is not left.  A node that is not in the tree gets the ancestors of the
    last one.
   */
  method GetParents(f: Fdt, node: nat, parents: array<nat>) returns (n: nat)
    requires f.Readable() && InRange(Visits(f), node, parents.Length)
    modifies parents
    ensures var path := PathTo(Visits(f), node);
            && n == (if parents.Length < |path| then parents.Length else |path|)
            && parents[..n] == path[..n] && parents[n..] == old(parents[n..])
  {
    var maxDepth := MaxDepth(f);
    var branch := new nat[maxDepth + 1];
    var depth := 0;
    var root := NodeBegin(f);
    if root.Some? {
      ScanStep(f, root.value, [], 0);
      depth := FindBranch(f, root.value, node, branch, Visits(f));
    }
    n := CopyBranch(branch, depth, parents, PathTo(Visits(f), node));
  }
}
