/**
  Searches over the nodes of a device tree: by "compatible" string, by "device_type" and by
  phandle, each resumable after an earlier result.
 */
module FdtSearch {
  import opened Endian
  import opened FdtBlob
  import opened FdtWalk
  import opened FdtProps

  const COMPATIBLE: seq<Byte> := [99, 111, 109, 112, 97, 116, 105, 98, 108, 101]
  const DEVICE_TYPE: seq<Byte> := [100, 101, 118, 105, 99, 101, 95, 116, 121, 112, 101]
  const MEMORY: seq<Byte> := [109, 101, 109, 111, 114, 121]
  const PHANDLE: seq<Byte> := [112, 104, 97, 110, 100, 108, 101]

  /** The value of a property lies in memory. */
  predicate ValueInMemory(f: Fdt, q: nat) { IsProp(f, q) && q + 12 + f.Be32(q + 4) <= |f.mem| }

  function Value(f: Fdt, q: nat): seq<Byte>
    requires ValueInMemory(f, q)
  {
    f.mem[q + 12..q + 12 + f.Be32(q + 4)]
  }

  /** If the node has a property of that name, its value lies in memory. */
  predicate Sound(f: Fdt, node: nat, name: seq<Byte>) {
    IsNode(f, node) && (PropOf(f, node, name).Some? ==> ValueInMemory(f, PropOf(f, node, name).value))
  }

  predicate AllSound(f: Fdt, vs: seq<Visit>, name: seq<Byte>) {
    vs == [] || (Sound(f, vs[0].pos, name) && AllSound(f, vs[1..], name))
  }

  lemma {:induction false} SoundEverywhere(f: Fdt, vs: seq<Visit>, name: seq<Byte>)
    requires forall i :: 0 <= i < |vs| ==> Sound(f, vs[i].pos, name)
    ensures AllSound(f, vs, name)
  {
    if vs != [] {
      assert forall i :: 0 <= i < |vs[1..]| ==> vs[1..][i] == vs[i + 1];
      SoundEverywhere(f, vs[1..], name);
    }
  }

  // ----- "compatible" lists

  /**
    What `fdt_node_is_compatible` comes to: a match inside the value, a match among the bytes
    behind it, no match, or a read outside memory.
   */
  datatype Verdict = Yes | Stray | No | Overrun {
    /** What the C function returns; it cannot tell the first two apart. */
    predicate True() { Yes? || Stray? }
  }

  /** Some string from `p` on up to the end of memory is the one looked for. */
  predicate ReadOn(mem: seq<Byte>, p: nat, compat: seq<Byte>)
    requires mem != [] && mem[|mem| - 1] == 0 && p <= |mem|
    decreases |mem| - p
  {
    p < |mem| && (CString(mem, p) == compat || ReadOn(mem, p + StrLen(mem, p) + 1, compat))
  }

  /** The loop of `fdt_node_is_compatible`; once its byte count has wrapped it goes on behind the value. */
  function Compare(mem: seq<Byte>, p: nat, len: nat, compat: seq<Byte>): Verdict
    requires mem != [] && mem[|mem| - 1] == 0 && p + len <= |mem|
    decreases len
  {
    if len == 0 then No
    else
      var step := StrLen(mem, p) + 1;
      if CString(mem, p) == compat then Yes
      else if step > len then if ReadOn(mem, p + step, compat) then Stray else Overrun
      else Compare(mem, p + step, len - step, compat)
  }

  /** The loop itself, on a byte count modulo 2^64. */
  method CompareLoop(mem: seq<Byte>, p0: nat, len0: nat, compat: seq<Byte>) returns (v: Verdict)
    requires mem != [] && mem[|mem| - 1] == 0 && p0 + len0 <= |mem| < P64
    ensures v == Compare(mem, p0, len0, compat)
  {
    var p: nat, len: nat, wrapped := p0, len0, false;
    while len > 0
      invariant p <= |mem| && len == (if wrapped then P64 else 0) + p0 + len0 - p
      invariant Compare(mem, p0, len0, compat) ==
                  if !wrapped then Compare(mem, p, len, compat)
                  else if ReadOn(mem, p, compat) then Stray else Overrun
      decreases |mem| - p
    {
      if p == |mem| {
        return Overrun;
      }
      var step := StrLen(mem, p) + 1;
      if CString(mem, p) == compat {
        return if wrapped then Stray else Yes;
      }
      wrapped := wrapped || step > len;
      p, len := p + step, if step <= len then len - step else len + P64 - step;
    }
    return No;
  }

  /** Strings one after the other, each with its NUL. */
  function Joined(ss: seq<seq<Byte>>): seq<Byte> { if ss == [] then [] else ss[0] + [0] + Joined(ss[1..]) }

  predicate NulFree(ss: seq<seq<Byte>>) { ss == [] || (0 !in ss[0] && NulFree(ss[1..])) }

  lemma StringAt(mem: seq<Byte>, p: nat, s: seq<Byte>)
    requires mem != [] && mem[|mem| - 1] == 0 && p + |s| < |mem|
    requires mem[p..p + |s|] == s && mem[p + |s|] == 0 && 0 !in s
    ensures StrLen(mem, p) == |s| && CString(mem, p) == s
  {
    FirstNul(mem, p);
    assert forall i :: 0 <= i < |s| ==> mem[p + i] == mem[p..p + |s|][i] && s[i] in s;
  }

  /** A string, its NUL, and what follows. */
  lemma StringThen(mem: seq<Byte>, p: nat, s: seq<Byte>, more: seq<Byte>)
    requires mem != [] && mem[|mem| - 1] == 0 && 0 !in s
    requires p + |s| + 1 + |more| <= |mem| && mem[p..p + |s| + 1 + |more|] == s + [0] + more
    ensures StrLen(mem, p) == |s| && CString(mem, p) == s
    ensures mem[p + |s| + 1..p + |s| + 1 + |more|] == more
  {
    var all := mem[p..p + |s| + 1 + |more|];
    assert all[..|s|] == mem[p..p + |s|] == s;
    assert all[|s|] == mem[p + |s|] == 0;
    assert all[|s| + 1..] == mem[p + |s| + 1..p + |s| + 1 + |more|] == more;
    StringAt(mem, p, s);
  }

  /** On a list of NUL-terminated strings the loop decides membership, and never overruns. */
  lemma {:induction false} CompareIsMembership(mem: seq<Byte>, p: nat, ss: seq<seq<Byte>>, compat: seq<Byte>)
    requires mem != [] && mem[|mem| - 1] == 0 && NulFree(ss)
    requires p + |Joined(ss)| <= |mem| && mem[p..p + |Joined(ss)|] == Joined(ss)
    ensures Compare(mem, p, |Joined(ss)|, compat) == if compat in ss then Yes else No
    decreases |ss|
  {
    if ss != [] {
      var s, more := ss[0], Joined(ss[1..]);
      StringThen(mem, p, s, more);
      CompareIsMembership(mem, p + |s| + 1, ss[1..], compat);
    }
  }

  /** One of the strings that start inside the value; the last of them may run on past its end. */
  ghost predicate HasString(mem: seq<Byte>, p: nat, len: nat, s: seq<Byte>)
    requires mem != [] && mem[|mem| - 1] == 0 && p + len <= |mem|
  {
    exists q: nat :: p <= q < p + len && StringFrom(mem, p, q, s)
  }

  predicate StringFrom(mem: seq<Byte>, p: nat, q: nat, s: seq<Byte>)
    requires mem != [] && mem[|mem| - 1] == 0 && q < |mem|
  {
    (q == p || (q > 0 && mem[q - 1] == 0)) && CString(mem, q) == s
  }

  predicate Unterminated(mem: seq<Byte>, p: nat, len: nat)
    requires p + len <= |mem|
  {
    len > 0 && mem[p + len - 1] != 0
  }

  lemma NotInside(mem: seq<Byte>, p: nat, q: nat, s: seq<Byte>)
    requires mem != [] && mem[|mem| - 1] == 0 && p <= q < |mem| && CString(mem, p) != s && StringFrom(mem, p, q, s)
    ensures p + StrLen(mem, p) < q && mem[q - 1] == 0
  {
    FirstNul(mem, p);
    assert q != p;
  }

  /** No string starts between the first one and its NUL. */
  lemma OneStringOn(mem: seq<Byte>, p: nat, len: nat, s: seq<Byte>)
    requires mem != [] && mem[|mem| - 1] == 0 && p + len <= |mem| && 0 < len && CString(mem, p) != s
    ensures var step := StrLen(mem, p) + 1;
            HasString(mem, p, len, s) <==> step <= len && HasString(mem, p + step, len - step, s)
  {
    FirstNul(mem, p);
    var step := StrLen(mem, p) + 1;
    if HasString(mem, p, len, s) {
      var q: nat :| p <= q < p + len && StringFrom(mem, p, q, s);
      NotInside(mem, p, q, s);
      assert StringFrom(mem, p + step, q, s);
    }
    if step <= len && HasString(mem, p + step, len - step, s) {
      var q: nat :| p + step <= q < p + len && StringFrom(mem, p + step, q, s);
      assert StringFrom(mem, p, q, s);
    }
  }

  lemma {:induction false} ReadOnExactly(mem: seq<Byte>, p: nat, compat: seq<Byte>)
    requires mem != [] && mem[|mem| - 1] == 0 && p <= |mem|
    ensures ReadOn(mem, p, compat) <==> HasString(mem, p, |mem| - p, compat)
    decreases |mem| - p
  {
    if p < |mem| {
      if CString(mem, p) == compat {
        assert StringFrom(mem, p, p, compat);
      } else {
        OneStringOn(mem, p, |mem| - p, compat);
        ReadOnExactly(mem, p + StrLen(mem, p) + 1, compat);
      }
    }
  }

  /**
    What the loop finds out about any value: yes if one of its strings is the one looked for.
    Otherwise no if the value is empty or ends in a NUL; and if it does not, the loop runs on,
    to a stray match if any string behind the value is the one, and else out of memory.
   */
  lemma {:induction false} OverrunExactly(mem: seq<Byte>, p: nat, len: nat, compat: seq<Byte>)
    requires mem != [] && mem[|mem| - 1] == 0 && p + len <= |mem|
    ensures var v, found, behind := Compare(mem, p, len, compat), HasString(mem, p, len, compat),
                                    HasString(mem, p, |mem| - p, compat);
            && (v == Yes <==> found)
            && (v == No <==> !Unterminated(mem, p, len) && !found)
            && (v == Stray <==> Unterminated(mem, p, len) && !found && behind)
            && (v == Overrun <==> Unterminated(mem, p, len) && !behind)
    decreases len
  {
    if len > 0 {
      FirstNul(mem, p);
      var step := StrLen(mem, p) + 1;
      if CString(mem, p) == compat {
        assert StringFrom(mem, p, p, compat);
      } else {
        OneStringOn(mem, p, len, compat);
        OneStringOn(mem, p, |mem| - p, compat);
        if step <= len {
          OverrunExactly(mem, p + step, len - step, compat);
        } else {
          ReadOnExactly(mem, p + step, compat);
        }
      }
    }
  }

  /** One byte 'a' without a NUL: the loop goes on to the bytes behind it, and "" matches there. */
  lemma OverrunReadsOn()
    ensures Compare([0x61, 0, 0, 0], 0, 1, []) == Stray
  {
    var mem: seq<Byte> := [0x61, 0, 0, 0];
    assert StrLen(mem, 1) == 0 && StrLen(mem, 2) == 0;
    assert StrLen(mem, 0) == 1;
    assert |CString(mem, 0)| == 1 && CString(mem, 2) == [];
  }

  /** `fdt_node_is_compatible`. */
  function Compatible(f: Fdt, node: nat, compat: seq<Byte>): Verdict
    requires Sound(f, node, COMPATIBLE)
  {
    match PropOf(f, node, COMPATIBLE)
    case None => No
    case Some(q) => Compare(f.mem, q + 12, f.Be32(q + 4), compat)
  }

  method NodeIsCompatible(f: Fdt, node: nat, compat: seq<Byte>) returns (v: Verdict)
    requires Sound(f, node, COMPATIBLE)
    ensures v == Compatible(f, node, compat)
  {
    var prop := GetPropByName(f, node, None, COMPATIBLE);
    if prop.None? {
      return No;
    }
    v := CompareLoop(f.mem, prop.value + 12, f.Be32(prop.value + 4), compat);
  }

  // ----- searches

  /** "device_type" equals the string, with or without its NUL. */
  predicate OfType(f: Fdt, node: nat, kind: seq<Byte>)
    requires Sound(f, node, DEVICE_TYPE)
  {
    match PropOf(f, node, DEVICE_TYPE)
    case None => false
    case Some(q) => Value(f, q) == kind || Value(f, q) == kind + [0]
  }

  /** All nodes of that device type along a walk, in order. */
  function Typed(f: Fdt, vs: seq<Visit>, kind: seq<Byte>): seq<nat>
    requires AllSound(f, vs, DEVICE_TYPE)
  {
    if vs == [] then []
    else (if OfType(f, vs[0].pos, kind) then [vs[0].pos] else []) + Typed(f, vs[1..], kind)
  }

  /** `memcmp` of as many bytes as the property has, once the lengths are compatible. */
  lemma TypeTest(val: seq<Byte>, kind: seq<Byte>)
    ensures ((|val| == |kind| + 1 || |val| == |kind|) && (kind + [0])[..|val|] == val) <==>
            (val == kind || val == kind + [0])
  {
    assert (kind + [0])[..|kind|] == kind;
    assert (kind + [0])[..|kind| + 1] == kind + [0];
  }

  /** Where a search begins: at the first node, or right after `start`. */
  method SearchFrom(f: Fdt, start: Option<nat>, ghost vs: seq<Visit>) returns (node: Option<nat>)
    requires f.Readable()
    requires if start.Some? then Walks(f, start.value, vs) else vs == Visits(f)
    ensures var todo := if start.Some? then vs[1..] else vs;
            if node.Some? then Walks(f, node.value, todo) else todo == []
  {
    if start.Some? {
      var next, _ := NextNode(f, start.value, 0, vs);
      return next;
    }
    node := NodeBegin(f);
    if node.Some? { ScanStep(f, node.value, [], 0); }
  }

  /** A result is the first node of the type, and `rest` the walk from there, where the search can be resumed. */
  ghost predicate FirstTyped(f: Fdt, vs: seq<Visit>, kind: seq<Byte>, r: Option<nat>, rest: seq<Visit>)
    requires AllSound(f, vs, DEVICE_TYPE)
  {
    match r
    case None => Typed(f, vs, kind) == []
    case Some(p) => Walks(f, p, rest) && |rest| <= |vs| && AllSound(f, rest, DEVICE_TYPE)
                    && Typed(f, vs, kind) == [p] + Typed(f, rest[1..], kind)
  }

  /** The search loop of `fdt_find_node_by_device_type`, from a node on. */
  method SeekType(f: Fdt, from: Option<nat>, kind: seq<Byte>, ghost vs: seq<Visit>)
    returns (r: Option<nat>, ghost rest: seq<Visit>)
    requires if from.Some? then Walks(f, from.value, vs) else vs == []
    requires AllSound(f, vs, DEVICE_TYPE)
    ensures FirstTyped(f, vs, kind, r, rest)
  {
    var node := from;
    rest := vs;
    while node.Some?
      invariant if node.Some? then Walks(f, node.value, rest) else rest == []
      invariant |rest| <= |vs| && AllSound(f, rest, DEVICE_TYPE) && Typed(f, vs, kind) == Typed(f, rest, kind)
      decreases |rest|
    {
      var prop := GetPropByName(f, node.value, None, DEVICE_TYPE);
      if prop.Some? {
        var val := Value(f, prop.value);
        TypeTest(val, kind);
        if |val| == |kind| + 1 || |val| == |kind| {
          if (kind + [0])[..|val|] == val {
            return node, rest;
          }
        }
      }
      var next, _ := NextNode(f, node.value, 0, rest);
      node, rest := next, rest[1..];
    }
    r := None;
  }

  /** `fdt_find_node_by_device_type`: the first node of the type, or the first after `start`. */
  method FindNodeByType(f: Fdt, start: Option<nat>, kind: seq<Byte>, ghost vs: seq<Visit>)
    returns (r: Option<nat>, ghost rest: seq<Visit>)
    requires f.Readable() && AllSound(f, vs, DEVICE_TYPE)
    requires if start.Some? then Walks(f, start.value, vs) else vs == Visits(f)
    ensures var all := Typed(f, if start.Some? then vs[1..] else vs, kind);
            r == if all == [] then None else Some(all[0])
    ensures FirstTyped(f, if start.Some? then vs[1..] else vs, kind, r, rest)
  {
    var node := SearchFrom(f, start, vs);
    r, rest := SeekType(f, node, kind, if start.Some? then vs[1..] else vs);
  }

  /** The enumeration of `fdt_boot_mem_init`, resuming until nothing is left, finds all memory nodes. */
  method MemoryNodes(f: Fdt) returns (nodes: seq<nat>)
    requires f.Readable() && AllSound(f, Visits(f), DEVICE_TYPE)
    ensures nodes == Typed(f, Visits(f), MEMORY)
  {
    ghost var all := Typed(f, Visits(f), MEMORY);
    var node, rest := FindNodeByType(f, None, MEMORY, Visits(f));
    nodes := [];
    while node.Some?
      invariant node.Some? ==> Walks(f, node.value, rest) && AllSound(f, rest, DEVICE_TYPE)
      invariant all == nodes + if node.Some? then [node.value] + Typed(f, rest[1..], MEMORY) else []
      decreases if node.Some? then |rest| else 0
    {
      nodes := nodes + [node.value];
      assert all == nodes + Typed(f, rest[1..], MEMORY);
      node, rest := FindNodeByType(f, node, MEMORY, rest);
    }
  }

  /** All nodes along a walk that are reported as compatible with the string, in order. */
  function CompatibleNodes(f: Fdt, vs: seq<Visit>, compat: seq<Byte>): seq<nat>
    requires AllSound(f, vs, COMPATIBLE)
  {
    if vs == [] then []
    else (if Compatible(f, vs[0].pos, compat).True() then [vs[0].pos] else []) + CompatibleNodes(f, vs[1..], compat)
  }

  datatype Search = At(pos: nat) | NoMore | Overruns(pos: nat)

  /** The first node that is reported compatible, or at which memory is left, decides the search. */
  function SearchCompatible(f: Fdt, vs: seq<Visit>, compat: seq<Byte>): Search
    requires AllSound(f, vs, COMPATIBLE)
  {
    if vs == [] then NoMore
    else
      match Compatible(f, vs[0].pos, compat)
      case Yes => At(vs[0].pos)
      case Stray => At(vs[0].pos)
      case Overrun => Overruns(vs[0].pos)
      case No => SearchCompatible(f, vs[1..], compat)
  }

  /** After a result: where the search can be resumed, and what is still to be found from there. */
  ghost predicate Resumes(f: Fdt, vs: seq<Visit>, compat: seq<Byte>, p: nat, rest: seq<Visit>)
    requires AllSound(f, vs, COMPATIBLE)
  {
    && Walks(f, p, rest) && |rest| <= |vs| && AllSound(f, rest, COMPATIBLE)
    && CompatibleNodes(f, vs, compat) == [p] + CompatibleNodes(f, rest[1..], compat)
  }

  method SeekCompatible(f: Fdt, from: Option<nat>, compat: seq<Byte>, ghost vs: seq<Visit>)
    returns (r: Search, ghost rest: seq<Visit>)
    requires if from.Some? then Walks(f, from.value, vs) else vs == []
    requires AllSound(f, vs, COMPATIBLE)
    ensures r == SearchCompatible(f, vs, compat)
    ensures r.At? ==> Resumes(f, vs, compat, r.pos, rest)
  {
    var node := from;
    rest := vs;
    while node.Some?
      invariant if node.Some? then Walks(f, node.value, rest) else rest == []
      invariant |rest| <= |vs| && AllSound(f, rest, COMPATIBLE)
      invariant CompatibleNodes(f, vs, compat) == CompatibleNodes(f, rest, compat)
      invariant SearchCompatible(f, vs, compat) == SearchCompatible(f, rest, compat)
      decreases |rest|
    {
      var v := NodeIsCompatible(f, node.value, compat);
      if v == Overrun {
        return Overruns(node.value), rest;
      }
      if v.True() {
        return At(node.value), rest;
      }
      var next, _ := NextNode(f, node.value, 0, rest);
      node, rest := next, rest[1..];
    }
    r := NoMore;
  }

  /**
    `fdt_find_compatible_node`: without a start the search begins at the first node, otherwise
    right after the start.  The first node reported compatible there is the result, and the
    remaining ones are those a search resumed at it will find, unless memory is left before.
   */
  method FindCompatibleNode(f: Fdt, start: Option<nat>, compat: seq<Byte>, ghost vs: seq<Visit>)
    returns (r: Search, ghost rest: seq<Visit>)
    requires f.Readable() && AllSound(f, vs, COMPATIBLE)
    requires if start.Some? then Walks(f, start.value, vs) else vs == Visits(f)
    ensures r == SearchCompatible(f, if start.Some? then vs[1..] else vs, compat)
    ensures r.At? ==> Resumes(f, if start.Some? then vs[1..] else vs, compat, r.pos, rest)
  {
    var node := SearchFrom(f, start, vs);
    r, rest := SeekCompatible(f, node, compat, if start.Some? then vs[1..] else vs);
  }

  // ----- what decides a search, in terms of the property values along the walk

  /** The node has no "compatible" value, or one that is empty or ends in a NUL and lacks the string. */
  ghost predicate Lacks(f: Fdt, node: nat, compat: seq<Byte>) {
    && Sound(f, node, COMPATIBLE)
    && match PropOf(f, node, COMPATIBLE)
       case None => true
       case Some(q) => !Unterminated(f.mem, q + 12, f.Be32(q + 4)) && !HasString(f.mem, q + 12, f.Be32(q + 4), compat)
  }

  /** Its value does not end in a NUL, and the string is nowhere from there to the end of memory. */
  ghost predicate RunsOff(f: Fdt, node: nat, compat: seq<Byte>) {
    && Sound(f, node, COMPATIBLE)
    && match PropOf(f, node, COMPATIBLE)
       case None => false
       case Some(q) => && Unterminated(f.mem, q + 12, f.Be32(q + 4))
                       && !HasString(f.mem, q + 12, |f.mem| - (q + 12), compat)
  }

  lemma VerdictExactly(f: Fdt, node: nat, compat: seq<Byte>)
    requires Sound(f, node, COMPATIBLE)
    ensures Compatible(f, node, compat) == No <==> Lacks(f, node, compat)
    ensures Compatible(f, node, compat) == Overrun <==> RunsOff(f, node, compat)
  {
    var q := PropOf(f, node, COMPATIBLE);
    if q.Some? { OverrunExactly(f.mem, q.value + 12, f.Be32(q.value + 4), compat); }
  }

  /** Visit `i` is the first whose node does not simply lack the string. */
  ghost predicate DecidesAt(f: Fdt, vs: seq<Visit>, compat: seq<Byte>, i: nat) {
    i < |vs| && !Lacks(f, vs[i].pos, compat) && forall j :: 0 <= j < i ==> Lacks(f, vs[j].pos, compat)
  }

  lemma DecidesLater(f: Fdt, vs: seq<Visit>, compat: seq<Byte>, i: nat)
    requires vs != []
    ensures DecidesAt(f, vs, compat, i + 1) <==> Lacks(f, vs[0].pos, compat) && DecidesAt(f, vs[1..], compat, i)
  {
    assert forall j :: 0 <= j < |vs[1..]| ==> vs[1..][j] == vs[j + 1];
    if DecidesAt(f, vs, compat, i + 1) {
      forall j | 0 <= j < i ensures Lacks(f, vs[1..][j].pos, compat) {
        assert Lacks(f, vs[j + 1].pos, compat);
      }
    }
    if Lacks(f, vs[0].pos, compat) && DecidesAt(f, vs[1..], compat, i) {
      forall j | 0 <= j < i + 1 ensures Lacks(f, vs[j].pos, compat) {
        assert j == 0 || vs[1..][j - 1] == vs[j];
      }
    }
  }

  /** That visit decides the search: memory is left there, or the node is the result. */
  lemma {:induction false} FirstDecides(f: Fdt, vs: seq<Visit>, compat: seq<Byte>, i: nat)
    requires AllSound(f, vs, COMPATIBLE) && DecidesAt(f, vs, compat, i)
    ensures SearchCompatible(f, vs, compat) ==
              if RunsOff(f, vs[i].pos, compat) then Overruns(vs[i].pos) else At(vs[i].pos)
  {
    VerdictExactly(f, vs[0].pos, compat);
    if i > 0 {
      DecidesLater(f, vs, compat, i - 1);
      FirstDecides(f, vs[1..], compat, i - 1);
    }
  }

  lemma {:induction false} SomeDecides(f: Fdt, vs: seq<Visit>, compat: seq<Byte>)
    requires AllSound(f, vs, COMPATIBLE)
    ensures SearchCompatible(f, vs, compat) != NoMore <==> exists i: nat :: DecidesAt(f, vs, compat, i)
  {
    if vs != [] {
      VerdictExactly(f, vs[0].pos, compat);
      SomeDecides(f, vs[1..], compat);
      if !Lacks(f, vs[0].pos, compat) { assert DecidesAt(f, vs, compat, 0); }
      if i: nat :| DecidesAt(f, vs, compat, i) {
        if i > 0 { DecidesLater(f, vs, compat, i - 1); }
      }
      if i: nat :| DecidesAt(f, vs[1..], compat, i) { DecidesLater(f, vs, compat, i); }
    }
  }

  /**
    The search leaves memory exactly if the first "compatible" value along the walk that does
    not simply lack the string has no final NUL and no such string anywhere behind it.
   */
  lemma SearchOverrunsExactly(f: Fdt, vs: seq<Visit>, compat: seq<Byte>)
    requires AllSound(f, vs, COMPATIBLE)
    ensures SearchCompatible(f, vs, compat).Overruns? <==>
              exists i: nat :: DecidesAt(f, vs, compat, i) && RunsOff(f, vs[i].pos, compat)
  {
    SomeDecides(f, vs, compat);
    forall i: nat | DecidesAt(f, vs, compat, i)
      ensures SearchCompatible(f, vs, compat).Overruns? <==> RunsOff(f, vs[i].pos, compat)
    {
      FirstDecides(f, vs, compat, i);
    }
  }

  /** No comparison along the walk leaves memory. */
  predicate NoOverrun(f: Fdt, vs: seq<Visit>, compat: seq<Byte>)
    requires AllSound(f, vs, COMPATIBLE)
  {
    vs == [] || (Compatible(f, vs[0].pos, compat) != Overrun && NoOverrun(f, vs[1..], compat))
  }

  /** Then the search finds the first node reported compatible, and nothing only if there is none. */
  lemma {:induction false} SearchFindsFirst(f: Fdt, vs: seq<Visit>, compat: seq<Byte>)
    requires AllSound(f, vs, COMPATIBLE) && NoOverrun(f, vs, compat)
    ensures var all := CompatibleNodes(f, vs, compat);
            SearchCompatible(f, vs, compat) == if all == [] then NoMore else At(all[0])
  {
    if vs != [] { SearchFindsFirst(f, vs[1..], compat); }
  }

  // ----- phandles

  datatype Found = Here(pos: nat) | Nowhere | Hangs

  /** `fdt_prop_num_cells`. */
  function NumCells(f: Fdt, q: nat): nat
    requires IsProp(f, q)
  {
    f.Be32(q + 4) / 4
  }

  predicate Malformed(f: Fdt, node: nat) {
    IsNode(f, node) && var q := PropOf(f, node, PHANDLE); q.Some? && NumCells(f, q.value) != 1
  }

  /** A phandle of one cell lies in memory; of any other nothing but the length is looked at. */
  predicate CellSound(f: Fdt, node: nat) {
    && IsNode(f, node)
    && var q := PropOf(f, node, PHANDLE);
       q.Some? && NumCells(f, q.value) == 1 ==> q.value + 16 <= |f.mem|
  }

  predicate AllCellSound(f: Fdt, vs: seq<Visit>) { vs == [] || (CellSound(f, vs[0].pos) && AllCellSound(f, vs[1..])) }

  lemma {:induction false} SoundCells(f: Fdt, vs: seq<Visit>)
    requires AllSound(f, vs, PHANDLE)
    ensures AllCellSound(f, vs)
  {
    if vs != [] { SoundCells(f, vs[1..]); }
  }

  predicate HasPhandle(f: Fdt, node: nat, phandle: nat) {
    && CellSound(f, node)
    && var q := PropOf(f, node, PHANDLE);
       q.Some? && NumCells(f, q.value) == 1 && f.Be32(q.value + 12) == phandle
  }

  /** The length and the cell of a property as the bytes say them, whatever the host. */
  predicate CellBytes(mem: seq<Byte>, q: nat, x: nat)
    requires q + 12 <= |mem|
  {
    && 4 <= Big32(mem[q + 4], mem[q + 5], mem[q + 6], mem[q + 7]) < 8
    && q + 16 <= |mem| && Big32(mem[q + 12], mem[q + 13], mem[q + 14], mem[q + 15]) == x
  }

  /** A node has a phandle exactly if it has the property, with a value of 4 to 7 bytes that starts with that cell. */
  lemma PhandleExactly(f: Fdt, little: bool, node: nat, phandle: nat)
    requires f.ReadBy(little) && CellSound(f, node)
    ensures var q := PropOf(f, node, PHANDLE);
            && (HasPhandle(f, node, phandle) <==> q.Some? && CellBytes(f.mem, q.value, phandle))
            && (Malformed(f, node) <==>
                  q.Some? && var m, p := f.mem, q.value; !(4 <= Big32(m[p + 4], m[p + 5], m[p + 6], m[p + 7]) < 8))
  {
    var q := PropOf(f, node, PHANDLE);
    if q.Some? {
      HostReads(f, little, q.value + 4);
      if q.value + 16 <= |f.mem| { HostReads(f, little, q.value + 12); }
    }
  }

  /** The first node that has the phandle or a malformed one decides the search. */
  function SearchPhandle(f: Fdt, vs: seq<Visit>, phandle: nat): Found {
    if vs == [] then Nowhere
    else if Malformed(f, vs[0].pos) then Hangs
    else if HasPhandle(f, vs[0].pos, phandle) then Here(vs[0].pos)
    else SearchPhandle(f, vs[1..], phandle)
  }

  /** What one node means for the search: found, stuck, or go on. */
  method CheckPhandle(f: Fdt, node: nat, phandle: nat) returns (r: Found)
    requires CellSound(f, node)
    ensures r == if Malformed(f, node) then Hangs else if HasPhandle(f, node, phandle) then Here(node) else Nowhere
  {
    var prop := GetPropByName(f, node, None, PHANDLE);
    if prop.Some? {
      if NumCells(f, prop.value) != 1 {
        return Hangs;
      }
      if f.Be32(prop.value + 12) == phandle {
        return Here(node);
      }
    }
    return Nowhere;
  }

  /** The search loop of `fdt_find_node_by_phandle`, from a node on. */
  method SeekPhandle(f: Fdt, from: Option<nat>, phandle: nat, ghost vs: seq<Visit>) returns (r: Found)
    requires if from.Some? then Walks(f, from.value, vs) else vs == []
    requires AllCellSound(f, vs)
    ensures r == SearchPhandle(f, vs, phandle)
  {
    var node := from;
    ghost var rest := vs;
    while node.Some?
      invariant if node.Some? then Walks(f, node.value, rest) else rest == []
      invariant AllCellSound(f, rest)
      invariant SearchPhandle(f, vs, phandle) == SearchPhandle(f, rest, phandle)
      decreases |rest|
    {
      var here := CheckPhandle(f, node.value, phandle);
      if here != Nowhere {
        return here;
      }
      var next, _ := NextNode(f, node.value, 0, rest);
      node, rest := next, rest[1..];
    }
    return Nowhere;
  }

  /**
    `fdt_find_node_by_phandle`.  A "phandle" that is not one cell makes the loop `continue`
    without advancing: the same node is looked at for ever.
   */
  method FindNodeByPhandle(f: Fdt, start: Option<nat>, phandle: nat, ghost vs: seq<Visit>) returns (r: Found)
    requires f.Readable() && AllCellSound(f, vs)
    requires if start.Some? then Walks(f, start.value, vs) else vs == Visits(f)
    ensures r == SearchPhandle(f, if start.Some? then vs[1..] else vs, phandle)
  {
    var node := SearchFrom(f, start, vs);
    r := SeekPhandle(f, node, phandle, if start.Some? then vs[1..] else vs);
  }

  /** Visit `i` is the first that has the phandle or a malformed one. */
  ghost predicate EndsSearchAt(f: Fdt, vs: seq<Visit>, phandle: nat, i: nat) {
    && i < |vs| && (Malformed(f, vs[i].pos) || HasPhandle(f, vs[i].pos, phandle))
    && forall j :: 0 <= j < i ==> !Malformed(f, vs[j].pos) && !HasPhandle(f, vs[j].pos, phandle)
  }

  /** The search finds `p` exactly if that is the first node with the phandle and none before it is malformed. */
  lemma {:induction false} FoundExactly(f: Fdt, vs: seq<Visit>, phandle: nat, p: nat)
    ensures SearchPhandle(f, vs, phandle) == Here(p) <==>
              exists i: nat :: EndsSearchAt(f, vs, phandle, i) && vs[i].pos == p && HasPhandle(f, p, phandle)
  {
    if vs != [] {
      var tail := vs[1..];
      FoundExactly(f, tail, phandle, p);
      assert forall j :: 0 <= j < |tail| ==> tail[j] == vs[j + 1];
      if Malformed(f, vs[0].pos) || HasPhandle(f, vs[0].pos, phandle) {
        assert EndsSearchAt(f, vs, phandle, 0);
        assert forall i: nat :: EndsSearchAt(f, vs, phandle, i) ==> i == 0;
      } else {
        EndsLater(f, vs, phandle);
      }
    }
  }

  lemma EndsLater(f: Fdt, vs: seq<Visit>, phandle: nat)
    requires vs != [] && !Malformed(f, vs[0].pos) && !HasPhandle(f, vs[0].pos, phandle)
    ensures forall i: nat :: EndsSearchAt(f, vs[1..], phandle, i) ==> EndsSearchAt(f, vs, phandle, i + 1)
    ensures forall i: nat :: EndsSearchAt(f, vs, phandle, i) ==> i > 0 && EndsSearchAt(f, vs[1..], phandle, i - 1)
  {
    var tail := vs[1..];
    assert forall j :: 0 <= j < |tail| ==> tail[j] == vs[j + 1];
    forall i: nat | EndsSearchAt(f, tail, phandle, i) ensures EndsSearchAt(f, vs, phandle, i + 1) {
      forall j | 0 <= j < i + 1 ensures !Malformed(f, vs[j].pos) && !HasPhandle(f, vs[j].pos, phandle) {
        assert j == 0 || tail[j - 1] == vs[j];
      }
    }
  }

  /** Visit `i` has a malformed phandle, and none before it has the one looked for. */
  ghost predicate HangsAt(f: Fdt, vs: seq<Visit>, phandle: nat, i: nat) {
    i < |vs| && Malformed(f, vs[i].pos) && forall j :: 0 <= j < i ==> !HasPhandle(f, vs[j].pos, phandle)
  }

  lemma HangsLater(f: Fdt, vs: seq<Visit>, phandle: nat, i: nat)
    requires vs != []
    ensures HangsAt(f, vs, phandle, i + 1) <==> !HasPhandle(f, vs[0].pos, phandle) && HangsAt(f, vs[1..], phandle, i)
  {
    assert forall j :: 0 <= j < |vs[1..]| ==> vs[1..][j] == vs[j + 1];
    if !HasPhandle(f, vs[0].pos, phandle) && HangsAt(f, vs[1..], phandle, i) {
      forall j | 0 <= j < i + 1 ensures !HasPhandle(f, vs[j].pos, phandle) {
        assert j == 0 || vs[1..][j - 1] == vs[j];
      }
    }
  }

  /**
    The search hangs exactly if some node has a malformed phandle and no node before it has
    the one looked for.
   */
  lemma {:induction false} HangsExactly(f: Fdt, vs: seq<Visit>, phandle: nat)
    ensures SearchPhandle(f, vs, phandle) == Hangs <==> exists i: nat :: HangsAt(f, vs, phandle, i)
  {
    if vs != [] {
      HangsExactly(f, vs[1..], phandle);
      if Malformed(f, vs[0].pos) { assert HangsAt(f, vs, phandle, 0); }
      if i: nat :| HangsAt(f, vs, phandle, i) {
        if i > 0 { HangsLater(f, vs, phandle, i - 1); }
      }
      if i: nat :| HangsAt(f, vs[1..], phandle, i) { HangsLater(f, vs, phandle, i); }
    }
  }
}
