/** The scaffold in which expat collects the content of an element declaration, node by
    node (expat/xmlparse.c:6047-6093), and the flat model it is repacked into
    (expat/xmlparse.c:6095-6152): what they encode. */
module ContentScaffold {
  import opened ContentModel

  datatype PartType = NamePart | GroupPart(kind: GroupKind)

  /** CONTENT_SCAFFOLD; index 0 stands for no part in the links. */
  datatype Part = Part(kind: PartType, quant: Quant, name: string,
                       firstchild: nat, lastchild: nat, childcnt: nat, nextsib: nat)

  /** The number of parts of a node. */
  function Size(n: Node): (r: nat)
    ensures r >= 1
    decreases n
  {
    if n.Leaf? then 1 else 1 + SizeAll(n.children)
  }

  function SizeAll(nodes: seq<Node>): (r: nat)
    ensures r >= |nodes|
    decreases nodes
  {
    if nodes == [] then 0 else Size(nodes[0]) + SizeAll(nodes[1..])
  }

  lemma {:induction false} SizeSnoc(nodes: seq<Node>, n: Node)
    ensures SizeAll(nodes + [n]) == SizeAll(nodes) + Size(n)
    decreases |nodes|
  {
    if nodes == [] {
      assert nodes + [n] == [n];
    } else {
      SizeSnoc(nodes[1..], n);
      assert (nodes + [n])[1..] == nodes[1..] + [n];
    }
  }

  // ----- complete nodes

  /** `sc` holds the node `n` at `k`, its descendants right behind it in document order. */
  ghost predicate HasNode(sc: seq<Part>, k: nat, n: Node)
    decreases n
  {
    && k + Size(n) <= |sc|
    && sc[k].quant == n.quant
    && match n
       case Leaf(name, _) => sc[k].kind == NamePart && sc[k].name == name
       case Group(kind, _, children) =>
         && sc[k].kind == GroupPart(kind)
         && sc[k].childcnt == |children|
         && sc[k].firstchild == (if children == [] then 0 else k + 1)
         && HasNodes(sc, k + 1, children, 0)
  }

  /** Siblings from `k` on, chained by `nextsib`; the last one points to `next`. */
  ghost predicate HasNodes(sc: seq<Part>, k: nat, nodes: seq<Node>, next: nat)
    decreases nodes
  {
    nodes == [] ||
    (&& HasNode(sc, k, nodes[0])
     && sc[k].nextsib == (if |nodes| == 1 then next else k + Size(nodes[0]))
     && HasNodes(sc, k + Size(nodes[0]), nodes[1..], next))
  }

  /** Where the last of the siblings from `k` on starts. */
  function LastStart(k: nat, nodes: seq<Node>): (at: nat)
    requires nodes != []
    ensures k <= at < k + SizeAll(nodes)
    ensures |nodes| > 1 ==> k + Size(nodes[0]) <= at
    decreases |nodes|
  {
    if |nodes| == 1 then k else LastStart(k + Size(nodes[0]), nodes[1..])
  }

  /** A node's own link is not part of what it encodes. */
  lemma {:induction false} NodeSame(sc: seq<Part>, tc: seq<Part>, k: nat, n: Node)
    requires HasNode(sc, k, n) && k + Size(n) <= |tc|
    requires forall j | k < j < k + Size(n) :: tc[j] == sc[j]
    requires tc[k] == sc[k].(nextsib := tc[k].nextsib)
    ensures HasNode(tc, k, n)
    decreases n, 1
  {
    if n.Group? {
      NodesSame(sc, tc, k + 1, n.children, 0, 0);
    }
  }

  /** A chain of siblings whose last link is moved from `from` to `to`. */
  lemma {:induction false} NodesSame(sc: seq<Part>, tc: seq<Part>, k: nat, nodes: seq<Node>, from: nat, to: nat)
    requires HasNodes(sc, k, nodes, from) && k + SizeAll(nodes) <= |tc| && k + SizeAll(nodes) <= |sc|
    requires forall j | k <= j < k + SizeAll(nodes) :: tc[j] == sc[j] ||
               (j == LastStart(k, nodes) && tc[j] == sc[j].(nextsib := to))
    requires nodes != [] && from != to ==> tc[LastStart(k, nodes)].nextsib == to
    ensures HasNodes(tc, k, nodes, to)
    decreases nodes, 0
  {
    if nodes != [] {
      NodeSame(sc, tc, k, nodes[0]);
      NodesSame(sc, tc, k + Size(nodes[0]), nodes[1..], from, to);
    }
  }

  lemma {:induction false} LastStartSnoc(k: nat, nodes: seq<Node>, n: Node)
    ensures LastStart(k, nodes + [n]) == k + SizeAll(nodes)
    decreases |nodes|
  {
    if nodes != [] {
      LastStartSnoc(k + Size(nodes[0]), nodes[1..], n);
      assert (nodes + [n])[1..] == nodes[1..] + [n];
    }
  }

  /** One more sibling at the end of the chain. */
  lemma {:induction false} NodesSnoc(sc: seq<Part>, k: nat, nodes: seq<Node>, n: Node)
    requires HasNodes(sc, k, nodes, k + SizeAll(nodes))
    requires HasNode(sc, k + SizeAll(nodes), n) && sc[k + SizeAll(nodes)].nextsib == 0
    ensures HasNodes(sc, k, nodes + [n], 0)
    decreases |nodes|
  {
    if nodes == [] {
      assert nodes + [n] == [n];
    } else {
      NodesSnoc(sc, k + Size(nodes[0]), nodes[1..], n);
      assert (nodes + [n])[1..] == nodes[1..] + [n];
    }
  }

  /** The chain leads from the first sibling to every one, in order. */
  lemma {:induction false} NodesAt(sc: seq<Part>, k: nat, nodes: seq<Node>, next: nat, j: nat)
    requires HasNodes(sc, k, nodes, next) && j < |nodes|
    ensures var at := k + SizeAll(nodes[..j]);
            HasNode(sc, at, nodes[j]) && (j + 1 < |nodes| ==> sc[at].nextsib == k + SizeAll(nodes[..j + 1]))
    decreases j
  {
    assert j + 1 <= |nodes|;
    if j == 0 {
      assert nodes[..1] == [nodes[0]] && [nodes[0]][1..] == [];
      assert nodes[..0] == [];
    } else {
      NodesAt(sc, k + Size(nodes[0]), nodes[1..], next, j - 1);
      assert nodes[1..][..j - 1] == nodes[..j][1..];
      if j + 1 < |nodes| {
        assert nodes[1..][..j] == nodes[..j + 1][1..];
      }
    }
  }

  // ----- open groups

  /** The part at `p` is an open group with these complete children, and with one more
      child at `end` that is not complete if `inner`. */
  ghost predicate OpenPart(sc: seq<Part>, p: nat, children: seq<Node>, inner: bool, end: nat) {
    && p < |sc|
    && sc[p].nextsib == 0
    && sc[p].childcnt == |children| + (if inner then 1 else 0)
    && sc[p].firstchild == (if children == [] && !inner then 0 else p + 1)
    && sc[p].lastchild == (if inner then end else if children == [] then 0 else LastStart(p + 1, children))
    && HasNodes(sc, p + 1, children, if inner then end else 0)
  }

  /** The parts below `end` are those of the open groups, which start at `idx`. */
  ghost predicate Stack(sc: seq<Part>, idx: seq<nat>, frames: seq<Frame>, end: nat, inner: bool)
    decreases |frames|
  {
    && |idx| == |frames|
    && end <= |sc|
    && if frames == [] then end == 0
       else
         var k := |frames| - 1;
         && end == idx[k] + 1 + SizeAll(frames[k].children)
         && OpenPart(sc, idx[k], frames[k].children, inner, end)
         && Stack(sc, idx[..k], frames[..k], idx[k], true)
  }

  /** The type of an open group follows its connector. */
  ghost predicate Types(sc: seq<Part>, idx: seq<nat>, frames: seq<Frame>) {
    |idx| == |frames| &&
    forall i | 0 <= i < |frames| :: idx[i] < |sc| && sc[idx[i]].kind == GroupPart(Kind(frames[i]))
  }

  lemma {:induction false} StackSame(sc: seq<Part>, tc: seq<Part>, idx: seq<nat>, frames: seq<Frame>, end: nat)
    requires Stack(sc, idx, frames, end, true) && end <= |tc|
    requires forall j | 0 <= j < end :: tc[j] == sc[j]
    ensures Stack(tc, idx, frames, end, true)
    decreases |frames|
  {
    if frames != [] {
      var k := |frames| - 1;
      NodesSame(sc, tc, idx[k] + 1, frames[k].children, end, end);
      StackSame(sc, tc, idx[..k], frames[..k], idx[k]);
    }
  }

  lemma {:induction false} StackBelow(sc: seq<Part>, idx: seq<nat>, frames: seq<Frame>, end: nat, inner: bool)
    requires Stack(sc, idx, frames, end, inner)
    ensures forall i | 0 <= i < |frames| :: idx[i] < end
    ensures forall i, j | 0 <= i < j < |frames| :: idx[i] < idx[j]
    decreases |frames|
  {
    if frames != [] {
      var k := |frames| - 1;
      StackBelow(sc, idx[..k], frames[..k], idx[k], true);
      forall i | 0 <= i < k
        ensures idx[i] < idx[k]
      {
        assert idx[i] == idx[..k][i];
      }
      forall i, j | 0 <= i < j < k
        ensures idx[i] < idx[j]
      {
        assert idx[i] == idx[..k][i] && idx[j] == idx[..k][j];
      }
    }
  }

  /** The new part's links in its parent at `p`: the effect of `nextScaffoldPart`. */
  function Linked(sc: seq<Part>, p: nat): (tc: seq<Part>)
    requires p < |sc| && sc[p].lastchild < |sc|
    ensures |tc| == |sc|
  {
    var next, last := |sc|, sc[p].lastchild;
    var chained := if last != 0 then sc[last := sc[last].(nextsib := next)] else sc;
    var parent := chained[p];
    chained[p := parent.(firstchild := if parent.childcnt == 0 then next else parent.firstchild,
                         lastchild := next, childcnt := parent.childcnt + 1)]
  }

  predicate Blank(part: Part) {
    part.firstchild == 0 && part.lastchild == 0 && part.childcnt == 0 && part.nextsib == 0
  }

  /** A part that starts a group: the stack has one more, empty, open group. */
  lemma PushPart(sc: seq<Part>, idx: seq<nat>, frames: seq<Frame>, part: Part, f: Frame)
    requires Stack(sc, idx, frames, |sc|, false) && Blank(part) && f.children == []
    ensures frames != [] ==> idx[|idx| - 1] < |sc| && sc[idx[|idx| - 1]].lastchild < |sc|
    ensures var tc := (if frames == [] then sc else Linked(sc, idx[|idx| - 1])) + [part];
            Stack(tc, idx + [|sc|], frames + [f], |tc|, false)
  {
    var k := |frames| - 1;
    if frames == [] {
      assert (idx + [|sc|])[..0] == [] && (frames + [f])[..0] == [];
    } else {
      var p, children := idx[k], frames[k].children;
      var tc := Linked(sc, p) + [part];
      NodesSame(sc, tc, p + 1, children, 0, |sc|);
      StackSame(sc, tc, idx[..k], frames[..k], p);
      assert (idx + [|sc|])[..k + 1] == idx && (frames + [f])[..k + 1] == frames;
    }
  }

  /** The innermost group complete: it is a child of the one around it. */
  lemma CompletePart(sc: seq<Part>, idx: seq<nat>, frames: seq<Frame>, n: Node)
    requires |frames| > 1 && Stack(sc, idx, frames, |sc|, false)
    requires var p := idx[|frames| - 1]; HasNode(sc, p, n) && p + Size(n) == |sc|
    ensures var k := |frames| - 2;
            var f := frames[k].(children := frames[k].children + [n]);
            Stack(sc, idx[..k + 1], frames[..k] + [f], |sc|, false)
  {
    var k := |frames| - 2;
    var outer, p, q := frames[..k + 1], idx[k + 1], idx[k];
    var children := frames[k].children;
    assert outer[k] == frames[k] && idx[..k + 1][k] == q;
    NodesSnoc(sc, q + 1, children, n);
    LastStartSnoc(q + 1, children, n);
    SizeSnoc(children, n);
    assert outer[..k] == frames[..k] && idx[..k + 1][..k] == idx[..k];
    assert (frames[..k] + [frames[k].(children := children + [n])])[..k] == frames[..k];
  }

  /** Another type, quantifier or name for the innermost group. */
  lemma Retype(sc: seq<Part>, tc: seq<Part>, idx: seq<nat>, frames: seq<Frame>, part: Part)
    requires frames != [] && Stack(sc, idx, frames, |sc|, false)
    requires var p := idx[|frames| - 1];
             part == sc[p].(kind := part.kind, quant := part.quant, name := part.name) && tc == sc[p := part]
    ensures Stack(tc, idx, frames, |tc|, false)
  {
    var k := |frames| - 1;
    NodesSame(sc, tc, idx[k] + 1, frames[k].children, 0, 0);
    StackSame(sc, tc, idx[..k], frames[..k], idx[k]);
  }

  /** The innermost group, once it has its quantifier. */
  lemma GroupNode(sc: seq<Part>, idx: seq<nat>, frames: seq<Frame>, q: Quant)
    requires frames != [] && Stack(sc, idx, frames, |sc|, false)
    requires var p := idx[|frames| - 1];
             sc[p].kind == GroupPart(Kind(frames[|frames| - 1])) && sc[p].quant == q
    ensures var f, p := frames[|frames| - 1], idx[|frames| - 1];
            var n := Group(Kind(f), q, f.children);
            HasNode(sc, p, n) && p + Size(n) == |sc|
  {
  }

  /** The string space the names of a node take, each with its terminator. */
  function NameLen(n: Node): nat
    decreases n
  {
    if n.Leaf? then |n.name| + 1 else NameLenAll(n.children)
  }

  function NameLenAll(nodes: seq<Node>): nat
    decreases nodes
  {
    if nodes == [] then 0 else NameLen(nodes[0]) + NameLenAll(nodes[1..])
  }

  function NamesLen(frames: seq<Frame>): nat {
    if frames == [] then 0
    else NamesLen(frames[..|frames| - 1]) + NameLenAll(frames[|frames| - 1].children)
  }

  lemma {:induction false} NameLenSnoc(nodes: seq<Node>, n: Node)
    ensures NameLenAll(nodes + [n]) == NameLenAll(nodes) + NameLen(n)
    decreases |nodes|
  {
    if nodes == [] {
      assert nodes + [n] == [n];
    } else {
      NameLenSnoc(nodes[1..], n);
      assert (nodes + [n])[1..] == nodes[1..] + [n];
    }
  }

  // ----- the flat model

  /** XML_Content: `children` is the slot of the first child, `name` an offset into the
      string space. */
  datatype Rec = Rec(kind: PartType, quant: Quant, name: nat, numchildren: nat, children: nat)

  /** The model holds `n` in slot `i`, its descendants in the slots from `c` on and its
      names in the string space from `st` on. */
  ghost predicate Packed(nodes: seq<Rec>, strings: seq<char>, i: nat, c: nat, st: nat, n: Node)
    decreases n
  {
    && i < |nodes| && nodes[i].quant == n.quant
    && match n
       case Leaf(name, _) =>
         && nodes[i].kind == NamePart && nodes[i].name == st && nodes[i].numchildren == 0
         && st + |name| + 1 <= |strings| && strings[st..st + |name| + 1] == name + ['\0']
       case Group(kind, _, children) =>
         && nodes[i].kind == GroupPart(kind) && nodes[i].numchildren == |children| && nodes[i].children == c
         && PackedAll(nodes, strings, c, c + |children|, st, children)
  }

  /** Siblings in consecutive slots, their descendants and names each behind the last. */
  ghost predicate PackedAll(nodes: seq<Rec>, strings: seq<char>, i: nat, c: nat, st: nat, siblings: seq<Node>)
    decreases siblings
  {
    siblings == [] ||
    (&& Packed(nodes, strings, i, c, st, siblings[0])
     && PackedAll(nodes, strings, i + 1, c + Size(siblings[0]) - 1, st + NameLen(siblings[0]), siblings[1..]))
  }

  /** A packed node depends only on its own slots and names. */
  lemma {:induction false} PackedSame(nodes: seq<Rec>, nodes': seq<Rec>, strings: seq<char>, strings': seq<char>,
                                      i: nat, c: nat, st: nat, n: Node)
    requires Packed(nodes, strings, i, c, st, n)
    requires |nodes'| == |nodes| && |strings'| == |strings|
    requires i < |nodes| && nodes'[i] == nodes[i]
    requires forall j | c <= j < c + Size(n) - 1 && j < |nodes| :: nodes'[j] == nodes[j]
    requires forall j | st <= j < st + NameLen(n) && j < |strings| :: strings'[j] == strings[j]
    ensures Packed(nodes', strings', i, c, st, n)
    decreases n, 1
  {
    match n
    case Leaf(name, _) =>
      assert strings'[st..st + |name| + 1] == strings[st..st + |name| + 1];
    case Group(_, _, children) =>
      PackedAllSame(nodes, nodes', strings, strings', c, c + |children|, st, children);
  }

  lemma {:induction false} PackedAllSame(nodes: seq<Rec>, nodes': seq<Rec>, strings: seq<char>, strings': seq<char>,
                                         i: nat, c: nat, st: nat, siblings: seq<Node>)
    requires PackedAll(nodes, strings, i, c, st, siblings)
    requires |nodes'| == |nodes| && |strings'| == |strings|
    requires forall j | i <= j < i + |siblings| && j < |nodes| :: nodes'[j] == nodes[j]
    requires forall j | c <= j < c + SizeAll(siblings) - |siblings| && j < |nodes| :: nodes'[j] == nodes[j]
    requires forall j | st <= j < st + NameLenAll(siblings) && j < |strings| :: strings'[j] == strings[j]
    ensures PackedAll(nodes', strings', i, c, st, siblings)
    decreases siblings, 0
  {
    if siblings != [] {
      PackedSame(nodes, nodes', strings, strings', i, c, st, siblings[0]);
      PackedAllSame(nodes, nodes', strings, strings', i + 1,
        c + Size(siblings[0]) - 1, st + NameLen(siblings[0]), siblings[1..]);
    }
  }

  lemma {:induction false} PackedSnoc(nodes: seq<Rec>, strings: seq<char>, i: nat, c: nat, st: nat,
                                      siblings: seq<Node>, n: Node)
    requires PackedAll(nodes, strings, i, c, st, siblings)
    requires Packed(nodes, strings, i + |siblings|, c + SizeAll(siblings) - |siblings|, st + NameLenAll(siblings), n)
    ensures PackedAll(nodes, strings, i, c, st, siblings + [n])
    decreases |siblings|
  {
    if siblings == [] {
      assert siblings + [n] == [n];
    } else {
      PackedSnoc(nodes, strings, i + 1, c + Size(siblings[0]) - 1, st + NameLen(siblings[0]), siblings[1..], n);
      assert (siblings + [n])[1..] == siblings[1..] + [n];
    }
  }

  lemma NameRead(strings: seq<char>, st: nat, name: string)
    requires st + |name| + 1 <= |strings| && strings[st..st + |name| + 1] == name + ['\0']
    ensures strings[st + |name|] == '\0' && forall k | 0 <= k < |name| :: strings[st + k] == name[k]
  {
    var s := strings[st..st + |name| + 1];
    assert s[|name|] == strings[st + |name|];
    assert forall k | 0 <= k < |name| :: s[k] == strings[st + k];
  }

  /** A model that is packed for two nodes is packed for one: the flat form determines
      the tree, if no name contains its terminator. */
  lemma {:induction false} PackedInjective(nodes: seq<Rec>, strings: seq<char>, i: nat, c: nat, st: nat, n: Node, m: Node)
    requires Packed(nodes, strings, i, c, st, n) && Packed(nodes, strings, i, c, st, m)
    requires Terminated(n) && Terminated(m)
    ensures n == m
    decreases n, 1
  {
    if n.Leaf? {
      NameRead(strings, st, n.name);
      NameRead(strings, st, m.name);
      assert forall k | 0 <= k < |n.name| :: n.name[k] in n.name;
      assert forall k | 0 <= k < |m.name| :: m.name[k] in m.name;
      assert |n.name| == |m.name|;
    } else {
      PackedAllInjective(nodes, strings, c, c + |n.children|, st, n.children, m.children);
    }
  }

  /** Names without the string terminator. */
  predicate Terminated(n: Node)
    decreases n
  {
    if n.Leaf? then '\0' !in n.name else forall c | c in n.children :: Terminated(c)
  }

  lemma {:induction false} PackedAllInjective(nodes: seq<Rec>, strings: seq<char>, i: nat, c: nat, st: nat,
                                              a: seq<Node>, b: seq<Node>)
    requires PackedAll(nodes, strings, i, c, st, a) && PackedAll(nodes, strings, i, c, st, b) && |a| == |b|
    requires (forall n | n in a :: Terminated(n)) && (forall n | n in b :: Terminated(n))
    ensures a == b
    decreases a, 0
  {
    if a != [] {
      PackedInjective(nodes, strings, i, c, st, a[0], b[0]);
      PackedAllInjective(nodes, strings, i + 1, c + Size(a[0]) - 1, st + NameLen(a[0]), a[1..], b[1..]);
      assert a == [a[0]] + a[1..] && b == [b[0]] + b[1..];
    }
  }
}
