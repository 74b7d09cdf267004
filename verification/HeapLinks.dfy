/**
 The shape of the pointer heap of heap-inl.h, on values: `nodes` lists the tree in
 level order, `mem` holds the three links of every node. Each structural edit the
 C code makes is a change of `mem`; the lemmas show that the edited memory links
 exactly the edited level order.
 */
module HeapLinks {
  import opened Nodes
  import opened Sequences

  datatype Links = Links(left: Node?, right: Node?, parent: Node?)
  type Memory = map<Node, Links>

  function Up(i: nat): nat { if i == 0 then 0 else (i - 1) / 2 }

  ghost function Child(nodes: seq<Node>, j: nat): Node? { if j < |nodes| then nodes[j] else null }

  ghost function LinksAt(nodes: seq<Node>, i: nat): Links {
    Links(Child(nodes, 2 * i + 1), Child(nodes, 2 * i + 2), if i == 0 then null else Child(nodes, Up(i)))
  }

  ghost predicate Linked(nodes: seq<Node>, mem: Memory) {
    && Distinct(nodes)
    && forall i :: 0 <= i < |nodes| ==> nodes[i] in mem && mem[nodes[i]] == LinksAt(nodes, i)
  }

  ghost function Read(x: Node): Links
    reads x`left, x`right, x`parent
  {
    Links(x.left, x.right, x.parent)
  }

  ghost function Snapshot(S: set<Node>): (m: Memory)
    reads S`left, S`right, S`parent
    ensures m.Keys == S
  {
    map x | x in S :: Read(x)
  }

  /** What heap_node_swap leaves in node x, before the link from above is changed ... */
  ghost function FamilyLinks(mem: Memory, parent: Node, child: Node, x: Node): Links
    requires parent in mem && child in mem && x in mem
  {
    var p, c := mem[parent], mem[child];
    var onLeft := p.left == child;
    var sibling := if onLeft then p.right else p.left;
    if x == parent then Links(c.left, c.right, child)
    else if x == child then
      Links(if onLeft then parent else p.left, if onLeft then p.right else parent, p.parent)
    else if x == sibling then mem[x].(parent := child)
    else if x == c.left || x == c.right then mem[x].(parent := parent)
    else mem[x]
  }

  /** ... and after. */
  ghost function SwappedLinks(mem: Memory, parent: Node, child: Node, x: Node): Links
    requires parent in mem && child in mem && x in mem
  {
    var r := FamilyLinks(mem, parent, child, x);
    if x == mem[parent].parent then
      if mem[x].left == parent then r.(left := child) else r.(right := child)
    else r
  }

  ghost function SwappedMemory(mem: Memory, parent: Node, child: Node): Memory
    requires parent in mem && child in mem
  {
    map x | x in mem :: SwappedLinks(mem, parent, child, x)
  }

  ghost function Swapped(nodes: seq<Node>, j: nat): seq<Node>
    requires 0 < j < |nodes|
  {
    nodes[Up(j) := nodes[j]][j := nodes[Up(j)]]
  }

  lemma UpDown(j: nat)
    requires j > 0
    ensures Up(j) < j && (j == 2 * Up(j) + 1 || j == 2 * Up(j) + 2)
  {
  }

  lemma ChildIs(nodes: seq<Node>, a: nat, b: nat)
    requires Distinct(nodes) && b < |nodes|
    ensures Child(nodes, a) == nodes[b] <==> a == b
  {
  }

  /** The two nodes that change places. */
  lemma SwapEnds(nodes: seq<Node>, mem: Memory, j: nat)
    requires Linked(nodes, mem) && 0 < j < |nodes|
    ensures SwappedLinks(mem, nodes[Up(j)], nodes[j], nodes[j]) == LinksAt(Swapped(nodes, j), Up(j))
    ensures SwappedLinks(mem, nodes[Up(j)], nodes[j], nodes[Up(j)]) == LinksAt(Swapped(nodes, j), j)
  {
    hide Linked, Distinct;
    var i := Up(j);
    UpDown(j);
    LinksOf(nodes, mem, i);
    LinksOf(nodes, mem, j);
    ChildIs(nodes, 2 * i + 1, j);
    ChildIs(nodes, i, j);
  }

  lemma LinksOf(nodes: seq<Node>, mem: Memory, k: nat)
    requires Linked(nodes, mem) && k < |nodes|
    ensures Distinct(nodes) && nodes[k] in mem && mem[nodes[k]] == LinksAt(nodes, k)
  {
  }

  /** Every other node, by its place: as seen from the new sequence ... */
  lemma LinksAfterSwap(nodes: seq<Node>, j: nat, k: nat)
    requires 0 < j < |nodes| && k < |nodes| && k != j && k != Up(j)
    ensures var i := Up(j);
      LinksAt(Swapped(nodes, j), k) ==
        if k > 0 && Up(k) == i then LinksAt(nodes, k).(parent := nodes[j])
        else if k > 0 && Up(k) == j then LinksAt(nodes, k).(parent := nodes[i])
        else if 2 * k + 1 == i then LinksAt(nodes, k).(left := nodes[j])
        else if 2 * k + 2 == i then LinksAt(nodes, k).(right := nodes[j])
        else LinksAt(nodes, k)
  {
    UpDown(j);
    if k > 0 { UpDown(k); }
  }

  /** ... and as the code writes them. */
  lemma LinksWritten(nodes: seq<Node>, mem: Memory, j: nat, k: nat)
    requires Linked(nodes, mem) && 0 < j < |nodes| && k < |nodes| && k != j && k != Up(j)
    ensures var i := Up(j);
      SwappedLinks(mem, nodes[i], nodes[j], nodes[k]) ==
        if k > 0 && Up(k) == i then LinksAt(nodes, k).(parent := nodes[j])
        else if k > 0 && Up(k) == j then LinksAt(nodes, k).(parent := nodes[i])
        else if 2 * k + 1 == i then LinksAt(nodes, k).(left := nodes[j])
        else if 2 * k + 2 == i then LinksAt(nodes, k).(right := nodes[j])
        else LinksAt(nodes, k)
  {
    hide Linked, Distinct;
    var i := Up(j);
    UpDown(j);
    LinksOf(nodes, mem, i);
    LinksOf(nodes, mem, j);
    LinksOf(nodes, mem, k);
    ChildIs(nodes, i, k);
    ChildIs(nodes, j, k);
    ChildIs(nodes, 2 * i + 1, j);
    ChildIs(nodes, 2 * i + 1, k);
    ChildIs(nodes, 2 * i + 2, k);
    ChildIs(nodes, 2 * j + 1, k);
    ChildIs(nodes, 2 * j + 2, k);
    ChildIs(nodes, Up(i), k);
    ChildIs(nodes, 2 * k + 1, i);
    if k > 0 { UpDown(k); }
    if i > 0 { UpDown(i); }
  }

  lemma SwapLinked(nodes: seq<Node>, mem: Memory, j: nat)
    requires Linked(nodes, mem) && 0 < j < |nodes|
    ensures Linked(Swapped(nodes, j), SwappedMemory(mem, nodes[Up(j)], nodes[j]))
  {
    hide SwappedLinks, LinksAt;
    var mem' := SwappedMemory(mem, nodes[Up(j)], nodes[j]);
    var nodes' := Swapped(nodes, j);
    forall k | 0 <= k < |nodes'| ensures nodes'[k] in mem' && mem'[nodes'[k]] == LinksAt(nodes', k) {
      if k == j || k == Up(j) {
        SwapEnds(nodes, mem, j);
      } else {
        LinksAfterSwap(nodes, j, k);
        LinksWritten(nodes, mem, j, k);
      }
    }
  }

  // ----- hanging a new last node below its parent

  function Appended(r: Links, n: nat, k: nat, x: Node?): Links {
    if n == 2 * k + 1 then r.(left := x) else if n == 2 * k + 2 then r.(right := x) else r
  }

  lemma LinksAfterAppend(nodes: seq<Node>, x: Node, k: nat)
    requires k < |nodes|
    ensures LinksAt(nodes + [x], k) == Appended(LinksAt(nodes, k), |nodes|, k, x)
  {
    if k > 0 { UpDown(k); }
  }

  lemma AppendLinked(nodes: seq<Node>, mem: Memory, x: Node, mem': Memory)
    requires Linked(nodes, mem) && x !in nodes && x in mem'
    requires forall k :: 0 <= k < |nodes| ==>
      nodes[k] in mem' && mem'[nodes[k]] == Appended(mem[nodes[k]], |nodes|, k, x)
    requires mem'[x] == Links(null, null, if |nodes| == 0 then null else Child(nodes, Up(|nodes|)))
    ensures Linked(nodes + [x], mem')
  {
    hide LinksAt, Appended;
    var t := nodes + [x];
    forall k | 0 <= k < |t| ensures t[k] in mem' && mem'[t[k]] == LinksAt(t, k) {
      if k < |nodes| {
        LinksAfterAppend(nodes, x, k);
      } else {
        LinksOfLast(nodes, x);
      }
    }
  }

  lemma LinksOfLast(nodes: seq<Node>, x: Node)
    ensures LinksAt(nodes + [x], |nodes|)
         == Links(null, null, if |nodes| == 0 then null else Child(nodes, Up(|nodes|)))
  {
    if |nodes| > 0 { UpDown(|nodes|); }
  }

  // ----- cutting the last node off

  lemma LinksAfterDrop(nodes: seq<Node>, k: nat)
    requires k < |nodes| - 1
    ensures LinksAt(nodes[..|nodes| - 1], k) == Appended(LinksAt(nodes, k), |nodes| - 1, k, null)
  {
    if k > 0 { UpDown(k); }
  }

  lemma DropLinked(nodes: seq<Node>, mem: Memory, mem': Memory)
    requires Linked(nodes, mem) && nodes != []
    requires forall k :: 0 <= k < |nodes| - 1 ==>
      nodes[k] in mem' && mem'[nodes[k]] == Appended(mem[nodes[k]], |nodes| - 1, k, null)
    ensures Linked(nodes[..|nodes| - 1], mem')
  {
    hide LinksAt, Appended;
    var t := nodes[..|nodes| - 1];
    forall k | 0 <= k < |t| ensures t[k] in mem' && mem'[t[k]] == LinksAt(t, k) {
      LinksAfterDrop(nodes, k);
    }
  }

  // ----- putting a node in the place of another

  function Replaced(r: Links, i: nat, k: nat, x: Node): Links {
    if k == 2 * i + 1 || k == 2 * i + 2 then r.(parent := x)
    else if 2 * k + 1 == i then r.(left := x)
    else if 2 * k + 2 == i then r.(right := x)
    else r
  }

  lemma LinksAfterReplace(nodes: seq<Node>, i: nat, x: Node, k: nat)
    requires i < |nodes| && k < |nodes|
    ensures LinksAt(nodes[i := x], k) == if k == i then LinksAt(nodes, k) else Replaced(LinksAt(nodes, k), i, k, x)
  {
    if k > 0 { UpDown(k); }
    if i > 0 { UpDown(i); }
  }

  lemma ReplaceLinked(nodes: seq<Node>, mem: Memory, i: nat, x: Node, mem': Memory)
    requires Linked(nodes, mem) && i < |nodes| && x !in nodes && x in mem'
    requires mem'[x] == mem[nodes[i]]
    requires forall k :: 0 <= k < |nodes| && k != i ==>
      nodes[k] in mem' && mem'[nodes[k]] == Replaced(mem[nodes[k]], i, k, x)
    ensures Linked(nodes[i := x], mem')
  {
    hide LinksAt, Replaced;
    var t := nodes[i := x];
    forall k | 0 <= k < |t| ensures t[k] in mem' && mem'[t[k]] == LinksAt(t, k) {
      LinksAfterReplace(nodes, i, x, k);
    }
  }
}
