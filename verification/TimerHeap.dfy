/**
 The intrusive binary heap of heap-inl.h as the timers use it: real pointers,
 rewritten in place, with the level order as a ghost sequence.
 */
module TimerHeap {
  import opened Nodes
  import opened Sequences
  import opened HeapLinks
  import opened HeapOrder

  ghost predicate OneOf(x: Node?, S: set<Node>) { x == null || x in S }

  /** The family around a parent and its child are different nodes, all in S. */
  ghost predicate SwapReady(mem: Memory, parent: Node, child: Node)
  {
    && parent in mem && child in mem && parent != child
    && var p, c := mem[parent], mem[child];
    && (p.left == child || p.right == child) && p.left != p.right
    && var sibling := if p.left == child then p.right else p.left;
    && OneOf(sibling, mem.Keys) && OneOf(c.left, mem.Keys) && OneOf(c.right, mem.Keys) && OneOf(p.parent, mem.Keys)
    && sibling != parent
    && (c.left != null ==> c.left != parent && c.left != child && c.left != sibling && c.left != p.parent && c.left != c.right)
    && (c.right != null ==> c.right != parent && c.right != child && c.right != sibling && c.right != p.parent)
    && (p.parent != null ==> p.parent != parent && p.parent != child && p.parent != sibling)
  }

  lemma FamilyTable(mem: Memory, parent: Node, child: Node, x: Node, r: Links)
    requires SwapReady(mem, parent, child) && x in mem
    requires var p, c := mem[parent], mem[child];
      var sibling := if p.left == child then p.right else p.left;
      && (x == parent ==> r == Links(c.left, c.right, child))
      && (x == child ==> r == Links(if p.left == child then parent else p.left, if p.left == child then p.right else parent, p.parent))
      && (x == sibling ==> r == mem[x].(parent := child))
      && (x == c.left || x == c.right ==> r == mem[x].(parent := parent))
      && (x != parent && x != child && x != sibling && x != c.left && x != c.right ==> r == mem[x])
    ensures r == FamilyLinks(mem, parent, child, x)
  {
  }

  ghost function KeyOf(x: Node): Key
    reads x`timeout, x`startId
  {
    Key(x.timeout, x.startId)
  }

  ghost function Keys(nodes: seq<Node>): (ks: seq<Key>)
    reads (set x | x in nodes)`timeout, (set x | x in nodes)`startId
    ensures |ks| == |nodes| && forall i :: 0 <= i < |ks| ==> ks[i] == KeyOf(nodes[i])
  {
    if nodes == [] then [] else Keys(nodes[..|nodes| - 1]) + [KeyOf(nodes[|nodes| - 1])]
  }

  /** A `struct heap_node**`: the root pointer or one of the child pointers of a node. */
  datatype Slot = Root | LeftOf(x: Node) | RightOf(x: Node)

  ghost function SlotAt(nodes: seq<Node>, pos: nat): Slot
    requires 1 <= pos <= |nodes| + 1
  {
    if pos == 1 then Root
    else if pos % 2 == 0 then LeftOf(nodes[pos / 2 - 1]) else RightOf(nodes[pos / 2 - 1])
  }

  class Heap {
    var min: Node?
    var nelts: nat

    static ghost function Just(x: Node?): set<Node> { if x == null then {} else {x} }

    /** The struct assignments, and the link between the two nodes turned round. */
    static method Exchange(parent: Node, child: Node) returns (sibling: Node?)
      requires parent != child && (parent.left == child || parent.right == child) && parent.left != parent.right
      modifies {parent, child}`left, {parent, child}`right, {parent, child}`parent
      ensures Read(parent) == old(Links(child.left, child.right, child))
      ensures old(parent.left == child) ==>
        Read(child) == old(Links(parent, parent.right, parent.parent)) && sibling == old(parent.right)
      ensures old(parent.left != child) ==>
        Read(child) == old(Links(parent.left, parent, parent.parent)) && sibling == old(parent.left)
    {
      var l, r, p := parent.left, parent.right, parent.parent;
      parent.left, parent.right, parent.parent := child.left, child.right, child.parent;
      child.left, child.right, child.parent := l, r, p;
      parent.parent := child;
      if child.left == child {
        child.left := parent;
        sibling := child.right;
      } else {
        child.right := parent;
        sibling := child.left;
      }
    }

    static method Adopt(x: Node?, p: Node)
      modifies Just(x)`parent
      ensures x != null ==> x.parent == p
    {
      if x != null {
        x.parent := p;
      }
    }

    /** Makes the link that pointed to `was` point to `now`. */
    method Repoint(up: Node?, was: Node, now: Node)
      modifies this`min, Just(up)`left, Just(up)`right
      ensures up == null ==> min == now
      ensures up != null ==> min == old(min)
      ensures up != null && old(up.left) == was ==> up.left == now && up.right == old(up.right)
      ensures up != null && old(up.left) != was ==> up.right == now && up.left == old(up.left)
    {
      if up == null {
        min := now;
      } else if up.left == was {
        up.left := now;
      } else {
        up.right := now;
      }
    }

    /** heap_node_swap up to the link from above. */
    static method ExchangeFamily(parent: Node, child: Node, ghost S: set<Node>)
      requires SwapReady(Snapshot(S), parent, child)
      modifies S`left, S`right, S`parent
      ensures forall x :: x in S ==> Read(x) == FamilyLinks(old(Snapshot(S)), parent, child, x)
    {
      hide FamilyLinks;
      ghost var mem := Snapshot(S);
      assert mem[parent] == Read(parent) && mem[child] == Read(child);
      ghost var p, c := Read(parent), Read(child);
      var sibling := Exchange(parent, child);
      Adopt(sibling, child);
      Adopt(parent.left, parent);
      Adopt(parent.right, parent);
      assert Read(parent) == Links(c.left, c.right, child);
      assert sibling != null ==> Read(sibling) == mem[sibling].(parent := child);
      forall x | x in S ensures Read(x) == FamilyLinks(mem, parent, child, x) {
        FamilyTable(mem, parent, child, x, Read(x));
      }
    }

    /** heap_node_swap */
    method SwapNodes(parent: Node, child: Node, ghost S: set<Node>)
      requires SwapReady(Snapshot(S), parent, child)
      modifies this`min, S`left, S`right, S`parent
      ensures forall x :: x in S ==> Read(x) == SwappedLinks(old(Snapshot(S)), parent, child, x)
      ensures min == if old(parent.parent) == null then child else old(min)
    {
      ghost var mem := Snapshot(S);
      assert mem[parent] == Read(parent) && mem[child] == Read(child);
      ExchangeFamily(parent, child, S);
      assert Read(child).parent == mem[parent].parent;
      Repoint(child.parent, parent, child);
    }

    /** heap_node_swap, as a change of all links at once. */
    method SwapMemory(parent: Node, child: Node, ghost S: set<Node>)
      requires SwapReady(Snapshot(S), parent, child)
      modifies this`min, S`left, S`right, S`parent
      ensures Snapshot(S) == SwappedMemory(old(Snapshot(S)), parent, child)
      ensures min == if old(parent.parent) == null then child else old(min)
    {
      hide SwappedLinks;
      ghost var mem := Snapshot(S);
      SwapNodes(parent, child, S);
      SnapshotIs(S, mem, parent, child);
    }

    ghost var nodes: seq<Node>

    /** heap_init */
    constructor ()
      ensures Valid() && nodes == []
    {
      min, nelts, nodes := null, 0, [];
    }

    /** The tree is complete: node number i of the level order hangs below node
        (i - 1) / 2, and parent and child links agree. */
    ghost predicate Shape()
      reads this, Elems(nodes)`left, Elems(nodes)`right, Elems(nodes)`parent
    {
      && Linked(nodes, Snapshot(Elems(nodes)))
      && min == Child(nodes, 0) && nelts == |nodes|
    }

    ghost predicate Valid()
      reads this, Elems(nodes)`left, Elems(nodes)`right, Elems(nodes)`parent
      reads Elems(nodes)`timeout, Elems(nodes)`startId
    {
      Shape() && Ordered(Keys(nodes))
    }

    method Swap(parent: Node, child: Node, ghost j: nat)
      requires Shape() && 0 < j < |nodes| && parent == nodes[Up(j)] && child == nodes[j]
      modifies this`min, this`nodes, Elems(nodes)`left, Elems(nodes)`right, Elems(nodes)`parent
      ensures Shape() && nodes == Swapped(old(nodes), j)
      ensures Elems(nodes) == old(Elems(nodes)) && Keys(nodes) == SwapAt(old(Keys(nodes)), j)
    {
      hide SwappedLinks, SwapReady, Linked, Keys, Swapped, SwapAt, Distinct;
      ghost var t, S := nodes, Elems(nodes);
      ghost var mem := Snapshot(S);
      SwappedElems(t, j);
      SwappedKeys(t, j);
      SwapIsReady(t, mem, j);
      LinksOf(t, mem, Up(j));
      SwappedRoot(t, j);
      nodes := Swapped(t, j);
      assert Keys(nodes) == old(SwapAt(Keys(t), j));
      SwapMemory(parent, child, S);
      SwapLinked(t, mem, j);
    }

    // ----- the walk from the root along the bits of a position

    /** The path loop shared by heap_insert and heap_remove: reading `path` from its
        low end leads from the root to level-order position n. It needs no more
        bits than n has. */
    static method PathTo(n: nat) returns (path: nat, k: nat)
      requires n >= 1
      ensures Walk(1, path, k) == n && path < n
    {
      var m := n;
      ghost var width := 1;
      path, k := 0, 0;
      while m >= 2
        invariant 1 <= m && Walk(m, path, k) == n
        invariant path < width && m * width <= n
      {
        HalfWidth(m, width);
        path, k, m := 2 * path + m % 2, k + 1, m / 2;
        width := 2 * width;
      }
    }

    function Deref(p: Slot): Node?
      reads this, (if p.Root? then {} else {p.x})
    {
      match p
      case Root => min
      case LeftOf(x) => x.left
      case RightOf(x) => x.right
    }

    method Assign(p: Slot, v: Node?)
      modifies this`min, Owner(p)`left, Owner(p)`right
      ensures p.Root? ==> min == v
      ensures p.LeftOf? ==> min == old(min) && p.x.left == v && p.x.right == old(p.x.right)
      ensures p.RightOf? ==> min == old(min) && p.x.right == v && p.x.left == old(p.x.left)
    {
      match p
      case Root => min := v;
      case LeftOf(x) => x.left := v;
      case RightOf(x) => x.right := v;
    }

    /** The traversal loop: the slot of position n and the slot above it. */
    method Follow(path0: nat, k0: nat, ghost n: nat) returns (parent: Slot, child: Slot)
      requires Shape() && Walk(1, path0, k0) == n && 1 <= n <= |nodes| + 1
      ensures child == SlotAt(nodes, n)
      ensures parent == SlotAt(nodes, if n == 1 then 1 else n / 2)
    {
      hide Linked, Deref, SlotAt, Walk, Child;
      FirstSlot(nodes);
      parent, child := Root, Root;
      var path, k := path0, k0;
      ghost var pos := 1;
      while k > 0
        invariant 1 <= pos <= n && Walk(pos, path, k) == n
        invariant child == SlotAt(nodes, pos)
        invariant parent == SlotAt(nodes, if pos == 1 then 1 else pos / 2)
      {
        WalkStep(pos, path, k);
        SlotHolds(pos);
        NextSlot(nodes, pos, path % 2);
        parent := child;
        var x := Deref(child);
        child := if path % 2 == 1 then RightOf(x) else LeftOf(x);
        pos := 2 * pos + path % 2;
        path, k := path / 2, k - 1;
      }
      WalkStep(pos, path, k);
    }

    lemma SlotHolds(pos: nat)
      requires Shape() && 1 <= pos <= |nodes| + 1
      ensures Deref(SlotAt(nodes, pos)) == Child(nodes, pos - 1)
    {
      hide Linked, Distinct;
      if pos > 1 {
        LinksOf(nodes, Snapshot(Elems(nodes)), pos / 2 - 1);
      }
    }

    // ----- sifting

    lemma HeldLinks(c: nat)
      requires Shape() && c < |nodes|
      ensures Read(nodes[c]) == LinksAt(nodes, c)
    {
      hide Linked;
      LinksOf(nodes, Snapshot(Elems(nodes)), c);
    }

    method SiftUp(node: Node, ghost c0: nat)
      requires Shape() && c0 < |nodes| && nodes[c0] == node && OrderedBelow(Keys(nodes), c0)
      modifies this`min, this`nodes, Elems(nodes)`left, Elems(nodes)`right, Elems(nodes)`parent
      ensures Valid() && Elems(nodes) == old(Elems(nodes)) && |nodes| == old(|nodes|)
    {
      hide Linked, Ordered, OrderedBelow, Keys, SwapAt, Distinct, Snapshot;
      ghost var c: nat := c0;
      HeldLinks(c);
      while node.parent != null && LessThan(node, node.parent)
        invariant Shape() && c < |nodes| && nodes[c] == node && OrderedBelow(Keys(nodes), c)
        invariant Elems(nodes) == old(Elems(nodes)) && |nodes| == old(|nodes|)
        invariant Read(node) == LinksAt(nodes, c)
        decreases c
      {
        UpDown(c);
        SiftUpStep(Keys(nodes), c);
        Swap(node.parent, node, c);
        c := Up(c);
        HeldLinks(c);
      }
      SiftUpStop(Keys(nodes), c);
    }

    /** The smaller of a node and its children, as heap_remove picks it. */
    method Smallest(x: Node, ghost c: nat) returns (s: Node, ghost j: nat)
      requires Shape() && c < |nodes| && nodes[c] == x
      ensures j < |nodes| && nodes[j] == s && (j == c <==> s == x)
      ensures s == x ==> forall k :: 0 < k < |nodes| && Up(k) == c ==> !Less(Keys(nodes)[k], Keys(nodes)[c])
      ensures s != x ==>
        && j > 0 && Up(j) == c && Less(Keys(nodes)[j], Keys(nodes)[c])
        && forall k :: 0 < k < |nodes| && Up(k) == c ==> !Less(Keys(nodes)[k], Keys(nodes)[j])
    {
      hide Linked, Keys;
      LinksOf(nodes, Snapshot(Elems(nodes)), c);
      s, j := x, c;
      if x.left != null && LessThan(x.left, s) {
        s, j := x.left, 2 * c + 1;
      }
      if x.right != null && LessThan(x.right, s) {
        s, j := x.right, 2 * c + 2;
      }
      forall k | 0 < k < |nodes| && Up(k) == c ensures k == 2 * c + 1 || k == 2 * c + 2 {
        UpDown(k);
      }
      ChildIs(nodes, j, c);
    }

    method SiftDown(node: Node, ghost c0: nat) returns (ghost c: nat)
      requires Shape() && c0 < |nodes| && nodes[c0] == node && OrderedAround(Keys(nodes), c0)
      modifies this`min, this`nodes, Elems(nodes)`left, Elems(nodes)`right, Elems(nodes)`parent
      ensures Shape() && Elems(nodes) == old(Elems(nodes)) && |nodes| == old(|nodes|)
      ensures c < |nodes| && nodes[c] == node && OrderedBelow(Keys(nodes), c)
    {
      hide Linked, OrderedBelow, OrderedAround, Keys, SwapAt;
      c := c0;
      while true
        invariant Shape() && c < |nodes| && nodes[c] == node && OrderedAround(Keys(nodes), c)
        invariant Elems(nodes) == old(Elems(nodes)) && |nodes| == old(|nodes|)
        decreases |nodes| - c
      {
        ghost var j;
        var smallest;
        smallest, j := Smallest(node, c);
        if smallest == node {
          SiftDownStop(Keys(nodes), c);
          return;
        }
        UpDown(j);
        SiftDownStep(Keys(nodes), c, j);
        Swap(node, smallest, j);
        c := j;
      }
    }

    // ----- insertion

    /** Writes v into a slot: what the nodes of S hold afterwards. */
    method Write(p: Slot, v: Node?, ghost S: set<Node>)
      requires Owner(p) <= S
      modifies this`min, S`left, S`right
      ensures min == if p.Root? then v else old(min)
      ensures Snapshot(S) == Written(old(Snapshot(S)), p, v)
    {
      ghost var mem := Snapshot(S);
      Assign(p, v);
      assert forall y :: y in S ==> Read(y) == Written(mem, p, v)[y];
    }

    method Attach(x: Node)
      requires Shape() && x !in nodes
      modifies this, Elems(nodes)`left, Elems(nodes)`right, x`left, x`right, x`parent
      ensures Shape() && nodes == old(nodes) + [x]
    {
      hide Linked, Snapshot, Written, Distinct, SlotAt;
      x.left, x.right, x.parent := null, null, null;
      var path, k := PathTo(1 + nelts);
      var parent, child := Follow(path, k, |nodes| + 1);
      HangAt(x, parent, child);
    }

    /** Links a cleared node to its parent and into its slot. */
    method HangAt(x: Node, parent: Slot, child: Slot)
      requires Shape() && x !in nodes && x.left == null && x.right == null && x.parent == null
      requires child == SlotAt(nodes, |nodes| + 1)
      requires parent == SlotAt(nodes, if |nodes| == 0 then 1 else (|nodes| + 1) / 2)
      modifies this, Elems(nodes)`left, Elems(nodes)`right, x`parent
      ensures Shape() && nodes == old(nodes) + [x]
    {
      hide Linked, Snapshot, Written, Distinct, SlotAt, Deref;
      ghost var t, S := nodes, Elems(nodes);
      ghost var mem := Snapshot(S);
      OwnerIn(t, |t| + 1);
      SlotHolds(if |t| == 0 then 1 else (|t| + 1) / 2);
      x.parent := Deref(parent);
      assert Read(x) == Links(null, null, if |t| == 0 then null else Child(t, Up(|t|)));
      nelts := nelts + 1;
      nodes := t + [x];
      Write(child, x, S);
      HungBelow(t, x, mem);
    }

    /** heap_insert: any node outside the heap is added; the tree stays complete,
        linked and ordered, and holds exactly one node more. */
    method Insert(newnode: Node)
      requires Valid() && newnode !in nodes
      modifies this, Elems(nodes)`left, Elems(nodes)`right, Elems(nodes)`parent
      modifies newnode`left, newnode`right, newnode`parent
      ensures Valid() && Elems(nodes) == old(Elems(nodes)) + {newnode} && nelts == old(nelts) + 1
    {
      hide Linked, Keys, Ordered, OrderedBelow;
      ghost var ks := Keys(nodes);
      ghost var t := nodes;
      KeysAppend(nodes, newnode);
      Attach(newnode);
      AppendBelow(ks, KeyOf(newnode));
      SiftUp(newnode, |nodes| - 1);
    }

    // ----- removal

    /** Cuts the last node of the level order off the tree. */
    method Detach() returns (child: Node)
      requires Shape() && nelts > 0
      modifies this, Elems(nodes)`left, Elems(nodes)`right
      ensures child == old(nodes)[|old(nodes)| - 1]
      ensures Shape() && nodes == old(nodes)[..|old(nodes)| - 1]
    {
      hide Linked, Snapshot, Written, Distinct, SlotAt;
      ghost var t, S := nodes, Elems(nodes);
      ghost var mem := Snapshot(S);
      OwnerIn(t, |t|);
      var path, k := PathTo(nelts);
      var parent, max := Follow(path, k, |t|);
      SlotHolds(|t|);
      nelts := nelts - 1;
      child := Deref(max);
      nodes := t[..|t| - 1];
      Write(max, null, S);
      CutOff(t, mem);
    }

    /** Puts a node that is in no tree in the place of another. */
    method Supplant(node: Node, child: Node, ghost i: nat)
      requires Shape() && i < |nodes| && nodes[i] == node && child !in nodes
      modifies this`min, this`nodes, Elems(nodes)`left, Elems(nodes)`right, Elems(nodes)`parent
      modifies child`left, child`right, child`parent
      ensures Shape() && nodes == old(nodes)[i := child]
    {
      hide Linked, SuppLinks;
      ghost var t, S := nodes, Elems(nodes);
      ghost var mem := Snapshot(S);
      SuppIsReady(t, mem, i);
      LinksOf(t, mem, i);
      nodes := t[i := child];
      Rewire(node, child, S);
      Supplanted(t, mem, i, child);
    }

    method Rewire(node: Node, child: Node, ghost S: set<Node>)
      requires child !in S && SuppReady(Snapshot(S), node)
      modifies this`min, S`left, S`right, S`parent, child`left, child`right, child`parent
      ensures Read(child) == old(Read(node))
      ensures forall y :: y in S ==> Read(y) == SuppLinks(old(Snapshot(S)), node, child, y)
      ensures min == if old(node.parent) == null then child else old(min)
    {
      hide SuppLinks;
      ghost var mem := Snapshot(S);
      assert mem[node] == Read(node);
      ghost var r := Read(node);
      child.left, child.right, child.parent := node.left, node.right, node.parent;
      Adopt(child.left, child);
      Adopt(child.right, child);
      Repoint(node.parent, node, child);
      forall y | y in S ensures Read(y) == SuppLinks(mem, node, child, y) {
        SuppTable(mem, node, child, y, Read(y));
      }
    }

    /** The replacement takes the node's place and moves down, then up, to its own. */
    method Resettle(node: Node, child: Node, ghost i: nat)
      requires Shape() && i < |nodes| && nodes[i] == node && child !in nodes
      requires OrderedAround(Keys(nodes)[i := KeyOf(child)], i)
      modifies this`min, this`nodes, Elems(nodes)`left, Elems(nodes)`right, Elems(nodes)`parent
      modifies child`left, child`right, child`parent
      ensures Valid() && Elems(nodes) == Elems(old(nodes)[i := child]) && |nodes| == old(|nodes|)
    {
      hide Linked, Keys, Ordered, OrderedAround, OrderedBelow;
      KeysReplace(nodes, i, child);
      Supplant(node, child, i);
      ghost var c := SiftDown(child, i);
      SiftUp(child, c);
    }

    /** heap_remove of any node: the tree stays complete, linked and ordered, and
        holds exactly the other nodes. Removing from an empty heap does nothing. */
    method Remove(node: Node?)
      requires Valid() && (nelts > 0 ==> node != null && node in nodes)
      modifies this, Elems(nodes)`left, Elems(nodes)`right, Elems(nodes)`parent
      ensures Valid() && Elems(nodes) == old(Elems(nodes)) - Just(node)
      ensures nelts == if old(nelts) == 0 then 0 else old(nelts) - 1
    {
      hide Linked, Keys, Ordered, Distinct, Snapshot;
      if nelts == 0 {
        return;
      }
      ghost var i :| 0 <= i < |nodes| && nodes[i] == node;
      RemoveAt(node, i);
    }

    method RemoveAt(node: Node, ghost i: nat)
      requires Valid() && i < |nodes| && nodes[i] == node
      modifies this, Elems(nodes)`left, Elems(nodes)`right, Elems(nodes)`parent
      ensures Valid() && Elems(nodes) == old(Elems(nodes)) - {node} && nelts == old(nelts) - 1
    {
      hide Linked, Keys, Ordered, OrderedAround, OrderedBelow, Distinct, Snapshot, LinksAt;
      ghost var t := nodes;
      KeysPrefix(t);
      LinksOf(t, Snapshot(Elems(t)), i);
      ElemsWithout(t, i);
      var child := Detach();
      if child == node {
        // The source also clears min when it equals child. It never does: cutting
        // the root off has already cleared it.
        assert child != min;
        return;
      }
      ReplaceAround(old(Keys(nodes)), i, KeyOf(child));
      Resettle(node, child, i);
    }

    /** heap_dequeue; an empty heap stays empty. */
    method Dequeue()
      requires Valid()
      modifies this, Elems(nodes)`left, Elems(nodes)`right, Elems(nodes)`parent
      ensures Valid() && Elems(nodes) == old(Elems(nodes) - Just(min))
      ensures nelts == if old(nelts) == 0 then 0 else old(nelts) - 1
    {
      hide Linked, Keys, Ordered, Distinct;
      assert nelts > 0 ==> min == nodes[0];
      Remove(min);
    }

    /** heap_min: null exactly for the empty heap, otherwise a least node. */
    lemma MinIsLeast()
      requires Valid()
      ensures min == null <==> Elems(nodes) == {}
      ensures min != null ==> min in Elems(nodes) && forall x :: x in Elems(nodes) ==>
        !LessThan(x, min) && (min.timeout < x.timeout || (min.timeout == x.timeout && min.startId <= x.startId))
    {
      if nodes != [] {
        assert nodes[0] in Elems(nodes);
        forall x | x in Elems(nodes) ensures !LessThan(x, min) {
          var k :| 0 <= k < |nodes| && nodes[k] == x;
          RootIsLeast(Keys(nodes), k);
        }
      }
    }
  }

  lemma SnapshotIs(S: set<Node>, mem: Memory, parent: Node, child: Node)
    requires parent in mem && child in mem && mem.Keys == S
    requires forall x :: x in S ==> Read(x) == SwappedLinks(mem, parent, child, x)
    ensures Snapshot(S) == SwappedMemory(mem, parent, child)
  {
    hide SwappedLinks;
  }

  lemma KeysPrefix(nodes: seq<Node>)
    requires nodes != [] && Ordered(Keys(nodes))
    ensures Keys(nodes[..|nodes| - 1]) == Keys(nodes)[..|nodes| - 1]
    ensures Ordered(Keys(nodes[..|nodes| - 1]))
  {
    hide Ordered;
    var t := nodes[..|nodes| - 1];
    assert Keys(nodes) == Keys(t) + [KeyOf(nodes[|nodes| - 1])];
    OrderedPrefix(Keys(nodes));
  }

  lemma OrderedPrefix(ks: seq<Key>)
    requires ks != [] && Ordered(ks)
    ensures Ordered(ks[..|ks| - 1])
  {
    forall k | 0 < k < |ks| - 1 ensures !Less(ks[k], ks[Up(k)]) && Up(k) < k {
    }
  }

  lemma KeysReplace(nodes: seq<Node>, i: nat, x: Node)
    requires i < |nodes|
    ensures Keys(nodes[i := x]) == Keys(nodes)[i := KeyOf(x)]
  {
    hide Keys;
    var t := nodes[i := x];
    forall k | 0 <= k < |nodes| ensures Keys(t)[k] == Keys(nodes)[i := KeyOf(x)][k] {
      assert Keys(t)[k] == KeyOf(t[k]);
    }
  }

  lemma ElemsWithout(nodes: seq<Node>, i: nat)
    requires Distinct(nodes) && i < |nodes|
    ensures var t := nodes[..|nodes| - 1];
      && (i == |nodes| - 1 ==> Elems(t) == Elems(nodes) - {nodes[i]})
      && (i < |nodes| - 1 ==> Elems(t[i := nodes[|nodes| - 1]]) == Elems(nodes) - {nodes[i]})
      && nodes[|nodes| - 1] !in t
  {
    var m := |nodes| - 1;
    var t := if i == m then nodes[..m] else nodes[..m][i := nodes[m]];
    forall x | x in Elems(nodes) - {nodes[i]} ensures x in t {
      var k :| 0 <= k < |nodes| && nodes[k] == x;
      assert if k == m then t[i] == x else t[k] == x;
    }
    forall x | x in t ensures x in Elems(nodes) - {nodes[i]} {
      var k :| 0 <= k < |t| && t[k] == x;
      assert k != i ==> x == nodes[k];
    }
  }

  /** The neighbours of a node are different nodes of the same tree. */
  ghost predicate SuppReady(mem: Memory, node: Node) {
    && node in mem
    && var r := mem[node];
    && OneOf(r.left, mem.Keys) && OneOf(r.right, mem.Keys) && OneOf(r.parent, mem.Keys)
    && r.left != node && r.right != node && r.parent != node
    && (r.left != null ==> r.left != r.right && r.left != r.parent)
    && (r.right != null ==> r.right != r.parent)
  }

  ghost function SuppLinks(mem: Memory, node: Node, child: Node, y: Node): Links
    requires node in mem && y in mem
  {
    var r := mem[node];
    if y == r.left || y == r.right then mem[y].(parent := child)
    else if y == r.parent then
      if mem[y].left == node then mem[y].(left := child) else mem[y].(right := child)
    else mem[y]
  }

  lemma SuppTable(mem: Memory, node: Node, child: Node, y: Node, r: Links)
    requires SuppReady(mem, node) && y in mem
    requires var n := mem[node];
      && (y == n.left || y == n.right ==> r == mem[y].(parent := child))
      && (y == n.parent && mem[y].left == node ==> r == mem[y].(left := child))
      && (y == n.parent && mem[y].left != node ==> r == mem[y].(right := child))
      && (y != n.left && y != n.right && y != n.parent ==> r == mem[y])
    ensures r == SuppLinks(mem, node, child, y)
  {
  }

  lemma SuppIsReady(nodes: seq<Node>, mem: Memory, i: nat)
    requires Linked(nodes, mem) && i < |nodes| && mem.Keys == Elems(nodes)
    ensures SuppReady(mem, nodes[i])
  {
    hide Linked, Distinct;
    LinksOf(nodes, mem, i);
    FarApart(nodes, i, 2 * i + 1);
    FarApart(nodes, i, 2 * i + 2);
    FarApart(nodes, 2 * i + 1, 2 * i + 2);
    if i > 0 {
      UpDown(i);
      FarApart(nodes, Up(i), i);
      FarApart(nodes, Up(i), 2 * i + 1);
      FarApart(nodes, Up(i), 2 * i + 2);
    }
  }

  lemma SuppAt(nodes: seq<Node>, mem: Memory, i: nat, x: Node, k: nat)
    requires Linked(nodes, mem) && i < |nodes| && k < |nodes| && k != i
    ensures nodes[i] in mem && nodes[k] in mem
    ensures SuppLinks(mem, nodes[i], x, nodes[k]) == Replaced(LinksAt(nodes, k), i, k, x)
  {
    hide Linked, Distinct;
    LinksOf(nodes, mem, i);
    LinksOf(nodes, mem, k);
    ChildIs(nodes, 2 * i + 1, k);
    ChildIs(nodes, 2 * i + 2, k);
    ChildIs(nodes, Up(i), k);
    ChildIs(nodes, 2 * k + 1, i);
    if i > 0 { UpDown(i); }
  }

  lemma Supplanted(nodes: seq<Node>, mem: Memory, i: nat, x: Node)
    requires Linked(nodes, mem) && i < |nodes| && x !in nodes && mem.Keys == Elems(nodes)
    requires Read(x) == mem[nodes[i]]
    requires forall y :: y in Elems(nodes) ==> Read(y) == SuppLinks(mem, nodes[i], x, y)
    ensures Linked(nodes[i := x], Snapshot(Elems(nodes[i := x])))
  {
    hide Linked, SuppLinks, Replaced;
    var t := nodes[i := x];
    var mem' := Snapshot(Elems(t));
    assert t[i] == x;
    forall k | 0 <= k < |nodes| && k != i ensures nodes[k] in mem' && mem'[nodes[k]] == Replaced(mem[nodes[k]], i, k, x) {
      LinksOf(nodes, mem, k);
      SuppAt(nodes, mem, i, x, k);
      assert t[k] == nodes[k];
    }
    ReplaceLinked(nodes, mem, i, x, mem');
  }

  lemma KeysAppend(nodes: seq<Node>, x: Node)
    ensures Keys(nodes + [x]) == Keys(nodes) + [KeyOf(x)]
    ensures Elems(nodes + [x]) == Elems(nodes) + {x}
  {
    assert (nodes + [x])[..|nodes|] == nodes;
  }

  lemma CutOff(nodes: seq<Node>, mem: Memory)
    requires Linked(nodes, mem) && nodes != [] && mem.Keys == Elems(nodes)
    requires Snapshot(Elems(nodes)) == Written(mem, SlotAt(nodes, |nodes|), null)
    ensures Linked(nodes[..|nodes| - 1], Snapshot(Elems(nodes[..|nodes| - 1])))
  {
    hide Linked, Written, Appended;
    var t := nodes[..|nodes| - 1];
    var mem1 := Snapshot(Elems(nodes));
    var mem' := Snapshot(Elems(t));
    forall k | 0 <= k < |t| ensures nodes[k] in mem' && mem'[nodes[k]] == Appended(mem[nodes[k]], |nodes| - 1, k, null) {
      LinksOf(nodes, mem, k);
      assert t[k] == nodes[k];
      assert mem1[nodes[k]] == mem'[nodes[k]] == Read(nodes[k]);
      WrittenAt(nodes, mem, |nodes| - 1, null, k);
    }
    DropLinked(nodes, mem, mem');
  }

  ghost function Written(mem: Memory, p: Slot, v: Node?): Memory {
    map y | y in mem ::
      if p == LeftOf(y) then mem[y].(left := v) else if p == RightOf(y) then mem[y].(right := v) else mem[y]
  }

  lemma OwnerIn(nodes: seq<Node>, pos: nat)
    requires 1 <= pos <= |nodes| + 1
    ensures Owner(SlotAt(nodes, pos)) <= Elems(nodes) && (SlotAt(nodes, pos).Root? <==> pos == 1)
  {
  }

  lemma WrittenAt(nodes: seq<Node>, mem: Memory, n: nat, v: Node?, k: nat)
    requires Distinct(nodes) && k < n <= |nodes| && nodes[k] in mem
    ensures Written(mem, SlotAt(nodes, n + 1), v)[nodes[k]] == Appended(mem[nodes[k]], n, k, v)
  {
    if n > 0 {
      assert nodes[(n + 1) / 2 - 1] == nodes[k] <==> (n + 1) / 2 - 1 == k;
    }
  }

  lemma HungBelow(nodes: seq<Node>, x: Node, mem: Memory)
    requires Linked(nodes, mem) && x !in nodes && mem.Keys == Elems(nodes)
    requires Read(x) == Links(null, null, if |nodes| == 0 then null else Child(nodes, Up(|nodes|)))
    requires Snapshot(Elems(nodes)) == Written(mem, SlotAt(nodes, |nodes| + 1), x)
    ensures Linked(nodes + [x], Snapshot(Elems(nodes + [x])))
  {
    hide Linked, Written, Appended;
    var mem1 := Snapshot(Elems(nodes));
    var mem' := Snapshot(Elems(nodes + [x]));
    assert x in nodes + [x];
    forall k | 0 <= k < |nodes| ensures nodes[k] in mem' && mem'[nodes[k]] == Appended(mem[nodes[k]], |nodes|, k, x) {
      LinksOf(nodes, mem, k);
      assert (nodes + [x])[k] == nodes[k];
      assert mem1[nodes[k]] == mem'[nodes[k]] == Read(nodes[k]);
      WrittenAt(nodes, mem, |nodes|, x, k);
    }
    AppendLinked(nodes, mem, x, mem');
  }

  predicate LessThan(a: Node, b: Node)
    reads a`timeout, a`startId, b`timeout, b`startId
  {
    Less(Key(a.timeout, a.startId), Key(b.timeout, b.startId))
  }

  ghost function Owner(p: Slot): set<Node> { if p.Root? then {} else {p.x} }

  function Walk(pos: nat, path: nat, k: nat): nat
    decreases k
  {
    if k == 0 then pos else Walk(2 * pos + path % 2, path / 2, k - 1)
  }

  lemma {:induction false} WalkGrows(pos: nat, path: nat, k: nat)
    ensures Walk(pos, path, k) >= pos
    decreases k
  {
    if k > 0 { WalkGrows(2 * pos + path % 2, path / 2, k - 1); }
  }

  lemma WalkStep(pos: nat, path: nat, k: nat)
    ensures k == 0 ==> Walk(pos, path, k) == pos
    ensures k > 0 ==>
      && Walk(pos, path, k) == Walk(2 * pos + path % 2, path / 2, k - 1)
      && Walk(pos, path, k) >= 2 * pos + path % 2
  {
    if k > 0 {
      WalkGrows(2 * pos + path % 2, path / 2, k - 1);
    }
  }

  lemma FirstSlot(nodes: seq<Node>)
    ensures SlotAt(nodes, 1) == Root
  {
  }

  /** The slots of the two positions below pos. */
  lemma NextSlot(nodes: seq<Node>, pos: nat, b: nat)
    requires 1 <= pos && b < 2 && 2 * pos + b <= |nodes| + 1
    ensures (2 * pos + b) / 2 == pos && 2 * pos + b != 1 && pos <= |nodes|
    ensures Child(nodes, pos - 1) == nodes[pos - 1]
    ensures SlotAt(nodes, 2 * pos + b) == if b == 1 then RightOf(nodes[pos - 1]) else LeftOf(nodes[pos - 1])
  {
  }

  lemma HalfWidth(m: nat, width: nat)
    ensures (m / 2) * (2 * width) <= m * width
  {
    assert (m / 2) * (2 * width) == (2 * (m / 2)) * width;
  }

  lemma KeysUpdate(nodes: seq<Node>, k: nat, x: Node)
    requires k < |nodes|
    ensures Keys(nodes[k := x]) == Keys(nodes)[k := KeyOf(x)]
  {
    hide Keys;
  }

  lemma SwappedKeys(nodes: seq<Node>, j: nat)
    requires 0 < j < |nodes|
    ensures Keys(Swapped(nodes, j)) == SwapAt(Keys(nodes), j)
  {
    hide Keys, Up;
    UpDown(j);
    KeysUpdate(nodes, Up(j), nodes[j]);
    KeysUpdate(nodes[Up(j) := nodes[j]], j, nodes[Up(j)]);
  }

  lemma SwappedElems(nodes: seq<Node>, j: nat)
    requires 0 < j < |nodes|
    ensures Elems(Swapped(nodes, j)) == Elems(nodes)
  {
    var t := Swapped(nodes, j);
    assert t[j] == nodes[Up(j)] && t[Up(j)] == nodes[j];
    forall x | x in nodes ensures x in t {
      var k :| 0 <= k < |nodes| && nodes[k] == x;
      assert k != j && k != Up(j) ==> t[k] == x;
    }
  }

  lemma SwappedRoot(nodes: seq<Node>, j: nat)
    requires 0 < j < |nodes|
    ensures |Swapped(nodes, j)| == |nodes|
    ensures Swapped(nodes, j)[0] == if Up(j) == 0 then nodes[j] else nodes[0]
  {
    UpDown(j);
  }

  lemma SwapIsReady(nodes: seq<Node>, mem: Memory, j: nat)
    requires Linked(nodes, mem) && 0 < j < |nodes| && mem.Keys == Elems(nodes)
    ensures SwapReady(mem, nodes[Up(j)], nodes[j])
  {
    hide Linked, Distinct;
    var i := Up(j);
    UpDown(j);
    LinksOf(nodes, mem, i);
    LinksOf(nodes, mem, j);
    FarApart(nodes, i, j);
    FarApart(nodes, 2 * i + 1, 2 * i + 2);
    FarApart(nodes, 2 * j + 1, 2 * j + 2);
    FarBelow(nodes, i, j, 2 * j + 1);
    FarBelow(nodes, i, j, 2 * j + 2);
    FarApart(nodes, i, 2 * i + 1);
    FarApart(nodes, i, 2 * i + 2);
    if i > 0 {
      UpDown(i);
      FarApart(nodes, Up(i), i);
      FarApart(nodes, Up(i), 2 * i + 1);
      FarApart(nodes, Up(i), 2 * i + 2);
    }
  }

  lemma FarBelow(nodes: seq<Node>, i: nat, j: nat, a: nat)
    requires Distinct(nodes) && i == Up(j) && 0 < j && 2 * j < a
    ensures Child(nodes, a) != null ==>
      && Child(nodes, a) != Child(nodes, i) && Child(nodes, a) != Child(nodes, j)
      && Child(nodes, a) != Child(nodes, 2 * i + 1) && Child(nodes, a) != Child(nodes, 2 * i + 2)
      && Child(nodes, a) != Child(nodes, Up(i))
  {
    hide Distinct;
    FarApart(nodes, i, a);
    FarApart(nodes, j, a);
    FarApart(nodes, 2 * i + 1, a);
    FarApart(nodes, 2 * i + 2, a);
    FarApart(nodes, Up(i), a);
  }

  lemma FarApart(nodes: seq<Node>, a: nat, b: nat)
    requires Distinct(nodes) && a < b
    ensures Child(nodes, b) != null ==> Child(nodes, a) != Child(nodes, b)
  {
  }
}
