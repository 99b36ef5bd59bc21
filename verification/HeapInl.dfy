/**
  heap-inl.h: the pointer-linked binary min heap of libuv.

  The ghost sequence `nodes` lists the nodes in level order; the tree is complete
  exactly when every node's links are those of its position in that sequence.
*/
module HeapInl {
  import opened Bits
  import opened Collections
  import opened HeapOrder

  /** The part of the struct containing a node that a comparison may look at. */
  datatype Key = Key(timeout: nat, startId: nat)

  /** `struct heap_node`, with the key of its containing struct. */
  class HeapNode {
    var left: HeapNode?
    var right: HeapNode?
    var parent: HeapNode?
    var key: Key

    constructor (k: Key)
      ensures key == k
    {
      left, right, parent, key := null, null, null, k;
    }
  }

  /** `timer_less_than`, the comparison libuv uses: by deadline, then in order of starting. */
  predicate TimerLess(a: Key, b: Key) {
    if a.timeout < b.timeout then true else if b.timeout < a.timeout then false else a.startId < b.startId
  }

  lemma TimerLessIsOrder()
    ensures StrictWeakOrder(TimerLess)
  {
  }

  /** What does not come after another timer is due before it, or at the same time and was started
      no later. */
  lemma TimersByDeadline(a: Key, b: Key)
    ensures Leq(TimerLess, a, b) <==> a.timeout < b.timeout || (a.timeout == b.timeout && a.startId <= b.startId)
  {
  }

  /** A pointer to a node pointer: the root of the heap or a child field of a node. */
  datatype Place = Root | LeftOf(node: HeapNode) | RightOf(node: HeapNode)

  ghost predicate SameElements(s: seq<HeapNode>, elems: set<HeapNode>) {
    && (forall i: nat | i < |s| :: s[i] in elems)
    && (forall x | x in elems :: x in s)
  }

  ghost function At(s: seq<HeapNode>, i: int): HeapNode? {
    if 0 <= i < |s| then s[i] else null
  }

  /** The links of the node at position `i`. */
  ghost predicate LinkedAt(s: seq<HeapNode>, i: nat)
    requires i < |s|
    reads s[i]
  {
    && s[i].left == At(s, 2 * i + 1)
    && s[i].right == At(s, 2 * i + 2)
    && s[i].parent == (if i == 0 then null else s[Par(i)])
  }

  ghost function KeysOf(s: seq<HeapNode>): (keys: seq<Key>)
    ensures |keys| == |s|
    reads s
  {
    seq(|s|, i requires 0 <= i < |s| reads s => s[i].key)
  }

  class Heap {
    var min: HeapNode?
    var nelts: nat
    ghost var nodes: seq<HeapNode>     // in level order
    ghost var elems: set<HeapNode>     // the same nodes

    /** A complete binary tree with consistent child and parent links. */
    ghost predicate Shape()
      reads this, nodes
    {
      && nelts == |nodes|
      && min == At(nodes, 0)
      && Distinct(nodes)
      && SameElements(nodes, elems)
      && forall i: nat | i < |nodes| :: LinkedAt(nodes, i)
    }

    ghost function Keys(): (keys: seq<Key>)
      ensures |keys| == |nodes|
      reads this`nodes, nodes
    {
      KeysOf(nodes)
    }

    /** A complete tree in heap order. */
    ghost predicate Valid(less: (Key, Key) -> bool)
      reads this, nodes
    {
      Shape() && Ordered(less, Keys())
    }

    /** `heap_init`. */
    constructor ()
      ensures Shape() && nodes == [] && Keys() == []
      ensures forall less :: Valid(less)
    {
      min, nelts, nodes, elems := null, 0, [], {};
    }

    /** `heap_node_swap`: the child moves closer to the root, the parent moves away.  The
        ghost arguments name the neighbours. */
    method NodeSwap(parent: HeapNode, child: HeapNode, ghost around: Neighbours)
      requires around.Fit(parent, child)
      modifies this`min
      modifies around.All(parent, child)`left, around.All(parent, child)`right, around.All(parent, child)`parent
      ensures parent.left == around.left && parent.right == around.right && parent.parent == child
      ensures child.left == (if old(parent.left) == child then parent else around.sibling)
      ensures child.right == (if old(parent.left) == child then around.sibling else parent)
      ensures child.parent == around.above
      ensures around.Keep(parent, child)
      ensures min == if around.above == null then child else old(min)
    {
      var sibling := ExchangeLinks(parent, child);
      if sibling != null {
        sibling.parent := child;
      }
      if parent.left != null {
        parent.left.parent := parent;
      }
      if parent.right != null {
        parent.right.parent := parent;
      }
      if child.parent == null {
        min := child;
      } else if child.parent.left == parent {
        child.parent.left := child;
      } else {
        child.parent.right := child;
      }
    }

    /** The exchange in the two nodes themselves. */
    method ExchangeLinks(parent: HeapNode, child: HeapNode) returns (sibling: HeapNode?)
      requires parent != child && child.left != child && child.right != child
      requires (parent.left == child) != (parent.right == child)
      modifies parent`left, parent`right, parent`parent, child`left, child`right, child`parent
      ensures parent.left == old(child.left) && parent.right == old(child.right) && parent.parent == child
      ensures sibling == if old(parent.left) == child then old(parent.right) else old(parent.left)
      ensures child.left == (if old(parent.left) == child then parent else sibling)
      ensures child.right == (if old(parent.left) == child then sibling else parent)
      ensures child.parent == old(parent.parent)
    {
      var tLeft, tRight, tParent := parent.left, parent.right, parent.parent;
      parent.left, parent.right, parent.parent := child.left, child.right, child.parent;
      child.left, child.right, child.parent := tLeft, tRight, tParent;

      parent.parent := child;
      if child.left == child {
        child.left := parent;
        sibling := child.right;
      } else {
        child.right := parent;
        sibling := child.left;
      }
    }

    /** The exchange inside a tree: every node's links are accounted for. */
    method SwapLinks(parent: HeapNode, child: HeapNode, ghost i: nat)
      requires Shape() && 0 < i < |nodes| && nodes[i] == child && nodes[Par(i)] == parent
      modifies this`min, elems`left, elems`right, elems`parent
      ensures forall k: nat | k < |nodes| :: ExchangedAt(nodes, Par(i), i, k)
      ensures min == if Par(i) == 0 then child else old(min)
    {
      hide Distinct, Neighbours.Fit, SameElements, At, NeighboursOf;
      ghost var s, p := nodes, Par(i);
      ghost var around := NeighboursOf(s, p, i);
      NeighboursFit(s, p, i);
      NeighboursInside(s, p, i, elems);
      NeighbourPosition(s, p, i, 0);
      assert LinkedAt(s, p);
      NodeSwap(parent, child, around);
      forall k: nat | k < |s| ensures ExchangedAt(s, p, i, k) {
        assert old(LinkedAt(s, k));
        NeighbourPosition(s, p, i, k);
        if k != p && k != i {
          var l, r, up := old(s[k].left), old(s[k].right), old(s[k].parent);
          assert around.Moved(parent, child, s[k], l, r, up);
          ExchangedElsewhere(s, p, i, k, l, r, up);
        }
      }
    }

    /** Swapping the node at position `i` with its parent keeps the tree; only the two nodes
        trade places. */
    method SwapAt(parent: HeapNode, child: HeapNode, ghost i: nat)
      requires Shape() && 0 < i < |nodes| && nodes[i] == child && nodes[Par(i)] == parent
      modifies this`min, this`nodes, elems`left, elems`right, elems`parent
      ensures Shape() && nodes == Swap(old(nodes), Par(i), i)
    {
      hide Distinct, Swap, SameElements;
      ghost var s, p := nodes, Par(i);
      SwapLinks(parent, child, i);
      assert nodes == s && forall k: nat | k < |s| :: ExchangedAt(s, p, i, k);
      SwapDistinct(s, p, i);
      SwapSameElements(s, p, i, elems);
      SwapRelinks(s, p, i);
      nodes := Swap(nodes, p, i);
    }

    lemma SwapKeys(before: seq<HeapNode>, keys: seq<Key>, p: nat, i: nat)
      requires p < |before| && i < |before| && |keys| == |before|
      requires forall k: nat | k < |before| :: keys[k] == before[k].key
      requires nodes == Swap(before, p, i)
      ensures Keys() == Swap(keys, p, i)
    {
    }

    /** One step of walking up. */
    method StepUp(node: HeapNode, less: (Key, Key) -> bool, ghost i: nat)
      requires StrictWeakOrder(less)
      requires Shape() && 0 < i < |nodes| && nodes[i] == node && OrderedAbove(less, Keys(), i)
      requires node.parent == nodes[Par(i)] && less(node.key, nodes[Par(i)].key)
      modifies this`min, this`nodes, elems`left, elems`right, elems`parent
      ensures Shape() && Par(i) < |nodes| && nodes[Par(i)] == node && OrderedAbove(less, Keys(), Par(i))
    {
      hide Distinct, LinkedAt, OrderedAbove, Swap;
      ghost var before, keys := nodes, Keys();
      SwapUp(less, keys, i);
      SwapAt(node.parent, node, i);
      SwapKeys(before, keys, Par(i), i);
      assert Swap(before, Par(i), i)[Par(i)] == node by { SwapEntries(before, Par(i), i); }
    }

    /** One step of walking down. */
    method StepDown(node: HeapNode, child: HeapNode, less: (Key, Key) -> bool, ghost i: nat, ghost c: nat)
      requires StrictWeakOrder(less)
      requires Shape() && i < |nodes| && nodes[i] == node && OrderedAround(less, Keys(), i)
      requires c < |nodes| && nodes[c] == child && LeastChild(less, Keys(), i, c) && c != i
      modifies this`min, this`nodes, elems`left, elems`right, elems`parent
      ensures Shape() && c < |nodes| && nodes[c] == node && OrderedAround(less, Keys(), c)
    {
      assert Par(c) == i;
      hide Distinct, LinkedAt, OrderedAround, LeastChild, Swap;
      ghost var before, keys := nodes, Keys();
      SwapDown(less, keys, i, c);
      SwapAt(node, child, c);
      SwapKeys(before, keys, i, c);
      assert Swap(before, i, c)[c] == node by { SwapEntries(before, i, c); }
    }

    /** The loop at the end of `heap_insert` and of `heap_remove`: walk up while the node comes
        before its parent. */
    method SiftUp(node: HeapNode, less: (Key, Key) -> bool, ghost start: nat)
      requires StrictWeakOrder(less)
      requires Shape() && start < |nodes| && nodes[start] == node && OrderedAbove(less, Keys(), start)
      modifies this`min, this`nodes, elems`left, elems`right, elems`parent
      ensures Valid(less)
    {
      ghost var i: nat := start;
      while node.parent != null && less(node.key, node.parent.key)
        invariant Shape() && i < |nodes| && nodes[i] == node && OrderedAbove(less, Keys(), i)
        decreases i
      {
        assert LinkedAt(nodes, i);
        StepUp(node, less, i);
        i := Par(i);
      }
      assert LinkedAt(nodes, i);
      UpDone(less, Keys(), i);
    }

    /** The loop of `heap_remove` that walks down: swap the node with its least child while
        that child comes before it. */
    method SiftDown(node: HeapNode, less: (Key, Key) -> bool, ghost start: nat) returns (ghost end: nat)
      requires StrictWeakOrder(less)
      requires Shape() && start < |nodes| && nodes[start] == node && OrderedAround(less, Keys(), start)
      modifies this`min, this`nodes, elems`left, elems`right, elems`parent
      ensures Shape() && end < |nodes| && nodes[end] == node && OrderedAbove(less, Keys(), end)
    {
      hide Distinct, LinkedAt, SameElements, OrderedAround, OrderedAbove, LeastChild, StrictWeakOrder;
      end := start;
      while true
        invariant Shape() && end < |nodes| && nodes[end] == node && OrderedAround(less, Keys(), end)
        invariant nelts == old(nelts)
        decreases nelts - end
      {
        var smallest, c := LeastOf(node, less, end);
        if smallest == node {
          DownDone(less, Keys(), end);
          break;
        }
        StepDown(node, smallest, less, end, c);
        end := c;
      }
    }

    /** The node itself or the child that comes first. */
    method LeastOf(node: HeapNode, less: (Key, Key) -> bool, ghost i: nat) returns (smallest: HeapNode, ghost c: nat)
      requires StrictWeakOrder(less)
      requires Shape() && i < |nodes| && nodes[i] == node
      ensures c < |nodes| && nodes[c] == smallest && LeastChild(less, Keys(), i, c)
      ensures smallest == node <==> c == i
      ensures c >= i
    {
      hide Distinct, SameElements, StrictWeakOrder, LeastChild;
      assert LinkedAt(nodes, i);
      smallest, c := node, i;
      if node.left != null && less(node.left.key, smallest.key) {
        smallest, c := node.left, 2 * i + 1;
      }
      ghost var a := c;
      if node.right != null && less(node.right.key, smallest.key) {
        smallest, c := node.right, 2 * i + 2;
      }
      LeastOfThree(less, Keys(), i, a, c);
      DistinctAt(nodes, i);
    }

    /** What a pointer to a node pointer points at. */
    function Load(place: Place): HeapNode?
      reads this, if place.Root? then {} else {place.node}
    {
      match place
      case Root => min
      case LeftOf(node) => node.left
      case RightOf(node) => node.right
    }

    method Store(place: Place, x: HeapNode?)
      modifies (if place.Root? then {this} else {})`min
      modifies (if place.LeftOf? then {place.node} else {})`left
      modifies (if place.RightOf? then {place.node} else {})`right
      ensures Load(place) == x
    {
      match place
      case Root => min := x;
      case LeftOf(node) => node.left := x;
      case RightOf(node) => node.right := x;
    }

    lemma PositionOf(node: HeapNode) returns (i: nat)
      requires Shape() && node in elems
      ensures i < |nodes| && nodes[i] == node && |nodes| == nelts
    {
      i :| i < |nodes| && nodes[i] == node;
    }

    lemma LoadAt(i: nat)
      requires Shape() && i <= |nodes|
      ensures Load(PlaceOf(nodes, i)) == At(nodes, i)
    {
      if i > 0 {
        assert LinkedAt(nodes, Par(i));
      }
    }

    /** Following the path from the root to the place of the `n`-th node.  `parent` trails one
        step behind. */
    method Walk(bits: nat, steps: nat, ghost n: nat) returns (parent: Place, child: Place)
      requires Shape() && 1 <= n <= |nodes| + 1
      requires Shr(n, steps) == 1 && bits == Path(n, steps)
      ensures child == PlaceOf(nodes, n - 1)
      ensures parent == if n == 1 then Root else PlaceOf(nodes, Par(n - 1))
    {
      hide Path, Shr, PlaceOf, Distinct, SameElements, LinkedAt;
      var path, k := bits, steps;
      parent, child := Root, Root;
      PlaceRoot(nodes, n);
      while k > 0
        invariant path == Path(n, k) && 1 <= Shr(n, k) <= n
        invariant child == PlaceOf(nodes, Shr(n, k) - 1)
        invariant parent == if Shr(n, k) == 1 then Root else PlaceOf(nodes, Par(Shr(n, k) - 1))
      {
        PathStep(n, k);
        ShrAtMost(n, k - 1);
        LoadAt(Shr(n, k) - 1);
        PlaceStep(nodes, Shr(n, k), path % 2);
        parent := child;
        if path % 2 == 1 {
          child := RightOf(Load(child));
        } else {
          child := LeftOf(Load(child));
        }
        path := path / 2;
        k := k - 1;
      }
    }

    /** Hanging a node below the tree, at the left-most free place of the bottom row. */
    method LinkLast(node: HeapNode, parent: Place, child: Place)
      requires Shape() && node !in elems
      requires child == PlaceOf(nodes, |nodes|)
      requires parent == if nodes == [] then Root else PlaceOf(nodes, Par(|nodes|))
      requires node.left == null && node.right == null
      modifies this, node`parent, elems`left, elems`right
      ensures Shape() && nodes == old(nodes) + [node] && elems == old(elems) + {node}
    {
      hide Distinct, SameElements, PlaceOf, At;
      ghost var s := nodes;
      AppendNode(s, elems, node);
      AppendAt(s, node);
      LoadAt(if s == [] then 0 else Par(|s|));
      node.parent := Load(parent);
      Hang(node, child);
      AttachedLinks(s, node);
      nelts := nelts + 1;
      nodes, elems := s + [node], elems + {node};
    }

    method Hang(node: HeapNode, child: Place)
      requires Shape() && node !in elems && child == PlaceOf(nodes, |nodes|)
      modifies this`min, elems`left, elems`right
      ensures forall k: nat | k < |nodes| :: AttachedAt(nodes, node, k)
      ensures min == if nodes == [] then node else old(min)
    {
      hide SameElements, Distinct, At;
      ghost var s := nodes;
      ElementsIn(s, elems);
      Store(child, node);
      forall k: nat | k < |s| ensures AttachedAt(s, node, k) {
        assert old(LinkedAt(s, k));
        DistinctAt(s, k);
      }
    }

    /** The first part of `heap_insert`: hang the node at the left-most free place of the bottom
        row. */
    method AddLast(node: HeapNode)
      requires Shape() && node !in elems && nelts + 1 < 0x1_0000_0000
      modifies this, node`left, node`right, node`parent, elems`left, elems`right
      ensures Shape() && nodes == old(nodes) + [node] && elems == old(elems) + {node}
      ensures Keys() == old(Keys()) + [node.key]
    {
      assert node !in nodes;
      hide Distinct, LinkedAt, SameElements, PlaceOf, Path, Shr;
      ghost var keys := Keys();
      node.left, node.right, node.parent := null, null, null;
      var path, k := FindPath(1 + nelts);
      var parent, child := Walk(path, k, 1 + nelts);
      LinkLast(node, parent, child);
      assert Keys() == keys + [node.key];
    }

    /** `heap_insert`. */
    method Insert(node: HeapNode, less: (Key, Key) -> bool)
      requires StrictWeakOrder(less)
      requires Valid(less) && node !in elems && nelts + 1 < 0x1_0000_0000
      modifies this, node`left, node`right, node`parent, elems`left, elems`right, elems`parent
      ensures Valid(less) && elems == old(elems) + {node} && nelts == old(nelts) + 1
    {
      hide Distinct, LinkedAt, Ordered, OrderedAbove, SameElements;
      ghost var keys := Keys();
      AddLast(node);
      AppendLast(less, keys, node.key);
      SiftUp(node, less, |keys|);
    }

    /** Unlinking the left-most node of the bottom row. */
    method UnlinkLast(max: Place) returns (child: HeapNode)
      requires Shape() && nodes != [] && max == PlaceOf(nodes, |nodes| - 1)
      modifies this, elems`left, elems`right
      ensures Shape() && child == old(nodes[|nodes| - 1]) && child in old(elems)
      ensures |nodes| == |old(nodes)| - 1 && nodes == old(nodes)[..|nodes|] && elems == old(elems) - {child}
    {
      hide Distinct, SameElements, At, PlaceOf;
      ghost var s := nodes;
      ghost var last: nat := |s| - 1;
      LoadAt(last);
      DropNode(s, elems);
      nelts := nelts - 1;
      child := Load(max);
      Cut(max);
      DetachedLinks(s, s[..last]);
      nodes, elems := s[..last], elems - {child};
    }

    method Cut(max: Place)
      requires nodes != [] && min == At(nodes, 0) && Distinct(nodes) && SameElements(nodes, elems)
      requires forall k: nat | k < |nodes| :: LinkedAt(nodes, k)
      requires max == PlaceOf(nodes, |nodes| - 1)
      modifies this`min, elems`left, elems`right
      ensures forall k: nat | k < |nodes| - 1 :: DetachedAt(nodes, k)
      ensures min == if |nodes| == 1 then null else old(min)
    {
      hide SameElements, Distinct, At;
      ghost var s := nodes;
      assert forall k: nat | k < |s| :: s[k] in elems by { ElementsIn(s, elems); }
      Store(max, null);
      forall k: nat | k < |s| - 1 ensures DetachedAt(s, k) {
        assert old(LinkedAt(s, k));
        DistinctAt(s, k);
      }
    }

    /** Putting `child`, a node outside the tree, where `node` was. */
    method Replace(node: HeapNode, child: HeapNode, ghost i: nat)
      requires Shape() && child !in elems && i < |nodes| && nodes[i] == node
      modifies this`min, this`nodes, this`elems
      modifies child`left, child`right, child`parent, elems`left, elems`right, elems`parent
      ensures Shape() && nodes == old(nodes)[i := child] && elems == old(elems) - {node} + {child}
      ensures Keys() == old(Keys())[i := child.key]
    {
      hide Distinct, SameElements, At;
      ghost var s := nodes;
      ReplaceNode(s, elems, i, child);
      Relink(node, child, i);
      ReplacedLinks(s, i, child, s[i := child]);
      nodes, elems := s[i := child], elems - {node} + {child};
    }

    method Relink(node: HeapNode, child: HeapNode, ghost i: nat)
      requires Shape() && child !in elems && i < |nodes| && nodes[i] == node
      modifies this`min, child`left, child`right, child`parent, elems`left, elems`right, elems`parent
      ensures child.left == At(nodes, 2 * i + 1) && child.right == At(nodes, 2 * i + 2)
      ensures child.parent == if i == 0 then null else nodes[Par(i)]
      ensures forall k: nat | k < |nodes| && k != i :: ReplacedAt(nodes, i, child, k)
      ensures min == if i == 0 then child else old(min)
    {
      hide Distinct, SameElements;
      ghost var s := nodes;
      ElementsIn(s, elems);
      ChildrenPositions(s, i);
      assert LinkedAt(s, i);
      TakeLinks(node, child);
      HangAbove(node, child);
      forall k: nat | k < |s| && k != i ensures ReplacedAt(s, i, child, k) {
        assert old(LinkedAt(s, k));
        ReplacedElsewhere(s, i, child, k, old(s[k].left), old(s[k].right), old(s[k].parent));
      }
    }

    /** `child` gets the links of `node`, and the children follow. */
    method TakeLinks(node: HeapNode, child: HeapNode)
      requires node in elems && child !in elems
      requires (node.left != null ==> node.left in elems) && (node.right != null ==> node.right in elems)
      modifies child`left, child`right, child`parent, elems`parent
      ensures child.left == node.left && child.right == node.right && child.parent == old(node.parent)
      ensures forall x | x in elems :: x.parent == if x == node.left || x == node.right then child else old(x.parent)
    {
      child.left, child.right, child.parent := node.left, node.right, node.parent;
      if child.left != null {
        child.left.parent := child;
      }
      if child.right != null {
        child.right.parent := child;
      }
    }

    /** The parent of `node`, or the root, gets `child` instead. */
    method HangAbove(node: HeapNode, child: HeapNode)
      requires node.parent == child.parent && child !in elems && node in elems
      requires node.parent != null ==> node.parent in elems
      modifies this`min, elems`left, elems`right
      ensures min == if node.parent == null then child else old(min)
      ensures forall x | x in elems ::
        && x.left == (if x == child.parent && old(x.left) == node then child else old(x.left))
        && x.right == (if x == child.parent && old(x.left) != node then child else old(x.right))
    {
      if node.parent == null {
        min := child;
      } else if node.parent.left == node {
        node.parent.left := child;
      } else {
        node.parent.right := child;
      }
    }

    /** The first half of `heap_remove`: find the left-most node of the bottom row and unlink
        it. */
    method TakeLast() returns (child: HeapNode)
      requires Shape() && 0 < nelts < 0x1_0000_0000
      modifies this, elems`left, elems`right
      ensures Shape() && child == old(nodes[|nodes| - 1]) && child in old(elems)
      ensures |nodes| == |old(nodes)| - 1 && nodes == old(nodes)[..|nodes|] && elems == old(elems) - {child}
      ensures nelts == old(nelts) - 1
      ensures Keys() == old(Keys())[..|nodes|] && child.key == old(Keys())[|nodes|]
    {
      hide PlaceOf, Path, Shr, Distinct, SameElements, LinkedAt, At;
      var path, k := FindPath(nelts);
      var above, max := Walk(path, k, nelts);
      child := UnlinkLast(max);
    }

    /** `heap_remove`: any member of the heap, which need not be the least. */
    method Remove(node: HeapNode?, less: (Key, Key) -> bool)
      requires StrictWeakOrder(less)
      requires Valid(less) && nelts < 0x1_0000_0000 && (nelts > 0 ==> node in elems)
      modifies this, elems`left, elems`right, elems`parent
      ensures Valid(less) && elems == old(elems) - {node}
      ensures nelts == if old(nelts) == 0 then 0 else old(nelts) - 1
    {
      hide Shape, Keys, KeysOf, Ordered, OrderedAround, StrictWeakOrder;
      if nelts == 0 {
        NoRootNoNodes();
        return;
      }
      ghost var before, keys := nodes, Keys();
      ghost var i := PositionOf(node);
      ghost var last: nat := |before| - 1;
      var child := TakeLast();
      if child == node {
        DropLast(less, keys);
        ForgetMin(child);
        return;
      }
      ReplaceByLast(less, keys, i);
      PutBack(old(elems), node, child);
      ReplaceAndSettle(node, child, less, i);
    }

    /** The removed node was the last one: nothing is left to do unless it is the root. */
    method ForgetMin(child: HeapNode)
      requires Shape() && child !in elems
      modifies this`min
      ensures Shape() && min == old(min)
    {
      hide SameElements, Distinct, LinkedAt, At;
      ClearIf(child);
      NotFirst(nodes, elems, child);
    }

    method ClearIf(child: HeapNode)
      modifies this`min
      ensures min == if child == old(min) then null else old(min)
    {
      if child == min {
        min := null;
      }
    }

    /** The end of `heap_remove`: the unlinked `child` replaces the node, then walks down and
        walks up. */
    method ReplaceAndSettle(node: HeapNode, child: HeapNode, less: (Key, Key) -> bool, ghost i: nat)
      requires StrictWeakOrder(less)
      requires Shape() && child !in elems && i < |nodes| && nodes[i] == node
      requires OrderedAround(less, Keys()[i := child.key], i)
      modifies this`min, this`nodes, this`elems
      modifies child`left, child`right, child`parent, elems`left, elems`right, elems`parent
      ensures Valid(less) && elems == old(elems) - {node} + {child} && nelts == old(nelts)
    {
      hide Distinct, LinkedAt, OrderedAbove, OrderedAround, SameElements, StrictWeakOrder, Keys;
      Replace(node, child, i);
      var end := SiftDown(child, less, i);
      SiftUp(child, less, end);
    }

    /** `heap_dequeue`. */
    method Dequeue(less: (Key, Key) -> bool) returns (ghost least: HeapNode?)
      requires StrictWeakOrder(less) && Valid(less) && nelts < 0x1_0000_0000
      modifies this, elems`left, elems`right, elems`parent
      ensures Valid(less) && elems == old(elems) - {least} && least == old(min)
      ensures nelts == if old(nelts) == 0 then 0 else old(nelts) - 1
      ensures least != null ==> least in old(elems) && forall x | x in old(elems) :: Leq(less, least.key, x.key)
    {
      var m := Min(less);
      least := m;
      Remove(min, less);
    }

    /** `heap_min`: nothing in the heap comes before it. */
    method Min(less: (Key, Key) -> bool) returns (least: HeapNode?)
      requires StrictWeakOrder(less) && Valid(less)
      ensures least == min && (least == null <==> elems == {})
      ensures least != null ==> least in elems && forall x | x in elems :: Leq(less, least.key, x.key)
    {
      least := min;
      forall x | x in elems ensures least != null && Leq(less, least.key, x.key) {
        var i: nat :| i < |nodes| && nodes[i] == x;
        RootIsLeast(less, Keys(), i);
      }
    }

    /** Following `steps` parent links from `x` leads to the root. */
    ghost predicate Climbs(x: HeapNode, steps: nat)
      reads x, elems, this`elems
    {
      if steps == 0 then x.parent == null
      else x.parent != null && x.parent in elems && Climbs(x.parent, steps - 1)
    }

    /** No node is farther from the root than the binary logarithm of the number of nodes. */
    lemma {:induction false} HeightLogarithmic(i: nat)
      requires Shape() && i < |nodes|
      ensures Climbs(nodes[i], Depth(i)) && Pow2(Depth(i)) <= nelts
    {
      hide Distinct;
      DepthLogarithmic(i);
      assert LinkedAt(nodes, i);
      if i > 0 {
        HeightLogarithmic(Par(i));
      }
    }

    /** Repeated `heap_dequeue` empties the heap in sorted order. */
    method Drain(less: (Key, Key) -> bool) returns (ghost drained: seq<HeapNode>)
      requires StrictWeakOrder(less) && Valid(less) && nelts < 0x1_0000_0000
      modifies this, elems`left, elems`right, elems`parent
      ensures elems == {} && |drained| == old(nelts) && SameElements(drained, old(elems)) && Distinct(drained)
      ensures forall i, j :: 0 <= i < j < |drained| ==> Leq(less, drained[i].key, drained[j].key)
    {
      hide Draining, Ordered, StrictWeakOrder, Shape;
      drained := [];
      ghost var all, n := elems, nelts;
      DrainStart(less, all);
      while min != null
        invariant Valid(less) && nelts < 0x1_0000_0000 && nelts + |drained| == n
        invariant Draining(less, all, elems, drained)
        invariant elems <= all
        decreases nelts
      {
        NoRootNoNodes();
        ghost var left := elems;
        ghost var least := Dequeue(less);
        DrainStep(less, all, left, drained, least);
        drained := drained + [least];
      }
      NoRootNoNodes();
      DrainEnd(less, all, drained);
    }

    lemma NoRootNoNodes()
      requires Shape()
      ensures min == null <==> elems == {}
      ensures min == null <==> nelts == 0
    {
      assert nodes != [] ==> nodes[0] in elems;
    }
  }

  /** Of the nodes `all` those in `drained` have been taken, in order, and those in `left` remain. */
  ghost predicate Draining(less: (Key, Key) -> bool, all: set<HeapNode>, left: set<HeapNode>, drained: seq<HeapNode>)
    reads left`key, drained`key
  {
    && left <= all && (forall x | x in all :: x in left || x in drained)
    && (forall i: nat | i < |drained| :: drained[i] in all && drained[i] !in left)
    && Distinct(drained)
    && (forall i: nat, x | i < |drained| && x in left :: Leq(less, drained[i].key, x.key))
    && (forall i, j :: 0 <= i < j < |drained| ==> Leq(less, drained[i].key, drained[j].key))
  }

  lemma DrainStart(less: (Key, Key) -> bool, all: set<HeapNode>)
    ensures Draining(less, all, all, [])
  {
  }

  lemma DrainStep(less: (Key, Key) -> bool, all: set<HeapNode>, left: set<HeapNode>, drained: seq<HeapNode>, least: HeapNode)
    requires Draining(less, all, left, drained) && least in left
    requires forall x | x in left :: Leq(less, least.key, x.key)
    ensures Draining(less, all, left - {least}, drained + [least])
  {
    hide Leq;
    var more := drained + [least];
    forall x | x in all ensures x in left - {least} || x in more {
      assert more[|drained|] == least;
      if x in drained {
        var i: nat :| i < |drained| && drained[i] == x;
        assert more[i] == x;
      }
    }
  }

  lemma DrainEnd(less: (Key, Key) -> bool, all: set<HeapNode>, drained: seq<HeapNode>)
    requires Draining(less, all, {}, drained)
    ensures SameElements(drained, all) && Distinct(drained)
    ensures forall i, j :: 0 <= i < j < |drained| ==> Leq(less, drained[i].key, drained[j].key)
  {
  }

  ghost function PlaceOf(s: seq<HeapNode>, i: nat): Place
    requires i <= |s|
  {
    if i == 0 then Root else if i % 2 == 1 then LeftOf(s[Par(i)]) else RightOf(s[Par(i)])
  }

  lemma PlaceRoot(s: seq<HeapNode>, n: nat)
    ensures PlaceOf(s, 0) == Root && Shr(n, 0) == n
  {
  }

  lemma PlaceStep(s: seq<HeapNode>, m: nat, bit: nat)
    requires 1 <= m && bit <= 1 && 2 * m + bit - 1 <= |s|
    ensures PlaceOf(s, 2 * m + bit - 1) == if bit == 1 then RightOf(s[m - 1]) else LeftOf(s[m - 1])
    ensures Par(2 * m + bit - 1) == m - 1
  {
  }

  lemma {:induction false} ShrAtMost(n: nat, k: nat)
    ensures Shr(n, k) <= n
  {
    if k > 0 {
      ShrAtMost(n, k - 1);
    }
  }

  /** The first loop of `heap_insert` and `heap_remove`. */
  method FindPath(last: nat) returns (path: nat, k: nat)
    requires 1 <= last < 0x1_0000_0000
    ensures Shr(last, k) == 1 && path == Path(last, k)
  {
    var n := last;
    path, k := 0, 0;
    while n >= 2
      invariant n == Shr(last, k) && path == Path(last, k) && n >= 1
      decreases n
    {
      PathFits(last, k + 1);
      path := Word32(2 * path) + n % 2;
      n := n / 2;
      k := k + 1;
    }
  }

  lemma SwapEntries<T>(s: seq<T>, i: nat, j: nat)
    requires i < |s| && j < |s|
    ensures |Swap(s, i, j)| == |s| && Swap(s, i, j)[i] == s[j] && Swap(s, i, j)[j] == s[i]
  {
  }

  /** The neighbours of a parent and its child: the child's children, its sibling, and the
      parent's parent. */
  datatype Neighbours = Neighbours(
    left: HeapNode?, right: HeapNode?, sibling: HeapNode?, above: HeapNode?)
  {
    ghost function All(parent: HeapNode, child: HeapNode): set<HeapNode> {
      {parent, child}
      + (if left == null then {} else {left}) + (if right == null then {} else {right})
      + (if sibling == null then {} else {sibling}) + (if above == null then {} else {above})
    }

    ghost predicate Fit(parent: HeapNode, child: HeapNode)
      reads All(parent, child)
    {
      && parent != child
      && parent.parent == above && child.parent == parent && child.left == left && child.right == right
      && ((parent.left == child && parent.right == sibling) || (parent.right == child && parent.left == sibling && parent.left != child))
      && (left != null ==> left != right && left != parent && left != child && left != sibling && left != above)
      && (right != null ==> right != parent && right != child && right != sibling && right != above)
      && (sibling != null ==> sibling != parent && sibling != child && sibling != above)
      && (above != null ==> above != parent && above != child && (above.left == parent || above.right == parent))
    }

    /** The links of a node other than the two, when they were `l`, `r` and `up` before. */
    ghost predicate Moved(parent: HeapNode, child: HeapNode, x: HeapNode, l: HeapNode?, r: HeapNode?, up: HeapNode?)
      reads x
    {
      && x.left == (if x == above && l == parent then child else l)
      && x.right == (if x == above && l != parent then child else r)
      && x.parent == (if x == left || x == right then parent else if x == sibling then child else up)
    }

    /** What the exchange leaves in the neighbours. */
    twostate predicate Keep(parent: HeapNode, child: HeapNode)
      reads All(parent, child)
    {
      && (left != null ==> left.parent == parent && left.left == old(left.left) && left.right == old(left.right))
      && (right != null ==> right.parent == parent && right.left == old(right.left) && right.right == old(right.right))
      && (sibling != null ==>
            sibling.parent == child && sibling.left == old(sibling.left) && sibling.right == old(sibling.right))
      && (above != null ==>
            && above.parent == old(above.parent)
            && above.left == (if old(above.left) == parent then child else old(above.left))
            && above.right == (if old(above.left) == parent then old(above.right) else child))
    }
  }

  /** The links after the exchange of the nodes at `p` and `i`, seen from their old
      positions. */
  ghost predicate ExchangedAt(s: seq<HeapNode>, p: nat, i: nat, k: nat)
    requires 0 < i < |s| && p == Par(i) && k < |s|
    reads s[k]
  {
    if k == p then
      s[p].left == At(s, 2 * i + 1) && s[p].right == At(s, 2 * i + 2) && s[p].parent == s[i]
    else if k == i then
      && s[i].left == (if i == 2 * p + 1 then s[p] else At(s, 2 * p + 1))
      && s[i].right == (if i == 2 * p + 2 then s[p] else At(s, 2 * p + 2))
      && s[i].parent == (if p == 0 then null else s[Par(p)])
    else
      && s[k].left == (if 2 * k + 1 == p then s[i] else At(s, 2 * k + 1))
      && s[k].right == (if 2 * k + 2 == p then s[i] else At(s, 2 * k + 2))
      && s[k].parent == (if Par(k) == p then s[i] else if Par(k) == i then s[p] else if k == 0 then null else s[Par(k)])
  }

  ghost function NeighboursOf(s: seq<HeapNode>, p: nat, i: nat): Neighbours {
    Neighbours(At(s, 2 * i + 1), At(s, 2 * i + 2), At(s, if i == 2 * p + 1 then i + 1 else i - 1),
               if p == 0 then null else At(s, Par(p)))
  }

  lemma NeighboursFit(s: seq<HeapNode>, p: nat, i: nat)
    requires 0 < i < |s| && p == Par(i) && Distinct(s)
    requires forall k: nat | k < |s| :: LinkedAt(s, k)
    ensures NeighboursOf(s, p, i).Fit(s[p], s[i])
  {
    assert LinkedAt(s, i) && LinkedAt(s, p);
    assert p > 0 ==> LinkedAt(s, Par(p));
  }

  lemma NeighboursInside(s: seq<HeapNode>, p: nat, i: nat, elems: set<HeapNode>)
    requires 0 < i < |s| && p == Par(i) && SameElements(s, elems)
    ensures NeighboursOf(s, p, i).All(s[p], s[i]) <= elems
    ensures forall k: nat | k < |s| :: s[k] in elems
  {
  }

  /** The links of the `k`-th node when a new node hangs at the first free place. */
  ghost predicate AttachedAt(s: seq<HeapNode>, node: HeapNode, k: nat)
    requires k < |s|
    reads s[k]
  {
    && s[k].left == (if 2 * k + 1 == |s| then node else At(s, 2 * k + 1))
    && s[k].right == (if 2 * k + 2 == |s| then node else At(s, 2 * k + 2))
    && s[k].parent == (if k == 0 then null else s[Par(k)])
  }

  lemma AttachedLinks(s: seq<HeapNode>, node: HeapNode)
    requires forall k: nat | k < |s| :: AttachedAt(s, node, k)
    requires node.left == null && node.right == null
    requires node.parent == if s == [] then null else s[Par(|s|)]
    ensures forall k: nat | k < |s| + 1 :: LinkedAt(s + [node], k)
  {
    forall k: nat | k < |s| ensures LinkedAt(s + [node], k) {
      assert AttachedAt(s, node, k);
    }
  }

  lemma AppendAt(s: seq<HeapNode>, node: HeapNode)
    ensures At(s + [node], 0) == if s == [] then node else At(s, 0)
    ensures s != [] ==> At(s, Par(|s|)) == s[Par(|s|)]
    ensures At(s, 0) == if s == [] then null else s[0]
  {
  }

  lemma NotFirst(s: seq<HeapNode>, elems: set<HeapNode>, x: HeapNode)
    requires SameElements(s, elems) && x !in elems
    ensures At(s, 0) != x
  {
  }

  lemma PutBack(elems: set<HeapNode>, x: HeapNode, y: HeapNode)
    requires x != y && y in elems
    ensures elems - {y} - {x} + {y} == elems - {x}
  {
  }

  lemma ElementsIn(s: seq<HeapNode>, elems: set<HeapNode>)
    requires SameElements(s, elems)
    ensures forall k: nat | k < |s| :: s[k] in elems
  {
  }

  /** The links of the `k`-th node when the last node is cut off. */
  ghost predicate DetachedAt(s: seq<HeapNode>, k: nat)
    requires k < |s|
    reads s[k]
  {
    && s[k].left == (if 2 * k + 1 == |s| - 1 then null else At(s, 2 * k + 1))
    && s[k].right == (if 2 * k + 2 == |s| - 1 then null else At(s, 2 * k + 2))
    && s[k].parent == (if k == 0 then null else s[Par(k)])
  }

  lemma DetachedLinks(s: seq<HeapNode>, t: seq<HeapNode>)
    requires s != [] && t == s[..|s| - 1]
    requires forall k: nat | k < |s| - 1 :: DetachedAt(s, k)
    ensures forall k: nat | k < |t| :: LinkedAt(t, k)
  {
    forall k: nat | k < |t| ensures LinkedAt(t, k) {
      assert DetachedAt(s, k);
    }
  }

  lemma DropNode(s: seq<HeapNode>, elems: set<HeapNode>)
    requires Distinct(s) && SameElements(s, elems) && s != []
    ensures Distinct(s[..|s| - 1]) && SameElements(s[..|s| - 1], elems - {s[|s| - 1]})
    ensures At(s, |s| - 1) == s[|s| - 1] && s[|s| - 1] in elems
    ensures At(s[..|s| - 1], 0) == if |s| == 1 then null else At(s, 0)
  {
    var t := s[..|s| - 1];
    forall x | x in elems - {s[|s| - 1]} ensures x in t {
      var i: nat :| i < |s| && s[i] == x;
      assert t[i] == x;
    }
  }

  /** The links of the `k`-th node when `child` has taken the place of the `i`-th. */
  ghost predicate ReplacedAt(s: seq<HeapNode>, i: nat, child: HeapNode, k: nat)
    requires k < |s| && i < |s|
    reads s[k]
  {
    && s[k].left == (if 2 * k + 1 == i then child else At(s, 2 * k + 1))
    && s[k].right == (if 2 * k + 2 == i then child else At(s, 2 * k + 2))
    && s[k].parent == (if k == 0 then null else if Par(k) == i then child else s[Par(k)])
  }

  /** The links of `x` after `child` has taken the place of `node`, when they were `l`, `r` and
      `up` before. */
  ghost predicate Rehung(node: HeapNode, child: HeapNode, x: HeapNode, l: HeapNode?, r: HeapNode?, up: HeapNode?)
    reads x, child
  {
    && x.parent == (if x == child.left || x == child.right then child else up)
    && x.left == (if x == child.parent && l == node then child else l)
    && x.right == (if x == child.parent && l != node then child else r)
  }

  lemma ReplacedElsewhere(s: seq<HeapNode>, i: nat, child: HeapNode, k: nat, l: HeapNode?, r: HeapNode?, up: HeapNode?)
    requires i < |s| && k < |s| && k != i && Distinct(s)
    requires l == At(s, 2 * k + 1) && r == At(s, 2 * k + 2) && up == (if k == 0 then null else s[Par(k)])
    requires child.left == At(s, 2 * i + 1) && child.right == At(s, 2 * i + 2)
    requires child.parent == if i == 0 then null else s[Par(i)]
    requires Rehung(s[i], child, s[k], l, r, up)
    ensures ReplacedAt(s, i, child, k)
  {
    ChildrenPositions(s, i);
    ChildrenPositions(s, k);
  }

  lemma ReplacedLinks(s: seq<HeapNode>, i: nat, child: HeapNode, t: seq<HeapNode>)
    requires i < |s| && t == s[i := child]
    requires child.left == At(s, 2 * i + 1) && child.right == At(s, 2 * i + 2)
    requires child.parent == if i == 0 then null else s[Par(i)]
    requires forall k: nat | k < |s| && k != i :: ReplacedAt(s, i, child, k)
    ensures forall k: nat | k < |t| :: LinkedAt(t, k)
  {
    forall k: nat | k < |t| ensures LinkedAt(t, k) {
      if k != i {
        assert ReplacedAt(s, i, child, k);
      }
    }
  }

  lemma ReplaceNode(s: seq<HeapNode>, elems: set<HeapNode>, i: nat, child: HeapNode)
    requires Distinct(s) && SameElements(s, elems) && i < |s| && child !in elems
    ensures Distinct(s[i := child]) && SameElements(s[i := child], elems - {s[i]} + {child})
    ensures At(s[i := child], 0) == if i == 0 then child else At(s, 0)
  {
    var t := s[i := child];
    assert t[i] == child;
    forall x | x in elems - {s[i]} ensures x in t {
      var j: nat :| j < |s| && s[j] == x;
      assert t[j] == x;
    }
  }

  lemma ChildrenPositions(s: seq<HeapNode>, i: nat)
    requires Distinct(s) && i < |s|
    ensures forall k: nat | k < |s| :: (s[k] == At(s, 2 * i + 1) <==> k == 2 * i + 1)
    ensures forall k: nat | k < |s| :: (s[k] == At(s, 2 * i + 2) <==> k == 2 * i + 2)
    ensures forall k: nat | k < |s| :: (s[k] == s[i] <==> k == i) && (i > 0 ==> (s[k] == s[Par(i)] <==> k == Par(i)))
    ensures i > 0 ==> (At(s, 2 * Par(i) + 1) == s[i] <==> i == 2 * Par(i) + 1)
  {
  }

  lemma AppendNode(s: seq<HeapNode>, elems: set<HeapNode>, node: HeapNode)
    requires Distinct(s) && SameElements(s, elems) && node !in elems
    ensures Distinct(s + [node]) && SameElements(s + [node], elems + {node})
    ensures forall k: nat | k < |s| :: s[k] != node && s[k] in elems
  {
    var t := s + [node];
    assert t[|s|] == node;
    forall x | x in elems + {node} ensures x in t {
      if x in elems {
        var i: nat :| i < |s| && s[i] == x;
        assert t[i] == x;
      }
    }
  }

  lemma SwapDistinct<T>(s: seq<T>, i: nat, j: nat)
    requires i < |s| && j < |s| && Distinct(s)
    ensures Distinct(Swap(s, i, j)) && |Swap(s, i, j)| == |s|
    ensures Swap(s, i, j)[0] == if i == 0 then s[j] else if j == 0 then s[i] else s[0]
    ensures forall x :: x in Swap(s, i, j) <==> x in s
  {
    var r := Swap(s, i, j);
    assert r[i] == s[j] && r[j] == s[i];
    forall k: nat | k < |s| ensures s[k] in r {
      assert s[k] == r[if k == i then j else if k == j then i else k];
    }
  }

  lemma SwapSameElements(s: seq<HeapNode>, i: nat, j: nat, elems: set<HeapNode>)
    requires i < |s| && j < |s| && Distinct(s) && SameElements(s, elems)
    ensures SameElements(Swap(s, i, j), elems)
  {
    SwapDistinct(s, i, j);
  }

  /** A neighbour is recognised by its position. */
  lemma NeighbourPosition(s: seq<HeapNode>, p: nat, i: nat, k: nat)
    requires 0 < i < |s| && p == Par(i) && k < |s| && Distinct(s)
    ensures var around := NeighboursOf(s, p, i);
      && (s[k] == s[p] <==> k == p) && (s[k] == s[i] <==> k == i)
      && (s[k] == around.left <==> k == 2 * i + 1) && (s[k] == around.right <==> k == 2 * i + 2)
      && (s[k] == around.sibling <==> k == if i == 2 * p + 1 then i + 1 else i - 1)
      && (s[k] == around.above <==> p > 0 && k == Par(p))
    ensures var around := NeighboursOf(s, p, i);
      && around.left == At(s, 2 * i + 1) && around.right == At(s, 2 * i + 2)
      && around.sibling == At(s, if i == 2 * p + 1 then i + 1 else i - 1)
      && around.above == if p == 0 then null else s[Par(p)]
    ensures At(s, 2 * p + 1) == s[i] <==> i == 2 * p + 1
    ensures At(s, 2 * k + 1) == s[p] <==> p == 2 * k + 1
    ensures At(s, 2 * k + 2) == s[p] <==> p == 2 * k + 2
  {
  }

  /** The links of a node other than the two. */
  lemma ExchangedElsewhere(s: seq<HeapNode>, p: nat, i: nat, k: nat, l: HeapNode?, r: HeapNode?, up: HeapNode?)
    requires 0 < i < |s| && p == Par(i) && k < |s| && k != p && k != i && Distinct(s)
    requires l == At(s, 2 * k + 1) && r == At(s, 2 * k + 2) && up == (if k == 0 then null else s[Par(k)])
    requires NeighboursOf(s, p, i).Moved(s[p], s[i], s[k], l, r, up)
    ensures ExchangedAt(s, p, i, k)
  {
    NeighbourPosition(s, p, i, k);
    hide Distinct, At, NeighboursOf;
  }

  lemma SwapRelinks(s: seq<HeapNode>, p: nat, i: nat)
    requires 0 < i < |s| && p == Par(i)
    requires forall k: nat | k < |s| :: ExchangedAt(s, p, i, k)
    ensures forall k: nat | k < |s| :: LinkedAt(Swap(s, p, i), k)
  {
    forall k: nat | k < |s| ensures LinkedAt(Swap(s, p, i), k) {
      assert ExchangedAt(s, p, i, if k == p then i else if k == i then p else k);
    }
  }
}
