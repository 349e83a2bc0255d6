/**
 * The FP-tree as an arena of nodes addressed by index. Node 0 is the root
 * (`FPNode(None, 0)`); `parent`, `children` and `next` hold indices instead of
 * references. A tree object owns the arena, the header table (item to first
 * node of its sibling chain) and the header table's key order, and the ghost
 * field `inserted` records the transactions inserted so far, so that the
 * object invariant can say what the nodes mean (see module PrefixPaths).
 */
module FPTrees {
  import opened Basics
  import opened PrefixPaths

  /** `FPNode`: item (None for the root), count, parent, children by item, next node with the same item. */
  datatype Node<T> = Node(item: Option<T>, count: nat, parent: Option<nat>, children: map<T, nat>, next: Option<nat>)

  /** The root is node 0 with no item and no parent; every other node has an item and an older parent. */
  ghost predicate Shaped<T>(nodes: seq<Node<T>>)
  {
    && |nodes| >= 1
    && nodes[0].item == None && nodes[0].parent == None
    && forall i :: 0 < i < |nodes| ==>
         nodes[i].item.Some? && nodes[i].parent.Some? && nodes[i].parent.value < i
  }

  /** The items from the root's child down to node `i`, inclusive. */
  ghost function Path<T>(nodes: seq<Node<T>>, i: nat): seq<T>
    requires Shaped(nodes) && i < |nodes|
    decreases i
  {
    if i == 0 then [] else Path(nodes, nodes[i].parent.value) + [nodes[i].item.value]
  }

  /** Number of parent links from node `i` to the root. */
  ghost function Depth<T>(nodes: seq<Node<T>>, i: nat): nat
    requires Shaped(nodes) && i < |nodes|
    decreases i
  {
    if i == 0 then 0 else 1 + Depth(nodes, nodes[i].parent.value)
  }

  /** The node reached from `i` by following `m` parent links (the root absorbs further steps). */
  ghost function Ancestor<T>(nodes: seq<Node<T>>, i: nat, m: nat): (a: nat)
    requires Shaped(nodes) && i < |nodes|
    ensures a < |nodes|
    decreases m
  {
    if m == 0 || i == 0 then i else Ancestor(nodes, nodes[i].parent.value, m - 1)
  }

  /** Every parent chain reaches the root, after exactly `Depth` steps. */
  lemma {:induction false} AncestorSteps<T>(nodes: seq<Node<T>>, i: nat, m: nat)
    requires Shaped(nodes) && i < |nodes|
    ensures Ancestor(nodes, i, Depth(nodes, i)) == 0
    ensures m < Depth(nodes, i) ==>
              Ancestor(nodes, i, m) > 0 && Ancestor(nodes, i, m + 1) == nodes[Ancestor(nodes, i, m)].parent.value
    decreases i
  {
    if i > 0 {
      var p := nodes[i].parent.value;
      AncestorSteps(nodes, p, if m > 0 then m - 1 else 0);
    }
  }

  /** A node's path lists its ancestors' items, the root's child first and the node's own item last. */
  lemma {:induction false} PathAncestors<T>(nodes: seq<Node<T>>, i: nat)
    requires Shaped(nodes) && i < |nodes|
    ensures |Path(nodes, i)| == Depth(nodes, i)
    ensures forall k :: 0 <= k < |Path(nodes, i)| ==>
              Some(Path(nodes, i)[k]) == nodes[Ancestor(nodes, i, |Path(nodes, i)| - 1 - k)].item
    decreases i
  {
    if i > 0 {
      var p := nodes[i].parent.value;
      PathAncestors(nodes, p);
      var path := Path(nodes, i);
      forall k | 0 <= k < |path|
        ensures Some(path[k]) == nodes[Ancestor(nodes, i, |path| - 1 - k)].item
      {
        if k < |path| - 1 {
          assert Ancestor(nodes, i, |path| - 1 - k) == Ancestor(nodes, p, |path| - 2 - k);
        }
      }
    }
  }

  /** `b` keeps the items and parents of every node of `a`. */
  ghost predicate SameShape<T>(a: seq<Node<T>>, b: seq<Node<T>>)
  {
    |a| <= |b| && forall j :: 0 <= j < |a| ==> b[j].item == a[j].item && b[j].parent == a[j].parent
  }

  lemma {:induction false} PathFrame<T>(a: seq<Node<T>>, b: seq<Node<T>>, i: nat)
    requires Shaped(a) && Shaped(b) && SameShape(a, b) && i < |a|
    ensures Path(b, i) == Path(a, i)
    decreases i
  {
    if i > 0 {
      PathFrame(a, b, a[i].parent.value);
    }
  }

  /** The child of node `i` registered for `x` is a later node carrying `x` whose parent is `i`. */
  ghost predicate ChildOk<T>(nodes: seq<Node<T>>, i: nat, x: T)
    requires i < |nodes| && x in nodes[i].children
  {
    var c := nodes[i].children[x];
    0 < c < |nodes| && nodes[c].parent == Some(i) && nodes[c].item == Some(x)
  }

  /** Node `c` is registered under its parent for its own item. */
  ghost predicate ParentOk<T>(nodes: seq<Node<T>>, c: nat)
    requires Shaped(nodes) && 0 < c < |nodes|
  {
    var p := nodes[c].parent.value;
    nodes[c].item.value in nodes[p].children && nodes[p].children[nodes[c].item.value] == c
  }

  /**
   * Children are keyed by their item and point back to their parent, and
   * every non-root node is the child of its parent for its own item: under
   * any node there is at most one child per item.
   */
  ghost predicate ChildrenLinked<T>(nodes: seq<Node<T>>)
    requires Shaped(nodes)
  {
    && (forall i, x :: 0 <= i < |nodes| && x in nodes[i].children ==> ChildOk(nodes, i, x))
    && (forall c :: 0 < c < |nodes| ==> ParentOk(nodes, c))
  }

  /** Node `i` (for `i > 0`) is the node for path `ps[i - 1]`. */
  ghost predicate PathsMatch<T>(nodes: seq<Node<T>>, ps: seq<seq<T>>)
    requires Shaped(nodes)
  {
    |nodes| == |ps| + 1 && forall i :: 0 < i < |nodes| ==> Path(nodes, i) == ps[i - 1]
  }

  /**
   * The `next` link of node `i` points to the next node, in creation order,
   * that carries the same item, and is absent when there is none.
   */
  ghost predicate NextLinked<T>(nodes: seq<Node<T>>, i: nat)
    requires i < |nodes|
  {
    match nodes[i].next
    case None => forall j :: i < j < |nodes| ==> nodes[j].item != nodes[i].item
    case Some(j) =>
      && i < j < |nodes| && nodes[j].item == nodes[i].item
      && forall k :: i < k < j ==> nodes[k].item != nodes[i].item
  }

  ghost predicate ChainLinked<T>(nodes: seq<Node<T>>)
  {
    forall i :: 0 <= i < |nodes| ==> NextLinked(nodes, i)
  }

  /**
   * Growing a chain-linked arena by nodes appended at the end, keeping the
   * items of the existing ones, leaves every existing `next` link as it was;
   * a node that ended its chain either still does or now links to a new node.
   */
  lemma {:induction false} LinksKept<T>(a: seq<Node<T>>, b: seq<Node<T>>, i: nat)
    requires SameShape(a, b) && ChainLinked(a) && ChainLinked(b) && i < |a|
    ensures a[i].next.Some? ==> b[i].next == a[i].next
    ensures a[i].next.None? ==> b[i].next.None? || |a| <= b[i].next.value
  {
    assert NextLinked(a, i) && NextLinked(b, i);
    if a[i].next.Some? {
      assert b[a[i].next.value].item == b[i].item;
    }
  }

  /** Node `j` exists and carries `x`. */
  ghost predicate Carries<T>(nodes: seq<Node<T>>, j: nat, x: T)
  {
    j < |nodes| && nodes[j].item == Some(x)
  }

  /** A header key `x` points to a node carrying `x`, and no earlier node carries `x`. */
  ghost predicate HeaderEntry<T>(nodes: seq<Node<T>>, header: map<T, nat>, x: T)
  {
    x in header ==>
      && 0 < header[x] < |nodes| && Carries(nodes, header[x], x)
      && forall j :: 0 < j < header[x] ==> !Carries(nodes, j, x)
  }

  /** Node `i` carries an item that is a header key. */
  ghost predicate Keyed<T>(nodes: seq<Node<T>>, header: map<T, nat>, i: nat)
  {
    0 < i < |nodes| ==> nodes[i].item.Some? && nodes[i].item.value in header
  }

  /**
   * The header table maps each item carried by some node to the first node
   * created with it; its key order is the order in which items first got a node.
   */
  ghost predicate HeaderLinked<T(!new)>(nodes: seq<Node<T>>, header: map<T, nat>, order: seq<T>, ps: seq<seq<T>>)
  {
    && (forall x :: x in header <==> x in order)
    && order == KeyOrder(ps)
    && (forall x :: HeaderEntry(nodes, header, x))
    && (forall i :: 0 < i < |nodes| ==> Keyed(nodes, header, i))
  }

  /** Node `i` counts the transactions of `ins` that start with its path `ps[i - 1]`. */
  ghost predicate Counted<T>(nodes: seq<Node<T>>, ps: seq<seq<T>>, ins: seq<seq<T>>, i: nat)
  {
    0 < i < |nodes| && i <= |ps| && nodes[i].count == CountPrefix(ins, ps[i - 1])
  }

  /**
   * The object invariant: the nodes are exactly the node paths of the
   * inserted transactions, each counting the transactions that start with
   * its path; children, sibling chains and header table are linked up.
   */
  ghost predicate TreeInv<T(!new)>(nodes: seq<Node<T>>, header: map<T, nat>, order: seq<T>, inserted: seq<seq<T>>)
  {
    var ps := NodePaths(inserted);
    && Shaped(nodes)
    && ChildrenLinked(nodes)
    && PathsMatch(nodes, ps)
    && ChainLinked(nodes)
    && HeaderLinked(nodes, header, order, ps)
    && nodes[0].count == 0
    && forall i :: 0 < i < |nodes| ==> Counted(nodes, ps, inserted, i)
  }

  class FPTree<T(==,!new)> {
    var nodes: seq<Node<T>>
    var header: map<T, nat>
    var order: seq<T>
    ghost var inserted: seq<seq<T>>

    ghost predicate Valid()
      reads this
    {
      TreeInv(nodes, header, order, inserted)
    }

    /** An empty tree: `root = FPNode(None, 0)` and `header_table = {}`. */
    constructor ()
      ensures Valid() && inserted == []
      ensures nodes == [Node(None, 0, None, map[], None)] && header == map[] && order == []
    {
      nodes := [Node(None, 0, None, map[], None)];
      header := map[];
      order := [];
      inserted := [];
    }
  }

  /**
   * `get_prefix_path`: collect the items from `node` up to and including the
   * root, drop the root's `None`, and reverse. The result is the node's path:
   * as long as the node is deep, its own item last, its ancestors' items from
   * the root's child downward before it.
   */
  method GetPrefixPath<T(==,!new)>(tree: FPTree<T>, node: nat) returns (path: seq<T>)
    requires Shaped(tree.nodes) && node < |tree.nodes|
    ensures path == Path(tree.nodes, node)
    ensures |path| == Depth(tree.nodes, node)
    ensures node > 0 ==> path != [] && Some(path[|path| - 1]) == tree.nodes[node].item
    ensures forall k :: 0 <= k < |path| ==>
              Some(path[k]) == tree.nodes[Ancestor(tree.nodes, node, |path| - 1 - k)].item
  {
    ghost var nodes := tree.nodes;
    ghost var depth := Depth(nodes, node);
    AncestorSteps(nodes, node, 0);
    var collected: seq<Option<T>> := [];
    var current: Option<nat> := Some(node);
    while current.Some?
      invariant current.Some? ==>
        |collected| <= depth && current.value == Ancestor(nodes, node, |collected|)
      invariant current.None? ==> |collected| == depth + 1 && collected[depth] == None
      invariant forall k :: 0 <= k < |collected| && k <= depth ==>
        collected[k] == nodes[Ancestor(nodes, node, k)].item
      decreases if current.Some? then current.value + 1 else 0
    {
      var c := current.value;
      AncestorSteps(nodes, node, |collected|);
      collected := collected + [tree.nodes[c].item];
      current := tree.nodes[c].parent;
    }
    collected := collected[..|collected| - 1];
    forall k | 0 <= k < depth
      ensures collected[k].Some?
    {
      AncestorSteps(nodes, node, k);
    }
    path := [];
    for j := 0 to |collected|
      invariant |path| == j
      invariant forall k :: 0 <= k < j ==> Some(path[k]) == collected[depth - 1 - k]
    {
      path := path + [collected[|collected| - 1 - j].value];
    }
    PathAncestors(nodes, node);
  }

  /**
   * The walk `while last_node.next is not None: last_node = last_node.next`:
   * from a node it reaches the last node created with the same item.
   */
  method ChainTail<T(==,!new)>(tree: FPTree<T>, first: nat) returns (last: nat)
    requires ChainLinked(tree.nodes) && first < |tree.nodes|
    ensures first <= last < |tree.nodes|
    ensures tree.nodes[last].item == tree.nodes[first].item && tree.nodes[last].next == None
    ensures forall j :: last < j < |tree.nodes| ==> tree.nodes[j].item != tree.nodes[first].item
  {
    last := first;
    while tree.nodes[last].next.Some?
      invariant first <= last < |tree.nodes|
      invariant tree.nodes[last].item == tree.nodes[first].item
      decreases |tree.nodes| - last
    {
      assert NextLinked(tree.nodes, last);
      last := tree.nodes[last].next.value;
    }
    assert NextLinked(tree.nodes, last);
  }

  /** The indices `j >= from` of the nodes carrying `x`, in creation order. */
  ghost function NodesWith<T>(nodes: seq<Node<T>>, x: T, from: nat): seq<nat>
    decreases |nodes| - from
  {
    if from >= |nodes| then []
    else (if nodes[from].item == Some(x) then [from] else []) + NodesWith(nodes, x, from + 1)
  }

  /** The nodes visited by following `next` links from node `i`. */
  ghost function ChainFrom<T>(nodes: seq<Node<T>>, i: nat): seq<nat>
    requires ChainLinked(nodes) && i < |nodes|
    decreases |nodes| - i
  {
    assert NextLinked(nodes, i);
    match nodes[i].next
    case None => [i]
    case Some(j) => [i] + ChainFrom(nodes, j)
  }

  lemma {:induction false} NodesWithSkip<T>(nodes: seq<Node<T>>, x: T, a: nat, b: nat)
    requires a <= b <= |nodes|
    requires forall k :: a <= k < b ==> nodes[k].item != Some(x)
    ensures NodesWith(nodes, x, a) == NodesWith(nodes, x, b)
    decreases b - a
  {
    if a < b {
      NodesWithSkip(nodes, x, a + 1, b);
    }
  }

  lemma {:induction false} ChainFromSpec<T>(nodes: seq<Node<T>>, x: T, i: nat)
    requires ChainLinked(nodes) && i < |nodes| && nodes[i].item == Some(x)
    ensures ChainFrom(nodes, i) == NodesWith(nodes, x, i)
    decreases |nodes| - i
  {
    assert NextLinked(nodes, i);
    match nodes[i].next
    case None =>
      NodesWithSkip(nodes, x, i + 1, |nodes|);
    case Some(j) =>
      NodesWithSkip(nodes, x, i + 1, j);
      ChainFromSpec(nodes, x, j);
  }

  /**
   * Following `next` links from the header entry of `x` visits exactly the
   * nodes that carry `x`, each once, in the order they were created.
   */
  lemma {:induction false} HeaderChainSpec<T(!new)>(nodes: seq<Node<T>>, header: map<T, nat>, order: seq<T>, ps: seq<seq<T>>, x: T)
    requires Shaped(nodes) && ChainLinked(nodes) && HeaderLinked(nodes, header, order, ps)
    requires x in header
    ensures HeaderEntry(nodes, header, x) && ChainFrom(nodes, header[x]) == NodesWith(nodes, x, 0)
  {
    assert HeaderEntry(nodes, header, x);
    forall k | 0 <= k < header[x]
      ensures nodes[k].item != Some(x)
    {
      if k > 0 {
        assert !Carries(nodes, k, x);
      }
    }
    NodesWithSkip(nodes, x, 0, header[x]);
    ChainFromSpec(nodes, x, header[x]);
  }
}
