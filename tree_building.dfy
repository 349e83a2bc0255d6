/**
 * Building FP-trees: `insert_transaction` and `construct_initial_fp_tree`.
 *
 * After inserting `t` into a tree of `ins`, the nodes are the node paths of
 * `ins + [t]` and every count is a prefix count of `ins + [t]`; the loop of
 * `InsertTransaction` keeps the invariant `Walking` of module InsertionWalk.
 */
module TreeBuilding {
  import opened Basics
  import opened PrefixPaths
  import opened ItemCounting
  import opened FPTrees
  import opened InsertionWalk

  /**
   * Line 99 of `insert_transaction`: the existing child of `current` for
   * `item` counts one more transaction.
   */
  method BumpChild<T(==,!new)>(tree: FPTree<T>, current: nat, item: T,
                               ghost ps: seq<seq<T>>, ghost ins: seq<seq<T>>, ghost t: seq<T>, ghost k: nat)
    requires Walking(tree.nodes, tree.header, tree.order, ps, ins, t, k, current)
    requires k < |t| && t[k] == item && item in tree.nodes[current].children
    modifies tree
    ensures current < |tree.nodes| && tree.nodes[current].children == old(tree.nodes[current].children)
    ensures Walking(tree.nodes, tree.header, tree.order, ps, ins, t, k + 1, tree.nodes[current].children[item])
    ensures SameShape(old(tree.nodes), tree.nodes)
    ensures tree.inserted == old(tree.inserted)
  {
    var child := tree.nodes[current].children[item];
    ChildPath(tree.nodes, current, item);
    var bumped := tree.nodes[child := tree.nodes[child].(count := tree.nodes[child].count + 1)];
    WalkExisting(tree.nodes, tree.header, tree.order, ps, ins, t, k, current, child, bumped);
    tree.nodes := bumped;
  }

  /**
   * Lines 101-110 of `insert_transaction`: a new node for `item` becomes the
   * child of `current`; it is linked after the last node of its item's
   * sibling chain, or, for an item without a chain, becomes its header entry.
   */
  method AddChild<T(==,!new)>(tree: FPTree<T>, current: nat, item: T,
                              ghost ps: seq<seq<T>>, ghost ins: seq<seq<T>>, ghost t: seq<T>, ghost k: nat)
    requires Walking(tree.nodes, tree.header, tree.order, ps, ins, t, k, current)
    requires k < |t| && t[k] == item && item !in tree.nodes[current].children
    modifies tree
    ensures Walking(tree.nodes, tree.header, tree.order, ps + [t[..k + 1]], ins, t, k + 1, |old(tree.nodes)|)
    ensures current < |tree.nodes| && item in tree.nodes[current].children
    ensures tree.nodes[current].children[item] == |old(tree.nodes)|
    ensures SameShape(old(tree.nodes), tree.nodes)
    ensures tree.inserted == old(tree.inserted)
  {
    ghost var nodes0, h0, o0 := tree.nodes, tree.header, tree.order;
    var n := |tree.nodes|;
    var last: nat := 0;
    if item in tree.header {
      assert HeaderEntry(tree.nodes, tree.header, item);
      last := ChainTail(tree, tree.header[item]);
      tree.nodes := tree.nodes[last := tree.nodes[last].(next := Some(n))];
    } else {
      tree.header := tree.header[item := n];
      tree.order := tree.order + [item];
    }
    tree.nodes := AttachChild(tree.nodes, current, item);
    WalkNew(nodes0, h0, o0, ps, ins, t, k, current, last, tree.nodes, tree.header, tree.order, t[..k + 1], ps + [t[..k + 1]]);
  }

  /**
   * `insert_transaction`: walk down from the root along the transaction's
   * items, raising the count of each existing child and creating the
   * missing ones. Existing nodes keep their items and parents.
   */
  method InsertTransaction<T(==,!new)>(transaction: seq<T>, tree: FPTree<T>)
    requires tree.Valid()
    modifies tree
    ensures tree.Valid()
    ensures tree.inserted == old(tree.inserted) + [transaction]
    ensures SameShape(old(tree.nodes), tree.nodes)
  {
    ghost var ins := tree.inserted;
    ghost var ps := NodePaths(ins);
    ghost var nodes0 := tree.nodes;
    WalkStart(tree.nodes, tree.header, tree.order, ins, transaction);
    var current: nat := 0;
    for k := 0 to |transaction|
      invariant Walking(tree.nodes, tree.header, tree.order, ps, ins, transaction, k, current)
      invariant tree.inserted == ins
      invariant SameShape(nodes0, tree.nodes)
    {
      var item := transaction[k];
      ghost var before := tree.nodes;
      if item in tree.nodes[current].children {
        BumpChild(tree, current, item, ps, ins, transaction, k);
      } else {
        AddChild(tree, current, item, ps, ins, transaction, k);
        ps := ps + [transaction[..k + 1]];
      }
      SameShapeTrans(nodes0, before, tree.nodes);
      current := tree.nodes[current].children[item];
    }
    WalkDone(tree.nodes, tree.header, tree.order, ps, ins, transaction, current);
    tree.inserted := ins + [transaction];
  }

  /**
   * What one `insert_transaction` call does to the nodes: every old node
   * keeps its path and gains one count exactly when its path is a prefix of
   * the transaction; every new node has count 1 and a path that is a prefix
   * of the transaction; and the whole transaction ends at some node.
   */
  lemma {:induction false} InsertEffect<T(!new)>(nodes0: seq<Node<T>>, header0: map<T, nat>, order0: seq<T>,
                              nodes1: seq<Node<T>>, header1: map<T, nat>, order1: seq<T>,
                              ins: seq<seq<T>>, t: seq<T>)
    requires TreeInv(nodes0, header0, order0, ins) && TreeInv(nodes1, header1, order1, ins + [t])
    requires SameShape(nodes0, nodes1)
    ensures forall i :: 0 < i < |nodes0| ==>
              Path(nodes1, i) == Path(nodes0, i) &&
              nodes1[i].count == nodes0[i].count + (if Path(nodes0, i) <= t then 1 else 0)
    ensures forall i :: |nodes0| <= i < |nodes1| ==> nodes1[i].count == 1 && Path(nodes1, i) <= t
    ensures t != [] ==> exists i :: 0 < i < |nodes1| && Path(nodes1, i) == t
  {
    InsertEffectOn(nodes0, nodes1, NodePaths(ins), NodePaths(ins + [t]), ins, t);
  }

  /**
   * `InsertEffect` stated on the node paths and counts alone. `InsertEffect`
   * takes the tree invariant, which also describes the header table and the
   * sibling chains; this lemma requires only the path and count facts its
   * proof uses, so that proof does not reason about the rest.
   */
  lemma {:induction false} InsertEffectOn<T>(nodes0: seq<Node<T>>, nodes1: seq<Node<T>>, ps0: seq<seq<T>>, ps1: seq<seq<T>>,
                          ins: seq<seq<T>>, t: seq<T>)
    requires Shaped(nodes0) && Shaped(nodes1) && SameShape(nodes0, nodes1)
    requires PathsMatch(nodes0, ps0) && PathsMatch(nodes1, ps1)
    requires ps0 == NodePaths(ins) && ps1 == NodePaths(ins + [t])
    requires forall i :: 0 < i < |nodes0| ==> Counted(nodes0, ps0, ins, i)
    requires forall i :: 0 < i < |nodes1| ==> Counted(nodes1, ps1, ins + [t], i)
    ensures forall i :: 0 < i < |nodes0| ==>
              Path(nodes1, i) == Path(nodes0, i) &&
              nodes1[i].count == nodes0[i].count + (if Path(nodes0, i) <= t then 1 else 0)
    ensures forall i :: |nodes0| <= i < |nodes1| ==> nodes1[i].count == 1 && Path(nodes1, i) <= t
    ensures t != [] ==> exists i :: 0 < i < |nodes1| && Path(nodes1, i) == t
  {
    NodePathsGrow(ins, t);
    forall i | 0 < i < |nodes0|
      ensures Path(nodes1, i) == Path(nodes0, i)
      ensures nodes1[i].count == nodes0[i].count + (if Path(nodes0, i) <= t then 1 else 0)
    {
      OldNodeEffect(nodes0, nodes1, ps0, ps1, ins, t, i);
    }
    NewNodesEffect(nodes1, ps0, ps1, ins, t, |nodes0|);
    if t != [] {
      TransactionNode(nodes1, ps1, ins, t);
    }
  }

  lemma {:induction false} NodePathsGrow<T>(ins: seq<seq<T>>, t: seq<T>)
    ensures NodePaths(ins) <= NodePaths(ins + [t])
  {
    NodePathsSnoc(ins, t);
    AddPrefixesSpec(NodePaths(ins), t, 0);
  }

  lemma {:induction false} NewNodesEffect<T>(nodes1: seq<Node<T>>, ps0: seq<seq<T>>, ps1: seq<seq<T>>, ins: seq<seq<T>>, t: seq<T>, n0: nat)
    requires Shaped(nodes1) && PathsMatch(nodes1, ps1) && n0 == |ps0| + 1
    requires ps0 == NodePaths(ins) && ps1 == NodePaths(ins + [t])
    requires forall i :: 0 < i < |nodes1| ==> Counted(nodes1, ps1, ins + [t], i)
    ensures forall i :: n0 <= i < |nodes1| ==> nodes1[i].count == 1 && Path(nodes1, i) <= t
  {
    NodePathsSnoc(ins, t);
    AddPrefixesSpec(ps0, t, 0);
    NodePathsSpec(ins);
    NodePathsSpec(ins + [t]);
    forall i | n0 <= i < |nodes1|
      ensures nodes1[i].count == 1 && Path(nodes1, i) <= t
    {
      NewNodeEffect(nodes1, ps0, ps1, ins, t, i);
    }
  }

  /** The whole transaction ends at some node. */
  lemma {:induction false} TransactionNode<T>(nodes1: seq<Node<T>>, ps1: seq<seq<T>>, ins: seq<seq<T>>, t: seq<T>)
    requires t != [] && Shaped(nodes1) && PathsMatch(nodes1, ps1) && ps1 == NodePaths(ins + [t])
    ensures exists i :: 0 < i < |nodes1| && Path(nodes1, i) == t
  {
    NodePathsSpec(ins + [t]);
    CountPrefixSnoc(ins, t, t);
    assert t in ps1;
    var j :| 0 <= j < |ps1| && ps1[j] == t;
    assert Path(nodes1, j + 1) == t;
  }

  /** A node that existed before the insertion keeps its path and counts the new transaction when its path is a prefix of it. */
  lemma {:induction false} OldNodeEffect<T>(nodes0: seq<Node<T>>, nodes1: seq<Node<T>>, ps0: seq<seq<T>>, ps1: seq<seq<T>>,
                         ins: seq<seq<T>>, t: seq<T>, i: nat)
    requires Shaped(nodes0) && Shaped(nodes1) && SameShape(nodes0, nodes1) && 0 < i < |nodes0|
    requires PathsMatch(nodes0, ps0) && ps0 <= ps1
    requires Counted(nodes0, ps0, ins, i) && Counted(nodes1, ps1, ins + [t], i)
    ensures Path(nodes1, i) == Path(nodes0, i)
    ensures nodes1[i].count == nodes0[i].count + (if Path(nodes0, i) <= t then 1 else 0)
  {
    PathFrame(nodes0, nodes1, i);
    CountPrefixSnoc(ins, t, ps0[i - 1]);
  }

  /** A node created by the insertion counts only the new transaction, whose prefix its path is. */
  lemma {:induction false} NewNodeEffect<T>(nodes1: seq<Node<T>>, ps0: seq<seq<T>>, ps1: seq<seq<T>>,
                         ins: seq<seq<T>>, t: seq<T>, i: nat)
    requires Shaped(nodes1) && PathsMatch(nodes1, ps1) && |ps0| < i < |nodes1|
    requires Distinct(ps1) && ps0 <= ps1
    requires forall p :: p in ps0 <==> p != [] && CountPrefix(ins, p) > 0
    requires forall p :: p in ps1 <==> p in ps0 || (0 < |p| && p <= t)
    requires Counted(nodes1, ps1, ins + [t], i)
    ensures nodes1[i].count == 1 && Path(nodes1, i) <= t
  {
    var p := ps1[i - 1];
    assert p in ps1;
    forall j | 0 <= j < |ps0|
      ensures ps0[j] != p
    {
      assert ps0[j] == ps1[j];
    }
    CountPrefixSnoc(ins, t, p);
  }

  /**
   * `construct_initial_fp_tree`: count every item, keep those reaching
   * `minSupport`, and insert each transaction reduced to its frequent items
   * and sorted by descending count into a fresh tree. The tree then holds
   * exactly the rewritten transactions.
   */
  method ConstructInitialFPTree<T(==,!new)>(data: seq<seq<T>>, minSupport: int) returns (tree: FPTree<T>)
    ensures fresh(tree) && tree.Valid()
    ensures tree.inserted == PrepareData(data, minSupport)
  {
    var seen, counts := CountItems(data);
    var frequent := FrequentCounts(counts, minSupport);
    FrequentCountsOfData(data, counts, minSupport);
    ghost var prepared := PrepareData(data, minSupport);
    tree := new FPTree();
    for i := 0 to |data|
      invariant fresh(tree) && tree.Valid()
      invariant tree.inserted == prepared[..i]
    {
      var transaction := KeepFrequent(data[i], frequent);
      transaction := SortByCount(transaction, frequent);
      InsertTransaction(transaction, tree);
      TakeSnoc(prepared, i);
    }
    assert prepared[..|data|] == prepared;
  }

  /**
   * The header table of the tree built from `data` has exactly the items
   * that occur in `data` at least `minSupport` times as keys.
   */
  lemma {:induction false} BuiltKeys<T(!new)>(data: seq<seq<T>>, minSupport: int, x: T)
    ensures x in KeyOrder(NodePaths(PrepareData(data, minSupport)))
            <==> x in Flatten(data) && Occurrences(data, x) >= minSupport
  {
    KeyOrderItems(PrepareData(data, minSupport), x);
    PrepareDataItems(data, minSupport, x);
  }
}
