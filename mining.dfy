/**
 * `mine_frequent_itemsets`: the recursive miner, proved against a
 * specification on the inserted transactions.
 *
 * For each header key `x`, in the header table's key order, the miner reads
 * the count of the FIRST node of `x`'s sibling chain as the support of `x`.
 * If that reaches `minSupport` it emits `prefix + [x]`, collects the path
 * above every node of the chain (once per node, whatever the node's count),
 * builds a tree from those conditional transactions, and mines it with
 * prefix `prefix + [x]`.
 */
module Mining {
  import opened Basics
  import opened PrefixPaths
  import opened ItemCounting
  import opened FPTrees
  import opened TreeBuilding

  /** Rewriting transactions never makes them longer. */
  lemma {:induction false} PrepareDataShorter<T(!new)>(data: seq<seq<T>>, minSupport: int)
    ensures MaxLen(PrepareData(data, minSupport)) <= MaxLen(data)
  {
    var r := PrepareData(data, minSupport);
    forall i | 0 <= i < |r|
      ensures |r[i]| <= MaxLen(data)
    {
      PrepareTransactionSpec(data[i], FreqTable(data, minSupport));
    }
  }

  /** The conditional transactions of a header key are rewritten into strictly shorter ones. */
  lemma {:induction false} CondBounded<T(!new)>(ts: seq<seq<T>>, x: T, minSupport: int)
    requires x in KeyOrder(NodePaths(ts))
    ensures MaxLen(PrepareData(CondUpTo(NodePaths(ts), x, |NodePaths(ts)|), minSupport)) < MaxLen(ts)
  {
    var ps := NodePaths(ts);
    var cond := CondUpTo(ps, x, |ps|);
    NodePathsBounded(ts);
    KeyOrderFirstIdx(ps, x);
    assert 0 < |ps[FirstIdx(ps, x)]| <= MaxLen(ts);
    CondShorter(ps, x, |ps|, MaxLen(ts));
    PrepareDataShorter(cond, minSupport);
  }

  /** The support the miner reads for header key `x`: the count of the first node carrying `x`. */
  ghost function FirstSupport<T(!new)>(ts: seq<seq<T>>, x: T): nat
    requires x in KeyOrder(NodePaths(ts))
  {
    var ps := NodePaths(ts);
    KeyOrderFirstIdx(ps, x);
    CountPrefix(ts, ps[FirstIdx(ps, x)])
  }

  /** The itemsets mined from the tree of `ts` under `prefix`. */
  ghost function MineSpec<T(!new)>(ts: seq<seq<T>>, minSupport: int, prefix: seq<T>): seq<seq<T>>
    decreases MaxLen(ts), 2, 0
  {
    MineKeys(ts, minSupport, prefix, KeyOrder(NodePaths(ts)))
  }

  /** The itemsets contributed by the header keys `ks`, in order. */
  ghost function MineKeys<T(!new)>(ts: seq<seq<T>>, minSupport: int, prefix: seq<T>, ks: seq<T>): seq<seq<T>>
    requires forall i :: 0 <= i < |ks| ==> ks[i] in KeyOrder(NodePaths(ts))
    decreases MaxLen(ts), 1, |ks|
  {
    if ks == [] then []
    else MineKeys(ts, minSupport, prefix, ks[..|ks| - 1]) + MineOne(ts, minSupport, prefix, ks[|ks| - 1])
  }

  /** The itemsets contributed by one header key: itself, then what its conditional tree yields. */
  ghost function MineOne<T(!new)>(ts: seq<seq<T>>, minSupport: int, prefix: seq<T>, x: T): seq<seq<T>>
    requires x in KeyOrder(NodePaths(ts))
    decreases MaxLen(ts), 0, 0
  {
    if FirstSupport(ts, x) < minSupport then []
    else
      var ps := NodePaths(ts);
      CondBounded(ts, x, minSupport);
      [prefix + [x]] + MineSpec(PrepareData(CondUpTo(ps, x, |ps|), minSupport), minSupport, prefix + [x])
  }

  /** Node `i` is in `x`'s sibling chain exactly when its path ends with `x`. */
  lemma {:induction false} CarriesEndsWith<T>(nodes: seq<Node<T>>, ps: seq<seq<T>>, i: nat, x: T)
    requires Shaped(nodes) && PathsMatch(nodes, ps) && 0 < i < |nodes|
    ensures EndsWith(ps[i - 1], x) <==> nodes[i].item == Some(x)
  {
    assert Path(nodes, i) == ps[i - 1];
  }

  /** The header entry of `x` is the node for the first path ending with `x`. */
  lemma {:induction false} HeaderFirstIdx<T(!new)>(nodes: seq<Node<T>>, header: map<T, nat>, order: seq<T>, ps: seq<seq<T>>, x: T)
    requires Shaped(nodes) && PathsMatch(nodes, ps) && HeaderLinked(nodes, header, order, ps) && x in header
    ensures 0 < header[x] < |nodes| && FirstIdx(ps, x) == header[x] - 1
  {
    assert HeaderEntry(nodes, header, x);
    var h := header[x];
    CarriesEndsWith(nodes, ps, h, x);
    forall j | 0 <= j < h - 1
      ensures !EndsWith(ps[j], x)
    {
      CarriesEndsWith(nodes, ps, j + 1, x);
      assert !Carries(nodes, j + 1, x);
    }
  }

  /** The chain of a header key starts at its header entry, and no earlier node adds a conditional transaction. */
  lemma {:induction false} ChainStart<T(!new)>(nodes: seq<Node<T>>, header: map<T, nat>, order: seq<T>, ps: seq<seq<T>>, x: T)
    requires Shaped(nodes) && PathsMatch(nodes, ps) && HeaderLinked(nodes, header, order, ps) && x in header
    ensures 0 < header[x] < |nodes| && nodes[header[x]].item == Some(x)
    ensures CondUpTo(ps, x, header[x] - 1) == []
  {
    assert HeaderEntry(nodes, header, x);
    forall j | 0 <= j < header[x] - 1
      ensures !EndsWith(ps[j], x)
    {
      CarriesEndsWith(nodes, ps, j + 1, x);
      assert !Carries(nodes, j + 1, x);
    }
    CondSkip(ps, x, 0, header[x] - 1);
  }

  /**
   * Moving from chain node `n` along its `next` link skips only nodes that
   * add no conditional transaction; at the end of the chain, no later node adds one.
   */
  lemma {:induction false} ChainStep<T>(nodes: seq<Node<T>>, ps: seq<seq<T>>, x: T, n: nat)
    requires Shaped(nodes) && PathsMatch(nodes, ps) && ChainLinked(nodes)
    requires 0 < n < |nodes| && nodes[n].item == Some(x)
    ensures nodes[n].next.Some? ==>
              var m := nodes[n].next.value;
              n < m < |nodes| && nodes[m].item == Some(x) && CondUpTo(ps, x, m - 1) == CondUpTo(ps, x, n)
    ensures nodes[n].next.None? ==> CondUpTo(ps, x, |ps|) == CondUpTo(ps, x, n)
  {
    assert NextLinked(nodes, n);
    var stop := if nodes[n].next.Some? then nodes[n].next.value - 1 else |ps|;
    forall j | n <= j < stop
      ensures !EndsWith(ps[j], x)
    {
      CarriesEndsWith(nodes, ps, j + 1, x);
    }
    CondSkip(ps, x, n, stop);
  }

  /** Chain node `n` adds its path without the last item, when that path is longer than one item. */
  lemma {:induction false} ChainCollect<T>(nodes: seq<Node<T>>, ps: seq<seq<T>>, x: T, n: nat, path: seq<T>)
    requires Shaped(nodes) && PathsMatch(nodes, ps)
    requires 0 < n < |nodes| && nodes[n].item == Some(x) && path == Path(nodes, n)
    ensures CondUpTo(ps, x, n) == CondUpTo(ps, x, n - 1) + (if |path| > 1 then [path[..|path| - 1]] else [])
  {
    CarriesEndsWith(nodes, ps, n, x);
  }

  /** One step of the chain walk: collecting at chain node `n` brings the list up to the next chain node, or to the end. */
  lemma {:induction false} ChainAdvance<T>(nodes: seq<Node<T>>, ps: seq<seq<T>>, x: T, n: nat, path: seq<T>,
                                          cond: seq<seq<T>>, cond': seq<seq<T>>)
    requires Shaped(nodes) && PathsMatch(nodes, ps) && ChainLinked(nodes)
    requires 0 < n < |nodes| && nodes[n].item == Some(x) && path == Path(nodes, n)
    requires cond == CondUpTo(ps, x, n - 1)
    requires cond' == cond + (if |path| > 1 then [path[..|path| - 1]] else [])
    ensures nodes[n].next.Some? ==>
              n < nodes[n].next.value < |nodes| && nodes[nodes[n].next.value].item == Some(x) &&
              cond' == CondUpTo(ps, x, nodes[n].next.value - 1)
    ensures nodes[n].next.None? ==> cond' == CondUpTo(ps, x, |ps|)
  {
    ChainCollect(nodes, ps, x, n, path);
    ChainStep(nodes, ps, x, n);
  }

  /**
   * The walk `while node is not None` along `x`'s sibling chain, from its
   * header entry: the path above every chain node longer than one item is
   * collected, without its last item.
   */
  method ConditionalData<T(==,!new)>(tree: FPTree<T>, item: T) returns (cond: seq<seq<T>>)
    requires Shaped(tree.nodes) && PathsMatch(tree.nodes, NodePaths(tree.inserted)) && ChainLinked(tree.nodes)
    requires HeaderLinked(tree.nodes, tree.header, tree.order, NodePaths(tree.inserted)) && item in tree.header
    ensures cond == CondUpTo(NodePaths(tree.inserted), item, |NodePaths(tree.inserted)|)
  {
    ghost var ps := NodePaths(tree.inserted);
    ghost var nodes := tree.nodes;
    ChainStart(nodes, tree.header, tree.order, ps, item);
    var node: Option<nat> := Some(tree.header[item]);
    cond := [];
    while node.Some?
      invariant node.Some? ==>
        0 < node.value < |nodes| && nodes[node.value].item == Some(item) &&
        cond == CondUpTo(ps, item, node.value - 1)
      invariant node.None? ==> cond == CondUpTo(ps, item, |ps|)
      decreases if node.Some? then |nodes| - node.value else 0
    {
      var n := node.value;
      var path := GetPrefixPath(tree, n);
      ghost var before := cond;
      if |path| > 1 {
        cond := cond + [path[..|path| - 1]];
      }
      ChainAdvance(nodes, ps, item, n, path, before, cond);
      node := tree.nodes[n].next;
    }
  }

  /** The support read from a valid tree is `FirstSupport`. */
  lemma {:induction false} FirstNodeSupport<T(!new)>(nodes: seq<Node<T>>, header: map<T, nat>, order: seq<T>, ins: seq<seq<T>>, x: T)
    requires TreeInv(nodes, header, order, ins) && x in header
    ensures x in KeyOrder(NodePaths(ins))
    ensures 0 < header[x] < |nodes| && nodes[header[x]].count == FirstSupport(ins, x)
  {
    var ps := NodePaths(ins);
    HeaderFirstIdx(nodes, header, order, ps, x);
    assert Counted(nodes, ps, ins, header[x]);
  }

  lemma {:induction false} MineOneUnfold<T(!new)>(ts: seq<seq<T>>, minSupport: int, prefix: seq<T>, x: T, cond: seq<seq<T>>)
    requires x in KeyOrder(NodePaths(ts)) && FirstSupport(ts, x) >= minSupport
    requires cond == CondUpTo(NodePaths(ts), x, |NodePaths(ts)|)
    ensures MineOne(ts, minSupport, prefix, x)
            == [prefix + [x]] + MineSpec(PrepareData(cond, minSupport), minSupport, prefix + [x])
  {
  }

  /** Appending `c` and then, if it is non-empty, `s` appends `[c] + s`. */
  lemma {:induction false} AppendThen<X>(a: seq<X>, c: X, s: seq<X>)
    ensures (if s != [] then a + [c] + s else a + [c]) == a + ([c] + s)
  {
    if s == [] {
      assert [c] + s == [c];
    }
  }

  lemma {:induction false} MineKeysSnoc<T(!new)>(ts: seq<seq<T>>, minSupport: int, prefix: seq<T>, ks: seq<T>, j: nat)
    requires j < |ks| && forall i :: 0 <= i < |ks| ==> ks[i] in KeyOrder(NodePaths(ts))
    ensures MineKeys(ts, minSupport, prefix, ks[..j + 1])
            == MineKeys(ts, minSupport, prefix, ks[..j]) + MineOne(ts, minSupport, prefix, ks[j])
  {
    assert ks[..j + 1][..j] == ks[..j];
  }

  /**
   * `mine_frequent_itemsets`: for each header key in order, if its first
   * node's count reaches `minSupport`, emit `prefix + [item]` and append
   * what the conditional tree of the item yields under that itemset.
   */
  method Mine<T(==,!new)>(tree: FPTree<T>, minSupport: int, prefix: seq<T>) returns (itemsets: seq<seq<T>>)
    requires tree.Valid()
    ensures itemsets == MineSpec(tree.inserted, minSupport, prefix)
    decreases MaxLen(tree.inserted)
  {
    ghost var ts := tree.inserted;
    ghost var ps := NodePaths(ts);
    itemsets := [];
    for j := 0 to |tree.order|
      invariant itemsets == MineKeys(ts, minSupport, prefix, tree.order[..j])
    {
      var item := tree.order[j];
      FirstNodeSupport(tree.nodes, tree.header, tree.order, ts, item);
      MineKeysSnoc(ts, minSupport, prefix, tree.order, j);
      var node := tree.header[item];
      var supportCount := tree.nodes[node].count;
      if supportCount >= minSupport {
        var currentItemset := prefix + [item];
        ghost var before := itemsets;
        itemsets := itemsets + [currentItemset];
        var cond := ConditionalData(tree, item);
        var conditionalTree := ConstructInitialFPTree(cond, minSupport);
        CondBounded(ts, item, minSupport);
        var conditionalItemsets := Mine(conditionalTree, minSupport, currentItemset);
        MineOneUnfold(ts, minSupport, prefix, item, cond);
        if conditionalItemsets != [] {
          itemsets := itemsets + conditionalItemsets;
        }
        AppendThen(before, currentItemset, conditionalItemsets);
      }
    }
    assert tree.order[..|tree.order|] == tree.order;
  }

  /** A header key exists only if some node path does, so the tree is at least one item deep. */
  lemma {:induction false} KeyDepth<T(!new)>(ts: seq<seq<T>>, x: T)
    requires x in KeyOrder(NodePaths(ts))
    ensures MaxLen(ts) >= 1
  {
    var ps := NodePaths(ts);
    NodePathsBounded(ts);
    KeyOrderFirstIdx(ps, x);
    assert 0 < |ps[FirstIdx(ps, x)]|;
  }

  /**
   * Every itemset mined under `prefix` extends it by at least one item and
   * by at most as many items as the longest transaction has.
   */
  lemma {:induction false} MineSpecShape<T(!new)>(ts: seq<seq<T>>, minSupport: int, prefix: seq<T>)
    ensures forall r :: r in MineSpec(ts, minSupport, prefix) ==> prefix < r && |r| <= |prefix| + MaxLen(ts)
    decreases MaxLen(ts), 2, 0
  {
    MineKeysShape(ts, minSupport, prefix, KeyOrder(NodePaths(ts)));
  }

  lemma {:induction false} MineKeysShape<T(!new)>(ts: seq<seq<T>>, minSupport: int, prefix: seq<T>, ks: seq<T>)
    requires forall i :: 0 <= i < |ks| ==> ks[i] in KeyOrder(NodePaths(ts))
    ensures forall r :: r in MineKeys(ts, minSupport, prefix, ks) ==>
              prefix < r && r[|prefix|] in ks && |r| <= |prefix| + MaxLen(ts)
    decreases MaxLen(ts), 1, |ks|
  {
    if ks != [] {
      var init, x := ks[..|ks| - 1], ks[|ks| - 1];
      MineKeysShape(ts, minSupport, prefix, init);
      MineOneShape(ts, minSupport, prefix, x);
      forall r | r in MineKeys(ts, minSupport, prefix, ks)
        ensures prefix < r && r[|prefix|] in ks && |r| <= |prefix| + MaxLen(ts)
      {
        if r in MineKeys(ts, minSupport, prefix, init) {
          assert r[|prefix|] in init;
        } else {
          assert r in MineOne(ts, minSupport, prefix, x);
          assert r[|prefix|] == (prefix + [x])[|prefix|];
        }
      }
    }
  }

  lemma {:induction false} MineOneShape<T(!new)>(ts: seq<seq<T>>, minSupport: int, prefix: seq<T>, x: T)
    requires x in KeyOrder(NodePaths(ts))
    ensures forall r :: r in MineOne(ts, minSupport, prefix, x) ==>
              prefix + [x] <= r && |r| <= |prefix| + MaxLen(ts)
    decreases MaxLen(ts), 0, 0
  {
    if FirstSupport(ts, x) >= minSupport {
      var ps := NodePaths(ts);
      var c := CondUpTo(ps, x, |ps|);
      var cond := PrepareData(c, minSupport);
      MineOneUnfold(ts, minSupport, prefix, x, c);
      CondBounded(ts, x, minSupport);
      KeyDepth(ts, x);
      var rest := MineSpec(cond, minSupport, prefix + [x]);
      MineSpecShape(cond, minSupport, prefix + [x]);
      forall r | r in [prefix + [x]] + rest
        ensures prefix + [x] <= r && |r| <= |prefix| + MaxLen(ts)
      {
        if r != prefix + [x] {
          assert r in rest;
        }
      }
    }
  }

  /**
   * `prefix + [x]` is reported exactly when `x` is a header key whose first
   * node counts at least `minSupport` transactions.
   */
  lemma {:induction false} MineSingle<T(!new)>(ts: seq<seq<T>>, minSupport: int, prefix: seq<T>, x: T)
    ensures prefix + [x] in MineSpec(ts, minSupport, prefix)
            <==> x in KeyOrder(NodePaths(ts)) && FirstSupport(ts, x) >= minSupport
  {
    MineKeysSingle(ts, minSupport, prefix, KeyOrder(NodePaths(ts)), x);
  }

  lemma {:induction false} MineKeysSingle<T(!new)>(ts: seq<seq<T>>, minSupport: int, prefix: seq<T>, ks: seq<T>, x: T)
    requires forall i :: 0 <= i < |ks| ==> ks[i] in KeyOrder(NodePaths(ts))
    ensures prefix + [x] in MineKeys(ts, minSupport, prefix, ks)
            <==> x in ks && FirstSupport(ts, x) >= minSupport
  {
    if ks != [] {
      var init, y := ks[..|ks| - 1], ks[|ks| - 1];
      MineKeysSingle(ts, minSupport, prefix, init, x);
      MineOneSingle(ts, minSupport, prefix, y, x);
      assert ks == init + [y];
    }
  }

  /** The only one-item extension that `MineOne` reports is `prefix + [y]`, and only when `y` is frequent. */
  lemma {:induction false} MineOneSingle<T(!new)>(ts: seq<seq<T>>, minSupport: int, prefix: seq<T>, y: T, x: T)
    requires y in KeyOrder(NodePaths(ts))
    ensures prefix + [x] in MineOne(ts, minSupport, prefix, y) <==> x == y && FirstSupport(ts, y) >= minSupport
  {
    MineOneShape(ts, minSupport, prefix, y);
    if prefix + [x] in MineOne(ts, minSupport, prefix, y) {
      assert (prefix + [y])[|prefix|] == (prefix + [x])[|prefix|];
    }
    if x == y && FirstSupport(ts, y) >= minSupport {
      var ps := NodePaths(ts);
      MineOneUnfold(ts, minSupport, prefix, y, CondUpTo(ps, y, |ps|));
    }
  }

  lemma {:induction false} DistinctConcat<X>(a: seq<X>, b: seq<X>)
    requires Distinct(a) && Distinct(b)
    requires forall r :: r in a ==> r !in b
    ensures Distinct(a + b)
  {
    forall i, j | 0 <= i < j < |a + b|
      ensures (a + b)[i] != (a + b)[j]
    {
      if i < |a| && j >= |a| {
        assert (a + b)[i] in a && (a + b)[j] in b;
      }
    }
  }

  /** No itemset is reported twice. */
  lemma {:induction false} MineSpecDistinct<T(!new)>(ts: seq<seq<T>>, minSupport: int, prefix: seq<T>)
    ensures Distinct(MineSpec(ts, minSupport, prefix))
    decreases MaxLen(ts), 2, 0
  {
    MineKeysDistinct(ts, minSupport, prefix, KeyOrder(NodePaths(ts)));
  }

  lemma {:induction false} MineKeysDistinct<T(!new)>(ts: seq<seq<T>>, minSupport: int, prefix: seq<T>, ks: seq<T>)
    requires forall i :: 0 <= i < |ks| ==> ks[i] in KeyOrder(NodePaths(ts))
    requires Distinct(ks)
    ensures Distinct(MineKeys(ts, minSupport, prefix, ks))
    decreases MaxLen(ts), 1, |ks|
  {
    if ks != [] {
      var init, x := ks[..|ks| - 1], ks[|ks| - 1];
      assert x !in init;
      MineKeysDistinct(ts, minSupport, prefix, init);
      MineOneDistinct(ts, minSupport, prefix, x);
      MineKeysShape(ts, minSupport, prefix, init);
      MineOneShape(ts, minSupport, prefix, x);
      forall r | r in MineKeys(ts, minSupport, prefix, init)
        ensures r !in MineOne(ts, minSupport, prefix, x)
      {
      }
      DistinctConcat(MineKeys(ts, minSupport, prefix, init), MineOne(ts, minSupport, prefix, x));
    }
  }

  lemma {:induction false} MineOneDistinct<T(!new)>(ts: seq<seq<T>>, minSupport: int, prefix: seq<T>, x: T)
    requires x in KeyOrder(NodePaths(ts))
    ensures Distinct(MineOne(ts, minSupport, prefix, x))
    decreases MaxLen(ts), 0, 0
  {
    if FirstSupport(ts, x) >= minSupport {
      var ps := NodePaths(ts);
      var c := CondUpTo(ps, x, |ps|);
      var cond := PrepareData(c, minSupport);
      MineOneUnfold(ts, minSupport, prefix, x, c);
      CondBounded(ts, x, minSupport);
      var rest := MineSpec(cond, minSupport, prefix + [x]);
      MineSpecDistinct(cond, minSupport, prefix + [x]);
      MineSpecShape(cond, minSupport, prefix + [x]);
      assert prefix + [x] !in rest;
      DistinctConcat([prefix + [x]], rest);
    }
  }

  /**
   * Itemsets are reported downward closed along their own order: every
   * prefix of a reported itemset that is longer than `prefix` is reported as
   * well. In particular the miner recurses only under an item it has just
   * reported, since `prefix + [r[|prefix|]]` is reported for every `r`.
   */
  lemma {:induction false} MineSpecClosed<T(!new)>(ts: seq<seq<T>>, minSupport: int, prefix: seq<T>, r: seq<T>, j: nat)
    requires r in MineSpec(ts, minSupport, prefix) && |prefix| < j <= |r|
    ensures r[..j] in MineSpec(ts, minSupport, prefix)
    decreases MaxLen(ts), 3, 0
  {
    MineKeysClosed(ts, minSupport, prefix, KeyOrder(NodePaths(ts)), r, j);
  }

  lemma {:induction false} MineKeysClosed<T(!new)>(ts: seq<seq<T>>, minSupport: int, prefix: seq<T>, ks: seq<T>,
                                                   r: seq<T>, j: nat)
    requires forall i :: 0 <= i < |ks| ==> ks[i] in KeyOrder(NodePaths(ts))
    requires r in MineKeys(ts, minSupport, prefix, ks) && |prefix| < j <= |r|
    ensures r[..j] in MineKeys(ts, minSupport, prefix, ks)
    decreases MaxLen(ts), 2, |ks|
  {
    var init, x := ks[..|ks| - 1], ks[|ks| - 1];
    if r in MineKeys(ts, minSupport, prefix, init) {
      MineKeysClosed(ts, minSupport, prefix, init, r, j);
    } else {
      MineOneClosed(ts, minSupport, prefix, x, r, j);
    }
  }

  lemma {:induction false} MineOneClosed<T(!new)>(ts: seq<seq<T>>, minSupport: int, prefix: seq<T>, x: T,
                                                  r: seq<T>, j: nat)
    requires x in KeyOrder(NodePaths(ts))
    requires r in MineOne(ts, minSupport, prefix, x) && |prefix| < j <= |r|
    ensures r[..j] in MineOne(ts, minSupport, prefix, x)
    decreases MaxLen(ts), 1, 0
  {
    var cond := PrepareData(CondUpTo(NodePaths(ts), x, |NodePaths(ts)|), minSupport);
    CondBounded(ts, x, minSupport);
    MineOneCases(ts, minSupport, prefix, x, cond, r);
    MineUnderClosed(ts, minSupport, prefix, x, cond, r, j);
    MineOneHas(ts, minSupport, prefix, x, cond, r[..j]);
  }

  /** What `MineOne` reports: `prefix + [x]` itself or an itemset mined under it, and only for a frequent `x`. */
  lemma {:induction false} MineOneCases<T(!new)>(ts: seq<seq<T>>, minSupport: int, prefix: seq<T>, x: T,
                                                 cond: seq<seq<T>>, r: seq<T>)
    requires x in KeyOrder(NodePaths(ts)) && r in MineOne(ts, minSupport, prefix, x)
    requires cond == PrepareData(CondUpTo(NodePaths(ts), x, |NodePaths(ts)|), minSupport)
    ensures FirstSupport(ts, x) >= minSupport
    ensures r == prefix + [x] || r in MineSpec(cond, minSupport, prefix + [x])
  {
    MineOneUnfold(ts, minSupport, prefix, x, CondUpTo(NodePaths(ts), x, |NodePaths(ts)|));
  }

  /** For a frequent `x`, `MineOne` reports `prefix + [x]` and every itemset mined under it. */
  lemma {:induction false} MineOneHas<T(!new)>(ts: seq<seq<T>>, minSupport: int, prefix: seq<T>, x: T,
                                               cond: seq<seq<T>>, s: seq<T>)
    requires x in KeyOrder(NodePaths(ts)) && FirstSupport(ts, x) >= minSupport
    requires cond == PrepareData(CondUpTo(NodePaths(ts), x, |NodePaths(ts)|), minSupport)
    requires s == prefix + [x] || s in MineSpec(cond, minSupport, prefix + [x])
    ensures s in MineOne(ts, minSupport, prefix, x)
  {
    MineOneUnfold(ts, minSupport, prefix, x, CondUpTo(NodePaths(ts), x, |NodePaths(ts)|));
  }

  /** Itemsets at and under `prefix + [x]`: each prefix longer than `prefix` is `prefix + [x]` or mined under it. */
  lemma {:induction false} MineUnderClosed<T(!new)>(ts: seq<seq<T>>, minSupport: int, prefix: seq<T>, x: T,
                                                    cond: seq<seq<T>>, r: seq<T>, j: nat)
    requires MaxLen(cond) < MaxLen(ts)
    requires r == prefix + [x] || r in MineSpec(cond, minSupport, prefix + [x])
    requires |prefix| < j <= |r|
    ensures r[..j] == prefix + [x] || r[..j] in MineSpec(cond, minSupport, prefix + [x])
    decreases MaxLen(ts), 0, 0
  {
    if r == prefix + [x] {
      assert r[..j] == r;
    } else {
      MineSpecShape(cond, minSupport, prefix + [x]);
      if j == |prefix| + 1 {
        assert r[..j] == prefix + [x];
      } else {
        MineSpecClosed(cond, minSupport, prefix + [x], r, j);
      }
    }
  }

  /**
   * Nothing is mined exactly when no header key's first node reaches
   * `minSupport`; in particular a tree without header keys mines nothing.
   */
  lemma {:induction false} MineSpecEmpty<T(!new)>(ts: seq<seq<T>>, minSupport: int, prefix: seq<T>)
    ensures MineSpec(ts, minSupport, prefix) == []
            <==> forall x :: x in KeyOrder(NodePaths(ts)) ==> FirstSupport(ts, x) < minSupport
  {
    forall x | x in KeyOrder(NodePaths(ts)) && FirstSupport(ts, x) >= minSupport
      ensures MineSpec(ts, minSupport, prefix) != []
    {
      MineSingle(ts, minSupport, prefix, x);
    }
    if MineSpec(ts, minSupport, prefix) != [] {
      var r := MineSpec(ts, minSupport, prefix)[0];
      MineSpecShape(ts, minSupport, prefix);
      MineSpecClosed(ts, minSupport, prefix, r, |prefix| + 1);
      var y := r[|prefix|];
      assert r[..|prefix| + 1] == prefix + [y];
      MineSingle(ts, minSupport, prefix, y);
    }
  }

  /**
   * Mining the tree built from `data` with an empty prefix reports the
   * singleton `[x]` exactly when `x` occurs at least `minSupport` times in
   * `data` and the first node created for `x` also counts at least
   * `minSupport` transactions.
   */
  lemma {:induction false} MineTopSingletons<T(!new)>(data: seq<seq<T>>, minSupport: int, x: T)
    ensures [x] in MineSpec(PrepareData(data, minSupport), minSupport, [])
            <==> && x in Flatten(data) && Occurrences(data, x) >= minSupport
                 && x in KeyOrder(NodePaths(PrepareData(data, minSupport)))
                 && FirstSupport(PrepareData(data, minSupport), x) >= minSupport
  {
    MineSingle(PrepareData(data, minSupport), minSupport, [], x);
    BuiltKeys(data, minSupport, x);
    assert [] + [x] == [x];
  }
}
