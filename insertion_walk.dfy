/**
 * The insertion walk of `insert_transaction`, proved against the abstraction
 * of module PrefixPaths. The predicate `Walking` is the loop invariant of the
 * walk: after `k` items of transaction `t` the current node is the node for
 * `t[..k]`, and exactly the nodes on the path to it have had their counts
 * raised. The lemmas show that each of the walk's two steps (an existing child
 * is bumped, or a new child is created and appended to its item's sibling
 * chain) keeps it, and that a finished walk leaves a valid tree of `ins + [t]`.
 */
module InsertionWalk {
  import opened Basics
  import opened PrefixPaths
  import opened FPTrees
  /**
   * `FPNode(item, 1, parent=current_node)` registered as `current_node.children[item]`:
   * the new node comes last, and only the parent's child for `x` changes.
   */
  function AttachChild<T(==)>(nodes: seq<Node<T>>, cur: nat, x: T): (r: seq<Node<T>>)
    requires cur < |nodes|
    ensures |r| == |nodes| + 1
    ensures r[|nodes|].item == Some(x) && r[|nodes|].count == 1 && r[|nodes|].parent == Some(cur)
    ensures r[|nodes|].children == map[] && r[|nodes|].next == None
    ensures r[cur].children == nodes[cur].children[x := |nodes|]
    ensures r[cur] == nodes[cur].(children := r[cur].children)
    ensures forall i :: 0 <= i < |nodes| && i != cur ==> r[i] == nodes[i]
  {
    nodes[cur := nodes[cur].(children := nodes[cur].children[x := |nodes|])]
      + [Node(Some(x), 1, Some(cur), map[], None)]
  }

  /**
   * The state of the walk after `k` items of `t`: `cur` is the node for
   * `t[..k]`, `ps` lists the node paths, and exactly the nodes on the path
   * to `cur` have had their count raised by one.
   */
  ghost predicate Walking<T(!new)>(nodes: seq<Node<T>>, header: map<T, nat>, order: seq<T>, ps: seq<seq<T>>,
                                   ins: seq<seq<T>>, t: seq<T>, k: nat, cur: nat)
  {
    && k <= |t|
    && Shaped(nodes) && ChildrenLinked(nodes) && PathsMatch(nodes, ps) && ChainLinked(nodes)
    && HeaderLinked(nodes, header, order, ps)
    && Distinct(ps) && NodePaths(ins) <= ps
    && AddPrefixes(ps, t, k) == NodePaths(ins + [t])
    && cur < |nodes| && Path(nodes, cur) == t[..k]
    && nodes[0].count == 0
    && forall i :: 0 < i < |nodes| ==> WalkCounted(nodes, ps, ins, t[..k], i)
  }

  /** Node `i` counts the transactions of `ins` starting with its path, plus one if `w` does. */
  ghost predicate WalkCounted<T>(nodes: seq<Node<T>>, ps: seq<seq<T>>, ins: seq<seq<T>>, w: seq<T>, i: nat)
  {
    0 < i < |nodes| && i <= |ps| && nodes[i].count == CountPrefix(ins, ps[i - 1]) + (if ps[i - 1] <= w then 1 else 0)
  }

  lemma {:induction false} PrefixOfLonger<T>(p: seq<T>, t: seq<T>, k: nat)
    requires k < |t|
    ensures p <= t[..k + 1] <==> p <= t[..k] || p == t[..k + 1]
  {
    if p <= t[..k + 1] && |p| <= k {
      assert t[..k][..|p|] == t[..k + 1][..|p|];
    }
  }

  lemma {:induction false} TakeSnoc<T>(t: seq<T>, k: nat)
    requires k < |t|
    ensures t[..k + 1] == t[..k] + [t[k]]
  {
  }

  lemma {:induction false} SnocInjective<T>(a: seq<T>, x: T, b: seq<T>, y: T)
    requires a + [x] == b + [y]
    ensures a == b && x == y
  {
    assert a == (a + [x])[..|a|];
    assert b == (b + [y])[..|b|];
  }

  /** Different nodes have different paths. */
  lemma {:induction false} PathInjective<T>(nodes: seq<Node<T>>, ps: seq<seq<T>>, a: nat, b: nat)
    requires Shaped(nodes) && PathsMatch(nodes, ps) && Distinct(ps)
    requires a < |nodes| && b < |nodes| && Path(nodes, a) == Path(nodes, b)
    ensures a == b
  {
  }

  lemma {:induction false} WalkStart<T(!new)>(nodes: seq<Node<T>>, header: map<T, nat>, order: seq<T>, ins: seq<seq<T>>, t: seq<T>)
    requires TreeInv(nodes, header, order, ins)
    ensures Walking(nodes, header, order, NodePaths(ins), ins, t, 0, 0)
  {
    var ps := NodePaths(ins);
    NodePathsSpec(ins);
    NodePathsSnoc(ins, t);
    assert t[..0] == [];
    forall i | 0 < i < |nodes|
      ensures WalkCounted(nodes, ps, ins, t[..0], i)
    {
      assert Counted(nodes, ps, ins, i);
      assert Path(nodes, i) != [];
    }
  }

  lemma {:induction false} WalkDone<T(!new)>(nodes: seq<Node<T>>, header: map<T, nat>, order: seq<T>, ps: seq<seq<T>>,
                          ins: seq<seq<T>>, t: seq<T>, cur: nat)
    requires Walking(nodes, header, order, ps, ins, t, |t|, cur)
    ensures TreeInv(nodes, header, order, ins + [t])
  {
    assert t[..|t|] == t;
    assert ps == NodePaths(ins + [t]);
    forall i | 0 < i < |nodes|
      ensures Counted(nodes, ps, ins + [t], i)
    {
      assert WalkCounted(nodes, ps, ins, t[..|t|], i);
      CountPrefixSnoc(ins, t, ps[i - 1]);
    }
  }

  /** Keeping items and parents keeps the shape and every path. */
  lemma {:induction false} FrameShaped<T>(a: seq<Node<T>>, b: seq<Node<T>>)
    requires Shaped(a) && |a| == |b|
    requires forall j :: 0 <= j < |a| ==> b[j].item == a[j].item && b[j].parent == a[j].parent
    ensures Shaped(b) && SameShape(a, b)
    ensures forall j :: 0 <= j < |a| ==> Path(b, j) == Path(a, j)
  {
    forall j | 0 <= j < |a|
      ensures Path(b, j) == Path(a, j)
    {
      PathFrame(a, b, j);
    }
  }

  lemma {:induction false} FrameChildren<T>(a: seq<Node<T>>, b: seq<Node<T>>)
    requires Shaped(a) && Shaped(b) && |a| == |b| && ChildrenLinked(a)
    requires forall j :: 0 <= j < |a| ==>
      b[j].item == a[j].item && b[j].parent == a[j].parent && b[j].children == a[j].children
    ensures ChildrenLinked(b)
  {
    forall i, x | 0 <= i < |b| && x in b[i].children
      ensures ChildOk(b, i, x)
    {
      assert ChildOk(a, i, x);
    }
    forall c | 0 < c < |b|
      ensures ParentOk(b, c)
    {
      assert ParentOk(a, c);
    }
  }

  lemma {:induction false} FrameChain<T>(a: seq<Node<T>>, b: seq<Node<T>>)
    requires |a| == |b| && ChainLinked(a)
    requires forall j :: 0 <= j < |a| ==> b[j].item == a[j].item && b[j].next == a[j].next
    ensures ChainLinked(b)
  {
    forall i | 0 <= i < |b|
      ensures NextLinked(b, i)
    {
      assert NextLinked(a, i);
    }
  }

  lemma {:induction false} FrameHeader<T(!new)>(a: seq<Node<T>>, b: seq<Node<T>>, header: map<T, nat>, order: seq<T>, ps: seq<seq<T>>)
    requires Shaped(a) && Shaped(b) && |a| == |b| && HeaderLinked(a, header, order, ps)
    requires forall j :: 0 <= j < |a| ==> b[j].item == a[j].item
    ensures HeaderLinked(b, header, order, ps)
  {
    assert forall j, y :: Carries(b, j, y) == Carries(a, j, y);
    forall x
      ensures HeaderEntry(b, header, x)
    {
      assert HeaderEntry(a, header, x);
    }
    forall i | 0 < i < |b|
      ensures Keyed(b, header, i)
    {
      assert Keyed(a, header, i);
    }
  }

  /** Raising one node's count keeps every structural invariant. */
  lemma {:induction false} BumpFrame<T(!new)>(a: seq<Node<T>>, c: nat, header: map<T, nat>, order: seq<T>, ps: seq<seq<T>>)
    requires c < |a|
    requires Shaped(a) && ChildrenLinked(a) && PathsMatch(a, ps) && ChainLinked(a) && HeaderLinked(a, header, order, ps)
    ensures
      var b := a[c := a[c].(count := a[c].count + 1)];
      && Shaped(b) && ChildrenLinked(b) && PathsMatch(b, ps) && ChainLinked(b) && HeaderLinked(b, header, order, ps)
      && (forall j :: 0 <= j < |a| ==> Path(b, j) == Path(a, j))
      && SameShape(a, b) && (forall j :: 0 <= j < |a| ==> b[j].children == a[j].children)
  {
    var b := a[c := a[c].(count := a[c].count + 1)];
    forall j | 0 <= j < |a|
      ensures b[j].item == a[j].item && b[j].parent == a[j].parent && b[j].children == a[j].children && b[j].next == a[j].next
    {
      if j != c {
        assert b[j] == a[j];
      }
    }
    FrameShaped(a, b);
    assert PathsMatch(b, ps);
    FrameChildren(a, b);
    FrameChain(a, b);
    FrameHeader(a, b, header, order, ps);
  }

  /** The child of `cur` for `x` is a node whose path extends `cur`'s path by `x`. */
  lemma {:induction false} ChildPath<T>(nodes: seq<Node<T>>, cur: nat, x: T)
    requires Shaped(nodes) && ChildrenLinked(nodes) && cur < |nodes| && x in nodes[cur].children
    ensures 0 < nodes[cur].children[x] < |nodes|
    ensures Path(nodes, nodes[cur].children[x]) == Path(nodes, cur) + [x]
  {
    assert ChildOk(nodes, cur, x);
  }

  /** Raising the count of the node for `t[..k + 1]` moves the walk's counts one item on. */
  lemma {:induction false} BumpCounts<T>(nodes: seq<Node<T>>, b: seq<Node<T>>, ps: seq<seq<T>>, ins: seq<seq<T>>,
                      t: seq<T>, k: nat, w: seq<T>, c: nat)
    requires |nodes| == |ps| + 1 && Distinct(ps) && k < |t| && w == t[..k + 1] && 0 < c < |nodes| && ps[c - 1] == w
    requires b == nodes[c := nodes[c].(count := nodes[c].count + 1)]
    requires forall i :: 0 < i < |nodes| ==> WalkCounted(nodes, ps, ins, t[..k], i)
    ensures forall i :: 0 < i < |b| ==> WalkCounted(b, ps, ins, w, i)
  {
    forall i | 0 < i < |b|
      ensures WalkCounted(b, ps, ins, w, i)
    {
      assert WalkCounted(nodes, ps, ins, t[..k], i);
      PrefixOfLonger(ps[i - 1], t, k);
      if i != c {
        assert b[i] == nodes[i];
        assert ps[i - 1] != ps[c - 1];
      }
    }
  }

  /** The walk's invariant, assembled from its parts with the walked prefix named `w`. */
  lemma {:induction false} WalkIntro<T(!new)>(nodes: seq<Node<T>>, header: map<T, nat>, order: seq<T>, ps: seq<seq<T>>,
                           ins: seq<seq<T>>, t: seq<T>, k: nat, cur: nat, w: seq<T>)
    requires k <= |t| && w == t[..k]
    requires Shaped(nodes) && ChildrenLinked(nodes) && PathsMatch(nodes, ps) && ChainLinked(nodes)
    requires HeaderLinked(nodes, header, order, ps)
    requires Distinct(ps) && NodePaths(ins) <= ps && AddPrefixes(ps, t, k) == NodePaths(ins + [t])
    requires cur < |nodes| && Path(nodes, cur) == w && nodes[0].count == 0
    requires forall i :: 0 < i < |nodes| ==> WalkCounted(nodes, ps, ins, w, i)
    ensures Walking(nodes, header, order, ps, ins, t, k, cur)
  {
  }

  /** Step of the walk when `current_node` already has a child for the item: that child's count goes up. */
  lemma {:induction false} WalkExisting<T(!new)>(nodes: seq<Node<T>>, header: map<T, nat>, order: seq<T>, ps: seq<seq<T>>,
                              ins: seq<seq<T>>, t: seq<T>, k: nat, cur: nat, c: nat, b: seq<Node<T>>)
    requires Walking(nodes, header, order, ps, ins, t, k, cur)
    requires k < |t| && t[k] in nodes[cur].children && c == nodes[cur].children[t[k]]
    requires c < |nodes| && b == nodes[c := nodes[c].(count := nodes[c].count + 1)]
    ensures Walking(b, header, order, ps, ins, t, k + 1, c)
    ensures SameShape(nodes, b) && b[cur].children == nodes[cur].children
  {
    var w := t[..k + 1];
    BumpFrame(nodes, c, header, order, ps);
    ChildPath(nodes, cur, t[k]);
    TakeSnoc(t, k);
    assert Path(b, c) == w;
    assert ps[c - 1] == w;
    AddPrefixesKnown(ps, t, k, w);
    BumpCounts(nodes, b, ps, ins, t, k, w, c);
    WalkIntro(b, header, order, ps, ins, t, k + 1, c, w);
  }

  /** A prefix that already has a node adds nothing to the node paths. */
  lemma {:induction false} AddPrefixesKnown<T>(ps: seq<seq<T>>, t: seq<T>, k: nat, w: seq<T>)
    requires k < |t| && w == t[..k + 1] && w in ps
    ensures AddPrefixes(ps, t, k) == AddPrefixes(ps, t, k + 1)
  {
  }

  /** A non-root node is its parent's child for its item, and its path extends its parent's path by that item. */
  lemma {:induction false} ParentStep<T>(nodes: seq<Node<T>>, i: nat)
    requires Shaped(nodes) && ChildrenLinked(nodes) && 0 < i < |nodes|
    ensures var p, y := nodes[i].parent.value, nodes[i].item.value;
            && y in nodes[p].children && Path(nodes, i) == Path(nodes, p) + [y]
  {
    assert ParentOk(nodes, i);
  }

  /** A node without a child for `x` has no node below it for `x`: no node path extends its path by `x`. */
  lemma {:induction false} NoChildNoPath<T>(nodes: seq<Node<T>>, ps: seq<seq<T>>, cur: nat, a: seq<T>, x: T)
    requires Shaped(nodes) && ChildrenLinked(nodes) && PathsMatch(nodes, ps) && Distinct(ps)
    requires cur < |nodes| && Path(nodes, cur) == a && x !in nodes[cur].children
    ensures a + [x] !in ps
  {
    if a + [x] in ps {
      var j :| 0 <= j < |ps| && ps[j] == a + [x];
      ParentStep(nodes, j + 1);
      var p := nodes[j + 1].parent.value;
      SnocInjective(Path(nodes, p), nodes[j + 1].item.value, a, x);
      PathInjective(nodes, ps, p, cur);
    }
  }

  /** When `current_node` has no child for the item, no node has the path `t[..k + 1]` yet. */
  lemma {:induction false} FreshPath<T>(nodes: seq<Node<T>>, ps: seq<seq<T>>, t: seq<T>, k: nat, cur: nat)
    requires Shaped(nodes) && ChildrenLinked(nodes) && PathsMatch(nodes, ps) && Distinct(ps)
    requires k < |t| && cur < |nodes| && Path(nodes, cur) == t[..k] && t[k] !in nodes[cur].children
    ensures t[..k + 1] !in ps
  {
    TakeSnoc(t, k);
    NoChildNoPath(nodes, ps, cur, t[..k], t[k]);
  }

  /** The arena after the chain tail is linked (if the item has a chain) and the new child is attached. */
  ghost function Grown<T>(nodes: seq<Node<T>>, header: map<T, nat>, cur: nat, x: T, last: nat): seq<Node<T>>
    requires cur < |nodes| && last < |nodes|
  {
    var linked := if x in header then nodes[last := nodes[last].(next := Some(|nodes|))] else nodes;
    AttachChild(linked, cur, x)
  }

  /** What `Grown` keeps and what it adds, entry by entry. */
  lemma {:induction false} GrownEntries<T>(nodes: seq<Node<T>>, header: map<T, nat>, cur: nat, x: T, last: nat)
    requires cur < |nodes| && last < |nodes|
    ensures
      var g := Grown(nodes, header, cur, x, last);
      && |g| == |nodes| + 1
      && g[|nodes|] == Node(Some(x), 1, Some(cur), map[], None)
      && (forall j :: 0 <= j < |nodes| ==>
            g[j].item == nodes[j].item && g[j].parent == nodes[j].parent && g[j].count == nodes[j].count)
      && (forall j :: 0 <= j < |nodes| && j != cur ==> g[j].children == nodes[j].children)
      && g[cur].children == nodes[cur].children[x := |nodes|]
      && (forall j :: 0 <= j < |nodes| && (x !in header || j != last) ==> g[j].next == nodes[j].next)
      && (x in header ==> g[last].next == Some(|nodes|))
  {
    var g := Grown(nodes, header, cur, x, last);
    var n := |nodes|;
    var linked := if x in header then nodes[last := nodes[last].(next := Some(n))] else nodes;
    assert g == linked[cur := linked[cur].(children := linked[cur].children[x := n])] + [Node(Some(x), 1, Some(cur), map[], None)];
    forall j | 0 <= j < n
      ensures g[j].item == nodes[j].item && g[j].parent == nodes[j].parent && g[j].count == nodes[j].count
      ensures j != cur ==> g[j].children == nodes[j].children
      ensures (x !in header || j != last) ==> g[j].next == nodes[j].next
    {
      assert g[j] == linked[cur := linked[cur].(children := linked[cur].children[x := n])][j];
      if j != cur {
        assert g[j] == linked[j];
      }
      if x !in header || j != last {
        assert linked[j] == nodes[j];
      }
    }
  }

  lemma {:induction false} GrownShape<T(!new)>(nodes: seq<Node<T>>, header: map<T, nat>, ps: seq<seq<T>>,
                            t: seq<T>, k: nat, cur: nat, last: nat)
    requires Shaped(nodes) && PathsMatch(nodes, ps)
    requires k < |t| && cur < |nodes| && last < |nodes| && Path(nodes, cur) == t[..k]
    ensures
      var g := Grown(nodes, header, cur, t[k], last);
      && |g| == |nodes| + 1
      && Shaped(g) && SameShape(nodes, g)
      && PathsMatch(g, ps + [t[..k + 1]])
      && Path(g, |nodes|) == t[..k + 1]
      && forall j :: 0 <= j < |nodes| ==> Path(g, j) == Path(nodes, j)
  {
    var g := Grown(nodes, header, cur, t[k], last);
    var n := |nodes|;
    GrownEntries(nodes, header, cur, t[k], last);
    forall j | 0 <= j < n
      ensures Path(g, j) == Path(nodes, j)
    {
      PathFrame(nodes, g, j);
    }
    TakeSnoc(t, k);
  }

  lemma {:induction false} GrownChildren<T(!new)>(nodes: seq<Node<T>>, header: map<T, nat>, cur: nat, x: T, last: nat)
    requires Shaped(nodes) && ChildrenLinked(nodes)
    requires cur < |nodes| && last < |nodes| && x !in nodes[cur].children
    requires Shaped(Grown(nodes, header, cur, x, last))
    ensures ChildrenLinked(Grown(nodes, header, cur, x, last))
  {
    var g := Grown(nodes, header, cur, x, last);
    var n := |nodes|;
    GrownEntries(nodes, header, cur, x, last);
    forall i, y | 0 <= i < |g| && y in g[i].children
      ensures ChildOk(g, i, y)
    {
      if !(i == cur && y == x) {
        assert ChildOk(nodes, i, y);
      }
    }
    forall c | 0 < c < |g|
      ensures ParentOk(g, c)
    {
      if c < n {
        assert ParentOk(nodes, c);
      }
    }
  }

  lemma {:induction false} GrownChain<T(!new)>(nodes: seq<Node<T>>, header: map<T, nat>, order: seq<T>, ps: seq<seq<T>>,
                            cur: nat, x: T, last: nat)
    requires Shaped(nodes) && ChainLinked(nodes) && HeaderLinked(nodes, header, order, ps)
    requires cur < |nodes| && last < |nodes|
    requires x in header ==> nodes[last].item == Some(x) && nodes[last].next == None
    ensures ChainLinked(Grown(nodes, header, cur, x, last))
  {
    var g := Grown(nodes, header, cur, x, last);
    var n := |nodes|;
    GrownEntries(nodes, header, cur, x, last);
    forall i | 0 <= i < |g|
      ensures NextLinked(g, i)
    {
      if i < n {
        assert NextLinked(nodes, i);
        if x in header {
          assert NextLinked(nodes, last);
        }
        assert Keyed(nodes, header, i);
        if !(x in header && i == last) && nodes[i].next == None && nodes[i].item == Some(x) {
          assert false;
        }
      }
    }
  }

  /** Every node of `g`, the old ones and the new one for `x`, carries a key of the new header table. */
  lemma {:induction false} GrownKeyed<T>(nodes: seq<Node<T>>, header: map<T, nat>, g: seq<Node<T>>, header': map<T, nat>, x: T)
    requires |g| == |nodes| + 1 && g[|nodes|].item == Some(x)
    requires forall j :: 0 <= j < |nodes| ==> g[j].item == nodes[j].item
    requires forall i :: 0 < i < |nodes| ==> Keyed(nodes, header, i)
    requires header' == if x in header then header else header[x := |nodes|]
    ensures forall i :: 0 < i < |g| ==> Keyed(g, header', i)
  {
    forall i | 0 < i < |g|
      ensures Keyed(g, header', i)
    {
      if i < |nodes| {
        assert Keyed(nodes, header, i);
      }
    }
  }

  /** The header entry of `y` stays right: an old key keeps its first node, a new key `x` points to the new node. */
  lemma {:induction false} GrownEntry<T>(nodes: seq<Node<T>>, header: map<T, nat>, g: seq<Node<T>>, header': map<T, nat>, x: T, y: T)
    requires |g| == |nodes| + 1 && g[|nodes|].item == Some(x)
    requires forall j :: 0 <= j < |nodes| ==> g[j].item == nodes[j].item
    requires forall i :: 0 < i < |nodes| ==> Keyed(nodes, header, i)
    requires 0 < |nodes| && HeaderEntry(nodes, header, y)
    requires header' == if x in header then header else header[x := |nodes|]
    ensures HeaderEntry(g, header', y)
  {
    if y in header {
      forall j | 0 < j < header[y]
        ensures !Carries(g, j, y)
      {
        assert !Carries(nodes, j, y);
      }
    } else if y == x {
      forall j | 0 < j < |nodes|
        ensures !Carries(g, j, x)
      {
        assert Keyed(nodes, header, j);
      }
    }
  }

  /**
   * Adding a node for `x` whose path is `p` keeps the header table linked:
   * `x` becomes a key, at the end of the key order, exactly when it was not one.
   */
  lemma {:induction false} GrownHeader<T(!new)>(nodes: seq<Node<T>>, header: map<T, nat>, order: seq<T>, ps: seq<seq<T>>,
                             g: seq<Node<T>>, header': map<T, nat>, order': seq<T>, x: T, p: seq<T>)
    requires 0 < |nodes| && HeaderLinked(nodes, header, order, ps)
    requires |g| == |nodes| + 1 && g[|nodes|].item == Some(x)
    requires forall j :: 0 <= j < |nodes| ==> g[j].item == nodes[j].item
    requires p != [] && p[|p| - 1] == x
    requires header' == if x in header then header else header[x := |nodes|]
    requires order' == if x in header then order else order + [x]
    ensures HeaderLinked(g, header', order', ps + [p])
  {
    KeyOrderSnoc(ps, p);
    GrownKeyed(nodes, header, g, header', x);
    forall y
      ensures HeaderEntry(g, header', y)
    {
      GrownEntry(nodes, header, g, header', x, y);
    }
  }

  lemma {:induction false} GrownCounts<T>(nodes: seq<Node<T>>, ps: seq<seq<T>>, g: seq<Node<T>>, ps': seq<seq<T>>,
                      ins: seq<seq<T>>, t: seq<T>, k: nat, w: seq<T>)
    requires |nodes| == |ps| + 1 && |g| == |nodes| + 1 && k < |t| && w == t[..k + 1]
    requires Distinct(ps) && NodePaths(ins) <= ps && w !in ps && ps' == ps + [w]
    requires forall j :: 0 < j < |nodes| ==> g[j].count == nodes[j].count
    requires g[|nodes|].count == 1
    requires forall i :: 0 < i < |nodes| ==> WalkCounted(nodes, ps, ins, t[..k], i)
    ensures Distinct(ps') && NodePaths(ins) <= ps'
    ensures forall i :: 0 < i < |g| ==> WalkCounted(g, ps', ins, w, i)
  {
    var p := w;
    NodePathsSpec(ins);
    assert p !in NodePaths(ins);
    assert CountPrefix(ins, p) == 0;
    forall i | 0 < i < |g|
      ensures WalkCounted(g, ps', ins, p, i)
    {
      if i < |nodes| {
        assert WalkCounted(nodes, ps, ins, t[..k], i);
        PrefixOfLonger(ps[i - 1], t, k);
        assert ps'[i - 1] == ps[i - 1];
      } else {
        assert ps'[i - 1] == p;
      }
    }
  }

  /** Step of the walk when `current_node` has no child for the item: a new node joins the tree. */
  lemma {:induction false} WalkNew<T(!new)>(nodes: seq<Node<T>>, header: map<T, nat>, order: seq<T>, ps: seq<seq<T>>,
                         ins: seq<seq<T>>, t: seq<T>, k: nat, cur: nat, last: nat,
                         g: seq<Node<T>>, header': map<T, nat>, order': seq<T>, w: seq<T>, ps': seq<seq<T>>)
    requires Walking(nodes, header, order, ps, ins, t, k, cur)
    requires k < |t| && t[k] !in nodes[cur].children && last < |nodes|
    requires t[k] in header ==> nodes[last].item == Some(t[k]) && nodes[last].next == None
    requires g == Grown(nodes, header, cur, t[k], last)
    requires header' == if t[k] in header then header else header[t[k] := |nodes|]
    requires order' == if t[k] in header then order else order + [t[k]]
    requires w == t[..k + 1] && ps' == ps + [w]
    ensures Walking(g, header', order', ps', ins, t, k + 1, |nodes|)
    ensures SameShape(nodes, g) && cur < |g| && g[cur].children == nodes[cur].children[t[k] := |nodes|]
  {
    var x := t[k];
    FreshPath(nodes, ps, t, k, cur);
    GrownShape(nodes, header, ps, t, k, cur, last);
    GrownChildren(nodes, header, cur, x, last);
    GrownChain(nodes, header, order, ps, cur, x, last);
    GrownEntries(nodes, header, cur, x, last);
    assert w[k] == x;
    GrownHeader(nodes, header, order, ps, g, header', order', x, w);
    GrownCounts(nodes, ps, g, ps', ins, t, k, w);
    assert AddPrefixes(ps, t, k) == AddPrefixes(ps', t, k + 1);
    WalkIntro(g, header', order', ps', ins, t, k + 1, |nodes|, w);
  }

  lemma {:induction false} SameShapeTrans<T>(a: seq<Node<T>>, b: seq<Node<T>>, c: seq<Node<T>>)
    requires SameShape(a, b) && SameShape(b, c)
    ensures SameShape(a, c)
  {
  }
}
