/**
 * What an FP-tree represents, stated on values. A tree built by inserting
 * the transactions `ts` one after the other has one node per distinct
 * non-empty prefix of those transactions; the nodes are created in the order
 * `NodePaths(ts)` lists those prefixes, and the count of the node for prefix
 * `p` is `CountPrefix(ts, p)`, the number of transactions that start with `p`.
 * The header table's keys are the last items of the node paths in order of
 * first appearance, and an item's sibling chain visits the nodes whose path
 * ends with that item, in creation order.
 */
module PrefixPaths {
  import opened Basics

  /** Number of transactions of `ts` that start with `p`. */
  ghost function CountPrefix<T>(ts: seq<seq<T>>, p: seq<T>): nat
  {
    if ts == [] then 0
    else CountPrefix(ts[..|ts| - 1], p) + (if p <= ts[|ts| - 1] then 1 else 0)
  }

  lemma {:induction false} CountPrefixSnoc<T>(ts: seq<seq<T>>, t: seq<T>, p: seq<T>)
    ensures CountPrefix(ts + [t], p) == CountPrefix(ts, p) + (if p <= t then 1 else 0)
  {
    assert (ts + [t])[..|ts|] == ts;
  }

  /** Only a sequence no longer than some transaction can be a prefix of one. */
  lemma {:induction false} CountPrefixBounded<T>(ts: seq<seq<T>>, p: seq<T>)
    requires CountPrefix(ts, p) > 0
    ensures |p| <= MaxLen(ts)
  {
    var init := ts[..|ts| - 1];
    if CountPrefix(init, p) > 0 {
      CountPrefixBounded(init, p);
      assert MaxLen(init) <= MaxLen(ts) by {
        assert forall i :: 0 <= i < |init| ==> init[i] == ts[i];
      }
    }
  }

  /**
   * Walking `t` from position `k`: every prefix `t[..j]` with `k < j` that is
   * not yet listed is appended, shortest first.
   */
  ghost function AddPrefixes<T>(ps: seq<seq<T>>, t: seq<T>, k: nat): seq<seq<T>>
    requires k <= |t|
    decreases |t| - k
  {
    if k == |t| then ps
    else AddPrefixes(if t[..k + 1] in ps then ps else ps + [t[..k + 1]], t, k + 1)
  }

  /** The node paths of the tree built from `ts`, in creation order. */
  ghost function NodePaths<T>(ts: seq<seq<T>>): seq<seq<T>>
  {
    if ts == [] then []
    else AddPrefixes(NodePaths(ts[..|ts| - 1]), ts[|ts| - 1], 0)
  }

  lemma {:induction false} NodePathsSnoc<T>(ts: seq<seq<T>>, t: seq<T>)
    ensures NodePaths(ts + [t]) == AddPrefixes(NodePaths(ts), t, 0)
  {
    assert (ts + [t])[..|ts|] == ts;
  }

  lemma {:induction false} AddPrefixesSpec<T>(ps: seq<seq<T>>, t: seq<T>, k: nat)
    requires k <= |t|
    ensures ps <= AddPrefixes(ps, t, k)
    ensures Distinct(ps) ==> Distinct(AddPrefixes(ps, t, k))
    ensures forall p :: p in AddPrefixes(ps, t, k) <==> p in ps || (k < |p| && p <= t)
    decreases |t| - k
  {
    if k < |t| {
      var ps' := if t[..k + 1] in ps then ps else ps + [t[..k + 1]];
      AddPrefixesSpec(ps', t, k + 1);
      forall p
        ensures p in ps' <==> p in ps || p == t[..k + 1]
      {
      }
      forall p
        ensures (k < |p| && p <= t) <==> p == t[..k + 1] || (k + 1 < |p| && p <= t)
      {
      }
    }
  }

  /**
   * The node paths are pairwise different, and they are exactly the
   * non-empty sequences that some transaction starts with.
   */
  lemma {:induction false} NodePathsSpec<T>(ts: seq<seq<T>>)
    ensures Distinct(NodePaths(ts))
    ensures forall p :: p in NodePaths(ts) <==> p != [] && CountPrefix(ts, p) > 0
  {
    if ts != [] {
      var init, t := ts[..|ts| - 1], ts[|ts| - 1];
      assert ts == init + [t];
      NodePathsSpec(init);
      AddPrefixesSpec(NodePaths(init), t, 0);
      forall p
        ensures CountPrefix(ts, p) == CountPrefix(init, p) + (if p <= t then 1 else 0)
      {
        CountPrefixSnoc(init, t, p);
      }
    }
  }

  /** No node lies deeper than the longest transaction. */
  lemma {:induction false} NodePathsBounded<T>(ts: seq<seq<T>>)
    ensures forall i :: 0 <= i < |NodePaths(ts)| ==> 0 < |NodePaths(ts)[i]| <= MaxLen(ts)
  {
    NodePathsSpec(ts);
    forall i | 0 <= i < |NodePaths(ts)|
      ensures 0 < |NodePaths(ts)[i]| <= MaxLen(ts)
    {
      var p := NodePaths(ts)[i];
      assert p in NodePaths(ts);
      assert p != [] && CountPrefix(ts, p) > 0;
      CountPrefixBounded(ts, p);
    }
  }

  /** `p` is a path whose last item is `x`: a node of `x`'s sibling chain. */
  ghost predicate EndsWith<T>(p: seq<T>, x: T)
  {
    p != [] && p[|p| - 1] == x
  }

  /** The last items of the non-empty paths, in order. */
  ghost function Lasts<T>(ps: seq<seq<T>>): seq<T>
  {
    if ps == [] then []
    else
      var p := ps[|ps| - 1];
      Lasts(ps[..|ps| - 1]) + (if p == [] then [] else [p[|p| - 1]])
  }

  lemma {:induction false} LastsSpec<T>(ps: seq<seq<T>>)
    ensures forall x :: x in Lasts(ps) <==> exists i :: 0 <= i < |ps| && EndsWith(ps[i], x)
  {
    if ps != [] {
      var init := ps[..|ps| - 1];
      LastsSpec(init);
      assert forall i :: 0 <= i < |init| ==> init[i] == ps[i];
    }
  }

  lemma {:induction false} LastsSnoc<T>(ps: seq<seq<T>>, p: seq<T>)
    requires p != []
    ensures Lasts(ps + [p]) == Lasts(ps) + [p[|p| - 1]]
  {
    assert (ps + [p])[..|ps|] == ps;
  }

  /** The header table's keys in iteration order: items in the order their first node was created. */
  ghost function KeyOrder<T(!new)>(ps: seq<seq<T>>): seq<T>
  {
    Dedup(Lasts(ps))
  }

  /** Appending a node extends the key order exactly when its item is new. */
  lemma {:induction false} KeyOrderSnoc<T(!new)>(ps: seq<seq<T>>, p: seq<T>)
    requires p != []
    ensures KeyOrder(ps + [p]) == if p[|p| - 1] in KeyOrder(ps) then KeyOrder(ps) else KeyOrder(ps) + [p[|p| - 1]]
  {
    var s := Lasts(ps) + [p[|p| - 1]];
    LastsSnoc(ps, p);
    assert s[..|s| - 1] == Lasts(ps);
  }

  /** Index of the first path ending with `x`, or `|ps|` when there is none. */
  ghost function FirstIdx<T>(ps: seq<seq<T>>, x: T): (r: nat)
    ensures r <= |ps|
    ensures forall j :: 0 <= j < r ==> !EndsWith(ps[j], x)
    ensures r < |ps| ==> EndsWith(ps[r], x)
  {
    if ps == [] then 0
    else if EndsWith(ps[0], x) then 0
    else
      var r := 1 + FirstIdx(ps[1..], x);
      assert forall j :: 1 <= j < |ps| ==> ps[j] == ps[1..][j - 1];
      r
  }

  /** An item is a header key exactly when some node path ends with it. */
  lemma {:induction false} KeyOrderFirstIdx<T(!new)>(ps: seq<seq<T>>, x: T)
    ensures x in KeyOrder(ps) <==> FirstIdx(ps, x) < |ps|
  {
    LastsSpec(ps);
  }

  /**
   * The conditional transactions contributed by the first `n` nodes: for each
   * node of `x`'s chain whose path is longer than one item, that path without
   * its last item. Every chain node contributes once, whatever its count.
   */
  ghost function CondUpTo<T>(ps: seq<seq<T>>, x: T, n: nat): seq<seq<T>>
    requires n <= |ps|
  {
    if n == 0 then []
    else
      var p := ps[n - 1];
      CondUpTo(ps, x, n - 1) + (if EndsWith(p, x) && |p| > 1 then [p[..|p| - 1]] else [])
  }

  /** Nodes outside `x`'s chain contribute nothing. */
  lemma {:induction false} CondSkip<T>(ps: seq<seq<T>>, x: T, a: nat, b: nat)
    requires a <= b <= |ps|
    requires forall j :: a <= j < b ==> !EndsWith(ps[j], x)
    ensures CondUpTo(ps, x, b) == CondUpTo(ps, x, a)
    decreases b - a
  {
    if a < b {
      CondSkip(ps, x, a, b - 1);
    }
  }

  /** A conditional transaction is strictly shorter than the path it came from. */
  lemma {:induction false} CondShorter<T>(ps: seq<seq<T>>, x: T, n: nat, m: nat)
    requires n <= |ps|
    requires forall i :: 0 <= i < |ps| ==> |ps[i]| <= m
    ensures forall i :: 0 <= i < |CondUpTo(ps, x, n)| ==> |CondUpTo(ps, x, n)[i]| < m
  {
    if n > 0 {
      CondShorter(ps, x, n - 1, m);
    }
  }

  lemma {:induction false} CountPrefixPositive<T>(ts: seq<seq<T>>, p: seq<T>, i: nat)
    requires i < |ts| && p <= ts[i]
    ensures CountPrefix(ts, p) > 0
  {
    if i < |ts| - 1 {
      CountPrefixPositive(ts[..|ts| - 1], p, i);
    }
  }

  lemma {:induction false} CountPrefixWitness<T>(ts: seq<seq<T>>, p: seq<T>) returns (i: nat)
    requires CountPrefix(ts, p) > 0
    ensures i < |ts| && p <= ts[i]
  {
    if p <= ts[|ts| - 1] {
      i := |ts| - 1;
    } else {
      i := CountPrefixWitness(ts[..|ts| - 1], p);
    }
  }

  /** Every header key of the tree built from `ts` comes from some transaction. */
  lemma {:induction false} KeyFromTransaction<T(!new)>(ts: seq<seq<T>>, x: T) returns (i: nat)
    requires x in KeyOrder(NodePaths(ts))
    ensures i < |ts| && x in ts[i]
  {
    var ps := NodePaths(ts);
    LastsSpec(ps);
    var j :| 0 <= j < |ps| && EndsWith(ps[j], x);
    var p := ps[j];
    NodePathsSpec(ts);
    assert p in ps;
    i := CountPrefixWitness(ts, p);
    assert ts[i][|p| - 1] == x;
  }

  /** Every item of every transaction is a header key of the tree built from `ts`. */
  lemma {:induction false} TransactionKey<T(!new)>(ts: seq<seq<T>>, x: T, i: nat)
    requires i < |ts| && x in ts[i]
    ensures x in KeyOrder(NodePaths(ts))
  {
    var ps := NodePaths(ts);
    var m :| 0 <= m < |ts[i]| && ts[i][m] == x;
    var p := ts[i][..m + 1];
    assert EndsWith(p, x);
    CountPrefixPositive(ts, p, i);
    NodePathsSpec(ts);
    assert p in ps;
    LastsSpec(ps);
  }

  /** An item is a header key of the tree built from `ts` exactly when some transaction contains it. */
  lemma {:induction false} KeyOrderItems<T(!new)>(ts: seq<seq<T>>, x: T)
    ensures x in KeyOrder(NodePaths(ts)) <==> exists i :: 0 <= i < |ts| && x in ts[i]
  {
    if x in KeyOrder(NodePaths(ts)) {
      var i := KeyFromTransaction(ts, x);
    }
    if exists i :: 0 <= i < |ts| && x in ts[i] {
      var i :| 0 <= i < |ts| && x in ts[i];
      TransactionKey(ts, x, i);
    }
  }
}
