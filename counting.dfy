/**
 * Frequency counting and filtering: how `construct_initial_fp_tree` counts
 * every item occurrence, keeps the items whose count reaches the minimum
 * support, orders them by descending count, and rewrites each transaction
 * to its frequent items in descending-count order.
 *
 * A Python dict, which remembers insertion order, is modelled as a pair of a
 * key sequence (the iteration order) and a map. Python's `sorted` and
 * `list.sort` with `reverse=True` are stable and keep equal keys in their
 * original order; they are modelled by the stable insertion sort
 * `SortByCount`.
 */
module ItemCounting {
  import opened Basics

  /** Total number of occurrences of `x` in all transactions, repeats inside one transaction included. */
  ghost function Occurrences<T>(data: seq<seq<T>>, x: T): nat
  {
    multiset(Flatten(data))[x]
  }

  lemma {:induction false} FlattenStep<T>(data: seq<seq<T>>, i: nat)
    requires i < |data|
    ensures Flatten(data[..i + 1]) == Flatten(data[..i]) + data[i]
  {
    assert data[..i + 1][..i] == data[..i];
  }

  /** `seen` and `counts` are the counting dict after reading the items of `s` in order. */
  ghost predicate Tallied<T(!new)>(seen: seq<T>, counts: map<T, nat>, s: seq<T>)
  {
    && seen == Dedup(s)
    && (forall x :: x in counts <==> x in s)
    && (forall x :: x in counts ==> counts[x] == multiset(s)[x])
  }

  /** Reading one more item `x` updates the counting dict as `item_counts.get(item, 0) + 1` does. */
  lemma {:induction false} TallySnoc<T(!new)>(seen: seq<T>, counts: map<T, nat>, s: seq<T>, x: T)
    requires Tallied(seen, counts, s)
    ensures Tallied(if x in counts then seen else seen + [x],
                    counts[x := (if x in counts then counts[x] else 0) + 1], s + [x])
  {
    var counts' := counts[x := (if x in counts then counts[x] else 0) + 1];
    DedupSnoc(s, x);
    assert multiset(s + [x]) == multiset(s) + multiset{x};
    forall y | y in counts'
      ensures counts'[y] == multiset(s + [x])[y]
    {
      if y != x {
        assert counts'[y] == counts[y];
      }
    }
  }

  lemma {:induction false} AppendTake<T>(done: seq<T>, t: seq<T>, j: nat)
    requires j < |t|
    ensures done + t[..j + 1] == done + t[..j] + [t[j]]
  {
    assert t[..j + 1] == t[..j] + [t[j]];
  }

  /**
   * The counting loop: `item_counts[item] = item_counts.get(item, 0) + 1` for
   * every item of every transaction. `seen` is the dict's key order.
   */
  method CountItems<T(==,!new)>(data: seq<seq<T>>) returns (seen: seq<T>, counts: map<T, nat>)
    ensures forall x :: x in counts <==> x in Flatten(data)
    ensures forall x :: x in counts ==> counts[x] == Occurrences(data, x)
    ensures seen == Dedup(Flatten(data))
  {
    seen, counts := [], map[];
    ghost var read: seq<T> := [];
    for i := 0 to |data|
      invariant read == Flatten(data[..i])
      invariant Tallied(seen, counts, read)
    {
      var transaction := data[i];
      ghost var done := read;
      for j := 0 to |transaction|
        invariant read == done + transaction[..j]
        invariant Tallied(seen, counts, read)
      {
        var item := transaction[j];
        TallySnoc(seen, counts, read, item);
        if item !in counts {
          seen := seen + [item];
        }
        counts := counts[item := (if item in counts then counts[item] else 0) + 1];
        AppendTake(done, transaction, j);
        read := read + [item];
      }
      assert transaction[..|transaction|] == transaction;
      FlattenStep(data, i);
    }
    assert data[..|data|] == data;
  }

  /** The dict comprehension that keeps the items whose count is at least `minSupport`. */
  function FrequentCounts<T(==,!new)>(counts: map<T, nat>, minSupport: int): map<T, nat>
  {
    map x | x in counts && counts[x] >= minSupport :: counts[x]
  }

  /** The list comprehension keeping, in order, the elements of `s` that are keys of `freq`. */
  function KeepFrequent<T(==,!new)>(s: seq<T>, freq: map<T, nat>): (r: seq<T>)
    ensures forall x :: multiset(r)[x] == if x in freq then multiset(s)[x] else 0
    ensures forall i :: 0 <= i < |r| ==> r[i] in freq
    ensures |r| <= |s|
  {
    if s == [] then []
    else
      assert s == [s[0]] + s[1..];
      (if s[0] in freq then [s[0]] else []) + KeepFrequent(s[1..], freq)
  }

  /** Every element has a count, and counts never increase from left to right. */
  ghost predicate NonIncreasing<T>(s: seq<T>, key: map<T, nat>)
  {
    && (forall i :: 0 <= i < |s| ==> s[i] in key)
    && (forall i, j :: 0 <= i < j < |s| ==> key[s[i]] >= key[s[j]])
  }

  /** The elements of `s` whose count is exactly `c`, in their order in `s`. */
  ghost function WithCount<T>(s: seq<T>, key: map<T, nat>, c: nat): seq<T>
  {
    if s == [] then []
    else (if s[0] in key && key[s[0]] == c then [s[0]] else []) + WithCount(s[1..], key, c)
  }

  /** Puts `x` in front of the first element whose count does not exceed that of `x`. */
  function InsertByCount<T(==)>(x: T, s: seq<T>, key: map<T, nat>): (r: seq<T>)
    requires x in key && forall i :: 0 <= i < |s| ==> s[i] in key
    ensures multiset(r) == multiset(s) + multiset{x}
    ensures forall i :: 0 <= i < |r| ==> r[i] == x || r[i] in s
  {
    if s == [] || key[s[0]] <= key[x] then [x] + s
    else
      assert s == [s[0]] + s[1..];
      [s[0]] + InsertByCount(x, s[1..], key)
  }

  lemma {:induction false} NonIncreasingTail<T>(s: seq<T>, key: map<T, nat>)
    requires s != [] && NonIncreasing(s, key)
    ensures NonIncreasing(s[1..], key)
  {
    assert forall i :: 0 <= i < |s| - 1 ==> s[1..][i] == s[i + 1];
  }

  /** Every element that is not `x` in `InsertByCount(x, s, key)` comes from `s`, so its count is bounded by `s`'s head. */
  lemma {:induction false} InsertedBelowHead<T>(x: T, s: seq<T>, key: map<T, nat>)
    requires x in key && s != [] && NonIncreasing(s, key) && key[s[0]] > key[x]
    ensures forall j :: 0 <= j < |InsertByCount(x, s[1..], key)| ==>
              key[s[0]] >= key[InsertByCount(x, s[1..], key)[j]]
  {
    var rest := InsertByCount(x, s[1..], key);
    forall j | 0 <= j < |rest|
      ensures key[s[0]] >= key[rest[j]]
    {
      if rest[j] != x {
        var k :| 0 <= k < |s[1..]| && s[1..][k] == rest[j];
        assert s[k + 1] == rest[j];
      }
    }
  }

  lemma {:induction false} InsertByCountSorted<T>(x: T, s: seq<T>, key: map<T, nat>)
    requires x in key && NonIncreasing(s, key)
    ensures NonIncreasing(InsertByCount(x, s, key), key)
  {
    if !(s == [] || key[s[0]] <= key[x]) {
      var rest := InsertByCount(x, s[1..], key);
      NonIncreasingTail(s, key);
      InsertByCountSorted(x, s[1..], key);
      InsertedBelowHead(x, s, key);
      var r := [s[0]] + rest;
      assert forall i :: 1 <= i < |r| ==> r[i] == rest[i - 1];
    }
  }

  /** Stable sort by descending count: `sorted(..., key=count, reverse=True)`. */
  function SortByCount<T(==)>(s: seq<T>, key: map<T, nat>): (r: seq<T>)
    requires forall i :: 0 <= i < |s| ==> s[i] in key
    ensures multiset(r) == multiset(s)
    ensures NonIncreasing(r, key)
  {
    if s == [] then []
    else
      assert s == [s[0]] + s[1..];
      var sorted := SortByCount(s[1..], key);
      InsertByCountSorted(s[0], sorted, key);
      InsertByCount(s[0], sorted, key)
  }

  lemma {:induction false} WithCountCons<T>(y: T, r: seq<T>, key: map<T, nat>, c: nat)
    ensures WithCount([y] + r, key, c) == (if y in key && key[y] == c then [y] else []) + WithCount(r, key, c)
  {
    assert ([y] + r)[1..] == r;
  }

  lemma {:induction false} InsertByCountStable<T>(x: T, s: seq<T>, key: map<T, nat>, c: nat)
    requires x in key && NonIncreasing(s, key)
    ensures WithCount(InsertByCount(x, s, key), key, c)
         == (if key[x] == c then [x] else []) + WithCount(s, key, c)
  {
    if s == [] || key[s[0]] <= key[x] {
      WithCountCons(x, s, key, c);
    } else {
      var rest := InsertByCount(x, s[1..], key);
      NonIncreasingTail(s, key);
      InsertByCountStable(x, s[1..], key, c);
      WithCountCons(s[0], rest, key, c);
      assert s[0] in key && key[s[0]] > key[x];
    }
  }

  /** Items of equal count keep their relative order. */
  lemma {:induction false} SortByCountStable<T>(s: seq<T>, key: map<T, nat>, c: nat)
    requires forall i :: 0 <= i < |s| ==> s[i] in key
    ensures WithCount(SortByCount(s, key), key, c) == WithCount(s, key, c)
  {
    if s != [] {
      SortByCountStable(s[1..], key, c);
      InsertByCountStable(s[0], SortByCount(s[1..], key), key, c);
    }
  }

  lemma {:induction false} KeepFrequentWithCount<T(!new)>(s: seq<T>, freq: map<T, nat>, c: nat)
    ensures WithCount(KeepFrequent(s, freq), freq, c) == WithCount(s, freq, c)
  {
    if s != [] {
      KeepFrequentWithCount(s[1..], freq, c);
      var rest := KeepFrequent(s[1..], freq);
      if s[0] in freq {
        assert ([s[0]] + rest)[1..] == rest;
      } else {
        assert [] + rest == rest;
      }
    }
  }

  lemma {:induction false} DistinctFromMultiset<T>(s: seq<T>)
    requires forall x :: multiset(s)[x] <= 1
    ensures Distinct(s)
  {
    forall i, j | 0 <= i < j < |s|
      ensures s[i] != s[j]
    {
      assert s == s[..j] + s[j..];
      assert s[i] in multiset(s[..j]) && s[j] in multiset(s[j..]);
      assert multiset(s) == multiset(s[..j]) + multiset(s[j..]);
      assert multiset(s)[s[i]] == multiset(s[..j])[s[i]] + multiset(s[j..])[s[i]];
    }
  }

  lemma {:induction false} MultisetFromDistinct<T>(s: seq<T>)
    requires Distinct(s)
    ensures forall x :: multiset(s)[x] <= 1
  {
    if s != [] {
      assert s == [s[0]] + s[1..];
      MultisetFromDistinct(s[1..]);
      assert s[0] !in s[1..];
    }
  }

  /**
   * The rewritten transaction of line 88 applied to the filtered one of line
   * 87: a transaction reduced to its frequent items and stably sorted by
   * descending count.
   */
  function PrepareTransaction<T(==,!new)>(t: seq<T>, freq: map<T, nat>): (r: seq<T>)
    ensures forall i :: 0 <= i < |r| ==> r[i] in freq
    ensures multiset(r) <= multiset(t)
  {
    SortByCount(KeepFrequent(t, freq), freq)
  }

  /**
   * A rewritten transaction holds exactly the frequent occurrences of the
   * original (with their multiplicity), in non-increasing count order, and
   * items of equal count stay in the order they had in the original.
   */
  lemma {:induction false} PrepareTransactionSpec<T(!new)>(t: seq<T>, freq: map<T, nat>)
    ensures forall x :: multiset(PrepareTransaction(t, freq))[x] == if x in freq then multiset(t)[x] else 0
    ensures NonIncreasing(PrepareTransaction(t, freq), freq)
    ensures forall c :: WithCount(PrepareTransaction(t, freq), freq, c) == WithCount(t, freq, c)
    ensures |PrepareTransaction(t, freq)| <= |t|
  {
    var kept := KeepFrequent(t, freq);
    assert |multiset(PrepareTransaction(t, freq))| == |multiset(kept)|;
    forall c: nat
      ensures WithCount(PrepareTransaction(t, freq), freq, c) == WithCount(t, freq, c)
    {
      SortByCountStable(kept, freq, c);
      KeepFrequentWithCount(t, freq, c);
    }
  }

  /**
   * `frequent_items` after line 81: the keys of the line-78 comprehension,
   * in the counting dict's key order, stably sorted by descending count.
   */
  function FrequentItems<T(==,!new)>(seen: seq<T>, counts: map<T, nat>, minSupport: int): (r: seq<T>)
    ensures forall i :: 0 <= i < |r| ==> r[i] in counts && counts[r[i]] >= minSupport
    ensures multiset(r) <= multiset(seen)
  {
    var freq := FrequentCounts(counts, minSupport);
    SortByCount(KeepFrequent(seen, freq), freq)
  }

  /**
   * `frequent_items` holds each item whose count reaches `minSupport` exactly
   * once, in non-increasing count order, and items of equal count keep the
   * first-seen order of the counting dict.
   */
  lemma {:induction false} FrequentItemsSpec<T(!new)>(seen: seq<T>, counts: map<T, nat>, minSupport: int)
    requires Distinct(seen)
    requires forall x :: x in counts <==> x in seen
    ensures forall x :: x in FrequentItems(seen, counts, minSupport) <==> x in counts && counts[x] >= minSupport
    ensures Distinct(FrequentItems(seen, counts, minSupport))
    ensures NonIncreasing(FrequentItems(seen, counts, minSupport), FrequentCounts(counts, minSupport))
    ensures forall c :: WithCount(FrequentItems(seen, counts, minSupport), FrequentCounts(counts, minSupport), c)
                     == WithCount(seen, FrequentCounts(counts, minSupport), c)
  {
    var freq := FrequentCounts(counts, minSupport);
    var r := FrequentItems(seen, counts, minSupport);
    MultisetFromDistinct(seen);
    assert forall x :: x in r <==> multiset(r)[x] > 0;
    DistinctFromMultiset(r);
    forall c: nat
      ensures WithCount(r, freq, c) == WithCount(seen, freq, c)
    {
      SortByCountStable(KeepFrequent(seen, freq), freq, c);
      KeepFrequentWithCount(seen, freq, c);
    }
  }

  /** The frequent-item table of a transaction set: each item reaching `minSupport`, with its count. */
  ghost function FreqTable<T>(data: seq<seq<T>>, minSupport: int): map<T, nat>
  {
    map x | x in Flatten(data) && Occurrences(data, x) >= minSupport :: Occurrences(data, x)
  }

  /**
   * Filtering the table that the counting loop builds from `data` yields the
   * frequent-item table of `data`: each item occurring at least `minSupport`
   * times, with its number of occurrences.
   */
  lemma {:induction false} FrequentCountsOfData<T(!new)>(data: seq<seq<T>>, counts: map<T, nat>, minSupport: int)
    requires forall x :: x in counts <==> x in Flatten(data)
    requires forall x :: x in counts ==> counts[x] == Occurrences(data, x)
    ensures FrequentCounts(counts, minSupport) == FreqTable(data, minSupport)
  {
    var freq, table := FrequentCounts(counts, minSupport), FreqTable(data, minSupport);
    assert forall x :: x in freq <==> x in table;
    assert forall x :: x in freq ==> freq[x] == table[x];
  }

  /** Every transaction of `data` rewritten against the frequent-item table of `data`. */
  ghost function PrepareData<T(!new)>(data: seq<seq<T>>, minSupport: int): seq<seq<T>>
  {
    seq(|data|, i requires 0 <= i < |data| => PrepareTransaction(data[i], FreqTable(data, minSupport)))
  }

  lemma {:induction false} FlattenMember<T>(data: seq<seq<T>>, x: T)
    ensures x in Flatten(data) <==> exists i :: 0 <= i < |data| && x in data[i]
  {
    if data != [] {
      var init := data[..|data| - 1];
      FlattenMember(init, x);
      assert forall i :: 0 <= i < |init| ==> init[i] == data[i];
    }
  }

  /**
   * An item survives the rewriting of a transaction exactly when the
   * transaction contains it and it is frequent in the whole data.
   */
  lemma {:induction false} PrepareDataMember<T(!new)>(data: seq<seq<T>>, minSupport: int, i: nat, x: T)
    requires i < |data|
    ensures x in PrepareData(data, minSupport)[i] <==> x in data[i] && x in FreqTable(data, minSupport)
  {
    var freq := FreqTable(data, minSupport);
    var r := PrepareData(data, minSupport)[i];
    PrepareTransactionSpec(data[i], freq);
    assert x in r <==> multiset(r)[x] > 0;
    assert x in data[i] <==> multiset(data[i])[x] > 0;
  }

  /** The items left in the rewritten data are exactly the frequent ones. */
  lemma {:induction false} PrepareDataItems<T(!new)>(data: seq<seq<T>>, minSupport: int, x: T)
    ensures (exists i :: 0 <= i < |data| && x in PrepareData(data, minSupport)[i])
            <==> x in Flatten(data) && Occurrences(data, x) >= minSupport
  {
    FlattenMember(data, x);
    forall i | 0 <= i < |data|
      ensures x in PrepareData(data, minSupport)[i] <==> x in data[i] && x in FreqTable(data, minSupport)
    {
      PrepareDataMember(data, minSupport, i, x);
    }
  }
}
