# FP-Growth in Dafny

This project models the FP-Growth frequent-pattern miner of
`FPGrowth/FPGrowth.py` and proves properties of the model.

The miner has two phases:

- **Building the tree.** It counts how often every item occurs in a list of
  transactions. It keeps the items whose count reaches the minimum support.
  It reduces each transaction to those items, ordered by descending count.
  Then it inserts each reduced transaction into an FP-tree. Every node of the
  tree stands for a prefix shared by some transactions. A node counts the
  transactions that start with that prefix. A header table leads from each
  item to a chain of all nodes carrying it.
- **Mining.** For each header item, the miner reads a support count. If that
  count reaches the minimum support, it emits the item appended to the
  current prefix. It then collects the paths above the item's nodes as
  conditional transactions, builds a conditional tree from them and mines
  that tree recursively under the extended prefix. An item below the minimum
  support is skipped, and nothing is mined under it.

## Modules

- `basics.dfy` (module `Basics`) holds these helpers:
  - `Option`;
  - `Distinct`;
  - `Flatten`;
  - `Dedup`, the order-preserving removal of duplicates that models a
    Python dict's key order;
  - `MaxLen`.
- `counting.dfy` (module `ItemCounting`) models the counting loop, the
  frequent-item filter and the stable sort by descending count.
  - Python's `sorted` and `list.sort` with `reverse=True` are stable. They are
    modelled by the insertion sort `SortByCount`.
  - `PrepareData` is the list of transactions as they are rewritten before
    insertion.
- `prefix_paths.dfy` (module `PrefixPaths`) says on plain values what a tree
  built from transactions `ts` contains:
  - `NodePaths(ts)` lists the distinct non-empty prefixes of `ts` in the
    order their nodes are created;
  - `CountPrefix(ts, p)` counts the transactions that start with `p`;
  - `KeyOrder` is the order in which the header table's keys appear;
  - `CondUpTo` is the list of conditional transactions of an item.
- `fp_tree.dfy` (module `FPTrees`) holds the tree itself.
  - `FPNode` (lines 24-30) becomes the datatype `Node`, with the same five
    fields: item, count, parent, children and `next`. Nodes live in an arena, a sequence
    addressed by index, so parent, child and `next` references are indices.
  - The class `FPTree` holds the arena, the header table, the header's key
    order and a ghost record of the inserted transactions.
  - Its invariant `Valid` ties node `i` to the `i`-th node path, and the
    node's count to the prefix count of that path. It also ties every
    header entry to the first node carrying its item, and every `next` link
    to the next node with the same item.
  - This module also holds `get_prefix_path` and the walk to the end of a
    sibling chain.
- `insertion_walk.dfy` (module `InsertionWalk`) holds the loop invariant
  `Walking` of `insert_transaction` and the lemmas showing that each step of
  the walk keeps it: moving to an existing child, or creating a new one.
- `tree_building.dfy` (module `TreeBuilding`) holds `insert_transaction` and
  `construct_initial_fp_tree`. Both are proved against the abstraction of
  `PrefixPaths`.
- `mining.dfy` (module `Mining`) holds `mine_frequent_itemsets`.
  - It is proved equal to the functional specification `MineSpec`, which is
    stated on the inserted transactions.
  - Lemmas about `MineSpec` show what the miner reports.

## Model

| member | source | states |
|---|---|---|
| Basics.Dedup | FPGrowth/FPGrowth.py:72-75 | the key order of a dict filled from a sequence holds each element exactly once, and nothing else |
| Basics.DedupSnoc | FPGrowth/FPGrowth.py:72-75 | seeing one more item extends the key order by that item exactly when the item was not seen before |
| Basics.MaxLen | FPGrowth/FPGrowth.py:131 | the length of the longest transaction bounds every transaction and is attained by one of them (used as the recursion measure of the miner) |
| ItemCounting.CountItems | FPGrowth/FPGrowth.py:72-75 | the counting loop yields a key for exactly the items occurring in the data; each key maps to its total number of occurrences; the key order is first-seen order |
| ItemCounting.TallySnoc | FPGrowth/FPGrowth.py:73-75 | one step of the counting loop keeps the table equal to the occurrence counts of the items read so far, adding a new key at the end for a first occurrence |
| ItemCounting.FrequentCountsOfData | FPGrowth/FPGrowth.py:72-78 | filtering the table the counting loop builds keeps exactly the items occurring at least the minimum support many times in the data, each with its number of occurrences |
| ItemCounting.KeepFrequent | FPGrowth/FPGrowth.py:87 | the filtered transaction keeps every occurrence of a frequent item and drops every other one, so it contains only frequent items and is no longer than the input |
| ItemCounting.InsertByCount | FPGrowth/FPGrowth.py:88 | inserting an item adds exactly that item to the multiset of elements and introduces no other element |
| ItemCounting.InsertByCountSorted | FPGrowth/FPGrowth.py:88 | inserting into a list sorted by non-increasing count keeps it sorted |
| ItemCounting.InsertByCountStable | FPGrowth/FPGrowth.py:88 | inserting an item keeps the items of each count in their order and puts the inserted item before the equal-count items already there |
| ItemCounting.SortByCount | FPGrowth/FPGrowth.py:88 | the sorted transaction is a permutation of its input, in non-increasing count order |
| ItemCounting.SortByCountStable | FPGrowth/FPGrowth.py:88 | the sort is stable: items of equal count keep their relative order |
| ItemCounting.PrepareTransaction | FPGrowth/FPGrowth.py:87-88 | a rewritten transaction holds only frequent items, and only occurrences the original transaction has |
| ItemCounting.KeepFrequentWithCount | FPGrowth/FPGrowth.py:87 | filtering does not reorder the items of any one count |
| ItemCounting.PrepareTransactionSpec | FPGrowth/FPGrowth.py:87-88 | a rewritten transaction holds the frequent occurrences of the original with their multiplicity, in non-increasing count order, ties in original order, and is no longer than the original |
| ItemCounting.FrequentItems | FPGrowth/FPGrowth.py:78-81 | the re-sorted frequent-item table holds only counted items whose count reaches the minimum support, each no more often than it was seen |
| ItemCounting.FrequentItemsSpec | FPGrowth/FPGrowth.py:78-81 | the frequent-item table holds exactly the items whose count reaches the minimum support, each once, in non-increasing count order, ties in first-seen order |
| ItemCounting.FlattenMember | FPGrowth/FPGrowth.py:73-74 | an item is visited by the nested counting loop exactly when some transaction contains it |
| ItemCounting.PrepareDataMember | FPGrowth/FPGrowth.py:86-88 | an item survives the rewriting of a transaction exactly when the transaction contains it and the item is frequent in the whole data |
| ItemCounting.PrepareDataItems | FPGrowth/FPGrowth.py:72-88 | the items left in the rewritten transactions are exactly those that occur at least the minimum support many times |
| PrefixPaths.CountPrefixBounded | FPGrowth/FPGrowth.py:97-112 | a sequence that some transaction starts with is no longer than the longest transaction |
| PrefixPaths.AddPrefixesSpec | FPGrowth/FPGrowth.py:97-112 | walking a transaction keeps the existing nodes, keeps the paths distinct, and adds exactly the transaction's missing prefixes |
| PrefixPaths.NodePathsSpec | FPGrowth/FPGrowth.py:95-112 | the tree's node paths are pairwise distinct, and they are exactly the non-empty sequences that some inserted transaction starts with |
| PrefixPaths.NodePathsBounded | FPGrowth/FPGrowth.py:95-112 | no node lies deeper than the longest inserted transaction |
| PrefixPaths.LastsSpec | FPGrowth/FPGrowth.py:104-110 | an item is the last item of some node path exactly when some node carries it |
| PrefixPaths.KeyOrderSnoc | FPGrowth/FPGrowth.py:104-110 | creating a node adds its item to the end of the header's key order exactly when the item had no node yet, and otherwise leaves the order unchanged |
| PrefixPaths.FirstIdx | FPGrowth/FPGrowth.py:110 | the position of the first node path ending with an item: no earlier path ends with it, and the path at that position does when it exists |
| PrefixPaths.KeyOrderFirstIdx | FPGrowth/FPGrowth.py:104-110 | an item is a header key exactly when some node path ends with it |
| PrefixPaths.CondSkip | FPGrowth/FPGrowth.py:125-129 | nodes outside an item's chain add no conditional transaction |
| PrefixPaths.CondShorter | FPGrowth/FPGrowth.py:127-128 | when every node path has at most `m` items, every conditional transaction has fewer than `m` items, because each drops the last item of its node path |
| PrefixPaths.CountPrefixPositive | FPGrowth/FPGrowth.py:97-112 | a sequence that some transaction starts with has a positive prefix count |
| PrefixPaths.CountPrefixWitness | FPGrowth/FPGrowth.py:97-112 | a positive prefix count has a transaction that starts with that sequence |
| PrefixPaths.KeyOrderItems | FPGrowth/FPGrowth.py:95-112 | an item is a header key of the tree built from some transactions exactly when some transaction contains it |
| PrefixPaths.KeyFromTransaction | FPGrowth/FPGrowth.py:95-112 | every header key of a built tree occurs in some inserted transaction |
| PrefixPaths.TransactionKey | FPGrowth/FPGrowth.py:95-112 | every item of every inserted transaction is a header key of the built tree |
| FPTrees.Ancestor | FPGrowth/FPGrowth.py:144-146 | following parent links from a node stays inside the tree |
| FPTrees.AncestorSteps | FPGrowth/FPGrowth.py:144-146 | following parent links reaches the root after exactly as many steps as the node is deep, passing only non-root nodes before it |
| FPTrees.PathAncestors | FPGrowth/FPGrowth.py:141-150 | a node's path lists the items of its ancestors from the root's child down to the node itself |
| FPTrees.PathFrame | FPGrowth/FPGrowth.py:95-112 | adding nodes and changing counts, children or links leaves the path of every existing node unchanged |
| FPTrees.FPTree.constructor | FPGrowth/FPGrowth.py:84-85 | a new tree has only the root (no item, count 0, no parent, no children), an empty header table, no inserted transactions, and satisfies the invariant |
| FPTrees.GetPrefixPath | FPGrowth/FPGrowth.py:141-150 | the result is the node's path: as long as the node is deep, ends with the node's own item, and lists its ancestors' items from the root's child downward |
| FPTrees.ChainTail | FPGrowth/FPGrowth.py:105-107 | following `next` links from a node reaches a node with the same item and no `next` link, and no later node carries that item |
| FPTrees.NodesWithSkip | FPGrowth/FPGrowth.py:104-110 | nodes not carrying an item do not change the list of nodes that do |
| FPTrees.ChainFromSpec | FPGrowth/FPGrowth.py:104-110 | the `next` chain from a node visits exactly the nodes carrying its item from that node on, in creation order |
| FPTrees.HeaderChainSpec | FPGrowth/FPGrowth.py:104-110 | the chain from an item's header entry visits every node carrying the item, each once, in creation order |
| FPTrees.LinksKept | FPGrowth/FPGrowth.py:104-110 | when nodes are only appended and existing items kept, as an insertion does, every existing `next` link stays as it was, and a node that ended its chain still ends it or links to a new node |
| InsertionWalk.WalkStart | FPGrowth/FPGrowth.py:96 | the insertion walk starts at the root in a state that satisfies its loop invariant |
| InsertionWalk.WalkDone | FPGrowth/FPGrowth.py:97-112 | when the walk has consumed the whole transaction, the tree satisfies the invariant for the transactions including the new one |
| InsertionWalk.WalkExisting | FPGrowth/FPGrowth.py:98-112 | bumping the count of an existing child and moving to it keeps the walk's invariant one item further on |
| TreeBuilding.BumpChild | FPGrowth/FPGrowth.py:98-99 | raising the count of the existing child for the next item keeps the walk's invariant one item further on, at that child, without changing any node's item, parent or children |
| InsertionWalk.ChildPath | FPGrowth/FPGrowth.py:112 | a child's path is its parent's path followed by the child's item |
| InsertionWalk.FreshPath | FPGrowth/FPGrowth.py:100-102 | a missing child means that the walked prefix is not yet a node path |
| InsertionWalk.NoChildNoPath | FPGrowth/FPGrowth.py:98-101 | when a node has no child for an item, its path followed by that item is no node's path |
| InsertionWalk.AttachChild | FPGrowth/FPGrowth.py:101-102 | the new node comes last, carries the item with count 1 and the current node as parent, has no children and no `next` link; the current node gains it as the child for the item; no other node changes |
| InsertionWalk.WalkNew | FPGrowth/FPGrowth.py:100-112 | creating a new child and linking it into its item's chain or the header keeps the walk's invariant one item further on |
| InsertionWalk.GrownHeader | FPGrowth/FPGrowth.py:104-110 | a new node for an item either becomes the header entry of a new key at the end of the key order or leaves the header table as it was, and the table stays linked to the first node of each item |
| TreeBuilding.AddChild | FPGrowth/FPGrowth.py:100-110 | the new node is the last one, registered as the child for the item, and appended to the item's chain or made its header entry; the walk's invariant holds one item further on |
| TreeBuilding.InsertTransaction | FPGrowth/FPGrowth.py:95-112 | after insertion the tree satisfies the invariant for the old transactions plus the new one, and existing nodes keep their place |
| TreeBuilding.InsertEffect | FPGrowth/FPGrowth.py:95-112 | an insertion raises by one the count of exactly the old nodes whose path is a prefix of the transaction; new nodes have count 1 and lie on the transaction; the whole transaction ends at some node |
| TreeBuilding.OldNodeEffect | FPGrowth/FPGrowth.py:97-99 | a node that existed before the insertion keeps its path and gains one count exactly when its path is a prefix of the transaction |
| TreeBuilding.NewNodeEffect | FPGrowth/FPGrowth.py:100-103 | a node created by the insertion has count 1 and a path that is a prefix of the transaction |
| TreeBuilding.TransactionNode | FPGrowth/FPGrowth.py:95-112 | after the insertion some node has the whole non-empty transaction as its path |
| TreeBuilding.ConstructInitialFPTree | FPGrowth/FPGrowth.py:70-91 | the built tree satisfies the invariant and holds exactly the transactions reduced to their frequent items and sorted by descending count |
| TreeBuilding.BuiltKeys | FPGrowth/FPGrowth.py:70-91 | the header table of the built tree has as keys exactly the items that occur at least the minimum support many times |
| Mining.PrepareDataShorter | FPGrowth/FPGrowth.py:131 | building a tree never lengthens the transactions |
| Mining.CondBounded | FPGrowth/FPGrowth.py:124-131 | the conditional tree of a header key is built from strictly shorter transactions, so the recursion ends |
| Mining.CarriesEndsWith | FPGrowth/FPGrowth.py:104-110 | a node is in an item's chain exactly when its path ends with that item |
| Mining.HeaderFirstIdx | FPGrowth/FPGrowth.py:110 | an item's header entry is the node for the first path ending with the item |
| Mining.ChainStart | FPGrowth/FPGrowth.py:124-125 | the chain walk starts at the header entry, a node carrying the item before which no conditional transaction of the item is due |
| Mining.ChainStep | FPGrowth/FPGrowth.py:125-129 | following the `next` link of a chain node skips only nodes that add no conditional transaction, and the end of the chain means none is left |
| Mining.ChainCollect | FPGrowth/FPGrowth.py:126-128 | a chain node adds its path without its last item when that path is longer than one item, and nothing otherwise |
| Mining.ChainAdvance | FPGrowth/FPGrowth.py:125-129 | one step of the chain walk brings the collected conditional transactions up to the next chain node, or to the complete list at the end of the chain |
| Mining.ConditionalData | FPGrowth/FPGrowth.py:124-129 | walking an item's chain collects, for every chain node deeper than one, its path without its last item, in chain order |
| Mining.FirstNodeSupport | FPGrowth/FPGrowth.py:117-118 | the support the miner reads for a header key is the count of the first node carrying it, which is the number of transactions starting with that node's path |
| Mining.MineKeysSnoc | FPGrowth/FPGrowth.py:117-135 | the itemsets of the first keys followed by one more key are the earlier itemsets followed by those of the new key |
| Mining.Mine | FPGrowth/FPGrowth.py:115-137 | the mined itemsets are exactly `MineSpec` of the inserted transactions |
| Mining.KeyDepth | FPGrowth/FPGrowth.py:117 | a tree with a header key holds a transaction of at least one item |
| Mining.MineSpecShape | FPGrowth/FPGrowth.py:115-137 | every mined itemset strictly extends the prefix, by at most as many items as the longest transaction has |
| Mining.MineKeysShape | FPGrowth/FPGrowth.py:117-135 | every itemset mined for some header keys strictly extends the prefix by one of those keys |
| Mining.MineOneShape | FPGrowth/FPGrowth.py:119-135 | every itemset mined for one key starts with the prefix followed by that key |
| Mining.MineSingle | FPGrowth/FPGrowth.py:117-121 | the prefix extended by one item is reported exactly when the item is a header key whose first node counts at least the minimum support |
| Mining.MineKeysSingle | FPGrowth/FPGrowth.py:117-121 | for some header keys, the prefix extended by one item is reported exactly when the item is one of them and its first node counts at least the minimum support |
| Mining.MineOneSingle | FPGrowth/FPGrowth.py:117-121 | the only one-item extension of the prefix reported for one key is that key, and only when its first node counts at least the minimum support |
| Mining.MineSpecDistinct | FPGrowth/FPGrowth.py:115-137 | no itemset is reported twice |
| Mining.MineKeysDistinct | FPGrowth/FPGrowth.py:117-135 | distinct header keys yield itemsets without repetition |
| Mining.MineOneDistinct | FPGrowth/FPGrowth.py:119-135 | one key's itemset and its conditional itemsets are pairwise distinct |
| Mining.MineSpecClosed | FPGrowth/FPGrowth.py:119-135 | every prefix of a reported itemset that is longer than the mining prefix is reported too, so the miner recurses only under itemsets it has reported |
| Mining.MineKeysClosed | FPGrowth/FPGrowth.py:117-135 | the itemsets mined for some header keys contain every prefix, longer than the mining prefix, of each of their members |
| Mining.MineOneClosed | FPGrowth/FPGrowth.py:119-135 | the itemsets mined for one key contain every prefix, longer than the mining prefix, of each of their members |
| Mining.MineOneCases | FPGrowth/FPGrowth.py:119-135 | an itemset mined for one key is the prefix followed by the key, or one mined in the key's conditional tree, and the key's support reaches the minimum |
| Mining.MineOneHas | FPGrowth/FPGrowth.py:119-135 | for a key whose support reaches the minimum, the prefix followed by the key and every itemset mined in its conditional tree are reported |
| Mining.MineSpecEmpty | FPGrowth/FPGrowth.py:115-137 | nothing is mined exactly when no header key's first node reaches the minimum support; a tree without header keys mines nothing |
| Mining.MineTopSingletons | FPGrowth/FPGrowth.py:70-137 | mining the tree built from the data reports `[x]` exactly when `x` occurs at least the minimum support many times and the first node created for `x` also counts at least that many transactions |

## Left out

- `load_data_from_file`, `write_frequent_itemsets_to_file`, the script driver
  at the end of the file and the global settings (file path, minimum support,
  output name) are left out. They are file I/O and console output. The
  transactions and the minimum support are parameters instead.
- Duplicate items within one transaction are kept and counted as Python does.
  No deduplication is modelled.
- The guard at line 132, that the conditional header table is not `None`, is
  left out. `construct_initial_fp_tree` always returns a dict, so the guard
  always holds.
- Line 81 re-sorts the frequent-item dict by descending count. `FrequentItems`
  models it and `FrequentItemsSpec` proves its properties.
  `ConstructInitialFPTree` does not compute it, because only membership and
  counts are read afterwards, and neither depends on the dict's order.
- `insert_transaction` registers the new node as a child before walking the
  sibling chain. `AddChild` walks the chain first and attaches afterwards.
  The walk reads only `next` links, which attaching does not change, so the
  outcome is the same.
- Python's `sorted` and `list.sort` are library code. They are modelled by the
  stable insertion sort `SortByCount`, which has the same observable result:
  a stable order by descending count.
- Object identity is modelled by arena indices. Aliasing between distinct
  trees does not arise, because each call to `construct_initial_fp_tree`
  builds a fresh tree.
- Mining.Mine: the support of an item is the count of the FIRST node of the
  item's sibling chain (line 118), not the sum over the whole chain. The model
  keeps this literal behaviour in `FirstSupport`. `MineTopSingletons` shows
  what it means: a frequent item is reported only if its first node alone
  reaches the minimum support. The sum over the chain is not modelled.
- Mining.ConditionalData: every chain node contributes its path once
  (line 128), whatever the node's count. The model keeps this unweighted
  collection. A count-weighted variant is not modelled.
- The model mines the tree object that `construct_initial_fp_tree` returns.
  Python passes only the header table, and reaches the nodes through it.
