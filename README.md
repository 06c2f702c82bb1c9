# B+ tree engine

This project models `lib/bplus-tree.js`, the in-memory B+ tree at the heart of a
small teaching application. The file holds four classes:

- `BPlusTree` owns the `order` and the `root`, and offers `insert`,
  `insertWithoutSave`, `search`, `getAll`, `findFirstLeaf`,
  `getTreeStructure`/`serializeNode` and `clear`.
- `Node` (lib/bplus-tree.js:151-155) is the base class of both node kinds;
  it only holds `keys`.
- `InternalNode` extends `Node` with `children`.
- `LeafNode` extends `Node` with `values`, parallel to `keys`, and a `next`
  reference that chains the leaves left to right.

The base class has no behaviour of its own. In the model it is folded into the
two constructors of the `NodeModel.Node` datatype, `Leaf` and `Internal`, both
of which carry `keys`.

Every node kind has its own `insert`, `split` and `search`. An insert that
overflows a node (`keys.length >= order`) splits it. The split answers
`{ newNode, key }` to the parent, and a split of the root grows the tree by one
level.

The model has two layers.

- **Value layer.** `NodeModel` defines the tree as a datatype
  (`Leaf(keys, values) | Internal(keys, children)`). It also defines the two
  split rules, recursive insertion with split propagation (`InsertNode`,
  `InsertTree`), `Find` for search, and `Entries`, the records a full scan
  yields. `NodeLemmas`, `ContentLemmas`, `OrderLemmas` and `SearchLemmas`
  prove what insertion and search do to these values.
- **Object layer.** `Engine.BPlusTree` is a class. Its node objects are
  records in an arena (`nodes: seq<NodeRec<V>>`) reached by integer handles.
  A leaf's `next` is an optional handle. The methods update the arena in place
  as the JavaScript methods do: the splice, the `pop` and the chain relink.
  Each method is proved to compute exactly the value-layer function on the
  tree that the arena denotes (`Arena.Abs`). `ArenaInsert` holds the frame
  reasoning: what a sub-insertion changes, what it leaves alone, and how it
  keeps the leaf chain linked.

Keys are mathematical integers. Values have an arbitrary type `V`.

## How the code behaves

The model follows the code as written, including the places where it departs
from a textbook B+ tree:

- **Ties route left.** Routing in `insert` and `search` advances only while
  `key > keys[i]` (lib/bplus-tree.js:166 and :204). A key equal to a separator
  therefore goes to the left child. A textbook B+ tree sends it right, to the
  subtree whose keys are at least the separator.
- **The promoted key.** A leaf split promotes the new (right) leaf's first key
  (lib/bplus-tree.js:257). The right leaf starts at 0-based index
  `ceil(order/2)` of the overflowing leaf (lib/bplus-tree.js:244). At order 3
  that is the third smallest of the three keys.
- **Search can miss a promoted key.** Together, the two rules above mean
  `search` misses a key that was promoted from a leaf. Order 3, insert 5, 15,
  25: the root becomes `[25]` over the leaves `[5, 15]` and `[25]`.
  `search(25)` then routes left and returns `null`, although `getAll` lists
  the record (`Scenarios.PromotedKeyMissed`,
  `Scenarios.EngineMissesPromotedKey`).
- **Duplicates.** Inserting 25 again does not overwrite the old value. It adds
  a second copy, the root's separators become `[25, 25]`, and the scan lists
  25 twice (`Scenarios.ReinsertDuplicates`).
- **What does hold, and what does not.** Separators are only non-decreasing,
  not strictly ascending. The scan is sorted but may hold a key twice.
  Per-leaf strict order and every structural invariant do hold.
- **Order is unchecked.** The code never checks the order and only defaults it
  to 3 (lib/bplus-tree.js:2). The model takes `order >= 2` as a constructor
  precondition.

## Model

| member | source | states |
|---|---|---|
| Routing.Route | lib/bplus-tree.js:165-168 | the routing scan stops at the first index whose key is not smaller than `key`, or at the end when every key is smaller |
| Routing.FindIndex | lib/bplus-tree.js:203-206 | the `while (i < keys.length && key > keys[i]) i++` loop ends at exactly the index `Route` describes |
| Routing.RouteFindsPresentKey | lib/bplus-tree.js:220-226 | in strictly ascending keys the scan stops on `key` exactly when `key` is present, and `indexOf` then returns that same index, so leaf search and leaf insert agree |
| NodeModel.LeafMid | lib/bplus-tree.js:244 | `ceil(order/2)`: the least `m` with `order <= 2m` |
| NodeModel.InternalMid | lib/bplus-tree.js:187 | `floor(order/2)`: the greatest `m` with `2m <= order` |
| NodeModel.SplitLeaf | lib/bplus-tree.js:243-258 | the original leaf keeps the first `ceil(order/2)` entries; the halves concatenate back to the keys and to the values; the right half is non-empty and the promoted key is its first key |
| NodeModel.SplitInternal | lib/bplus-tree.js:186-199 | the original keeps `floor(order/2)` keys and one child more; left keys, then the promoted key, then right keys give back the keys; the children are split between the halves with children = keys + 1 in each |
| NodeModel.LeafInsert | lib/bplus-tree.js:218-241 | LeafNode.insert as a value: route with `Route`; on an exact match at that index replace the value; otherwise splice the pair in at that index in both arrays and, once the leaf holds `order` keys, answer with `SplitLeaf`'s left half and the promoted key over a new leaf with the right half |
| NodeModel.SplitNode | lib/bplus-tree.js:186-199 | the answer of an internal node holding `order` keys: it keeps the left half of `SplitInternal` and hands up the promoted key with a new node over the right half; its contract states that left keys, promoted key and right keys give back the keys, and the two child lists give back the children |
| NodeModel.Absorb | lib/bplus-tree.js:172-183 | the rest of InternalNode.insert once the routed child `i` has answered: no change unless the child split; then the promoted key goes in at `i` and the new child at `i + 1`, and a node that now holds `order` keys answers with `SplitNode` |
| NodeModel.InsertNode | lib/bplus-tree.js:163-170 | `node.insert` for either kind: a leaf answers with `LeafInsert`; an internal node routes with `Route`, recurses into child `i` and `Absorb`s the child's answer; the kind of the node and of any new sibling is kept |
| NodeModel.InsertTree | lib/bplus-tree.js:111-119 | `insertWithoutSave` as a value: `InsertNode` at the root, then `Grown` |
| NodeModel.Grown | lib/bplus-tree.js:13-19 | the root after the root's answer: unchanged without a split, otherwise a new internal root holding only the promoted key over the old root and the new node |
| NodeModel.Find | lib/bplus-tree.js:202-208 | `search` as a value: an internal node routes with `Route` into child `i`; a leaf returns the value at `indexOf(key)`, or nothing when the key is absent (lib/bplus-tree.js:261-264) |
| NodeModel.Pairs | lib/bplus-tree.js:34-36 | the `{ key, value }` records of one leaf, one per index, in index order |
| NodeModel.Entries | lib/bplus-tree.js:29-41 | the records of all leaves below a node, leaves taken left to right, each leaf's records by `Pairs`; `Scan.ScanTree` and `Engine.BPlusTree.GetAll` prove this is what the chain walk emits |
| NodeLemmas.InsertTreeShaped | lib/bplus-tree.js:11-19 | insertion keeps every node's parallel arrays of matching length |
| NodeLemmas.LeafInsertWellFormed | lib/bplus-tree.js:218-241 | a leaf stays strictly ascending, with one value per key and fewer than `order` keys; after a split, both halves do |
| NodeLemmas.SplitInternalWellFormed | lib/bplus-tree.js:186-199 | both halves of an internal split have children = keys + 1, fewer than `order` keys and well-formed children at one depth |
| NodeLemmas.AbsorbWellFormed | lib/bplus-tree.js:172-183 | an internal node that absorbs a child's split, and possibly splits itself, stays well formed at its depth |
| NodeLemmas.InsertNodeWellFormed | lib/bplus-tree.js:163-184 | insertion into a well-formed node yields well-formed nodes at the same depth: equal leaf depth, children = keys + 1, fewer than `order` keys, strictly ascending leaves |
| NodeLemmas.InsertTreeWellFormed | lib/bplus-tree.js:11-19 | after every insert the tree is well formed; it is one level taller exactly when the root split |
| ContentLemmas.LeafInsertEntries | lib/bplus-tree.js:218-241 | on an exact match at the scan index only that value is overwritten, with no split and the keys unchanged; otherwise the record is spliced in at the scan index, across both halves if the leaf split |
| ContentLemmas.SplitInternalEntries | lib/bplus-tree.js:186-199 | the two halves of an internal split hold exactly the records of the node, in order |
| ContentLemmas.AbsorbEntries | lib/bplus-tree.js:172-183 | after absorbing a child's answer, the node and its possible sibling hold the records of the siblings left of the child, then of the child's answer, then of the siblings to its right |
| ContentLemmas.InsertNodeOverwrites | lib/bplus-tree.js:225-229 | when the routed leaf holds the key at the scan index, insertion splits nothing, keeps the shape of every node and replaces the value of exactly one record |
| ContentLemmas.InsertNodeAddsOne | lib/bplus-tree.js:231-238 | otherwise the node and its possible new sibling hold the old records with exactly one new record inserted |
| ContentLemmas.InsertTreeEntries | lib/bplus-tree.js:11-19 | an insert into the whole tree either overwrites one record, leaving the shape and root intact, or adds exactly one record |
| ContentLemmas.InsertTreeCount | lib/bplus-tree.js:11-19 | the number of records grows by one, or by none when the key is hit |
| OrderLemmas.LeafInsertOrdered | lib/bplus-tree.js:218-258 | a leaf whose keys lie in the parent's range keeps them there; after a split, the promoted key lies in the range, the left half lies below it and the right half lies at or above it |
| OrderLemmas.SplitInternalOrdered | lib/bplus-tree.js:186-199 | an internal split puts the promoted key inside the node's range, with the left half below it and the right half at or above it |
| OrderLemmas.AbsorbOrdered | lib/bplus-tree.js:172-183 | splicing a child's promoted key and new sibling in at `i` and `i + 1` keeps the node in search-tree order |
| OrderLemmas.InsertNodeOrdered | lib/bplus-tree.js:163-184 | insertion of a key in a node's range keeps the node and its possible sibling in search-tree order around the promoted key |
| OrderLemmas.InsertTreeOrdered | lib/bplus-tree.js:11-19 | the tree stays in search-tree order: every key lies between the separators that route to it |
| OrderLemmas.ScanSorted | lib/bplus-tree.js:29-41 | the records of a well-formed, ordered tree, read leaf by leaf, have non-decreasing keys inside the tree's range |
| SearchLemmas.FindIffHit | lib/bplus-tree.js:202-208 | search finds a value exactly when insertion of the same key would overwrite instead of adding |
| SearchLemmas.FindSound | lib/bplus-tree.js:261-264 | a value that search returns belongs to a record holding that key |
| SearchLemmas.SearchAfterOverwrite | lib/bplus-tree.js:225-229 | after an overwriting insert, search for the key returns the new value |
| Scan.ScanTree | lib/bplus-tree.js:29-41 | the records of the leaves below a node, in chain order, are exactly the records of the subtree |
| Snapshot.SerializeNode | lib/bplus-tree.js:55-74 | a node's description carries its keys, its level and its kind |
| Snapshot.SerializeChildren | lib/bplus-tree.js:68-70 | `children.map(child => serializeNode(child, level + 1))`: one description per child, in order, each one level further down |
| Snapshot.SerializeRestores | lib/bplus-tree.js:55-74 | a description reads back as its subtree; leaves carry one value per key and a flag, internal nodes one child more than keys, each one level further down |
| Snapshot.SerializeFlags | lib/bplus-tree.js:64-66 | the `hasNext` flags of a description, left to right, are whether each leaf has a `next` leaf |
| Snapshot.LinkedFlags | lib/bplus-tree.js:252-253 | along the leaf chain every leaf but the last has a `next` leaf |
| ArenaInsert.LeafUpdated | lib/bplus-tree.js:225-241 | a leaf that overwrites in place, or takes the pair without splitting, is the leaf the value model returns, and the chain is untouched |
| ArenaInsert.LeafSplitCase | lib/bplus-tree.js:243-258 | the two leaf records after a split are the two halves of the value model, chained original, then new leaf, then the old `next` |
| ArenaInsert.SplitInArena | lib/bplus-tree.js:186-199 | the two internal records after a split hold the two halves of the node, with the same subtrees and leaves and nothing else changed |
| ArenaInsert.RootDone | lib/bplus-tree.js:111-119 | after the root insert, and a new root `[promoted]` over the old root and the new node when the root split, the arena holds `InsertTree` of the old tree, well formed and with its chain ending at the last leaf |
| Engine.InsertAll | lib/bplus-tree.js:97-100 | replaying records one by one with insertWithoutSave keeps the tree's arrays of matching length |
| Engine.BPlusTree.constructor | lib/bplus-tree.js:2-4 | a new tree is one empty leaf, valid for its order |
| Engine.BPlusTree.SplitLeafNode | lib/bplus-tree.js:243-258 | the leaf keeps `ceil(order/2)` entries and points to a new record that takes the rest and the old `next`; the new leaf's first key is returned |
| Engine.BPlusTree.LeafNodeInsert | lib/bplus-tree.js:218-241 | the arena afterwards denotes the value model's `LeafInsert`, with the chain kept |
| Engine.BPlusTree.SplitInternalNode | lib/bplus-tree.js:186-199 | the node keeps `keys[..mid]` and `children[..mid+1]`; a new record takes the rest; `keys[mid]` is returned |
| Engine.BPlusTree.InternalNodeInsert | lib/bplus-tree.js:163-184 | the arena afterwards denotes the value model's `InsertNode` on that node, with the chain kept and nothing outside the subtree changed |
| Engine.BPlusTree.InternalNodeAbsorb | lib/bplus-tree.js:172-183 | the same, for the part after the routed child has split |
| Engine.BPlusTree.SplitGrown | lib/bplus-tree.js:178-180 | the same, for a node that reaches `order` keys and splits |
| Engine.BPlusTree.NodeInsert | lib/bplus-tree.js:170 | dispatch on the node kind gives the value model's `InsertNode` |
| Engine.BPlusTree.InsertWithoutSave | lib/bplus-tree.js:111-119 | the tree stays valid and becomes `InsertTree` of the old tree, one level taller exactly when the root split |
| Engine.BPlusTree.Insert | lib/bplus-tree.js:11-23 | the same, for the saving insert |
| Engine.BPlusTree.SearchNode | lib/bplus-tree.js:202-208 | descending from a node returns the value model's `Find`, and changes nothing |
| Engine.BPlusTree.Search | lib/bplus-tree.js:25-27 | search returns `Find` on the tree and changes nothing |
| Engine.BPlusTree.FindFirstLeaf | lib/bplus-tree.js:43-49 | following `children[0]` reaches the first leaf of the chain |
| Engine.BPlusTree.GetAll | lib/bplus-tree.js:29-41 | walking the chain yields exactly the tree's records, in non-decreasing key order |
| Engine.PushRecords | lib/bplus-tree.js:34-36 | the inner loop appends the leaf's records in index order |
| Engine.BPlusTree.GetTreeStructure | lib/bplus-tree.js:51-53 | the description reads back as the tree, is laid out from level 0, and every leaf but the last reports a next leaf |
| Engine.BPlusTree.Clear | lib/bplus-tree.js:122-123 | the tree becomes one empty leaf and stays valid |
| Engine.BPlusTree.Rebuild | lib/bplus-tree.js:97-100 | the tree becomes the replay of the records through insertWithoutSave, starting from an empty leaf |
| Scenarios.ThreeInserts | lib/bplus-tree.js:236-258 | at order 3, inserting 5, 15 and 25 gives the root `[25]` over the leaves `[5, 15]` and `[25]` |
| Scenarios.PromotedKeyMissed | lib/bplus-tree.js:202-208 | in that tree, search for 25 finds nothing although the scan lists the record |
| Scenarios.ReinsertDuplicates | lib/bplus-tree.js:170-183 | inserting 25 again gives separators `[25, 25]` and a scan that lists 25 twice |
| Scenarios.FourthInsertScan | lib/bplus-tree.js:29-41 | a fourth key, 35, joins the right leaf, and the scan lists the four records in key order |
| Scenarios.EngineMissesPromotedKey | lib/bplus-tree.js:25-27 | the same miss on the object: after the three inserts, `search(25)` returns nothing and `getAll` lists all three records |

## Left out

- Persistence to `localStorage` is browser I/O and is not modelled: `saveToStorage`, `loadFromStorage`, `getStorageInfo`, the `removeItem` in `clear`, JSON parsing and `Blob` sizing (lib/bplus-tree.js:77-148). The constructor's call to `loadFromStorage` is left out for the same reason. Only the rebuild loop is modelled, as `Engine.BPlusTree.Rebuild`.
- The random `id` of each `serializeNode` record (lib/bplus-tree.js:57) is nondeterministic and is dropped.
- The `globalTree` singleton (lib/bplus-tree.js:268) is not modelled; the model works with explicit tree objects.
- JavaScript comparison of mixed number and string keys is not modelled. Keys are integers with their usual total order.
- NodeModel.Find: `LeafNode.search` signals a miss with the `null` sentinel (lib/bplus-tree.js:263), and the search route treats a `null` result as not found. The model signals a miss with `None` of `Option<V>` and a hit with `Some(v)`. So where a stored value is itself `null` and the source cannot tell that record from a miss, the model reports a hit. The same holds for `Engine.BPlusTree.Search` and `Engine.BPlusTree.SearchNode`.
- The HTTP handlers, the React page and the SVG visualisation lie outside the engine.
- Engine.BPlusTree.constructor: requires `order >= 2`. The source accepts any order and defaults it to 3; at order 1 a leaf split would produce an empty right leaf and read `newNode.keys[0]` of it.
- No lemma claims that search finds every inserted key, or that the scan has one record per key. Neither holds for the code (see `Scenarios`).
- Node objects are arena records. Sharing a JavaScript object between two parents is excluded by the tree invariant. Records left unreachable by `clear` are not kept: `Clear` resets the arena.
