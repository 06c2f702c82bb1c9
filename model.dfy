/** The B+ tree of lib/bplus-tree.js as a value: the node kinds, the two split
    rules and recursive insertion with split propagation, search, and the
    entry sequence a full scan yields.  The arena-based class in engine.dfy is
    proved to compute exactly these functions. */
module NodeModel {

  import opened Wrappers
  import opened Seqs
  import opened Routing

  /** A leaf holds parallel `keys`/`values`; an internal node holds separator
      `keys` and its `children`. */
  datatype Node<V> =
    | Leaf(keys: seq<int>, values: seq<V>)
    | Internal(keys: seq<int>, children: seq<Node<V>>)

  /** `{ newNode, key }`: what a node that split hands to its parent. */
  datatype Split<T> = Split(key: int, newNode: T)

  /** One `{ key, value }` record of a full scan. */
  datatype Entry<V> = Entry(key: int, value: V)

  /** The two halves of a split node and the key between them.  For a leaf,
      `left`/`right` are values; for an internal node they are children. */
  datatype Halves<C> = Halves(leftKeys: seq<int>, left: seq<C>, promoted: int,
                              rightKeys: seq<int>, right: seq<C>)

  /** `Math.ceil(order / 2)`, the leaf split point. */
  function LeafMid(order: nat): (m: nat)
    ensures order <= 2 * m <= order + 1
  {
    (order + 1) / 2
  }

  /** `Math.floor(order / 2)`, the internal split point. */
  function InternalMid(order: nat): (m: nat)
    ensures order <= 2 * m + 1 && 2 * m <= order
  {
    order / 2
  }

  /** LeafNode.split on a leaf that has reached `order` keys: the original keeps
      the first `ceil(order/2)` entries, a new leaf takes the rest, and the new
      leaf's first key is promoted. */
  function SplitLeaf<V>(keys: seq<int>, values: seq<V>, order: nat): (h: Halves<V>)
    requires order >= 2 && |keys| >= order && |values| == |keys|
    ensures |h.leftKeys| == |h.left| == LeafMid(order)
    ensures h.leftKeys + h.rightKeys == keys && h.left + h.right == values
    ensures |h.rightKeys| == |h.right| > 0 && h.promoted == h.rightKeys[0]
  {
    var m := LeafMid(order);
    Halves(keys[..m], values[..m], keys[m], keys[m..], values[m..])
  }

  /** InternalNode.split on a node with `order` keys: with `mid = floor(order/2)`
      the original keeps `keys[..mid]` and `children[..mid+1]`, the new node gets
      `keys[mid+1..]` and `children[mid+1..]`, and `keys[mid]` is promoted. */
  function SplitInternal<C>(keys: seq<int>, children: seq<C>, order: nat): (h: Halves<C>)
    requires order >= 2 && |keys| >= order && |children| == |keys| + 1
    ensures |h.leftKeys| == InternalMid(order)
    ensures |h.left| == |h.leftKeys| + 1 && |h.right| == |h.rightKeys| + 1
    ensures h.leftKeys + [h.promoted] + h.rightKeys == keys
    ensures h.left + h.right == children
  {
    var m := InternalMid(order);
    Halves(keys[..m], children[..m + 1], keys[m], keys[m + 1..], children[m + 1..])
  }

  /** Parallel arrays of the right lengths, all the way down. */
  ghost predicate Shaped<V>(n: Node<V>)
  {
    match n
    case Leaf(ks, vs) => |vs| == |ks|
    case Internal(ks, cs) =>
      |cs| == |ks| + 1 && forall j :: 0 <= j < |cs| ==> Shaped(cs[j])
  }

  /** Every subtree of a sibling list is shaped. */
  ghost predicate AllShaped<V>(cs: seq<Node<V>>)
  {
    forall j :: 0 <= j < |cs| ==> Shaped(cs[j])
  }

  /** The structural invariants of a tree of the given order whose leaves are
      all `d` levels down: children = keys + 1 in internal nodes, equal leaf
      depth, fewer than `order` keys per node, strictly ascending leaf keys. */
  ghost predicate WellFormed<V>(n: Node<V>, order: nat, d: nat)
  {
    match n
    case Leaf(ks, vs) =>
      d == 0 && |vs| == |ks| && |ks| < order && StrictlyIncreasing(ks)
    case Internal(ks, cs) =>
      d > 0 && |cs| == |ks| + 1 && |ks| < order &&
      forall j :: 0 <= j < |cs| ==> WellFormed(cs[j], order, d - 1)
  }

  /** LeafNode.insert: overwrite on an exact match at the scan index, otherwise
      splice the pair in at that index and split once `order` keys are held. */
  function LeafInsert<V>(keys: seq<int>, values: seq<V>, key: int, value: V, order: nat)
    : (r: (Node<V>, Option<Split<Node<V>>>))
    requires order >= 2 && |values| == |keys|
    ensures r.0.Leaf? && |r.0.values| == |r.0.keys|
    ensures r.1.Some? ==> r.1.value.newNode.Leaf? && |r.1.value.newNode.values| == |r.1.value.newNode.keys|
  {
    var i := Route(keys, key);
    if i < |keys| && keys[i] == key then
      (Leaf(keys, values[i := value]), None)
    else
      var ks, vs := InsertAt(keys, i, key), InsertAt(values, i, value);
      if |ks| >= order then
        var h := SplitLeaf(ks, vs, order);
        (Leaf(h.leftKeys, h.left), Some(Split(h.promoted, Leaf(h.rightKeys, h.right))))
      else
        (Leaf(ks, vs), None)
  }

  /** The rest of InternalNode.insert once the routed child `i` (already
      updated in `cs`) has answered: nothing changes unless the child split;
      then the promoted key goes in at `i` and the new child at `i + 1`, and the
      node splits itself once it holds `order` keys. */
  function Absorb<V>(ks: seq<int>, cs: seq<Node<V>>, i: nat, res: Option<Split<Node<V>>>, order: nat)
    : (r: (Node<V>, Option<Split<Node<V>>>))
    requires order >= 2 && |cs| == |ks| + 1 && i < |cs|
    ensures r.0.Internal? && (r.1.Some? ==> r.1.value.newNode.Internal?)
  {
    match res
    case None => (Internal(ks, cs), None)
    case Some(s) =>
      var ks', cs' := InsertAt(ks, i, s.key), InsertAt(cs, i + 1, s.newNode);
      if |ks'| >= order then SplitNode(ks', cs', order) else (Internal(ks', cs'), None)
  }

  /** The answer of an internal node that holds `order` keys: it keeps the
      left half of InternalNode.split and hands up the promoted key with a new
      node holding the right half. */
  function SplitNode<V>(ks: seq<int>, cs: seq<Node<V>>, order: nat): (r: (Node<V>, Option<Split<Node<V>>>))
    requires order >= 2 && |ks| >= order && |cs| == |ks| + 1
    ensures r.0.Internal? && r.1.Some? && r.1.value.newNode.Internal?
    ensures r.0.keys + [r.1.value.key] + r.1.value.newNode.keys == ks
    ensures r.0.children + r.1.value.newNode.children == cs
  {
    var h := SplitInternal(ks, cs, order);
    (Internal(h.leftKeys, h.left), Some(Split(h.promoted, Internal(h.rightKeys, h.right))))
  }

  /** `node.insert(key, value, order)` for either node kind; an internal node
      routes to one child and absorbs that child's answer. */
  function InsertNode<V>(n: Node<V>, key: int, value: V, order: nat)
    : (r: (Node<V>, Option<Split<Node<V>>>))
    requires order >= 2 && Shaped(n)
    ensures r.0.Leaf? == n.Leaf?
    ensures r.1.Some? ==> r.1.value.newNode.Leaf? == n.Leaf?
  {
    match n
    case Leaf(ks, vs) => LeafInsert(ks, vs, key, value, order)
    case Internal(ks, cs) =>
      var i := Route(ks, key);
      var r := InsertNode(cs[i], key, value, order);
      Absorb(ks, cs[i := r.0], i, r.1, order)
  }

  /** BPlusTree.insert / insertWithoutSave: a split of the root grows the tree
      by a new root holding only the promoted key over the two halves. */
  function InsertTree<V>(root: Node<V>, key: int, value: V, order: nat): (t: Node<V>)
    requires order >= 2 && Shaped(root)
  {
    Grown(InsertNode(root, key, value, order))
  }

  /** The root after its insertion answered `r`: the same root when it did
      not split, otherwise a new internal root holding only the promoted key
      over the two halves. */
  function Grown<V>(r: (Node<V>, Option<Split<Node<V>>>)): (t: Node<V>)
    ensures r.1.None? ==> t == r.0
    ensures r.1.Some? ==> t.Internal? && t.keys == [r.1.value.key] && t.children == [r.0, r.1.value.newNode]
  {
    match r.1
    case None => r.0
    case Some(s) => Internal([s.key], [r.0, s.newNode])
  }

  /** Whether the insertion of `key` splits the root, so that the tree grows. */
  function RootSplits<V>(root: Node<V>, key: int, value: V, order: nat): bool
    requires order >= 2 && Shaped(root)
  {
    InsertNode(root, key, value, order).1.Some?
  }

  /** `tree.search(key)`: route as insertion does, then `indexOf` in the leaf. */
  function Find<V>(n: Node<V>, key: int): Option<V>
    requires Shaped(n)
  {
    match n
    case Leaf(ks, vs) =>
      var idx := IndexOf(ks, key);
      if idx != -1 then Some(vs[idx]) else None
    case Internal(ks, cs) => Find(cs[Route(ks, key)], key)
  }

  /** The leaf that insertion routes `key` to already holds `key` at the scan
      index, so insertion overwrites instead of adding an entry. */
  ghost predicate Hit<V>(n: Node<V>, key: int)
    requires Shaped(n)
  {
    match n
    case Leaf(ks, _) => Route(ks, key) < |ks| && ks[Route(ks, key)] == key
    case Internal(ks, cs) => Hit(cs[Route(ks, key)], key)
  }

  /** The `{ key, value }` records of one leaf, in index order. */
  function Pairs<V>(keys: seq<int>, values: seq<V>): seq<Entry<V>>
    requires |values| == |keys|
  {
    seq(|keys|, j requires 0 <= j < |keys| => Entry(keys[j], values[j]))
  }

  /** All entries of the leaves below `n`, leaves taken left to right. */
  function Entries<V>(n: Node<V>): seq<Entry<V>>
    requires Shaped(n)
  {
    match n
    case Leaf(ks, vs) => Pairs(ks, vs)
    case Internal(_, cs) => Flatten(seq(|cs|, j requires 0 <= j < |cs| => Entries(cs[j])))
  }

  /** The per-child entry sequences of a list of subtrees. */
  function Parts<V>(cs: seq<Node<V>>): seq<seq<Entry<V>>>
    requires AllShaped(cs)
  {
    seq(|cs|, j requires 0 <= j < |cs| => Entries(cs[j]))
  }

  /** The entries of a list of sibling subtrees, left to right. */
  function EntriesOf<V>(cs: seq<Node<V>>): seq<Entry<V>>
    requires AllShaped(cs)
  {
    Flatten(Parts(cs))
  }

  /** The keys of a sequence of entries, in order. */
  function KeysOf<V>(es: seq<Entry<V>>): seq<int>
  {
    seq(|es|, j requires 0 <= j < |es| => es[j].key)
  }

  /** The same nodes with the same keys in the same places; only values may
      differ. */
  ghost predicate SameShape<V>(a: Node<V>, b: Node<V>)
  {
    match a
    case Leaf(ks, vs) => b.Leaf? && b.keys == ks && |b.values| == |vs|
    case Internal(ks, cs) =>
      b.Internal? && b.keys == ks && |b.children| == |cs| &&
      forall j :: 0 <= j < |cs| ==> SameShape(cs[j], b.children[j])
  }

  /** Key `k` lies between the optional inclusive bounds. */
  ghost predicate InRange(k: int, lo: Option<int>, hi: Option<int>)
  {
    (lo.Some? ==> lo.value <= k) && (hi.Some? ==> k <= hi.value)
  }

  /** Lower bound for child `j`: the separator on its left. */
  function LowerBound(keys: seq<int>, lo: Option<int>, j: nat): Option<int>
    requires j <= |keys|
  {
    if j == 0 then lo else Some(keys[j - 1])
  }

  /** Upper bound for child `j`: the separator on its right. */
  function UpperBound(keys: seq<int>, hi: Option<int>, j: nat): Option<int>
    requires j <= |keys|
  {
    if j < |keys| then Some(keys[j]) else hi
  }

  /** The search-tree order the code maintains: separators ascending (ties
      allowed) and every key of child `j` between the separators around it,
      both ends included. */
  ghost predicate Ordered<V>(n: Node<V>, lo: Option<int>, hi: Option<int>)
  {
    match n
    case Leaf(ks, _) => forall j :: 0 <= j < |ks| ==> InRange(ks[j], lo, hi)
    case Internal(ks, cs) =>
      |cs| == |ks| + 1 && NonDecreasing(ks) &&
      (forall j :: 0 <= j < |ks| ==> InRange(ks[j], lo, hi)) &&
      forall j :: 0 <= j < |cs| ==>
        Ordered(cs[j], LowerBound(ks, lo, j), UpperBound(ks, hi, j))
  }

}
