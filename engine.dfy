/** The BPlusTree object of lib/bplus-tree.js with its LeafNode and
    InternalNode objects held as records in an arena: `insert` (with root
    growth), `search`, `findFirstLeaf`, `getAll`, `clear` and the rebuild
    that `loadFromStorage` performs, each proved against the value model. */
module Engine {

  import opened Wrappers
  import opened Seqs
  import opened Routing
  import opened NodeModel
  import opened Arena
  import opened ArenaLemmas
  import opened ArenaInsert
  import opened Scan
  import opened Snapshot
  import NodeLemmas
  import OrderLemmas

  /** The tree after inserting `data` in order, starting from `t`. */
  function InsertAll<V>(t: Node<V>, data: seq<Entry<V>>, order: nat): (r: Node<V>)
    requires order >= 2 && Shaped(t)
    ensures Shaped(r)
    decreases |data|
  {
    if data == [] then t
    else
      NodeLemmas.InsertTreeShaped(t, data[0].key, data[0].value, order);
      InsertAll(InsertTree(t, data[0].key, data[0].value, order), data[1..], order)
  }

  class BPlusTree<V> {

    /** A node splits once it holds `order` keys. */
    const order: nat
    /** The LeafNode and InternalNode objects; a handle is an index. */
    var nodes: seq<NodeRec<V>>
    var root: nat
    /** How many levels below the root the leaves are. */
    ghost var height: nat

    /** The tree at `root` is proper, well formed for `order` and in
        search-tree order, and its leaves are chained left to right, the
        last one ending the chain. */
    ghost predicate Valid()
      reads this
    {
      order >= 2 && IsTree(nodes, root, height) &&
      WellFormed(Abs(nodes, root, height), order, height) &&
      Ordered(Abs(nodes, root, height), None, None) &&
      Linked(nodes, Leaves(nodes, root, height), None)
    }

    /** The tree as a value. */
    ghost function Tree(): Node<V>
      reads this
    {
      Abs(nodes, root, height)
    }

    /** `new BPlusTree(order)`: an empty leaf as the root. */
    constructor (order: nat)
      requires order >= 2
      ensures Valid() && this.order == order
      ensures Tree() == Leaf([], []) && height == 0
    {
      this.order := order;
      nodes := [LeafRec([], [], None)];
      root := 0;
      height := 0;
    }

    // -------------------------------------------------------------------------
    // LeafNode

    /** LeafNode.split: the leaf at `h` keeps its first `ceil(order / 2)`
        entries and points to a new leaf, appended to the arena, that takes
        the rest and the old `next`; the new leaf's first key goes up. */
    method SplitLeafNode(h: nat) returns (k: int, n: nat)
      requires order >= 2 && h < |nodes| && nodes[h].LeafRec?
      requires |nodes[h].keys| >= order && |nodes[h].values| == |nodes[h].keys|
      modifies this
      ensures var H := SplitLeaf(old(nodes)[h].keys, old(nodes)[h].values, order);
        n == |old(nodes)| && k == H.promoted &&
        nodes == old(nodes)[h := LeafRec(H.leftKeys, H.left, Some(n))] +
                 [LeafRec(H.rightKeys, H.right, old(nodes)[h].next)]
      ensures root == old(root) && height == old(height)
    {
      var ks, vs, next := nodes[h].keys, nodes[h].values, nodes[h].next;
      var mid := (order + 1) / 2;
      n := |nodes|;
      nodes := nodes[h := LeafRec(ks[..mid], vs[..mid], Some(n))] + [LeafRec(ks[mid..], vs[mid..], next)];
      k := ks[mid];
    }

    /** LeafNode.insert on the leaf at `h`, whose chain continues at `tail`. */
    method LeafNodeInsert(h: nat, key: int, value: V, ghost tail: Option<nat>) returns (res: Option<(int, nat)>)
      requires order >= 2 && IsTree(nodes, h, 0) && Linked(nodes, Leaves(nodes, h, 0), tail)
      modifies this
      ensures Inserted(old(nodes), nodes, h, 0, tail,
                       LeafInsert(old(nodes)[h].keys, old(nodes)[h].values, key, value, order), res)
      ensures root == old(root) && height == old(height)
    {
      ghost var N := nodes;
      var ks, vs, next := nodes[h].keys, nodes[h].values, nodes[h].next;
      var i := FindIndex(ks, key);
      if i < |ks| && ks[i] == key {
        nodes := nodes[h := LeafRec(ks, vs[i := value], next)];
        LeafUpdated(N, h, tail, key, value, order);
        return None;
      }
      ks := InsertAt(ks, i, key);
      vs := InsertAt(vs, i, value);
      nodes := nodes[h := LeafRec(ks, vs, next)];
      if |ks| >= order {
        var k, n := SplitLeafNode(h);
        var H := SplitLeaf(ks, vs, order);
        UpdateTwice(N, h, LeafRec(ks, vs, next), LeafRec(H.leftKeys, H.left, Some(n)));
        LeafSplitCase(N, h, tail, key, value, order);
        res := Some((k, n));
      } else {
        LeafUpdated(N, h, tail, key, value, order);
        res := None;
      }
    }

    // -------------------------------------------------------------------------
    // InternalNode

    /** InternalNode.split: with `mid = floor(order / 2)` the node at `h`
        keeps `keys[..mid]` and `children[..mid + 1]`, a new node appended
        to the arena takes `keys[mid + 1..]` and `children[mid + 1..]`, and
        `keys[mid]` goes up. */
    method SplitInternalNode(h: nat) returns (k: int, n: nat)
      requires order >= 2 && h < |nodes| && nodes[h].InternalRec?
      requires |nodes[h].keys| >= order && |nodes[h].children| == |nodes[h].keys| + 1
      modifies this
      ensures var ks, cs := old(nodes)[h].keys, old(nodes)[h].children;
        n == |old(nodes)| && k == SplitInternal(ks, cs, order).promoted &&
        nodes == old(nodes)[h := LeftRec(ks, cs, order)] + [RightRec(ks, cs, order)]
      ensures root == old(root) && height == old(height)
    {
      var ks, cs := nodes[h].keys, nodes[h].children;
      var mid := order / 2;
      n := |nodes|;
      k := ks[mid];
      nodes := nodes[h := InternalRec(ks[..mid], cs[..mid + 1])] + [InternalRec(ks[mid + 1..], cs[mid + 1..])];
    }

    /** InternalNode.insert on the node at `h`, whose leaves are `d` levels
        down and whose chain continues at `tail`. */
    method InternalNodeInsert(h: nat, key: int, value: V, ghost d: nat, ghost tail: Option<nat>)
      returns (res: Option<(int, nat)>)
      requires order >= 2 && IsTree(nodes, h, d) && nodes[h].InternalRec?
      requires Linked(nodes, Leaves(nodes, h, d), tail)
      modifies this
      ensures Shaped(Abs(old(nodes), h, d))
      ensures Inserted(old(nodes), nodes, h, d, tail, InsertNode(Abs(old(nodes), h, d), key, value, order), res)
      ensures root == old(root) && height == old(height)
      decreases d, 0
    {
      ghost var N := nodes;
      var ks, cs := nodes[h].keys, nodes[h].children;
      var i := FindIndex(ks, key);
      ChildReady(N, h, d, tail, i);
      var r := NodeInsert(cs[i], key, value, d - 1, ChildTail(N, cs, i, d - 1, tail));
      assert ChildInserted(N, nodes, h, d, tail, key, value, order, r);
      if r.None? {
        UnchangedDone(N, nodes, h, d, tail, key, value, order);
        return None;
      }
      res := InternalNodeAbsorb(h, i, r.value.0, r.value.1, N, d, tail, key, value);
    }

    /** The rest of InternalNode.insert once the child at `i` has split into
        itself and the node `n` with first key `k`: the key and the new
        child go in at `i` and `i + 1`, and a node that reaches `order`
        keys splits. */
    method InternalNodeAbsorb(h: nat, i: nat, k: int, n: nat, ghost N: seq<NodeRec<V>>, ghost d: nat,
                              ghost tail: Option<nat>, ghost key: int, ghost value: V)
      returns (res: Option<(int, nat)>)
      requires Linked(N, Leaves(N, h, d), tail) && ChildInserted(N, nodes, h, d, tail, key, value, order, Some((k, n)))
      requires i == Route(N[h].keys, key)
      modifies this
      ensures Shaped(Abs(N, h, d))
      ensures Inserted(N, nodes, h, d, tail, InsertNode(Abs(N, h, d), key, value, order), res)
      ensures root == old(root) && height == old(height)
    {
      ghost var N1 := nodes;
      ParentKept(N, N1, h, d, i);
      var ks, cs := nodes[h].keys, nodes[h].children;
      ks, cs := InsertAt(ks, i, k), InsertAt(cs, i + 1, n);
      nodes := nodes[h := InternalRec(ks, cs)];
      if |ks| >= order {
        res := SplitGrown(h, k, n, ks, cs, N, N1, d, tail, key, value);
      } else {
        GrewDone(N, N1, h, d, tail, key, value, order, k, n, ks, cs, nodes);
        res := None;
      }
    }

    /** The node at `h`, grown to `ks'`/`cs'` by the child's split, holds
        `order` keys and splits in turn. */
    method SplitGrown(h: nat, k: int, n: nat, ks': seq<int>, cs': seq<nat>, ghost N: seq<NodeRec<V>>,
                      ghost N1: seq<NodeRec<V>>, ghost d: nat, ghost tail: Option<nat>, ghost key: int, ghost value: V)
      returns (res: Option<(int, nat)>)
      requires Linked(N, Leaves(N, h, d), tail) && ChildInserted(N, N1, h, d, tail, key, value, order, Some((k, n)))
      requires |N[h].keys| + 1 >= order
      requires ks' == InsertAt(N[h].keys, Route(N[h].keys, key), k)
      requires cs' == InsertAt(N[h].children, Route(N[h].keys, key) + 1, n)
      requires nodes == N1[h := InternalRec(ks', cs')]
      modifies this
      ensures Shaped(Abs(N, h, d))
      ensures Inserted(N, nodes, h, d, tail, InsertNode(Abs(N, h, d), key, value, order), res)
      ensures root == old(root) && height == old(height)
    {
      var k', n' := SplitInternalNode(h);
      res := Some((k', n'));
      SplitDone(N, N1, h, d, tail, key, value, order, k, n, ks', cs', nodes, res);
    }

    /** `node.insert(key, value, order)` on whichever kind of node is at `h`. */
    method NodeInsert(h: nat, key: int, value: V, ghost d: nat, ghost tail: Option<nat>)
      returns (res: Option<(int, nat)>)
      requires order >= 2 && IsTree(nodes, h, d) && Linked(nodes, Leaves(nodes, h, d), tail)
      modifies this
      ensures Shaped(Abs(old(nodes), h, d))
      ensures Inserted(old(nodes), nodes, h, d, tail, InsertNode(Abs(old(nodes), h, d), key, value, order), res)
      ensures root == old(root) && height == old(height)
      decreases d, 1
    {
      if nodes[h].LeafRec? {
        res := LeafNodeInsert(h, key, value, tail);
      } else {
        res := InternalNodeInsert(h, key, value, d, tail);
      }
    }

    // -------------------------------------------------------------------------
    // BPlusTree

    /** BPlusTree.insertWithoutSave: insert at the root, and when the root
        splits put a new root with keys `[promoted]` over the old root and
        the new node. */
    method InsertWithoutSave(key: int, value: V)
      requires Valid()
      modifies this
      ensures Valid()
      ensures Shaped(old(Tree())) && Tree() == InsertTree(old(Tree()), key, value, order)
      ensures height == if RootSplits(old(Tree()), key, value, order) then old(height) + 1 else old(height)
    {
      ghost var N, h := nodes, root;
      NodeLemmas.WellFormedShaped(Tree(), order, height);
      OrderLemmas.InsertTreeOrdered(Tree(), key, value, order, height);
      var res := NodeInsert(root, key, value, height, None);
      ghost var M := nodes;
      if res.Some? {
        nodes := nodes + [InternalRec([res.value.0], [root, res.value.1])];
        root := |nodes| - 1;
        height := height + 1;
      }
      RootDone(N, M, h, old(height), key, value, order, res, nodes, root, height);
    }

    /** BPlusTree.insert: insertWithoutSave followed by the save to storage,
        which is not part of this model. */
    method Insert(key: int, value: V)
      requires Valid()
      modifies this
      ensures Valid()
      ensures Shaped(old(Tree())) && Tree() == InsertTree(old(Tree()), key, value, order)
      ensures height == if RootSplits(old(Tree()), key, value, order) then old(height) + 1 else old(height)
    {
      InsertWithoutSave(key, value);
    }

    /** LeafNode.search and InternalNode.search from the node at `h`. */
    method SearchNode(h: nat, key: int, ghost d: nat) returns (r: Option<V>)
      requires IsTree(nodes, h, d)
      ensures Shaped(Abs(nodes, h, d))
      ensures r == Find(Abs(nodes, h, d), key)
      decreases d
    {
      AbsShaped(nodes, h, d);
      match nodes[h]
      case LeafRec(ks, vs, _) =>
        var index := IndexOf(ks, key);
        r := if index != -1 then Some(vs[index]) else None;
      case InternalRec(ks, cs) =>
        var i := FindIndex(ks, key);
        ForestAt(nodes, cs, d - 1, i);
        r := SearchNode(cs[i], key, d - 1);
    }

    /** BPlusTree.search. */
    method Search(key: int) returns (r: Option<V>)
      requires Valid()
      ensures Shaped(Tree()) && r == Find(Tree(), key)
    {
      r := SearchNode(root, key, height);
    }

    /** BPlusTree.findFirstLeaf: follow `children[0]` down to a leaf. */
    method FindFirstLeaf() returns (h: nat)
      requires Valid()
      ensures |Leaves(nodes, root, height)| > 0 && h == Leaves(nodes, root, height)[0]
      ensures h < |nodes| && nodes[h].LeafRec?
    {
      h := root;
      ghost var d := height;
      LeavesInTree(nodes, root, height);
      while nodes[h].InternalRec?
        invariant IsTree(nodes, h, d) && |Leaves(nodes, h, d)| > 0
        invariant Leaves(nodes, h, d)[0] == Leaves(nodes, root, height)[0]
        decreases d
      {
        FirstChildFirstLeaf(nodes, h, d);
        h, d := nodes[h].children[0], d - 1;
      }
    }

    /** BPlusTree.getAll: from the first leaf, follow `next` and emit each
        leaf's records in index order. */
    method GetAll() returns (result: seq<Entry<V>>)
      requires Valid()
      ensures Shaped(Tree()) && result == Entries(Tree())
      ensures NonDecreasing(KeysOf(result))
    {
      OrderLemmas.ScanSorted(Tree(), order, height, None, None);
      ghost var ls := Leaves(nodes, root, height);
      LeavesInTree(nodes, root, height);
      ScanTree(nodes, root, height);
      var first := FindFirstLeaf();
      var current: Option<nat> := Some(first);
      ghost var j := 0;
      result := [];
      while current.Some?
        invariant j <= |ls| && current == Head(ls[j..], None)
        invariant result == LeafEntries(nodes, ls[..j])
        decreases |ls| - j
      {
        ScanStep(nodes, ls, j);
        var leaf := nodes[current.value];
        result := PushRecords(result, leaf.keys, leaf.values);
        current := leaf.next;
        j := j + 1;
      }
      assert ls[..j] == ls;
    }

    /** BPlusTree.getTreeStructure: the description of the whole tree,
        from level 0.  It reads back as the tree, has every leaf `height`
        levels down, and every leaf but the last one reports a next leaf. */
    function GetTreeStructure(): (r: NodeData<V>)
      reads this
      requires Valid()
      ensures Restore(r) == Tree() && Laid(r, 0, height)
      ensures |NextFlags(r)| == |Leaves(nodes, root, height)| > 0
      ensures forall j :: 0 <= j < |NextFlags(r)| ==> NextFlags(r)[j] == (j + 1 < |NextFlags(r)|)
    {
      SerializeRestores(nodes, root, 0, height);
      SerializeFlags(nodes, root, 0, height);
      LinkedFlags(nodes, Leaves(nodes, root, height), None);
      LeavesInTree(nodes, root, height);
      SerializeNode(nodes, root, 0, height)
    }

    /** BPlusTree.clear, without the removal from storage: an empty leaf as
        the root. */
    method Clear()
      requires Valid()
      modifies this
      ensures Valid() && Tree() == Leaf([], []) && height == 0
    {
      nodes := [LeafRec([], [], None)];
      root := 0;
      height := 0;
    }

    /** The rebuild in loadFromStorage: an empty leaf as the root, then every
        stored record inserted in order with insertWithoutSave. */
    method Rebuild(data: seq<Entry<V>>)
      requires Valid()
      modifies this
      ensures Valid() && Tree() == InsertAll(Leaf([], []), data, order)
    {
      Clear();
      var i := 0;
      while i < |data|
        invariant i <= |data| && Valid() && Shaped(Tree())
        invariant InsertAll(Leaf([], []), data, order) == InsertAll(Tree(), data[i..], order)
      {
        assert data[i..][1..] == data[i + 1..];
        InsertWithoutSave(data[i].key, data[i].value);
        NodeLemmas.WellFormedShaped(Tree(), order, height);
        i := i + 1;
      }
    }
  }

  /** The inner loop of getAll: push `{ key: keys[i], value: values[i] }`
      onto `acc` for each index `i` in turn. */
  method PushRecords<V>(acc: seq<Entry<V>>, keys: seq<int>, values: seq<V>) returns (r: seq<Entry<V>>)
    requires |values| == |keys|
    ensures r == acc + Pairs(keys, values)
  {
    r := acc;
    var i := 0;
    while i < |keys|
      invariant i <= |keys|
      invariant r == acc + Pairs(keys, values)[..i]
    {
      assert Pairs(keys, values)[..i + 1] == Pairs(keys, values)[..i] + [Entry(keys[i], values[i])];
      r := r + [Entry(keys[i], values[i])];
      i := i + 1;
    }
    assert Pairs(keys, values)[..i] == Pairs(keys, values);
  }

  /** The first leaf of an internal node is the first leaf of its first child. */
  lemma FirstChildFirstLeaf<V>(nodes: seq<NodeRec<V>>, h: nat, d: nat)
    requires IsTree(nodes, h, d) && nodes[h].InternalRec?
    ensures IsTree(nodes, nodes[h].children[0], d - 1)
    ensures |Leaves(nodes, h, d)| > 0 && |Leaves(nodes, nodes[h].children[0], d - 1)| > 0
    ensures Leaves(nodes, nodes[h].children[0], d - 1)[0] == Leaves(nodes, h, d)[0]
  {
    var cs := nodes[h].children;
    ForestAt(nodes, cs, d - 1, 0);
    LeavesInTree(nodes, cs[0], d - 1);
    assert cs == [cs[0]] + cs[1..];
    LeavesOfAppend(nodes, [cs[0]], cs[1..], d - 1);
    LeavesOfSingle(nodes, cs[0], d - 1);
  }

}
