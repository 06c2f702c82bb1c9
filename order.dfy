/** The search-tree order insertion keeps, and what it says about a scan.
    Because routing sends a key equal to a separator to the left child while a
    leaf split promotes the right leaf's first key, a separator may equal
    keys on both sides of it: the bounds are inclusive at both ends, and the
    scan is ascending only with repetitions allowed. */
module OrderLemmas {

  import opened Wrappers
  import opened Seqs
  import opened Routing
  import opened NodeModel
  import NodeLemmas
  import ContentLemmas

  /** The answer of a node insertion keeps the order of the range
      `[lo, hi]`: the node itself when it did not split; otherwise the
      promoted key lies in the range, with the node kept below it and the
      new node above it. */
  ghost predicate SplitOrdered<V>(r: (Node<V>, Option<Split<Node<V>>>), lo: Option<int>, hi: Option<int>)
  {
    match r.1
    case None => Ordered(r.0, lo, hi)
    case Some(s) => InRange(s.key, lo, hi) && Ordered(r.0, lo, Some(s.key)) && Ordered(s.newNode, Some(s.key), hi)
  }

  // ---------------------------------------------------------------------------
  // LeafNode.insert and LeafNode.split

  lemma LeafInsertOrdered<V>(ks: seq<int>, vs: seq<V>, key: int, value: V, order: nat,
                             lo: Option<int>, hi: Option<int>)
    requires order >= 2 && |vs| == |ks| && StrictlyIncreasing(ks)
    requires forall j :: 0 <= j < |ks| ==> InRange(ks[j], lo, hi)
    requires InRange(key, lo, hi)
    ensures SplitOrdered(LeafInsert(ks, vs, key, value, order), lo, hi)
  {
    var i := Route(ks, key);
    if !(i < |ks| && ks[i] == key) {
      var ks' := InsertAt(ks, i, key);
      NodeLemmas.InsertAtIncreasing(ks, i, key);
      InsertAtInRange(ks, i, key, lo, hi);
      if |ks'| >= order {
        LeafSplitOrdered(ks', InsertAt(vs, i, value), order, lo, hi);
      }
    }
  }

  /** A key in range spliced into keys in range leaves them all in range. */
  lemma InsertAtInRange(ks: seq<int>, i: nat, key: int, lo: Option<int>, hi: Option<int>)
    requires i <= |ks| && InRange(key, lo, hi)
    requires forall j :: 0 <= j < |ks| ==> InRange(ks[j], lo, hi)
    ensures forall j :: 0 <= j < |ks| + 1 ==> InRange(InsertAt(ks, i, key)[j], lo, hi)
  {
    var ks' := InsertAt(ks, i, key);
    forall j | 0 <= j < |ks'| ensures InRange(ks'[j], lo, hi) {
      if j > i {
        assert ks'[j] == ks[j - 1];
      }
    }
  }

  /** LeafNode.split of ascending keys in range: the promoted key is in
      range, the left half lies below it and the right half from it on. */
  lemma LeafSplitOrdered<V>(ks: seq<int>, vs: seq<V>, order: nat, lo: Option<int>, hi: Option<int>)
    requires order >= 2 && |ks| >= order && |vs| == |ks| && StrictlyIncreasing(ks)
    requires forall j :: 0 <= j < |ks| ==> InRange(ks[j], lo, hi)
    ensures var h := SplitLeaf(ks, vs, order);
      InRange(h.promoted, lo, hi) &&
      Ordered(Leaf(h.leftKeys, h.left), lo, Some(h.promoted)) &&
      Ordered(Leaf(h.rightKeys, h.right), Some(h.promoted), hi)
  {
    var h := SplitLeaf(ks, vs, order);
    NodeLemmas.IncreasingHalves(h.leftKeys, h.rightKeys);
    forall j | 0 <= j < |h.leftKeys| ensures InRange(h.leftKeys[j], lo, Some(h.promoted)) {
      assert h.leftKeys[j] == ks[j];
    }
    forall j | 0 <= j < |h.rightKeys| ensures InRange(h.rightKeys[j], Some(h.promoted), hi) {
      assert h.rightKeys[j] == ks[|h.leftKeys| + j];
      assert h.rightKeys[0] <= h.rightKeys[j] by {
        if j > 0 {
          assert ks[|h.leftKeys|] < ks[|h.leftKeys| + j];
        }
      }
    }
  }

  // ---------------------------------------------------------------------------
  // InternalNode.split

  lemma SplitInternalOrdered<C>(ks: seq<int>, cs: seq<Node<C>>, order: nat, lo: Option<int>, hi: Option<int>)
    requires order >= 2 && |ks| >= order && |cs| == |ks| + 1
    requires Ordered(Internal(ks, cs), lo, hi)
    ensures var h := SplitInternal(ks, cs, order);
      InRange(h.promoted, lo, hi) &&
      Ordered(Internal(h.leftKeys, h.left), lo, Some(h.promoted)) &&
      Ordered(Internal(h.rightKeys, h.right), Some(h.promoted), hi)
  {
    var m := InternalMid(order);
    SplitLeftOrdered(ks, cs, m, lo, hi);
    SplitRightOrdered(ks, cs, m, lo, hi);
  }

  /** The left half `keys[..m]`, `children[..m + 1]` is ordered below `keys[m]`. */
  lemma SplitLeftOrdered<C>(ks: seq<int>, cs: seq<Node<C>>, m: nat, lo: Option<int>, hi: Option<int>)
    requires m < |ks| && |cs| == |ks| + 1 && Ordered(Internal(ks, cs), lo, hi)
    ensures Ordered(Internal(ks[..m], cs[..m + 1]), lo, Some(ks[m]))
  {
    var lk, p := ks[..m], ks[m];
    forall j | 0 <= j < |lk| ensures InRange(lk[j], lo, Some(p)) {
      assert lk[j] == ks[j] && ks[j] <= ks[m];
    }
    forall j | 0 <= j < m + 1
      ensures Ordered(cs[..m + 1][j], LowerBound(lk, lo, j), UpperBound(lk, Some(p), j))
    {
      assert cs[..m + 1][j] == cs[j];
      assert LowerBound(lk, lo, j) == LowerBound(ks, lo, j);
      assert UpperBound(lk, Some(p), j) == UpperBound(ks, hi, j);
    }
  }

  /** The right half `keys[m + 1..]`, `children[m + 1..]` is ordered above `keys[m]`. */
  lemma SplitRightOrdered<C>(ks: seq<int>, cs: seq<Node<C>>, m: nat, lo: Option<int>, hi: Option<int>)
    requires m < |ks| && |cs| == |ks| + 1 && Ordered(Internal(ks, cs), lo, hi)
    ensures InRange(ks[m], lo, hi)
    ensures Ordered(Internal(ks[m + 1..], cs[m + 1..]), Some(ks[m]), hi)
  {
    var rk, p := ks[m + 1..], ks[m];
    forall j | 0 <= j < |rk| ensures InRange(rk[j], Some(p), hi) {
      assert rk[j] == ks[m + 1 + j] && ks[m] <= ks[m + 1 + j];
    }
    forall j | 0 <= j < |cs| - (m + 1)
      ensures Ordered(cs[m + 1..][j], LowerBound(rk, Some(p), j), UpperBound(rk, hi, j))
    {
      assert cs[m + 1..][j] == cs[m + 1 + j];
      assert LowerBound(rk, Some(p), j) == LowerBound(ks, lo, m + 1 + j);
      assert UpperBound(rk, hi, j) == UpperBound(ks, hi, m + 1 + j);
    }
  }

  // ---------------------------------------------------------------------------
  // InternalNode.insert

  /** The promoted key of a child's split lies between the separators around
      that child, so it fits the whole node's range. */
  lemma BoundsNarrow(ks: seq<int>, lo: Option<int>, hi: Option<int>, i: nat, k: int)
    requires i <= |ks| && (forall j :: 0 <= j < |ks| ==> InRange(ks[j], lo, hi))
    requires InRange(k, LowerBound(ks, lo, i), UpperBound(ks, hi, i))
    ensures InRange(k, lo, hi)
  {
    if i > 0 {
      assert InRange(ks[i - 1], lo, hi);
    }
    if i < |ks| {
      assert InRange(ks[i], lo, hi);
    }
  }

  /** The promoted key `k` spliced into the separators at `i` keeps them
      ascending and in range. */
  lemma GraftKeys(ks: seq<int>, i: nat, k: int, lo: Option<int>, hi: Option<int>)
    requires i <= |ks| && NonDecreasing(ks) && (forall j :: 0 <= j < |ks| ==> InRange(ks[j], lo, hi))
    requires InRange(k, LowerBound(ks, lo, i), UpperBound(ks, hi, i))
    ensures NonDecreasing(InsertAt(ks, i, k))
    ensures forall j :: 0 <= j < |ks| + 1 ==> InRange(InsertAt(ks, i, k)[j], lo, hi)
  {
    var ks' := InsertAt(ks, i, k);
    BoundsNarrow(ks, lo, hi, i, k);
    forall a, b | 0 <= a < b < |ks'| ensures ks'[a] <= ks'[b] {
      if b < i {
      } else if a > i {
        assert ks'[a] == ks[a - 1] && ks'[b] == ks[b - 1];
      } else if a == i {
        assert ks'[b] == ks[b - 1] && k <= ks[i];
      } else if b == i {
        assert ks[a] <= ks[i - 1];
      } else {
        assert ks'[b] == ks[b - 1];
      }
    }
    forall j | 0 <= j < |ks'| ensures InRange(ks'[j], lo, hi) {
      if j > i {
        assert ks'[j] == ks[j - 1];
      }
    }
  }

  /** Child `j` of the grafted node sits between the separators around it. */
  lemma GraftChild<V>(ks: seq<int>, cs: seq<Node<V>>, i: nat, c: Node<V>, k: int, n: Node<V>,
                      lo: Option<int>, hi: Option<int>, j: nat)
    requires |cs| == |ks| + 1 && i < |cs| && j < |cs| + 1 && Ordered(Internal(ks, cs), lo, hi)
    requires Ordered(c, LowerBound(ks, lo, i), Some(k)) && Ordered(n, Some(k), UpperBound(ks, hi, i))
    ensures var ks' := InsertAt(ks, i, k);
      Ordered(InsertAt(cs[i := c], i + 1, n)[j], LowerBound(ks', lo, j), UpperBound(ks', hi, j))
  {
    var ks', cs' := InsertAt(ks, i, k), InsertAt(cs[i := c], i + 1, n);
    if j < i {
      assert cs'[j] == cs[j];
      assert LowerBound(ks', lo, j) == LowerBound(ks, lo, j);
    } else if j == i {
      assert cs'[j] == c;
    } else if j == i + 1 {
      assert cs'[j] == n;
      assert UpperBound(ks', hi, j) == UpperBound(ks, hi, i);
    } else {
      assert cs'[j] == cs[j - 1];
      assert LowerBound(ks', lo, j) == LowerBound(ks, lo, j - 1);
      assert UpperBound(ks', hi, j) == UpperBound(ks, hi, j - 1);
    }
  }

  /** The child at `i` replaced by `c`, the promoted key `k` spliced in at
      `i` and the new node `n` at `i + 1`: the node stays ordered. */
  lemma GraftOrdered<V>(ks: seq<int>, cs: seq<Node<V>>, i: nat, c: Node<V>, k: int, n: Node<V>,
                        lo: Option<int>, hi: Option<int>)
    requires |cs| == |ks| + 1 && i < |cs| && Ordered(Internal(ks, cs), lo, hi)
    requires InRange(k, LowerBound(ks, lo, i), UpperBound(ks, hi, i))
    requires Ordered(c, LowerBound(ks, lo, i), Some(k)) && Ordered(n, Some(k), UpperBound(ks, hi, i))
    ensures Ordered(Internal(InsertAt(ks, i, k), InsertAt(cs[i := c], i + 1, n)), lo, hi)
  {
    var ks', cs' := InsertAt(ks, i, k), InsertAt(cs[i := c], i + 1, n);
    GraftKeys(ks, i, k, lo, hi);
    forall j | 0 <= j < |cs'|
      ensures Ordered(cs'[j], LowerBound(ks', lo, j), UpperBound(ks', hi, j))
    {
      GraftChild(ks, cs, i, c, k, n, lo, hi, j);
    }
  }

  lemma AbsorbOrdered<V>(ks: seq<int>, cs: seq<Node<V>>, i: nat, rc: (Node<V>, Option<Split<Node<V>>>),
                         order: nat, lo: Option<int>, hi: Option<int>)
    requires order >= 2 && |cs| == |ks| + 1 && i < |cs| && Ordered(Internal(ks, cs), lo, hi)
    requires SplitOrdered(rc, LowerBound(ks, lo, i), UpperBound(ks, hi, i))
    ensures SplitOrdered(Absorb(ks, cs[i := rc.0], i, rc.1, order), lo, hi)
  {
    match rc.1
    case None =>
      var cs' := cs[i := rc.0];
      forall j | 0 <= j < |cs'| ensures Ordered(cs'[j], LowerBound(ks, lo, j), UpperBound(ks, hi, j)) {
        if j != i {
          assert cs'[j] == cs[j];
        }
      }
    case Some(s) =>
      var ks', cs' := InsertAt(ks, i, s.key), InsertAt(cs[i := rc.0], i + 1, s.newNode);
      GraftOrdered(ks, cs, i, rc.0, s.key, s.newNode, lo, hi);
      if |ks'| >= order {
        SplitInternalOrdered(ks', cs', order, lo, hi);
      }
  }

  /** Insertion of a key of the range `[lo, hi]` into a well-formed subtree
      ordered in that range keeps the order. */
  lemma {:induction false} InsertNodeOrdered<V>(n: Node<V>, key: int, value: V, order: nat, d: nat,
                                                lo: Option<int>, hi: Option<int>)
    requires order >= 2 && WellFormed(n, order, d) && Ordered(n, lo, hi) && InRange(key, lo, hi)
    ensures Shaped(n) && SplitOrdered(InsertNode(n, key, value, order), lo, hi)
    decreases n
  {
    NodeLemmas.WellFormedShaped(n, order, d);
    match n
    case Leaf(ks, vs) =>
      LeafInsertOrdered(ks, vs, key, value, order, lo, hi);
    case Internal(ks, cs) =>
      var i := Route(ks, key);
      var lo', hi' := LowerBound(ks, lo, i), UpperBound(ks, hi, i);
      assert InRange(key, lo', hi') by {
        if i > 0 {
          assert ks[i - 1] < key;
        }
      }
      InsertNodeOrdered(cs[i], key, value, order, d - 1, lo', hi');
      AbsorbOrdered(ks, cs, i, InsertNode(cs[i], key, value, order), order, lo, hi);
  }

  /** BPlusTree.insert keeps a well-formed tree ordered, a new root included. */
  lemma InsertTreeOrdered<V>(t: Node<V>, key: int, value: V, order: nat, d: nat)
    requires order >= 2 && WellFormed(t, order, d) && Ordered(t, None, None)
    ensures Shaped(t) && Ordered(InsertTree(t, key, value, order), None, None)
  {
    InsertNodeOrdered(t, key, value, order, d, None, None);
    var r := InsertNode(t, key, value, order);
    if r.1.Some? {
      var p, cs := r.1.value.key, [r.0, r.1.value.newNode];
      assert Ordered(cs[0], LowerBound([p], None, 0), UpperBound([p], None, 0));
      assert Ordered(cs[1], LowerBound([p], None, 1), UpperBound([p], None, 1));
    }
  }

  // ---------------------------------------------------------------------------
  // The scan

  /** Appending a run that starts at or above where another ends keeps the
      keys ascending. */
  lemma SortedConcat(a: seq<int>, b: seq<int>, m: int)
    requires NonDecreasing(a) && NonDecreasing(b)
    requires forall j :: 0 <= j < |a| ==> a[j] <= m
    requires forall j :: 0 <= j < |b| ==> m <= b[j]
    ensures NonDecreasing(a + b)
  {
    var c := a + b;
    forall x, y | 0 <= x < y < |c| ensures c[x] <= c[y] {
      if y < |a| {
        assert c[x] == a[x] && c[y] == a[y];
      } else if x >= |a| {
        assert c[x] == b[x - |a|] && c[y] == b[y - |a|];
      } else {
        assert c[x] == a[x] && c[y] == b[y - |a|];
      }
    }
  }

  lemma KeysOfAppend<V>(a: seq<Entry<V>>, b: seq<Entry<V>>)
    ensures KeysOf(a + b) == KeysOf(a) + KeysOf(b)
  {
  }

  /** The keys of a well-formed subtree ordered in `[lo, hi]`, in scan order,
      ascend (repetitions allowed) and lie in the range. */
  lemma {:induction false} ScanSorted<V>(n: Node<V>, order: nat, d: nat, lo: Option<int>, hi: Option<int>)
    requires WellFormed(n, order, d) && Ordered(n, lo, hi)
    ensures Shaped(n)
    ensures NonDecreasing(KeysOf(Entries(n)))
    ensures forall j :: 0 <= j < |Entries(n)| ==> InRange(Entries(n)[j].key, lo, hi)
    decreases d, 1, 0
  {
    NodeLemmas.WellFormedShaped(n, order, d);
    match n
    case Leaf(ks, vs) =>
      assert KeysOf(Entries(n)) == ks;
    case Internal(ks, cs) =>
      ContentLemmas.EntriesInternal(ks, cs);
      SuffixSorted(ks, cs, order, d, lo, hi, 0);
      assert cs[0..] == cs;
  }

  /** The same for the children `cs[j..]` of an internal node, whose keys
      then start at the separator left of child `j`. */
  lemma {:induction false} SuffixSorted<V>(ks: seq<int>, cs: seq<Node<V>>, order: nat, d: nat,
                                           lo: Option<int>, hi: Option<int>, j: nat)
    requires WellFormed(Internal(ks, cs), order, d) && Ordered(Internal(ks, cs), lo, hi) && j <= |cs|
    ensures AllShaped(cs[j..])
    ensures NonDecreasing(KeysOf(EntriesOf(cs[j..])))
    ensures forall x :: 0 <= x < |EntriesOf(cs[j..])| ==>
      InRange(EntriesOf(cs[j..])[x].key, if j < |cs| then LowerBound(ks, lo, j) else lo, hi)
    decreases d, 0, |cs| - j
  {
    NodeLemmas.WellFormedShaped(Internal(ks, cs), order, d);
    if j == |cs| {
      assert cs[j..] == [];
      assert Parts(cs[j..]) == [];
    } else {
      var c, rest := cs[j], cs[j + 1..];
      assert cs[j..] == [c] + rest;
      ScanSorted(c, order, d - 1, LowerBound(ks, lo, j), UpperBound(ks, hi, j));
      SuffixSorted(ks, cs, order, d, lo, hi, j + 1);
      ContentLemmas.EntriesOfSingle(c);
      ContentLemmas.EntriesOfAppend([c], rest);
      var a, b := Entries(c), EntriesOf(rest);
      KeysOfAppend(a, b);
      if j + 1 < |cs| {
        var m := ks[j];
        assert UpperBound(ks, hi, j) == Some(m) && LowerBound(ks, lo, j + 1) == Some(m);
        SortedConcat(KeysOf(a), KeysOf(b), m);
        forall x | 0 <= x < |b| ensures InRange(b[x].key, LowerBound(ks, lo, j), hi) {
          if j > 0 {
            assert ks[j - 1] <= ks[j];
          }
        }
      } else {
        assert b == [] by {
          assert rest == [];
          assert Parts(rest) == [];
        }
        assert KeysOf(a) + KeysOf(b) == KeysOf(a);
      }
      assert EntriesOf(cs[j..]) == a + b;
    }
  }

}
