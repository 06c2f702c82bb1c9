/** How insertion changes the entries a full scan yields: an overwrite of the
    one routed-to entry, or exactly one new entry. */
module ContentLemmas {

  import opened Wrappers
  import opened Seqs
  import opened Routing
  import opened NodeModel
  import NodeLemmas

  /** `es'` is `es` with the value of one entry holding `key` replaced. */
  ghost predicate Overwrites<V>(es: seq<Entry<V>>, es': seq<Entry<V>>, key: int, value: V)
  {
    exists p :: 0 <= p < |es| && es[p].key == key && es' == es[p := Entry(key, value)]
  }

  /** `es'` is `es` with `Entry(key, value)` inserted at one position. */
  ghost predicate AddsOne<V>(es: seq<Entry<V>>, es': seq<Entry<V>>, key: int, value: V)
  {
    exists p :: 0 <= p <= |es| && es' == InsertAt(es, p, Entry(key, value))
  }

  /** The entries held by a node and, if it split, by its new sibling. */
  ghost function EntriesAfter<V>(r: (Node<V>, Option<Split<Node<V>>>)): seq<Entry<V>>
    requires Shaped(r.0) && (r.1.Some? ==> Shaped(r.1.value.newNode))
  {
    Entries(r.0) + (if r.1.Some? then Entries(r.1.value.newNode) else [])
  }

  // ---------------------------------------------------------------------------
  // Entries of sibling lists

  lemma EntriesInternal<V>(ks: seq<int>, cs: seq<Node<V>>)
    requires Shaped(Internal(ks, cs))
    ensures AllShaped(cs)
    ensures Entries(Internal(ks, cs)) == EntriesOf(cs)
  {
    assert seq(|cs|, j requires 0 <= j < |cs| => Entries(cs[j])) == Parts(cs);
  }

  lemma EntriesOfAppend<V>(a: seq<Node<V>>, b: seq<Node<V>>)
    requires AllShaped(a) && AllShaped(b)
    ensures AllShaped(a + b)
    ensures EntriesOf(a + b) == EntriesOf(a) + EntriesOf(b)
  {
    assert Parts(a + b) == Parts(a) + Parts(b);
    FlattenAppend(Parts(a), Parts(b));
  }

  lemma EntriesOfSingle<V>(c: Node<V>)
    requires Shaped(c)
    ensures AllShaped([c])
    ensures EntriesOf([c]) == Entries(c)
  {
    assert Parts([c]) == [Entries(c)];
    FlattenSingle(Entries(c));
  }

  lemma EntriesOfPair<V>(c: Node<V>, d: Node<V>)
    requires Shaped(c) && Shaped(d)
    ensures AllShaped([c, d])
    ensures EntriesOf([c, d]) == Entries(c) + Entries(d)
  {
    EntriesOfSingle(c);
    EntriesOfSingle(d);
    EntriesOfAppend([c], [d]);
    assert [c] + [d] == [c, d];
  }

  /** The entries of a sibling list, split around child `i`. */
  lemma EntriesOfAt<V>(cs: seq<Node<V>>, i: nat)
    requires AllShaped(cs) && i < |cs|
    ensures AllShaped(cs[..i]) && AllShaped(cs[i + 1..]) && Shaped(cs[i])
    ensures EntriesOf(cs) == EntriesOf(cs[..i]) + Entries(cs[i]) + EntriesOf(cs[i + 1..])
  {
    assert AllShaped(cs[..i]) && AllShaped(cs[i + 1..]);
    EntriesOfSingle(cs[i]);
    EntriesOfAppend(cs[..i], [cs[i]]);
    EntriesOfAppend(cs[..i] + [cs[i]], cs[i + 1..]);
    assert cs == cs[..i] + [cs[i]] + cs[i + 1..];
  }

  /** Splicing a new child in just after child `i`. */
  lemma EntriesOfGraft<V>(cs: seq<Node<V>>, i: nat, nn: Node<V>)
    requires AllShaped(cs) && i < |cs| && Shaped(nn)
    ensures AllShaped(InsertAt(cs, i + 1, nn))
    ensures EntriesOf(InsertAt(cs, i + 1, nn)) ==
            EntriesOf(cs[..i]) + Entries(cs[i]) + Entries(nn) + EntriesOf(cs[i + 1..])
  {
    EntriesOfAt(cs, i);
    EntriesOfPair(cs[i], nn);
    GraftSplice(cs, i, nn);
    EntriesOfThree(cs[..i], [cs[i], nn], cs[i + 1..]);
  }

  lemma GraftSplice<T>(cs: seq<T>, i: nat, x: T)
    requires i < |cs|
    ensures InsertAt(cs, i + 1, x) == cs[..i] + [cs[i], x] + cs[i + 1..]
  {
  }

  lemma EntriesOfThree<V>(a: seq<Node<V>>, b: seq<Node<V>>, c: seq<Node<V>>)
    requires AllShaped(a) && AllShaped(b) && AllShaped(c)
    ensures AllShaped(a + b + c)
    ensures EntriesOf(a + b + c) == EntriesOf(a) + EntriesOf(b) + EntriesOf(c)
  {
    EntriesOfAppend(a, b);
    EntriesOfAppend(a + b, c);
  }

  /** An internal split moves no entry: the two halves hold, in order, the
      entries of the node that split. */
  lemma SplitInternalEntries<V>(ks: seq<int>, cs: seq<Node<V>>, order: nat)
    requires order >= 2 && |ks| >= order && |cs| == |ks| + 1 && AllShaped(cs)
    ensures var h := SplitInternal(ks, cs, order);
      Shaped(Internal(h.leftKeys, h.left)) && Shaped(Internal(h.rightKeys, h.right)) &&
      Entries(Internal(h.leftKeys, h.left)) + Entries(Internal(h.rightKeys, h.right)) == EntriesOf(cs)
  {
    var h := SplitInternal(ks, cs, order);
    assert AllShaped(h.left) by {
      assert forall j :: 0 <= j < |h.left| ==> h.left[j] == cs[j];
    }
    assert AllShaped(h.right) by {
      assert forall j :: 0 <= j < |h.right| ==> h.right[j] == cs[|h.left| + j];
    }
    EntriesInternal(h.leftKeys, h.left);
    EntriesInternal(h.rightKeys, h.right);
    EntriesOfAppend(h.left, h.right);
  }

  // ---------------------------------------------------------------------------
  // Leaf entries

  lemma PairsUpdate<V>(ks: seq<int>, vs: seq<V>, i: nat, value: V)
    requires |vs| == |ks| && i < |ks|
    ensures Pairs(ks, vs[i := value]) == Pairs(ks, vs)[i := Entry(ks[i], value)]
  {
  }

  lemma PairsInsertAt<V>(ks: seq<int>, vs: seq<V>, i: nat, key: int, value: V)
    requires |vs| == |ks| && i <= |ks|
    ensures Pairs(InsertAt(ks, i, key), InsertAt(vs, i, value)) == InsertAt(Pairs(ks, vs), i, Entry(key, value))
  {
  }

  lemma PairsAppend<V>(k1: seq<int>, v1: seq<V>, k2: seq<int>, v2: seq<V>)
    requires |v1| == |k1| && |v2| == |k2|
    ensures Pairs(k1 + k2, v1 + v2) == Pairs(k1, v1) + Pairs(k2, v2)
  {
  }

  /** LeafNode.insert: on an exact match at the scan index only that value is
      replaced and nothing splits; otherwise the pair is spliced in at the scan
      index in both arrays, and a split leaves the same entries in two leaves. */
  lemma LeafInsertEntries<V>(ks: seq<int>, vs: seq<V>, key: int, value: V, order: nat)
    requires order >= 2 && |vs| == |ks|
    ensures var r := LeafInsert(ks, vs, key, value, order);
      var i := Route(ks, key);
      if i < |ks| && ks[i] == key then
        r.1.None? && r.0.keys == ks && EntriesAfter(r) == Pairs(ks, vs)[i := Entry(key, value)]
      else
        EntriesAfter(r) == InsertAt(Pairs(ks, vs), i, Entry(key, value))
  {
    var i := Route(ks, key);
    if i < |ks| && ks[i] == key {
      PairsUpdate(ks, vs, i, value);
    } else {
      var ks', vs' := InsertAt(ks, i, key), InsertAt(vs, i, value);
      PairsInsertAt(ks, vs, i, key, value);
      if |ks'| >= order {
        var h := SplitLeaf(ks', vs', order);
        PairsAppend(h.leftKeys, h.left, h.rightKeys, h.right);
      }
    }
  }

  // ---------------------------------------------------------------------------
  // Internal entries

  /** Absorbing a child's answer keeps the entries in order: those of the
      siblings left of `i`, the child and its new sibling, then the rest. */
  lemma AbsorbEntries<V>(ks: seq<int>, cs: seq<Node<V>>, i: nat, res: Option<Split<Node<V>>>, order: nat)
    requires order >= 2 && |cs| == |ks| + 1 && i < |cs| && AllShaped(cs)
    requires res.Some? ==> Shaped(res.value.newNode)
    ensures var r := Absorb(ks, cs, i, res, order);
      Shaped(r.0) && (r.1.Some? ==> Shaped(r.1.value.newNode))
    ensures var r := Absorb(ks, cs, i, res, order);
      EntriesAfter(r) == EntriesOf(cs[..i]) + EntriesAfter((cs[i], res)) + EntriesOf(cs[i + 1..])
  {
    NodeLemmas.AbsorbShaped(ks, cs, i, res, order);
    EntriesOfAt(cs, i);
    var pre, post := EntriesOf(cs[..i]), EntriesOf(cs[i + 1..]);
    match res
    case None =>
      EntriesInternal(ks, cs);
      assert EntriesAfter(Absorb(ks, cs, i, res, order)) == EntriesOf(cs);
      assert EntriesAfter((cs[i], res)) == Entries(cs[i]);
    case Some(s) =>
      var ks', cs' := InsertAt(ks, i, s.key), InsertAt(cs, i + 1, s.newNode);
      EntriesOfGraft(cs, i, s.newNode);
      assert EntriesOf(cs') == pre + EntriesAfter((cs[i], res)) + post;
      if |ks'| >= order {
        SplitInternalEntries(ks', cs', order);
      } else {
        EntriesInternal(ks', cs');
        assert EntriesAfter(Absorb(ks, cs, i, res, order)) == Entries(Internal(ks', cs'));
      }
  }

  lemma OverwritesInContext<V>(pre: seq<Entry<V>>, es: seq<Entry<V>>, es': seq<Entry<V>>,
                               post: seq<Entry<V>>, key: int, value: V)
    requires Overwrites(es, es', key, value)
    ensures Overwrites(pre + es + post, pre + es' + post, key, value)
  {
    var p :| 0 <= p < |es| && es[p].key == key && es' == es[p := Entry(key, value)];
    var all := pre + es + post;
    assert all[|pre| + p] == es[p];
    assert pre + es' + post == all[|pre| + p := Entry(key, value)];
  }

  lemma AddsOneInContext<V>(pre: seq<Entry<V>>, es: seq<Entry<V>>, es': seq<Entry<V>>,
                            post: seq<Entry<V>>, key: int, value: V)
    requires AddsOne(es, es', key, value)
    ensures AddsOne(pre + es + post, pre + es' + post, key, value)
  {
    var p :| 0 <= p <= |es| && es' == InsertAt(es, p, Entry(key, value));
    assert pre + es' + post == InsertAt(pre + es + post, |pre| + p, Entry(key, value));
  }

  lemma {:induction false} SameShapeReflexive<V>(n: Node<V>)
    ensures SameShape(n, n)
    decreases n
  {
    match n
    case Leaf(_, _) =>
    case Internal(ks, cs) =>
      forall j | 0 <= j < |cs| ensures SameShape(cs[j], cs[j]) {
        SameShapeReflexive(cs[j]);
      }
  }

  /** When the routed leaf holds the key at the scan index, insertion splits
      nothing, moves no key and replaces the value of exactly one entry. */
  lemma {:induction false} InsertNodeOverwrites<V>(n: Node<V>, key: int, value: V, order: nat)
    requires order >= 2 && Shaped(n) && Hit(n, key)
    ensures var r := InsertNode(n, key, value, order);
      r.1.None? && Shaped(r.0) && SameShape(n, r.0) &&
      Overwrites(Entries(n), Entries(r.0), key, value)
    decreases n
  {
    NodeLemmas.InsertNodeShaped(n, key, value, order);
    match n
    case Leaf(ks, vs) =>
      LeafInsertEntries(ks, vs, key, value, order);
      assert Pairs(ks, vs)[Route(ks, key)].key == key;
    case Internal(ks, cs) =>
      var i := Route(ks, key);
      InsertNodeOverwrites(cs[i], key, value, order);
      var r := InsertNode(cs[i], key, value, order);
      var cs' := cs[i := r.0];
      assert AllShaped(cs');
      EntriesInternal(ks, cs);
      EntriesInternal(ks, cs');
      EntriesOfAt(cs, i);
      EntriesOfAt(cs', i);
      assert cs'[..i] == cs[..i] && cs'[i + 1..] == cs[i + 1..];
      OverwritesInContext(EntriesOf(cs[..i]), Entries(cs[i]), Entries(r.0), EntriesOf(cs[i + 1..]), key, value);
      forall j | 0 <= j < |cs| ensures SameShape(cs[j], cs'[j]) {
        if j != i { SameShapeReflexive(cs[j]); }
      }
  }

  lemma LeafInsertAddsOne<V>(ks: seq<int>, vs: seq<V>, key: int, value: V, order: nat)
    requires order >= 2 && |vs| == |ks| && !Hit(Leaf(ks, vs), key)
    ensures AddsOne(Pairs(ks, vs), EntriesAfter(LeafInsert(ks, vs, key, value, order)), key, value)
  {
    LeafInsertEntries(ks, vs, key, value, order);
    assert EntriesAfter(LeafInsert(ks, vs, key, value, order)) ==
      InsertAt(Pairs(ks, vs), Route(ks, key), Entry(key, value));
  }

  /** Otherwise insertion adds exactly one entry, `Entry(key, value)`, to the
      left-to-right sequence of entries of the node and its new sibling. */
  lemma {:induction false} InsertNodeAddsOne<V>(n: Node<V>, key: int, value: V, order: nat)
    requires order >= 2 && Shaped(n) && !Hit(n, key)
    ensures var r := InsertNode(n, key, value, order);
      Shaped(r.0) && (r.1.Some? ==> Shaped(r.1.value.newNode))
    ensures AddsOne(Entries(n), EntriesAfter(InsertNode(n, key, value, order)), key, value)
    decreases n
  {
    NodeLemmas.InsertNodeShaped(n, key, value, order);
    match n
    case Leaf(ks, vs) =>
      LeafInsertAddsOne(ks, vs, key, value, order);
    case Internal(ks, cs) =>
      var i := Route(ks, key);
      InsertNodeAddsOne(cs[i], key, value, order);
      var r := InsertNode(cs[i], key, value, order);
      assert InsertNode(n, key, value, order) == Absorb(ks, cs[i := r.0], i, r.1, order);
      AbsorbAddsOne(ks, cs, i, r, key, value, order);
  }

  /** An internal node absorbing the answer `r` of child `i`, which added
      one entry below that child, adds the same entry to the node. */
  lemma AbsorbAddsOne<V>(ks: seq<int>, cs: seq<Node<V>>, i: nat, r: (Node<V>, Option<Split<Node<V>>>),
                         key: int, value: V, order: nat)
    requires order >= 2 && Shaped(Internal(ks, cs)) && i < |cs|
    requires Shaped(r.0) && (r.1.Some? ==> Shaped(r.1.value.newNode))
    requires AddsOne(Entries(cs[i]), EntriesAfter(r), key, value)
    ensures var a := Absorb(ks, cs[i := r.0], i, r.1, order);
      Shaped(a.0) && (a.1.Some? ==> Shaped(a.1.value.newNode)) &&
      AddsOne(Entries(Internal(ks, cs)), EntriesAfter(a), key, value)
  {
    var cs' := cs[i := r.0];
    assert AllShaped(cs');
    AbsorbEntries(ks, cs', i, r.1, order);
    assert cs'[..i] == cs[..i] && cs'[i + 1..] == cs[i + 1..] && (cs'[i], r.1) == r;
    var pre, post := EntriesOf(cs[..i]), EntriesOf(cs[i + 1..]);
    EntriesInternal(ks, cs);
    EntriesOfAt(cs, i);
    AddsOneInContext(pre, Entries(cs[i]), EntriesAfter(r), post, key, value);
  }

  /** Root growth moves no entry: the new root's entries are those of the old
      root followed by those of its new sibling. */
  lemma EntriesOfGrownRoot<V>(t: Node<V>, key: int, value: V, order: nat)
    requires order >= 2 && Shaped(t)
    ensures var r := InsertNode(t, key, value, order);
      Shaped(r.0) && (r.1.Some? ==> Shaped(r.1.value.newNode)) &&
      Shaped(InsertTree(t, key, value, order)) &&
      Entries(InsertTree(t, key, value, order)) == EntriesAfter(r)
  {
    NodeLemmas.InsertNodeShaped(t, key, value, order);
    var r := InsertNode(t, key, value, order);
    assert InsertTree(t, key, value, order) == Grown(r);
    GrownEntries(r);
  }

  /** The grown root holds the records of the old root's answer. */
  lemma GrownEntries<V>(r: (Node<V>, Option<Split<Node<V>>>))
    requires Shaped(r.0) && (r.1.Some? ==> Shaped(r.1.value.newNode))
    ensures Shaped(Grown(r)) && Entries(Grown(r)) == EntriesAfter(r)
  {
    if r.1.Some? {
      var s := r.1.value;
      EntriesInternal([s.key], [r.0, s.newNode]);
      EntriesOfPair(r.0, s.newNode);
    }
  }

  /** BPlusTree.insert on the whole tree: the same two outcomes. */
  lemma InsertTreeEntries<V>(t: Node<V>, key: int, value: V, order: nat)
    requires order >= 2 && Shaped(t)
    ensures Shaped(InsertTree(t, key, value, order))
    ensures Hit(t, key) ==>
      !RootSplits(t, key, value, order) && SameShape(t, InsertTree(t, key, value, order)) &&
      Overwrites(Entries(t), Entries(InsertTree(t, key, value, order)), key, value)
    ensures !Hit(t, key) ==>
      AddsOne(Entries(t), Entries(InsertTree(t, key, value, order)), key, value)
  {
    EntriesOfGrownRoot(t, key, value, order);
    if Hit(t, key) {
      InsertNodeOverwrites(t, key, value, order);
    } else {
      InsertNodeAddsOne(t, key, value, order);
    }
  }

  /** The total entry count is unchanged by an overwrite and rises by exactly
      one otherwise. */
  lemma InsertTreeCount<V>(t: Node<V>, key: int, value: V, order: nat)
    requires order >= 2 && Shaped(t)
    ensures Shaped(InsertTree(t, key, value, order))
    ensures |Entries(InsertTree(t, key, value, order))| == |Entries(t)| + (if Hit(t, key) then 0 else 1)
  {
    InsertTreeEntries(t, key, value, order);
  }

}
