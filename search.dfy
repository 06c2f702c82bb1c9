/** Search on the value model: it answers exactly when the routed leaf holds the
    key, it only ever answers with a stored entry, and after an overwrite it
    answers with the new value. */
module SearchLemmas {

  import opened Wrappers
  import opened Seqs
  import opened Routing
  import opened NodeModel
  import NodeLemmas
  import ContentLemmas

  /** In a well-formed tree, search finds a value exactly when insertion of the
      same key would overwrite (both follow the same routing, ties left). */
  lemma {:induction false} FindIffHit<V>(n: Node<V>, key: int, order: nat, d: nat)
    requires WellFormed(n, order, d)
    ensures Shaped(n)
    ensures Find(n, key).Some? <==> Hit(n, key)
    decreases n
  {
    NodeLemmas.WellFormedShaped(n, order, d);
    match n
    case Leaf(ks, vs) =>
      RouteFindsPresentKey(ks, key);
    case Internal(ks, cs) =>
      FindIffHit(cs[Route(ks, key)], key, order, d - 1);
  }

  /** Search never invents an answer: a value it returns is stored with the key
      in some leaf. */
  lemma {:induction false} FindSound<V>(n: Node<V>, key: int, v: V)
    requires Shaped(n) && Find(n, key) == Some(v)
    ensures Entry(key, v) in Entries(n)
    decreases n
  {
    match n
    case Leaf(ks, vs) =>
      var idx := IndexOf(ks, key);
      assert Pairs(ks, vs)[idx] == Entry(key, v);
    case Internal(ks, cs) =>
      var i := Route(ks, key);
      FindSound(cs[i], key, v);
      ContentLemmas.EntriesInternal(ks, cs);
      ContentLemmas.EntriesOfAt(cs, i);
  }

  /** When insertion overwrites, a following search returns the new value. */
  lemma {:induction false} FindAfterOverwrite<V>(n: Node<V>, key: int, value: V, order: nat, d: nat)
    requires order >= 2 && WellFormed(n, order, d)
    requires Shaped(n) && Hit(n, key)
    ensures var r := InsertNode(n, key, value, order);
      Shaped(r.0) && Find(r.0, key) == Some(value)
    decreases n
  {
    NodeLemmas.InsertNodeShaped(n, key, value, order);
    match n
    case Leaf(ks, vs) =>
      RouteFindsPresentKey(ks, key);
    case Internal(ks, cs) =>
      var i := Route(ks, key);
      ContentLemmas.InsertNodeOverwrites(cs[i], key, value, order);
      FindAfterOverwrite(cs[i], key, value, order, d - 1);
  }

  /** The same at the level of BPlusTree.insert followed by BPlusTree.search. */
  lemma SearchAfterOverwrite<V>(t: Node<V>, key: int, value: V, order: nat, d: nat)
    requires order >= 2 && WellFormed(t, order, d)
    requires Shaped(t) && Hit(t, key)
    ensures Shaped(InsertTree(t, key, value, order))
    ensures Find(InsertTree(t, key, value, order), key) == Some(value)
  {
    ContentLemmas.InsertNodeOverwrites(t, key, value, order);
    FindAfterOverwrite(t, key, value, order, d);
  }

}
