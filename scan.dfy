/** What `getAll` collects: the `{ key, value }` records of a list of leaf
    handles, leaf by leaf; over the leaves of a tree, in order, these are
    exactly the entries of the tree's value. */
module Scan {

  import opened Wrappers
  import opened Seqs
  import opened NodeModel
  import opened Arena
  import opened ArenaLemmas
  import ContentLemmas

  /** The records of the leaf at handle `x`, in index order. */
  ghost function LeafPairs<V>(nodes: seq<NodeRec<V>>, x: nat): seq<Entry<V>>
  {
    if x < |nodes| && nodes[x].LeafRec? && |nodes[x].values| == |nodes[x].keys| then
      Pairs(nodes[x].keys, nodes[x].values)
    else []
  }

  /** The records of the leaves `ls`, leaf after leaf. */
  ghost function LeafEntries<V>(nodes: seq<NodeRec<V>>, ls: seq<nat>): seq<Entry<V>>
  {
    if ls == [] then [] else LeafPairs(nodes, ls[0]) + LeafEntries(nodes, ls[1..])
  }

  lemma {:induction false} LeafEntriesAppend<V>(nodes: seq<NodeRec<V>>, a: seq<nat>, b: seq<nat>)
    ensures LeafEntries(nodes, a + b) == LeafEntries(nodes, a) + LeafEntries(nodes, b)
  {
    if a == [] {
      assert a + b == b;
    } else {
      assert (a + b)[0] == a[0] && (a + b)[1..] == a[1..] + b;
      LeafEntriesAppend(nodes, a[1..], b);
    }
  }

  /** The leaves of a tree, in order, hold the entries of its value. */
  lemma {:induction false} ScanTree<V>(nodes: seq<NodeRec<V>>, h: nat, d: nat)
    requires IsTree(nodes, h, d)
    ensures Shaped(Abs(nodes, h, d))
    ensures LeafEntries(nodes, Leaves(nodes, h, d)) == Entries(Abs(nodes, h, d))
    decreases d, 0
  {
    AbsShaped(nodes, h, d);
    match nodes[h]
    case LeafRec(ks, vs, _) =>
      assert Leaves(nodes, h, d) == [h];
      assert LeafEntries(nodes, [h]) == LeafPairs(nodes, h) + LeafEntries(nodes, []);
    case InternalRec(ks, cs) =>
      ScanForest(nodes, cs, d - 1);
      ContentLemmas.EntriesInternal(ks, AbsOf(nodes, cs, d - 1));
  }

  /** The same for a list of sibling trees. */
  lemma {:induction false} ScanForest<V>(nodes: seq<NodeRec<V>>, cs: seq<nat>, d: nat)
    requires IsForest(nodes, cs, d)
    ensures AllShaped(AbsOf(nodes, cs, d))
    ensures LeafEntries(nodes, LeavesOf(nodes, cs, d)) == EntriesOf(AbsOf(nodes, cs, d))
    decreases d, 1, |cs|
  {
    if cs == [] {
      assert Parts(AbsOf(nodes, cs, d)) == [];
    } else {
      ScanTree(nodes, cs[0], d);
      ScanForest(nodes, cs[1..], d);
      LeafEntriesAppend(nodes, Leaves(nodes, cs[0], d), LeavesOf(nodes, cs[1..], d));
      var first, rest := Abs(nodes, cs[0], d), AbsOf(nodes, cs[1..], d);
      assert AbsOf(nodes, cs, d) == [first] + rest;
      ContentLemmas.EntriesOfSingle(first);
      ContentLemmas.EntriesOfAppend([first], rest);
    }
  }

  /** One step of the walk along the leaf chain: the `j`-th leaf is a leaf
      record whose `next` is the leaf after it, and its records extend the
      records collected so far. */
  lemma ScanStep<V>(nodes: seq<NodeRec<V>>, ls: seq<nat>, j: nat)
    requires Linked(nodes, ls, None) && j < |ls|
    requires forall x :: x in ls ==> IsTree(nodes, x, 0)
    ensures ls[j] < |nodes| && nodes[ls[j]].LeafRec? && |nodes[ls[j]].values| == |nodes[ls[j]].keys|
    ensures nodes[ls[j]].next == Head(ls[j + 1..], None)
    ensures LeafEntries(nodes, ls[..j + 1]) ==
            LeafEntries(nodes, ls[..j]) + Pairs(nodes[ls[j]].keys, nodes[ls[j]].values)
  {
    assert ls[j] in ls;
    LinkedAt(nodes, ls, None, j);
    assert ls[..j + 1] == ls[..j] + [ls[j]];
    LeafEntriesAppend(nodes, ls[..j], [ls[j]]);
    assert LeafEntries(nodes, [ls[j]]) == LeafPairs(nodes, ls[j]) + LeafEntries(nodes, []);
  }

}
