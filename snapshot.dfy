/** BPlusTree.serializeNode: the plain description of a subtree that
    `getTreeStructure` hands to the display, one record per node with its
    kind, a copy of its keys, its level and its serialized children, and for
    a leaf a copy of its values and whether it has a `next` leaf.  The random
    `id` of each record is not modelled. */
module Snapshot {

  import opened Wrappers
  import opened Seqs
  import opened NodeModel
  import opened Arena
  import opened ArenaLemmas

  /** The `type` field: 'leaf' or 'internal'. */
  datatype NodeType = LeafType | InternalType

  /** The record serializeNode builds; `values` and `hasNext` are present on
      leaves only. */
  datatype NodeData<V> = NodeData(kind: NodeType, keys: seq<int>, level: nat, children: seq<NodeData<V>>,
                                  values: Option<seq<V>>, hasNext: Option<bool>)

  /** The description of the subtree at `h`, whose root is at `level`. */
  function SerializeNode<V>(nodes: seq<NodeRec<V>>, h: nat, level: nat, ghost d: nat): (r: NodeData<V>)
    requires IsTree(nodes, h, d)
    ensures r.level == level && r.keys == nodes[h].keys
    ensures r.kind == LeafType <==> nodes[h].LeafRec?
    decreases d, 0
  {
    match nodes[h]
    case LeafRec(ks, vs, next) => NodeData(LeafType, ks, level, [], Some(vs), Some(next.Some?))
    case InternalRec(ks, cs) => NodeData(InternalType, ks, level, SerializeChildren(nodes, cs, level, d - 1), None, None)
  }

  /** `children.map(child => serializeNode(child, level + 1))`, for children
      of a node at `level`. */
  function SerializeChildren<V>(nodes: seq<NodeRec<V>>, cs: seq<nat>, level: nat, ghost d: nat): (r: seq<NodeData<V>>)
    requires IsForest(nodes, cs, d)
    ensures |r| == |cs|
    decreases d, 1, |cs|
  {
    if cs == [] then []
    else [SerializeNode(nodes, cs[0], level + 1, d)] + SerializeChildren(nodes, cs[1..], level, d)
  }

  // ---------------------------------------------------------------------------
  // Reading a description back

  /** The tree a description denotes. */
  function Restore<V>(nd: NodeData<V>): Node<V>
    decreases nd
  {
    match nd.kind
    case LeafType => Leaf(nd.keys, if nd.values.Some? then nd.values.value else [])
    case InternalType =>
      Internal(nd.keys, seq(|nd.children|, j requires 0 <= j < |nd.children| => Restore(nd.children[j])))
  }

  /** The description is laid out as serializeNode lays it out for a subtree
      at `level` whose leaves are `d` levels down: leaves carry values, one
      per key, a `hasNext` flag and no children; internal nodes carry one
      child more than keys, each one level further down, and neither values
      nor a flag. */
  ghost predicate Laid<V>(nd: NodeData<V>, level: nat, d: nat)
    decreases nd
  {
    nd.level == level &&
    match nd.kind
    case LeafType =>
      d == 0 && nd.children == [] && nd.values.Some? && |nd.values.value| == |nd.keys| && nd.hasNext.Some?
    case InternalType =>
      d > 0 && nd.values.None? && nd.hasNext.None? && |nd.children| == |nd.keys| + 1 &&
      forall j :: 0 <= j < |nd.children| ==> Laid(nd.children[j], level + 1, d - 1)
  }

  /** Reading the description of a subtree back gives the subtree, and the
      description is laid out with every leaf `d` levels below `level`. */
  lemma {:induction false} SerializeRestores<V>(nodes: seq<NodeRec<V>>, h: nat, level: nat, d: nat)
    requires IsTree(nodes, h, d)
    ensures Restore(SerializeNode(nodes, h, level, d)) == Abs(nodes, h, d)
    ensures Laid(SerializeNode(nodes, h, level, d), level, d)
    decreases d, 0
  {
    match nodes[h]
    case LeafRec(_, _, _) =>
    case InternalRec(ks, cs) =>
      var r := SerializeChildren(nodes, cs, level, d - 1);
      ChildrenRestore(nodes, cs, level, d - 1);
      assert SerializeNode(nodes, h, level, d).children == r;
  }

  lemma {:induction false} ChildrenRestore<V>(nodes: seq<NodeRec<V>>, cs: seq<nat>, level: nat, d: nat)
    requires IsForest(nodes, cs, d)
    ensures var r := SerializeChildren(nodes, cs, level, d);
      (forall j :: 0 <= j < |r| ==> Restore(r[j]) == Abs(nodes, cs[j], d)) &&
      (forall j :: 0 <= j < |r| ==> Laid(r[j], level + 1, d))
    decreases d, 1, |cs|
  {
    if cs != [] {
      SerializeRestores(nodes, cs[0], level + 1, d);
      ChildrenRestore(nodes, cs[1..], level, d);
    }
  }

  // ---------------------------------------------------------------------------
  // The `hasNext` flags

  /** The `hasNext` flags of the leaves of a description, left to right. */
  function NextFlags<V>(nd: NodeData<V>): seq<bool>
    decreases nd
  {
    match nd.kind
    case LeafType => [nd.hasNext == Some(true)]
    case InternalType => Flatten(seq(|nd.children|, j requires 0 <= j < |nd.children| => NextFlags(nd.children[j])))
  }

  /** Whether each leaf of `ls` has a `next` leaf. */
  ghost function ChainFlags<V>(nodes: seq<NodeRec<V>>, ls: seq<nat>): seq<bool>
  {
    seq(|ls|, j requires 0 <= j < |ls| => ls[j] < |nodes| && nodes[ls[j]].LeafRec? && nodes[ls[j]].next.Some?)
  }

  /** The flags of a subtree's description are those of its leaves. */
  lemma {:induction false} SerializeFlags<V>(nodes: seq<NodeRec<V>>, h: nat, level: nat, d: nat)
    requires IsTree(nodes, h, d)
    ensures NextFlags(SerializeNode(nodes, h, level, d)) == ChainFlags(nodes, Leaves(nodes, h, d))
    decreases d, 0
  {
    match nodes[h]
    case LeafRec(_, _, _) =>
      assert Leaves(nodes, h, d) == [h];
    case InternalRec(ks, cs) =>
      var r := SerializeChildren(nodes, cs, level, d - 1);
      ChildrenFlags(nodes, cs, level, d - 1);
      var nd := SerializeNode(nodes, h, level, d);
      assert nd.children == r;
      assert seq(|nd.children|, j requires 0 <= j < |nd.children| => NextFlags(nd.children[j])) ==
             seq(|r|, j requires 0 <= j < |r| => NextFlags(r[j]));
  }

  lemma {:induction false} ChildrenFlags<V>(nodes: seq<NodeRec<V>>, cs: seq<nat>, level: nat, d: nat)
    requires IsForest(nodes, cs, d)
    ensures var r := SerializeChildren(nodes, cs, level, d);
      Flatten(seq(|r|, j requires 0 <= j < |r| => NextFlags(r[j]))) == ChainFlags(nodes, LeavesOf(nodes, cs, d))
    decreases d, 1, |cs|
  {
    var r := SerializeChildren(nodes, cs, level, d);
    var parts := seq(|r|, j requires 0 <= j < |r| => NextFlags(r[j]));
    if cs == [] {
      assert parts == [];
    } else {
      var r' := SerializeChildren(nodes, cs[1..], level, d);
      var parts' := seq(|r'|, j requires 0 <= j < |r'| => NextFlags(r'[j]));
      SerializeFlags(nodes, cs[0], level + 1, d);
      ChildrenFlags(nodes, cs[1..], level, d);
      assert parts == [NextFlags(r[0])] + parts';
      FlattenAppend([NextFlags(r[0])], parts');
      FlattenSingle(NextFlags(r[0]));
      ChainFlagsAppend(nodes, Leaves(nodes, cs[0], d), LeavesOf(nodes, cs[1..], d));
    }
  }

  lemma ChainFlagsAppend<V>(nodes: seq<NodeRec<V>>, a: seq<nat>, b: seq<nat>)
    ensures ChainFlags(nodes, a + b) == ChainFlags(nodes, a) + ChainFlags(nodes, b)
  {
  }

  /** Along a chain of leaves that ends in `tail`, every leaf but the last
      has a `next` leaf, and the last has one exactly when `tail` is one. */
  lemma {:induction false} LinkedFlags<V>(nodes: seq<NodeRec<V>>, ls: seq<nat>, tail: Option<nat>)
    requires Linked(nodes, ls, tail)
    ensures forall j :: 0 <= j < |ls| ==> ChainFlags(nodes, ls)[j] == (j + 1 < |ls| || tail.Some?)
  {
    forall j | 0 <= j < |ls|
      ensures ChainFlags(nodes, ls)[j] == (j + 1 < |ls| || tail.Some?)
    {
      LinkedAt(nodes, ls, tail, j);
    }
  }

}
