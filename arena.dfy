/** The engine's node objects as records in an arena, addressed by integer
    handles: children are handles owned by their parent, and a leaf's `next`
    is a non-owning handle of the leaf to its right.  This module says when a
    handle is the root of a proper tree (every node reached once), reads that
    tree back as a NodeModel value, and lists its leaves left to right. */
module Arena {

  import opened Wrappers
  import opened Seqs
  import opened NodeModel

  /** One LeafNode or InternalNode object. */
  datatype NodeRec<V> =
    | LeafRec(keys: seq<int>, values: seq<V>, next: Option<nat>)
    | InternalRec(keys: seq<int>, children: seq<nat>)

  /** The handles of the subtree at `h` whose leaves are `d` levels down. */
  ghost function Handles<V>(nodes: seq<NodeRec<V>>, h: nat, d: nat): set<nat>
    decreases d, 0
  {
    if h >= |nodes| then {}
    else match nodes[h]
      case LeafRec(_, _, _) => {h}
      case InternalRec(_, cs) => if d == 0 then {h} else {h} + HandlesOf(nodes, cs, d - 1)
  }

  /** The handles of a list of sibling subtrees. */
  ghost function HandlesOf<V>(nodes: seq<NodeRec<V>>, cs: seq<nat>, d: nat): set<nat>
    decreases d, 1, |cs|
  {
    if cs == [] then {} else Handles(nodes, cs[0], d) + HandlesOf(nodes, cs[1..], d)
  }

  /** `h` is the root of a tree whose leaves are all `d` levels down, whose
      internal nodes have one child more than keys, whose leaves have as many
      values as keys, and in which no node is reached twice. */
  ghost predicate IsTree<V>(nodes: seq<NodeRec<V>>, h: nat, d: nat)
    decreases d, 0
  {
    h < |nodes| &&
    match nodes[h]
    case LeafRec(ks, vs, _) => d == 0 && |vs| == |ks|
    case InternalRec(ks, cs) =>
      d > 0 && |cs| == |ks| + 1 && IsForest(nodes, cs, d - 1) &&
      h !in HandlesOf(nodes, cs, d - 1)
  }

  /** Sibling subtrees of equal height that share no node. */
  ghost predicate IsForest<V>(nodes: seq<NodeRec<V>>, cs: seq<nat>, d: nat)
    decreases d, 1, |cs|
  {
    cs == [] ||
    (IsTree(nodes, cs[0], d) && Handles(nodes, cs[0], d) !! HandlesOf(nodes, cs[1..], d) &&
     IsForest(nodes, cs[1..], d))
  }

  /** The subtree at `h` read back as a value. */
  ghost function Abs<V>(nodes: seq<NodeRec<V>>, h: nat, d: nat): Node<V>
    decreases d, 0
  {
    if h >= |nodes| then Leaf([], [])
    else match nodes[h]
      case LeafRec(ks, vs, _) => Leaf(ks, vs)
      case InternalRec(ks, cs) => if d == 0 then Internal(ks, []) else Internal(ks, AbsOf(nodes, cs, d - 1))
  }

  ghost function AbsOf<V>(nodes: seq<NodeRec<V>>, cs: seq<nat>, d: nat): seq<Node<V>>
    decreases d, 1, |cs|
  {
    seq(|cs|, j requires 0 <= j < |cs| => Abs(nodes, cs[j], d))
  }

  /** The leaf handles of the subtree at `h`, left to right. */
  ghost function Leaves<V>(nodes: seq<NodeRec<V>>, h: nat, d: nat): seq<nat>
    decreases d, 0
  {
    if h >= |nodes| then []
    else match nodes[h]
      case LeafRec(_, _, _) => [h]
      case InternalRec(_, cs) => if d == 0 then [] else LeavesOf(nodes, cs, d - 1)
  }

  ghost function LeavesOf<V>(nodes: seq<NodeRec<V>>, cs: seq<nat>, d: nat): seq<nat>
    decreases d, 1, |cs|
  {
    if cs == [] then [] else Leaves(nodes, cs[0], d) + LeavesOf(nodes, cs[1..], d)
  }

  /** The first handle of `ls`, or `tail` when `ls` is empty. */
  function Head(ls: seq<nat>, tail: Option<nat>): Option<nat>
  {
    if ls == [] then tail else Some(ls[0])
  }

  /** Following `next` from each leaf of `ls` reaches the leaf after it, and
      the last one's `next` is `tail`. */
  ghost predicate Linked<V>(nodes: seq<NodeRec<V>>, ls: seq<nat>, tail: Option<nat>)
  {
    ls == [] ||
    (ls[0] < |nodes| && nodes[ls[0]].LeafRec? && nodes[ls[0]].next == Head(ls[1..], tail) &&
     Linked(nodes, ls[1..], tail))
  }

  /** `nodes'` holds the same record as `nodes` at every handle of `s`. */
  ghost predicate AgreeOn<V>(nodes: seq<NodeRec<V>>, nodes': seq<NodeRec<V>>, s: set<nat>)
  {
    forall x :: x in s ==> x < |nodes| && x < |nodes'| && nodes'[x] == nodes[x]
  }

}
