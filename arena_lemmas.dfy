/** Facts about arena trees used by the insertion proof: handle bounds, the
    frame rule (a tree reads only its own records), and how handle sets,
    values, leaf lists and leaf chains of sibling lists compose. */
module ArenaLemmas {

  import opened Wrappers
  import opened Seqs
  import opened NodeModel
  import opened Arena

  lemma {:induction false} HandlesBounded<V>(nodes: seq<NodeRec<V>>, h: nat, d: nat)
    requires IsTree(nodes, h, d)
    ensures h in Handles(nodes, h, d)
    ensures forall x :: x in Handles(nodes, h, d) ==> x < |nodes|
    decreases d, 0
  {
    match nodes[h]
    case LeafRec(_, _, _) =>
    case InternalRec(_, cs) => HandlesOfBounded(nodes, cs, d - 1);
  }

  lemma {:induction false} HandlesOfBounded<V>(nodes: seq<NodeRec<V>>, cs: seq<nat>, d: nat)
    requires IsForest(nodes, cs, d)
    ensures forall x :: x in HandlesOf(nodes, cs, d) ==> x < |nodes|
    decreases d, 1, |cs|
  {
    if cs != [] {
      HandlesBounded(nodes, cs[0], d);
      HandlesOfBounded(nodes, cs[1..], d);
    }
  }

  /** Each member of a forest is a tree whose handles belong to the forest. */
  lemma {:induction false} ForestAt<V>(nodes: seq<NodeRec<V>>, cs: seq<nat>, d: nat, j: nat)
    requires IsForest(nodes, cs, d) && j < |cs|
    ensures IsTree(nodes, cs[j], d)
    ensures Handles(nodes, cs[j], d) <= HandlesOf(nodes, cs, d)
  {
    if j > 0 {
      ForestAt(nodes, cs[1..], d, j - 1);
    }
  }

  /** A tree has at least one leaf, and its leaves are leaf records of the
      tree, each a proper one-node tree. */
  lemma {:induction false} LeavesInTree<V>(nodes: seq<NodeRec<V>>, h: nat, d: nat)
    requires IsTree(nodes, h, d)
    ensures |Leaves(nodes, h, d)| > 0
    ensures forall x :: x in Leaves(nodes, h, d) ==> x in Handles(nodes, h, d) && x < |nodes| && nodes[x].LeafRec?
    ensures forall x :: x in Leaves(nodes, h, d) ==> IsTree(nodes, x, 0)
    decreases d, 0
  {
    match nodes[h]
    case LeafRec(_, _, _) =>
    case InternalRec(_, cs) => LeavesOfInForest(nodes, cs, d - 1);
  }

  lemma {:induction false} LeavesOfInForest<V>(nodes: seq<NodeRec<V>>, cs: seq<nat>, d: nat)
    requires IsForest(nodes, cs, d)
    ensures |cs| > 0 ==> |LeavesOf(nodes, cs, d)| > 0
    ensures forall x :: x in LeavesOf(nodes, cs, d) ==> x in HandlesOf(nodes, cs, d) && x < |nodes| && nodes[x].LeafRec?
    ensures forall x :: x in LeavesOf(nodes, cs, d) ==> IsTree(nodes, x, 0)
    decreases d, 1, |cs|
  {
    if cs != [] {
      LeavesInTree(nodes, cs[0], d);
      LeavesOfInForest(nodes, cs[1..], d);
    }
  }

  /** The frame rule: a subtree is determined by the records at its own handles. */
  lemma {:induction false} FrameTree<V>(nodes: seq<NodeRec<V>>, nodes': seq<NodeRec<V>>, h: nat, d: nat)
    requires IsTree(nodes, h, d) && AgreeOn(nodes, nodes', Handles(nodes, h, d))
    ensures IsTree(nodes', h, d)
    ensures Handles(nodes', h, d) == Handles(nodes, h, d)
    ensures Abs(nodes', h, d) == Abs(nodes, h, d)
    ensures Leaves(nodes', h, d) == Leaves(nodes, h, d)
    decreases d, 0
  {
    HandlesBounded(nodes, h, d);
    match nodes[h]
    case LeafRec(_, _, _) =>
    case InternalRec(_, cs) =>
      FrameForest(nodes, nodes', cs, d - 1);
  }

  lemma {:induction false} FrameForest<V>(nodes: seq<NodeRec<V>>, nodes': seq<NodeRec<V>>, cs: seq<nat>, d: nat)
    requires IsForest(nodes, cs, d) && AgreeOn(nodes, nodes', HandlesOf(nodes, cs, d))
    ensures IsForest(nodes', cs, d)
    ensures HandlesOf(nodes', cs, d) == HandlesOf(nodes, cs, d)
    ensures AbsOf(nodes', cs, d) == AbsOf(nodes, cs, d)
    ensures LeavesOf(nodes', cs, d) == LeavesOf(nodes, cs, d)
    decreases d, 1, |cs|
  {
    if cs != [] {
      FrameTree(nodes, nodes', cs[0], d);
      FrameForest(nodes, nodes', cs[1..], d);
      var a, a' := AbsOf(nodes, cs, d), AbsOf(nodes', cs, d);
      forall j | 0 < j < |cs| ensures a'[j] == a[j] {
        assert cs[j] == cs[1..][j - 1];
        assert AbsOf(nodes', cs[1..], d)[j - 1] == AbsOf(nodes, cs[1..], d)[j - 1];
      }
    }
  }

  /** The value read back from a tree has parallel arrays of the right lengths. */
  lemma {:induction false} AbsShaped<V>(nodes: seq<NodeRec<V>>, h: nat, d: nat)
    requires IsTree(nodes, h, d)
    ensures Shaped(Abs(nodes, h, d))
    decreases d
  {
    match nodes[h]
    case LeafRec(_, _, _) =>
    case InternalRec(_, cs) =>
      forall j | 0 <= j < |cs| ensures Shaped(Abs(nodes, cs[j], d - 1)) {
        ForestAt(nodes, cs, d - 1, j);
        AbsShaped(nodes, cs[j], d - 1);
      }
  }

  // ---------------------------------------------------------------------------
  // Sibling lists

  lemma {:induction false} HandlesOfAppend<V>(nodes: seq<NodeRec<V>>, a: seq<nat>, b: seq<nat>, d: nat)
    ensures HandlesOf(nodes, a + b, d) == HandlesOf(nodes, a, d) + HandlesOf(nodes, b, d)
  {
    if a == [] {
      assert a + b == b;
    } else {
      assert (a + b)[0] == a[0] && (a + b)[1..] == a[1..] + b;
      HandlesOfAppend(nodes, a[1..], b, d);
    }
  }

  lemma HandlesOfSingle<V>(nodes: seq<NodeRec<V>>, c: nat, d: nat)
    ensures HandlesOf(nodes, [c], d) == Handles(nodes, c, d)
  {
    assert [c][1..] == [];
  }

  lemma {:induction false} ForestAppend<V>(nodes: seq<NodeRec<V>>, a: seq<nat>, b: seq<nat>, d: nat)
    requires IsForest(nodes, a, d) && IsForest(nodes, b, d)
    requires HandlesOf(nodes, a, d) !! HandlesOf(nodes, b, d)
    ensures IsForest(nodes, a + b, d)
  {
    if a == [] {
      assert a + b == b;
    } else {
      assert (a + b)[0] == a[0] && (a + b)[1..] == a[1..] + b;
      ForestAppend(nodes, a[1..], b, d);
      HandlesOfAppend(nodes, a[1..], b, d);
    }
  }

  lemma {:induction false} ForestParts<V>(nodes: seq<NodeRec<V>>, a: seq<nat>, b: seq<nat>, d: nat)
    requires IsForest(nodes, a + b, d)
    ensures IsForest(nodes, a, d) && IsForest(nodes, b, d)
    ensures HandlesOf(nodes, a, d) !! HandlesOf(nodes, b, d)
  {
    if a == [] {
      assert a + b == b;
    } else {
      assert (a + b)[0] == a[0] && (a + b)[1..] == a[1..] + b;
      ForestParts(nodes, a[1..], b, d);
      HandlesOfAppend(nodes, a[1..], b, d);
    }
  }

  lemma AbsOfAppend<V>(nodes: seq<NodeRec<V>>, a: seq<nat>, b: seq<nat>, d: nat)
    ensures AbsOf(nodes, a + b, d) == AbsOf(nodes, a, d) + AbsOf(nodes, b, d)
  {
  }

  lemma AbsOfSlices<V>(nodes: seq<NodeRec<V>>, cs: seq<nat>, i: nat, d: nat)
    requires i <= |cs|
    ensures AbsOf(nodes, cs[..i], d) == AbsOf(nodes, cs, d)[..i]
    ensures AbsOf(nodes, cs[i..], d) == AbsOf(nodes, cs, d)[i..]
  {
  }

  lemma {:induction false} LeavesOfAppend<V>(nodes: seq<NodeRec<V>>, a: seq<nat>, b: seq<nat>, d: nat)
    ensures LeavesOf(nodes, a + b, d) == LeavesOf(nodes, a, d) + LeavesOf(nodes, b, d)
  {
    if a == [] {
      assert a + b == b;
    } else {
      assert (a + b)[0] == a[0] && (a + b)[1..] == a[1..] + b;
      LeavesOfAppend(nodes, a[1..], b, d);
    }
  }

  lemma LeavesOfSingle<V>(nodes: seq<NodeRec<V>>, c: nat, d: nat)
    ensures LeavesOf(nodes, [c], d) == Leaves(nodes, c, d)
  {
    assert [c][1..] == [];
  }

  // ---------------------------------------------------------------------------
  // Leaf chains

  lemma {:induction false} LinkedAt<V>(nodes: seq<NodeRec<V>>, ls: seq<nat>, tail: Option<nat>, j: nat)
    requires Linked(nodes, ls, tail) && j < |ls|
    ensures ls[j] < |nodes| && nodes[ls[j]].LeafRec?
    ensures nodes[ls[j]].next == (if j + 1 < |ls| then Some(ls[j + 1]) else tail)
  {
    if j > 0 {
      LinkedAt(nodes, ls[1..], tail, j - 1);
    }
  }

  lemma {:induction false} LinkedAppend<V>(nodes: seq<NodeRec<V>>, a: seq<nat>, b: seq<nat>, tail: Option<nat>)
    ensures Linked(nodes, a + b, tail) <==> Linked(nodes, a, Head(b, tail)) && Linked(nodes, b, tail)
  {
    if a == [] {
      assert a + b == b;
    } else {
      assert (a + b)[0] == a[0] && (a + b)[1..] == a[1..] + b;
      LinkedAppend(nodes, a[1..], b, tail);
      assert Head(a[1..] + b, tail) == Head(a[1..], Head(b, tail));
    }
  }

  lemma LinkedSplit<V>(nodes: seq<NodeRec<V>>, a: seq<nat>, b: seq<nat>, tail: Option<nat>)
    requires Linked(nodes, a + b, tail)
    ensures Linked(nodes, a, Head(b, tail)) && Linked(nodes, b, tail)
  {
    LinkedAppend(nodes, a, b, tail);
  }

  lemma LinkedJoin<V>(nodes: seq<NodeRec<V>>, a: seq<nat>, b: seq<nat>, tail: Option<nat>)
    requires Linked(nodes, a, Head(b, tail)) && Linked(nodes, b, tail)
    ensures Linked(nodes, a + b, tail)
  {
    LinkedAppend(nodes, a, b, tail);
  }

  lemma {:induction false} LinkedFrame<V>(nodes: seq<NodeRec<V>>, nodes': seq<NodeRec<V>>, ls: seq<nat>, tail: Option<nat>)
    requires Linked(nodes, ls, tail)
    requires forall x :: x in ls ==> x < |nodes| && x < |nodes'| && nodes'[x] == nodes[x]
    ensures Linked(nodes', ls, tail)
  {
    if ls != [] {
      assert ls[0] in ls;
      assert forall x :: x in ls[1..] ==> x in ls;
      LinkedFrame(nodes, nodes', ls[1..], tail);
    }
  }

}
