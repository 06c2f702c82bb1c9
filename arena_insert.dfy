/** What one `node.insert(key, value, order)` call does to the arena, stated
    against NodeModel.InsertNode, and the lemmas that establish it for a leaf,
    for an internal node that absorbs its child's answer, for an internal
    split, and for the growth of a new root. */
module ArenaInsert {

  import opened Wrappers
  import opened Seqs
  import opened Routing
  import opened NodeModel
  import opened Arena
  import opened ArenaLemmas
  import NodeLemmas

  /** `M` only grew, and every record of `N` outside `s` is unchanged. */
  ghost predicate Keeps<V>(N: seq<NodeRec<V>>, M: seq<NodeRec<V>>, s: set<nat>)
  {
    |N| <= |M| && forall x: nat :: x < |N| && x !in s ==> M[x] == N[x]
  }

  /** Every handle of `s'` is in `s` or was allocated after the first `n`. */
  ghost predicate FromOrFresh(s': set<nat>, s: set<nat>, n: nat)
  {
    forall x :: x in s' ==> x in s || n <= x
  }

  /** Every handle of `s` is below `n`. */
  ghost predicate Below(s: set<nat>, n: nat)
  {
    forall x :: x in s ==> x < n
  }

  /** An old handle outside `s` is not among those of `s'`. */
  lemma NotFromOrFresh(s': set<nat>, s: set<nat>, n: nat, x: nat)
    requires FromOrFresh(s', s, n) && x !in s && x < n
    ensures x !in s'
  {
  }

  /** Writing the record at `h` leaves every other record in place. */
  lemma AgreeAfterWrite<V>(nodes: seq<NodeRec<V>>, h: nat, r: NodeRec<V>, s: set<nat>)
    requires h < |nodes| && h !in s && forall x :: x in s ==> x < |nodes|
    ensures AgreeOn(nodes, nodes[h := r], s)
  {
  }

  /** Appending records leaves the existing ones in place. */
  lemma AgreeAfterAppend<V>(nodes: seq<NodeRec<V>>, extra: seq<NodeRec<V>>, s: set<nat>)
    requires forall x :: x in s ==> x < |nodes|
    ensures AgreeOn(nodes, nodes + extra, s)
  {
  }

  /** The handles a node gives its parent back after inserting: itself, and
      after a split the new right sibling too. */
  function Answered(c: nat, res: Option<(int, nat)>): seq<nat>
  {
    match res
    case None => [c]
    case Some((_, n)) => [c, n]
  }

  /** The same for the value model: the updated node, and the new sibling. */
  function Returned<V>(r: (Node<V>, Option<Split<Node<V>>>)): seq<Node<V>>
  {
    match r.1
    case None => [r.0]
    case Some(s) => [r.0, s.newNode]
  }

  /** The leaf that follows the subtree `cs[i]` in the chain. */
  ghost function ChildTail<V>(nodes: seq<NodeRec<V>>, cs: seq<nat>, i: nat, d: nat, tail: Option<nat>): Option<nat>
    requires i < |cs|
  {
    Head(LeavesOf(nodes, cs[i + 1..], d), tail)
  }

  /** Inserting into the subtree at `h` took the arena from `N` to `M` and
      answered `res`, and `r` is the answer of the value model: records
      outside the subtree are untouched; the node and its new sibling (if
      any) are disjoint trees built from the old subtree's records and fresh
      ones; their values are those of `r`, with the same promoted key; the
      leftmost leaf is the same record; and their leaves, in order, are
      chained up to `tail`. */
  ghost predicate Inserted<V>(N: seq<NodeRec<V>>, M: seq<NodeRec<V>>, h: nat, d: nat, tail: Option<nat>,
                              r: (Node<V>, Option<Split<Node<V>>>), res: Option<(int, nat)>)
  {
    IsTree(N, h, d) && Keeps(N, M, Handles(N, h, d)) &&
    IsForest(M, Answered(h, res), d) &&
    FromOrFresh(HandlesOf(M, Answered(h, res), d), Handles(N, h, d), |N|) &&
    |Leaves(N, h, d)| > 0 && |LeavesOf(M, Answered(h, res), d)| > 0 &&
    LeavesOf(M, Answered(h, res), d)[0] == Leaves(N, h, d)[0] &&
    Linked(M, LeavesOf(M, Answered(h, res), d), tail) &&
    AbsOf(M, Answered(h, res), d) == Returned(r) &&
    (res.Some? <==> r.1.Some?) && (res.Some? ==> res.value.0 == r.1.value.key)
  }

  /** The subtree at `h` was rebuilt in place from `N` to `M` without a
      split: a tree again, built from its old records and fresh ones, with
      the same first leaf, its leaves chained up to `tail`, and nothing
      outside it touched. */
  ghost predicate Rebuilt<V>(N: seq<NodeRec<V>>, M: seq<NodeRec<V>>, h: nat, d: nat, tail: Option<nat>)
  {
    IsTree(N, h, d) && IsTree(M, h, d) && Keeps(N, M, Handles(N, h, d)) &&
    FromOrFresh(Handles(M, h, d), Handles(N, h, d), |N|) &&
    |Leaves(N, h, d)| > 0 && |Leaves(M, h, d)| > 0 && Leaves(M, h, d)[0] == Leaves(N, h, d)[0] &&
    Linked(M, Leaves(M, h, d), tail)
  }

  // ---------------------------------------------------------------------------
  // One- and two-element sibling lists

  lemma ForestSingle<V>(nodes: seq<NodeRec<V>>, x: nat, d: nat)
    ensures IsForest(nodes, [x], d) <==> IsTree(nodes, x, d)
    ensures HandlesOf(nodes, [x], d) == Handles(nodes, x, d)
    ensures AbsOf(nodes, [x], d) == [Abs(nodes, x, d)]
    ensures LeavesOf(nodes, [x], d) == Leaves(nodes, x, d)
  {
    assert [x][0] == x;
    HandlesOfSingle(nodes, x, d);
    LeavesOfSingle(nodes, x, d);
  }

  lemma ForestPair<V>(nodes: seq<NodeRec<V>>, x: nat, y: nat, d: nat)
    ensures IsForest(nodes, [x, y], d) <==>
      IsTree(nodes, x, d) && IsTree(nodes, y, d) && Handles(nodes, x, d) !! Handles(nodes, y, d)
    ensures HandlesOf(nodes, [x, y], d) == Handles(nodes, x, d) + Handles(nodes, y, d)
    ensures AbsOf(nodes, [x, y], d) == [Abs(nodes, x, d), Abs(nodes, y, d)]
    ensures LeavesOf(nodes, [x, y], d) == Leaves(nodes, x, d) + Leaves(nodes, y, d)
  {
    assert [x, y] == [x] + [y];
    ForestSingle(nodes, x, d);
    ForestSingle(nodes, y, d);
    HandlesOfAppend(nodes, [x], [y], d);
    LeavesOfAppend(nodes, [x], [y], d);
    if IsForest(nodes, [x, y], d) {
      ForestParts(nodes, [x], [y], d);
    }
    if IsTree(nodes, x, d) && IsTree(nodes, y, d) && Handles(nodes, x, d) !! Handles(nodes, y, d) {
      ForestAppend(nodes, [x], [y], d);
    }
  }

  // ---------------------------------------------------------------------------
  // LeafNode.insert

  /** A leaf that overwrites a value or takes the new pair without splitting. */
  lemma LeafUpdated<V>(N: seq<NodeRec<V>>, h: nat, tail: Option<nat>, key: int, value: V, order: nat)
    requires order >= 2 && IsTree(N, h, 0) && Linked(N, Leaves(N, h, 0), tail)
    requires LeafInsert(N[h].keys, N[h].values, key, value, order).1.None?
    ensures var r := LeafInsert(N[h].keys, N[h].values, key, value, order);
      Inserted(N, N[h := LeafRec(r.0.keys, r.0.values, N[h].next)], h, 0, tail, r, None)
  {
    var r := LeafInsert(N[h].keys, N[h].values, key, value, order);
    var M := N[h := LeafRec(r.0.keys, r.0.values, N[h].next)];
    ForestSingle(M, h, 0);
    assert Leaves(N, h, 0) == [h];
    LinkedAt(N, [h], tail, 0);
    assert Linked(M, [h], tail);
  }

  /** A leaf that reached `order` keys: it keeps the left half and points to
      the new leaf appended at the end of the arena, which takes the right half
      and the old `next`. */
  lemma LeafSplitCase<V>(N: seq<NodeRec<V>>, h: nat, tail: Option<nat>, key: int, value: V, order: nat)
    requires order >= 2 && IsTree(N, h, 0) && Linked(N, Leaves(N, h, 0), tail)
    requires LeafInsert(N[h].keys, N[h].values, key, value, order).1.Some?
    ensures var r := LeafInsert(N[h].keys, N[h].values, key, value, order);
      var s := r.1.value;
      Inserted(N, N[h := LeafRec(r.0.keys, r.0.values, Some(|N|))] +
                  [LeafRec(s.newNode.keys, s.newNode.values, N[h].next)],
               h, 0, tail, r, Some((s.key, |N|)))
  {
    var r := LeafInsert(N[h].keys, N[h].values, key, value, order);
    var s := r.1.value;
    var n := |N|;
    var M := N[h := LeafRec(r.0.keys, r.0.values, Some(n))] + [LeafRec(s.newNode.keys, s.newNode.values, N[h].next)];
    assert M[h] == LeafRec(r.0.keys, r.0.values, Some(n));
    assert M[n] == LeafRec(s.newNode.keys, s.newNode.values, N[h].next);
    assert Handles(M, h, 0) == {h} && Handles(M, n, 0) == {n};
    ForestPair(M, h, n, 0);
    assert Leaves(N, h, 0) == [h];
    LinkedAt(N, [h], tail, 0);
    assert LeavesOf(M, [h, n], 0) == [h, n];
    assert Linked(M, [h, n], tail);
  }

  // ---------------------------------------------------------------------------
  // InternalNode.insert: descending and grafting the child's answer

  /** Before descending into child `i`: it is a tree whose leaves are chained
      up to the first leaf of the next sibling, or the parent's own tail. */
  lemma ChildReady<V>(N: seq<NodeRec<V>>, h: nat, d: nat, tail: Option<nat>, i: nat)
    requires IsTree(N, h, d) && N[h].InternalRec? && Linked(N, Leaves(N, h, d), tail)
    requires i < |N[h].children|
    ensures IsTree(N, N[h].children[i], d - 1)
    ensures Linked(N, Leaves(N, N[h].children[i], d - 1), ChildTail(N, N[h].children, i, d - 1, tail))
  {
    var cs := N[h].children;
    var A, c, B := cs[..i], cs[i], cs[i + 1..];
    ForestAt(N, cs, d - 1, i);
    assert cs == A + ([c] + B);
    LeavesOfAppend(N, A, [c] + B, d - 1);
    LeavesOfAppend(N, [c], B, d - 1);
    LeavesOfSingle(N, c, d - 1);
    LinkedSplit(N, LeavesOf(N, A, d - 1), Leaves(N, c, d - 1) + LeavesOf(N, B, d - 1), tail);
    LinkedSplit(N, Leaves(N, c, d - 1), LeavesOf(N, B, d - 1), tail);
  }

  /** Child `i` of a sibling list split off from its siblings: the records
      of the siblings are untouched by a change confined to child `i`. */
  lemma SiblingsApart<V>(N: seq<NodeRec<V>>, N1: seq<NodeRec<V>>, cs: seq<nat>, i: nat, d: nat)
    requires IsForest(N, cs, d) && i < |cs| && Keeps(N, N1, Handles(N, cs[i], d))
    ensures IsTree(N, cs[i], d) && IsForest(N, cs[..i], d) && IsForest(N, cs[i + 1..], d)
    ensures HandlesOf(N, cs, d) == HandlesOf(N, cs[..i], d) + Handles(N, cs[i], d) + HandlesOf(N, cs[i + 1..], d)
    ensures HandlesOf(N, cs[..i], d) !! HandlesOf(N, cs[i + 1..], d)
    ensures forall x :: x in HandlesOf(N, cs[..i], d) ==> x < |N| && x !in Handles(N, cs[i], d)
    ensures forall x :: x in HandlesOf(N, cs[i + 1..], d) ==> x < |N| && x !in Handles(N, cs[i], d)
    ensures AgreeOn(N, N1, HandlesOf(N, cs[..i], d)) && AgreeOn(N, N1, HandlesOf(N, cs[i + 1..], d))
  {
    var A, c, B := cs[..i], cs[i], cs[i + 1..];
    assert cs == A + ([c] + B);
    ForestParts(N, A, [c] + B, d);
    ForestParts(N, [c], B, d);
    ForestSingle(N, c, d);
    HandlesOfAppend(N, A, [c] + B, d);
    HandlesOfAppend(N, [c], B, d);
    HandlesOfBounded(N, A, d);
    HandlesOfBounded(N, B, d);
  }

  /** The siblings of child `i` are untouched trees. */
  lemma SiblingsKept<V>(N: seq<NodeRec<V>>, N1: seq<NodeRec<V>>, cs: seq<nat>, i: nat, d: nat)
    requires IsForest(N, cs, d) && i < |cs| && Keeps(N, N1, Handles(N, cs[i], d))
    ensures IsForest(N, cs[..i], d) && IsForest(N, cs[i + 1..], d)
    ensures AgreeOn(N, N1, HandlesOf(N, cs[..i], d)) && AgreeOn(N, N1, HandlesOf(N, cs[i + 1..], d))
  {
    SiblingsApart(N, N1, cs, i, d);
  }

  /** The handles, trees and values of a sibling list once child `i` has been
      replaced by the trees `mid` its insertion handed back. */
  lemma GraftTrees<V>(N: seq<NodeRec<V>>, N1: seq<NodeRec<V>>, cs: seq<nat>, i: nat, d: nat, mid: seq<nat>)
    requires IsForest(N, cs, d) && i < |cs| && Keeps(N, N1, Handles(N, cs[i], d))
    requires IsForest(N1, mid, d) && FromOrFresh(HandlesOf(N1, mid, d), Handles(N, cs[i], d), |N|)
    ensures var ncs := cs[..i] + mid + cs[i + 1..];
      IsForest(N1, ncs, d) &&
      FromOrFresh(HandlesOf(N1, ncs, d), HandlesOf(N, cs, d), |N|) &&
      AbsOf(N1, ncs, d) == AbsOf(N, cs, d)[..i] + AbsOf(N1, mid, d) + AbsOf(N, cs, d)[i + 1..]
  {
    var A, B := cs[..i], cs[i + 1..];
    SiblingsApart(N, N1, cs, i, d);
    FrameForest(N, N1, A, d);
    FrameForest(N, N1, B, d);
    assert HandlesOf(N1, A, d) !! HandlesOf(N1, mid, d);
    assert HandlesOf(N1, mid, d) !! HandlesOf(N1, B, d);
    ForestAppend(N1, A, mid, d);
    HandlesOfAppend(N1, A, mid, d);
    ForestAppend(N1, A + mid, B, d);
    HandlesOfAppend(N1, A + mid, B, d);
    AbsOfAppend(N1, A + mid, B, d);
    AbsOfAppend(N1, A, mid, d);
    AbsOfSlices(N, cs, i, d);
    AbsOfSlices(N, cs, i + 1, d);
  }

  /** The leaf chain of a sibling list cut around child `i`. */
  lemma ChainAround<V>(N: seq<NodeRec<V>>, cs: seq<nat>, i: nat, d: nat, tail: Option<nat>)
    requires IsForest(N, cs, d) && i < |cs| && Linked(N, LeavesOf(N, cs, d), tail)
    ensures |Leaves(N, cs[i], d)| > 0
    ensures LeavesOf(N, cs, d) == LeavesOf(N, cs[..i], d) + (Leaves(N, cs[i], d) + LeavesOf(N, cs[i + 1..], d))
    ensures Linked(N, LeavesOf(N, cs[..i], d), Some(Leaves(N, cs[i], d)[0]))
    ensures Linked(N, LeavesOf(N, cs[i + 1..], d), tail)
  {
    var A, c, B := cs[..i], cs[i], cs[i + 1..];
    assert cs == A + ([c] + B);
    LeavesOfAppend(N, A, [c] + B, d);
    LeavesOfAppend(N, [c], B, d);
    LeavesOfSingle(N, c, d);
    ForestAt(N, cs, d, i);
    LeavesInTree(N, c, d);
    LinkedSplit(N, LeavesOf(N, A, d), Leaves(N, c, d) + LeavesOf(N, B, d), tail);
    LinkedSplit(N, Leaves(N, c, d), LeavesOf(N, B, d), tail);
  }

  /** An untouched sibling list keeps its leaves and their chain. */
  lemma ChainKept<V>(N: seq<NodeRec<V>>, N1: seq<NodeRec<V>>, xs: seq<nat>, d: nat, tail: Option<nat>)
    requires IsForest(N, xs, d) && AgreeOn(N, N1, HandlesOf(N, xs, d)) && Linked(N, LeavesOf(N, xs, d), tail)
    ensures LeavesOf(N1, xs, d) == LeavesOf(N, xs, d)
    ensures Linked(N1, LeavesOf(N1, xs, d), tail)
  {
    FrameForest(N, N1, xs, d);
    LeavesOfInForest(N, xs, d);
    LinkedFrame(N, N1, LeavesOf(N, xs, d), tail);
  }

  /** The leaf chain of a sibling list once child `i` has been replaced by
      the trees `mid`: same first leaf, still chained. */
  lemma GraftLeaves<V>(N: seq<NodeRec<V>>, N1: seq<NodeRec<V>>, cs: seq<nat>, i: nat, d: nat, tail: Option<nat>,
                       mid: seq<nat>)
    requires IsForest(N, cs, d) && i < |cs| && Keeps(N, N1, Handles(N, cs[i], d))
    requires Linked(N, LeavesOf(N, cs, d), tail)
    requires |LeavesOf(N1, mid, d)| > 0 && |Leaves(N, cs[i], d)| > 0
    requires LeavesOf(N1, mid, d)[0] == Leaves(N, cs[i], d)[0]
    requires Linked(N1, LeavesOf(N1, mid, d), ChildTail(N, cs, i, d, tail))
    ensures var ncs := cs[..i] + mid + cs[i + 1..];
      |LeavesOf(N, cs, d)| > 0 && |LeavesOf(N1, ncs, d)| > 0 &&
      LeavesOf(N1, ncs, d)[0] == LeavesOf(N, cs, d)[0] &&
      Linked(N1, LeavesOf(N1, ncs, d), tail)
  {
    var A, B := cs[..i], cs[i + 1..];
    SiblingsKept(N, N1, cs, i, d);
    ChainAround(N, cs, i, d, tail);
    var LA, Lc, LB, Lm := LeavesOf(N, A, d), Leaves(N, cs[i], d), LeavesOf(N, B, d), LeavesOf(N1, mid, d);
    ChainKept(N, N1, A, d, Some(Lc[0]));
    ChainKept(N, N1, B, d, tail);
    LeavesOfThree(N1, A, mid, B, d);
    ChainRejoined(N1, LA, Lc, Lm, LB, tail);
  }

  /** The leaves of three sibling lists laid end to end. */
  lemma LeavesOfThree<V>(nodes: seq<NodeRec<V>>, A: seq<nat>, mid: seq<nat>, B: seq<nat>, d: nat)
    ensures LeavesOf(nodes, A + mid + B, d) == LeavesOf(nodes, A, d) + (LeavesOf(nodes, mid, d) + LeavesOf(nodes, B, d))
  {
    LeavesOfAppend(nodes, A + mid, B, d);
    LeavesOfAppend(nodes, A, mid, d);
  }

  /** A chain cut around the leaves `Lc` and closed again around leaves `Lm`
      that start with the same leaf. */
  lemma ChainRejoined<V>(nodes: seq<NodeRec<V>>, LA: seq<nat>, Lc: seq<nat>, Lm: seq<nat>, LB: seq<nat>,
                         tail: Option<nat>)
    requires |Lc| > 0 && |Lm| > 0 && Lm[0] == Lc[0]
    requires Linked(nodes, LA, Some(Lc[0])) && Linked(nodes, Lm, Head(LB, tail)) && Linked(nodes, LB, tail)
    ensures Linked(nodes, LA + (Lm + LB), tail)
    ensures (LA + (Lm + LB))[0] == (LA + (Lc + LB))[0]
  {
    LinkedJoin(nodes, Lm, LB, tail);
    assert Head(Lm + LB, tail) == Some(Lc[0]);
    LinkedJoin(nodes, LA, Lm + LB, tail);
  }

  // ---------------------------------------------------------------------------
  // InternalNode.insert: the parent record and its split

  /** The keys the parent holds after its child answered `res`. */
  function NewKeys(ks: seq<int>, i: nat, res: Option<(int, nat)>): seq<int>
    requires i <= |ks|
  {
    match res
    case None => ks
    case Some((k, _)) => InsertAt(ks, i, k)
  }

  /** The internal node at `h` rewritten over a grafted sibling list `ncs`. */
  lemma Regraft<V>(N: seq<NodeRec<V>>, N1: seq<NodeRec<V>>, h: nat, d: nat, tail: Option<nat>,
                   i: nat, ks': seq<int>, ncs: seq<nat>)
    requires IsTree(N, h, d) && N[h].InternalRec? && i < |N[h].children|
    requires Keeps(N, N1, Handles(N, N[h].children[i], d - 1))
    requires IsForest(N1, ncs, d - 1) && |ncs| == |ks'| + 1
    requires FromOrFresh(HandlesOf(N1, ncs, d - 1), HandlesOf(N, N[h].children, d - 1), |N|)
    requires Linked(N1, LeavesOf(N1, ncs, d - 1), tail)
    ensures var M := N1[h := InternalRec(ks', ncs)];
      IsTree(M, h, d) && Keeps(N, M, Handles(N, h, d)) &&
      FromOrFresh(Handles(M, h, d), Handles(N, h, d), |N|) &&
      Abs(M, h, d) == Internal(ks', AbsOf(N1, ncs, d - 1)) &&
      Leaves(M, h, d) == LeavesOf(N1, ncs, d - 1) &&
      Linked(M, Leaves(M, h, d), tail)
  {
    var cs := N[h].children;
    ForestAt(N, cs, d - 1, i);
    NotFromOrFresh(HandlesOf(N1, ncs, d - 1), HandlesOf(N, cs, d - 1), |N|, h);
    WriteAbove(N1, h, InternalRec(ks', ncs), ncs, d - 1, tail);
    KeepsAfterWrite(N, N1, h, InternalRec(ks', ncs), Handles(N, cs[i], d - 1), Handles(N, h, d));
  }

  /** Writing a record outside a sibling list leaves the list's trees,
      values, leaves and chain as they were. */
  lemma WriteAbove<V>(N1: seq<NodeRec<V>>, h: nat, rec: NodeRec<V>, ncs: seq<nat>, d: nat, tail: Option<nat>)
    requires IsForest(N1, ncs, d) && h < |N1| && h !in HandlesOf(N1, ncs, d)
    requires Linked(N1, LeavesOf(N1, ncs, d), tail)
    ensures var M := N1[h := rec];
      IsForest(M, ncs, d) && HandlesOf(M, ncs, d) == HandlesOf(N1, ncs, d) &&
      AbsOf(M, ncs, d) == AbsOf(N1, ncs, d) && LeavesOf(M, ncs, d) == LeavesOf(N1, ncs, d) &&
      Linked(M, LeavesOf(M, ncs, d), tail)
  {
    var M := N1[h := rec];
    HandlesOfBounded(N1, ncs, d);
    AgreeAfterWrite(N1, h, rec, HandlesOf(N1, ncs, d));
    FrameForest(N1, M, ncs, d);
    LeavesOfInForest(N1, ncs, d);
    LinkedFrame(N1, M, LeavesOf(N1, ncs, d), tail);
  }

  /** A write inside the region `t` keeps everything outside it. */
  lemma KeepsAfterWrite<V>(N: seq<NodeRec<V>>, N1: seq<NodeRec<V>>, h: nat, rec: NodeRec<V>, s: set<nat>, t: set<nat>)
    requires Keeps(N, N1, s) && s <= t && h in t && h < |N1|
    ensures Keeps(N, N1[h := rec], t)
  {
  }

  /** Writing the record at `h` and appending one leaves every other old
      record in place. */
  lemma AgreeAfterSplit<V>(nodes: seq<NodeRec<V>>, h: nat, l: NodeRec<V>, r: NodeRec<V>, s: set<nat>)
    requires h < |nodes| && h !in s && forall x :: x in s ==> x < |nodes|
    ensures AgreeOn(nodes, nodes[h := l] + [r], s)
  {
  }

  /** The record written at `h` by InternalNode.split. */
  function LeftRec<V>(keys: seq<int>, children: seq<nat>, order: nat): NodeRec<V>
    requires order >= 2 && |keys| >= order && |children| == |keys| + 1
  {
    var H := SplitInternal(keys, children, order);
    InternalRec(H.leftKeys, H.left)
  }

  /** The record InternalNode.split appends for the new right node. */
  function RightRec<V>(keys: seq<int>, children: seq<nat>, order: nat): NodeRec<V>
    requires order >= 2 && |keys| >= order && |children| == |keys| + 1
  {
    var H := SplitInternal(keys, children, order);
    InternalRec(H.rightKeys, H.right)
  }

  /** After a node at `h` is rewritten and a record appended, the two
      halves of its old children are still disjoint trees, untouched. */
  lemma SplitChildren<V>(M: seq<NodeRec<V>>, M3: seq<NodeRec<V>>, h: nat, d: nat,
                         left: seq<nat>, right: seq<nat>, l: NodeRec<V>, r: NodeRec<V>)
    requires IsTree(M, h, d) && M[h].InternalRec? && M[h].children == left + right
    requires M3 == M[h := l] + [r]
    ensures IsForest(M3, left, d - 1) && IsForest(M3, right, d - 1)
    ensures HandlesOf(M3, left, d - 1) == HandlesOf(M, left, d - 1)
    ensures HandlesOf(M3, right, d - 1) == HandlesOf(M, right, d - 1)
    ensures HandlesOf(M, left, d - 1) !! HandlesOf(M, right, d - 1)
    ensures Handles(M, h, d) == {h} + HandlesOf(M, left, d - 1) + HandlesOf(M, right, d - 1)
    ensures h !in HandlesOf(M, left, d - 1) && h !in HandlesOf(M, right, d - 1)
    ensures Below(HandlesOf(M, left, d - 1), |M|) && Below(HandlesOf(M, right, d - 1), |M|)
    ensures AbsOf(M3, left, d - 1) + AbsOf(M3, right, d - 1) == AbsOf(M, M[h].children, d - 1)
    ensures LeavesOf(M3, left, d - 1) + LeavesOf(M3, right, d - 1) == Leaves(M, h, d)
  {
    var C := M[h].children;
    ForestParts(M, left, right, d - 1);
    HandlesOfAppend(M, left, right, d - 1);
    HandlesOfBounded(M, C, d - 1);
    AgreeAfterSplit(M, h, l, r, HandlesOf(M, C, d - 1));
    FrameForest(M, M3, left, d - 1);
    FrameForest(M, M3, right, d - 1);
    AbsOfAppend(M, left, right, d - 1);
    LeavesOfAppend(M, left, right, d - 1);
  }

  /** InternalNode.split on the arena: the node keeps the left half and a new
      record appended at the end takes the right half; together they hold the
      same subtrees, values and leaves as the node before. */
  lemma SplitInArena<V>(M: seq<NodeRec<V>>, h: nat, d: nat, order: nat, ks: seq<int>, cs: seq<nat>,
                        M3: seq<NodeRec<V>>)
    requires order >= 2 && IsTree(M, h, d) && M[h] == InternalRec(ks, cs) && |ks| >= order
    requires M3 == M[h := LeftRec(ks, cs, order)] + [RightRec(ks, cs, order)]
    ensures IsForest(M3, [h, |M|], d) && Keeps(M, M3, {h})
    ensures HandlesOf(M3, [h, |M|], d) == Handles(M, h, d) + {|M|}
    ensures AbsOf(M3, [h, |M|], d) == Returned(SplitNode(ks, AbsOf(M, cs, d - 1), order))
    ensures SplitNode(ks, AbsOf(M, cs, d - 1), order).1.value.key == SplitInternal(ks, cs, order).promoted
    ensures LeavesOf(M3, [h, |M|], d) == Leaves(M, h, d)
  {
    var H := SplitInternal(ks, cs, order);
    SplitHalves(M, h, d, order, ks, cs, M3);
    ForestPair(M3, h, |M|, d);
    AbsOfSlices(M, cs, InternalMid(order) + 1, d - 1);
  }

  /** The two records InternalNode.split leaves are trees over the two
      halves of the old children. */
  lemma SplitHalves<V>(M: seq<NodeRec<V>>, h: nat, d: nat, order: nat, ks: seq<int>, cs: seq<nat>,
                       M3: seq<NodeRec<V>>)
    requires order >= 2 && IsTree(M, h, d) && M[h] == InternalRec(ks, cs) && |ks| >= order
    requires M3 == M[h := LeftRec(ks, cs, order)] + [RightRec(ks, cs, order)]
    ensures var H := SplitInternal(ks, cs, order);
      IsTree(M3, h, d) && IsTree(M3, |M|, d) &&
      Handles(M3, h, d) == {h} + HandlesOf(M, H.left, d - 1) &&
      Handles(M3, |M|, d) == {|M|} + HandlesOf(M, H.right, d - 1) &&
      HandlesOf(M, H.left, d - 1) !! HandlesOf(M, H.right, d - 1) &&
      Handles(M, h, d) == {h} + HandlesOf(M, H.left, d - 1) + HandlesOf(M, H.right, d - 1) &&
      Below(HandlesOf(M, H.left, d - 1), |M|) && Below(HandlesOf(M, H.right, d - 1), |M|) &&
      h !in HandlesOf(M, H.right, d - 1) &&
      Abs(M3, h, d) == Internal(H.leftKeys, AbsOf(M, cs, d - 1)[..InternalMid(order) + 1]) &&
      Abs(M3, |M|, d) == Internal(H.rightKeys, AbsOf(M, cs, d - 1)[InternalMid(order) + 1..]) &&
      Leaves(M3, h, d) + Leaves(M3, |M|, d) == Leaves(M, h, d)
  {
    var H := SplitInternal(ks, cs, order);
    var n := |M|;
    SplitChildren(M, M3, h, d, H.left, H.right, LeftRec(ks, cs, order), RightRec(ks, cs, order));
    AbsOfSlices(M3, cs, InternalMid(order) + 1, d - 1);
    AbsOfSlices(M, cs, InternalMid(order) + 1, d - 1);
    InternalTree(M3, h, H.leftKeys, H.left, d);
    InternalTree(M3, n, H.rightKeys, H.right, d);
  }

  /** An internal record over a forest that does not contain it is a tree
      one level up, read back from the forest. */
  lemma InternalTree<V>(nodes: seq<NodeRec<V>>, x: nat, ks: seq<int>, cs: seq<nat>, d: nat)
    requires x < |nodes| && nodes[x] == InternalRec(ks, cs) && |cs| == |ks| + 1 && d > 0
    requires IsForest(nodes, cs, d - 1) && x !in HandlesOf(nodes, cs, d - 1)
    ensures IsTree(nodes, x, d)
    ensures Handles(nodes, x, d) == {x} + HandlesOf(nodes, cs, d - 1)
    ensures Abs(nodes, x, d) == Internal(ks, AbsOf(nodes, cs, d - 1))
    ensures Leaves(nodes, x, d) == LeavesOf(nodes, cs, d - 1)
  {
  }

  // ---------------------------------------------------------------------------
  // InternalNode.insert, end to end

  /** What InternalNode.insert answers in the value model once the child
      that `key` routes to answered `rc`. */
  ghost function Reassembled<V>(N: seq<NodeRec<V>>, h: nat, d: nat, key: int,
                                rc: (Node<V>, Option<Split<Node<V>>>), order: nat): (Node<V>, Option<Split<Node<V>>>)
    requires order >= 2 && IsTree(N, h, d) && N[h].InternalRec?
  {
    var ks, cs := N[h].keys, N[h].children;
    var i := Route(ks, key);
    Absorb(ks, AbsOf(N, cs, d - 1)[i := rc.0], i, rc.1, order)
  }

  /** InsertNode on an internal node, one step unfolded. */
  lemma InsertNodeInternal<V>(ks: seq<int>, abs: seq<Node<V>>, key: int, value: V, order: nat)
    requires order >= 2 && Shaped(Internal(ks, abs))
    ensures var i := Route(ks, key);
      var rc := InsertNode(abs[i], key, value, order);
      InsertNode(Internal(ks, abs), key, value, order) == Absorb(ks, abs[i := rc.0], i, rc.1, order)
  {
  }

  /** InsertNode on the subtree at `h` is Reassembled from InsertNode on the
      child that `key` routes to. */
  lemma InsertNodeReassembled<V>(N: seq<NodeRec<V>>, h: nat, d: nat, key: int, value: V, order: nat)
    requires order >= 2 && IsTree(N, h, d) && N[h].InternalRec?
    ensures Shaped(Abs(N, h, d)) && Shaped(Abs(N, N[h].children[Route(N[h].keys, key)], d - 1))
    ensures var c := N[h].children[Route(N[h].keys, key)];
      InsertNode(Abs(N, h, d), key, value, order) ==
      Reassembled(N, h, d, key, InsertNode(Abs(N, c, d - 1), key, value, order), order)
  {
    var ks, cs := N[h].keys, N[h].children;
    var i := Route(ks, key);
    AbsShaped(N, h, d);
    ForestAt(N, cs, d - 1, i);
    AbsShaped(N, cs[i], d - 1);
    InsertNodeInternal(ks, AbsOf(N, cs, d - 1), key, value, order);
  }

  /** Rewriting inside child `i` of `h` leaves the record of `h` alone. */
  lemma ParentKept<V>(N: seq<NodeRec<V>>, N1: seq<NodeRec<V>>, h: nat, d: nat, i: nat)
    requires IsTree(N, h, d) && N[h].InternalRec? && i < |N[h].children|
    requires Keeps(N, N1, Handles(N, N[h].children[i], d - 1))
    ensures h < |N1| && N1[h] == N[h]
  {
    ForestAt(N, N[h].children, d - 1, i);
  }

  /** A subtree rebuilt without a split answers with itself. */
  lemma RebuiltInserted<V>(N: seq<NodeRec<V>>, M: seq<NodeRec<V>>, h: nat, d: nat, tail: Option<nat>,
                           r: (Node<V>, Option<Split<Node<V>>>))
    requires Rebuilt(N, M, h, d, tail) && r.1.None? && Abs(M, h, d) == r.0
    ensures Inserted(N, M, h, d, tail, r, None)
  {
    ForestSingle(M, h, d);
  }

  /** The arena after the child that `key` routes to answered `res`, and `h`
      was rewritten over the trees it handed back, with keys `ks'`: the
      subtree at `h` is rebuilt, with the child's values in place of child
      `i`'s. */
  lemma Absorbed<V>(N: seq<NodeRec<V>>, N1: seq<NodeRec<V>>, h: nat, d: nat, tail: Option<nat>, key: int,
                    rc: (Node<V>, Option<Split<Node<V>>>), res: Option<(int, nat)>, ks': seq<int>, ncs: seq<nat>)
    requires IsTree(N, h, d) && N[h].InternalRec? && Linked(N, Leaves(N, h, d), tail)
    requires var cs := N[h].children; var i := Route(N[h].keys, key);
      Inserted(N, N1, cs[i], d - 1, ChildTail(N, cs, i, d - 1, tail), rc, res) &&
      |cs| + |Answered(cs[i], res)| == |ks'| + 2 &&
      ncs == cs[..i] + Answered(cs[i], res) + cs[i + 1..]
    ensures var cs := N[h].children; var i := Route(N[h].keys, key);
      var M := N1[h := InternalRec(ks', ncs)];
      var abs := AbsOf(N, cs, d - 1);
      Rebuilt(N, M, h, d, tail) && Abs(M, h, d) == Internal(ks', abs[..i] + Returned(rc) + abs[i + 1..])
  {
    var cs := N[h].children;
    var i := Route(N[h].keys, key);
    var mid := Answered(cs[i], res);
    GraftTrees(N, N1, cs, i, d - 1, mid);
    GraftLeaves(N, N1, cs, i, d - 1, tail, mid);
    Regraft(N, N1, h, d, tail, i, ks', ncs);
  }

  /** InternalNode.insert when the child did not split: `h` itself is not
      rewritten. */
  lemma InternalUnchanged<V>(N: seq<NodeRec<V>>, N1: seq<NodeRec<V>>, h: nat, d: nat, tail: Option<nat>,
                             key: int, rc: (Node<V>, Option<Split<Node<V>>>), order: nat)
    requires order >= 2 && IsTree(N, h, d) && N[h].InternalRec? && Linked(N, Leaves(N, h, d), tail)
    requires var cs := N[h].children; var i := Route(N[h].keys, key);
      Inserted(N, N1, cs[i], d - 1, ChildTail(N, cs, i, d - 1, tail), rc, None)
    ensures Inserted(N, N1, h, d, tail, Reassembled(N, h, d, key, rc, order), None)
  {
    var ks, cs := N[h].keys, N[h].children;
    var i := Route(ks, key);
    var abs := AbsOf(N, cs, d - 1);
    UpdateSelf(cs, i);
    Absorbed(N, N1, h, d, tail, key, rc, None, ks, cs);
    ParentKept(N, N1, h, d, i);
    UpdateSelf(N1, h);
    UpdateAsSplice(abs, i, rc.0);
    RebuiltInserted(N, N1, h, d, tail, Reassembled(N, h, d, key, rc, order));
  }

  /** InternalNode.insert after the child split: the promoted key and the
      new child are spliced in at `i` and `i + 1`, and the subtree at `h`
      is rebuilt with the value the model has before it decides whether
      to split. */
  lemma ChildSplitAbsorbed<V>(N: seq<NodeRec<V>>, N1: seq<NodeRec<V>>, h: nat, d: nat, tail: Option<nat>,
                              key: int, rc: (Node<V>, Option<Split<Node<V>>>), k: int, n: nat)
    requires IsTree(N, h, d) && N[h].InternalRec? && Linked(N, Leaves(N, h, d), tail)
    requires var cs := N[h].children; var i := Route(N[h].keys, key);
      Inserted(N, N1, cs[i], d - 1, ChildTail(N, cs, i, d - 1, tail), rc, Some((k, n)))
    ensures var ks, cs := N[h].keys, N[h].children; var i := Route(ks, key);
      var M := N1[h := InternalRec(InsertAt(ks, i, k), InsertAt(cs, i + 1, n))];
      var abs := AbsOf(N, cs, d - 1);
      rc.1.Some? && rc.1.value.key == k && Rebuilt(N, M, h, d, tail) &&
      Abs(M, h, d) == Internal(InsertAt(ks, i, k), InsertAt(abs[i := rc.0], i + 1, rc.1.value.newNode))
  {
    var ks, cs := N[h].keys, N[h].children;
    var i := Route(ks, key);
    var abs := AbsOf(N, cs, d - 1);
    UpdateThenInsert(cs, i, cs[i], n);
    UpdateSelf(cs, i);
    Absorbed(N, N1, h, d, tail, key, rc, Some((k, n)), InsertAt(ks, i, k), InsertAt(cs, i + 1, n));
    UpdateThenInsert(abs, i, rc.0, rc.1.value.newNode);
  }

  /** InternalNode.insert when the child split and the node has room for
      the promoted key. */
  lemma InternalGrew<V>(N: seq<NodeRec<V>>, N1: seq<NodeRec<V>>, h: nat, d: nat, tail: Option<nat>,
                        key: int, rc: (Node<V>, Option<Split<Node<V>>>), order: nat, k: int, n: nat)
    requires order >= 2 && IsTree(N, h, d) && N[h].InternalRec? && Linked(N, Leaves(N, h, d), tail)
    requires var cs := N[h].children; var i := Route(N[h].keys, key);
      Inserted(N, N1, cs[i], d - 1, ChildTail(N, cs, i, d - 1, tail), rc, Some((k, n)))
    requires |N[h].keys| + 1 < order
    ensures var ks, cs := N[h].keys, N[h].children; var i := Route(ks, key);
      Inserted(N, N1[h := InternalRec(InsertAt(ks, i, k), InsertAt(cs, i + 1, n))], h, d, tail,
               Reassembled(N, h, d, key, rc, order), None)
  {
    var ks, cs := N[h].keys, N[h].children;
    var i := Route(ks, key);
    var M := N1[h := InternalRec(InsertAt(ks, i, k), InsertAt(cs, i + 1, n))];
    ChildSplitAbsorbed(N, N1, h, d, tail, key, rc, k, n);
    RebuiltInserted(N, M, h, d, tail, Reassembled(N, h, d, key, rc, order));
  }

  /** Keeping all but `s` and then all but `t`, where `t` lies inside `s`. */
  lemma KeepsThen<V>(N: seq<NodeRec<V>>, M: seq<NodeRec<V>>, M3: seq<NodeRec<V>>, s: set<nat>, t: set<nat>)
    requires Keeps(N, M, s) && Keeps(M, M3, t) && t <= s
    ensures Keeps(N, M3, s)
  {
  }

  /** Rewriting an internal record and appending one leaves the chain of
      the leaves below it intact. */
  lemma ChainSurvivesSplit<V>(M: seq<NodeRec<V>>, M3: seq<NodeRec<V>>, h: nat, d: nat, tail: Option<nat>)
    requires IsTree(M, h, d) && M[h].InternalRec? && Keeps(M, M3, {h})
    requires Linked(M, Leaves(M, h, d), tail)
    ensures Linked(M3, Leaves(M, h, d), tail)
  {
    LeavesInTree(M, h, d);
    LinkedFrame(M, M3, Leaves(M, h, d), tail);
  }

  /** A rebuilt node that holds `order` keys splits: it keeps the left half,
      a record appended at `|M|` takes the right half, and the middle key
      goes up, as InternalNode.split does. */
  lemma SplitRebuilt<V>(N: seq<NodeRec<V>>, M: seq<NodeRec<V>>, h: nat, d: nat, tail: Option<nat>, order: nat,
                        ks': seq<int>, cs': seq<nat>, M3: seq<NodeRec<V>>,
                        r: (Node<V>, Option<Split<Node<V>>>), res: Option<(int, nat)>)
    requires order >= 2 && Rebuilt(N, M, h, d, tail) && M[h] == InternalRec(ks', cs') && |ks'| >= order
    requires M3 == M[h := LeftRec(ks', cs', order)] + [RightRec(ks', cs', order)]
    requires r == SplitNode(ks', AbsOf(M, cs', d - 1), order)
    requires res == Some((SplitInternal(ks', cs', order).promoted, |M|))
    ensures Inserted(N, M3, h, d, tail, r, res)
  {
    SplitInArena(M, h, d, order, ks', cs', M3);
    HandlesBounded(N, h, d);
    KeepsThen(N, M, M3, Handles(N, h, d), {h});
    ChainSurvivesSplit(M, M3, h, d, tail);
  }

  /** Absorbing a child's split into a node that then holds `order` keys
      gives the split answer over the grown children. */
  lemma AbsorbSplits<V>(ks: seq<int>, abs: seq<Node<V>>, i: nat, rc: (Node<V>, Option<Split<Node<V>>>), order: nat,
                        k: int, absM: seq<Node<V>>)
    requires order >= 2 && |abs| == |ks| + 1 && i < |abs| && |ks| + 1 >= order
    requires rc.1.Some? && rc.1.value.key == k
    requires absM == InsertAt(abs[i := rc.0], i + 1, rc.1.value.newNode)
    ensures Absorb(ks, abs[i := rc.0], i, rc.1, order) == SplitNode(InsertAt(ks, i, k), absM, order)
  {
  }

  /** InternalNode.insert when the child split and the node, now holding
      `order` keys, splits in turn. */
  lemma InternalSplitCase<V>(N: seq<NodeRec<V>>, N1: seq<NodeRec<V>>, h: nat, d: nat, tail: Option<nat>,
                             key: int, rc: (Node<V>, Option<Split<Node<V>>>), order: nat, k: int, n: nat,
                             ks': seq<int>, cs': seq<nat>, M: seq<NodeRec<V>>, M3: seq<NodeRec<V>>,
                             res: Option<(int, nat)>)
    requires order >= 2 && IsTree(N, h, d) && N[h].InternalRec? && Linked(N, Leaves(N, h, d), tail)
    requires var cs := N[h].children; var i := Route(N[h].keys, key);
      Inserted(N, N1, cs[i], d - 1, ChildTail(N, cs, i, d - 1, tail), rc, Some((k, n)))
    requires |N[h].keys| + 1 >= order
    requires ks' == InsertAt(N[h].keys, Route(N[h].keys, key), k)
    requires cs' == InsertAt(N[h].children, Route(N[h].keys, key) + 1, n)
    requires M == N1[h := InternalRec(ks', cs')]
    requires M3 == M[h := LeftRec(ks', cs', order)] + [RightRec(ks', cs', order)]
    requires res == Some((SplitInternal(ks', cs', order).promoted, |M|))
    ensures Inserted(N, M3, h, d, tail, Reassembled(N, h, d, key, rc, order), res)
  {
    var ks, cs := N[h].keys, N[h].children;
    var i := Route(ks, key);
    var abs := AbsOf(N, cs, d - 1);
    ChildSplitAbsorbed(N, N1, h, d, tail, key, rc, k, n);
    assert M[h] == InternalRec(ks', cs');
    var absM := AbsOf(M, cs', d - 1);
    assert absM == InsertAt(abs[i := rc.0], i + 1, rc.1.value.newNode);
    AbsorbSplits(ks, abs, i, rc, order, k, absM);
    SplitRebuilt(N, M, h, d, tail, order, ks', cs', M3, SplitNode(ks', absM, order), res);
  }

  // ---------------------------------------------------------------------------
  // InternalNode.insert, stated against InsertNode

  /** Inserting into the child that `key` routes to, below the internal node
      at `h`, took the arena from `N` to `N1`, answered `res`, and agrees with
      InsertNode on that child. */
  ghost predicate ChildInserted<V>(N: seq<NodeRec<V>>, N1: seq<NodeRec<V>>, h: nat, d: nat, tail: Option<nat>,
                                   key: int, value: V, order: nat, res: Option<(int, nat)>)
  {
    order >= 2 && IsTree(N, h, d) && N[h].InternalRec? &&
    var ks, cs := N[h].keys, N[h].children;
    var i := Route(ks, key);
    Shaped(Abs(N, cs[i], d - 1)) &&
    Inserted(N, N1, cs[i], d - 1, ChildTail(N, cs, i, d - 1, tail), InsertNode(Abs(N, cs[i], d - 1), key, value, order), res)
  }

  /** The child neither split: the node's record is as before, and the
      subtree agrees with InsertNode. */
  lemma UnchangedDone<V>(N: seq<NodeRec<V>>, N1: seq<NodeRec<V>>, h: nat, d: nat, tail: Option<nat>,
                         key: int, value: V, order: nat)
    requires Linked(N, Leaves(N, h, d), tail) && ChildInserted(N, N1, h, d, tail, key, value, order, None)
    ensures Shaped(Abs(N, h, d))
    ensures Inserted(N, N1, h, d, tail, InsertNode(Abs(N, h, d), key, value, order), None)
  {
    InsertNodeReassembled(N, h, d, key, value, order);
    var c := N[h].children[Route(N[h].keys, key)];
    InternalUnchanged(N, N1, h, d, tail, key, InsertNode(Abs(N, c, d - 1), key, value, order), order);
  }

  /** The child split and the node, one key longer, still has fewer than
      `order` keys. */
  lemma GrewDone<V>(N: seq<NodeRec<V>>, N1: seq<NodeRec<V>>, h: nat, d: nat, tail: Option<nat>,
                    key: int, value: V, order: nat, k: int, n: nat,
                    ks': seq<int>, cs': seq<nat>, M: seq<NodeRec<V>>)
    requires Linked(N, Leaves(N, h, d), tail) && ChildInserted(N, N1, h, d, tail, key, value, order, Some((k, n)))
    requires |N[h].keys| + 1 < order
    requires ks' == InsertAt(N[h].keys, Route(N[h].keys, key), k)
    requires cs' == InsertAt(N[h].children, Route(N[h].keys, key) + 1, n)
    requires M == N1[h := InternalRec(ks', cs')]
    ensures Shaped(Abs(N, h, d))
    ensures Inserted(N, M, h, d, tail, InsertNode(Abs(N, h, d), key, value, order), None)
  {
    InsertNodeReassembled(N, h, d, key, value, order);
    var c := N[h].children[Route(N[h].keys, key)];
    InternalGrew(N, N1, h, d, tail, key, InsertNode(Abs(N, c, d - 1), key, value, order), order, k, n);
  }

  /** The child split and the node reached `order` keys, so it split too. */
  lemma SplitDone<V>(N: seq<NodeRec<V>>, N1: seq<NodeRec<V>>, h: nat, d: nat, tail: Option<nat>,
                     key: int, value: V, order: nat, k: int, n: nat,
                     ks': seq<int>, cs': seq<nat>, M3: seq<NodeRec<V>>, res: Option<(int, nat)>)
    requires Linked(N, Leaves(N, h, d), tail) && ChildInserted(N, N1, h, d, tail, key, value, order, Some((k, n)))
    requires |N[h].keys| + 1 >= order
    requires ks' == InsertAt(N[h].keys, Route(N[h].keys, key), k)
    requires cs' == InsertAt(N[h].children, Route(N[h].keys, key) + 1, n)
    requires M3 == N1[h := InternalRec(ks', cs')][h := LeftRec(ks', cs', order)] + [RightRec(ks', cs', order)]
    requires res == Some((SplitInternal(ks', cs', order).promoted, |N1|))
    ensures Shaped(Abs(N, h, d))
    ensures Inserted(N, M3, h, d, tail, InsertNode(Abs(N, h, d), key, value, order), res)
  {
    InsertNodeReassembled(N, h, d, key, value, order);
    var c := N[h].children[Route(N[h].keys, key)];
    InternalSplitCase(N, N1, h, d, tail, key, InsertNode(Abs(N, c, d - 1), key, value, order), order, k, n,
                      ks', cs', N1[h := InternalRec(ks', cs')], M3, res);
  }

  // ---------------------------------------------------------------------------
  // BPlusTree.insert: the root

  /** BPlusTree.insert as a whole: whether or not the root split, the arena
      holds at `h2`, `d2` levels up from the leaves, a well-formed tree
      whose value is InsertTree of the old one and whose leaves end the
      chain. */
  lemma RootDone<V>(N: seq<NodeRec<V>>, M: seq<NodeRec<V>>, h: nat, d: nat, key: int, value: V, order: nat,
                    res: Option<(int, nat)>, M2: seq<NodeRec<V>>, h2: nat, d2: nat)
    requires order >= 2 && IsTree(N, h, d) && WellFormed(Abs(N, h, d), order, d)
    requires Shaped(Abs(N, h, d)) && Inserted(N, M, h, d, None, InsertNode(Abs(N, h, d), key, value, order), res)
    requires res.None? ==> M2 == M && h2 == h && d2 == d
    requires res.Some? ==> M2 == M + [InternalRec([res.value.0], [h, res.value.1])] && h2 == |M| && d2 == d + 1
    ensures IsTree(M2, h2, d2) && Abs(M2, h2, d2) == InsertTree(Abs(N, h, d), key, value, order)
    ensures WellFormed(Abs(M2, h2, d2), order, d2) && Linked(M2, Leaves(M2, h2, d2), None)
    ensures d2 == if RootSplits(Abs(N, h, d), key, value, order) then d + 1 else d
  {
    var t := Abs(N, h, d);
    NodeLemmas.InsertTreeWellFormed(t, key, value, order, d);
    var r := InsertNode(t, key, value, order);
    if res.Some? {
      GrowRoot(N, M, h, d, r, res.value.0, res.value.1);
    } else {
      KeepRoot(N, M, h, d, r);
    }
  }

  /** The root did not split: it is still the root of the whole tree, whose
      value is the model's answer and whose leaves end the chain. */
  lemma KeepRoot<V>(N: seq<NodeRec<V>>, M: seq<NodeRec<V>>, h: nat, d: nat, r: (Node<V>, Option<Split<Node<V>>>))
    requires Inserted(N, M, h, d, None, r, None)
    ensures IsTree(M, h, d) && Abs(M, h, d) == r.0 && Linked(M, Leaves(M, h, d), None)
    ensures |Leaves(M, h, d)| > 0 && Leaves(M, h, d)[0] == Leaves(N, h, d)[0]
  {
    ForestSingle(M, h, d);
  }

  /** The root split: a new internal record with keys `[k]` and children
      `[h, n]`, appended at `|M|`, is the root of a tree one level taller. */
  lemma GrowRoot<V>(N: seq<NodeRec<V>>, M: seq<NodeRec<V>>, h: nat, d: nat, r: (Node<V>, Option<Split<Node<V>>>),
                    k: int, n: nat)
    requires Inserted(N, M, h, d, None, r, Some((k, n)))
    ensures var M' := M + [InternalRec([k], [h, n])];
      r.1.Some? && k == r.1.value.key &&
      IsTree(M', |M|, d + 1) && Abs(M', |M|, d + 1) == Internal([k], [r.0, r.1.value.newNode]) &&
      Linked(M', Leaves(M', |M|, d + 1), None) &&
      |Leaves(M', |M|, d + 1)| > 0 && Leaves(M', |M|, d + 1)[0] == Leaves(N, h, d)[0]
  {
    var M' := M + [InternalRec([k], [h, n])];
    ForestPair(M, h, n, d);
    HandlesOfBounded(M, [h, n], d);
    AgreeAfterAppend(M, [InternalRec([k], [h, n])], HandlesOf(M, [h, n], d));
    FrameForest(M, M', [h, n], d);
    LeavesOfInForest(M, [h, n], d);
    LinkedFrame(M, M', LeavesOf(M, [h, n], d), None);
    assert M'[|M|] == InternalRec([k], [h, n]);
  }

}
