/** Concrete runs of the engine at order 3, the default of
    lib/bplus-tree.js:2, worked out on the value model and on the class. */
module Scenarios {

  import opened Wrappers
  import opened Seqs
  import opened Routing
  import opened NodeModel
  import opened Engine
  import ContentLemmas

  /** The tree of order 3 after inserting 5, 15 and 25. */
  function Three(): Node<string>
  {
    Internal([25], [Leaf([5, 15], ["a", "b"]), Leaf([25], ["c"])])
  }

  /** The first key goes into the empty root leaf. */
  lemma FirstInsert()
    ensures InsertTree(Leaf([], []), 5, "a", 3) == Leaf([5], ["a"])
  {
    RouteIsFirstStop([], 5, 0);
    assert InsertAt([], 0, 5) == [5];
    assert InsertAt([], 0, "a") == ["a"];
  }

  /** The second key is appended after the first. */
  lemma SecondInsert()
    ensures InsertTree(Leaf([5], ["a"]), 15, "b", 3) == Leaf([5, 15], ["a", "b"])
  {
    RouteIsFirstStop([5], 15, 1);
    assert InsertAt([5], 1, 15) == [5, 15];
    assert InsertAt(["a"], 1, "b") == ["a", "b"];
  }

  /** The third key fills the leaf to `order` keys: it splits at index
      ceil(3 / 2) = 2 and the right leaf's first key, 25, is promoted into a
      new root. */
  lemma ThirdInsert()
    ensures InsertTree(Leaf([5, 15], ["a", "b"]), 25, "c", 3) == Three()
  {
    RouteIsFirstStop([5, 15], 25, 2);
    var ks, vs := [5, 15, 25], ["a", "b", "c"];
    assert InsertAt([5, 15], 2, 25) == ks;
    assert InsertAt(["a", "b"], 2, "c") == vs;
    assert ks[..2] == [5, 15] && ks[2..] == [25];
    assert vs[..2] == ["a", "b"] && vs[2..] == ["c"];
    assert SplitLeaf(ks, vs, 3) == Halves([5, 15], ["a", "b"], 25, [25], ["c"]);
  }

  /** `insert(5)`, `insert(15)`, `insert(25)` from the empty tree. */
  lemma {:induction false} ThreeInserts()
    ensures InsertAll(Leaf([], []), [Entry(5, "a"), Entry(15, "b"), Entry(25, "c")], 3) == Three()
  {
    var data := [Entry(5, "a"), Entry(15, "b"), Entry(25, "c")];
    FirstInsert();
    SecondInsert();
    ThirdInsert();
    assert data[1..] == [Entry(15, "b"), Entry(25, "c")];
    assert data[1..][1..] == [Entry(25, "c")];
    assert data[1..][1..][1..] == [];
    assert InsertAll(Leaf([], []), data, 3) == InsertAll(Leaf([5], ["a"]), data[1..], 3);
    assert InsertAll(Leaf([5], ["a"]), data[1..], 3) == InsertAll(Leaf([5, 15], ["a", "b"]), data[1..][1..], 3);
    assert InsertAll(Leaf([5, 15], ["a", "b"]), data[1..][1..], 3) == InsertAll(Three(), [], 3);
  }

  /** The records of a leaf with one and with two keys. */
  lemma PairsOne<V>(k: int, v: V)
    ensures Pairs([k], [v]) == [Entry(k, v)]
  {
  }

  lemma PairsTwo<V>(k0: int, k1: int, v0: V, v1: V)
    ensures Pairs([k0, k1], [v0, v1]) == [Entry(k0, v0), Entry(k1, v1)]
  {
  }

  /** The entries of a node with two children are the left child's, then
      the right child's. */
  lemma EntriesTwo<V>(ks: seq<int>, l: Node<V>, r: Node<V>)
    requires |ks| == 1 && Shaped(l) && Shaped(r)
    ensures Shaped(Internal(ks, [l, r]))
    ensures Entries(Internal(ks, [l, r])) == Entries(l) + Entries(r)
  {
    ContentLemmas.EntriesOfPair(l, r);
    ContentLemmas.EntriesInternal(ks, [l, r]);
  }

  /** The same for three children. */
  lemma EntriesThree<V>(ks: seq<int>, a: Node<V>, b: Node<V>, c: Node<V>)
    requires |ks| == 2 && Shaped(a) && Shaped(b) && Shaped(c)
    ensures Shaped(Internal(ks, [a, b, c]))
    ensures Entries(Internal(ks, [a, b, c])) == Entries(a) + Entries(b) + Entries(c)
  {
    ContentLemmas.EntriesOfPair(a, b);
    ContentLemmas.EntriesOfSingle(c);
    ContentLemmas.EntriesOfAppend([a, b], [c]);
    assert [a, b] + [c] == [a, b, c];
    ContentLemmas.EntriesInternal(ks, [a, b, c]);
  }

  /** The promoted key 25 routes left, to the leaf [5, 15], so search misses
      it although the scan lists it. */
  lemma PromotedKeyMissed()
    ensures Shaped(Three()) && Find(Three(), 25) == None
    ensures Entries(Three()) == [Entry(5, "a"), Entry(15, "b"), Entry(25, "c")]
  {
    RouteIsFirstStop([25], 25, 0);
    assert 25 !in [5, 15];
    PairsTwo(5, 15, "a", "b");
    PairsOne(25, "c");
    EntriesTwo([25], Leaf([5, 15], ["a", "b"]), Leaf([25], ["c"]));
  }

  /** Inserting 25 again does not overwrite: it splits the left leaf a
      second time, the root's separators become [25, 25], and the scan
      lists 25 twice. */
  lemma ReinsertDuplicates()
    ensures Shaped(Three())
    ensures InsertTree(Three(), 25, "e", 3) ==
            Internal([25, 25], [Leaf([5, 15], ["a", "b"]), Leaf([25], ["e"]), Leaf([25], ["c"])])
    ensures Entries(InsertTree(Three(), 25, "e", 3)) ==
            [Entry(5, "a"), Entry(15, "b"), Entry(25, "e"), Entry(25, "c")]
  {
    var left := Leaf([5, 15], ["a", "b"]);
    RouteIsFirstStop([25], 25, 0);
    ThirdLeafSplit();
    assert InsertAt([25], 0, 25) == [25, 25];
    var cs := [left, Leaf([25], ["c"])];
    assert InsertAt(cs, 1, Leaf([25], ["e"])) == [left, Leaf([25], ["e"]), Leaf([25], ["c"])];
    assert InsertNode(left, 25, "e", 3) == (left, Some(Split(25, Leaf([25], ["e"]))));
    assert cs[0 := left] == cs;
    assert Absorb([25], cs, 0, Some(Split(25, Leaf([25], ["e"]))), 3) ==
           (Internal([25, 25], [left, Leaf([25], ["e"]), Leaf([25], ["c"])]), None);
    assert InsertNode(Three(), 25, "e", 3) ==
           (Internal([25, 25], [left, Leaf([25], ["e"]), Leaf([25], ["c"])]), None);
    PairsTwo(5, 15, "a", "b");
    PairsOne(25, "e");
    PairsOne(25, "c");
    EntriesThree([25, 25], left, Leaf([25], ["e"]), Leaf([25], ["c"]));
  }

  /** The left leaf [5, 15] takes 25 again and splits as on the third
      insert. */
  lemma ThirdLeafSplit()
    ensures LeafInsert([5, 15], ["a", "b"], 25, "e", 3) ==
            (Leaf([5, 15], ["a", "b"]), Some(Split(25, Leaf([25], ["e"]))))
  {
    RouteIsFirstStop([5, 15], 25, 2);
    var ks, vs := [5, 15, 25], ["a", "b", "e"];
    assert InsertAt([5, 15], 2, 25) == ks;
    assert InsertAt(["a", "b"], 2, "e") == vs;
    assert ks[..2] == [5, 15] && ks[2..] == [25];
    assert vs[..2] == ["a", "b"] && vs[2..] == ["e"];
  }

  /** A fourth key, 35, joins the right leaf, and the scan lists all four
      records in key order. */
  lemma FourthInsertScan()
    ensures Shaped(Three())
    ensures InsertTree(Three(), 35, "d", 3) ==
            Internal([25], [Leaf([5, 15], ["a", "b"]), Leaf([25, 35], ["c", "d"])])
    ensures Entries(InsertTree(Three(), 35, "d", 3)) ==
            [Entry(5, "a"), Entry(15, "b"), Entry(25, "c"), Entry(35, "d")]
  {
    var left := Leaf([5, 15], ["a", "b"]);
    RouteIsFirstStop([25], 35, 1);
    assert InsertAt([25], 1, 35) == [25, 35];
    assert InsertAt(["c"], 1, "d") == ["c", "d"];
    assert LeafInsert([25], ["c"], 35, "d", 3) == (Leaf([25, 35], ["c", "d"]), None);
    var cs := [left, Leaf([25], ["c"])];
    assert cs[1 := Leaf([25, 35], ["c", "d"])] == [left, Leaf([25, 35], ["c", "d"])];
    PairsTwo(5, 15, "a", "b");
    PairsTwo(25, 35, "c", "d");
    EntriesTwo([25], left, Leaf([25, 35], ["c", "d"]));
  }

  /** The same run on the engine object: after inserting 5, 15 and 25 into
      a tree of order 3, `search(25)` returns nothing and `getAll` still
      lists the record for 25. */
  method EngineMissesPromotedKey() returns (found: Option<string>, all: seq<Entry<string>>)
    ensures found == None
    ensures all == [Entry(5, "a"), Entry(15, "b"), Entry(25, "c")]
  {
    var tree := new BPlusTree<string>(3);
    tree.Insert(5, "a");
    tree.Insert(15, "b");
    tree.Insert(25, "c");
    ThreeInserts();
    PromotedKeyMissed();
    var data := [Entry(5, "a"), Entry(15, "b"), Entry(25, "c")];
    assert tree.Tree() == InsertAll(Leaf([], []), data, 3) by {
      assert data[1..][1..][1..] == [];
    }
    found := tree.Search(25);
    all := tree.GetAll();
  }

}
