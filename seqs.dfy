/** Sequence operations the engine performs on its `keys`, `values` and
    `children` arrays, and the order predicates used to state its invariants. */
module Seqs {

  /** `s.splice(i, 0, x)`: `x` is placed at index `i` and everything from `i`
      on moves one place to the right. */
  function InsertAt<T>(s: seq<T>, i: nat, x: T): (r: seq<T>)
    requires i <= |s|
    ensures |r| == |s| + 1
    ensures r[i] == x
    ensures forall j :: 0 <= j < i ==> r[j] == s[j]
    ensures forall j :: i < j < |r| ==> r[j] == s[j - 1]
  {
    s[..i] + [x] + s[i..]
  }

  /** Concatenation of a sequence of sequences, in order. */
  function Flatten<T>(ss: seq<seq<T>>): seq<T>
  {
    if ss == [] then [] else ss[0] + Flatten(ss[1..])
  }

  /** Updating position `i` is cutting it out and putting `x` in its place. */
  lemma UpdateAsSplice<T>(s: seq<T>, i: nat, x: T)
    requires i < |s|
    ensures s[i := x] == s[..i] + [x] + s[i + 1..]
  {
  }

  /** Writing back the element already at `i` changes nothing. */
  lemma UpdateSelf<T>(s: seq<T>, i: nat)
    requires i < |s|
    ensures s[i := s[i]] == s
    ensures s[..i] + [s[i]] + s[i + 1..] == s
  {
  }

  /** A second write to the same position overrides the first. */
  lemma UpdateTwice<T>(s: seq<T>, i: nat, x: T, y: T)
    requires i < |s|
    ensures s[i := x][i := y] == s[i := y]
  {
  }

  /** Updating position `i` and then inserting `y` after it. */
  lemma UpdateThenInsert<T>(s: seq<T>, i: nat, x: T, y: T)
    requires i < |s|
    ensures InsertAt(s[i := x], i + 1, y) == s[..i] + [x, y] + s[i + 1..]
  {
  }

  lemma {:induction false} FlattenAppend<T>(a: seq<seq<T>>, b: seq<seq<T>>)
    ensures Flatten(a + b) == Flatten(a) + Flatten(b)
  {
    if a == [] {
      assert a + b == b;
    } else {
      assert (a + b)[1..] == a[1..] + b;
      FlattenAppend(a[1..], b);
    }
  }

  lemma FlattenSingle<T>(s: seq<T>)
    ensures Flatten([s]) == s
  {
    assert [s][1..] == [];
  }

  /** Strictly ascending: the order of the keys inside one leaf. */
  ghost predicate StrictlyIncreasing(s: seq<int>)
  {
    forall j, k :: 0 <= j < k < |s| ==> s[j] < s[k]
  }

  /** Ascending with repetitions allowed. */
  ghost predicate NonDecreasing(s: seq<int>)
  {
    forall j, k :: 0 <= j < k < |s| ==> s[j] <= s[k]
  }

  /** JavaScript's `s.indexOf(x)`: the first index holding `x`, or -1. */
  function IndexOf(s: seq<int>, x: int): (r: int)
    ensures -1 <= r < |s|
    ensures r >= 0 ==> s[r] == x && forall j :: 0 <= j < r ==> s[j] != x
    ensures r == -1 <==> x !in s
  {
    if s == [] then -1
    else if s[0] == x then 0
    else var r := IndexOf(s[1..], x); if r == -1 then -1 else r + 1
  }

}
