/** The routing scan shared by insertion and search in both node kinds:
    `while (i < keys.length && key > keys[i]) i++`. */
module Routing {

  import opened Seqs

  /** The index at which the scan stops: the first `i` with `key <= keys[i]`,
      or `|keys|` when every key is smaller. */
  function Route(keys: seq<int>, key: int): (i: nat)
    ensures i <= |keys|
    ensures forall j :: 0 <= j < i ==> keys[j] < key
    ensures i < |keys| ==> key <= keys[i]
  {
    if keys == [] || key <= keys[0] then 0 else 1 + Route(keys[1..], key)
  }

  /** The scan loop itself. */
  method FindIndex(keys: seq<int>, key: int) returns (i: nat)
    ensures i == Route(keys, key)
  {
    i := 0;
    while i < |keys| && key > keys[i]
      invariant i <= |keys|
      invariant forall j :: 0 <= j < i ==> keys[j] < key
    {
      i := i + 1;
    }
    RouteIsFirstStop(keys, key, i);
  }

  /** Any index with the stopping property is the one `Route` returns. */
  lemma RouteIsFirstStop(keys: seq<int>, key: int, i: nat)
    requires i <= |keys|
    requires forall j :: 0 <= j < i ==> keys[j] < key
    requires i < |keys| ==> key <= keys[i]
    ensures i == Route(keys, key)
  {
  }

  /** In a strictly ascending key list the scan stops on `key` exactly when
      `key` is present, and then at its only position. */
  lemma RouteFindsPresentKey(keys: seq<int>, key: int)
    requires StrictlyIncreasing(keys)
    ensures key in keys <==> (Route(keys, key) < |keys| && keys[Route(keys, key)] == key)
    ensures key in keys ==> IndexOf(keys, key) == Route(keys, key)
  {
  }

}
