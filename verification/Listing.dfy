/** ORDER BY id: the keys of a selection of rows, oldest row first. */
module Listing {

  predicate Distinct<K>(ids: map<K, nat>) {
    forall k <- ids, l <- ids {:trigger ids[k], ids[l]} :: ids[k] == ids[l] ==> k == l
  }

  predicate Oldest<K>(ids: map<K, nat>, k: K) {
    k in ids && forall l <- ids :: ids[k] <= ids[l]
  }

  lemma {:induction false} HasOldest<K>(ids: map<K, nat>)
    requires ids != map[]
    ensures exists k :: Oldest(ids, k)
    decreases |ids|
  {
    var x :| x in ids;
    var rest := ids - {x};
    assert forall l <- ids :: l == x || l in rest;
    if rest == map[] {
      assert Oldest(ids, x);
    } else {
      assert rest.Keys == ids.Keys - {x};
      HasOldest(rest);
      var y :| Oldest(rest, y);
      assert Oldest(ids, if ids[x] <= ids[y] then x else y);
    }
  }

  predicate Increasing<K>(ids: map<K, nat>, s: seq<K>) {
    && (forall k <- s :: k in ids)
    && (forall i, j :: 0 <= i < j < |s| ==> ids[s[i]] < ids[s[j]])
  }

  /** The keys in increasing order of row id. */
  function ByID<K(==)>(ids: map<K, nat>): (s: seq<K>)
    requires Distinct(ids)
    ensures forall k <- ids :: k in s
    ensures Increasing(ids, s)
    decreases |ids|
  {
    if ids == map[] then []
    else
      HasOldest(ids);
      var k :| Oldest(ids, k);
      assert (ids - {k}).Keys == ids.Keys - {k};
      var rest := ByID(ids - {k});
      OldestFirst(ids, k, rest);
      [k] + rest
  }

  lemma OldestFirst<K>(ids: map<K, nat>, k: K, rest: seq<K>)
    requires Distinct(ids) && Oldest(ids, k)
    requires forall l <- ids - {k} :: l in rest
    requires Increasing(ids - {k}, rest)
    ensures forall l <- ids :: l in [k] + rest
    ensures Increasing(ids, [k] + rest)
  {
  }
}
