// Newest-first ordering shared by the markdown notes and the text markups,
// which both `sort_by` updated time descending, then id descending. `key`
// gives an entry's (updated time, id).
module Recency {

  /** Whether `a` sorts before `b`: newer updated time, then larger id. */
  predicate Before<T>(key: T -> (nat, nat), a: T, b: T)
  {
    key(a).0 > key(b).0 || (key(a).0 == key(b).0 && key(a).1 > key(b).1)
  }

  /** No entry sorts strictly before one that precedes it. */
  predicate Ordered<T>(key: T -> (nat, nat), s: seq<T>)
  {
    forall i, j :: 0 <= i < j < |s| ==> !Before(key, s[j], s[i])
  }

  /** One step of the stable sort: `x` goes before the first entry that
      does not sort strictly before it. */
  function Insert<T(==)>(key: T -> (nat, nat), x: T, sorted: seq<T>): (r: seq<T>)
    ensures multiset(r) == multiset([x] + sorted)
  {
    if sorted == [] || !Before(key, sorted[0], x) then [x] + sorted
    else
      assert sorted == [sorted[0]] + sorted[1..];
      [sorted[0]] + Insert(key, x, sorted[1..])
  }

  /** An entry that no element sorts strictly before may go first. */
  lemma PrependOrdered<T>(key: T -> (nat, nat), x: T, sorted: seq<T>)
    requires Ordered(key, sorted)
    requires sorted == [] || !Before(key, sorted[0], x)
    ensures Ordered(key, [x] + sorted)
  {
    var r := [x] + sorted;
    forall i, j | 0 <= i < j < |r|
      ensures !Before(key, r[j], r[i])
    {
      assert r[j] == sorted[j - 1];
      if i == 0 && j > 1 {
        assert !Before(key, sorted[j - 1], sorted[0]);
      } else if i > 0 {
        assert r[i] == sorted[i - 1];
      }
    }
  }

  /** An entry that sorts no later than every element of an ordered list
      may head it. */
  lemma ConsOrdered<T>(key: T -> (nat, nat), h: T, rest: seq<T>)
    requires Ordered(key, rest)
    requires forall z :: z in rest ==> !Before(key, z, h)
    ensures Ordered(key, [h] + rest)
  {
    var r := [h] + rest;
    forall i, j | 0 <= i < j < |r|
      ensures !Before(key, r[j], r[i])
    {
      assert r[j] == rest[j - 1];
      if i > 0 {
        assert r[i] == rest[i - 1];
      }
    }
  }

  /** Inserting into an ordered list keeps it ordered. */
  lemma {:induction false} InsertOrdered<T>(key: T -> (nat, nat), x: T, sorted: seq<T>)
    requires Ordered(key, sorted)
    ensures Ordered(key, Insert(key, x, sorted))
  {
    if sorted == [] || !Before(key, sorted[0], x) {
      PrependOrdered(key, x, sorted);
    } else {
      var tail := sorted[1..];
      assert Ordered(key, tail) by {
        assert forall k :: 0 <= k < |tail| ==> tail[k] == sorted[k + 1];
      }
      InsertOrdered(key, x, tail);
      var rest := Insert(key, x, tail);
      forall z | z in rest
        ensures !Before(key, z, sorted[0])
      {
        assert z in multiset([x] + tail);
        if z != x {
          var k :| 0 <= k < |tail| && tail[k] == z;
          assert sorted[k + 1] == z;
        }
      }
      ConsOrdered(key, sorted[0], rest);
    }
  }

  /** `sort_by` with the newest-first order: a permutation that is
      ordered (and, being an insertion sort, stable). */
  function Sort<T(==)>(key: T -> (nat, nat), s: seq<T>): (r: seq<T>)
    ensures Ordered(key, r)
    ensures multiset(r) == multiset(s)
  {
    if s == [] then []
    else
      assert s == [s[0]] + s[1..];
      var sortedTail := Sort(key, s[1..]);
      InsertOrdered(key, s[0], sortedTail);
      Insert(key, s[0], sortedTail)
  }
}
