// A sled tree as the viewer uses it: an ordered map from byte-string keys
// to byte-string values whose iteration visits the keys in unsigned
// lexicographic order. Storage errors are not modelled: every operation
// succeeds.
module Sled {
  import opened Bytes
  import opened Wrappers

  type Key = seq<byte>
  type Value = seq<byte>
  type Entry = (Key, Value)

  /** Entries listed in strictly ascending key order: how `Tree::iter` yields them. */
  predicate Ascending(es: seq<Entry>)
  {
    forall i, j :: 0 <= i < j < |es| ==> LexLess(es[i].0, es[j].0)
  }

  function Lookup(es: seq<Entry>, k: Key): (r: Option<Value>)
    ensures r.Some? <==> exists i :: 0 <= i < |es| && es[i].0 == k
  {
    if es == [] then None
    else if es[0].0 == k then Some(es[0].1)
    else
      var r := Lookup(es[1..], k);
      assert forall i :: 1 <= i < |es| ==> es[i] == es[1..][i - 1];
      r
  }

  function KeysOf(es: seq<Entry>): (ks: set<Key>)
    ensures forall k :: k in ks <==> exists i :: 0 <= i < |es| && es[i].0 == k
  {
    if es == [] then {}
    else
      var rest := KeysOf(es[1..]);
      assert forall i :: 1 <= i < |es| ==> es[i] == es[1..][i - 1];
      {es[0].0} + rest
  }

  /** Where `Tree::insert(k, v)` leaves the entries: a new key goes in its
      ordered place, an existing key has its value replaced. */
  function InsertSorted(es: seq<Entry>, k: Key, v: Value): seq<Entry>
  {
    if es == [] then [(k, v)]
    else if es[0].0 == k then [(k, v)] + es[1..]
    else if LexLess(k, es[0].0) then [(k, v)] + es
    else [es[0]] + InsertSorted(es[1..], k, v)
  }

  /** `Tree::remove(k)`. */
  function RemoveKey(es: seq<Entry>, k: Key): (r: seq<Entry>)
    ensures |r| <= |es|
  {
    if es == [] then []
    else if es[0].0 == k then RemoveKey(es[1..], k)
    else [es[0]] + RemoveKey(es[1..], k)
  }

  lemma {:induction false} InsertSortedKeys(es: seq<Entry>, k: Key, v: Value)
    ensures KeysOf(InsertSorted(es, k, v)) == KeysOf(es) + {k}
  {
    if es != [] && es[0].0 != k && !LexLess(k, es[0].0) {
      InsertSortedKeys(es[1..], k, v);
      assert InsertSorted(es, k, v)[1..] == InsertSorted(es[1..], k, v);
    } else if es != [] && es[0].0 == k {
      assert InsertSorted(es, k, v)[1..] == es[1..];
    } else if es != [] {
      assert InsertSorted(es, k, v)[1..] == es;
    }
  }

  lemma AscendingCons(e: Entry, es: seq<Entry>)
    requires Ascending(es)
    requires forall j :: 0 <= j < |es| ==> LexLess(e.0, es[j].0)
    ensures Ascending([e] + es)
  {
    var r := [e] + es;
    forall i, j | 0 <= i < j < |r| ensures LexLess(r[i].0, r[j].0) {
      assert r[j] == es[j - 1];
      if i > 0 { assert r[i] == es[i - 1]; }
    }
  }

  lemma {:induction false} InsertSortedAscending(es: seq<Entry>, k: Key, v: Value)
    requires Ascending(es)
    ensures Ascending(InsertSorted(es, k, v))
  {
    if es == [] {
    } else if es[0].0 == k {
      assert Ascending(es[1..]);
      forall j | 0 <= j < |es[1..]| ensures LexLess(k, es[1..][j].0) {
        assert es[1..][j] == es[j + 1];
      }
      AscendingCons((k, v), es[1..]);
    } else if LexLess(k, es[0].0) {
      forall j | 0 <= j < |es| ensures LexLess(k, es[j].0) {
        if j > 0 { LexLessTransitive(k, es[0].0, es[j].0); }
      }
      AscendingCons((k, v), es);
    } else {
      LexLessTotal(k, es[0].0);
      assert Ascending(es[1..]);
      InsertSortedAscending(es[1..], k, v);
      forall j | 0 <= j < |es[1..]| ensures LexLess(es[0].0, es[1..][j].0) {
        assert es[1..][j] == es[j + 1];
      }
      InsertSortedAbove(es[1..], k, v, es[0].0);
      AscendingCons(es[0], InsertSorted(es[1..], k, v));
    }
  }

  /** Inserting a key above `lo` into entries whose keys are all above
      `lo` keeps every key above it. */
  lemma InsertSortedAbove(es: seq<Entry>, k: Key, v: Value, lo: Key)
    requires forall j :: 0 <= j < |es| ==> LexLess(lo, es[j].0)
    requires LexLess(lo, k)
    ensures forall j :: 0 <= j < |InsertSorted(es, k, v)| ==> LexLess(lo, InsertSorted(es, k, v)[j].0)
  {
    InsertSortedKeys(es, k, v);
    var r := InsertSorted(es, k, v);
    forall j | 0 <= j < |r| ensures LexLess(lo, r[j].0) {
      assert r[j].0 in KeysOf(r);
      if r[j].0 != k {
        var jj :| 0 <= jj < |es| && es[jj].0 == r[j].0;
      }
    }
  }

  /** Inserting a key above every present key appends it: this is what the
      `persist_*` loops do with their increasing big-endian keys. */
  lemma {:induction false} InsertAboveAll(es: seq<Entry>, k: Key, v: Value)
    requires forall i :: 0 <= i < |es| ==> LexLess(es[i].0, k)
    ensures InsertSorted(es, k, v) == es + [(k, v)]
  {
    if es != [] {
      LexLessIrreflexive(k);
      LexLessAsymmetric(es[0].0, k);
      InsertAboveAll(es[1..], k, v);
      assert es == [es[0]] + es[1..];
    }
  }

  lemma {:induction false} LookupInsert(es: seq<Entry>, k: Key, v: Value, q: Key)
    ensures Lookup(InsertSorted(es, k, v), q) == if q == k then Some(v) else Lookup(es, q)
  {
    if es != [] && es[0].0 != k && !LexLess(k, es[0].0) {
      LookupInsert(es[1..], k, v, q);
    } else if es != [] && es[0].0 == k {
      if q != k {
        assert Lookup([(k, v)] + es[1..], q) == Lookup(es[1..], q);
      }
    }
  }

  lemma {:induction false} LookupRemove(es: seq<Entry>, k: Key, q: Key)
    ensures Lookup(RemoveKey(es, k), q) == if q == k then None else Lookup(es, q)
  {
    if es != [] {
      LookupRemove(es[1..], k, q);
    }
  }

  lemma {:induction false} RemoveKeyKeepsAscending(es: seq<Entry>, k: Key)
    requires Ascending(es)
    ensures Ascending(RemoveKey(es, k))
    ensures forall e :: e in RemoveKey(es, k) ==> e in es
  {
    if es != [] {
      assert Ascending(es[1..]);
      RemoveKeyKeepsAscending(es[1..], k);
      var r := RemoveKey(es, k);
      if es[0].0 != k {
        var tail := RemoveKey(es[1..], k);
        assert r == [es[0]] + tail;
        forall i, j | 0 <= i < j < |r| ensures LexLess(r[i].0, r[j].0) {
          if i == 0 {
            assert r[j] in tail;
            var jj :| 0 <= jj < |es[1..]| && es[1..][jj] == r[j];
            assert es[jj + 1] == r[j];
          }
        }
      }
    }
  }

  class Tree {
    var entries: seq<Entry>

    ghost predicate Valid()
      reads this
    {
      Ascending(entries)
    }

    constructor ()
      ensures Valid() && entries == []
    {
      entries := [];
    }

    /** `Tree::get(k)`. */
    function Get(k: Key): (r: Option<Value>)
      reads this
      ensures r.Some? <==> k in KeysOf(entries)
    {
      Lookup(entries, k)
    }

    /** `Tree::clear()`. */
    method Clear()
      modifies this
      ensures Valid() && entries == []
    {
      entries := [];
    }

    /** `Tree::insert(k, v)`. */
    method Insert(k: Key, v: Value)
      requires Valid()
      modifies this
      ensures Valid()
      ensures entries == InsertSorted(old(entries), k, v)
      ensures Get(k) == Some(v)
      ensures forall q :: q != k ==> Get(q) == old(Get(q))
    {
      InsertSortedAscending(entries, k, v);
      forall q ensures Lookup(InsertSorted(entries, k, v), q) == if q == k then Some(v) else Lookup(entries, q) {
        LookupInsert(entries, k, v, q);
      }
      entries := InsertSorted(entries, k, v);
    }

    /** `Tree::remove(k)`. */
    method Remove(k: Key)
      requires Valid()
      modifies this
      ensures Valid()
      ensures entries == RemoveKey(old(entries), k)
      ensures Get(k) == None
      ensures forall q :: q != k ==> Get(q) == old(Get(q))
    {
      RemoveKeyKeepsAscending(entries, k);
      forall q ensures Lookup(RemoveKey(entries, k), q) == if q == k then None else Lookup(entries, q) {
        LookupRemove(entries, k, q);
      }
      entries := RemoveKey(entries, k);
    }
  }
}
