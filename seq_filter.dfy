// `Vec::retain`, `Iterator::filter` and `Iterator::any`/`find` over a
// sequence: the order-preserving sub-sequence of the elements a predicate
// keeps, and the first element it selects.
module SeqFilter {
  import opened Wrappers

  /** The elements of `s` that `keep` accepts, in their original order. */
  function Retain<T(!new)>(s: seq<T>, keep: T -> bool): (r: seq<T>)
    ensures |r| <= |s|
    ensures forall x :: x in r <==> x in s && keep(x)
    ensures forall i :: 0 <= i < |r| ==> keep(r[i])
  {
    if s == [] then []
    else
      assert forall x :: x in s <==> x in s[..|s| - 1] || x == s[|s| - 1];
      if keep(s[|s| - 1]) then Retain(s[..|s| - 1], keep) + [s[|s| - 1]]
      else Retain(s[..|s| - 1], keep)
  }

  /** Retaining distributes over concatenation, so the kept elements keep
      their relative order. */
  lemma {:induction false} RetainConcat<T(!new)>(a: seq<T>, b: seq<T>, keep: T -> bool)
    ensures Retain(a + b, keep) == Retain(a, keep) + Retain(b, keep)
  {
    if b == [] {
      assert a + b == a;
    } else {
      assert (a + b)[..|a + b| - 1] == a + b[..|b| - 1];
      RetainConcat(a, b[..|b| - 1], keep);
    }
  }

  /** The length is unchanged exactly when every element is kept, and then
      the list itself is unchanged. */
  lemma {:induction false} RetainLength<T(!new)>(s: seq<T>, keep: T -> bool)
    ensures |Retain(s, keep)| == |s| <==> forall i :: 0 <= i < |s| ==> keep(s[i])
    ensures (forall i :: 0 <= i < |s| ==> keep(s[i])) ==> Retain(s, keep) == s
  {
    if s != [] {
      var init := s[..|s| - 1];
      RetainLength(init, keep);
      assert forall i :: 0 <= i < |init| ==> init[i] == s[i];
      assert s == init + [s[|s| - 1]];
    }
  }

  /** With exactly one element rejected, retaining removes just that one. */
  lemma RetainDropsOne<T(!new)>(s: seq<T>, keep: T -> bool, i: nat)
    requires i < |s| && !keep(s[i])
    requires forall k :: 0 <= k < |s| && k != i ==> keep(s[k])
    ensures Retain(s, keep) == s[..i] + s[i + 1..]
  {
    var before, after := s[..i], s[i + 1..];
    assert s == before + [s[i]] + after;
    forall k | 0 <= k < |before|
      ensures keep(before[k])
    {
      assert before[k] == s[k];
    }
    forall k | 0 <= k < |after|
      ensures keep(after[k])
    {
      assert after[k] == s[k + i + 1];
    }
    RetainAround(before, s[i], after, keep);
  }

  lemma RetainAround<T(!new)>(before: seq<T>, x: T, after: seq<T>, keep: T -> bool)
    requires forall k :: 0 <= k < |before| ==> keep(before[k])
    requires forall k :: 0 <= k < |after| ==> keep(after[k])
    requires !keep(x)
    ensures Retain(before + [x] + after, keep) == before + after
  {
    RetainLength(before, keep);
    RetainLength(after, keep);
    assert Retain([x], keep) == [] by {
      assert [x][..0] == [];
    }
    RetainConcat(before + [x], after, keep);
    RetainConcat(before, [x], keep);
  }

  /** Each kept element keeps its multiplicity; the others vanish. */
  lemma {:induction false} RetainMultiset<T(!new)>(s: seq<T>, keep: T -> bool, x: T)
    ensures multiset(Retain(s, keep))[x] == if keep(x) then multiset(s)[x] else 0
  {
    if s != [] {
      var init := s[..|s| - 1];
      RetainMultiset(init, keep, x);
      assert s == init + [s[|s| - 1]];
    }
  }

  /** No two elements of `s` share a key. */
  predicate UniqueBy<T, K(==)>(s: seq<T>, key: T -> K)
  {
    forall i, j :: 0 <= i < j < |s| ==> key(s[i]) != key(s[j])
  }

  /** Retaining keeps keys unique. */
  lemma {:induction false} RetainUniqueBy<T(!new), K>(s: seq<T>, keep: T -> bool, key: T -> K)
    requires UniqueBy(s, key)
    ensures UniqueBy(Retain(s, keep), key)
  {
    if s != [] {
      var init := s[..|s| - 1];
      assert UniqueBy(init, key) by {
        assert forall i :: 0 <= i < |init| ==> init[i] == s[i];
      }
      RetainUniqueBy(init, keep, key);
      var last := s[|s| - 1];
      if keep(last) {
        var r := Retain(init, keep);
        forall i | 0 <= i < |r|
          ensures key(r[i]) != key(last)
        {
          assert r[i] in init;
          var k :| 0 <= k < |init| && init[k] == r[i];
          assert s[k] == r[i];
        }
        assert Retain(s, keep) == r + [last];
      }
    }
  }

  /** Whether some element of `s` satisfies `p` (`Iterator::any`). */
  predicate Any<T>(s: seq<T>, p: T -> bool)
  {
    exists i :: 0 <= i < |s| && p(s[i])
  }

  /** The first element satisfying `p` (`Iterator::find`). */
  function Find<T>(s: seq<T>, p: T -> bool): (r: Option<T>)
    ensures r.None? <==> !Any(s, p)
    ensures r.Some? ==> r.value in s && p(r.value)
    ensures r.Some? ==> exists i :: 0 <= i < |s| && s[i] == r.value && forall j :: 0 <= j < i ==> !p(s[j])
  {
    if s == [] then None
    else if p(s[0]) then
      assert s[0] == s[0];
      Some(s[0])
    else
      var r := Find(s[1..], p);
      assert forall i :: 0 < i < |s| ==> s[i] == s[1..][i - 1];
      assert r.Some? ==> exists i :: 0 < i < |s| && s[i] == r.value && forall j :: 0 <= j < i ==> !p(s[j]);
      r
  }
}
