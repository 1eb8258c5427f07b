// Sorting and de-duplicating lists of numbers, as `sort_unstable`
// followed by `dedup` does it on a `Vec` of page numbers or icon sizes.
module Sorting {
  predicate Ascending(s: seq<nat>)
  {
    forall i, j :: 0 <= i < j < |s| ==> s[i] <= s[j]
  }

  predicate StrictlyAscending(s: seq<nat>)
  {
    forall i, j :: 0 <= i < j < |s| ==> s[i] < s[j]
  }

  /** `x` placed into an ascending list. */
  function InsertAscending(s: seq<nat>, x: nat): (r: seq<nat>)
    requires Ascending(s)
    ensures Ascending(r) && multiset(r) == multiset(s) + multiset{x}
  {
    if s == [] || x <= s[0] then [x] + s
    else
      var rest := InsertAscending(s[1..], x);
      assert s == [s[0]] + s[1..];
      BoundedByParts(rest, s[1..], x, s[0]);
      [s[0]] + rest
  }

  /** A list made of the elements of `t` and `x`, all at least `k`, has only
      elements of at least `k`. */
  lemma BoundedByParts(r: seq<nat>, t: seq<nat>, x: nat, k: nat)
    requires multiset(r) == multiset(t) + multiset{x}
    requires x >= k && forall i :: 0 <= i < |t| ==> t[i] >= k
    ensures forall i :: 0 <= i < |r| ==> r[i] >= k
  {
    forall i | 0 <= i < |r|
      ensures r[i] >= k
    {
      assert r[i] in multiset(r);
      if r[i] != x {
        assert r[i] in t;
      }
    }
  }

  /** The result of `sort_unstable` on a list of page numbers: the same
      numbers, each as often, in ascending order. */
  function SortAscending(s: seq<nat>): (r: seq<nat>)
    ensures Ascending(r) && multiset(r) == multiset(s)
  {
    if s == [] then []
    else
      assert s == s[..|s| - 1] + [s[|s| - 1]];
      InsertAscending(SortAscending(s[..|s| - 1]), s[|s| - 1])
  }

  /** `Vec::dedup`: each run of equal neighbours kept once. */
  function DedupAdjacent(s: seq<nat>): (r: seq<nat>)
    ensures forall x :: x in r <==> x in s
    ensures s != [] ==> r != [] && r[|r| - 1] == s[|s| - 1]
  {
    if s == [] then []
    else
      var init := s[..|s| - 1];
      var d := DedupAdjacent(init);
      var x := s[|s| - 1];
      assert s == init + [x];
      if d != [] && d[|d| - 1] == x then d else d + [x]
  }

  /** On a sorted list no value is left twice. */
  lemma {:induction false} DedupAscending(s: seq<nat>)
    requires Ascending(s)
    ensures StrictlyAscending(DedupAdjacent(s))
  {
    if s != [] {
      var init := s[..|s| - 1];
      DedupAscending(init);
      var d := DedupAdjacent(init);
      var x := s[|s| - 1];
      if d != [] && d[|d| - 1] != x {
        assert d[|d| - 1] in init;
        assert d[|d| - 1] < x;
        var r := d + [x];
        assert forall i :: 0 <= i < |d| ==> r[i] == d[i] && d[i] <= d[|d| - 1];
      }
    }
  }

  /** The `dedup` loop over the sorted list. */
  method Dedup(s: seq<nat>) returns (r: seq<nat>)
    ensures r == DedupAdjacent(s)
  {
    r := [];
    var i := 0;
    while i < |s|
      invariant 0 <= i <= |s|
      invariant r == DedupAdjacent(s[..i])
    {
      assert s[..i + 1][..i] == s[..i];
      if r == [] || r[|r| - 1] != s[i] {
        r := r + [s[i]];
      }
      i := i + 1;
    }
    assert s[..i] == s;
  }

  /** The head of an ascending list is its least element. */
  lemma HeadIsLeast(s: seq<nat>, x: nat)
    requires Ascending(s) && x in multiset(s)
    ensures s != [] && s[0] <= x
  {
    assert x in s;
    var i :| 0 <= i < |s| && s[i] == x;
  }

  lemma TailMultiset(s: seq<nat>)
    requires s != []
    ensures multiset(s[1..]) == multiset(s) - multiset{s[0]}
  {
    assert s == [s[0]] + s[1..];
  }

  /** Two ascending lists with the same elements start alike. */
  lemma SameHead(a: seq<nat>, b: seq<nat>)
    requires Ascending(a) && Ascending(b) && multiset(a) == multiset(b) && a != []
    ensures b != [] && a[0] == b[0] && multiset(a[1..]) == multiset(b[1..])
  {
    HeadIsLeast(b, a[0]);
    HeadIsLeast(a, b[0]);
    TailMultiset(a);
    TailMultiset(b);
  }

  /** An ascending list is determined by its elements and their counts. */
  lemma {:induction false} AscendingUnique(a: seq<nat>, b: seq<nat>)
    requires Ascending(a) && Ascending(b) && multiset(a) == multiset(b)
    ensures a == b
    decreases |a|
  {
    if a == [] {
      assert |b| == |multiset(b)| == 0;
    } else {
      SameHead(a, b);
      AscendingUnique(a[1..], b[1..]);
      assert a == [a[0]] + a[1..];
      assert b == [b[0]] + b[1..];
    }
  }

  /** Sorting and de-duplicating a list that is already strictly ascending
      leaves it as it is. */
  lemma SortDedupOfStrictlyAscending(s: seq<nat>)
    requires StrictlyAscending(s)
    ensures DedupAdjacent(SortAscending(s)) == s
  {
    AscendingUnique(SortAscending(s), s);
    DedupOfStrictlyAscending(s);
  }

  lemma {:induction false} DedupOfStrictlyAscending(s: seq<nat>)
    requires StrictlyAscending(s)
    ensures DedupAdjacent(s) == s
  {
    if s != [] {
      var init := s[..|s| - 1];
      DedupOfStrictlyAscending(init);
      assert s == init + [s[|s| - 1]];
    }
  }
}
