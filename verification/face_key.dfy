/** The deduplication key of a polygonal face: its vertex ids in ascending
    order. Two faces share a key exactly when they have the same vertex ids
    with the same multiplicities, whatever their winding or starting vertex. */
module FaceKey {

  predicate Sorted(s: seq<nat>)
  {
    forall i, j :: 0 <= i < j < |s| ==> s[i] <= s[j]
  }

  /** A sorted list stays sorted under a new head no larger than its elements. */
  lemma ConsSorted(x: nat, s: seq<nat>)
    requires Sorted(s)
    requires forall y :: y in s ==> x <= y
    ensures Sorted([x] + s)
  {
    var r := [x] + s;
    forall i, j | 0 <= i < j < |r|
      ensures r[i] <= r[j]
    {
      assert r[j] == s[j - 1] && s[j - 1] in s;
      if i > 0 {
        assert r[i] == s[i - 1];
      }
    }
  }

  /** `x` in front of a sorted list whose head is not smaller. */
  lemma InsertInFront(x: nat, s: seq<nat>)
    requires Sorted(s) && |s| > 0 && x <= s[0]
    ensures Sorted([x] + s)
  {
    forall y | y in s
      ensures x <= y
    {
      var i :| 0 <= i < |s| && s[i] == y;
      assert s[0] <= s[i];
    }
    ConsSorted(x, s);
  }

  /** The head of a sorted list in front of `x` inserted into its tail. */
  lemma InsertBehind(x: nat, s: seq<nat>, rest: seq<nat>)
    requires Sorted(s) && |s| > 0 && s[0] < x
    requires Sorted(rest) && multiset(rest) == multiset(s[1..]) + multiset{x}
    requires forall y :: y in rest ==> y in s[1..] || y == x
    ensures Sorted([s[0]] + rest)
    ensures multiset([s[0]] + rest) == multiset(s) + multiset{x}
    ensures forall y :: y in [s[0]] + rest ==> y in s || y == x
  {
    assert s == [s[0]] + s[1..];
    forall y | y in rest
      ensures s[0] <= y
    {
      if y != x {
        var i :| 1 <= i < |s| && s[i] == y;
      }
    }
    ConsSorted(s[0], rest);
  }

  /** Inserts `x` into a sorted list at its place. */
  function Insert(x: nat, s: seq<nat>): (r: seq<nat>)
    requires Sorted(s)
    ensures Sorted(r)
    ensures multiset(r) == multiset(s) + multiset{x}
    ensures |r| == |s| + 1
    ensures forall y :: y in r ==> y in s || y == x
  {
    if |s| == 0 then [x]
    else if x <= s[0] then
      InsertInFront(x, s);
      [x] + s
    else
      var rest := Insert(x, s[1..]);
      InsertBehind(x, s, rest);
      [s[0]] + rest
  }

  /** Ascending sort, standing for std::sort on the face's vertex ids. */
  function Sort(s: seq<nat>): (r: seq<nat>)
    ensures Sorted(r)
    ensures multiset(r) == multiset(s)
    ensures |r| == |s|
  {
    if |s| == 0 then []
    else
      assert s == [s[0]] + s[1..];
      Insert(s[0], Sort(s[1..]))
  }

  /** Two sorted lists with the same elements start with the same element:
      their least one. */
  lemma SortedSameHead(a: seq<nat>, b: seq<nat>)
    requires Sorted(a) && Sorted(b) && |a| > 0
    requires multiset(a) == multiset(b)
    ensures |b| > 0 && a[0] == b[0]
  {
    assert a[0] in multiset(b);
    var i :| 0 <= i < |b| && b[i] == a[0];
    assert b[0] in multiset(a);
    var j :| 0 <= j < |a| && a[j] == b[0];
    assert b[0] <= b[i] && a[0] <= a[j];
  }

  /** A sorted sequence is determined by its multiset of elements. */
  lemma {:induction false} SortedUnique(a: seq<nat>, b: seq<nat>)
    requires Sorted(a) && Sorted(b)
    requires multiset(a) == multiset(b)
    ensures a == b
    decreases |a|
  {
    assert |a| == |multiset(a)| == |b|;
    if |a| > 0 {
      SortedSameHead(a, b);
      assert a == [a[0]] + a[1..];
      assert b == [b[0]] + b[1..];
      assert multiset(a[1..]) == multiset(a) - multiset{a[0]};
      assert multiset(b[1..]) == multiset(b) - multiset{b[0]};
      assert Sorted(a[1..]) && Sorted(b[1..]);
      SortedUnique(a[1..], b[1..]);
    }
  }

  /** Two faces get the same key exactly when they use the same vertex ids. */
  lemma SameKeyIffSameVertices(f: seq<nat>, g: seq<nat>)
    ensures Sort(f) == Sort(g) <==> multiset(f) == multiset(g)
  {
    if multiset(f) == multiset(g) {
      SortedUnique(Sort(f), Sort(g));
    }
  }
}
