/**
 * Sorting of parameter names, as `keys.sort()` does in the signing code, and
 * the facts the signature relies on: the result is ordered, is a permutation
 * of its input, and is the only ordered arrangement of those keys.
 */
module KeySort {
  import opened Lexicographic

  /** Every element sorts at or before every later one. */
  predicate Sorted(s: seq<string>)
  {
    forall i, j :: 0 <= i < j < |s| ==> Below(s[i], s[j])
  }

  /** Sorted with no element repeated. */
  predicate StrictlyAscending(s: seq<string>)
  {
    forall i, j :: 0 <= i < j < |s| ==> Below(s[i], s[j]) && s[i] != s[j]
  }

  /**
   * `order` lists every element of `keys` exactly once: what iterating over
   * the keys of a hash map yields, in some unspecified order.
   */
  predicate IsEnumeration(order: seq<string>, keys: set<string>)
  {
    multiset(order) == multiset(keys)
  }

  /** A sequence in which each element sorts at or before the next is sorted. */
  lemma {:induction false} ChainSorted(s: seq<string>)
    requires forall i :: 0 <= i < |s| - 1 ==> Below(s[i], s[i + 1])
    ensures Sorted(s)
  {
    if |s| > 1 {
      ChainSorted(s[1..]);
      forall j | 1 < j < |s|
        ensures Below(s[0], s[j])
      {
        assert s[1..][j - 2] == s[j - 1] && s[1..][j - 1] == s[j];
        BelowTransitive(s[0], s[1], s[j]);
      }
      forall i, j | 0 <= i < j < |s|
        ensures Below(s[i], s[j])
      {
        if i > 0 {
          assert s[1..][i - 1] == s[i] && s[1..][j - 1] == s[j];
        }
      }
    }
  }

  lemma SortedHeadIsLeast(s: seq<string>, y: string)
    requires Sorted(s) && y in s
    ensures Below(s[0], y)
  {
    var i :| 0 <= i < |s| && s[i] == y;
    if i == 0 {
      BelowReflexive(y);
    }
  }

  /** A sequence stays sorted when a lower bound of all its elements is put in front. */
  lemma ConsSorted(h: string, t: seq<string>)
    requires Sorted(t)
    requires forall k :: 0 <= k < |t| ==> Below(h, t[k])
    ensures Sorted([h] + t)
  {
    var r := [h] + t;
    forall i, j | 0 <= i < j < |r|
      ensures Below(r[i], r[j])
    {
      if i > 0 {
        assert r[i] == t[i - 1] && r[j] == t[j - 1];
      }
    }
  }

  lemma InsertFront(x: string, s: seq<string>)
    requires Sorted(s) && |s| > 0 && Below(x, s[0])
    ensures Sorted([x] + s)
  {
    forall k | 0 <= k < |s|
      ensures Below(x, s[k])
    {
      if k > 0 {
        BelowTransitive(x, s[0], s[k]);
      }
    }
    ConsSorted(x, s);
  }

  lemma InsertLater(x: string, s: seq<string>, t: seq<string>)
    requires Sorted(s) && |s| > 0 && !Below(x, s[0])
    requires Sorted(t) && multiset(t) == multiset(s[1..]) + multiset{x}
    ensures Sorted([s[0]] + t)
    ensures multiset([s[0]] + t) == multiset(s) + multiset{x}
  {
    BelowTotal(x, s[0]);
    forall k | 0 <= k < |t|
      ensures Below(s[0], t[k])
    {
      assert t[k] in multiset(t);
      if t[k] != x {
        assert t[k] in multiset(s[1..]);
        var i :| 0 <= i < |s[1..]| && s[1..][i] == t[k];
        assert s[i + 1] == t[k];
      }
    }
    ConsSorted(s[0], t);
    assert s == [s[0]] + s[1..];
  }

  /** Places `x` into the sorted sequence `s`. */
  function Insert(x: string, s: seq<string>): (r: seq<string>)
    requires Sorted(s)
    ensures Sorted(r)
    ensures multiset(r) == multiset(s) + multiset{x}
  {
    if |s| == 0 then
      [x]
    else if Below(x, s[0]) then
      InsertFront(x, s);
      [x] + s
    else
      var t := Insert(x, s[1..]);
      InsertLater(x, s, t);
      [s[0]] + t
  }

  /** Insertion sort: an ordered permutation of `s`. */
  function Sort(s: seq<string>): (r: seq<string>)
    ensures Sorted(r)
    ensures multiset(r) == multiset(s)
  {
    if |s| == 0 then
      []
    else
      assert s == [s[0]] + s[1..];
      Insert(s[0], Sort(s[1..]))
  }

  /** Two ordered arrangements of the same multiset are the same sequence. */
  lemma {:induction false} SortedUnique(a: seq<string>, b: seq<string>)
    requires Sorted(a) && Sorted(b)
    requires multiset(a) == multiset(b)
    ensures a == b
  {
    if |a| == 0 {
      assert |multiset(b)| == 0;
    } else {
      assert |b| == |multiset(b)| == |multiset(a)| == |a|;
      assert a[0] in multiset(b);
      assert b[0] in multiset(a);
      SortedHeadIsLeast(b, a[0]);
      SortedHeadIsLeast(a, b[0]);
      BelowAntisymmetric(a[0], b[0]);
      assert a == [a[0]] + a[1..];
      assert b == [b[0]] + b[1..];
      assert multiset(a[1..]) == multiset(a) - multiset{a[0]};
      assert multiset(b[1..]) == multiset(b) - multiset{b[0]};
      SortedUnique(a[1..], b[1..]);
    }
  }

  /** An enumeration of a set never repeats an element. */
  lemma EnumerationDistinct(order: seq<string>, keys: set<string>, i: int, j: int)
    requires IsEnumeration(order, keys)
    requires 0 <= i < j < |order|
    ensures order[i] != order[j]
  {
    var x := order[i];
    assert order == order[..j] + order[j..];
    assert x in multiset(order[..j]);
    assert multiset(keys)[x] <= 1;
  }

  /** An enumeration lists only elements of its set. */
  lemma EnumerationMembers(order: seq<string>, keys: set<string>)
    requires IsEnumeration(order, keys)
    ensures forall i :: 0 <= i < |order| ==> order[i] in keys
  {
    forall i | 0 <= i < |order|
      ensures order[i] in keys
    {
      assert order[i] in multiset(order);
    }
  }

  /** Sorting an enumeration of a set gives a strictly ascending enumeration of it. */
  lemma SortEnumeration(order: seq<string>, keys: set<string>)
    requires IsEnumeration(order, keys)
    ensures IsEnumeration(Sort(order), keys)
    ensures StrictlyAscending(Sort(order))
  {
    var r := Sort(order);
    forall i, j | 0 <= i < j < |r|
      ensures r[i] != r[j]
    {
      EnumerationDistinct(r, keys, i, j);
    }
  }

  /** Some enumeration of `keys` (exists for every finite set). */
  ghost function SomeEnumeration(keys: set<string>): (r: seq<string>)
    ensures IsEnumeration(r, keys)
    decreases keys
  {
    if keys == {} then
      []
    else
      var x :| x in keys;
      var rest := SomeEnumeration(keys - {x});
      assert keys == (keys - {x}) + {x};
      assert multiset(keys) == multiset(keys - {x}) + multiset{x};
      rest + [x]
  }

  /**
   * The keys of `keys` in ascending order, defined without reference to any
   * particular sorting procedure: the ordered enumeration, which is unique.
   */
  ghost function Ascending(keys: set<string>): (r: seq<string>)
    ensures IsEnumeration(r, keys) && StrictlyAscending(r)
    ensures forall i :: 0 <= i < |r| ==> r[i] in keys
  {
    SortEnumeration(SomeEnumeration(keys), keys);
    var r :| IsEnumeration(r, keys) && StrictlyAscending(r);
    EnumerationMembers(r, keys);
    r
  }

  /** Sorting any enumeration of `keys` yields exactly `Ascending(keys)`. */
  lemma SortIsAscending(order: seq<string>, keys: set<string>)
    requires IsEnumeration(order, keys)
    ensures Sort(order) == Ascending(keys)
  {
    SortEnumeration(order, keys);
    SortedUnique(Sort(order), Ascending(keys));
  }
}
