/** Ascending sort of durations, standing in for Go's `sort.Slice` with the
    comparator `durations[i] < durations[j]`: a reference definition on
    sequences and an in-place insertion sort proved equal to it. */
module Sorting {

  predicate Sorted(s: seq<int>)
  {
    forall i, j :: 0 <= i < j < |s| ==> s[i] <= s[j]
  }

  /** Places `x` after every element not greater than it. */
  function Insert(x: int, s: seq<int>): (r: seq<int>)
    ensures multiset(r) == multiset(s) + multiset{x}
  {
    if |s| == 0 then [x]
    else if x < s[0] then [x] + s
    else
      assert s == [s[0]] + s[1..];
      [s[0]] + Insert(x, s[1..])
  }

  lemma {:induction false} InsertSorted(x: int, s: seq<int>)
    requires Sorted(s)
    ensures Sorted(Insert(x, s))
  {
    if |s| > 0 && x >= s[0] {
      SortedTail(s);
      InsertSorted(x, s[1..]);
      var t := Insert(x, s[1..]);
      forall k | 0 <= k < |t| ensures s[0] <= t[k] {
        assert t[k] in multiset(t);
        if t[k] != x {
          assert t[k] in multiset(s[1..]);
        }
      }
    }
  }

  lemma SortedTail(s: seq<int>)
    requires Sorted(s) && |s| > 0
    ensures Sorted(s[1..])
  {
    forall i, j | 0 <= i < j < |s| - 1 ensures s[1..][i] <= s[1..][j] {
      assert s[1..][i] == s[i + 1] && s[1..][j] == s[j + 1];
    }
  }

  /** Inserting puts the element just before the first larger one. */
  lemma {:induction false} InsertAt(x: int, s: seq<int>, j: nat)
    requires j <= |s|
    requires forall l :: 0 <= l < j ==> s[l] <= x
    requires forall l :: j <= l < |s| ==> x < s[l]
    ensures Insert(x, s) == s[..j] + [x] + s[j..]
  {
    if |s| > 0 {
      if x < s[0] {
        assert j == 0;
      } else {
        assert j > 0;
        var t := s[1..];
        InsertAt(x, t, j - 1);
        assert s[..j] == [s[0]] + t[..j - 1];
        assert s[j..] == t[j - 1..];
      }
    }
  }

  /** The sorted rearrangement of `s`: each element inserted, last first,
      into the sorted rest. */
  function Sort(s: seq<int>): (r: seq<int>)
    ensures |r| == |s|
  {
    if |s| == 0 then []
    else
      assert |multiset(Insert(s[|s| - 1], Sort(s[..|s| - 1])))| == |Sort(s[..|s| - 1])| + 1;
      Insert(s[|s| - 1], Sort(s[..|s| - 1]))
  }

  /** `Sort` yields an ascending permutation of its argument. */
  lemma {:induction false} SortSorts(s: seq<int>)
    ensures Sorted(Sort(s)) && multiset(Sort(s)) == multiset(s)
  {
    if |s| > 0 {
      var init, last := s[..|s| - 1], s[|s| - 1];
      SortSorts(init);
      InsertSorted(last, Sort(init));
      assert s == init + [last];
    }
  }

  lemma SortedHeadLeast(s: seq<int>, x: int)
    requires Sorted(s) && x in multiset(s)
    ensures |s| > 0 && s[0] <= x
  {
    assert x in s;
  }

  lemma MultisetTail(a: seq<int>, b: seq<int>)
    requires multiset(a) == multiset(b) && |a| > 0 && |b| > 0 && a[0] == b[0]
    ensures multiset(a[1..]) == multiset(b[1..])
  {
    var x := a[0];
    assert a == [x] + a[1..] && b == [x] + b[1..];
    assert multiset(a) == multiset{x} + multiset(a[1..]);
    assert multiset(b) == multiset{x} + multiset(b[1..]);
    calc {
      multiset(a[1..]);
      multiset(a) - multiset{x};
      multiset(b) - multiset{x};
      multiset(b[1..]);
    }
  }

  /** There is only one sorted rearrangement of a collection; so any
      sorting algorithm, stable or not, yields `Sort`. */
  lemma {:induction false} SortedUnique(a: seq<int>, b: seq<int>)
    requires Sorted(a) && Sorted(b) && multiset(a) == multiset(b)
    ensures a == b
    decreases |a|
  {
    if |a| == 0 {
      assert |b| == |multiset(b)| == 0;
    } else {
      assert a[0] in multiset(b);
      SortedHeadLeast(b, a[0]);
      assert b[0] in multiset(a);
      SortedHeadLeast(a, b[0]);
      MultisetTail(a, b);
      SortedTail(a);
      SortedTail(b);
      SortedUnique(a[1..], b[1..]);
      assert a == [a[0]] + a[1..] && b == [b[0]] + b[1..];
    }
  }

  /** Moves `a[i]` left past every larger element, so that the sorted
      prefix `a[..i]` grows by one; nothing after it moves. */
  method SinkInto(a: array<int>, i: nat)
    requires i < a.Length && Sorted(a[..i])
    modifies a
    ensures a[..i + 1] == Insert(old(a[i]), old(a[..i]))
    ensures a[i + 1..] == old(a[i + 1..])
  {
    ghost var s, x := a[..i], a[i];
    var j := i;
    while j > 0 && a[j - 1] > a[j]
      invariant 0 <= j <= i
      invariant a[..i + 1] == s[..j] + [x] + s[j..]
      invariant forall l :: j <= l < i ==> x < s[l]
      invariant a[i + 1..] == old(a[i + 1..])
    {
      assert a[j - 1] == s[j - 1] && a[j] == x;
      a[j - 1], a[j] := a[j], a[j - 1];
      j := j - 1;
      assert a[..i + 1] == s[..j] + [x] + s[j..];
    }
    assert j == 0 || s[j - 1] <= x;
    assert forall l :: 0 <= l < j ==> s[l] <= s[j - 1];
    InsertAt(x, s, j);
  }

  lemma SortPrefix(s: seq<int>, i: nat)
    requires i < |s|
    ensures Sort(s[..i + 1]) == Insert(s[i], Sort(s[..i]))
  {
    assert s[..i + 1][..i] == s[..i];
  }

  /** Insertion sort, in place. */
  method SortInPlace(a: array<int>)
    modifies a
    ensures a[..] == Sort(old(a[..]))
  {
    ghost var s := a[..];
    for i := 0 to a.Length
      invariant a[..i] == Sort(s[..i])
      invariant a[i..] == s[i..]
    {
      assert a[i] == s[i] && a[i + 1..] == s[i + 1..];
      SortSorts(s[..i]);
      SinkInto(a, i);
      SortPrefix(s, i);
    }
    assert s[..a.Length] == s;
    assert a[..a.Length] == a[..];
  }
}
