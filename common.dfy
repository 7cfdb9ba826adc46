/** Small building blocks shared by the model: an optional value, Go's
    integer division, Go's `m[k]++` on a map with zero default, and sums
    over sequences together with the facts that make folds over them
    independent of the order of their elements. */
module Common {

  datatype Option<+T> = None | Some(value: T)

  /** Go's zero value for a missing map key with int values. */
  function Get(m: map<int, int>, k: int): int
  {
    if k in m then m[k] else 0
  }

  /** Go's `m[k]++`: a missing key counts from zero. */
  function Inc(m: map<int, int>, k: int): (r: map<int, int>)
    ensures r.Keys == m.Keys + {k}
    ensures r[k] == Get(m, k) + 1
    ensures forall j :: j in m && j != k ==> r[j] == m[j]
  {
    m[k := Get(m, k) + 1]
  }

  /** Go's `/` on integers, which truncates toward zero (Dafny's `/` is
      Euclidean). A zero divisor is a run-time panic in Go, hence the
      precondition. */
  function GoDiv(a: int, b: int): int
    requires b != 0
  {
    if a >= 0 then (if b > 0 then a / b else -(a / -b))
    else (if b > 0 then -((-a) / b) else (-a) / (-b))
  }

  /** By a positive divisor the quotient is rounded down for a
      non-negative dividend and up for a negative one. */
  lemma GoDivBounds(a: int, b: int)
    requires b > 0
    ensures a >= 0 ==> GoDiv(a, b) * b <= a < GoDiv(a, b) * b + b
    ensures a < 0 ==> GoDiv(a, b) * b - b < a <= GoDiv(a, b) * b
  {
  }

  /** A non-negative total shared out by a positive divisor gives a
      non-negative share. */
  lemma GoDivNonNegative(a: int, b: int)
    requires a >= 0 && b > 0
    ensures GoDiv(a, b) >= 0
  {
    var r := GoDiv(a, b);
    GoDivBounds(a, b);
    assert (r + 1) * b == r * b + b;
    SignOfProduct(r + 1, b);
  }

  /** A truncated quotient by a positive divisor stays within any integer
      bounds that the exact quotient lies within. */
  lemma GoDivBetween(a: int, b: int, lo: int, hi: int)
    requires b > 0
    requires lo * b <= a <= hi * b
    ensures lo <= GoDiv(a, b) <= hi
  {
    var r := GoDiv(a, b);
    GoDivBounds(a, b);
    if a >= 0 {
      // lo * b <= a < (r + 1) * b and r * b <= a <= hi * b
      assert (lo - r - 1) * b == lo * b - (r * b + b);
      SignOfProduct(lo - r - 1, b);
      assert (r - hi) * b == r * b - hi * b;
      SignOfProduct(r - hi, b);
    } else {
      // (r - 1) * b < a <= r * b
      assert (lo - r) * b == lo * b - r * b;
      SignOfProduct(lo - r, b);
      assert (r - 1 - hi) * b == (r * b - b) - hi * b;
      SignOfProduct(r - 1 - hi, b);
    }
  }

  lemma SignOfProduct(x: int, b: int)
    requires b > 0
    ensures x * b < 0 <==> x < 0
    ensures x * b <= 0 <==> x <= 0
  {
    if x < 0 {
      assert x * b == -((-x) * b);
    }
  }

  /** Multiplying by a non-negative factor keeps the order. */
  lemma MulBetween(lo: int, x: int, hi: int, n: int)
    requires n >= 0 && lo <= x <= hi
    ensures lo * n <= x * n <= hi * n
  {
    if n > 0 {
      assert (lo - x) * n == lo * n - x * n;
      SignOfProduct(lo - x, n);
      assert (x - hi) * n == x * n - hi * n;
      SignOfProduct(x - hi, n);
    }
  }

  /** `f` applied to every element of `s`, in order. */
  function MapSeq<A, B>(s: seq<A>, f: A -> B): (r: seq<B>)
    ensures |r| == |s| && forall i :: 0 <= i < |s| ==> r[i] == f(s[i])
  {
    seq(|s|, i requires 0 <= i < |s| => f(s[i]))
  }

  /** The sum of `f` over the elements of `s`, folded from the left. */
  function SumOf<T>(s: seq<T>, f: T -> int): int
  {
    if |s| == 0 then 0 else SumOf(s[..|s| - 1], f) + f(s[|s| - 1])
  }

  lemma {:induction false} SumOfConcat<T>(a: seq<T>, b: seq<T>, f: T -> int)
    ensures SumOf(a + b, f) == SumOf(a, f) + SumOf(b, f)
  {
    if |b| == 0 {
      assert a + b == a;
    } else {
      assert (a + b)[..|a + b| - 1] == a + b[..|b| - 1];
      SumOfConcat(a, b[..|b| - 1], f);
    }
  }

  lemma SumOfSingleton<T>(x: T, f: T -> int)
    ensures SumOf([x], f) == f(x)
  {
    assert [x][..0] == [];
  }

  /** A sum does not depend on the order of the summands. */
  lemma {:induction false} SumOfPermutation<T>(a: seq<T>, b: seq<T>, f: T -> int)
    requires multiset(a) == multiset(b)
    ensures SumOf(a, f) == SumOf(b, f)
    decreases |a|
  {
    if |a| == 0 {
      assert |b| == |multiset(b)| == 0;
    } else {
      var x := a[0];
      assert x in multiset(b);
      var i :| 0 <= i < |b| && b[i] == x;
      var rest := b[..i] + b[i + 1..];
      assert b == b[..i] + [x] + b[i + 1..];
      assert a == [x] + a[1..];
      assert multiset(b) == multiset(b[..i]) + multiset{x} + multiset(b[i + 1..]);
      assert multiset(rest) == multiset(b[..i]) + multiset(b[i + 1..]);
      assert multiset(a) == multiset{x} + multiset(a[1..]);
      calc {
        multiset(a[1..]);
        multiset(a) - multiset{x};
        multiset(b) - multiset{x};
        multiset(rest);
      }
      SumOfPermutation(a[1..], rest, f);
      SumOfConcat([x], a[1..], f);
      SumOfSingleton(x, f);
      SumOfConcat(b[..i] + [x], b[i + 1..], f);
      SumOfConcat(b[..i], [x], f);
      SumOfConcat(b[..i], b[i + 1..], f);
    }
  }

  /** Every summand bounded by [lo, hi] bounds the sum by |s| copies. */
  lemma {:induction false} SumOfBetween<T>(s: seq<T>, f: T -> int, lo: int, hi: int)
    requires forall i :: 0 <= i < |s| ==> lo <= f(s[i]) <= hi
    ensures lo * |s| <= SumOf(s, f) <= hi * |s|
  {
    if |s| > 0 {
      SumOfBetween(s[..|s| - 1], f, lo, hi);
      assert lo <= f(s[|s| - 1]) <= hi;
    }
  }

  /** Go's running maximum `if x > m { m = x }`, started at `init`. */
  function MaxFrom(init: int, s: seq<int>): (r: int)
    ensures r >= init && forall i :: 0 <= i < |s| ==> s[i] <= r
    ensures r == init || r in s
  {
    if |s| == 0 then init
    else var m := MaxFrom(init, s[..|s| - 1]); if s[|s| - 1] > m then s[|s| - 1] else m
  }

  /** Go's running minimum `if x < m { m = x }`, started at `init`. */
  function MinFrom(init: int, s: seq<int>): (r: int)
    ensures r <= init && forall i :: 0 <= i < |s| ==> r <= s[i]
    ensures r == init || r in s
  {
    if |s| == 0 then init
    else var m := MinFrom(init, s[..|s| - 1]); if s[|s| - 1] < m then s[|s| - 1] else m
  }

  /** A running maximum or minimum depends only on the elements, not on
      their order. */
  lemma ExtremaPermutation(init: int, a: seq<int>, b: seq<int>)
    requires multiset(a) == multiset(b)
    ensures MaxFrom(init, a) == MaxFrom(init, b)
    ensures MinFrom(init, a) == MinFrom(init, b)
  {
    var ma, mb := MaxFrom(init, a), MaxFrom(init, b);
    assert ma == init || ma in multiset(b);
    assert mb == init || mb in multiset(a);
    var na, nb := MinFrom(init, a), MinFrom(init, b);
    assert na == init || na in multiset(b);
    assert nb == init || nb in multiset(a);
  }
}
