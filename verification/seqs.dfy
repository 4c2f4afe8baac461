/** Sequence helpers the query models share: a WHERE-style filter, the first
    index satisfying a condition, and an ORDER BY ... DESC sort on an integer key. */
module Seqs {

  /** The elements of `xs` that satisfy `p`, in their original order. */
  function Filter<T>(xs: seq<T>, p: T -> bool): (ys: seq<T>)
    ensures |ys| <= |xs|
    ensures forall i :: 0 <= i < |ys| ==> ys[i] in xs && p(ys[i])
    ensures forall i :: 0 <= i < |xs| && p(xs[i]) ==> xs[i] in ys
  {
    if xs == [] then []
    else
      assert xs == [xs[0]] + xs[1..];
      if p(xs[0]) then [xs[0]] + Filter(xs[1..], p)
      else Filter(xs[1..], p)
  }

  /** The position of the first element of `xs` that satisfies `p`, if any. */
  function IndexWhere<T>(xs: seq<T>, p: T -> bool): (k: Option<nat>)
    ensures k.Some? ==> k.value < |xs| && p(xs[k.value])
    ensures k.Some? ==> forall j :: 0 <= j < k.value ==> !p(xs[j])
    ensures k.None? ==> forall j :: 0 <= j < |xs| ==> !p(xs[j])
  {
    if xs == [] then None
    else if p(xs[0]) then Some(0)
    else match IndexWhere(xs[1..], p)
      case None => None
      case Some(k) => Some(k + 1)
  }

  datatype Option<T> = None | Some(value: T)

  /** Filtering twice does not depend on the order of the two conditions. */
  lemma {:induction false} FilterCommutes<T>(xs: seq<T>, p: T -> bool, q: T -> bool)
    ensures Filter(Filter(xs, p), q) == Filter(Filter(xs, q), p)
  {
    if xs != [] {
      FilterCommutes(xs[1..], p, q);
    }
  }

  /** `xs` is ordered by `key`, largest first. */
  ghost predicate DescendingBy<T>(xs: seq<T>, key: T -> int)
  {
    forall i, j :: 0 <= i < j < |xs| ==> key(xs[i]) >= key(xs[j])
  }

  /** Inserts `x` into a sequence ordered largest-key first, before the first
      element whose key is not larger than its own. */
  function InsertBy<T>(x: T, xs: seq<T>, key: T -> int): (ys: seq<T>)
    requires DescendingBy(xs, key)
    ensures DescendingBy(ys, key)
    ensures multiset(ys) == multiset(xs) + multiset{x}
    ensures |ys| == |xs| + 1
    ensures ys[0] == x || (|xs| > 0 && ys[0] == xs[0])
  {
    if xs == [] || key(xs[0]) <= key(x) then [x] + xs
    else
      assert xs == [xs[0]] + xs[1..];
      var rest := InsertBy(x, xs[1..], key);
      assert key(rest[0]) <= key(xs[0]);
      [xs[0]] + rest
  }

  /** `xs` ordered by `key`, largest first, as an ORDER BY key DESC does. */
  function SortDescendingBy<T>(xs: seq<T>, key: T -> int): (ys: seq<T>)
    ensures DescendingBy(ys, key)
    ensures multiset(ys) == multiset(xs)
  {
    if xs == [] then []
    else
      assert xs == [xs[0]] + xs[1..];
      InsertBy(xs[0], SortDescendingBy(xs[1..], key), key)
  }

  /** Sorting keeps exactly the elements it was given. */
  lemma SortKeepsElements<T>(xs: seq<T>, key: T -> int)
    ensures forall x :: x in SortDescendingBy(xs, key) <==> x in xs
  {
    var ys := SortDescendingBy(xs, key);
    forall x ensures x in ys <==> x in xs {
      assert x in ys <==> x in multiset(ys);
      assert x in xs <==> x in multiset(xs);
    }
  }

  /** The first `n` elements (all, when there are fewer) are among the elements. */
  lemma PrefixWithin<T>(xs: seq<T>, n: nat)
    ensures multiset(if |xs| < n then xs else xs[..n]) <= multiset(xs)
  {
    if n <= |xs| {
      assert xs == xs[..n] + xs[n..];
    }
  }

  /** The `n` elements with the largest keys, largest first (ORDER BY key DESC LIMIT n). */
  function TopBy<T>(xs: seq<T>, key: T -> int, n: nat): (ys: seq<T>)
    ensures |ys| == if |xs| < n then |xs| else n
    ensures DescendingBy(ys, key)
    ensures forall i :: 0 <= i < |ys| ==> ys[i] in xs
    ensures multiset(ys) <= multiset(xs)
    ensures forall k :: 0 <= k < |xs| ==> xs[k] in ys || (n == |ys| && (n == 0 || key(xs[k]) <= key(ys[n - 1])))
  {
    var sorted := SortDescendingBy(xs, key);
    SortKeepsElements(xs, key);
    var ys := if |sorted| < n then sorted else sorted[..n];
    PrefixWithin(sorted, n);
    forall k | 0 <= k < |xs|
      ensures xs[k] in ys || (n == |ys| && (n == 0 || key(xs[k]) <= key(ys[n - 1])))
    {
      assert xs[k] in sorted;
      var j :| 0 <= j < |sorted| && sorted[j] == xs[k];
      if j >= n && n > 0 {
        assert key(sorted[j]) <= key(sorted[n - 1]);
      } else if j < n {
        assert ys[j] == xs[k];
      }
    }
    forall i | 0 <= i < |ys| ensures ys[i] in xs {
      assert ys[i] == sorted[i];
      assert sorted[i] in multiset(sorted);
    }
    ys
  }

  /** The element with the largest key (ORDER BY key DESC LIMIT 1), if any. */
  function Largest<T>(xs: seq<T>, key: T -> int): (r: Option<T>)
    ensures r.None? <==> xs == []
    ensures r.Some? ==> r.value in xs
    ensures r.Some? ==> forall k :: 0 <= k < |xs| ==> key(xs[k]) <= key(r.value)
  {
    var top := TopBy(xs, key, 1);
    if top == [] then None else Some(top[0])
  }

  /** `f` applied to every element (a SELECT list). */
  function Map<T, U>(xs: seq<T>, f: T -> U): (ys: seq<U>)
    ensures |ys| == |xs|
    ensures forall i :: 0 <= i < |xs| ==> ys[i] == f(xs[i])
  {
    seq(|xs|, i requires 0 <= i < |xs| => f(xs[i]))
  }

  /** No two elements of `xs` share a key. */
  ghost predicate DistinctBy<T>(xs: seq<T>, key: T -> int)
  {
    forall i, j :: 0 <= i < j < |xs| ==> key(xs[i]) != key(xs[j])
  }

  /** Pairwise distinct keys stay pairwise distinct after a filter. */
  lemma {:induction false} FilterKeepsDistinct<T>(xs: seq<T>, p: T -> bool, key: T -> int)
    requires DistinctBy(xs, key)
    ensures DistinctBy(Filter(xs, p), key)
  {
    if xs != [] {
      var rest := xs[1..];
      forall i, j | 0 <= i < j < |rest| ensures key(rest[i]) != key(rest[j]) {
        assert rest[i] == xs[i + 1] && rest[j] == xs[j + 1];
      }
      FilterKeepsDistinct(rest, p, key);
      var fr := Filter(rest, p);
      if p(xs[0]) {
        forall k | 0 <= k < |fr| ensures key(fr[k]) != key(xs[0]) {
          var m :| 0 <= m < |rest| && rest[m] == fr[k];
          assert xs[m + 1] == fr[k];
        }
        var ys := [xs[0]] + fr;
        assert Filter(xs, p) == ys;
        forall i, j | 0 <= i < j < |ys| ensures key(ys[i]) != key(ys[j]) {
          if i == 0 {
            assert ys[j] == fr[j - 1];
          } else {
            assert ys[i] == fr[i - 1] && ys[j] == fr[j - 1];
          }
        }
      }
    }
  }

  /** Filtering and then mapping with a function that carries the key over
      keeps pairwise distinct keys distinct. */
  lemma SelectDistinct<T, U>(xs: seq<T>, p: T -> bool, f: T -> U, key: T -> int, key': U -> int)
    requires forall x :: key'(f(x)) == key(x)
    ensures DistinctBy(xs, key) ==> DistinctBy(Map(Filter(xs, p), f), key')
  {
    if DistinctBy(xs, key) {
      FilterKeepsDistinct(xs, p, key);
    }
  }

  /** The filter keeps exactly the elements that satisfy the condition. */
  lemma FilterMembers<T>(xs: seq<T>, p: T -> bool)
    ensures forall x :: x in Filter(xs, p) <==> x in xs && p(x)
  {
    var ys := Filter(xs, p);
    forall x | x in xs && p(x) ensures x in ys {
      var k :| 0 <= k < |xs| && xs[k] == x;
    }
    forall x | x in ys ensures x in xs && p(x) {
      var k :| 0 <= k < |ys| && ys[k] == x;
    }
  }

  /** Filtering by `p` and then by `q` is filtering by their conjunction `r`. */
  lemma {:induction false} FilterBoth<T>(xs: seq<T>, p: T -> bool, q: T -> bool, r: T -> bool)
    requires forall x :: r(x) == (p(x) && q(x))
    ensures Filter(Filter(xs, p), q) == Filter(xs, r)
  {
    if xs != [] {
      FilterBoth(xs[1..], p, q, r);
    }
  }

  /** A filter that no element passes keeps nothing. */
  lemma {:induction false} FilterNone<T>(xs: seq<T>, p: T -> bool)
    requires forall x :: x in xs ==> !p(x)
    ensures Filter(xs, p) == []
  {
    if xs != [] {
      assert xs[0] in xs;
      assert forall x :: x in xs[1..] ==> x in xs;
      FilterNone(xs[1..], p);
    }
  }

  /** A filtered projection holds the image of every selected element and nothing else. */
  lemma SelectMembers<T, U>(xs: seq<T>, p: T -> bool, f: T -> U)
    ensures forall x :: x in xs && p(x) ==> f(x) in Map(Filter(xs, p), f)
    ensures forall y :: y in Map(Filter(xs, p), f) ==> exists x :: x in xs && p(x) && y == f(x)
  {
    var ys := Filter(xs, p);
    var zs := Map(ys, f);
    FilterMembers(xs, p);
    forall x | x in xs && p(x) ensures f(x) in zs {
      var k :| 0 <= k < |ys| && ys[k] == x;
      assert zs[k] == f(x);
    }
    forall y | y in zs ensures exists x :: x in xs && p(x) && y == f(x) {
      var k :| 0 <= k < |zs| && zs[k] == y;
      assert ys[k] in ys;
    }
  }

  /** The largest-key element among those satisfying `p`: absent exactly when
      none does, otherwise one of them whose key no other one exceeds. */
  lemma LargestOfFilter<T>(xs: seq<T>, p: T -> bool, key: T -> int)
    ensures Largest(Filter(xs, p), key).None? <==> forall x :: x in xs ==> !p(x)
    ensures Largest(Filter(xs, p), key).Some? ==>
              var m := Largest(Filter(xs, p), key).value;
              m in xs && p(m) && forall x :: x in xs && p(x) ==> key(x) <= key(m)
  {
    var ys := Filter(xs, p);
    FilterMembers(xs, p);
    var m := Largest(ys, key);
    if m.Some? {
      forall x | x in xs && p(x) ensures key(x) <= key(m.value) {
        var k :| 0 <= k < |ys| && ys[k] == x;
      }
    } else {
      assert ys == [];
    }
  }

  /** The top `n` of the elements satisfying `p`: each satisfies it, and every
      satisfying element is among them or no larger than the last of them. */
  lemma TopOfFilter<T>(xs: seq<T>, p: T -> bool, key: T -> int, n: nat)
    ensures forall y :: y in TopBy(Filter(xs, p), key, n) ==> y in xs && p(y)
    ensures multiset(TopBy(Filter(xs, p), key, n)) <= multiset(Filter(xs, p))
    ensures var ys := TopBy(Filter(xs, p), key, n);
            forall x :: x in xs && p(x) ==> x in ys || (|ys| == n && (n == 0 || key(x) <= key(ys[n - 1])))
  {
    var fs := Filter(xs, p);
    var ys := TopBy(fs, key, n);
    FilterMembers(xs, p);
    forall y | y in ys ensures y in xs && p(y) {
      var k :| 0 <= k < |ys| && ys[k] == y;
    }
    forall x | x in xs && p(x) ensures x in ys || (|ys| == n && (n == 0 || key(x) <= key(ys[n - 1]))) {
      var k :| 0 <= k < |fs| && fs[k] == x;
    }
  }
}
