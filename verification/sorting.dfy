/** `Array.prototype.sort` with a comparator. ECMAScript requires the sort
    to be stable, and with a consistent comparator the stable ordering is
    unique, so the model is a stable insertion sort driven by `leq(a, b)`,
    which stands for "the comparator returns a value <= 0 for (a, b)". */
module Sorting {
  import opened Seqs

  /** `leq` is total and transitive on the elements of `xs`: the
      comparator is consistent there, as ECMAScript requires for a
      well-defined result. */
  ghost predicate PreorderOn<T(!new)>(leq: (T, T) -> bool, xs: seq<T>) {
    && (forall a, b | a in xs && b in xs :: leq(a, b) || leq(b, a))
    && (forall a, b, c | a in xs && b in xs && c in xs && leq(a, b) && leq(b, c) :: leq(a, c))
  }

  /** Every element is `leq` every later element. */
  ghost predicate SortedBy<T>(leq: (T, T) -> bool, xs: seq<T>) {
    forall i, j | 0 <= i < j < |xs| :: leq(xs[i], xs[j])
  }

  /** The elements the comparator cannot tell apart from `k`. */
  function EquivTo<T>(leq: (T, T) -> bool, k: T): T -> bool {
    (y: T) => leq(y, k) && leq(k, y)
  }

  /** Inserts `x` before the first element it is `leq` to. */
  function Insert<T>(leq: (T, T) -> bool, x: T, s: seq<T>): (r: seq<T>)
    ensures |r| == |s| + 1
    ensures multiset(r) == multiset(s) + multiset{x}
    decreases |s|
  {
    if s == [] then [x]
    else if leq(x, s[0]) then [x] + s
    else
      assert s == [s[0]] + s[1..];
      [s[0]] + Insert(leq, x, s[1..])
  }

  /** Stable insertion sort. */
  function Sort<T>(leq: (T, T) -> bool, xs: seq<T>): (r: seq<T>)
    ensures |r| == |xs|
    ensures multiset(r) == multiset(xs)
    decreases |xs|
  {
    if xs == [] then []
    else
      assert xs == [xs[0]] + xs[1..];
      Insert(leq, xs[0], Sort(leq, xs[1..]))
  }

  lemma PreorderOnSubset<T(!new)>(leq: (T, T) -> bool, xs: seq<T>, ys: seq<T>)
    requires PreorderOn(leq, xs)
    requires forall y | y in ys :: y in xs
    ensures PreorderOn(leq, ys)
  {
  }

  lemma {:induction false} InsertSorted<T(!new)>(leq: (T, T) -> bool, x: T, s: seq<T>)
    requires PreorderOn(leq, [x] + s)
    requires SortedBy(leq, s)
    ensures SortedBy(leq, Insert(leq, x, s))
    decreases |s|
  {
    if s != [] {
      if leq(x, s[0]) {
        var r := [x] + s;
        forall i, j | 0 <= i < j < |r| ensures leq(r[i], r[j]) {
          if i == 0 && j > 1 {
            assert leq(s[0], s[j - 1]);
          }
        }
      } else {
        assert leq(s[0], x);
        PreorderOnSubset(leq, [x] + s, [x] + s[1..]);
        InsertSorted(leq, x, s[1..]);
        var t := Insert(leq, x, s[1..]);
        var r := [s[0]] + t;
        forall i, j | 0 <= i < j < |r| ensures leq(r[i], r[j]) {
          if i == 0 {
            assert r[j] in multiset(t);
            assert r[j] == x || r[j] in s[1..];
            if r[j] != x {
              var m :| 1 <= m < |s| && s[m] == r[j];
            }
          } else {
            assert r[i] == t[i - 1] && r[j] == t[j - 1];
          }
        }
      }
    }
  }

  /** With a consistent comparator the result is ordered. */
  lemma {:induction false} SortSorted<T(!new)>(leq: (T, T) -> bool, xs: seq<T>)
    requires PreorderOn(leq, xs)
    ensures SortedBy(leq, Sort(leq, xs))
    decreases |xs|
  {
    if xs != [] {
      PreorderOnSubset(leq, xs, xs[1..]);
      SortSorted(leq, xs[1..]);
      var t := Sort(leq, xs[1..]);
      forall y | y in [xs[0]] + t ensures y in xs {
        if y != xs[0] {
          assert y in multiset(t);
        }
      }
      PreorderOnSubset(leq, xs, [xs[0]] + t);
      InsertSorted(leq, xs[0], t);
    }
  }

  /** Filtering an insertion by a class `p` in which `x` is `leq` every
      member: a member `x` lands in front of the class, and any other `x`
      leaves the class untouched. */
  lemma {:induction false} InsertKeepsClass<T(!new)>(leq: (T, T) -> bool, p: T -> bool, x: T, s: seq<T>)
    requires forall y | y in s :: p(x) && p(y) ==> leq(x, y)
    ensures Filter(p, Insert(leq, x, s)) == (if p(x) then [x] else []) + Filter(p, s)
    decreases |s|
  {
    if s == [] {
    } else if leq(x, s[0]) {
      assert ([x] + s)[1..] == s;
    } else {
      assert s[0] in s;
      var rest := Insert(leq, x, s[1..]);
      InsertKeepsClass(leq, p, x, s[1..]);
      assert Insert(leq, x, s)[1..] == rest;
    }
  }

  /** One instance of transitivity. */
  lemma PreorderTransitiveAt<T(!new)>(leq: (T, T) -> bool, xs: seq<T>, a: T, b: T, c: T)
    requires PreorderOn(leq, xs)
    requires a in xs && b in xs && c in xs
    ensures leq(a, b) && leq(b, c) ==> leq(a, c)
  {
  }

  /** Stability: within each class of elements the comparator considers
      equal, the sorted result keeps the input order. */
  lemma {:induction false} SortStable<T(!new)>(leq: (T, T) -> bool, k: T, xs: seq<T>)
    requires PreorderOn(leq, [k] + xs)
    ensures Filter(EquivTo(leq, k), Sort(leq, xs)) == Filter(EquivTo(leq, k), xs)
    decreases |xs|
  {
    if xs != [] {
      PreorderOnSubset(leq, [k] + xs, [k] + xs[1..]);
      SortStable(leq, k, xs[1..]);
      var t := Sort(leq, xs[1..]);
      forall y | y in t ensures EquivTo(leq, k)(xs[0]) && EquivTo(leq, k)(y) ==> leq(xs[0], y) {
        assert y in multiset(t);
        assert y in [k] + xs;
        PreorderTransitiveAt(leq, [k] + xs, xs[0], k, y);
      }
      InsertKeepsClass(leq, EquivTo(leq, k), xs[0], t);
    }
  }

  /** `sort(...).slice(0, k)`: the first `k` of the sorted elements are
      elements of `xs`, in order, and every element left out is `leq`-after
      each one taken. */
  lemma SortedPrefixIsSmallest<T(!new)>(leq: (T, T) -> bool, xs: seq<T>, k: nat)
    requires PreorderOn(leq, xs)
    ensures forall x | x in Take(Sort(leq, xs), k) :: x in xs
    ensures SortedBy(leq, Take(Sort(leq, xs), k))
    ensures forall x, e | x in Take(Sort(leq, xs), k) && e in xs && e !in Take(Sort(leq, xs), k) :: leq(x, e)
  {
    var s := Sort(leq, xs);
    var r := Take(s, k);
    SortSorted(leq, xs);
    forall x | x in r ensures x in xs {
      assert x in multiset(s);
    }
    forall x, e | x in r && e in xs && e !in r ensures leq(x, e) {
      assert e in multiset(s);
      var i :| 0 <= i < |r| && r[i] == x;
      var j :| 0 <= j < |s| && s[j] == e;
    }
  }
}
