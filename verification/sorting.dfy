/** Ordering of query results (SQL `ORDER BY`): a stable insertion sort by
    a total preorder, proved to return a sorted permutation of its input. */
module Sorting {
  import opened Seqs

  /** `le` is total and transitive: a valid `ORDER BY` key comparison. */
  ghost predicate TotalPreorder<T(!new)>(le: (T, T) -> bool)
  {
    && (forall x, y :: le(x, y) || le(y, x))
    && (forall x, y, z :: le(x, y) && le(y, z) ==> le(x, z))
  }

  ghost predicate SortedBy<T>(s: seq<T>, le: (T, T) -> bool)
  {
    forall i, j :: 0 <= i < j < |s| ==> le(s[i], s[j])
  }

  /** `x` placed before the first element it is not after. */
  function Insert<T>(x: T, s: seq<T>, le: (T, T) -> bool): (r: seq<T>)
    ensures multiset(r) == multiset(s) + multiset{x}
  {
    if s == [] then [x]
    else if le(x, s[0]) then [x] + s
    else
      assert s == [s[0]] + s[1..];
      [s[0]] + Insert(x, s[1..], le)
  }

  /** The elements of `Insert(x, s, le)` are `x` and those of `s`. */
  lemma {:induction false} InsertMembers<T>(x: T, s: seq<T>, le: (T, T) -> bool)
    ensures forall y :: y in Insert(x, s, le) <==> y == x || y in s
  {
    if s != [] && !le(x, s[0]) {
      InsertMembers(x, s[1..], le);
      assert s == [s[0]] + s[1..];
    }
  }

  lemma {:induction false} InsertSorted<T(!new)>(x: T, s: seq<T>, le: (T, T) -> bool)
    requires TotalPreorder(le) && SortedBy(s, le)
    ensures SortedBy(Insert(x, s, le), le)
  {
    if s != [] && !le(x, s[0]) {
      var t := Insert(x, s[1..], le);
      InsertSorted(x, s[1..], le);
      InsertMembers(x, s[1..], le);
      assert le(s[0], x);
      forall j | 0 <= j < |t| ensures le(s[0], t[j]) {
        if t[j] != x {
          assert t[j] in s[1..];
          var k :| 0 <= k < |s[1..]| && s[1..][k] == t[j];
          assert s[k + 1] == t[j];
        }
      }
      var r := [s[0]] + t;
      assert r == Insert(x, s, le);
      forall i, j | 0 <= i < j < |r| ensures le(r[i], r[j]) {
        if i == 0 {
          assert r[j] == t[j - 1];
        } else {
          assert r[i] == t[i - 1] && r[j] == t[j - 1];
        }
      }
    }
  }

  /** The rows of `s` ordered by `le`: a sorted permutation of `s`. */
  function Sort<T(!new)>(s: seq<T>, le: (T, T) -> bool): (r: seq<T>)
    requires TotalPreorder(le)
    ensures SortedBy(r, le)
    ensures multiset(r) == multiset(s)
  {
    if s == [] then []
    else
      assert s == [s[0]] + s[1..];
      var t := Sort(s[1..], le);
      InsertSorted(s[0], t, le);
      Insert(s[0], t, le)
  }

  /** A sorted permutation has the input's length and the input's elements. */
  lemma SortKeepsRows<T(!new)>(s: seq<T>, le: (T, T) -> bool)
    requires TotalPreorder(le)
    ensures |Sort(s, le)| == |s|
    ensures forall x :: x in Sort(s, le) <==> x in s
  {
    var r := Sort(s, le);
    assert |multiset(r)| == |multiset(s)|;
    forall x ensures x in r <==> x in s {
      assert x in r <==> x in multiset(r);
      assert x in s <==> x in multiset(s);
    }
  }

  /** A property every input row has, every sorted row has. */
  lemma SortKeepsProperty<T(!new)>(s: seq<T>, le: (T, T) -> bool, p: T -> bool)
    requires TotalPreorder(le)
    requires forall i :: 0 <= i < |s| ==> p(s[i])
    ensures forall k :: 0 <= k < |Sort(s, le)| ==> p(Sort(s, le)[k])
  {
    var r := Sort(s, le);
    forall k | 0 <= k < |r| ensures p(r[k]) {
      assert r[k] in multiset(r);
      assert r[k] in s;
    }
  }

  /** `ORDER BY .. LIMIT n`: the first `n` sorted rows, or all of them when
      fewer, in order, each an input row, and every input row when it fits. */
  lemma TopRows<T(!new)>(s: seq<T>, le: (T, T) -> bool, n: nat)
    requires TotalPreorder(le)
    ensures var w := Window(Sort(s, le), 0, n);
      && |w| == (if |s| < n then |s| else n)
      && (forall i, j :: 0 <= i < j < |w| ==> le(w[i], w[j]))
      && (forall k :: 0 <= k < |w| ==> w[k] in s)
      && (|s| <= n ==> forall x :: x in s ==> x in w)
      && multiset(w) <= multiset(s)
  {
    var sorted := Sort(s, le);
    var w := Window(sorted, 0, n);
    SortKeepsRows(s, le);
    WindowAll(sorted, n);
    WindowKeepsOrder(sorted, 0, n, le);
    WindowSubMultiset(sorted, 0, n);
    forall k | 0 <= k < |w| ensures w[k] in s {
      assert w[k] == sorted[k];
    }
  }
}
