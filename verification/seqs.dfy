/** Sequence helpers shared by the server queries and the client filters:
    order-preserving filtering, subsequences and counting folds. */
module Seqs {
  import opened Common

  /** `sub` can be obtained from `s` by deleting elements, keeping order. */
  predicate IsSubsequence<T(==)>(sub: seq<T>, s: seq<T>)
    decreases |s|
  {
    if sub == [] then true
    else if s == [] then false
    else if sub[0] == s[0] then IsSubsequence(sub[1..], s[1..])
    else IsSubsequence(sub, s[1..])
  }

  /** A subsequence of a subsequence of `c` is a subsequence of `c`. */
  lemma {:induction false} SubsequenceTransitive<T>(a: seq<T>, b: seq<T>, c: seq<T>)
    requires IsSubsequence(a, b) && IsSubsequence(b, c)
    ensures IsSubsequence(a, c)
    decreases |c|
  {
    if a != [] {
      if b[0] == c[0] {
        if a[0] == b[0] {
          SubsequenceTransitive(a[1..], b[1..], c[1..]);
        } else {
          SubsequenceTransitive(a, b[1..], c[1..]);
          SubsequenceOfTail(a, c);
        }
      } else {
        SubsequenceTransitive(a, b, c[1..]);
        SubsequenceOfTail(a, c);
      }
    }
  }

  /** `Array.prototype.filter` and SQL `WHERE`: the elements that satisfy `p`,
      in their original order. */
  function Filter<T(==)>(s: seq<T>, p: T -> bool): (r: seq<T>)
    ensures |r| <= |s|
    ensures forall i :: 0 <= i < |r| ==> p(r[i]) && r[i] in s
    ensures forall i :: 0 <= i < |s| && p(s[i]) ==> s[i] in r
  {
    if s == [] then []
    else if p(s[0]) then [s[0]] + Filter(s[1..], p)
    else Filter(s[1..], p)
  }

  /** Number of elements satisfying `p`: SQL `COUNT(CASE WHEN .. THEN 1 END)`. */
  function CountWhere<T(==)>(s: seq<T>, p: T -> bool): nat
  {
    if s == [] then 0 else (if p(s[0]) then 1 else 0) + CountWhere(s[1..], p)
  }

  /** Sum of `f` over the elements satisfying `p`: SQL `SUM(CASE WHEN .. ELSE 0 END)`. */
  function SumWhere<T(==)>(s: seq<T>, p: T -> bool, f: T -> int): int
  {
    if s == [] then 0 else (if p(s[0]) then f(s[0]) else 0) + SumWhere(s[1..], p, f)
  }

  /** The present results of `f`, in order: the rows an inner join keeps. */
  function Collect<T, U>(s: seq<T>, f: T -> Option<U>): (r: seq<U>)
    ensures |r| <= |s|
    ensures forall k :: 0 <= k < |r| ==> exists i :: 0 <= i < |s| && f(s[i]) == Some(r[k])
    ensures forall i :: 0 <= i < |s| && f(s[i]).Some? ==> f(s[i]).value in r
  {
    if s == [] then []
    else
      var rest := Collect(s[1..], f);
      var r := (if f(s[0]).Some? then [f(s[0]).value] else []) + rest;
      assert forall i :: 1 <= i < |s| ==> s[i] == s[1..][i - 1];
      r
  }

  /** A join keeps as many rows as satisfy the predicate that says the join succeeds. */
  lemma {:induction false} CollectLength<T, U>(s: seq<T>, f: T -> Option<U>, p: T -> bool)
    requires forall i :: 0 <= i < |s| ==> (p(s[i]) <==> f(s[i]).Some?)
    ensures |Collect(s, f)| == CountWhere(s, p)
  {
    if s != [] {
      CollectLength(s[1..], f, p);
    }
  }

  /** A join is the filter by join success followed by the join: line `k`
      is the joined value of the `k`-th row that joins, so order and
      repetitions are those of the input. */
  lemma {:induction false} CollectIsFilterThenJoin<T, U>(s: seq<T>, f: T -> Option<U>, p: T -> bool)
    requires forall x :: p(x) <==> f(x).Some?
    ensures |Collect(s, f)| == |Filter(s, p)|
    ensures forall k :: 0 <= k < |Filter(s, p)| ==> f(Filter(s, p)[k]) == Some(Collect(s, f)[k])
  {
    if s != [] {
      CollectIsFilterThenJoin(s[1..], f, p);
      var rest, kept := Collect(s[1..], f), Filter(s[1..], p);
      if p(s[0]) {
        assert Collect(s, f) == [f(s[0]).value] + rest;
        assert Filter(s, p) == [s[0]] + kept;
      } else {
        assert Collect(s, f) == rest;
        assert Filter(s, p) == kept;
      }
    }
  }

  /** The filter result is a subsequence of its input: kept elements stay in order. */
  lemma {:induction false} FilterIsSubsequence<T>(s: seq<T>, p: T -> bool)
    ensures IsSubsequence(Filter(s, p), s)
  {
    if s != [] {
      FilterIsSubsequence(s[1..], p);
      if p(s[0]) {
        assert Filter(s, p) == [s[0]] + Filter(s[1..], p);
      } else {
        SubsequenceOfTail(Filter(s, p), s);
      }
    }
  }

  lemma {:induction false} SubsequenceOfTail<T>(sub: seq<T>, s: seq<T>)
    requires s != [] && IsSubsequence(sub, s[1..])
    ensures IsSubsequence(sub, s)
    decreases |s|, 0
  {
    if sub != [] && sub[0] == s[0] {
      SubsequenceDropHead(sub, s[1..]);
    }
  }

  lemma {:induction false} SubsequenceDropHead<T>(sub: seq<T>, s: seq<T>)
    requires sub != [] && IsSubsequence(sub, s)
    ensures IsSubsequence(sub[1..], s)
    decreases |s|, 1
  {
    if sub[0] != s[0] {
      SubsequenceDropHead(sub, s[1..]);
      SubsequenceOfTail(sub[1..], s);
    } else if sub[1..] != [] {
      SubsequenceOfTail(sub[1..], s);
    }
  }

  /** Filtering commutes with concatenation, the other face of order preservation. */
  lemma {:induction false} FilterAppend<T>(a: seq<T>, b: seq<T>, p: T -> bool)
    ensures Filter(a + b, p) == Filter(a, p) + Filter(b, p)
  {
    if a == [] {
      assert a + b == b;
    } else {
      assert (a + b)[0] == a[0];
      assert (a + b)[1..] == a[1..] + b;
      FilterAppend(a[1..], b, p);
    }
  }

  /** Filtering by `p` keeps everything iff everything already satisfies `p`. */
  lemma {:induction false} FilterAll<T>(s: seq<T>, p: T -> bool)
    requires forall i :: 0 <= i < |s| ==> p(s[i])
    ensures Filter(s, p) == s
  {
    if s != [] {
      FilterAll(s[1..], p);
    }
  }

  /** Filtering twice by the same predicate is filtering once. */
  lemma FilterIdempotent<T>(s: seq<T>, p: T -> bool)
    ensures Filter(Filter(s, p), p) == Filter(s, p)
  {
    FilterAll(Filter(s, p), p);
  }

  /** Filters by predicates that agree everywhere agree. */
  lemma {:induction false} FilterCongruent<T>(s: seq<T>, p: T -> bool, q: T -> bool)
    requires forall x :: p(x) == q(x)
    ensures Filter(s, p) == Filter(s, q)
  {
    if s != [] {
      FilterCongruent(s[1..], p, q);
    }
  }

  /** Filtering by `p` then `q` is filtering by their conjunction. */
  lemma {:induction false} FilterFilter<T>(s: seq<T>, p: T -> bool, q: T -> bool)
    ensures Filter(Filter(s, p), q) == Filter(s, x => p(x) && q(x))
  {
    if s != [] {
      FilterFilter(s[1..], p, q);
    }
  }

  /** A filter's length is the count of the same predicate. */
  lemma {:induction false} FilterLength<T>(s: seq<T>, p: T -> bool)
    ensures |Filter(s, p)| == CountWhere(s, p)
  {
    if s != [] {
      FilterLength(s[1..], p);
    }
  }

  /** Filtering by `p` and by its negation `q` splits the sequence into two
      parts that together hold every element exactly as often as before. */
  lemma {:induction false} FilterSplit<T>(s: seq<T>, p: T -> bool, q: T -> bool)
    requires forall x :: q(x) <==> !p(x)
    ensures multiset(Filter(s, p)) + multiset(Filter(s, q)) == multiset(s)
  {
    if s != [] {
      var x, rest := s[0], s[1..];
      FilterSplit(rest, p, q);
      assert s == [x] + rest;
      FilterCons(x, rest, p);
      FilterCons(x, rest, q);
      if p(x) {
        assert multiset(Filter(s, p)) == multiset{x} + multiset(Filter(rest, p));
      } else {
        assert multiset(Filter(s, q)) == multiset{x} + multiset(Filter(rest, q));
      }
    }
  }

  /** Filtering a sequence with a first element. */
  lemma FilterCons<T>(x: T, rest: seq<T>, p: T -> bool)
    ensures Filter([x] + rest, p) == if p(x) then [x] + Filter(rest, p) else Filter(rest, p)
  {
    assert ([x] + rest)[1..] == rest;
  }

  /** Counting by `p` and by its negation splits the whole sequence. */
  lemma {:induction false} CountComplement<T>(s: seq<T>, p: T -> bool)
    ensures CountWhere(s, p) + CountWhere(s, x => !p(x)) == |s|
  {
    if s != [] {
      CountComplement(s[1..], p);
    }
  }

  /** A count never exceeds the length. */
  lemma {:induction false} CountBound<T>(s: seq<T>, p: T -> bool)
    ensures CountWhere(s, p) <= |s|
  {
    if s != [] {
      CountBound(s[1..], p);
    }
  }

  function Indicator(b: bool): nat { if b then 1 else 0 }

  /** Counts of pairwise exclusive predicates covering every element add up to the length. */
  lemma {:induction false} CountPartition4<T>(s: seq<T>, a: T -> bool, b: T -> bool, c: T -> bool, d: T -> bool)
    requires forall x :: Indicator(a(x)) + Indicator(b(x)) + Indicator(c(x)) + Indicator(d(x)) == 1
    ensures CountWhere(s, a) + CountWhere(s, b) + CountWhere(s, c) + CountWhere(s, d) == |s|
  {
    if s != [] {
      CountPartition4(s[1..], a, b, c, d);
    }
  }

  /** Sum of `f` over every element: SQL `SUM` without a condition. */
  function Sum<T>(s: seq<T>, f: T -> int): int
  {
    if s == [] then 0 else f(s[0]) + Sum(s[1..], f)
  }

  /** A conditional sum is the plain sum over the filtered rows. */
  lemma {:induction false} SumWhereIsSumOfFilter<T>(s: seq<T>, p: T -> bool, f: T -> int)
    ensures SumWhere(s, p, f) == Sum(Filter(s, p), f)
  {
    if s != [] {
      SumWhereIsSumOfFilter(s[1..], p, f);
      if p(s[0]) {
        assert Filter(s, p) == [s[0]] + Filter(s[1..], p);
        assert ([s[0]] + Filter(s[1..], p))[1..] == Filter(s[1..], p);
      }
    }
  }

  /** `LIMIT count OFFSET offset`: at most `count` rows, starting at `offset`. */
  function Window<T>(s: seq<T>, offset: nat, count: nat): (r: seq<T>)
    ensures offset >= |s| ==> r == []
    ensures offset < |s| ==> |r| == if offset + count <= |s| then count else |s| - offset
    ensures forall k :: 0 <= k < |r| ==> offset + k < |s| && r[k] == s[offset + k]
  {
    if offset >= |s| then []
    else if offset + count <= |s| then s[offset..offset + count]
    else s[offset..]
  }

  /** A first window holds `count` rows, or every row when there are no more. */
  lemma WindowAll<T>(s: seq<T>, count: nat)
    ensures |Window(s, 0, count)| == if |s| < count then |s| else count
    ensures |s| <= count ==> Window(s, 0, count) == s
  {
    if s != [] && |s| <= count {
      assert s[0..] == s;
    }
  }

  /** A window takes each row at most as often as the rows hold it. */
  lemma WindowSubMultiset<T>(s: seq<T>, offset: nat, count: nat)
    ensures multiset(Window(s, offset, count)) <= multiset(s)
  {
    if offset < |s| {
      var end := if offset + count <= |s| then offset + count else |s|;
      assert Window(s, offset, count) == s[offset..end];
      assert s == s[..offset] + s[offset..end] + s[end..];
      assert multiset(s) == multiset(s[..offset]) + multiset(s[offset..end]) + multiset(s[end..]);
    }
  }

  /** A window of rows ordered by `le` is ordered by `le`. */
  lemma WindowKeepsOrder<T>(s: seq<T>, offset: nat, count: nat, le: (T, T) -> bool)
    requires forall i, j :: 0 <= i < j < |s| ==> le(s[i], s[j])
    ensures var w := Window(s, offset, count);
      forall i, j :: 0 <= i < j < |w| ==> le(w[i], w[j])
  {
    var w := Window(s, offset, count);
    forall i, j | 0 <= i < j < |w| ensures le(w[i], w[j]) {
      assert w[i] == s[offset + i] && w[j] == s[offset + j];
    }
  }

  /** A window of rows that all satisfy `p` satisfies `p`. */
  lemma WindowKeepsProperty<T>(s: seq<T>, offset: nat, count: nat, p: T -> bool)
    requires forall i :: 0 <= i < |s| ==> p(s[i])
    ensures var w := Window(s, offset, count);
      forall k :: 0 <= k < |w| ==> p(w[k])
  {
    var w := Window(s, offset, count);
    forall k | 0 <= k < |w| ensures p(w[k]) {
      assert w[k] == s[offset + k];
    }
  }

  /** `ORDER BY .. LIMIT n` keeps the first rows: an ordered row left out
      comes after every row kept. */
  lemma LeftOutComesAfter<T>(s: seq<T>, n: nat, le: (T, T) -> bool, x: T)
    requires forall i, j :: 0 <= i < j < |s| ==> le(s[i], s[j])
    requires x in s && x !in Window(s, 0, n)
    ensures var w := Window(s, 0, n);
      forall k :: 0 <= k < |w| ==> le(w[k], x)
  {
    var w := Window(s, 0, n);
    var j :| 0 <= j < |s| && s[j] == x;
    assert forall k :: 0 <= k < |w| ==> w[k] == s[k];
    assert |w| <= j;
  }

  /** The first element satisfying `p`: a `SELECT .. WHERE p LIMIT 1` lookup. */
  function Find<T>(s: seq<T>, p: T -> bool): (r: Option<T>)
    ensures r.Some? ==> p(r.value) && r.value in s
    ensures r.None? <==> forall i :: 0 <= i < |s| ==> !p(s[i])
  {
    if s == [] then None
    else if p(s[0]) then Some(s[0])
    else Find(s[1..], p)
  }

  /** A lookup finds an appended element when nothing before it qualifies. */
  lemma {:induction false} FindAppended<T>(s: seq<T>, x: T, p: T -> bool)
    requires forall i :: 0 <= i < |s| ==> !p(s[i])
    requires p(x)
    ensures Find(s + [x], p) == Some(x)
  {
    if s != [] {
      assert (s + [x])[1..] == s[1..] + [x];
      FindAppended(s[1..], x, p);
    }
  }

  /** `ok` holds of every pair of positions, earlier one first: the shape of a UNIQUE constraint. */
  ghost predicate Pairwise<T>(s: seq<T>, ok: (T, T) -> bool)
  {
    forall i, j :: 0 <= i < j < |s| ==> ok(s[i], s[j])
  }

  /** Deleting rows keeps every pairwise constraint. */
  lemma {:induction false} FilterPairwise<T>(s: seq<T>, p: T -> bool, ok: (T, T) -> bool)
    requires Pairwise(s, ok)
    ensures Pairwise(Filter(s, p), ok)
  {
    if s != [] {
      FilterPairwise(s[1..], p, ok);
      var t := Filter(s[1..], p);
      if p(s[0]) {
        var r := Filter(s, p);
        assert r == [s[0]] + t;
        forall i, j | 0 <= i < j < |r| ensures ok(r[i], r[j]) {
          if i == 0 {
            assert r[j] == t[j - 1] && t[j - 1] in s[1..];
            var k :| 0 <= k < |s[1..]| && s[1..][k] == t[j - 1];
            assert s[k + 1] == r[j];
          } else {
            assert r[i] == t[i - 1] && r[j] == t[j - 1];
          }
        }
      }
    }
  }

  /** Appending a row keeps a pairwise constraint when the row is compatible with every earlier one. */
  lemma PairwiseAppend<T>(s: seq<T>, x: T, ok: (T, T) -> bool)
    requires Pairwise(s, ok)
    requires forall i :: 0 <= i < |s| ==> ok(s[i], x)
    ensures Pairwise(s + [x], ok)
  {
    var r := s + [x];
    forall i, j | 0 <= i < j < |r| ensures ok(r[i], r[j]) {
      if j < |s| {
        assert r[i] == s[i] && r[j] == s[j];
      } else {
        assert r[i] == s[i] && r[j] == x;
      }
    }
  }
}
