/** The two array operations the task list is built from: `Array.prototype.filter`
    and a stable `Array.prototype.sort` driven by a numeric key. */
module Sequences {

  /** The elements of `s` that satisfy `p`, in their original order. */
  function Filter<T>(s: seq<T>, p: T -> bool): (r: seq<T>)
    ensures |r| <= |s|
  {
    if s == [] then []
    else if p(s[0]) then [s[0]] + Filter(s[1..], p)
    else Filter(s[1..], p)
  }

  /** The filter keeps exactly the elements that pass the test. */
  lemma {:induction false} FilterMembers<T>(s: seq<T>, p: T -> bool)
    ensures forall x | x in Filter(s, p) :: x in s && p(x)
    ensures forall x | x in s && p(x) :: x in Filter(s, p)
  {
    if s != [] {
      FilterMembers(s[1..], p);
      assert forall x | x in s[1..] :: x in s;
      assert forall x | x in s :: x == s[0] || x in s[1..];
    }
  }

  /** The filter keeps every copy of a passing element and no copy of any other. */
  lemma {:induction false} FilterCount<T>(s: seq<T>, p: T -> bool)
    ensures forall x :: multiset(Filter(s, p))[x] == if p(x) then multiset(s)[x] else 0
  {
    if s != [] {
      FilterCount(s[1..], p);
      assert s == [s[0]] + s[1..];
    }
  }

  /** `a` is `b` with some elements left out: what remains keeps its relative order. */
  predicate IsSubseq<T(==)>(a: seq<T>, b: seq<T>)
    decreases |b|
  {
    if b == [] then a == []
    else (a != [] && a[0] == b[0] && IsSubseq(a[1..], b[1..])) || IsSubseq(a, b[1..])
  }

  /** Filtering only drops elements; the survivors stay in order. */
  lemma {:induction false} FilterIsSubseq<T>(s: seq<T>, p: T -> bool)
    ensures IsSubseq(Filter(s, p), s)
  {
    if s != [] {
      FilterIsSubseq(s[1..], p);
      if p(s[0]) {
        var r := Filter(s, p);
        assert r[0] == s[0] && r[1..] == Filter(s[1..], p);
      }
    }
  }

  /** Filtering with the same test twice is filtering once. */
  lemma {:induction false} FilterIdempotent<T>(s: seq<T>, p: T -> bool)
    ensures Filter(Filter(s, p), p) == Filter(s, p)
  {
    if s != [] {
      FilterIdempotent(s[1..], p);
      if p(s[0]) {
        var r := [s[0]] + Filter(s[1..], p);
        assert r[1..] == Filter(s[1..], p);
      }
    }
  }

  /** The filter keeps the whole sequence exactly when every element passes. */
  lemma {:induction false} FilterKeepsAllIff<T>(s: seq<T>, p: T -> bool)
    ensures Filter(s, p) == s <==> forall i :: 0 <= i < |s| ==> p(s[i])
    ensures |Filter(s, p)| == |s| <==> forall i :: 0 <= i < |s| ==> p(s[i])
  {
    if s != [] {
      FilterKeepsAllIff(s[1..], p);
      if !p(s[0]) {
        assert |Filter(s, p)| < |s|;
      } else if forall i :: 0 <= i < |s| ==> p(s[i]) {
        assert forall i :: 0 <= i < |s[1..]| ==> p(s[1..][i]) by {
          forall i | 0 <= i < |s[1..]| ensures p(s[1..][i]) {
            assert s[1..][i] == s[i + 1];
          }
        }
      } else {
        var i :| 0 <= i < |s| && !p(s[i]);
        assert s[1..][i - 1] == s[i];
      }
    }
  }

  /** The filter keeps nothing exactly when no element passes. */
  lemma FilterEmptyIff<T>(s: seq<T>, p: T -> bool)
    ensures Filter(s, p) == [] <==> forall i :: 0 <= i < |s| ==> !p(s[i])
  {
    if Filter(s, p) == [] {
      forall i | 0 <= i < |s| ensures !p(s[i]) {
        assert s[i] in s;
      }
    } else {
      var x := Filter(s, p)[0];
      assert x in Filter(s, p);
    }
  }

  /** Filtering distributes over concatenation. */
  lemma {:induction false} FilterConcat<T>(a: seq<T>, b: seq<T>, p: T -> bool)
    ensures Filter(a + b, p) == Filter(a, p) + Filter(b, p)
  {
    if a != [] {
      assert (a + b)[0] == a[0] && (a + b)[1..] == a[1..] + b;
      FilterConcat(a[1..], b, p);
    } else {
      assert a + b == b;
    }
  }

  /** How many elements pass the filter does not depend on their order. */
  lemma {:induction false} FilterLengthOfPermutation<T>(a: seq<T>, b: seq<T>, p: T -> bool)
    requires multiset(a) == multiset(b)
    ensures |Filter(a, p)| == |Filter(b, p)|
    decreases |a|
  {
    if a == [] {
      assert |b| == |multiset(b)| == 0;
    } else {
      var x := a[0];
      assert x in multiset(b);
      var k :| 0 <= k < |b| && b[k] == x;
      var rest := b[..k] + b[k + 1..];
      assert b == b[..k] + [x] + b[k + 1..];
      assert a == [x] + a[1..];
      assert multiset(b) == multiset(b[..k]) + multiset{x} + multiset(b[k + 1..]);
      assert multiset(rest) == multiset(b[..k]) + multiset(b[k + 1..]);
      assert multiset(a) == multiset{x} + multiset(a[1..]);
      assert multiset(a[1..]) == multiset(a) - multiset{x};
      assert multiset(rest) == multiset(a[1..]);
      FilterLengthOfPermutation(a[1..], rest, p);
      FilterConcat([x], a[1..], p);
      FilterConcat(b[..k] + [x], b[k + 1..], p);
      FilterConcat(b[..k], [x], p);
      FilterConcat(b[..k], b[k + 1..], p);
    }
  }

  /** Permutations hold the same elements. */
  lemma SameElements<T>(a: seq<T>, b: seq<T>)
    requires multiset(a) == multiset(b)
    ensures forall x :: x in a <==> x in b
  {
    assert forall x :: x in a <==> x in multiset(a);
    assert forall x :: x in b <==> x in multiset(b);
  }

  /** `s` is in non-decreasing order of `rank`. */
  ghost predicate SortedBy<T>(s: seq<T>, rank: T -> int) {
    forall i, j :: 0 <= i < j < |s| ==> rank(s[i]) <= rank(s[j])
  }

  /** The test "has rank `k`"; filtering by it gives the elements that tie at `k`. */
  function HasRank<T>(rank: T -> int, k: int): T -> bool {
    x => rank(x) == k
  }

  /** `a` and `b` hold the same elements of each rank, in the same relative
      order: a reordering that keeps ties as they were. */
  ghost predicate SameTies<T>(a: seq<T>, b: seq<T>, rank: T -> int) {
    forall k :: Filter(a, HasRank(rank, k)) == Filter(b, HasRank(rank, k))
  }

  /** `s` with `x` placed before the first element ranked strictly above it,
      so after every element that ties with it. */
  function Insert<T>(x: T, s: seq<T>, rank: T -> int): seq<T> {
    if s == [] || rank(x) < rank(s[0]) then [x] + s
    else [s[0]] + Insert(x, s[1..], rank)
  }

  /** Inserting adds `x` and loses nothing. */
  lemma {:induction false} InsertPermutes<T>(x: T, s: seq<T>, rank: T -> int)
    ensures multiset(Insert(x, s, rank)) == multiset(s) + multiset{x}
  {
    if s != [] && rank(x) >= rank(s[0]) {
      InsertPermutes(x, s[1..], rank);
      assert s == [s[0]] + s[1..];
    }
  }

  /** A stable sort by `rank`: each element in turn is inserted after the
      earlier ones it ties with. */
  function Sort<T>(s: seq<T>, rank: T -> int): (r: seq<T>)
    ensures multiset(r) == multiset(s)
    ensures SortedBy(r, rank)
  {
    if s == [] then []
    else
      var init, last := s[..|s| - 1], s[|s| - 1];
      var front := Sort(init, rank);
      InsertSorted(last, front, rank);
      InsertPermutes(last, front, rank);
      assert s == init + [last];
      Insert(last, front, rank)
  }

  lemma {:induction false} InsertSorted<T>(x: T, s: seq<T>, rank: T -> int)
    requires SortedBy(s, rank)
    ensures SortedBy(Insert(x, s, rank), rank)
  {
    if s != [] && rank(x) >= rank(s[0]) {
      InsertSorted(x, s[1..], rank);
      InsertKeepsLowerBound(x, s[1..], rank, rank(s[0]));
      ConsSorted(s[0], Insert(x, s[1..], rank), rank);
    } else {
      ConsSorted(x, s, rank);
    }
  }

  /** An element no higher than every element of a sorted list can go in front. */
  lemma ConsSorted<T>(x: T, s: seq<T>, rank: T -> int)
    requires SortedBy(s, rank) && forall i :: 0 <= i < |s| ==> rank(x) <= rank(s[i])
    ensures SortedBy([x] + s, rank)
  {
    var r := [x] + s;
    forall i, j | 0 <= i < j < |r| ensures rank(r[i]) <= rank(r[j]) {
      assert r[j] == s[j - 1];
      if i > 0 {
        assert r[i] == s[i - 1];
      }
    }
  }

  /** Inserting an element no lower than `b` into a list no lower than `b`
      gives a list no lower than `b`. */
  lemma {:induction false} InsertKeepsLowerBound<T>(x: T, s: seq<T>, rank: T -> int, b: int)
    requires rank(x) >= b && forall i :: 0 <= i < |s| ==> rank(s[i]) >= b
    ensures forall i :: 0 <= i < |Insert(x, s, rank)| ==> rank(Insert(x, s, rank)[i]) >= b
  {
    var r := Insert(x, s, rank);
    if s != [] && rank(x) >= rank(s[0]) {
      var tail := Insert(x, s[1..], rank);
      assert forall i :: 0 <= i < |s[1..]| ==> s[1..][i] == s[i + 1];
      InsertKeepsLowerBound(x, s[1..], rank, b);
      assert r == [s[0]] + tail;
      forall i | 0 < i < |r| ensures rank(r[i]) >= b {
        assert r[i] == tail[i - 1];
      }
    } else {
      assert r == [x] + s;
      forall i | 0 < i < |r| ensures rank(r[i]) >= b {
        assert r[i] == s[i - 1];
      }
    }
  }

  /** Inserting `x` adds it at the end of its own tie class and leaves the
      other classes as they were. */
  lemma {:induction false} InsertTies<T>(x: T, s: seq<T>, rank: T -> int, k: int)
    requires SortedBy(s, rank)
    ensures Filter(Insert(x, s, rank), HasRank(rank, k))
         == Filter(s, HasRank(rank, k)) + (if rank(x) == k then [x] else [])
  {
    var p := HasRank(rank, k);
    if s == [] || rank(x) < rank(s[0]) {
      FilterCons(x, s, p);
      if rank(x) == k && s != [] {
        BelowFirstNoTies(s, rank, k);
      }
    } else {
      SortedTail(s, rank);
      InsertTies(x, s[1..], rank, k);
      InsertTiesStep(x, s, rank, p);
    }
  }

  /** The step of `InsertTies` past an element ranked no higher than `x`. */
  lemma InsertTiesStep<T>(x: T, s: seq<T>, rank: T -> int, p: T -> bool)
    requires s != [] && rank(x) >= rank(s[0])
    ensures Filter(Insert(x, s, rank), p) == (if p(s[0]) then [s[0]] else []) + Filter(Insert(x, s[1..], rank), p)
    ensures Filter(s, p) == (if p(s[0]) then [s[0]] else []) + Filter(s[1..], p)
  {
    FilterCons(s[0], Insert(x, s[1..], rank), p);
    FilterCons(s[0], s[1..], p);
    assert [s[0]] + s[1..] == s;
  }

  lemma SortedTail<T>(s: seq<T>, rank: T -> int)
    requires SortedBy(s, rank) && s != []
    ensures SortedBy(s[1..], rank)
  {
    forall i, j | 0 <= i < j < |s[1..]| ensures rank(s[1..][i]) <= rank(s[1..][j]) {
      assert s[1..][i] == s[i + 1] && s[1..][j] == s[j + 1];
    }
  }

  /** A sorted list has nothing ranked below its first element. */
  lemma BelowFirstNoTies<T>(s: seq<T>, rank: T -> int, k: int)
    requires SortedBy(s, rank) && s != [] && k < rank(s[0])
    ensures Filter(s, HasRank(rank, k)) == []
  {
    var p := HasRank(rank, k);
    forall i | 0 <= i < |s| ensures !p(s[i]) {
      assert rank(s[0]) <= rank(s[i]);
    }
    FilterEmptyIff(s, p);
  }

  lemma FilterCons<T>(x: T, s: seq<T>, p: T -> bool)
    ensures Filter([x] + s, p) == (if p(x) then [x] else []) + Filter(s, p)
  {
    assert ([x] + s)[0] == x && ([x] + s)[1..] == s;
  }

  /** `Sort` is stable: every tie class keeps its original order. */
  lemma {:induction false} SortIsStable<T>(s: seq<T>, rank: T -> int)
    ensures SameTies(Sort(s, rank), s, rank)
  {
    forall k ensures Filter(Sort(s, rank), HasRank(rank, k)) == Filter(s, HasRank(rank, k)) {
      SortTiesAt(s, rank, k);
    }
  }

  lemma {:induction false} SortTiesAt<T>(s: seq<T>, rank: T -> int, k: int)
    ensures Filter(Sort(s, rank), HasRank(rank, k)) == Filter(s, HasRank(rank, k))
  {
    if s != [] {
      var p := HasRank(rank, k);
      var front, last := s[..|s| - 1], s[|s| - 1];
      var sorted := Sort(front, rank);
      assert Sort(s, rank) == Insert(last, sorted, rank);
      SortTiesAt(front, rank, k);
      InsertTies(last, sorted, rank, k);
      assert s == front + [last];
      FilterSnoc(front, last, p);
    }
  }

  /** Filtering a sequence extended by one element. */
  lemma FilterSnoc<T>(s: seq<T>, x: T, p: T -> bool)
    ensures Filter(s + [x], p) == Filter(s, p) + (if p(x) then [x] else [])
  {
    FilterConcat(s, [x], p);
  }

  lemma SnocInjective<T>(a: seq<T>, x: T, b: seq<T>, y: T)
    requires a + [x] == b + [y]
    ensures a == b && x == y
  {
    assert a == (a + [x])[..|a|];
    assert b == (b + [y])[..|b|];
  }

  /** In a sorted sequence nothing is ranked above the last element. */
  lemma RankAtMostLast<T>(s: seq<T>, x: T, rank: T -> int)
    requires SortedBy(s, rank) && x in s
    ensures rank(x) <= rank(s[|s| - 1])
  {
    var i :| 0 <= i < |s| && s[i] == x;
    if i < |s| - 1 {
      assert rank(s[i]) <= rank(s[|s| - 1]);
    }
  }

  /** Sortedness and stability fix the result: two orderings of the same
      elements, both sorted by `rank` and both keeping every tie class in the
      same order, are equal. So every stable sort agrees with `Sort`. */
  lemma {:induction false} SortedWithSameTiesUnique<T>(a: seq<T>, b: seq<T>, rank: T -> int)
    requires SortedBy(a, rank) && SortedBy(b, rank)
    requires SameTies(a, b, rank)
    ensures a == b
    decreases |a| + |b|
  {
    if a != [] && b == [] {
      NonEmptyHasTie(a, rank);
      assert false;
    } else if a == [] && b != [] {
      NonEmptyHasTie(b, rank);
      assert false;
    } else if a != [] && b != [] {
      var a', x := a[..|a| - 1], a[|a| - 1];
      var b', y := b[..|b| - 1], b[|b| - 1];
      assert a == a' + [x] && b == b' + [y];
      LastElementsTie(a, b, rank);
      DropLastSameTies(a', x, b', y, rank);
      SortedPrefix(a, rank);
      SortedPrefix(b, rank);
      SortedWithSameTiesUnique(a', b', rank);
      var p := HasRank(rank, rank(x));
      FilterSnoc(a', x, p);
      FilterSnoc(b', y, p);
      assert Filter(a, p) == Filter(b, p);
      SnocInjective(Filter(a', p), x, Filter(b', p), y);
    }
  }

  /** Each of two sorted sequences with the same ties holds an element of the
      other's largest rank, so their last elements tie. */
  lemma LastElementsTie<T>(a: seq<T>, b: seq<T>, rank: T -> int)
    requires a != [] && b != []
    requires SortedBy(a, rank) && SortedBy(b, rank) && SameTies(a, b, rank)
    ensures rank(a[|a| - 1]) == rank(b[|b| - 1])
  {
    var x, y := a[|a| - 1], b[|b| - 1];
    var px, py := HasRank(rank, rank(x)), HasRank(rank, rank(y));
    FilterMembers(a, px);
    FilterMembers(b, px);
    FilterMembers(a, py);
    FilterMembers(b, py);
    assert x in Filter(a, px);
    assert Filter(a, px) == Filter(b, px);
    RankAtMostLast(b, x, rank);
    assert y in Filter(b, py);
    assert Filter(a, py) == Filter(b, py);
    RankAtMostLast(a, y, rank);
  }

  lemma SortedPrefix<T>(s: seq<T>, rank: T -> int)
    requires s != [] && SortedBy(s, rank)
    ensures SortedBy(s[..|s| - 1], rank)
  {
  }

  /** A non-empty sequence has a non-empty tie class: that of its first element. */
  lemma NonEmptyHasTie<T>(s: seq<T>, rank: T -> int)
    requires s != []
    ensures Filter(s, HasRank(rank, rank(s[0]))) != []
  {
    assert s[0] in Filter(s, HasRank(rank, rank(s[0])));
  }

  /** Removing two tying last elements from sequences with the same ties
      leaves sequences with the same ties. */
  lemma DropLastSameTies<T>(a: seq<T>, x: T, b: seq<T>, y: T, rank: T -> int)
    requires SameTies(a + [x], b + [y], rank) && rank(x) == rank(y)
    ensures SameTies(a, b, rank)
  {
    forall k ensures Filter(a, HasRank(rank, k)) == Filter(b, HasRank(rank, k)) {
      var p := HasRank(rank, k);
      FilterSnoc(a, x, p);
      FilterSnoc(b, y, p);
      assert Filter(a + [x], p) == Filter(b + [y], p);
      if k == rank(x) {
        SnocInjective(Filter(a, p), x, Filter(b, p), y);
      } else {
        assert Filter(a, p) + [] == Filter(a, p) && Filter(b, p) + [] == Filter(b, p);
      }
    }
  }

  /** Any result that is sorted by `rank` and keeps ties in input order is `Sort`'s. */
  lemma StableSortIsSort<T>(s: seq<T>, r: seq<T>, rank: T -> int)
    requires SortedBy(r, rank) && SameTies(r, s, rank)
    ensures r == Sort(s, rank)
  {
    SortIsStable(s, rank);
    SortedWithSameTiesUnique(r, Sort(s, rank), rank);
  }

  /** `s` back to front. */
  function Reverse<T>(s: seq<T>): (r: seq<T>)
    ensures |r| == |s|
    ensures forall i :: 0 <= i < |s| ==> r[i] == s[|s| - 1 - i]
  {
    seq(|s|, i requires 0 <= i < |s| => s[|s| - 1 - i])
  }

  lemma ReverseShort<T>(s: seq<T>)
    requires |s| <= 1
    ensures Reverse(s) == s
  {
  }

  /** Filtering commutes with reversal. */
  lemma {:induction false} FilterReverse<T>(s: seq<T>, p: T -> bool)
    ensures Filter(Reverse(s), p) == Reverse(Filter(s, p))
  {
    if s != [] {
      var x, t := s[0], s[1..];
      ReverseCons(x, t);
      assert [x] + t == s;
      FilterReverse(t, p);
      FilterSnoc(Reverse(t), x, p);
      if p(x) {
        ReverseCons(x, Filter(t, p));
      }
    }
  }

  lemma ReverseCons<T>(x: T, s: seq<T>)
    ensures Reverse([x] + s) == Reverse(s) + [x]
  {
  }

  /** Filters by two tests that agree everywhere are equal. */
  lemma {:induction false} FilterSameTest<T>(s: seq<T>, p: T -> bool, q: T -> bool)
    requires forall x :: p(x) == q(x)
    ensures Filter(s, p) == Filter(s, q)
  {
    if s != [] {
      FilterSameTest(s[1..], p, q);
    }
  }

  /** Sorting an already sorted list leaves it as it is. */
  lemma SortedIsFixed<T>(s: seq<T>, rank: T -> int)
    requires SortedBy(s, rank)
    ensures Sort(s, rank) == s
  {
    StableSortIsSort(s, s, rank);
  }

  /** A tie class of at most one element survives reversal. */
  lemma ReverseSingleTies<T>(a: seq<T>, b: seq<T>, p: T -> bool)
    requires Filter(a, p) == Filter(b, p) && |Filter(b, p)| <= 1
    ensures Filter(Reverse(a), p) == Filter(b, p)
  {
    FilterReverse(a, p);
    ReverseShort(Filter(a, p));
  }

  /** No two positions of `s` have the same rank. */
  ghost predicate DistinctRanks<T>(s: seq<T>, rank: T -> int) {
    forall i, j :: 0 <= i < j < |s| ==> rank(s[i]) != rank(s[j])
  }

  /** With distinct ranks each tie class has at most one element. */
  lemma {:induction false} AtMostOneTie<T>(s: seq<T>, rank: T -> int, k: int)
    requires DistinctRanks(s, rank)
    ensures |Filter(s, HasRank(rank, k))| <= 1
  {
    var p := HasRank(rank, k);
    if s != [] {
      AtMostOneTie(s[1..], rank, k);
      if p(s[0]) {
        forall i | 0 <= i < |s[1..]| ensures !p(s[1..][i]) {
          assert s[1..][i] == s[i + 1];
        }
        FilterEmptyIff(s[1..], p);
      }
    }
  }

  /** With distinct ranks, reversing the sorted order keeps every tie class
      of the negated rank. */
  lemma ReverseKeepsSingleTies<T>(s: seq<T>, up: seq<T>, rank: T -> int, neg: T -> int, k: int)
    requires forall x :: neg(x) == -rank(x)
    requires DistinctRanks(s, rank)
    requires SameTies(up, s, rank)
    ensures Filter(Reverse(up), HasRank(neg, k)) == Filter(s, HasRank(neg, k))
  {
    var p, q := HasRank(neg, k), HasRank(rank, -k);
    AtMostOneTie(s, rank, -k);
    ReverseSingleTies(up, s, q);
    assert forall x :: p(x) == q(x);
    FilterSameTest(Reverse(up), p, q);
    FilterSameTest(s, p, q);
  }

  /** The reverse of a list sorted by a rank is sorted by the negated rank. */
  lemma ReverseSortedByNegation<T>(up: seq<T>, rank: T -> int, neg: T -> int)
    requires forall x :: neg(x) == -rank(x)
    requires SortedBy(up, rank)
    ensures SortedBy(Reverse(up), neg)
  {
    var r := Reverse(up);
    forall i, j | 0 <= i < j < |r| ensures neg(r[i]) <= neg(r[j]) {
      assert r[i] == up[|up| - 1 - i] && r[j] == up[|up| - 1 - j];
    }
  }

  /** With distinct ranks, sorting by the negated rank gives the reverse of
      sorting by the rank. */
  lemma NegatedRankReverses<T>(s: seq<T>, rank: T -> int, neg: T -> int)
    requires forall x :: neg(x) == -rank(x)
    requires DistinctRanks(s, rank)
    ensures Sort(s, neg) == Reverse(Sort(s, rank))
  {
    var up := Sort(s, rank);
    ReverseSortedByNegation(up, rank, neg);
    SortIsStable(s, rank);
    forall k ensures Filter(Reverse(up), HasRank(neg, k)) == Filter(s, HasRank(neg, k)) {
      ReverseKeepsSingleTies(s, up, rank, neg, k);
    }
    StableSortIsSort(s, Reverse(up), neg);
  }
}
