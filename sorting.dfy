/** `Array.prototype.sort`, which the library calls on its results: a stable
    sort (ECMAScript 2019 and later) under a comparison `le(a, b)` meaning
    "`a` may stay before `b`" (`compareFn(a, b) <= 0`). It is modelled as
    insertion from the back, which keeps equal elements in their order.
    Also the default order of `sort()` without a comparison function on
    strings, and duplicate-free sequences (the contents of a `Set`). */
module Sorting {
  import opened Text

  ghost predicate Total<T(!new)>(le: (T, T) -> bool)
  {
    forall a, b :: le(a, b) || le(b, a)
  }

  ghost predicate Transitive<T(!new)>(le: (T, T) -> bool)
  {
    forall a, b, c :: le(a, b) && le(b, c) ==> le(a, c)
  }

  /** Every element may stay before its successor. */
  predicate Sorted<T>(s: seq<T>, le: (T, T) -> bool)
  {
    forall i :: 0 <= i < |s| - 1 ==> le(s[i], s[i + 1])
  }

  /** In a sorted sequence under a transitive order, every element may stay
      before every later one. */
  lemma {:induction false} SortedPairs<T(!new)>(s: seq<T>, le: (T, T) -> bool, i: int, j: int)
    requires Sorted(s, le) && Transitive(le)
    requires 0 <= i < j < |s|
    ensures le(s[i], s[j])
    decreases j - i
  {
    if j > i + 1 {
      SortedPairs(s, le, i, j - 1);
      assert le(s[j - 1], s[j]);
    }
  }

  /** `x` placed after the last element of `r` that may stay before it. */
  function Insert<T>(r: seq<T>, x: T, le: (T, T) -> bool): (o: seq<T>)
    ensures |o| == |r| + 1
    ensures multiset(o) == multiset(r) + multiset{x}
  {
    if r == [] then [x]
    else if le(r[|r| - 1], x) then r + [x]
    else
      assert r == r[..|r| - 1] + [r[|r| - 1]];
      Insert(r[..|r| - 1], x, le) + [r[|r| - 1]]
  }

  /** The result of sorting `s`. */
  function Sort<T>(s: seq<T>, le: (T, T) -> bool): (o: seq<T>)
    ensures |o| == |s|
    ensures multiset(o) == multiset(s)
  {
    if s == [] then []
    else
      assert s == s[..|s| - 1] + [s[|s| - 1]];
      Insert(Sort(s[..|s| - 1], le), s[|s| - 1], le)
  }

  lemma SortedSnoc<T>(q: seq<T>, y: T, le: (T, T) -> bool)
    requires Sorted(q, le)
    requires q != [] ==> le(q[|q| - 1], y)
    ensures Sorted(q + [y], le)
  {
    var o := q + [y];
    forall i | 0 <= i < |o| - 1 ensures le(o[i], o[i + 1]) {
      if i < |q| - 1 {
        assert o[i] == q[i] && o[i + 1] == q[i + 1];
      }
    }
  }

  lemma {:induction false} InsertSorted<T(!new)>(r: seq<T>, x: T, le: (T, T) -> bool)
    requires Total(le) && Sorted(r, le)
    ensures Sorted(Insert(r, x, le), le)
    ensures var o := Insert(r, x, le); o[|o| - 1] == x || (r != [] && o[|o| - 1] == r[|r| - 1])
  {
    if r == [] {
    } else if le(r[|r| - 1], x) {
      SortedSnoc(r, x, le);
    } else {
      var p := r[..|r| - 1];
      var y := r[|r| - 1];
      assert Sorted(p, le) by {
        forall i | 0 <= i < |p| - 1 ensures le(p[i], p[i + 1]) {
          assert p[i] == r[i] && p[i + 1] == r[i + 1];
        }
      }
      InsertSorted(p, x, le);
      var q := Insert(p, x, le);
      assert le(q[|q| - 1], y) by {
        if q[|q| - 1] != x {
          assert p != [] && q[|q| - 1] == r[|r| - 2];
          assert le(r[|r| - 2], r[|r| - 1]);
        } else {
          assert le(x, y) || le(y, x);
        }
      }
      SortedSnoc(q, y, le);
    }
  }

  /** The result is ordered; with `multiset` in the contract of `Sort`, it
      is a permutation of the input. */
  lemma {:induction false} SortSorted<T(!new)>(s: seq<T>, le: (T, T) -> bool)
    requires Total(le)
    ensures Sorted(Sort(s, le), le)
  {
    if s != [] {
      SortSorted(s[..|s| - 1], le);
      InsertSorted(Sort(s[..|s| - 1], le), s[|s| - 1], le);
    }
  }

  /** The elements of `s` equivalent to `p`, in their order. */
  function SameRank<T>(s: seq<T>, p: T, le: (T, T) -> bool): seq<T>
  {
    if s == [] then []
    else
      var rest := SameRank(s[..|s| - 1], p, le);
      var x := s[|s| - 1];
      if le(x, p) && le(p, x) then rest + [x] else rest
  }

  lemma {:induction false} SameRankAppend<T>(a: seq<T>, b: seq<T>, p: T, le: (T, T) -> bool)
    ensures SameRank(a + b, p, le) == SameRank(a, p, le) + SameRank(b, p, le)
  {
    if b == [] {
      assert a + b == a;
    } else {
      assert (a + b)[..|a + b| - 1] == a + b[..|b| - 1];
      SameRankAppend(a, b[..|b| - 1], p, le);
    }
  }

  lemma {:induction false} InsertSameRank<T(!new)>(r: seq<T>, x: T, p: T, le: (T, T) -> bool)
    requires Transitive(le)
    ensures SameRank(Insert(r, x, le), p, le) == SameRank(r + [x], p, le)
  {
    if r != [] && !le(r[|r| - 1], x) {
      var y := r[|r| - 1];
      InsertSameRank(r[..|r| - 1], x, p, le);
      assert le(y, p) && le(p, x) ==> le(y, x);
      InsertSameRankStep(r, x, p, le);
    }
  }

  /** One step of `Insert` past an element not equivalent to both. */
  lemma InsertSameRankStep<T>(r: seq<T>, x: T, p: T, le: (T, T) -> bool)
    requires r != [] && !le(r[|r| - 1], x)
    requires var y := r[|r| - 1]; !(le(x, p) && le(p, x) && le(y, p) && le(p, y))
    requires SameRank(Insert(r[..|r| - 1], x, le), p, le) == SameRank(r[..|r| - 1] + [x], p, le)
    ensures SameRank(Insert(r, x, le), p, le) == SameRank(r + [x], p, le)
  {
    var y := r[|r| - 1];
    var q := r[..|r| - 1];
    SplitLast(r);
    var i1 := Insert(q, x, le);
    assert Insert(r, x, le) == i1 + [y];
    SameRankAppend(i1, [y], p, le);
    SameRankAppend(q + [x], [y], p, le);
    SameRankSwap(q, x, y, p, le);
    assert SameRank(Insert(r, x, le), p, le) == SameRank(q + [y] + [x], p, le);
  }

  /** Two neighbours that are not both equivalent to `p` can be swapped
      without changing the elements equivalent to `p`. */
  lemma SameRankSwap<T>(q: seq<T>, x: T, y: T, p: T, le: (T, T) -> bool)
    requires !(le(x, p) && le(p, x) && le(y, p) && le(p, y))
    ensures SameRank(q + [y] + [x], p, le) == SameRank(q + [x] + [y], p, le)
  {
    var a, b := q + [y] + [x], q + [x] + [y];
    assert a[..|q| + 1] == q + [y] && (q + [y])[..|q|] == q;
    assert b[..|q| + 1] == q + [x] && (q + [x])[..|q|] == q;
    var rest := SameRank(q, p, le);
    assert SameRank(q + [y], p, le) == if le(y, p) && le(p, y) then rest + [y] else rest;
    assert SameRank(q + [x], p, le) == if le(x, p) && le(p, x) then rest + [x] else rest;
  }

  /** Stability: elements that compare equal keep their relative order. */
  lemma {:induction false} SortStable<T(!new)>(s: seq<T>, p: T, le: (T, T) -> bool)
    requires Transitive(le)
    ensures SameRank(Sort(s, le), p, le) == SameRank(s, p, le)
  {
    if s != [] {
      var q := s[..|s| - 1];
      var x := s[|s| - 1];
      SortStable(q, p, le);
      InsertSameRank(Sort(q, le), x, p, le);
      SameRankAppend(Sort(q, le), [x], p, le);
      SameRankAppend(q, [x], p, le);
      SplitLast(s);
    }
  }

  /** No element occurs twice: the contents of a `Set`, or a list of keys. */
  predicate Distinct<T(==)>(s: seq<T>)
  {
    forall i, j :: 0 <= i < j < |s| ==> s[i] != s[j]
  }

  lemma {:induction false} DistinctCounts<T>(s: seq<T>)
    ensures Distinct(s) <==> forall x :: multiset(s)[x] <= 1
  {
    if s != [] {
      var q := s[..|s| - 1];
      var y := s[|s| - 1];
      assert s == q + [y];
      DistinctCounts(q);
      if Distinct(s) {
        assert Distinct(q) by {
          forall i, j | 0 <= i < j < |q| ensures q[i] != q[j] {
            assert q[i] == s[i] && q[j] == s[j];
          }
        }
        assert y !in q;
      }
      if forall x :: multiset(s)[x] <= 1 {
        assert forall x :: multiset(q)[x] <= 1 by {
          forall x ensures multiset(q)[x] <= 1 {
            assert multiset(s)[x] == multiset(q)[x] + multiset([y])[x];
          }
        }
        assert multiset(q)[y] == 0 by {
          assert multiset(s)[y] == multiset(q)[y] + 1;
        }
        forall i, j | 0 <= i < j < |s| ensures s[i] != s[j] {
          if j < |s| - 1 {
            assert s[i] == q[i] && s[j] == q[j];
          } else {
            assert s[i] == q[i];
            assert q[i] in multiset(q);
          }
        }
      }
    }
  }

  /** Sorting keeps a duplicate-free sequence duplicate-free. */
  lemma SortDistinct<T>(s: seq<T>, le: (T, T) -> bool)
    requires Distinct(s)
    ensures Distinct(Sort(s, le))
  {
    DistinctCounts(s);
    DistinctCounts(Sort(s, le));
  }

  /** Code-point order of strings, the order of `sort()` without a
      comparison function when every character is below U+D800. */
  predicate LexLe(a: string, b: string)
  {
    if a == [] then true
    else if b == [] then false
    else if a[0] != b[0] then a[0] < b[0]
    else LexLe(a[1..], b[1..])
  }

  lemma {:induction false} LexTotal(a: string, b: string)
    ensures LexLe(a, b) || LexLe(b, a)
    ensures LexLe(a, b) && LexLe(b, a) ==> a == b
  {
    if a != [] && b != [] && a[0] == b[0] {
      LexTotal(a[1..], b[1..]);
      assert a == [a[0]] + a[1..] && b == [b[0]] + b[1..];
    }
  }

  lemma {:induction false} LexTransitive(a: string, b: string, c: string)
    requires LexLe(a, b) && LexLe(b, c)
    ensures LexLe(a, c)
  {
    if a != [] && b != [] && c != [] && a[0] == b[0] && b[0] == c[0] {
      LexTransitive(a[1..], b[1..], c[1..]);
    }
  }

  lemma LexLeOrder()
    ensures Total(LexLe) && Transitive(LexLe)
  {
    forall a, b ensures LexLe(a, b) || LexLe(b, a) {
      LexTotal(a, b);
    }
    forall a, b, c | LexLe(a, b) && LexLe(b, c) ensures LexLe(a, c) {
      LexTransitive(a, b, c);
    }
  }

  /** Sorted in code-point order, two distinct strings appear in increasing order. */
  lemma {:induction false} LexSortedIncreasing(s: seq<string>, i: int, j: int)
    requires Sorted(s, LexLe) && Distinct(s)
    requires 0 <= i < j < |s|
    ensures LexLe(s[i], s[j]) && s[i] != s[j]
  {
    if j > i + 1 {
      LexSortedIncreasing(s, i, j - 1);
      LexTransitive(s[i], s[j - 1], s[j]);
    }
  }
}
