/**
 * `Array.prototype.sort` with a comparator, modelled as a stable insertion sort.
 * A comparator returns a negative number when its first argument goes first,
 * a positive number when its second argument goes first, and zero for a tie.
 */
module Sorting {
  import Seqs

  /** Insert `x` in front of the first element that the comparator places after it. */
  function Insert<T>(x: T, s: seq<T>, cmp: (T, T) -> int): (r: seq<T>)
    ensures multiset(r) == multiset(s) + multiset{x}
    ensures |r| == |s| + 1
  {
    if s == [] then [x]
    else if cmp(s[0], x) > 0 then [x] + s
    else
      assert s == [s[0]] + s[1..];
      [s[0]] + Insert(x, s[1..], cmp)
  }

  /** The sequence sorted by `cmp`; each element is inserted into the sorted prefix before it. */
  function SortBy<T>(s: seq<T>, cmp: (T, T) -> int): (r: seq<T>)
    ensures multiset(r) == multiset(s)
    ensures |r| == |s|
  {
    if s == [] then []
    else
      assert s == s[..|s| - 1] + [s[|s| - 1]];
      Insert(s[|s| - 1], SortBy(s[..|s| - 1], cmp), cmp)
  }

  /**
   * A comparator whose "before" relation is antisymmetric and transitive: enough for
   * this insertion sort's result to be sorted. A consistent comparator in the ECMAScript
   * sense also has transitive ties (`TiesTransitive`).
   */
  ghost predicate Consistent<T(!new)>(cmp: (T, T) -> int) {
    (forall a, b :: cmp(a, b) < 0 <==> cmp(b, a) > 0) &&
    (forall a, b, c :: cmp(a, b) < 0 && cmp(b, c) < 0 ==> cmp(a, c) < 0)
  }

  /** No element is placed before an earlier one. */
  ghost predicate SortedBy<T>(s: seq<T>, cmp: (T, T) -> int) {
    forall i, j :: 0 <= i < j < |s| ==> cmp(s[i], s[j]) <= 0
  }

  lemma {:induction false} InsertSorted<T(!new)>(x: T, s: seq<T>, cmp: (T, T) -> int)
    requires Consistent(cmp) && SortedBy(s, cmp)
    ensures SortedBy(Insert(x, s, cmp), cmp)
  {
    if s == [] {
    } else if cmp(s[0], x) > 0 {
      var r := [x] + s;
      assert cmp(x, s[0]) < 0;
    } else {
      InsertSorted(x, s[1..], cmp);
      var t := Insert(x, s[1..], cmp);
      var r := [s[0]] + t;
      forall i, j | 0 <= i < j < |r| ensures cmp(r[i], r[j]) <= 0 {
        if i == 0 {
          assert r[j] in multiset(t);
          assert r[j] == x || r[j] in s[1..];
        }
      }
    }
  }

  /** The sort returns a permutation of its input that is sorted by a consistent comparator. */
  lemma {:induction false} SortBySorted<T(!new)>(s: seq<T>, cmp: (T, T) -> int)
    requires Consistent(cmp)
    ensures SortedBy(SortBy(s, cmp), cmp)
  {
    if s != [] {
      SortBySorted(s[..|s| - 1], cmp);
      InsertSorted(s[|s| - 1], SortBy(s[..|s| - 1], cmp), cmp);
    }
  }

  lemma {:induction false} InsertAtEnd<T>(x: T, s: seq<T>, cmp: (T, T) -> int)
    requires forall i :: 0 <= i < |s| ==> cmp(s[i], x) <= 0
    ensures Insert(x, s, cmp) == s + [x]
  {
    if s != [] {
      InsertAtEnd(x, s[1..], cmp);
    }
  }

  /** A sequence that is already sorted is left as it is. */
  lemma {:induction false} SortBySortedIdentity<T>(s: seq<T>, cmp: (T, T) -> int)
    requires SortedBy(s, cmp)
    ensures SortBy(s, cmp) == s
  {
    if s != [] {
      var init := s[..|s| - 1];
      SortBySortedIdentity(init, cmp);
      InsertAtEnd(s[|s| - 1], init, cmp);
      assert init + [s[|s| - 1]] == s;
    }
  }

  /** Sorting twice is sorting once. */
  lemma SortByIdempotent<T(!new)>(s: seq<T>, cmp: (T, T) -> int)
    requires Consistent(cmp)
    ensures SortBy(SortBy(s, cmp), cmp) == SortBy(s, cmp)
  {
    SortBySorted(s, cmp);
    SortBySortedIdentity(SortBy(s, cmp), cmp);
  }

  lemma {:induction false} InsertAgree<T>(x: T, s: seq<T>, c1: (T, T) -> int, c2: (T, T) -> int)
    requires forall i :: 0 <= i < |s| ==> c1(s[i], x) == c2(s[i], x)
    ensures Insert(x, s, c1) == Insert(x, s, c2)
  {
    if s != [] {
      InsertAgree(x, s[1..], c1, c2);
    }
  }

  /** Two comparators that agree on the elements of `s` sort it the same way. */
  lemma {:induction false} SortByAgree<T>(s: seq<T>, c1: (T, T) -> int, c2: (T, T) -> int)
    requires forall a, b :: a in s && b in s ==> c1(a, b) == c2(a, b)
    ensures SortBy(s, c1) == SortBy(s, c2)
  {
    if s != [] {
      var init := s[..|s| - 1];
      var x := s[|s| - 1];
      SortByAgree(init, c1, c2);
      var t := SortBy(init, c1);
      forall i | 0 <= i < |t| ensures c1(t[i], x) == c2(t[i], x) {
        assert t[i] in multiset(init);
      }
      InsertAgree(x, t, c1, c2);
    }
  }

  // ---------------------------------------------------------------- stability

  /** Ties form an equivalence: two elements tied with a third are tied with each other. */
  ghost predicate TiesTransitive<T(!new)>(cmp: (T, T) -> int) {
    forall a, b, c :: cmp(a, b) == 0 && cmp(b, c) == 0 ==> cmp(a, c) == 0
  }

  /** The elements the comparator ties with `x`. */
  function TiesWith<T>(cmp: (T, T) -> int, x: T): T -> bool {
    (y: T) => cmp(y, x) == 0
  }

  lemma FilterOne<T>(y: T, p: T -> bool)
    ensures Seqs.Filter([y], p) == if p(y) then [y] else []
  {
    assert Seqs.Filter([y], p) == (if p(y) then [y] else []) + Seqs.Filter([], p);
  }

  lemma FilterCons<T>(y: T, t: seq<T>, p: T -> bool)
    ensures Seqs.Filter([y] + t, p) == (if p(y) then [y] else []) + Seqs.Filter(t, p)
  {
    assert ([y] + t)[1..] == t;
  }

  /** Once `y`, tied with `x`, is placed before `t[k]`, nothing from `t[k]` on is tied with `x`. */
  ghost predicate Blocked<T>(y: T, t: seq<T>, cmp: (T, T) -> int, x: T) {
    forall k :: 0 <= k < |t| && cmp(t[k], y) > 0 && cmp(y, x) == 0 ==> Seqs.Filter(t[k..], TiesWith(cmp, x)) == []
  }

  /** In a sorted sequence, an element tied with `x` cannot follow one that `y`, tied with `x`, goes before. */
  lemma NoTieAfter<T(!new)>(y: T, t: seq<T>, cmp: (T, T) -> int, x: T, k: int)
    requires Consistent(cmp) && TiesTransitive(cmp) && SortedBy(t, cmp)
    requires 0 <= k < |t| && cmp(t[k], y) > 0 && cmp(y, x) == 0
    ensures Seqs.Filter(t[k..], TiesWith(cmp, x)) == []
  {
    forall z | z in t[k..] ensures cmp(z, x) != 0 {
      var i :| 0 <= i < |t[k..]| && t[k..][i] == z;
      assert t[k + i] == z && cmp(t[k], t[k + i]) <= 0;
    }
    Seqs.FilterNone(t[k..], TiesWith(cmp, x));
  }

  lemma SortedBlocks<T(!new)>(y: T, t: seq<T>, cmp: (T, T) -> int, x: T)
    requires Consistent(cmp) && TiesTransitive(cmp) && SortedBy(t, cmp)
    ensures Blocked(y, t, cmp, x)
  {
    forall k | 0 <= k < |t| && cmp(t[k], y) > 0 && cmp(y, x) == 0
      ensures Seqs.Filter(t[k..], TiesWith(cmp, x)) == []
    {
      NoTieAfter(y, t, cmp, x, k);
    }
  }

  /**
   * Inserting `y` keeps the elements tied with `x` in their order and, when
   * `y` is one of them, puts it after all of them.
   */
  lemma {:induction false} InsertStable<T>(y: T, t: seq<T>, cmp: (T, T) -> int, x: T)
    requires Blocked(y, t, cmp, x)
    ensures Seqs.Filter(Insert(y, t, cmp), TiesWith(cmp, x))
      == Seqs.Filter(t, TiesWith(cmp, x)) + (if cmp(y, x) == 0 then [y] else [])
  {
    var p := TiesWith(cmp, x);
    if t == [] {
      FilterOne(y, p);
    } else if cmp(t[0], y) > 0 {
      FilterCons(y, t, p);
      if cmp(y, x) == 0 {
        assert t[0..] == t;
        assert Seqs.Filter(t, p) == [];
      }
      assert Insert(y, t, cmp) == [y] + t;
    } else {
      assert forall k :: 1 <= k < |t| ==> t[1..][k - 1..] == t[k..];
      InsertStable(y, t[1..], cmp, x);
      FilterCons(t[0], Insert(y, t[1..], cmp), p);
      FilterCons(t[0], t[1..], p);
      assert [t[0]] + t[1..] == t;
      var h := if p(t[0]) then [t[0]] else [];
      var tail := if cmp(y, x) == 0 then [y] else [];
      assert Insert(y, t, cmp) == [t[0]] + Insert(y, t[1..], cmp);
      assert Seqs.Filter(Insert(y, t, cmp), p) == h + (Seqs.Filter(t[1..], p) + tail);
      assert Seqs.Filter(t, p) == h + Seqs.Filter(t[1..], p);
      Seqs.AppendAssoc(h, Seqs.Filter(t[1..], p), tail);
    }
  }

  /**
   * The sort is stable: for a comparator whose ties are transitive, the
   * elements tied with any `x` come out in the order they went in.
   */
  lemma {:induction false} SortByStable<T(!new)>(s: seq<T>, cmp: (T, T) -> int, x: T)
    requires Consistent(cmp) && TiesTransitive(cmp)
    ensures Seqs.Filter(SortBy(s, cmp), TiesWith(cmp, x)) == Seqs.Filter(s, TiesWith(cmp, x))
  {
    if s != [] {
      var init, y := s[..|s| - 1], s[|s| - 1];
      SortByStable(init, cmp, x);
      SortBySorted(init, cmp);
      SortedBlocks(y, SortBy(init, cmp), cmp, x);
      InsertStable(y, SortBy(init, cmp), cmp, x);
      Seqs.FilterAppend(init, [y], TiesWith(cmp, x));
      FilterOne(y, TiesWith(cmp, x));
      assert init + [y] == s;
    }
  }
}
