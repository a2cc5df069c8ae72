/** The two array methods the pipeline is built from: `Array.prototype.filter`,
    a function of the array and a predicate, and `Array.prototype.sort`, which
    reorders the array in place with a comparator (`cmp(x, y) <= 0` means that `x`
    may stay before `y`). The engine's sort algorithm is not part of this model:
    the sort is an insertion sort, which is one admissible implementation. */
module JsArray {

  // ---------------------------------------------------------------------------
  // filter

  /** `s.filter(p)`: the elements of `s` that satisfy `p`, in their order. */
  function Filter<T>(s: seq<T>, p: T -> bool): (r: seq<T>)
    ensures |r| <= |s|
    ensures forall i :: 0 <= i < |r| ==> r[i] in s && p(r[i])
    ensures forall i :: 0 <= i < |s| && p(s[i]) ==> s[i] in r
  {
    if s == [] then [] else (if p(s[0]) then [s[0]] else []) + Filter(s[1..], p)
  }

  /** Filtering invents and duplicates nothing: each element is kept at most as
      often as it occurs. */
  lemma {:induction false} FilterSubMultiset<T>(s: seq<T>, p: T -> bool)
    ensures multiset(Filter(s, p)) <= multiset(s)
  {
    if s != [] {
      FilterSubMultiset(s[1..], p);
      var kept := if p(s[0]) then [s[0]] else [];
      assert Filter(s, p) == kept + Filter(s[1..], p);
      assert multiset(Filter(s, p)) == multiset(kept) + multiset(Filter(s[1..], p));
      assert multiset(kept) <= multiset([s[0]]);
      assert s == [s[0]] + s[1..];
      assert multiset(s) == multiset([s[0]]) + multiset(s[1..]);
    }
  }

  /** An element is kept exactly when it is in `s` and satisfies `p`. */
  lemma FilterMembership<T>(s: seq<T>, p: T -> bool, x: T)
    ensures x in Filter(s, p) <==> x in s && p(x)
  {
    var r := Filter(s, p);
    if x in r {
      var i :| 0 <= i < |r| && r[i] == x;
    }
    if x in s && p(x) {
      var i :| 0 <= i < |s| && s[i] == x;
    }
  }

  /** Filtering a concatenation filters each part: the kept elements keep their order. */
  lemma {:induction false} FilterConcat<T>(s: seq<T>, t: seq<T>, p: T -> bool)
    ensures Filter(s + t, p) == Filter(s, p) + Filter(t, p)
  {
    if s != [] {
      FilterConcat(s[1..], t, p);
      assert (s + t)[1..] == s[1..] + t;
    } else {
      assert s + t == t;
    }
  }

  /** Filtering a sequence with a first element: the recursion's own step. */
  lemma FilterCons<T>(x: T, s: seq<T>, p: T -> bool)
    ensures Filter([x] + s, p) == (if p(x) then [x] else []) + Filter(s, p)
  {
    assert ([x] + s)[1..] == s;
  }

  /** Filtering one element more: the step of a loop over a prefix. */
  lemma FilterSnoc<T>(s: seq<T>, x: T, p: T -> bool)
    ensures Filter(s + [x], p) == Filter(s, p) + (if p(x) then [x] else [])
  {
    FilterConcat(s, [x], p);
  }

  /** A predicate no element satisfies removes everything. */
  lemma FilterKeepsNone<T>(s: seq<T>, p: T -> bool)
    requires forall i :: 0 <= i < |s| ==> !p(s[i])
    ensures Filter(s, p) == []
  {
    var r := Filter(s, p);
    if r != [] {
      var i :| 0 <= i < |s| && s[i] == r[0];
    }
  }

  /** Two predicates no element satisfies together select at most all elements between them. */
  lemma {:induction false} FilterDisjointCount<T>(s: seq<T>, p: T -> bool, q: T -> bool)
    requires forall i :: 0 <= i < |s| ==> !(p(s[i]) && q(s[i]))
    ensures |Filter(s, p)| + |Filter(s, q)| <= |s|
  {
    if s != [] {
      FilterDisjointCount(s[1..], p, q);
    }
  }

  /** Three predicates of which every element satisfies exactly one split the elements between them. */
  lemma {:induction false} FilterPartitionCount<T>(s: seq<T>, p: T -> bool, q: T -> bool, r: T -> bool)
    requires forall i :: 0 <= i < |s| ==> p(s[i]) || q(s[i]) || r(s[i])
    requires forall i :: 0 <= i < |s| ==> !(p(s[i]) && q(s[i])) && !(p(s[i]) && r(s[i])) && !(q(s[i]) && r(s[i]))
    ensures |Filter(s, p)| + |Filter(s, q)| + |Filter(s, r)| == |s|
  {
    if s != [] {
      FilterPartitionCount(s[1..], p, q, r);
    }
  }

  // ---------------------------------------------------------------------------
  // sort

  /** `cmp` is a consistent comparator on the elements of `elems`: its `<= 0`
      relation is total and transitive there. */
  ghost predicate TotalPreorderOn<T>(cmp: (T, T) -> int, elems: multiset<T>) {
    && (forall x, y :: x in elems && y in elems ==> cmp(x, y) <= 0 || cmp(y, x) <= 0)
    && (forall x, y, z :: x in elems && y in elems && z in elems && cmp(x, y) <= 0 && cmp(y, z) <= 0 ==> cmp(x, z) <= 0)
  }

  /** Every element may stay before every later one. */
  ghost predicate SortedBy<T>(cmp: (T, T) -> int, s: seq<T>) {
    forall i, j :: 0 <= i < j < |s| ==> cmp(s[i], s[j]) <= 0
  }

  /** `a.sort(cmp)`: reorders `a` in place. The result is always a permutation
      of the input; with a consistent comparator it is sorted. */
  method SortInPlace<T>(a: array<T>, cmp: (T, T) -> int)
    modifies a
    ensures multiset(a[..]) == multiset(old(a[..]))
    ensures TotalPreorderOn(cmp, multiset(old(a[..]))) ==> SortedBy(cmp, a[..])
  {
    ghost var elems := multiset(a[..]);
    ghost var consistent := TotalPreorderOn(cmp, elems);
    var i := 0;
    while i < a.Length
      invariant 0 <= i <= a.Length
      invariant multiset(a[..]) == elems
      invariant consistent ==> SortedPrefix(cmp, a[..], i)
    {
      Insert(a, i, cmp, old(a[..]));
      i := i + 1;
    }
  }

  ghost predicate SortedPrefix<T>(cmp: (T, T) -> int, s: seq<T>, n: int)
    requires 0 <= n <= |s|
  {
    forall k, l :: 0 <= k < l < n ==> cmp(s[k], s[l]) <= 0
  }

  /** One pass of the insertion sort: moves `a[i]` left past every element that
      must come after it. */
  method Insert<T>(a: array<T>, i: int, cmp: (T, T) -> int, ghost orig: seq<T>)
    requires 0 <= i < a.Length
    requires multiset(a[..]) == multiset(orig)
    requires TotalPreorderOn(cmp, multiset(orig)) ==> SortedPrefix(cmp, a[..], i)
    modifies a
    ensures multiset(a[..]) == multiset(orig)
    ensures TotalPreorderOn(cmp, multiset(orig)) ==> SortedPrefix(cmp, a[..], i + 1)
  {
    ghost var consistent := TotalPreorderOn(cmp, multiset(orig));
    assert consistent ==> InsertionInvariant(cmp, a[..], i, i);
    var j := i;
    while j > 0 && cmp(a[j - 1], a[j]) > 0
      invariant 0 <= j <= i
      invariant multiset(a[..]) == multiset(orig)
      invariant consistent ==> InsertionInvariant(cmp, a[..], i, j)
    {
      ghost var s := a[..];
      if consistent {
        ComparatorTotal(cmp, multiset(orig), s[j], s[j - 1]);
        SwapStep(cmp, s, i, j);
      }
      Swap(a, j - 1, j);
      j := j - 1;
    }
    if consistent {
      InsertionDone(cmp, multiset(orig), a[..], i, j);
    }
  }

  method Swap<T>(a: array<T>, i: int, j: int)
    requires 0 <= i < j < a.Length
    modifies a
    ensures a[..] == old(a[..])[i := old(a[j])][j := old(a[i])]
    ensures multiset(a[..]) == multiset(old(a[..]))
  {
    a[i], a[j] := a[j], a[i];
  }

  /** While `a[i]` moves left to position `j`: the other elements of the prefix
      are still in order, and the moving element may precede everything right of it. */
  ghost predicate InsertionInvariant<T>(cmp: (T, T) -> int, s: seq<T>, i: int, j: int)
    requires 0 <= j <= i < |s|
  {
    && (forall k, l :: 0 <= k < l <= i && k != j && l != j ==> cmp(s[k], s[l]) <= 0)
    && (forall l :: j < l <= i ==> cmp(s[j], s[l]) <= 0)
  }

  lemma ComparatorTotal<T>(cmp: (T, T) -> int, elems: multiset<T>, x: T, y: T)
    requires TotalPreorderOn(cmp, elems)
    requires x in elems && y in elems
    ensures cmp(x, y) <= 0 || cmp(y, x) <= 0
  {
  }

  lemma SwapStep<T>(cmp: (T, T) -> int, s: seq<T>, i: int, j: int)
    requires 0 < j <= i < |s|
    requires InsertionInvariant(cmp, s, i, j)
    requires cmp(s[j], s[j - 1]) <= 0
    ensures InsertionInvariant(cmp, s[j - 1 := s[j]][j := s[j - 1]], i, j - 1)
  {
    var t := s[j - 1 := s[j]][j := s[j - 1]];
    forall k, l | 0 <= k < l <= i && k != j - 1 && l != j - 1
      ensures cmp(t[k], t[l]) <= 0
    {
      if k == j {
        assert t[k] == s[j - 1] && t[l] == s[l];
      } else if l == j {
        assert t[k] == s[k] && t[l] == s[j - 1];
      } else {
        assert t[k] == s[k] && t[l] == s[l];
      }
    }
    forall l | j - 1 < l <= i
      ensures cmp(t[j - 1], t[l]) <= 0
    {
      if l > j {
        assert t[l] == s[l];
      }
    }
  }

  lemma InsertionDone<T>(cmp: (T, T) -> int, elems: multiset<T>, s: seq<T>, i: int, j: int)
    requires TotalPreorderOn(cmp, elems)
    requires multiset(s) == elems
    requires 0 <= j <= i < |s|
    requires InsertionInvariant(cmp, s, i, j)
    requires j > 0 ==> cmp(s[j - 1], s[j]) <= 0
    ensures SortedPrefix(cmp, s, i + 1)
  {
    forall k | 0 <= k < j
      ensures cmp(s[k], s[j]) <= 0
    {
      if k < j - 1 {
        assert s[k] in elems && s[j - 1] in elems && s[j] in elems;
      }
    }
  }
}
