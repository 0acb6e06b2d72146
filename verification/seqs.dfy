/** Sequence operations the source performs with `Array.prototype` methods:
    `filter`, `slice(0, n)`, the `findIndex`-based de-duplication and `sort`. */
module Seqs {

  // ---------------------------------------------------------------------------
  // Subsequences

  /** `a` can be obtained from `b` by deleting elements (order is kept). */
  ghost predicate SubseqOf<T>(a: seq<T>, b: seq<T>)
    decreases |b|
  {
    |a| == 0 || (|b| > 0 && ((a[0] == b[0] && SubseqOf(a[1..], b[1..])) || SubseqOf(a, b[1..])))
  }

  /** Every sequence is a subsequence of itself. */
  lemma {:induction false} SubseqRefl<T>(s: seq<T>)
    ensures SubseqOf(s, s)
    decreases |s|
  {
    if |s| > 0 {
      SubseqRefl(s[1..]);
    }
  }

  // ---------------------------------------------------------------------------
  // filter

  /** `s.filter(p)`: the elements satisfying `p`, each as often as in `s`, in the
      order of `s`. */
  function Filter<T(!new)>(s: seq<T>, p: T -> bool): (r: seq<T>)
    ensures forall x :: x in r <==> x in s && p(x)
    ensures forall x :: multiset(r)[x] == if p(x) then multiset(s)[x] else 0
    ensures SubseqOf(r, s)
    ensures |r| <= |s|
  {
    if |s| == 0 then []
    else
      var rest := Filter(s[1..], p);
      assert s == [s[0]] + s[1..];
      if p(s[0]) then [s[0]] + rest else rest
  }

  /** Filtering a concatenation filters each part. */
  lemma {:induction false} FilterAppend<T(!new)>(a: seq<T>, b: seq<T>, p: T -> bool)
    ensures Filter(a + b, p) == Filter(a, p) + Filter(b, p)
    decreases |a|
  {
    if |a| > 0 {
      assert (a + b)[1..] == a[1..] + b;
      FilterAppend(a[1..], b, p);
    } else {
      assert a + b == b;
    }
  }

  // ---------------------------------------------------------------------------
  // slice(0, n)

  /** The end index `slice(0, n)` uses: a negative `n` counts back from the end. */
  function SliceEnd(len: nat, n: int): (e: nat)
    ensures e <= len
    ensures n >= 0 ==> e == if n < len then n else len
    ensures n < 0 ==> e == if len + n > 0 then len + n else 0
  {
    if n < 0 then (if len + n > 0 then len + n else 0) else if n < len then n else len
  }

  /** `s.slice(0, n)`: a prefix of `s`. */
  function SliceTo<T>(s: seq<T>, n: int): (r: seq<T>)
    ensures |r| == SliceEnd(|s|, n)
    ensures r == s[..|r|]
  {
    s[..SliceEnd(|s|, n)]
  }

  /** A prefix of a subsequence is a subsequence too. */
  lemma {:induction false} SubseqPrefix<T>(a: seq<T>, b: seq<T>, k: nat)
    requires k <= |a| && SubseqOf(a, b)
    ensures SubseqOf(a[..k], b)
    decreases |b|
  {
    if k > 0 {
      if a[0] == b[0] && SubseqOf(a[1..], b[1..]) {
        SubseqPrefix(a[1..], b[1..], k - 1);
        assert a[..k][1..] == a[1..][..k - 1];
      } else {
        SubseqPrefix(a, b[1..], k);
      }
    }
  }

  /** Every element of a prefix is an element of the whole. */
  lemma SliceToMembers<T>(s: seq<T>, n: int)
    ensures forall x :: x in SliceTo(s, n) ==> x in s
  {
    var r := SliceTo(s, n);
    forall x | x in r
      ensures x in s
    {
      var i :| 0 <= i < |r| && r[i] == x;
      assert s[i] == x;
    }
  }

  /** A non-negative bound is respected. */
  lemma SliceToBound<T>(s: seq<T>, n: nat)
    ensures |SliceTo(s, n)| <= n
  {
  }

  // ---------------------------------------------------------------------------
  // De-duplication by key, as `s.filter((x, i, arr) => arr.findIndex(y => key(y) === key(x)) === i)`

  /** No element before index `i` has the key of `s[i]`: `findIndex` lands on `i`. */
  predicate IsFirstOfKey<T, K(==)>(s: seq<T>, key: T -> K, i: nat)
    requires i < |s|
  {
    forall j :: 0 <= j < i ==> key(s[j]) != key(s[i])
  }

  /** The keys occurring in `s`. */
  ghost function Keys<T, K>(s: seq<T>, key: T -> K): set<K> {
    set x | x in s :: key(x)
  }

  /** The elements of `s` are pairwise distinct by key. */
  ghost predicate DistinctKeys<T, K>(s: seq<T>, key: T -> K) {
    forall i, j :: 0 <= i < j < |s| ==> key(s[i]) != key(s[j])
  }

  /** The elements `s[i..]` that are first of their key in the whole of `s`. */
  function DedupFrom<T, K(==)>(s: seq<T>, key: T -> K, i: nat): (r: seq<T>)
    requires i <= |s|
    ensures forall x :: x in r ==> exists j :: i <= j < |s| && s[j] == x && IsFirstOfKey(s, key, j)
    ensures DistinctKeys(r, key)
    ensures SubseqOf(r, s[i..])
    decreases |s| - i
  {
    if i == |s| then []
    else
      var rest := DedupFrom(s, key, i + 1);
      assert s[i..][1..] == s[i + 1..];
      if IsFirstOfKey(s, key, i) then
        assert forall x :: x in rest ==> key(x) != key(s[i]);
        [s[i]] + rest
      else rest
  }

  /** The source's de-duplication: keeps the first element of each key, in order. */
  function DedupBy<T, K(==)>(s: seq<T>, key: T -> K): (r: seq<T>)
    ensures DistinctKeys(r, key)
    ensures SubseqOf(r, s)
    ensures forall x :: x in r ==> exists j :: 0 <= j < |s| && s[j] == x && IsFirstOfKey(s, key, j)
    ensures Keys(r, key) == Keys(s, key)
  {
    assert s[0..] == s;
    DedupKeepsKeys(s, key);
    DedupFrom(s, key, 0)
  }

  /** An element that is first of its key at or after `i` is kept. */
  lemma {:induction false} FirstIsKept<T, K>(s: seq<T>, key: T -> K, i: nat, f: nat)
    requires i <= f < |s| && IsFirstOfKey(s, key, f)
    ensures s[f] in DedupFrom(s, key, i)
    decreases f - i
  {
    if i < f {
      FirstIsKept(s, key, i + 1, f);
    }
  }

  /** Every key of `s` survives de-duplication, and no other key appears. */
  lemma DedupKeepsKeys<T, K>(s: seq<T>, key: T -> K)
    ensures Keys(DedupFrom(s, key, 0), key) == Keys(s, key)
  {
    var r := DedupFrom(s, key, 0);
    forall x | x in s
      ensures key(x) in Keys(r, key)
    {
      var j :| 0 <= j < |s| && s[j] == x;
      var f := FirstOfKeyIndex(s, key, j);
      FirstIsKept(s, key, 0, f);
    }
  }

  /** The index of the first element with the key of `s[j]`. */
  lemma FirstOfKeyIndex<T, K>(s: seq<T>, key: T -> K, j: nat) returns (f: nat)
    requires j < |s|
    ensures f <= j && key(s[f]) == key(s[j]) && IsFirstOfKey(s, key, f)
  {
    f := 0;
    while key(s[f]) != key(s[j])
      invariant f <= j
      invariant forall k :: 0 <= k < f ==> key(s[k]) != key(s[j])
      decreases j - f
    {
      f := f + 1;
    }
  }

  /** Over `a + b` with `a` already distinct, everything of `a` from `i` on is
      kept in front of what `b` contributes. */
  lemma {:induction false} DedupDistinctPrefixFrom<T, K>(a: seq<T>, b: seq<T>, key: T -> K, i: nat)
    requires DistinctKeys(a, key)
    requires i <= |a|
    ensures DedupFrom(a + b, key, i) == a[i..] + DedupFrom(a + b, key, |a|)
    decreases |a| - i
  {
    if i < |a| {
      var s := a + b;
      var tail := DedupFrom(s, key, |a|);
      var rest := DedupFrom(s, key, i + 1);
      assert rest == a[i + 1..] + tail by {
        DedupDistinctPrefixFrom(a, b, key, i + 1);
      }
      assert DedupFrom(s, key, i) == [a[i]] + rest by {
        DistinctPrefixIsFirst(a, b, key, i);
        assert s[i] == a[i];
      }
      assert a[i..] == [a[i]] + a[i + 1..];
    }
  }

  /** In `a + b` with `a` key-distinct, each element of `a` is first of its key. */
  lemma DistinctPrefixIsFirst<T, K>(a: seq<T>, b: seq<T>, key: T -> K, i: nat)
    requires DistinctKeys(a, key) && i < |a|
    ensures IsFirstOfKey(a + b, key, i)
  {
    forall j | 0 <= j < i
      ensures key((a + b)[j]) != key((a + b)[i])
    {
      assert (a + b)[j] == a[j] && (a + b)[i] == a[i];
    }
  }

  /** De-duplicating `a + b` when `a` is already distinct keeps all of `a`, in
      front. */
  lemma DedupKeepsDistinctPrefix<T, K>(a: seq<T>, b: seq<T>, key: T -> K)
    requires DistinctKeys(a, key)
    ensures DedupBy(a + b, key) == a + DedupFrom(a + b, key, |a|)
  {
    DedupDistinctPrefixFrom(a, b, key, 0);
    assert a[0..] == a;
  }

  /** A subsequence of a key-distinct sequence is key-distinct, and draws its
      elements from it. */
  lemma {:induction false} SubseqKeepsDistinct<T, K>(a: seq<T>, b: seq<T>, key: T -> K)
    requires SubseqOf(a, b) && DistinctKeys(b, key)
    ensures DistinctKeys(a, key)
    ensures forall x :: x in a ==> x in b
    decreases |b|
  {
    if |a| > 0 {
      assert DistinctKeys(b[1..], key) by {
        forall i, j | 0 <= i < j < |b| - 1
          ensures key(b[1..][i]) != key(b[1..][j])
        {
          assert b[1..][i] == b[i + 1] && b[1..][j] == b[j + 1];
        }
      }
      if a[0] == b[0] && SubseqOf(a[1..], b[1..]) {
        SubseqKeepsDistinct(a[1..], b[1..], key);
        forall j | 0 < j < |a|
          ensures key(a[0]) != key(a[j])
        {
          assert a[j] == a[1..][j - 1];
          assert a[j] in a[1..];
          var m :| 0 <= m < |b[1..]| && b[1..][m] == a[j];
          assert b[m + 1] == a[j];
        }
        forall x | x in a
          ensures x in b
        {
          if x != a[0] {
            assert x in a[1..];
          }
        }
      } else {
        SubseqKeepsDistinct(a, b[1..], key);
      }
    }
  }

  // ---------------------------------------------------------------------------
  // Stable insertion sort

  /** `le` decides, for every pair, at least one direction. */
  ghost predicate Total<T(!new)>(le: (T, T) -> bool) {
    forall a, b :: le(a, b) || le(b, a)
  }

  /** Neighbours are in `le` order. */
  predicate SortedBy<T>(s: seq<T>, le: (T, T) -> bool) {
    forall i :: 0 <= i < |s| - 1 ==> le(s[i], s[i + 1])
  }

  /** A prefix of a sorted sequence is sorted. */
  lemma SortedPrefix<T>(s: seq<T>, k: nat, le: (T, T) -> bool)
    requires SortedBy(s, le) && k <= |s|
    ensures SortedBy(s[..k], le)
  {
  }

  /** Inserts `x` before the first element it may precede. */
  function Insert<T(!new)>(x: T, s: seq<T>, le: (T, T) -> bool): (r: seq<T>)
    requires Total(le)
    requires SortedBy(s, le)
    ensures SortedBy(r, le)
    ensures multiset(r) == multiset(s) + multiset{x}
    ensures |r| > 0 && (r[0] == x || (|s| > 0 && r[0] == s[0]))
  {
    if |s| == 0 then [x]
    else if le(x, s[0]) then [x] + s
    else
      assert s == [s[0]] + s[1..];
      [s[0]] + Insert(x, s[1..], le)
  }

  /** Dropping the head keeps the keys distinct. */
  lemma DistinctTail<T, K>(s: seq<T>, key: T -> K)
    requires |s| > 0 && DistinctKeys(s, key)
    ensures DistinctKeys(s[1..], key)
  {
    var t := s[1..];
    forall i, j | 0 <= i < j < |t|
      ensures key(t[i]) != key(t[j])
    {
      assert t[i] == s[i + 1] && t[j] == s[j + 1];
    }
  }

  /** A head whose key the tail does not hold keeps the keys distinct. */
  lemma DistinctCons<T, K>(y: T, t: seq<T>, key: T -> K)
    requires DistinctKeys(t, key)
    requires forall z :: z in t ==> key(z) != key(y)
    ensures DistinctKeys([y] + t, key)
  {
    var r := [y] + t;
    forall i, j | 0 <= i < j < |r|
      ensures key(r[i]) != key(r[j])
    {
      if i > 0 {
        assert r[i] == t[i - 1] && r[j] == t[j - 1];
      } else {
        assert r[j] == t[j - 1];
      }
    }
  }

  /** The head's key is held by no later element. */
  lemma DistinctHead<T, K>(s: seq<T>, key: T -> K)
    requires |s| > 0 && DistinctKeys(s, key)
    ensures forall z :: z in s[1..] ==> key(z) != key(s[0])
  {
    forall z | z in s[1..]
      ensures key(z) != key(s[0])
    {
      var m :| 0 <= m < |s[1..]| && s[1..][m] == z;
      assert s[m + 1] == z;
    }
  }

  /** Inserting an element whose key is new keeps the keys distinct. */
  lemma {:induction false} InsertKeepsDistinct<T(!new), K>(x: T, s: seq<T>, le: (T, T) -> bool, key: T -> K)
    requires Total(le) && SortedBy(s, le)
    requires DistinctKeys(s, key)
    requires forall y :: y in s ==> key(y) != key(x)
    ensures DistinctKeys(Insert(x, s, le), key)
    decreases |s|
  {
    if |s| == 0 {
      assert Insert(x, s, le) == [x];
    } else if le(x, s[0]) {
      assert Insert(x, s, le) == [x] + s;
      DistinctCons(x, s, key);
    } else {
      var t := s[1..];
      assert SortedBy(t, le);
      DistinctTail(s, key);
      DistinctHead(s, key);
      InsertKeepsDistinct(x, t, le, key);
      var rest := Insert(x, t, le);
      assert Insert(x, s, le) == [s[0]] + rest;
      forall y | y in rest
        ensures key(y) != key(s[0])
      {
        assert y in multiset(rest);
        assert y == x || y in multiset(t);
      }
      DistinctCons(s[0], rest, key);
    }
  }

  /** Sorting keeps the keys distinct. */
  lemma {:induction false} SortKeepsDistinct<T(!new), K>(s: seq<T>, le: (T, T) -> bool, key: T -> K)
    requires Total(le) && DistinctKeys(s, key)
    ensures DistinctKeys(InsertionSort(s, le), key)
    decreases |s|
  {
    if |s| > 0 {
      var t := s[1..];
      assert DistinctKeys(t, key) by {
        forall i, j | 0 <= i < j < |t|
          ensures key(t[i]) != key(t[j])
        {
          assert t[i] == s[i + 1] && t[j] == s[j + 1];
        }
      }
      SortKeepsDistinct(t, le, key);
      var sorted := InsertionSort(t, le);
      forall y | y in sorted
        ensures key(y) != key(s[0])
      {
        assert y in multiset(sorted);
        assert y in multiset(t);
        var m :| 0 <= m < |t| && t[m] == y;
        assert s[m + 1] == y;
      }
      InsertKeepsDistinct(s[0], sorted, le, key);
    }
  }

  /** Sorts `s` by `le`, keeping equal elements in their original order as
      JavaScript's stable `Array.prototype.sort` does. */
  function InsertionSort<T(!new)>(s: seq<T>, le: (T, T) -> bool): (r: seq<T>)
    requires Total(le)
    ensures SortedBy(r, le)
    ensures multiset(r) == multiset(s)
    ensures |r| == |s|
  {
    if |s| == 0 then []
    else
      assert s == [s[0]] + s[1..];
      Insert(s[0], InsertionSort(s[1..], le), le)
  }

  /** The elements of `s` whose key is `k`, in the order of `s`. */
  ghost function OfKey<T, K>(s: seq<T>, key: T -> K, k: K): seq<T>
    decreases |s|
  {
    if |s| == 0 then []
    else if key(s[0]) == k then [s[0]] + OfKey(s[1..], key, k)
    else OfKey(s[1..], key, k)
  }

  /** Dropping the head keeps a sequence sorted. */
  lemma SortedTail<T>(s: seq<T>, le: (T, T) -> bool)
    requires |s| > 0 && SortedBy(s, le)
    ensures SortedBy(s[1..], le)
  {
  }

  /** `x` goes behind a head it may not precede. */
  lemma InsertPast<T(!new)>(x: T, s: seq<T>, le: (T, T) -> bool)
    requires Total(le) && SortedBy(s, le) && |s| > 0 && !le(x, s[0])
    ensures Insert(x, s, le) == [s[0]] + Insert(x, s[1..], le)
  {
  }

  /** Inserting `x` puts it in front of every element of its own key: each key's
      elements keep their order, with `x` first among its own. */
  lemma {:induction false} InsertStable<T(!new), K>(x: T, s: seq<T>, le: (T, T) -> bool, key: T -> K, k: K)
    requires Total(le) && SortedBy(s, le)
    requires forall a, b :: key(a) == key(b) ==> le(a, b)
    ensures OfKey(Insert(x, s, le), key, k) == (if key(x) == k then [x] else []) + OfKey(s, key, k)
    decreases |s|
  {
    if |s| == 0 {
      assert ([x])[1..] == [];
    } else if le(x, s[0]) {
      assert ([x] + s)[1..] == s;
    } else {
      SortedTail(s, le);
      InsertStable(x, s[1..], le, key, k);
      assert key(x) != key(s[0]);
      InsertPast(x, s, le);
      var rest := Insert(x, s[1..], le);
      assert ([s[0]] + rest)[1..] == rest;
    }
  }

  /** The sort is stable: the elements of each key come out in their input
      order, for any key that `le` never separates. */
  lemma {:induction false} SortStable<T(!new), K>(s: seq<T>, le: (T, T) -> bool, key: T -> K, k: K)
    requires Total(le)
    requires forall a, b :: key(a) == key(b) ==> le(a, b)
    ensures OfKey(InsertionSort(s, le), key, k) == OfKey(s, key, k)
    decreases |s|
  {
    if |s| > 0 {
      SortStable(s[1..], le, key, k);
      InsertStable(s[0], InsertionSort(s[1..], le), le, key, k);
    }
  }

  // ---------------------------------------------------------------------------
  // The largest element of a finite set

  /** A non-empty finite set of naturals has a largest element. */
  lemma {:induction false} MaxOf(s: set<nat>) returns (top: nat)
    requires s != {}
    ensures top in s && forall y :: y in s ==> y <= top
    decreases |s|
  {
    var x :| x in s;
    if s - {x} == {} {
      top := x;
    } else {
      var m := MaxOf(s - {x});
      top := if x <= m then m else x;
    }
    forall y | y in s
      ensures y <= top
    {
      if y != x {
        assert y in s - {x};
      }
    }
  }

  lemma HasMax(s: set<nat>)
    requires s != {}
    ensures exists m :: m in s && forall y :: y in s ==> y <= m
  {
    var top := MaxOf(s);
  }

  /** The largest element of a non-empty finite set. */
  function SetMax(s: set<nat>): (m: nat)
    requires s != {}
    ensures m in s && forall y :: y in s ==> y <= m
  {
    HasMax(s);
    var m :| m in s && forall y :: y in s ==> y <= m;
    m
  }
}
