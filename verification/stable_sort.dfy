/** Generic sequence operations the charts are built from: filtering,
    JavaScript's `slice(0, end)`, mapping, and the stable sort from the highest
    key to the lowest that `Array.prototype.sort` performs with a comparator
    `(a, b) => key(b) - key(a)`.

    Stability is stated without positions: a sequence is a stable reordering
    of another when, for every key value, the elements carrying that key appear
    in both in the same order (`SameTies`).  Sortedness together with that
    property pins the result down completely (`SortedTiesUnique`), which is
    how the commutation lemmas below are proved. */
module StableSort {

  /** `s` lists its elements from the highest key to the lowest. */
  predicate SortedDesc<T>(s: seq<T>, key: T -> real) {
    forall i, j :: 0 <= i < j < |s| ==> key(s[i]) >= key(s[j])
  }

  /** The elements of `s` whose key is exactly `k`, in their order in `s`. */
  function WithKey<T>(s: seq<T>, key: T -> real, k: real): (r: seq<T>)
    ensures |r| <= |s|
    ensures forall i :: 0 <= i < |r| ==> r[i] in s && key(r[i]) == k
  {
    if |s| == 0 then []
    else (if key(s[0]) == k then [s[0]] else []) + WithKey(s[1..], key, k)
  }

  /** `a` and `b` hold the same elements of every key, in the same relative order. */
  ghost predicate SameTies<T>(a: seq<T>, b: seq<T>, key: T -> real) {
    forall k :: WithKey(a, key, k) == WithKey(b, key, k)
  }

  /** JavaScript's `Array.prototype.filter`. */
  function Filter<T>(s: seq<T>, p: T -> bool): (r: seq<T>)
    ensures |r| <= |s|
    ensures forall i :: 0 <= i < |r| ==> r[i] in s && p(r[i])
    ensures forall i :: 0 <= i < |s| && p(s[i]) ==> s[i] in r
  {
    if |s| == 0 then []
    else (if p(s[0]) then [s[0]] else []) + Filter(s[1..], p)
  }

  /** JavaScript's `Array.prototype.map` with a callback that ignores the index. */
  function MapSeq<T, U>(s: seq<T>, f: T -> U): (r: seq<U>)
    ensures |r| == |s|
    ensures forall i :: 0 <= i < |s| ==> r[i] == f(s[i])
  {
    if |s| == 0 then [] else [f(s[0])] + MapSeq(s[1..], f)
  }

  /** JavaScript's `s.slice(0, end)`: a prefix of `s`, where a negative `end`
      counts back from the end of `s` and an `end` past the end is clamped. */
  function SliceTo<T>(s: seq<T>, end: int): (r: seq<T>)
    ensures r <= s
    ensures 0 <= end ==> |r| == if end < |s| then end else |s|
    ensures end < 0 ==> |r| == if |s| + end < 0 then 0 else |s| + end
  {
    if end < 0 then (if |s| + end < 0 then [] else s[..|s| + end])
    else if end < |s| then s[..end]
    else s
  }

  /** Places `x` in front of the first element whose key is not above its own,
      so that `x` stays ahead of every element with an equal key. */
  function Insert<T>(x: T, s: seq<T>, key: T -> real): (r: seq<T>)
    ensures |r| == |s| + 1
    ensures SortedDesc(s, key) ==> SortedDesc(r, key)
    decreases |s|, 0
  {
    if |s| == 0 || key(x) >= key(s[0]) then [x] + s
    else
      var rest := Insert(x, s[1..], key);
      InsertPermutes(x, s[1..], key);
      assert s == [s[0]] + s[1..];
      assert SortedDesc(s, key) ==> SortedDesc([s[0]] + rest, key) by {
        if SortedDesc(s, key) {
          forall j | 0 <= j < |rest| ensures key(rest[j]) <= key(s[0]) {
            assert rest[j] in multiset(rest);
            if rest[j] != x {
              assert rest[j] in multiset(s[1..]);
              var m :| 0 <= m < |s[1..]| && s[1..][m] == rest[j];
              assert s[m + 1] == rest[j];
            }
          }
          ConsSorted(s[0], rest, key);
        }
      }
      [s[0]] + rest
  }

  /** Inserting adds `x` and loses nothing. */
  lemma {:induction false} InsertPermutes<T>(x: T, s: seq<T>, key: T -> real)
    ensures multiset(Insert(x, s, key)) == multiset(s) + multiset{x}
    decreases |s|, 1
  {
    if |s| > 0 && key(x) < key(s[0]) {
      InsertPermutes(x, s[1..], key);
      assert Insert(x, s, key) == [s[0]] + Insert(x, s[1..], key);
      assert s == [s[0]] + s[1..];
    }
  }

  /** Stable sort from the highest key to the lowest. */
  function SortDesc<T>(s: seq<T>, key: T -> real): (r: seq<T>)
    ensures |r| == |s|
    ensures SortedDesc(r, key)
  {
    if |s| == 0 then []
    else Insert(s[0], SortDesc(s[1..], key), key)
  }

  /** The sort neither loses nor duplicates an element. */
  lemma {:induction false} SortPermutes<T>(s: seq<T>, key: T -> real)
    ensures multiset(SortDesc(s, key)) == multiset(s)
  {
    if |s| > 0 {
      SortPermutes(s[1..], key);
      InsertPermutes(s[0], SortDesc(s[1..], key), key);
      assert s == [s[0]] + s[1..];
    }
  }

  /** A head with a key no lower than any key of a sorted tail extends it to a
      sorted sequence. */
  lemma ConsSorted<T>(h: T, t: seq<T>, key: T -> real)
    requires SortedDesc(t, key)
    requires forall j :: 0 <= j < |t| ==> key(t[j]) <= key(h)
    ensures SortedDesc([h] + t, key)
  {
    var r := [h] + t;
    forall i, j | 0 <= i < j < |r| ensures key(r[i]) >= key(r[j]) {
      assert r[j] == t[j - 1];
      if i > 0 {
        assert r[i] == t[i - 1];
      }
    }
  }

  lemma WithKeyCons<T>(h: T, t: seq<T>, key: T -> real, k: real)
    ensures WithKey([h] + t, key, k) == (if key(h) == k then [h] else []) + WithKey(t, key, k)
  {
    assert ([h] + t)[1..] == t;
  }

  lemma FilterCons<T>(h: T, t: seq<T>, p: T -> bool)
    ensures Filter([h] + t, p) == (if p(h) then [h] else []) + Filter(t, p)
  {
    assert ([h] + t)[1..] == t;
  }

  /** Inserting `x` adds it in front of the elements of `s` that share its key. */
  lemma {:induction false} InsertTies<T>(x: T, s: seq<T>, key: T -> real, k: real)
    ensures WithKey(Insert(x, s, key), key, k)
            == (if key(x) == k then [x] else []) + WithKey(s, key, k)
  {
    if |s| == 0 || key(x) >= key(s[0]) {
      WithKeyCons(x, s, key, k);
    } else {
      var rest := Insert(x, s[1..], key);
      assert Insert(x, s, key) == [s[0]] + rest;
      InsertTies(x, s[1..], key, k);
      InsertBehindTies(x, s, rest, key, k);
    }
  }

  lemma InsertBehindTies<T>(x: T, s: seq<T>, rest: seq<T>, key: T -> real, k: real)
    requires |s| > 0 && key(x) < key(s[0])
    requires WithKey(rest, key, k) == (if key(x) == k then [x] else []) + WithKey(s[1..], key, k)
    ensures WithKey([s[0]] + rest, key, k)
            == (if key(x) == k then [x] else []) + WithKey(s, key, k)
  {
    WithKeyCons(s[0], rest, key, k);
    WithKeyCons(s[0], s[1..], key, k);
    assert s == [s[0]] + s[1..];
    if key(s[0]) == k {
      assert key(x) != k;
      assert WithKey(s, key, k) == [s[0]] + WithKey(s[1..], key, k);
    } else {
      assert WithKey(s, key, k) == WithKey(s[1..], key, k);
    }
  }

  /** The sort is stable: elements with equal keys keep their input order. */
  lemma {:induction false} SortKeepsTies<T>(s: seq<T>, key: T -> real)
    ensures SameTies(SortDesc(s, key), s, key)
  {
    if |s| > 0 {
      SortKeepsTies(s[1..], key);
      forall k ensures WithKey(SortDesc(s, key), key, k) == WithKey(s, key, k) {
        InsertTies(s[0], SortDesc(s[1..], key), key, k);
      }
    }
  }

  lemma WithKeyOfHead<T>(s: seq<T>, key: T -> real)
    requires |s| > 0
    ensures WithKey(s, key, key(s[0])) == [s[0]] + WithKey(s[1..], key, key(s[0]))
  {
  }

  /** Two sequences sorted by the same key that agree on the order of every tie
      are equal: a stable sort has exactly one possible result. */
  lemma {:induction false} SortedTiesUnique<T>(a: seq<T>, b: seq<T>, key: T -> real)
    requires SortedDesc(a, key) && SortedDesc(b, key)
    requires SameTies(a, b, key)
    ensures a == b
    decreases |a|
  {
    if |a| == 0 {
      if |b| > 0 {
        WithKeyOfHead(b, key);
        assert false;
      }
    } else if |b| == 0 {
      WithKeyOfHead(a, key);
      assert false;
    } else {
      var k0, k1 := key(a[0]), key(b[0]);
      WithKeyOfHead(a, key);
      WithKeyOfHead(b, key);
      assert WithKey(a, key, k1) == WithKey(b, key, k1);
      assert WithKey(a, key, k0) == WithKey(b, key, k0);
      assert WithKey(a, key, k1)[0] in WithKey(a, key, k1);
      assert WithKey(b, key, k0)[0] in WithKey(b, key, k0);
      var i :| 0 <= i < |a| && a[i] == WithKey(a, key, k1)[0];
      var j :| 0 <= j < |b| && b[j] == WithKey(b, key, k0)[0];
      assert k1 <= k0 by { assert i == 0 || 0 < i; }
      assert k0 <= k1 by { assert j == 0 || 0 < j; }
      assert a[0] == b[0];
      forall k ensures WithKey(a[1..], key, k) == WithKey(b[1..], key, k) {
        assert WithKey(a, key, k) == WithKey(b, key, k);
        WithKeyCons(a[0], a[1..], key, k);
        WithKeyCons(b[0], b[1..], key, k);
        assert a == [a[0]] + a[1..];
        assert b == [b[0]] + b[1..];
        if k == k0 {
          assert WithKey(a, key, k) == [a[0]] + WithKey(a[1..], key, k);
          assert WithKey(b, key, k) == [a[0]] + WithKey(b[1..], key, k);
          assert WithKey(a[1..], key, k) == WithKey(a, key, k)[1..];
          assert WithKey(b[1..], key, k) == WithKey(b, key, k)[1..];
        } else {
          assert WithKey(a, key, k) == WithKey(a[1..], key, k);
          assert WithKey(b, key, k) == WithKey(b[1..], key, k);
        }
      }
      SortedTiesUnique(a[1..], b[1..], key);
      assert a == [a[0]] + a[1..];
      assert b == [b[0]] + b[1..];
    }
  }

  /** Sorting an already stably sorted sequence changes nothing. */
  lemma SortIdempotent<T>(s: seq<T>, key: T -> real)
    ensures SortDesc(SortDesc(s, key), key) == SortDesc(s, key)
  {
    var once := SortDesc(s, key);
    var twice := SortDesc(once, key);
    SortKeepsTies(once, key);
    SortedTiesUnique(twice, once, key);
  }

  lemma {:induction false} FilterKeepsSorted<T>(s: seq<T>, p: T -> bool, key: T -> real)
    requires SortedDesc(s, key)
    ensures SortedDesc(Filter(s, p), key)
  {
    if |s| > 0 {
      FilterKeepsSorted(s[1..], p, key);
      var rest := Filter(s[1..], p);
      forall j | 0 <= j < |rest| ensures key(rest[j]) <= key(s[0]) {
        assert rest[j] in s[1..];
        var m :| 0 <= m < |s[1..]| && s[1..][m] == rest[j];
        assert s[m + 1] == rest[j];
      }
      assert Filter(s, p) == (if p(s[0]) then [s[0]] else []) + rest;
      if p(s[0]) {
        ConsSorted(s[0], rest, key);
      }
    }
  }

  /** Picking one key and filtering by a predicate can be done in either order. */
  lemma {:induction false} WithKeyFilter<T>(s: seq<T>, p: T -> bool, key: T -> real, k: real)
    ensures WithKey(Filter(s, p), key, k) == Filter(WithKey(s, key, k), p)
  {
    if |s| > 0 {
      WithKeyFilter(s[1..], p, key, k);
      var f := Filter(s[1..], p);
      var w := WithKey(s[1..], key, k);
      assert s == [s[0]] + s[1..];
      FilterCons(s[0], s[1..], p);
      WithKeyCons(s[0], s[1..], key, k);
      if p(s[0]) {
        WithKeyCons(s[0], f, key, k);
      }
      if key(s[0]) == k {
        FilterCons(s[0], w, p);
        assert WithKey(s, key, k) == [s[0]] + w;
      } else {
        assert WithKey(s, key, k) == w;
      }
      if p(s[0]) {
        assert Filter(s, p) == [s[0]] + f;
      } else {
        assert Filter(s, p) == f;
      }
    }
  }

  /** Filtering a stably sorted sequence gives the stable sort of the filtered
      sequence. */
  lemma FilterCommutesWithSort<T>(s: seq<T>, p: T -> bool, key: T -> real)
    ensures Filter(SortDesc(s, key), p) == SortDesc(Filter(s, p), key)
  {
    var sorted := SortDesc(s, key);
    var left := Filter(sorted, p);
    var right := SortDesc(Filter(s, p), key);
    FilterKeepsSorted(sorted, p, key);
    SortKeepsTies(s, key);
    SortKeepsTies(Filter(s, p), key);
    forall k ensures WithKey(left, key, k) == WithKey(right, key, k) {
      WithKeyFilter(sorted, p, key, k);
      WithKeyFilter(s, p, key, k);
    }
    SortedTiesUnique(left, right, key);
  }

  lemma {:induction false} MapKeepsSorted<T, U>(s: seq<T>, f: T -> U, keyT: T -> real, keyU: U -> real)
    requires forall x :: keyU(f(x)) == keyT(x)
    requires SortedDesc(s, keyT)
    ensures SortedDesc(MapSeq(s, f), keyU)
  {
    var r := MapSeq(s, f);
    forall i, j | 0 <= i < j < |r| ensures keyU(r[i]) >= keyU(r[j]) {
      assert keyU(r[i]) == keyT(s[i]) && keyU(r[j]) == keyT(s[j]);
    }
  }

  lemma {:induction false} WithKeyMap<T, U>(s: seq<T>, f: T -> U, keyT: T -> real, keyU: U -> real, k: real)
    requires forall x :: keyU(f(x)) == keyT(x)
    ensures WithKey(MapSeq(s, f), keyU, k) == MapSeq(WithKey(s, keyT, k), f)
  {
    if |s| > 0 {
      WithKeyMap(s[1..], f, keyT, keyU, k);
      var m := MapSeq(s[1..], f);
      var w := WithKey(s[1..], keyT, k);
      assert MapSeq(s, f) == [f(s[0])] + m;
      assert ([f(s[0])] + m)[1..] == m;
      if keyT(s[0]) == k {
        assert ([s[0]] + w)[1..] == w;
      }
    }
  }

  /** Mapping every element to one with the same key commutes with the sort. */
  lemma MapCommutesWithSort<T, U>(s: seq<T>, f: T -> U, keyT: T -> real, keyU: U -> real)
    requires forall x :: keyU(f(x)) == keyT(x)
    ensures MapSeq(SortDesc(s, keyT), f) == SortDesc(MapSeq(s, f), keyU)
  {
    var sorted := SortDesc(s, keyT);
    var left := MapSeq(sorted, f);
    var right := SortDesc(MapSeq(s, f), keyU);
    MapKeepsSorted(sorted, f, keyT, keyU);
    SortKeepsTies(s, keyT);
    SortKeepsTies(MapSeq(s, f), keyU);
    forall k ensures WithKey(left, keyU, k) == WithKey(right, keyU, k) {
      WithKeyMap(sorted, f, keyT, keyU, k);
      WithKeyMap(s, f, keyT, keyU, k);
    }
    SortedTiesUnique(left, right, keyU);
  }

  /** Every element a prefix of a sorted sequence leaves out has a key no
      higher than every element it keeps. */
  lemma PrefixDominates<T>(s: seq<T>, n: nat, key: T -> real)
    requires SortedDesc(s, key) && n <= |s|
    ensures forall x, y :: x in s[..n] && y in s && y !in s[..n] ==> key(y) <= key(x)
  {
    forall i, j | 0 <= i < n && 0 <= j < |s| ensures s[j] in s[..n] || key(s[j]) <= key(s[i]) {
      if j < n {
        assert s[..n][j] == s[j];
      }
    }
    forall x, y | x in s[..n] && y in s && y !in s[..n] ensures key(y) <= key(x) {
      var i :| 0 <= i < n && s[..n][i] == x;
      var j :| 0 <= j < |s| && s[j] == y;
      assert s[i] == x;
    }
  }

  /** The ties of a prefix are a prefix of the ties of the whole sequence. */
  lemma {:induction false} WithKeyPrefix<T>(r: seq<T>, s: seq<T>, key: T -> real, k: real)
    requires r <= s
    ensures WithKey(r, key, k) <= WithKey(s, key, k)
  {
    if |r| > 0 {
      assert r[1..] <= s[1..];
      WithKeyPrefix(r[1..], s[1..], key, k);
    }
  }

  /** Filtering a prefix gives a prefix of the filtered sequence. */
  lemma {:induction false} FilterPrefix<T>(r: seq<T>, s: seq<T>, p: T -> bool)
    requires r <= s
    ensures Filter(r, p) <= Filter(s, p)
  {
    if |r| > 0 {
      assert r[1..] <= s[1..];
      FilterPrefix(r[1..], s[1..], p);
    }
  }

  /** A prefix holds part of the elements of the whole sequence. */
  lemma PrefixMultiset<T>(r: seq<T>, s: seq<T>)
    requires r <= s
    ensures multiset(r) <= multiset(s)
  {
    assert s == r + s[|r|..];
  }

  lemma {:induction false} FilterConcat<T>(a: seq<T>, b: seq<T>, p: T -> bool)
    ensures Filter(a + b, p) == Filter(a, p) + Filter(b, p)
  {
    if |a| > 0 {
      FilterConcat(a[1..], b, p);
      assert a + b == [a[0]] + (a[1..] + b);
      FilterCons(a[0], a[1..] + b, p);
      FilterCons(a[0], a[1..], p);
      assert a == [a[0]] + a[1..];
    } else {
      assert a + b == b;
    }
  }

  /** Filtering keeps a sequence whose elements all pass. */
  lemma {:induction false} FilterAll<T>(s: seq<T>, p: T -> bool)
    requires forall i :: 0 <= i < |s| ==> p(s[i])
    ensures Filter(s, p) == s
  {
    if |s| > 0 {
      FilterAll(s[1..], p);
      assert s == [s[0]] + s[1..];
    }
  }

  /** Filtering empties a sequence whose elements all fail. */
  lemma {:induction false} FilterNone<T>(s: seq<T>, p: T -> bool)
    requires forall i :: 0 <= i < |s| ==> !p(s[i])
    ensures Filter(s, p) == []
  {
    if |s| > 0 {
      FilterNone(s[1..], p);
    }
  }

  /** A second, stricter filter makes the first one redundant. */
  lemma {:induction false} FilterOfFilter<T>(s: seq<T>, p: T -> bool, q: T -> bool)
    requires forall x :: q(x) ==> p(x)
    ensures Filter(Filter(s, p), q) == Filter(s, q)
  {
    if |s| > 0 {
      FilterOfFilter(s[1..], p, q);
      if p(s[0]) {
        assert Filter(s, p) == [s[0]] + Filter(s[1..], p);
        FilterCons(s[0], Filter(s[1..], p), q);
      } else {
        assert Filter(s, p) == Filter(s[1..], p);
        assert !q(s[0]);
      }
    }
  }

  /** The first `n` elements of the stable sort of `s`: as many as `s` has up
      to `n`, in key order, each with a key no lower than any element left
      out, and all of `s` when it has no more than `n` elements. */
  lemma TopOfSort<T>(s: seq<T>, key: T -> real, n: nat)
    ensures var top := SliceTo(SortDesc(s, key), n);
            && |top| == (if |s| < n then |s| else n)
            && SortedDesc(top, key)
            && (|s| <= n ==> multiset(top) == multiset(s))
            && (forall x, y :: x in top && y in s && y !in top ==> key(y) <= key(x))
  {
    var sorted := SortDesc(s, key);
    var top := SliceTo(sorted, n);
    SortPermutes(s, key);
    assert top == sorted[..|top|];
    PrefixDominates(sorted, |top|, key);
    PrefixSorted(top, sorted, key);
    forall y | y in s ensures y in sorted {
      assert y in multiset(s);
    }
    if |s| <= n {
      assert top == sorted;
    }
  }

  /** A prefix of a sorted sequence is sorted. */
  lemma PrefixSorted<T>(r: seq<T>, s: seq<T>, key: T -> real)
    requires r <= s && SortedDesc(s, key)
    ensures SortedDesc(r, key)
  {
    forall i, j | 0 <= i < j < |r| ensures key(r[i]) >= key(r[j]) {
      assert r[i] == s[i] && r[j] == s[j];
    }
  }
}
