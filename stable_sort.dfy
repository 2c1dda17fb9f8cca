/** A stable sort into non-increasing order of an integer key: the order
    `Array.prototype.sort` produces with a comparator `(a, b) => key(b) - key(a)`
    (ECMAScript requires the sort to be stable since its 2019 edition).

    The specification is `IsStableSortDesc`: sorted by the key, and for every
    key value the records with that key appear in input order.  `SortDesc` is
    a reference insertion sort that meets it (`SortDescIsStableSort`), the
    specification allows only one output (`StableSortUnique`), and
    `SortInPlace` sorts an array in place to exactly that output. */
module StableSort {

  /** Keys never increase from left to right. */
  ghost predicate SortedDesc<T>(s: seq<T>, key: T -> int) {
    forall i, j :: 0 <= i < j < |s| ==> key(s[i]) >= key(s[j])
  }

  /** The elements of `s` whose key is `k`, in their order in `s`. */
  function WithKey<T>(s: seq<T>, key: T -> int, k: int): (r: seq<T>)
    ensures |r| <= |s|
  {
    if s == [] then []
    else (if key(s[0]) == k then [s[0]] else []) + WithKey(s[1..], key, k)
  }

  /** `output` is the stable non-increasing sort of `input`. */
  ghost predicate IsStableSortDesc<T>(input: seq<T>, output: seq<T>, key: T -> int) {
    && SortedDesc(output, key)
    && forall k :: WithKey(output, key, k) == WithKey(input, key, k)
  }

  /** Inserts `x` after every element whose key is at least `key(x)`. */
  function Insert<T>(s: seq<T>, x: T, key: T -> int): (r: seq<T>)
    ensures |r| == |s| + 1
  {
    if s == [] then [x]
    else if key(s[0]) < key(x) then [x] + s
    else [s[0]] + Insert(s[1..], x, key)
  }

  /** Insertion sort, taking the elements from left to right. */
  function SortDesc<T>(s: seq<T>, key: T -> int): (r: seq<T>)
    ensures |r| == |s|
  {
    if s == [] then [] else Insert(SortDesc(s[..|s| - 1], key), s[|s| - 1], key)
  }

  lemma WithKeyCons<T>(y: T, t: seq<T>, key: T -> int, k: int)
    ensures WithKey([y] + t, key, k) == (if key(y) == k then [y] else []) + WithKey(t, key, k)
  {
    assert ([y] + t)[0] == y;
    assert ([y] + t)[1..] == t;
  }

  lemma {:induction false} WithKeyAppend<T>(a: seq<T>, b: seq<T>, key: T -> int, k: int)
    ensures WithKey(a + b, key, k) == WithKey(a, key, k) + WithKey(b, key, k)
  {
    if a == [] {
      assert a + b == b;
    } else {
      assert a + b == [a[0]] + (a[1..] + b);
      WithKeyCons(a[0], a[1..] + b, key, k);
      WithKeyAppend(a[1..], b, key, k);
      assert a == [a[0]] + a[1..];
      WithKeyCons(a[0], a[1..], key, k);
    }
  }

  lemma {:induction false} WithKeyAbsent<T>(s: seq<T>, key: T -> int, k: int)
    requires forall i :: 0 <= i < |s| ==> key(s[i]) != k
    ensures WithKey(s, key, k) == []
  {
    if s != [] {
      WithKeyAbsent(s[1..], key, k);
    }
  }

  lemma WithKeyOwnKey<T>(s: seq<T>, key: T -> int)
    requires s != []
    ensures WithKey(s, key, key(s[0])) != []
  {
  }

  /** Every key in `s` is at most `bound`. */
  ghost predicate AtMost<T>(s: seq<T>, key: T -> int, bound: int) {
    forall i :: 0 <= i < |s| ==> key(s[i]) <= bound
  }

  lemma {:induction false} InsertAtMost<T>(s: seq<T>, x: T, key: T -> int, bound: int)
    requires AtMost(s, key, bound) && key(x) <= bound
    ensures AtMost(Insert(s, x, key), key, bound)
  {
    if s != [] && key(s[0]) >= key(x) {
      InsertAtMost(s[1..], x, key, bound);
      var r := Insert(s[1..], x, key);
      assert Insert(s, x, key) == [s[0]] + r;
    }
  }

  lemma {:induction false} InsertSorted<T>(s: seq<T>, x: T, key: T -> int)
    requires SortedDesc(s, key)
    ensures SortedDesc(Insert(s, x, key), key)
  {
    if s != [] && key(s[0]) >= key(x) {
      InsertSorted(s[1..], x, key);
      InsertAtMost(s[1..], x, key, key(s[0]));
      var r := Insert(s[1..], x, key);
      assert Insert(s, x, key) == [s[0]] + r;
    }
  }

  lemma {:induction false} InsertPermutes<T>(s: seq<T>, x: T, key: T -> int)
    ensures multiset(Insert(s, x, key)) == multiset(s) + multiset{x}
  {
    if s != [] && key(s[0]) >= key(x) {
      InsertPermutes(s[1..], x, key);
      assert s == [s[0]] + s[1..];
    }
  }

  lemma {:induction false} InsertWithKey<T>(s: seq<T>, x: T, key: T -> int, k: int)
    requires SortedDesc(s, key)
    ensures WithKey(Insert(s, x, key), key, k)
         == WithKey(s, key, k) + (if key(x) == k then [x] else [])
  {
    if s == [] {
      WithKeyCons(x, [], key, k);
      assert [x] + [] == [x];
    } else if key(s[0]) < key(x) {
      WithKeyCons(x, s, key, k);
      if key(x) == k {
        WithKeyAbsent(s, key, k);
      }
    } else {
      var t := s[1..];
      InsertWithKey(t, x, key, k);
      WithKeyCons(s[0], Insert(t, x, key), key, k);
      assert s == [s[0]] + t;
      WithKeyCons(s[0], t, key, k);
    }
  }

  /** The reference sort is sorted and keeps the elements. */
  lemma {:induction false} SortDescSorted<T>(s: seq<T>, key: T -> int)
    ensures SortedDesc(SortDesc(s, key), key)
  {
    if s != [] {
      SortDescSorted(s[..|s| - 1], key);
      InsertSorted(SortDesc(s[..|s| - 1], key), s[|s| - 1], key);
    }
  }

  lemma {:induction false} SortDescPermutes<T>(s: seq<T>, key: T -> int)
    ensures multiset(SortDesc(s, key)) == multiset(s)
  {
    if s != [] {
      var init := s[..|s| - 1];
      SortDescPermutes(init, key);
      InsertPermutes(SortDesc(init, key), s[|s| - 1], key);
      assert s == init + [s[|s| - 1]];
    }
  }

  /** The reference sort keeps ties in input order. */
  lemma {:induction false} SortDescKeepsTies<T>(s: seq<T>, key: T -> int, k: int)
    ensures WithKey(SortDesc(s, key), key, k) == WithKey(s, key, k)
  {
    if s != [] {
      var init, x := s[..|s| - 1], s[|s| - 1];
      SortDescKeepsTies(init, key, k);
      SortDescSorted(init, key);
      InsertWithKey(SortDesc(init, key), x, key, k);
      assert s == init + [x];
      WithKeyAppend(init, [x], key, k);
      assert WithKey([x], key, k) == (if key(x) == k then [x] else []) by {
        assert [x][1..] == [];
      }
    }
  }

  lemma SortDescIsStableSort<T>(s: seq<T>, key: T -> int)
    ensures IsStableSortDesc(s, SortDesc(s, key), key)
    ensures multiset(SortDesc(s, key)) == multiset(s)
  {
    SortDescSorted(s, key);
    SortDescPermutes(s, key);
    forall k ensures WithKey(SortDesc(s, key), key, k) == WithKey(s, key, k) {
      SortDescKeepsTies(s, key, k);
    }
  }

  /** Two sequences sorted by the key with the same ties in the same order
      are equal: there is only one stable sort. */
  lemma {:induction false} SameTiesSame<T>(a: seq<T>, b: seq<T>, key: T -> int)
    requires SortedDesc(a, key) && SortedDesc(b, key)
    requires forall k :: WithKey(a, key, k) == WithKey(b, key, k)
    ensures a == b
  {
    if a == [] && b == [] {
    } else if a == [] {
      WithKeyOwnKey(b, key);
      assert false;
    } else if b == [] {
      WithKeyOwnKey(a, key);
      assert false;
    } else {
      if key(a[0]) > key(b[0]) {
        assert WithKey(a, key, key(a[0])) != [];
        WithKeyAbsent(b, key, key(a[0]));
        assert false;
      } else if key(b[0]) > key(a[0]) {
        assert WithKey(b, key, key(b[0])) != [];
        WithKeyAbsent(a, key, key(b[0]));
        assert false;
      }
      assert a == [a[0]] + a[1..] && b == [b[0]] + b[1..];
      WithKeyCons(a[0], a[1..], key, key(a[0]));
      WithKeyCons(b[0], b[1..], key, key(a[0]));
      assert WithKey(a, key, key(a[0]))[0] == a[0];
      assert WithKey(b, key, key(a[0]))[0] == b[0];
      assert a[0] == b[0];
      forall k ensures WithKey(a[1..], key, k) == WithKey(b[1..], key, k) {
        WithKeyCons(a[0], a[1..], key, k);
        WithKeyCons(b[0], b[1..], key, k);
        var head := if key(a[0]) == k then [a[0]] else [];
        assert WithKey(a, key, k) == WithKey(b, key, k);
        assert WithKey(a[1..], key, k) == WithKey(a, key, k)[|head|..];
        assert WithKey(b[1..], key, k) == WithKey(b, key, k)[|head|..];
      }
      SameTiesSame(a[1..], b[1..], key);
    }
  }

  lemma StableSortUnique<T>(input: seq<T>, o1: seq<T>, o2: seq<T>, key: T -> int)
    requires IsStableSortDesc(input, o1, key) && IsStableSortDesc(input, o2, key)
    ensures o1 == o2
  {
    SameTiesSame(o1, o2, key);
  }

  /** `Insert` places `x` at the first position whose element has a smaller key. */
  lemma {:induction false} InsertAt<T>(p: seq<T>, x: T, j: nat, key: T -> int)
    requires j <= |p|
    requires forall m :: 0 <= m < j ==> key(p[m]) >= key(x)
    requires forall m :: j <= m < |p| ==> key(p[m]) < key(x)
    ensures Insert(p, x, key) == p[..j] + [x] + p[j..]
  {
    if j == 0 {
      assert p[..0] + [x] + p[0..] == [x] + p;
    } else {
      InsertAt(p[1..], x, j - 1, key);
      assert p[..j] == [p[0]] + p[1..][..j - 1];
      assert p[j..] == p[1..][j - 1..];
    }
  }

  /** Moves `a[i]` left past the elements before it whose key is strictly
      smaller, so that it lands after every element with an equal key. */
  method InsertInPlace<T>(a: array<T>, i: nat, key: T -> int)
    requires i < a.Length
    requires SortedDesc(a[..i], key)
    modifies a
    ensures a[..i + 1] == Insert(old(a[..i]), old(a[i]), key)
    ensures a[i + 1..] == old(a[i + 1..])
  {
    ghost var p := a[..i];
    var x := a[i];
    var j := i;
    while j > 0 && key(a[j - 1]) < key(x)
      invariant 0 <= j <= i
      invariant forall m :: 0 <= m < j ==> a[m] == p[m]
      invariant forall m :: j < m <= i ==> a[m] == p[m - 1]
      invariant forall m :: i < m < a.Length ==> a[m] == old(a[m])
      invariant forall m :: j <= m < i ==> key(p[m]) < key(x)
    {
      a[j] := a[j - 1];
      j := j - 1;
    }
    a[j] := x;
    ShiftedIsInsert(a[..i + 1], p, x, j, key);
  }

  /** The array segment the shifting loop leaves behind, `p` with `x` placed
      at `j`, is the insertion of `x` into the sorted `p`. */
  lemma ShiftedIsInsert<T>(t: seq<T>, p: seq<T>, x: T, j: nat, key: T -> int)
    requires SortedDesc(p, key) && j <= |p| && |t| == |p| + 1
    requires forall m :: 0 <= m < j ==> t[m] == p[m]
    requires t[j] == x
    requires forall m :: j < m < |t| ==> t[m] == p[m - 1]
    requires forall m :: j <= m < |p| ==> key(p[m]) < key(x)
    requires j > 0 ==> key(p[j - 1]) >= key(x)
    ensures t == Insert(p, x, key)
  {
    assert forall m :: 0 <= m < j ==> key(p[m]) >= key(p[j - 1]);
    InsertAt(p, x, j, key);
    var r := p[..j] + [x] + p[j..];
    forall m | 0 <= m < |t| ensures t[m] == r[m] {
      if m > j {
        assert r[m] == p[j..][m - j - 1];
      }
    }
  }

  /** Sorts `a` in place by insertion, taking the elements from left to right. */
  method SortInPlace<T>(a: array<T>, key: T -> int)
    modifies a
    ensures a[..] == SortDesc(old(a[..]), key)
  {
    ghost var s := a[..];
    var i := 0;
    while i < a.Length
      invariant 0 <= i <= a.Length
      invariant a[..i] == SortDesc(s[..i], key)
      invariant a[i..] == s[i..]
    {
      SortDescSorted(s[..i], key);
      InsertInPlace(a, i, key);
      assert s[..i + 1][..i] == s[..i];
      i := i + 1;
    }
    assert s[..a.Length] == s;
  }
}
