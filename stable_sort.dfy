/** Python's `sorted` and `list.sort`: a stable sort by a key. Both reports
    sort this way, one by descending count and one by ascending time. The
    model sorts by insertion; `SortByUnique` shows that every stable sort
    gives the same result, so the algorithm Python uses does not matter. */
module StableSort {

  /** `s` is in ascending order of `key`. */
  ghost predicate SortedBy<T>(s: seq<T>, key: T -> int) {
    forall i, j :: 0 <= i < j < |s| ==> key(s[i]) <= key(s[j])
  }

  /** The elements of `s` whose key is `k`, in their order in `s`. A sort is
      stable when it keeps this subsequence for every `k`. */
  function WithKey<T>(s: seq<T>, key: T -> int, k: int): (r: seq<T>)
    ensures |r| <= |s|
    ensures forall i :: 0 <= i < |r| ==> key(r[i]) == k
  {
    if s == [] then []
    else if key(s[0]) == k then [s[0]] + WithKey(s[1..], key, k)
    else WithKey(s[1..], key, k)
  }

  /** Inserts `x` into the sorted `s` ahead of the first element whose key is
      not smaller: `x` came before all of `s` in the input, so it goes first
      among its equals. */
  function Insert<T>(x: T, s: seq<T>, key: T -> int): (r: seq<T>)
    ensures multiset(r) == multiset(s) + multiset{x}
  {
    if s == [] || key(x) <= key(s[0]) then [x] + s
    else
      assert s == [s[0]] + s[1..];
      [s[0]] + Insert(x, s[1..], key)
  }

  /** The stable sort of `s` by `key`, ascending. */
  function SortBy<T>(s: seq<T>, key: T -> int): (r: seq<T>)
    ensures multiset(r) == multiset(s)
    ensures |r| == |s|
  {
    if s == [] then []
    else
      var r := Insert(s[0], SortBy(s[1..], key), key);
      assert s == [s[0]] + s[1..];
      r
  }

  lemma {:induction false} InsertSorted<T>(x: T, s: seq<T>, key: T -> int)
    requires SortedBy(s, key)
    ensures SortedBy(Insert(x, s, key), key)
    ensures Insert(x, s, key) != [] && key(Insert(x, s, key)[0]) == (if s == [] || key(x) <= key(s[0]) then key(x) else key(s[0]))
    decreases |s|
  {
    if s == [] || key(x) <= key(s[0]) {
    } else {
      InsertSorted(x, s[1..], key);
    }
  }

  /** The result of `SortBy` is in ascending order of the key. */
  lemma {:induction false} SortBySorted<T>(s: seq<T>, key: T -> int)
    ensures SortedBy(SortBy(s, key), key)
    decreases |s|
  {
    if s != [] {
      SortBySorted(s[1..], key);
      InsertSorted(s[0], SortBy(s[1..], key), key);
    }
  }

  /** Inserting `x` puts it at the head of the elements sharing its key and
      leaves every other key's subsequence alone. */
  lemma {:induction false} InsertWithKey<T>(x: T, s: seq<T>, key: T -> int, k: int)
    requires SortedBy(s, key)
    ensures WithKey(Insert(x, s, key), key, k)
            == (if key(x) == k then [x] + WithKey(s, key, k) else WithKey(s, key, k))
    decreases |s|
  {
    if s == [] || key(x) <= key(s[0]) {
      assert ([x] + s)[1..] == s;
    } else {
      InsertWithKey(x, s[1..], key, k);
      assert ([s[0]] + Insert(x, s[1..], key))[1..] == Insert(x, s[1..], key);
      if key(x) == k {
        assert key(s[0]) != k;
      }
    }
  }

  /** Stability: for every key, the elements with that key keep their order. */
  lemma {:induction false} SortByStable<T>(s: seq<T>, key: T -> int, k: int)
    ensures WithKey(SortBy(s, key), key, k) == WithKey(s, key, k)
    decreases |s|
  {
    if s != [] {
      SortByStable(s[1..], key, k);
      SortBySorted(s[1..], key);
      InsertWithKey(s[0], SortBy(s[1..], key), key, k);
    }
  }

  /** An element with key `k` makes `WithKey(s, key, k)` non-empty. */
  lemma {:induction false} WithKeyHas<T>(s: seq<T>, key: T -> int, i: nat)
    requires i < |s|
    ensures WithKey(s, key, key(s[i])) != []
    decreases i
  {
    if i > 0 && key(s[0]) != key(s[i]) {
      WithKeyHas(s[1..], key, i - 1);
    }
  }

  /** A non-empty `WithKey(s, key, k)` holds an element of `s` with key `k`. */
  lemma {:induction false} WithKeyFrom<T>(s: seq<T>, key: T -> int, k: int)
    requires WithKey(s, key, k) != []
    ensures exists i :: 0 <= i < |s| && key(s[i]) == k
    decreases |s|
  {
    if key(s[0]) != k {
      WithKeyFrom(s[1..], key, k);
      var i :| 0 <= i < |s[1..]| && key(s[1..][i]) == k;
      assert key(s[i + 1]) == k;
    } else {
      assert key(s[0]) == k;
    }
  }

  /** Uniqueness of a stable sort: two sorted sequences that agree on the
      subsequence of every key are equal. Any stable sort of `s` therefore
      returns `SortBy(s, key)`. */
  lemma {:induction false} SortedUnique<T>(a: seq<T>, b: seq<T>, key: T -> int)
    requires SortedBy(a, key) && SortedBy(b, key)
    requires forall k :: WithKey(a, key, k) == WithKey(b, key, k)
    ensures a == b
    decreases |a| + |b|
  {
    if a == [] || b == [] {
      // The empty one has no element of the other's first key.
      if a != [] {
        WithKeyHas(a, key, 0);
      } else if b != [] {
        WithKeyHas(b, key, 0);
      }
    } else {
      var ka, kb := key(a[0]), key(b[0]);
      WithKeyHas(a, key, 0);
      WithKeyHas(b, key, 0);
      if ka < kb {
        assert WithKey(b, key, ka) != [];
        WithKeyFrom(b, key, ka);
      } else if kb < ka {
        assert WithKey(a, key, kb) != [];
        WithKeyFrom(a, key, kb);
      } else {
        assert WithKey(a, key, ka)[0] == a[0];
        assert WithKey(b, key, ka)[0] == b[0];
        forall k ensures WithKey(a[1..], key, k) == WithKey(b[1..], key, k) {
          if k == ka {
            assert WithKey(a, key, k) == [a[0]] + WithKey(a[1..], key, k);
            assert WithKey(b, key, k) == [a[0]] + WithKey(b[1..], key, k);
            assert ([a[0]] + WithKey(a[1..], key, k))[1..] == WithKey(a[1..], key, k);
            assert ([a[0]] + WithKey(b[1..], key, k))[1..] == WithKey(b[1..], key, k);
          } else {
            assert WithKey(a, key, k) == WithKey(a[1..], key, k);
            assert WithKey(b, key, k) == WithKey(b[1..], key, k);
          }
        }
        SortedUnique(a[1..], b[1..], key);
        assert a == [a[0]] + a[1..] && b == [b[0]] + b[1..];
      }
    }
  }

  /** The characterisation used by both reports: a sequence that is sorted by
      `key` and keeps the order of every key's elements is `SortBy(s, key)`. */
  lemma SortByUnique<T>(s: seq<T>, r: seq<T>, key: T -> int)
    requires SortedBy(r, key)
    requires forall k :: WithKey(r, key, k) == WithKey(s, key, k)
    ensures r == SortBy(s, key)
  {
    SortBySorted(s, key);
    forall k ensures WithKey(r, key, k) == WithKey(SortBy(s, key), key, k) {
      SortByStable(s, key, k);
    }
    SortedUnique(r, SortBy(s, key), key);
  }
}
