/** Stable sorting by an integer key, largest key first. This stands for Go's
    `sort.SliceStable`, which the pool uses with "greater gas price first" on
    a bucket and with "smaller nonce first" on a queue (the latter is the
    same order on the key `-nonce`). */
module Sorting {

  /** `s` is ordered with non-increasing keys. */
  ghost predicate NonIncreasing<T>(s: seq<T>, key: T -> int) {
    forall i, j :: 0 <= i < j < |s| ==> key(s[i]) >= key(s[j])
  }

  /** The elements of `s` whose key is `k`, in their order in `s`. */
  function WithKey<T>(s: seq<T>, key: T -> int, k: int): (r: seq<T>)
    ensures |r| <= |s|
  {
    if s == [] then []
    else (if key(s[0]) == k then [s[0]] else []) + WithKey(s[1..], key, k)
  }

  /** Inserts `x` after every element whose key is at least `x`'s. */
  function Insert<T>(s: seq<T>, x: T, key: T -> int): (r: seq<T>)
    ensures |r| == |s| + 1
    ensures multiset(r) == multiset(s) + multiset{x}
  {
    if s == [] || key(s[0]) < key(x) then [x] + s
    else
      assert s == [s[0]] + s[1..];
      [s[0]] + Insert(s[1..], x, key)
  }

  lemma {:induction false} InsertSorted<T>(s: seq<T>, x: T, key: T -> int)
    requires NonIncreasing(s, key)
    ensures NonIncreasing(Insert(s, x, key), key)
  {
    if s != [] && key(s[0]) >= key(x) {
      var rest := Insert(s[1..], x, key);
      InsertSorted(s[1..], x, key);
      forall j | 0 <= j < |rest| ensures key(rest[j]) <= key(s[0]) {
        assert rest[j] in multiset(s[1..]) + multiset{x} by {
          assert rest[j] in multiset(rest);
        }
        if rest[j] != x {
          assert rest[j] in s[1..];
        }
      }
      assert Insert(s, x, key) == [s[0]] + rest;
    }
  }

  /** Insertion sort: a stable sort, non-increasing by `key`. */
  function SortStable<T>(s: seq<T>, key: T -> int): (r: seq<T>)
    ensures |r| == |s|
    ensures multiset(r) == multiset(s)
    ensures NonIncreasing(r, key)
  {
    if s == [] then []
    else
      assert s == s[..|s| - 1] + [s[|s| - 1]];
      var init := SortStable(s[..|s| - 1], key);
      InsertSorted(init, s[|s| - 1], key);
      Insert(init, s[|s| - 1], key)
  }

  lemma {:induction false} WithKeyAppend<T>(a: seq<T>, b: seq<T>, key: T -> int, k: int)
    ensures WithKey(a + b, key, k) == WithKey(a, key, k) + WithKey(b, key, k)
  {
    if a == [] {
      assert a + b == b;
    } else {
      var head := if key(a[0]) == k then [a[0]] else [];
      assert (a + b)[0] == a[0];
      assert (a + b)[1..] == a[1..] + b;
      WithKeyAppend(a[1..], b, key, k);
      calc {
        WithKey(a + b, key, k);
        head + WithKey(a[1..] + b, key, k);
        head + (WithKey(a[1..], key, k) + WithKey(b, key, k));
        (head + WithKey(a[1..], key, k)) + WithKey(b, key, k);
      }
    }
  }

  lemma {:induction false} WithKeyNone<T>(s: seq<T>, key: T -> int, k: int)
    requires forall i :: 0 <= i < |s| ==> key(s[i]) != k
    ensures WithKey(s, key, k) == []
  {
    if s != [] {
      WithKeyNone(s[1..], key, k);
    }
  }

  /** Inserting into a sorted sequence keeps the relative order of the
      elements with any one key, and puts `x` after those with its own key. */
  lemma {:induction false} InsertStable<T>(s: seq<T>, x: T, key: T -> int, k: int)
    requires NonIncreasing(s, key)
    ensures WithKey(Insert(s, x, key), key, k)
         == WithKey(s, key, k) + (if key(x) == k then [x] else [])
  {
    if s == [] || key(s[0]) < key(x) {
      InsertInFront(s, x, key, k);
    } else {
      assert NonIncreasing(s[1..], key) by {
        forall i, j | 0 <= i < j < |s[1..]| ensures key(s[1..][i]) >= key(s[1..][j]) {
          assert s[1..][i] == s[i + 1] && s[1..][j] == s[j + 1];
        }
      }
      InsertStable(s[1..], x, key, k);
      InsertBehind(s, x, key, k);
    }
  }

  lemma InsertInFront<T>(s: seq<T>, x: T, key: T -> int, k: int)
    requires NonIncreasing(s, key)
    requires s == [] || key(s[0]) < key(x)
    ensures WithKey(Insert(s, x, key), key, k)
         == WithKey(s, key, k) + (if key(x) == k then [x] else [])
  {
    var r := [x] + s;
    assert Insert(s, x, key) == r;
    assert r[0] == x && r[1..] == s;
    if key(x) == k {
      forall i | 0 <= i < |s| ensures key(s[i]) != k {
        assert key(s[i]) <= key(s[0]);
      }
      WithKeyNone(s, key, k);
      assert WithKey(r, key, k) == [x] + WithKey(s, key, k);
    } else {
      assert WithKey(r, key, k) == WithKey(s, key, k);
    }
  }

  lemma InsertBehind<T>(s: seq<T>, x: T, key: T -> int, k: int)
    requires s != [] && key(s[0]) >= key(x)
    requires WithKey(Insert(s[1..], x, key), key, k)
          == WithKey(s[1..], key, k) + (if key(x) == k then [x] else [])
    ensures WithKey(Insert(s, x, key), key, k)
         == WithKey(s, key, k) + (if key(x) == k then [x] else [])
  {
    var head := if key(s[0]) == k then [s[0]] else [];
    var tail := if key(x) == k then [x] else [];
    var r := Insert(s, x, key);
    assert r == [s[0]] + Insert(s[1..], x, key);
    assert r[0] == s[0] && r[1..] == Insert(s[1..], x, key);
    assert WithKey(r, key, k) == head + (WithKey(s[1..], key, k) + tail);
    assert WithKey(s, key, k) == head + WithKey(s[1..], key, k);
    AppendAssoc(head, WithKey(s[1..], key, k), tail);
  }

  lemma AppendAssoc<T>(a: seq<T>, b: seq<T>, c: seq<T>)
    ensures a + (b + c) == (a + b) + c
  {
  }

  /** The sort is stable: for every key value, the elements carrying it keep
      their relative order. */
  lemma {:induction false} SortStableIsStable<T>(s: seq<T>, key: T -> int, k: int)
    ensures WithKey(SortStable(s, key), key, k) == WithKey(s, key, k)
  {
    if s != [] {
      var init, last := s[..|s| - 1], s[|s| - 1];
      assert SortStable(s, key) == Insert(SortStable(init, key), last, key);
      SortStableIsStable(init, key, k);
      InsertStable(SortStable(init, key), last, key, k);
      assert s == init + [last];
      WithKeyAppend(init, [last], key, k);
      WithKeySingle(last, key, k);
    }
  }

  lemma WithKeySingle<T>(x: T, key: T -> int, k: int)
    ensures WithKey([x], key, k) == if key(x) == k then [x] else []
  {
    assert [x][1..] == [];
  }

  lemma {:induction false} InsertAtEnd<T>(s: seq<T>, x: T, key: T -> int)
    requires forall i :: 0 <= i < |s| ==> key(s[i]) >= key(x)
    ensures Insert(s, x, key) == s + [x]
  {
    if s != [] {
      InsertAtEnd(s[1..], x, key);
      assert s == [s[0]] + s[1..];
    }
  }

  /** Sorting an already sorted sequence changes nothing. */
  lemma {:induction false} SortStableOfSorted<T>(s: seq<T>, key: T -> int)
    requires NonIncreasing(s, key)
    ensures SortStable(s, key) == s
  {
    if s != [] {
      var init, last := s[..|s| - 1], s[|s| - 1];
      SortStableOfSorted(init, key);
      InsertAtEnd(init, last, key);
      assert init + [last] == s;
    }
  }

  /** Appending to a sorted sequence and re-sorting is a single insertion. */
  lemma AppendThenSort<T>(s: seq<T>, x: T, key: T -> int)
    requires NonIncreasing(s, key)
    ensures SortStable(s + [x], key) == Insert(s, x, key)
  {
    assert (s + [x])[..|s|] == s;
    SortStableOfSorted(s, key);
  }
}
