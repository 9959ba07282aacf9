/**
  Python's `sorted(xs, key=...)` on integer keys: a stable sort. It orders
  both the outputs of a transaction (by `n`) and a chain (by timestamp).
*/
module Sorting {

  ghost predicate SortedBy<T>(s: seq<T>, key: T -> int) {
    forall i, j :: 0 <= i < j < |s| ==> key(s[i]) <= key(s[j])
  }

  /** The elements of `s` whose key is `k`, in their order in `s`. */
  function WithKey<T>(s: seq<T>, key: T -> int, k: int): (r: seq<T>)
    ensures |r| <= |s|
  {
    if s == [] then []
    else WithKey(s[..|s| - 1], key, k) + (if key(s[|s| - 1]) == k then [s[|s| - 1]] else [])
  }

  /** The elements `WithKey` selects are elements of `s` whose key is `k`. */
  lemma {:induction false} WithKeyMembers<T>(s: seq<T>, key: T -> int, k: int)
    ensures forall x :: x in WithKey(s, key, k) ==> x in s && key(x) == k
    decreases |s|
  {
    if s != [] {
      var init := s[..|s| - 1];
      WithKeyMembers(init, key, k);
      assert forall x :: x in init ==> x in s;
    }
  }

  lemma {:induction false} WithKeyAppend<T>(a: seq<T>, b: seq<T>, key: T -> int, k: int)
    ensures WithKey(a + b, key, k) == WithKey(a, key, k) + WithKey(b, key, k)
    decreases |b|
  {
    if b == [] {
      assert a + b == a;
    } else {
      var b' := b[..|b| - 1];
      assert (a + b)[..|a + b| - 1] == a + b';
      WithKeyAppend(a, b', key, k);
    }
  }

  /** A key no element carries selects nothing, and a key some element carries selects something. */
  lemma {:induction false} WithKeyEmpty<T>(s: seq<T>, key: T -> int, k: int)
    ensures WithKey(s, key, k) == [] <==> forall i :: 0 <= i < |s| ==> key(s[i]) != k
    decreases |s|
  {
    if s != [] {
      WithKeyEmpty(s[..|s| - 1], key, k);
      assert forall i :: 0 <= i < |s| - 1 ==> s[..|s| - 1][i] == s[i];
    }
  }

  /** Places `x` after every element whose key is at most its own. */
  function Insert<T>(s: seq<T>, key: T -> int, x: T): (r: seq<T>)
    decreases |s|
  {
    if s == [] then [x]
    else if key(s[|s| - 1]) <= key(x) then s + [x]
    else Insert(s[..|s| - 1], key, x) + [s[|s| - 1]]
  }

  /**
    Inserting into a sorted sequence keeps it sorted, adds exactly `x`, and
    puts `x` after every element of its own key.
  */
  lemma {:induction false} InsertSorted<T>(s: seq<T>, key: T -> int, x: T)
    requires SortedBy(s, key)
    ensures SortedBy(Insert(s, key, x), key)
    ensures multiset(Insert(s, key, x)) == multiset(s) + multiset{x}
    ensures forall k :: WithKey(Insert(s, key, x), key, k) == WithKey(s, key, k) + (if key(x) == k then [x] else [])
    decreases |s|
  {
    if s == [] {
      assert [x][..0] == [];
    } else if key(s[|s| - 1]) <= key(x) {
      InsertAtEnd(s, key, x);
    } else {
      var init := s[..|s| - 1];
      SortedInit(s, key);
      InsertSorted(init, key, x);
      InsertBeforeLast(s, key, x, Insert(init, key, x));
    }
  }

  /** The step of Insert that places `x` after the last element of `s`. */
  lemma InsertAtEnd<T>(s: seq<T>, key: T -> int, x: T)
    requires s != [] && SortedBy(s, key) && key(s[|s| - 1]) <= key(x)
    ensures SortedBy(s + [x], key)
    ensures forall k :: WithKey(s + [x], key, k) == WithKey(s, key, k) + (if key(x) == k then [x] else [])
  {
    var r := s + [x];
    assert r[..|s|] == s;
    forall i, j | 0 <= i < j < |r| ensures key(r[i]) <= key(r[j]) {
      if j == |s| {
        assert key(s[i]) <= key(s[|s| - 1]);
      } else {
        assert r[i] == s[i] && r[j] == s[j];
      }
    }
  }

  lemma SortedInit<T>(s: seq<T>, key: T -> int)
    requires s != [] && SortedBy(s, key)
    ensures SortedBy(s[..|s| - 1], key)
  {
    var init := s[..|s| - 1];
    forall i, j | 0 <= i < j < |init| ensures key(init[i]) <= key(init[j]) {
      assert init[i] == s[i] && init[j] == s[j];
    }
  }

  /** The step of Insert that moves `x` in front of the last element of `s`. */
  lemma InsertBeforeLast<T>(s: seq<T>, key: T -> int, x: T, r': seq<T>)
    requires s != [] && SortedBy(s, key) && key(x) < key(s[|s| - 1])
    requires SortedBy(r', key)
    requires multiset(r') == multiset(s[..|s| - 1]) + multiset{x}
    requires forall k :: WithKey(r', key, k) == WithKey(s[..|s| - 1], key, k) + (if key(x) == k then [x] else [])
    ensures SortedBy(r' + [s[|s| - 1]], key)
    ensures multiset(r' + [s[|s| - 1]]) == multiset(s) + multiset{x}
    ensures forall k :: WithKey(r' + [s[|s| - 1]], key, k) == WithKey(s, key, k) + (if key(x) == k then [x] else [])
  {
    SortedBeforeLast(s, key, x, r');
    CountedBeforeLast(s, x, r');
    StableBeforeLast(s, key, x, r');
  }

  /** Moving `x` in front of the last element of `s` adds exactly `x`. */
  lemma CountedBeforeLast<T>(s: seq<T>, x: T, r': seq<T>)
    requires s != []
    requires multiset(r') == multiset(s[..|s| - 1]) + multiset{x}
    ensures multiset(r' + [s[|s| - 1]]) == multiset(s) + multiset{x}
  {
    assert s == s[..|s| - 1] + [s[|s| - 1]];
  }

  lemma SortedBeforeLast<T>(s: seq<T>, key: T -> int, x: T, r': seq<T>)
    requires s != [] && SortedBy(s, key) && key(x) < key(s[|s| - 1])
    requires SortedBy(r', key)
    requires multiset(r') == multiset(s[..|s| - 1]) + multiset{x}
    ensures SortedBy(r' + [s[|s| - 1]], key)
  {
    var last := s[|s| - 1];
    var init := s[..|s| - 1];
    var r := r' + [last];
    forall i | 0 <= i < |r'| ensures key(r'[i]) <= key(last) {
      var y := r'[i];
      assert y in multiset(r');
      if y != x {
        assert y in multiset(init);
        var m :| 0 <= m < |init| && init[m] == y;
        assert s[m] == y;
      }
    }
    forall i, j | 0 <= i < j < |r| ensures key(r[i]) <= key(r[j]) {
      if j < |r'| {
        assert r[i] == r'[i] && r[j] == r'[j];
      } else {
        assert r[i] == r'[i] && r[j] == last;
      }
    }
  }

  lemma StableBeforeLast<T>(s: seq<T>, key: T -> int, x: T, r': seq<T>)
    requires s != [] && key(x) < key(s[|s| - 1])
    requires forall k :: WithKey(r', key, k) == WithKey(s[..|s| - 1], key, k) + (if key(x) == k then [x] else [])
    ensures forall k :: WithKey(r' + [s[|s| - 1]], key, k) == WithKey(s, key, k) + (if key(x) == k then [x] else [])
  {
    forall k ensures WithKey(r' + [s[|s| - 1]], key, k) == WithKey(s, key, k) + (if key(x) == k then [x] else []) {
      StableBeforeLastAt(s, key, x, r', k);
    }
  }

  /** `StableBeforeLast` for one key `k`. */
  lemma StableBeforeLastAt<T>(s: seq<T>, key: T -> int, x: T, r': seq<T>, k: int)
    requires s != [] && key(x) < key(s[|s| - 1])
    requires WithKey(r', key, k) == WithKey(s[..|s| - 1], key, k) + (if key(x) == k then [x] else [])
    ensures WithKey(r' + [s[|s| - 1]], key, k) == WithKey(s, key, k) + (if key(x) == k then [x] else [])
  {
    var last := s[|s| - 1];
    var r := r' + [last];
    assert r[..|r| - 1] == r' && r[|r| - 1] == last;
    var moved := if key(x) == k then [x] else [];
    var tail := if key(last) == k then [last] else [];
    assert WithKey(r, key, k) == WithKey(s[..|s| - 1], key, k) + moved + tail;
    assert WithKey(s, key, k) == WithKey(s[..|s| - 1], key, k) + tail;
    // `x` and the last element have different keys, so at most one of them is selected
    SwapSelected(WithKey(s[..|s| - 1], key, k), moved, tail);
  }

  /** Two selections of which at most one is non-empty can be appended in either order. */
  lemma SwapSelected<T>(a: seq<T>, moved: seq<T>, tail: seq<T>)
    requires moved == [] || tail == []
    ensures a + moved + tail == a + tail + moved
  {
    if moved == [] {
      assert a + moved == a && a + tail + moved == a + tail;
    } else {
      assert a + moved + tail == a + moved && a + tail == a;
    }
  }

  /** A stable sort of `s` by `key`: sorted, a permutation, and elements of equal key keep their order. */
  function SortBy<T>(s: seq<T>, key: T -> int): (r: seq<T>)
    ensures |r| == |s|
    ensures SortedBy(r, key)
    ensures multiset(r) == multiset(s)
    ensures forall k :: WithKey(r, key, k) == WithKey(s, key, k)
    decreases |s|
  {
    if s == [] then []
    else
      var init := s[..|s| - 1];
      assert s == init + [s[|s| - 1]];
      var r := Insert(SortBy(init, key), key, s[|s| - 1]);
      InsertSorted(SortBy(init, key), key, s[|s| - 1]);
      assert |multiset(r)| == |multiset(s)|;
      r
  }
}
