/**
 * Python's `list.sort(key=...)` on integer keys: a stable sort, here an
 * insertion sort from the back. The key function is a parameter so that the
 * sort's properties do not depend on how keys are computed.
 */
module StableSorting {

  /** Keys do not decrease along `s`. */
  ghost predicate Sorted<T>(s: seq<T>, key: T -> int) {
    forall i, j :: 0 <= i < j < |s| ==> key(s[i]) <= key(s[j])
  }

  /** The elements of `s` whose key is `k`, in their order in `s`. */
  function WithKey<T(==)>(s: seq<T>, key: T -> int, k: int): (r: seq<T>)
    ensures |r| <= |s|
    ensures forall i :: 0 <= i < |r| ==> key(r[i]) == k && r[i] in s
  {
    if s == [] then []
    else (if key(s[0]) == k then [s[0]] else []) + WithKey(s[1..], key, k)
  }

  /** Places `x` before the first element whose key is at least its own. */
  function Insert<T(==)>(x: T, s: seq<T>, key: T -> int): (r: seq<T>)
    ensures multiset(r) == multiset(s) + multiset{x}
    ensures forall y :: y in r ==> y in s || y == x
    ensures Sorted(s, key) ==> Sorted(r, key)
  {
    if s == [] || key(x) <= key(s[0]) then
      HeadIsLeast(s, key);
      PrependSorted(x, s, key);
      [x] + s
    else
      var t := Insert(x, s[1..], key);
      assert s == [s[0]] + s[1..];
      HeadIsLeast(s, key);
      PrependSorted(s[0], t, key);
      [s[0]] + t
  }

  /** The head of a sorted sequence has the least key, and its tail is sorted. */
  lemma HeadIsLeast<T>(s: seq<T>, key: T -> int)
    ensures Sorted(s, key) && s != [] ==> Sorted(s[1..], key) && forall y :: y in s ==> key(s[0]) <= key(y)
  {
    if Sorted(s, key) && s != [] {
      forall y | y in s
        ensures key(s[0]) <= key(y)
      {
        var j :| 0 <= j < |s| && s[j] == y;
      }
    }
  }

  /** An element whose key is at most every key of a sorted sequence can go in front of it. */
  lemma PrependSorted<T>(x: T, s: seq<T>, key: T -> int)
    ensures Sorted(s, key) && (forall y :: y in s ==> key(x) <= key(y)) ==> Sorted([x] + s, key)
  {
    if Sorted(s, key) && (forall y :: y in s ==> key(x) <= key(y)) {
      var r := [x] + s;
      forall i, j | 0 <= i < j < |r|
        ensures key(r[i]) <= key(r[j])
      {
        assert r[j] == s[j - 1];
        if i == 0 {
          assert s[j - 1] in s;
        } else {
          assert r[i] == s[i - 1];
        }
      }
    }
  }

  /** The sorted permutation of `s`. */
  function Sort<T(==)>(s: seq<T>, key: T -> int): (r: seq<T>)
    ensures multiset(r) == multiset(s)
    ensures Sorted(r, key)
  {
    if s == [] then []
    else
      assert s == [s[0]] + s[1..];
      Insert(s[0], Sort(s[1..], key), key)
  }

  /** Selecting by key distributes over concatenation. */
  lemma {:induction false} WithKeyAppend<T>(a: seq<T>, b: seq<T>, key: T -> int, k: int)
    ensures WithKey(a + b, key, k) == WithKey(a, key, k) + WithKey(b, key, k)
    decreases |a|
  {
    if a == [] {
      assert a + b == b;
    } else {
      assert (a + b)[0] == a[0];
      assert (a + b)[1..] == a[1..] + b;
      WithKeyAppend(a[1..], b, key, k);
    }
  }

  /** Selecting by key from a sequence with a known head. */
  lemma WithKeyCons<T>(x: T, s: seq<T>, key: T -> int, k: int)
    ensures WithKey([x] + s, key, k) == (if key(x) == k then [x] else []) + WithKey(s, key, k)
  {
    assert ([x] + s)[0] == x && ([x] + s)[1..] == s;
  }

  /** Two selections of which at least one is empty can be swapped in front of a common tail. */
  lemma SwapEmpty<T>(p: seq<T>, q: seq<T>, tail: seq<T>)
    requires p == [] || q == []
    ensures p + (q + tail) == q + (p + tail)
  {
    if p == [] {
      assert p + (q + tail) == q + tail == q + (p + tail);
    } else {
      assert p + (q + tail) == p + tail == q + (p + tail);
    }
  }

  /** Inserting `x` puts it first among the elements of its key and keeps the order of the rest. */
  lemma {:induction false} InsertStable<T>(x: T, s: seq<T>, key: T -> int, k: int)
    ensures WithKey(Insert(x, s, key), key, k) == WithKey([x] + s, key, k)
    decreases |s|
  {
    if s != [] && key(s[0]) < key(x) {
      var rest := Insert(x, s[1..], key);
      var px := if key(x) == k then [x] else [];
      var ps := if key(s[0]) == k then [s[0]] else [];
      var tail := WithKey(s[1..], key, k);
      InsertStable(x, s[1..], key, k);
      WithKeyCons(x, s[1..], key, k);
      assert WithKey(rest, key, k) == px + tail;
      WithKeyCons(s[0], rest, key, k);
      assert WithKey(Insert(x, s, key), key, k) == ps + (px + tail);
      assert WithKey(s, key, k) == ps + tail;
      WithKeyCons(x, s, key, k);
      assert WithKey([x] + s, key, k) == px + (ps + tail);
      SwapEmpty(ps, px, tail);
    }
  }

  /** The sort is stable: for every key, the elements with that key keep their input order. */
  lemma {:induction false} SortStable<T>(s: seq<T>, key: T -> int)
    ensures forall k :: WithKey(Sort(s, key), key, k) == WithKey(s, key, k)
    decreases |s|
  {
    if s != [] {
      SortStable(s[1..], key);
      forall k
        ensures WithKey(Sort(s, key), key, k) == WithKey(s, key, k)
      {
        InsertStable(s[0], Sort(s[1..], key), key, k);
        WithKeyAppend([s[0]], Sort(s[1..], key), key, k);
        WithKeyAppend([s[0]], s[1..], key, k);
        assert s == [s[0]] + s[1..];
      }
    }
  }

  /** Selecting by key from a sequence with a known head: the definition, for a non-empty sequence. */
  lemma WithKeyHead<T>(s: seq<T>, key: T -> int, k: int)
    requires s != []
    ensures WithKey(s, key, k) == (if key(s[0]) == k then [s[0]] else []) + WithKey(s[1..], key, k)
    ensures key(s[0]) == k ==> WithKey(s, key, k) != [] && WithKey(s, key, k)[0] == s[0]
    ensures key(s[0]) == k ==> WithKey(s, key, k)[1..] == WithKey(s[1..], key, k)
    ensures key(s[0]) != k ==> WithKey(s, key, k) == WithKey(s[1..], key, k)
  {
  }

  /** Two sorted sequences that agree on every key start with the same element. */
  lemma SameHead<T>(t: seq<T>, u: seq<T>, key: T -> int)
    requires t != [] && u != []
    requires Sorted(t, key) && Sorted(u, key)
    requires forall k :: WithKey(t, key, k) == WithKey(u, key, k)
    ensures t[0] == u[0]
  {
    var a, b := t[0], u[0];
    HeadIsLeast(t, key);
    HeadIsLeast(u, key);
    WithKeyHead(t, key, key(a));
    WithKeyHead(u, key, key(b));
    assert WithKey(u, key, key(a))[0] in u;
    assert WithKey(t, key, key(b))[0] in t;
    assert key(a) == key(b);
  }

  /** Sequences with a common head that agree on every key have tails that agree on every key. */
  lemma SameTails<T>(t: seq<T>, u: seq<T>, key: T -> int)
    requires t != [] && u != [] && t[0] == u[0]
    requires forall k :: WithKey(t, key, k) == WithKey(u, key, k)
    ensures forall k :: WithKey(t[1..], key, k) == WithKey(u[1..], key, k)
  {
    forall k
      ensures WithKey(t[1..], key, k) == WithKey(u[1..], key, k)
    {
      WithKeyHead(t, key, k);
      WithKeyHead(u, key, k);
    }
  }

  /**
   * A sorted sequence is determined by what it holds for each key, in order:
   * two sorted sequences that agree on every key are equal.
   */
  lemma {:induction false} SortedUnique<T>(t: seq<T>, u: seq<T>, key: T -> int)
    requires Sorted(t, key) && Sorted(u, key)
    requires forall k :: WithKey(t, key, k) == WithKey(u, key, k)
    ensures t == u
    decreases |t| + |u|
  {
    if t == [] && u != [] {
      WithKeyHead(u, key, key(u[0]));
      assert false;
    } else if t != [] && u == [] {
      WithKeyHead(t, key, key(t[0]));
      assert false;
    } else if t != [] {
      SameHead(t, u, key);
      SameTails(t, u, key);
      HeadIsLeast(t, key);
      HeadIsLeast(u, key);
      SortedUnique(t[1..], u[1..], key);
      assert t == [t[0]] + t[1..] && u == [u[0]] + u[1..];
    }
  }

  /** Every stable sort returns the same list: a sorted sequence that keeps each key's input order is `Sort`. */
  lemma StableSortIsSort<T>(s: seq<T>, t: seq<T>, key: T -> int)
    requires Sorted(t, key)
    requires forall k :: WithKey(t, key, k) == WithKey(s, key, k)
    ensures t == Sort(s, key)
  {
    SortStable(s, key);
    SortedUnique(t, Sort(s, key), key);
  }
}
