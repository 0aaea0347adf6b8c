/** `sortByDate`: `Array.prototype.sort` with the comparator `b.date - a.date`.
    The sort is stable (ECMAScript, section 23.1.3.30), so it is modelled as
    an insertion sort that places each element after those whose key is not
    smaller. */
module Sorting {

  /** Latest first: keys never increase along the sequence. */
  predicate Descending<T>(s: seq<T>, key: T -> int) {
    forall i, j :: 0 <= i < j < |s| ==> key(s[i]) >= key(s[j])
  }

  /** No key in `s` exceeds `b`. */
  predicate AtMost<T>(s: seq<T>, key: T -> int, b: int) {
    forall i :: 0 <= i < |s| ==> key(s[i]) <= b
  }

  /** `x` placed after every element whose key is at least its own. */
  function Insert<T>(s: seq<T>, x: T, key: T -> int): (r: seq<T>)
    ensures |r| == |s| + 1
  {
    if |s| == 0 then [x]
    else if key(s[0]) >= key(x) then [s[0]] + Insert(s[1..], x, key)
    else [x] + s
  }

  /** The sorted copy of `s`, latest first. */
  function SortByKey<T>(s: seq<T>, key: T -> int): (r: seq<T>)
    ensures |r| == |s|
  {
    if |s| == 0 then []
    else Insert(SortByKey(s[..|s| - 1], key), s[|s| - 1], key)
  }

  lemma {:induction false} InsertPermutes<T>(s: seq<T>, x: T, key: T -> int)
    ensures multiset(Insert(s, x, key)) == multiset(s) + multiset{x}
    decreases |s|
  {
    if |s| > 0 && key(s[0]) >= key(x) {
      InsertPermutes(s[1..], x, key);
      assert s == [s[0]] + s[1..];
    }
  }

  lemma {:induction false} InsertAtMost<T>(s: seq<T>, x: T, key: T -> int, b: int)
    requires AtMost(s, key, b) && key(x) <= b
    ensures AtMost(Insert(s, x, key), key, b)
    decreases |s|
  {
    if |s| > 0 && key(s[0]) >= key(x) {
      InsertAtMost(s[1..], x, key, b);
    }
  }

  lemma ConsDescending<T>(h: T, t: seq<T>, key: T -> int)
    requires Descending(t, key) && AtMost(t, key, key(h))
    ensures Descending([h] + t, key)
  {
    var r := [h] + t;
    forall i, j | 0 <= i < j < |r|
      ensures key(r[i]) >= key(r[j])
    {
      assert r[j] == t[j - 1];
      if i > 0 {
        assert r[i] == t[i - 1];
      }
    }
  }

  /** Inserting into a descending sequence keeps it descending. */
  lemma {:induction false} InsertDescending<T>(s: seq<T>, x: T, key: T -> int)
    requires Descending(s, key)
    ensures Descending(Insert(s, x, key), key)
    decreases |s|
  {
    if |s| == 0 {
    } else if key(s[0]) >= key(x) {
      var t := s[1..];
      assert Descending(t, key);
      InsertDescending(t, x, key);
      assert AtMost(t, key, key(s[0]));
      InsertAtMost(t, x, key, key(s[0]));
      ConsDescending(s[0], Insert(t, x, key), key);
    } else {
      ConsDescending(x, s, key);
    }
  }

  /** The sort orders latest first and loses or adds nothing. */
  lemma {:induction false} SortDescending<T>(s: seq<T>, key: T -> int)
    ensures Descending(SortByKey(s, key), key)
    ensures multiset(SortByKey(s, key)) == multiset(s)
    decreases |s|
  {
    if |s| > 0 {
      var init, x := s[..|s| - 1], s[|s| - 1];
      SortDescending(init, key);
      InsertDescending(SortByKey(init, key), x, key);
      InsertPermutes(SortByKey(init, key), x, key);
      assert s == init + [x];
    }
  }

  /** The elements of `s` with key `k`, in their order in `s`. */
  function WithKey<T>(s: seq<T>, key: T -> int, k: int): (r: seq<T>)
    ensures |r| <= |s|
  {
    if |s| == 0 then []
    else (if key(s[0]) == k then [s[0]] else []) + WithKey(s[1..], key, k)
  }

  lemma {:induction false} WithKeyAppend<T>(a: seq<T>, b: seq<T>, key: T -> int, k: int)
    ensures WithKey(a + b, key, k) == WithKey(a, key, k) + WithKey(b, key, k)
    decreases |a|
  {
    if |a| > 0 {
      assert (a + b)[1..] == a[1..] + b;
      WithKeyAppend(a[1..], b, key, k);
    } else {
      assert a + b == b;
    }
  }

  lemma {:induction false} WithKeyNone<T>(s: seq<T>, key: T -> int, k: int)
    requires forall i :: 0 <= i < |s| ==> key(s[i]) != k
    ensures WithKey(s, key, k) == []
    decreases |s|
  {
    if |s| > 0 {
      WithKeyNone(s[1..], key, k);
    }
  }

  /** Inserting into a descending sequence puts `x` after the elements that
      share its key. */
  lemma {:induction false} InsertWithKey<T>(s: seq<T>, x: T, key: T -> int, k: int)
    requires Descending(s, key)
    ensures WithKey(Insert(s, x, key), key, k) == WithKey(s, key, k) + (if key(x) == k then [x] else [])
    decreases |s|
  {
    if |s| > 0 {
      if key(s[0]) >= key(x) {
        assert Descending(s[1..], key);
        InsertWithKey(s[1..], x, key, k);
        InsertWithKeyStep(s, x, key, k);
      } else {
        InsertWithKeyFront(s, x, key, k);
      }
    }
  }

  lemma InsertWithKeyStep<T>(s: seq<T>, x: T, key: T -> int, k: int)
    requires |s| > 0 && key(s[0]) >= key(x)
    requires WithKey(Insert(s[1..], x, key), key, k) == WithKey(s[1..], key, k) + (if key(x) == k then [x] else [])
    ensures WithKey(Insert(s, x, key), key, k) == WithKey(s, key, k) + (if key(x) == k then [x] else [])
  {
    var h := s[0];
    assert Insert(s, x, key) == [h] + Insert(s[1..], x, key);
    WithKeyFront(h, Insert(s[1..], x, key), key, k);
    assert s == [h] + s[1..];
    WithKeyFront(h, s[1..], key, k);
  }

  lemma InsertWithKeyFront<T>(s: seq<T>, x: T, key: T -> int, k: int)
    requires Descending(s, key) && |s| > 0 && key(s[0]) < key(x)
    ensures WithKey(Insert(s, x, key), key, k) == WithKey(s, key, k) + (if key(x) == k then [x] else [])
  {
    assert Insert(s, x, key) == [x] + s;
    WithKeyFront(x, s, key, k);
    if key(x) == k {
      assert forall i :: 0 <= i < |s| ==> key(s[i]) <= key(s[0]);
      WithKeyNone(s, key, k);
    }
  }

  lemma WithKeyFront<T>(h: T, t: seq<T>, key: T -> int, k: int)
    ensures WithKey([h] + t, key, k) == (if key(h) == k then [h] else []) + WithKey(t, key, k)
  {
    assert ([h] + t)[1..] == t;
  }

  /** The sort is stable: the elements sharing a key keep their order. */
  lemma {:induction false} SortStable<T>(s: seq<T>, key: T -> int, k: int)
    ensures WithKey(SortByKey(s, key), key, k) == WithKey(s, key, k)
    decreases |s|
  {
    if |s| > 0 {
      var init, x := s[..|s| - 1], s[|s| - 1];
      SortStable(init, key, k);
      SortDescending(init, key);
      InsertWithKey(SortByKey(init, key), x, key, k);
      assert s == init + [x];
      WithKeyAppend(init, [x], key, k);
      WithKeyFront(x, [], key, k);
      assert [x] + [] == [x];
    }
  }

  /** Appending an element whose key is not larger than any other keeps a
      descending sequence descending, and the sort leaves it where it is. */
  lemma {:induction false} InsertLast<T>(s: seq<T>, x: T, key: T -> int)
    requires forall i :: 0 <= i < |s| ==> key(s[i]) >= key(x)
    ensures Insert(s, x, key) == s + [x]
    decreases |s|
  {
    if |s| > 0 {
      InsertLast(s[1..], x, key);
      assert s == [s[0]] + s[1..];
    }
  }

  /** Sorting what is already in order changes nothing. */
  lemma {:induction false} SortSortedUnchanged<T>(s: seq<T>, key: T -> int)
    requires Descending(s, key)
    ensures SortByKey(s, key) == s
    decreases |s|
  {
    if |s| > 0 {
      var init, x := s[..|s| - 1], s[|s| - 1];
      assert Descending(init, key);
      SortSortedUnchanged(init, key);
      InsertLast(init, x, key);
      assert s == init + [x];
    }
  }

  /** Sorting twice is sorting once. */
  lemma SortIdempotent<T>(s: seq<T>, key: T -> int)
    ensures SortByKey(SortByKey(s, key), key) == SortByKey(s, key)
  {
    SortDescending(s, key);
    SortSortedUnchanged(SortByKey(s, key), key);
  }
}
