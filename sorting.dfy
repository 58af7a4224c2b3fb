/**
 * The stable sort behind `Vec::sort_by` with a comparator that compares one
 * integer key per element (the date sums of `sort_date_grade`, the instants
 * of `display_agenda` and `display_lessons`). The library's sort algorithm is
 * not the client's code; what the client relies on is its result, which for a
 * stable sort is unique: `SortByKey` computes it by insertion, and the lemmas
 * prove it ordered, a permutation, stable, and the only sequence that is all
 * three.
 */
module Sorting {

  /** Inserts `x` before the first element with a greater key, so after all equal ones. */
  function Insert<T>(x: T, s: seq<T>, key: T -> int): (r: seq<T>)
    ensures |r| == |s| + 1
  {
    if s == [] then [x]
    else if key(x) < key(s[0]) then [x] + s
    else [s[0]] + Insert(x, s[1..], key)
  }

  lemma {:induction false} InsertMultiset<T>(x: T, s: seq<T>, key: T -> int)
    ensures multiset(Insert(x, s, key)) == multiset(s) + multiset{x}
  {
    if s != [] && key(x) >= key(s[0]) {
      InsertMultiset(x, s[1..], key);
      calc {
        multiset(Insert(x, s, key));
        multiset([s[0]] + Insert(x, s[1..], key));
        multiset([s[0]]) + multiset(Insert(x, s[1..], key));
        multiset([s[0]]) + multiset(s[1..]) + multiset{x};
        { assert s == [s[0]] + s[1..]; }
        multiset(s) + multiset{x};
      }
    }
  }

  /** A bound below every key of `s` and below `x`'s key is below every key of the insertion. */
  lemma {:induction false} InsertLowerBound<T>(x: T, s: seq<T>, key: T -> int, b: int)
    requires forall m :: 0 <= m < |s| ==> b <= key(s[m])
    requires b <= key(x)
    ensures forall m :: 0 <= m < |Insert(x, s, key)| ==> b <= key(Insert(x, s, key)[m])
  {
    if s != [] && key(x) >= key(s[0]) {
      var t := s[1..];
      assert forall m :: 0 <= m < |t| ==> t[m] == s[m + 1];
      InsertLowerBound(x, t, key, b);
      var r := Insert(x, s, key);
      assert r == [s[0]] + Insert(x, t, key);
      assert forall m :: 1 <= m < |r| ==> r[m] == Insert(x, t, key)[m - 1];
    }
  }

  /** Each element in turn is inserted into the sorted run of the ones before it. */
  function SortByKey<T>(s: seq<T>, key: T -> int): (r: seq<T>)
    ensures |r| == |s|
  {
    if s == [] then []
    else Insert(s[|s| - 1], SortByKey(s[..|s| - 1], key), key)
  }

  /** Sorting only rearranges: the result is a permutation of the input. */
  lemma {:induction false} SortByKeyMultiset<T>(s: seq<T>, key: T -> int)
    ensures multiset(SortByKey(s, key)) == multiset(s)
  {
    if s != [] {
      SortByKeyMultiset(s[..|s| - 1], key);
      InsertMultiset(s[|s| - 1], SortByKey(s[..|s| - 1], key), key);
      assert s == s[..|s| - 1] + [s[|s| - 1]];
    }
  }

  ghost predicate Ordered<T>(s: seq<T>, key: T -> int)
  {
    forall i, j :: 0 <= i < j < |s| ==> key(s[i]) <= key(s[j])
  }

  /** The elements with key `k`, in the order in which they appear. */
  function KeyFilter<T>(s: seq<T>, key: T -> int, k: int): seq<T>
  {
    if s == [] then []
    else (if key(s[0]) == k then [s[0]] else []) + KeyFilter(s[1..], key, k)
  }

  lemma {:induction false} KeyFilterAppend<T>(a: seq<T>, b: seq<T>, key: T -> int, k: int)
    ensures KeyFilter(a + b, key, k) == KeyFilter(a, key, k) + KeyFilter(b, key, k)
  {
    if a == [] {
      assert a + b == b;
    } else {
      var head := if key(a[0]) == k then [a[0]] else [];
      assert (a + b)[0] == a[0];
      assert (a + b)[1..] == a[1..] + b;
      assert KeyFilter(a + b, key, k) == head + KeyFilter(a[1..] + b, key, k);
      KeyFilterAppend(a[1..], b, key, k);
      assert head + (KeyFilter(a[1..], key, k) + KeyFilter(b, key, k))
          == (head + KeyFilter(a[1..], key, k)) + KeyFilter(b, key, k);
    }
  }

  lemma {:induction false} InsertOrdered<T>(x: T, s: seq<T>, key: T -> int)
    requires Ordered(s, key)
    ensures Ordered(Insert(x, s, key), key)
  {
    if s != [] && key(x) >= key(s[0]) {
      var t := s[1..];
      InsertOrdered(x, t, key);
      var r := Insert(x, s, key);
      var tail := Insert(x, t, key);
      assert forall m :: 0 <= m < |t| ==> t[m] == s[m + 1];
      InsertLowerBound(x, t, key, key(s[0]));
      assert r == [s[0]] + tail;
      assert forall m :: 1 <= m < |r| ==> r[m] == tail[m - 1];
    }
  }

  lemma {:induction false} SortByKeyOrdered<T>(s: seq<T>, key: T -> int)
    ensures Ordered(SortByKey(s, key), key)
  {
    if s != [] {
      SortByKeyOrdered(s[..|s| - 1], key);
      InsertOrdered(s[|s| - 1], SortByKey(s[..|s| - 1], key), key);
    }
  }

  /** In an ordered sequence, `x` lands after every element with its key and before every greater one. */
  lemma {:induction false} InsertKeyFilter<T>(x: T, s: seq<T>, key: T -> int, k: int)
    requires Ordered(s, key)
    ensures KeyFilter(Insert(x, s, key), key, k)
      == KeyFilter(s, key, k) + (if key(x) == k then [x] else [])
  {
    if s == [] {
    } else if key(x) < key(s[0]) {
      assert key(x) == k ==> KeyFilter(s, key, k) == [] by {
        if key(x) == k {
          NoKeyAbove(s, key, k);
        }
      }
    } else {
      InsertKeyFilter(x, s[1..], key, k);
      assert Insert(x, s, key)[1..] == Insert(x, s[1..], key);
    }
  }

  /** An ordered sequence whose first key is above `k` has no element with key `k`. */
  lemma {:induction false} NoKeyAbove<T>(s: seq<T>, key: T -> int, k: int)
    requires Ordered(s, key)
    requires s != [] && k < key(s[0])
    ensures KeyFilter(s, key, k) == []
  {
    if |s| > 1 {
      assert key(s[0]) <= key(s[1]);
      NoKeyAbove(s[1..], key, k);
    }
  }

  /** Sorting keeps, for every key, the elements with that key in their original order. */
  lemma {:induction false} SortByKeyStable<T>(s: seq<T>, key: T -> int, k: int)
    ensures KeyFilter(SortByKey(s, key), key, k) == KeyFilter(s, key, k)
  {
    if s != [] {
      var init, last := s[..|s| - 1], s[|s| - 1];
      var sortedInit := SortByKey(init, key);
      SortByKeyOrdered(init, key);
      assert s == init + [last];
      calc {
        KeyFilter(SortByKey(s, key), key, k);
        KeyFilter(Insert(last, sortedInit, key), key, k);
        { InsertKeyFilter(last, sortedInit, key, k); }
        KeyFilter(sortedInit, key, k) + (if key(last) == k then [last] else []);
        { SortByKeyStable(init, key, k); }
        KeyFilter(init, key, k) + KeyFilter([last], key, k);
        { KeyFilterAppend(init, [last], key, k); }
        KeyFilter(s, key, k);
      }
    }
  }

  /** The first element with key `k` in an ordered sequence sits after the first element. */
  lemma {:induction false} KeyFilterBound<T>(s: seq<T>, key: T -> int, k: int)
    requires Ordered(s, key)
    requires KeyFilter(s, key, k) != []
    ensures s != [] && key(s[0]) <= k
  {
    if s != [] && key(s[0]) != k {
      assert KeyFilter(s[1..], key, k) != [];
      KeyFilterBound(s[1..], key, k);
      assert key(s[0]) <= key(s[1]);
    }
  }

  lemma KeyFilterOfHead<T>(s: seq<T>, key: T -> int)
    requires s != []
    ensures KeyFilter(s, key, key(s[0])) != []
  {
  }

  /** Two ordered sequences with the same elements under every key are the same sequence. */
  lemma {:induction false} OrderedByFilters<T>(t: seq<T>, u: seq<T>, key: T -> int)
    requires Ordered(t, key) && Ordered(u, key)
    requires forall k :: KeyFilter(t, key, k) == KeyFilter(u, key, k)
    ensures t == u
    decreases |t|
  {
    if t == [] && u == [] {
    } else if t == [] {
      KeyFilterOfHead(u, key);
      assert false;
    } else if u == [] {
      KeyFilterOfHead(t, key);
      assert false;
    } else {
      var a := key(t[0]);
      assert KeyFilter(t, key, a) == KeyFilter(u, key, a);
      KeyFilterBound(u, key, a);
      var b := key(u[0]);
      assert KeyFilter(t, key, b) == KeyFilter(u, key, b);
      KeyFilterBound(t, key, b);
      assert t[0] == KeyFilter(t, key, a)[0] == KeyFilter(u, key, a)[0] == u[0];
      forall k ensures KeyFilter(t[1..], key, k) == KeyFilter(u[1..], key, k) {
        var head := if a == k then [t[0]] else [];
        assert KeyFilter(t, key, k) == head + KeyFilter(t[1..], key, k);
        assert KeyFilter(u, key, k) == head + KeyFilter(u[1..], key, k);
        assert KeyFilter(t, key, k) == KeyFilter(u, key, k);
        assert KeyFilter(t[1..], key, k) == KeyFilter(t, key, k)[|head|..];
        assert KeyFilter(u[1..], key, k) == KeyFilter(u, key, k)[|head|..];
      }
      OrderedByFilters(t[1..], u[1..], key);
      assert t == [t[0]] + t[1..];
      assert u == [u[0]] + u[1..];
    }
  }

  /**
   * Any ordered rearrangement that keeps every key's elements in their
   * original order is `SortByKey`'s result: every stable sort by this key
   * gives the same sequence.
   */
  lemma StableSortIsUnique<T>(s: seq<T>, t: seq<T>, key: T -> int)
    requires Ordered(t, key)
    requires forall k :: KeyFilter(t, key, k) == KeyFilter(s, key, k)
    ensures t == SortByKey(s, key)
  {
    SortByKeyOrdered(s, key);
    forall k ensures KeyFilter(t, key, k) == KeyFilter(SortByKey(s, key), key, k) {
      SortByKeyStable(s, key, k);
    }
    OrderedByFilters(t, SortByKey(s, key), key);
  }

  /** The result of the sort, stated by its three defining properties. */
  lemma SortByKeySpec<T>(s: seq<T>, key: T -> int)
    ensures Ordered(SortByKey(s, key), key)
    ensures multiset(SortByKey(s, key)) == multiset(s)
    ensures forall k :: KeyFilter(SortByKey(s, key), key, k) == KeyFilter(s, key, k)
  {
    SortByKeyOrdered(s, key);
    SortByKeyMultiset(s, key);
    forall k ensures KeyFilter(SortByKey(s, key), key, k) == KeyFilter(s, key, k) {
      SortByKeyStable(s, key, k);
    }
  }

  /** Inserting into an ordered sequence puts `x` after the keys at most its own and before the greater ones. */
  lemma {:induction false} InsertAt<T>(x: T, s: seq<T>, key: T -> int, j: nat)
    requires j <= |s|
    requires forall m :: 0 <= m < j ==> key(s[m]) <= key(x)
    requires forall m :: j <= m < |s| ==> key(x) < key(s[m])
    ensures Insert(x, s, key) == s[..j] + [x] + s[j..]
  {
    if s == [] {
    } else if j == 0 {
      assert key(x) < key(s[0]);
      assert s[..0] + [x] + s[0..] == [x] + s;
    } else {
      assert key(s[0]) <= key(x);
      var t := s[1..];
      assert forall m :: 0 <= m < j - 1 ==> t[m] == s[m + 1];
      assert forall m :: j - 1 <= m < |t| ==> t[m] == s[m + 1];
      InsertAt(x, t, key, j - 1);
      assert s == [s[0]] + t;
      ConsAround(s[0], t, x, j - 1);
    }
  }

  lemma ConsAround<T>(h: T, t: seq<T>, x: T, k: nat)
    requires k <= |t|
    ensures [h] + (t[..k] + [x] + t[k..]) == ([h] + t)[..k + 1] + [x] + ([h] + t)[k + 1..]
  {
    assert ([h] + t)[..k + 1] == [h] + t[..k];
    assert ([h] + t)[k + 1..] == t[k..];
  }

  lemma SortByKeySnoc<T>(s: seq<T>, i: nat, key: T -> int)
    requires i < |s|
    ensures SortByKey(s[..i + 1], key) == Insert(s[i], SortByKey(s[..i], key), key)
  {
    assert s[..i + 1][..i] == s[..i];
  }

  /**
   * Shifts the elements of `a[..i]` with keys greater than `x`'s one place
   * right, and returns the gap they leave.
   */
  method ShiftGreater<T>(a: array<T>, i: nat, x: T, key: T -> int) returns (j: nat)
    requires i < a.Length
    modifies a
    ensures j <= i
    ensures forall m :: 0 <= m < j ==> a[m] == old(a[m])
    ensures forall m :: j < m <= i ==> a[m] == old(a[m - 1])
    ensures forall m :: i < m < a.Length ==> a[m] == old(a[m])
    ensures j > 0 ==> key(a[j - 1]) <= key(x)
    ensures forall m :: j <= m < i ==> key(x) < key(old(a[m]))
  {
    j := i;
    while j > 0 && key(x) < key(a[j - 1])
      invariant 0 <= j <= i
      invariant forall m :: 0 <= m < j ==> a[m] == old(a[m])
      invariant forall m :: j < m <= i ==> a[m] == old(a[m - 1])
      invariant forall m :: i < m < a.Length ==> a[m] == old(a[m])
      invariant forall m :: j <= m < i ==> key(x) < key(old(a[m]))
    {
      a[j] := a[j - 1];
      j := j - 1;
    }
  }

  /** Writing `x` into the gap `ShiftGreater` leaves completes the insertion. */
  lemma GapFilled<T>(before: seq<T>, shifted: seq<T>, x: T, i: nat, j: nat, key: T -> int)
    requires i < |before| == |shifted| && j <= i
    requires forall m :: 0 <= m < j ==> shifted[m] == before[m]
    requires forall m :: j < m <= i ==> shifted[m] == before[m - 1]
    requires Ordered(before[..i], key)
    requires j > 0 ==> key(shifted[j - 1]) <= key(x)
    requires forall m :: j <= m < i ==> key(x) < key(before[m])
    ensures shifted[j := x][..i + 1] == Insert(x, before[..i], key)
  {
    var sorted, after := before[..i], shifted[j := x];
    assert after[..i + 1] == sorted[..j] + [x] + sorted[j..] by {
      forall m | 0 <= m < i + 1
        ensures after[..i + 1][m] == (sorted[..j] + [x] + sorted[j..])[m]
      {
        if m < j {
        } else if m == j {
        } else {
          assert after[m] == before[m - 1];
        }
      }
    }
    assert forall m :: 0 <= m < j ==> key(sorted[m]) <= key(x) by {
      if j > 0 {
        assert sorted[j - 1] == shifted[j - 1];
      }
    }
    InsertAt(x, sorted, key, j);
  }

  /** Moves `a[i]` left past the greater keys of the ordered prefix before it. */
  method InsertLast<T>(a: array<T>, i: nat, key: T -> int)
    requires i < a.Length && Ordered(a[..i], key)
    modifies a
    ensures a[..i + 1] == Insert(old(a[i]), old(a[..i]), key)
    ensures a[i + 1..] == old(a[i + 1..])
  {
    ghost var before := a[..];
    var x := a[i];
    var j := ShiftGreater(a, i, x, key);
    ghost var shifted := a[..];
    a[j] := x;
    assert a[..] == shifted[j := x];
    GapFilled(before, shifted, x, i, j, key);
    assert a[i + 1..] == before[i + 1..] by {
      assert forall m :: i < m < a.Length ==> a[m] == shifted[m] == before[m];
    }
  }

  /**
   * The in-place sort of a vector by a key comparator: each element in turn
   * is moved left past the greater keys before it, so equal keys keep their
   * order. The result is exactly `SortByKey` of the original contents.
   */
  method SortInPlace<T>(a: array<T>, key: T -> int)
    modifies a
    ensures a[..] == SortByKey(old(a[..]), key)
  {
    ghost var orig := a[..];
    var i := 0;
    while i < a.Length
      invariant 0 <= i <= a.Length
      invariant a[..i] == SortByKey(orig[..i], key)
      invariant a[i..] == orig[i..]
    {
      SortByKeyOrdered(orig[..i], key);
      assert a[i] == orig[i];
      InsertLast(a, i, key);
      SortByKeySnoc(orig, i, key);
      i := i + 1;
    }
    assert orig[..a.Length] == orig;
  }
}
