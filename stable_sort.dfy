/**
 * Python's `list.sort(key=f, reverse=True)`: a stable sort into
 * non-increasing key order. Elements with equal keys keep their input order
 * (`reverse=True` does not reverse ties). `SortBy` is the reference
 * definition; `SortInPlace` is the in-place sort that `tgt.sort(...)` and
 * `scores.sort(...)` perform on a Python list.
 */
module StableSort {

  /** Keys never increase from left to right. */
  predicate SortedDesc<T>(s: seq<T>, key: T -> real)
  {
    forall i, j :: 0 <= i < j < |s| ==> key(s[j]) <= key(s[i])
  }

  /** The elements of `s` whose key is `v`, in their order in `s`. */
  function WithKey<T>(s: seq<T>, key: T -> real, v: real): seq<T>
  {
    if s == [] then [] else (if key(s[0]) == v then [s[0]] else []) + WithKey(s[1..], key, v)
  }

  /** Insert `x` before the first element whose key is smaller than x's. */
  function Insert<T>(x: T, s: seq<T>, key: T -> real): seq<T>
  {
    if s == [] then [x]
    else if key(s[0]) < key(x) then [x] + s
    else [s[0]] + Insert(x, s[1..], key)
  }

  /** Stable descending insertion sort: the elements are inserted in input order. */
  function SortBy<T>(s: seq<T>, key: T -> real): seq<T>
  {
    if s == [] then [] else Insert(s[|s| - 1], SortBy(s[..|s| - 1], key), key)
  }

  lemma {:induction false} WithKeyAppend<T>(a: seq<T>, b: seq<T>, key: T -> real, v: real)
    ensures WithKey(a + b, key, v) == WithKey(a, key, v) + WithKey(b, key, v)
  {
    if a == [] {
      assert a + b == b;
    } else {
      var ab := a + b;
      assert ab[0] == a[0] && ab[1..] == a[1..] + b;
      WithKeyAppend(a[1..], b, key, v);
      var h := if key(a[0]) == v then [a[0]] else [];
      assert WithKey(ab, key, v) == h + (WithKey(a[1..], key, v) + WithKey(b, key, v));
      assert WithKey(a, key, v) == h + WithKey(a[1..], key, v);
    }
  }

  /** Where `Insert` puts `x`: after the keys at least x's, before the smaller ones. */
  lemma {:induction false} InsertAt<T>(x: T, s: seq<T>, key: T -> real, p: nat)
    requires p <= |s|
    requires forall i :: 0 <= i < p ==> key(x) <= key(s[i])
    requires p < |s| ==> key(s[p]) < key(x)
    ensures Insert(x, s, key) == s[..p] + [x] + s[p..]
  {
    if p == 0 {
      assert s[..p] + [x] + s[p..] == [x] + s;
    } else {
      InsertAt(x, s[1..], key, p - 1);
      assert s[..p] + [x] + s[p..] == [s[0]] + (s[1..][..p - 1] + [x] + s[1..][p - 1..]);
    }
  }

  /** Inserting into a sorted sequence keeps it sorted and adds `x` and nothing else. */
  lemma InsertSorted<T>(x: T, s: seq<T>, key: T -> real)
    requires SortedDesc(s, key)
    ensures SortedDesc(Insert(x, s, key), key)
    ensures multiset(Insert(x, s, key)) == multiset(s) + multiset{x}
    ensures forall v :: WithKey(Insert(x, s, key), key, v)
                        == WithKey(s, key, v) + (if key(x) == v then [x] else [])
  {
    InsertOrder(x, s, key);
    InsertMultiset(x, s, key);
    InsertGroups(x, s, key);
  }

  lemma InsertOrder<T>(x: T, s: seq<T>, key: T -> real)
    requires SortedDesc(s, key)
    ensures SortedDesc(Insert(x, s, key), key)
  {
    var p := FirstSmaller(x, s, key);
    InsertAt(x, s, key, p);
    var r := s[..p] + [x] + s[p..];
    forall i, j | 0 <= i < j < |r| ensures key(r[j]) <= key(r[i]) {
      if j < p {
        assert r[i] == s[i] && r[j] == s[j];
      } else if j == p {
        assert r[i] == s[i];
      } else if i == p {
        assert r[j] == s[j - 1];
      } else if i < p {
        assert r[i] == s[i] && r[j] == s[j - 1];
      } else {
        assert r[i] == s[i - 1] && r[j] == s[j - 1];
      }
    }
  }

  lemma {:induction false} InsertMultiset<T>(x: T, s: seq<T>, key: T -> real)
    ensures multiset(Insert(x, s, key)) == multiset(s) + multiset{x}
  {
    if s != [] && !(key(s[0]) < key(x)) {
      InsertMultiset(x, s[1..], key);
      assert s == [s[0]] + s[1..];
    }
  }

  lemma InsertGroups<T>(x: T, s: seq<T>, key: T -> real)
    requires SortedDesc(s, key)
    ensures forall v :: WithKey(Insert(x, s, key), key, v)
                        == WithKey(s, key, v) + (if key(x) == v then [x] else [])
  {
    forall v ensures WithKey(Insert(x, s, key), key, v) == WithKey(s, key, v) + (if key(x) == v then [x] else []) {
      InsertGroup(x, s, key, v);
    }
  }

  lemma InsertGroup<T>(x: T, s: seq<T>, key: T -> real, v: real)
    requires SortedDesc(s, key)
    ensures WithKey(Insert(x, s, key), key, v) == WithKey(s, key, v) + (if key(x) == v then [x] else [])
  {
    var p := FirstSmaller(x, s, key);
    InsertAt(x, s, key, p);
    var pre, post := s[..p], s[p..];
    assert s == pre + post;
    WithKeyAppend(pre + [x], post, key, v);
    WithKeyAppend(pre, [x], key, v);
    WithKeyAppend(pre, post, key, v);
    assert WithKey([x], key, v) == if key(x) == v then [x] else [];
    if key(x) == v {
      WithKeyNone(post, key, v);
    }
  }

  /** The first index whose key is smaller than x's (or |s|). */
  function FirstSmaller<T>(x: T, s: seq<T>, key: T -> real): (p: nat)
    requires SortedDesc(s, key)
    ensures p <= |s|
    ensures forall i :: 0 <= i < p ==> key(x) <= key(s[i])
    ensures forall i :: p <= i < |s| ==> key(s[i]) < key(x)
  {
    if s == [] || key(s[0]) < key(x) then 0 else 1 + FirstSmaller(x, s[1..], key)
  }

  lemma {:induction false} WithKeyNone<T>(s: seq<T>, key: T -> real, v: real)
    requires forall i :: 0 <= i < |s| ==> key(s[i]) < v
    ensures WithKey(s, key, v) == []
  {
    if s != [] {
      WithKeyNone(s[1..], key, v);
    }
  }

  /**
   * `SortBy` is a stable descending sort: the result is sorted, is a
   * permutation of the input, and for every key value lists the elements
   * with that key in their input order.
   */
  lemma {:induction false} SortByCorrect<T>(s: seq<T>, key: T -> real)
    ensures SortedDesc(SortBy(s, key), key)
    ensures multiset(SortBy(s, key)) == multiset(s)
    ensures forall v :: WithKey(SortBy(s, key), key, v) == WithKey(s, key, v)
  {
    if s != [] {
      var init, last := s[..|s| - 1], s[|s| - 1];
      assert s == init + [last];
      SortByCorrect(init, key);
      InsertSorted(last, SortBy(init, key), key);
      forall v ensures WithKey(SortBy(s, key), key, v) == WithKey(s, key, v) {
        WithKeyAppend(init, [last], key, v);
      }
    }
  }

  /**
   * Uniqueness: a sorted sequence that lists every key's elements in input
   * order IS `SortBy` of the input. So `SortBy` is exactly the result of any
   * stable descending sort, Python's included.
   */
  lemma {:induction false} StableSortIsUnique<T>(s: seq<T>, t: seq<T>, key: T -> real)
    requires SortedDesc(t, key)
    requires forall v :: WithKey(t, key, v) == WithKey(s, key, v)
    ensures t == SortBy(s, key)
  {
    SortByCorrect(s, key);
    SortedSameGroupsEqual(t, SortBy(s, key), key);
  }

  lemma {:induction false} WithKeyHasAll<T>(s: seq<T>, key: T -> real, i: nat)
    requires i < |s|
    ensures s[i] in WithKey(s, key, key(s[i]))
  {
    if i > 0 {
      WithKeyHasAll(s[1..], key, i - 1);
    }
  }

  lemma {:induction false} WithKeyMembers<T>(s: seq<T>, key: T -> real, v: real, x: T)
    requires x in WithKey(s, key, v)
    ensures x in s && key(x) == v
  {
    if s != [] && !(key(s[0]) == v && x == s[0]) {
      WithKeyMembers(s[1..], key, v, x);
    }
  }

  lemma GroupsDetermineEmptiness<T>(a: seq<T>, b: seq<T>, key: T -> real)
    requires forall v :: WithKey(a, key, v) == WithKey(b, key, v)
    ensures a == [] <==> b == []
  {
    if a != [] {
      assert WithKey(a, key, key(a[0])) != [];
    }
    if b != [] {
      assert WithKey(b, key, key(b[0])) != [];
    }
  }

  lemma {:induction false} SortedSameGroupsEqual<T>(a: seq<T>, b: seq<T>, key: T -> real)
    requires SortedDesc(a, key) && SortedDesc(b, key)
    requires forall v :: WithKey(a, key, v) == WithKey(b, key, v)
    ensures a == b
  {
    GroupsDetermineEmptiness(a, b, key);
    if a == [] || b == [] {
    } else {
      // The two heads carry the largest key of each side; those keys agree.
      WithKeyHasAll(a, key, 0);
      WithKeyMembers(b, key, key(a[0]), a[0]);
      WithKeyHasAll(b, key, 0);
      WithKeyMembers(a, key, key(b[0]), b[0]);
      var m := key(a[0]);
      assert key(b[0]) == m by {
        var i :| 0 <= i < |b| && b[i] == a[0];
        var j :| 0 <= j < |a| && a[j] == b[0];
        assert key(b[i]) <= key(b[0]);
        assert key(a[j]) <= key(a[0]);
      }
      assert a[0] == b[0] by {
        assert WithKey(a, key, m)[0] == a[0];
        assert WithKey(b, key, m)[0] == b[0];
      }
      forall v ensures WithKey(a[1..], key, v) == WithKey(b[1..], key, v) {
        if key(a[0]) == v {
          assert WithKey(a[1..], key, v) == WithKey(a, key, v)[1..];
          assert WithKey(b[1..], key, v) == WithKey(b, key, v)[1..];
        } else {
          assert WithKey(a[1..], key, v) == WithKey(a, key, v);
          assert WithKey(b[1..], key, v) == WithKey(b, key, v);
        }
      }
      SortedSameGroupsEqual(a[1..], b[1..], key);
      assert a == [a[0]] + a[1..] && b == [b[0]] + b[1..];
    }
  }

  lemma {:induction false} SortByLength<T>(s: seq<T>, key: T -> real)
    ensures |SortBy(s, key)| == |s|
  {
    SortByCorrect(s, key);
    assert |multiset(SortBy(s, key))| == |multiset(s)|;
  }

  /** `a.sort(key=key, reverse=True)` on a list held in an array. */
  method SortInPlace<T>(a: array<T>, key: T -> real)
    modifies a
    ensures a[..] == SortBy(old(a[..]), key)
  {
    ghost var input := a[..];
    var i := 0;
    while i < a.Length
      invariant 0 <= i <= a.Length
      invariant a[..i] == SortBy(input[..i], key)
      invariant a[i..] == input[i..]
    {
      SortByCorrect(input[..i], key);
      InsertNext(a, i, key);
      assert input[..i + 1] == input[..i] + [input[i]];
      i := i + 1;
    }
    assert input[..a.Length] == input;
  }

  /** One insertion-sort step: move `a[i]` into the sorted prefix `a[..i]`. */
  method InsertNext<T>(a: array<T>, i: nat, key: T -> real)
    requires i < a.Length
    requires SortedDesc(a[..i], key)
    modifies a
    ensures a[..i + 1] == Insert(old(a[i]), old(a[..i]), key)
    ensures a[i + 1..] == old(a[i + 1..])
  {
    var x := a[i];
    ghost var sorted := a[..i];
    var j := i;
    while 0 < j && key(x) > key(a[j - 1])
      invariant 0 <= j <= i
      invariant forall m :: 0 <= m < j ==> a[m] == sorted[m]
      invariant forall m :: j < m <= i ==> a[m] == sorted[m - 1]
      invariant forall m :: i < m < a.Length ==> a[m] == old(a[m])
      invariant forall m :: j <= m < i ==> key(sorted[m]) < key(x)
    {
      a[j] := a[j - 1];
      j := j - 1;
    }
    a[j] := x;
    SortedPrefixAtLeast(sorted, key, j, x);
    InsertAt(x, sorted, key, j);
    ghost var r := sorted[..j] + [x] + sorted[j..];
    assert forall m :: 0 <= m <= i ==> a[m] == r[m];
    assert a[..i + 1] == r;
  }

  /** In a sorted sequence, every key before a key at least k(x) is at least k(x). */
  lemma SortedPrefixAtLeast<T>(s: seq<T>, key: T -> real, j: nat, x: T)
    requires SortedDesc(s, key)
    requires j <= |s|
    requires j == 0 || key(x) <= key(s[j - 1])
    ensures forall m :: 0 <= m < j ==> key(x) <= key(s[m])
  {
  }
}
