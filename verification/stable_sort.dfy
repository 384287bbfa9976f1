/** Python's `list.sort(key=...)` on integer keys: a stable sort. It is
    modelled as a functional insertion sort; `SortByIsTheStableSort` shows
    that any sort that is ordered and keeps equal-key elements in their
    original order gives the same list, so the choice of algorithm does
    not matter. */
module StableSort {

  predicate SortedBy<T>(s: seq<T>, key: T -> int) {
    forall i, j :: 0 <= i < j < |s| ==> key(s[i]) <= key(s[j])
  }

  /** The elements of `s` whose key is `k`, in their order in `s`. */
  function KeyFilter<T>(s: seq<T>, key: T -> int, k: int): (r: seq<T>)
    ensures |r| <= |s|
  {
    if |s| == 0 then []
    else (if key(s[0]) == k then [s[0]] else []) + KeyFilter(s[1..], key, k)
  }

  /** `r` is `s` with `x` inserted in key order ahead of its ties. */
  ghost predicate Inserted<T>(x: T, s: seq<T>, r: seq<T>, key: T -> int) {
    && SortedBy(r, key)
    && multiset(r) == multiset(s) + multiset{x}
    && KeyFilter(r, key, key(x)) == [x] + KeyFilter(s, key, key(x))
    && forall k :: k != key(x) ==> KeyFilter(r, key, k) == KeyFilter(s, key, k)
  }

  /** Inserts `x` into a sorted list before the first element whose key is
      not smaller, so `x` goes ahead of the elements it ties with. */
  function Insert<T>(x: T, s: seq<T>, key: T -> int): (r: seq<T>)
    requires SortedBy(s, key)
    ensures SortedBy(r, key)
    ensures multiset(r) == multiset(s) + multiset{x}
    ensures KeyFilter(r, key, key(x)) == [x] + KeyFilter(s, key, key(x))
    ensures forall k :: k != key(x) ==> KeyFilter(r, key, k) == KeyFilter(s, key, k)
  {
    if |s| == 0 then
      assert KeyFilter([x], key, key(x)) == [x] by {
        KeyFilterCons(x, s, key, key(x));
      }
      [x]
    else if key(x) <= key(s[0]) then
      InsertAtFront(x, s, key);
      [x] + s
    else
      var t := Insert(x, s[1..], key);
      InsertBehindHead(x, s, t, key);
      [s[0]] + t
  }

  lemma KeyFilterCons<T>(a: T, t: seq<T>, key: T -> int, k: int)
    ensures KeyFilter([a] + t, key, k) == (if key(a) == k then [a] else []) + KeyFilter(t, key, k)
  {
    assert ([a] + t)[1..] == t;
  }

  /** `x` goes in front when its key is at most the head's. */
  lemma InsertAtFront<T>(x: T, s: seq<T>, key: T -> int)
    requires SortedBy(s, key) && |s| > 0 && key(x) <= key(s[0])
    ensures Inserted(x, s, [x] + s, key)
  {
    var r := [x] + s;
    assert forall j :: 0 < j < |r| ==> r[j] == s[j - 1];
    forall k ensures KeyFilter(r, key, k) == (if key(x) == k then [x] else []) + KeyFilter(s, key, k) {
      KeyFilterCons(x, s, key, k);
    }
  }

  /** When `x` goes behind the head of `s`, the head stays first. */
  lemma InsertBehindHead<T>(x: T, s: seq<T>, t: seq<T>, key: T -> int)
    requires SortedBy(s, key) && |s| > 0 && key(s[0]) < key(x)
    requires Inserted(x, s[1..], t, key)
    ensures Inserted(x, s, [s[0]] + t, key)
  {
    var r := [s[0]] + t;
    assert s == [s[0]] + s[1..];
    assert SortedBy(r, key) by {
      HeadStaysFirst(x, s, t, key);
    }
    assert multiset(r) == multiset(s) + multiset{x};
    forall k ensures KeyFilter(r, key, k) == (if k == key(x) then [x] else []) + KeyFilter(s, key, k) {
      assert KeyFilter(t, key, k) == (if k == key(x) then [x] else []) + KeyFilter(s[1..], key, k);
      BehindHeadFilter(x, s, t, key, k);
    }
  }

  lemma BehindHeadFilter<T>(x: T, s: seq<T>, t: seq<T>, key: T -> int, k: int)
    requires |s| > 0 && key(s[0]) < key(x)
    requires KeyFilter(t, key, k) == (if k == key(x) then [x] else []) + KeyFilter(s[1..], key, k)
    ensures KeyFilter([s[0]] + t, key, k) == (if k == key(x) then [x] else []) + KeyFilter(s, key, k)
  {
    var c := if key(s[0]) == k then [s[0]] else [];
    var e := if k == key(x) then [x] else [];
    KeyFilterCons(s[0], t, key, k);
    assert KeyFilter(s, key, k) == c + KeyFilter(s[1..], key, k);
    Regroup(KeyFilter([s[0]] + t, key, k), c, e, KeyFilter(s[1..], key, k), KeyFilter(s, key, k));
  }

  /** With one of `c` and `e` empty, `c + e + tail` regroups as `e + (c + tail)`. */
  lemma Regroup<T>(a: seq<T>, c: seq<T>, e: seq<T>, tail: seq<T>, f: seq<T>)
    requires a == c + (e + tail) && f == c + tail && (c == [] || e == [])
    ensures a == e + f
  {
    if c == [] {
      assert a == e + tail;
    } else {
      assert a == c + tail;
    }
  }

  /** The head of `s` is still in order before the rest with `x` added. */
  lemma HeadStaysFirst<T>(x: T, s: seq<T>, t: seq<T>, key: T -> int)
    requires SortedBy(s, key) && |s| > 0 && key(s[0]) < key(x)
    requires SortedBy(t, key) && multiset(t) == multiset(s[1..]) + multiset{x}
    ensures SortedBy([s[0]] + t, key)
  {
    var r := [s[0]] + t;
    forall j | 0 < j < |r| ensures key(r[0]) <= key(r[j]) {
      assert r[j] == t[j - 1];
      assert t[j - 1] in multiset(t);
      if t[j - 1] != x {
        assert t[j - 1] in multiset(s[1..]);
        var i :| 0 <= i < |s[1..]| && s[1..][i] == t[j - 1];
        assert s[i + 1] == r[j];
      }
    }
    assert forall i, j :: 0 < i < j < |r| ==> r[i] == t[i - 1] && r[j] == t[j - 1];
  }

  /** The stable sort of `s` by `key`. */
  function SortBy<T>(s: seq<T>, key: T -> int): (r: seq<T>)
    ensures SortedBy(r, key)
    ensures multiset(r) == multiset(s) && |r| == |s|
  {
    if |s| == 0 then []
    else
      assert s == [s[0]] + s[1..];
      Insert(s[0], SortBy(s[1..], key), key)
  }

  /** Every element of the sorted list comes from the input. */
  lemma SortByMember<T>(s: seq<T>, key: T -> int, i: int)
    requires 0 <= i < |SortBy(s, key)|
    ensures SortBy(s, key)[i] in s
  {
    var r := SortBy(s, key);
    assert r[i] in multiset(r);
  }

  /** Sorting keeps, for every key, the elements with that key in their
      original order: the sort is stable. */
  lemma {:induction false} SortByStable<T>(s: seq<T>, key: T -> int, k: int)
    ensures KeyFilter(SortBy(s, key), key, k) == KeyFilter(s, key, k)
  {
    if |s| > 0 {
      SortByStable(s[1..], key, k);
    }
  }

  lemma {:induction false} KeyFilterMember<T>(s: seq<T>, key: T -> int, k: int, x: T)
    requires x in KeyFilter(s, key, k)
    ensures x in s && key(x) == k
  {
    if |s| > 0 {
      if x != s[0] || key(s[0]) != k {
        KeyFilterMember(s[1..], key, k, x);
      }
    }
  }

  lemma {:induction false} KeyFilterHas<T>(s: seq<T>, key: T -> int, j: int)
    requires 0 <= j < |s|
    ensures s[j] in KeyFilter(s, key, key(s[j]))
  {
    if j > 0 {
      KeyFilterHas(s[1..], key, j - 1);
    }
  }

  /** Two sorted lists that agree on the elements of every key are equal. */
  lemma {:induction false} SortedUnique<T>(a: seq<T>, b: seq<T>, key: T -> int)
    requires SortedBy(a, key) && SortedBy(b, key)
    requires forall k :: KeyFilter(a, key, k) == KeyFilter(b, key, k)
    ensures a == b
    decreases |a| + |b|
  {
    if |a| == 0 && |b| == 0 {
    } else if |a| == 0 {
      KeyFilterHas(b, key, 0);
    } else if |b| == 0 {
      KeyFilterHas(a, key, 0);
    } else {
      var ka, kb := key(a[0]), key(b[0]);
      KeyFilterHas(b, key, 0);
      KeyFilterMember(a, key, kb, b[0]);
      KeyFilterHas(a, key, 0);
      KeyFilterMember(b, key, ka, a[0]);
      assert ka <= kb by {
        var i :| 0 <= i < |a| && a[i] == b[0];
      }
      assert kb <= ka by {
        var i :| 0 <= i < |b| && b[i] == a[0];
      }
      assert a[0] == b[0] by {
        assert KeyFilter(a, key, ka)[0] == a[0];
        assert KeyFilter(b, key, ka)[0] == b[0];
      }
      forall k ensures KeyFilter(a[1..], key, k) == KeyFilter(b[1..], key, k) {
        assert KeyFilter(a, key, k) == KeyFilter(b, key, k);
        if k == ka {
          assert KeyFilter(a, key, k) == [a[0]] + KeyFilter(a[1..], key, k);
          assert KeyFilter(b, key, k) == [b[0]] + KeyFilter(b[1..], key, k);
          assert KeyFilter(a[1..], key, k) == KeyFilter(a, key, k)[1..];
          assert KeyFilter(b[1..], key, k) == KeyFilter(b, key, k)[1..];
        } else {
          assert KeyFilter(a, key, k) == KeyFilter(a[1..], key, k);
          assert KeyFilter(b, key, k) == KeyFilter(b[1..], key, k);
        }
      }
      SortedUnique(a[1..], b[1..], key);
      assert a == [a[0]] + a[1..] && b == [b[0]] + b[1..];
    }
  }

  /** Any ordered list that keeps every key's elements in their original
      order is `SortBy(s, key)`: the stable sort is unique. */
  lemma SortByIsTheStableSort<T>(s: seq<T>, t: seq<T>, key: T -> int)
    requires SortedBy(t, key)
    requires forall k :: KeyFilter(t, key, k) == KeyFilter(s, key, k)
    ensures t == SortBy(s, key)
  {
    forall k ensures KeyFilter(t, key, k) == KeyFilter(SortBy(s, key), key, k) {
      SortByStable(s, key, k);
    }
    SortedUnique(t, SortBy(s, key), key);
  }

  /** No two elements of `s` share a tag. */
  predicate DistinctBy<T>(s: seq<T>, tag: T -> int) {
    forall i, j :: 0 <= i < j < |s| ==> tag(s[i]) != tag(s[j])
  }

  lemma {:induction false} InsertDistinct<T>(x: T, s: seq<T>, key: T -> int, tag: T -> int)
    requires SortedBy(s, key) && DistinctBy(s, tag)
    requires forall j :: 0 <= j < |s| ==> tag(s[j]) != tag(x)
    ensures DistinctBy(Insert(x, s, key), tag)
  {
    if |s| > 0 && key(x) > key(s[0]) {
      var t := Insert(x, s[1..], key);
      assert DistinctBy(t, tag) by {
        InsertDistinct(x, s[1..], key, tag);
      }
      forall k | 0 <= k < |t| ensures tag(t[k]) != tag(s[0]) {
        InsertedFrom(x, s[1..], t, key, k);
      }
      assert Insert(x, s, key) == [s[0]] + t;
      HeadDistinct(s[0], t, tag);
    }
  }

  /** Every element of `t`, an insertion of `x` into `s`, is `x` or comes from `s`. */
  lemma InsertedFrom<T>(x: T, s: seq<T>, t: seq<T>, key: T -> int, k: int)
    requires multiset(t) == multiset(s) + multiset{x}
    requires 0 <= k < |t|
    ensures t[k] == x || t[k] in s
  {
    assert t[k] in multiset(t);
  }

  lemma HeadDistinct<T>(a: T, t: seq<T>, tag: T -> int)
    requires DistinctBy(t, tag)
    requires forall k :: 0 <= k < |t| ==> tag(t[k]) != tag(a)
    ensures DistinctBy([a] + t, tag)
  {
    var r := [a] + t;
    forall i, j | 0 <= i < j < |r| ensures tag(r[i]) != tag(r[j]) {
      assert r[j] == t[j - 1];
      if i > 0 {
        assert r[i] == t[i - 1];
      }
    }
  }

  /** Sorting keeps tags distinct. */
  lemma {:induction false} SortByDistinct<T>(s: seq<T>, key: T -> int, tag: T -> int)
    requires DistinctBy(s, tag)
    ensures DistinctBy(SortBy(s, key), tag)
  {
    if |s| > 0 {
      var t := SortBy(s[1..], key);
      SortByDistinct(s[1..], key, tag);
      forall j | 0 <= j < |t| ensures tag(t[j]) != tag(s[0]) {
        assert t[j] in multiset(s[1..]) by {
          assert t[j] in multiset(t);
        }
      }
      InsertDistinct(s[0], t, key, tag);
    }
  }
}
