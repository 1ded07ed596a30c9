/** The stable sort by key (`sort_by`, `sort_by_key`) that page, section and range lists go through. */
module Sorting {
  import opened ByteLayout

  predicate SortedBy<T>(key: T -> int, s: seq<T>) {
    forall i, j :: 0 <= i < j < |s| ==> key(s[i]) <= key(s[j])
  }

  /** The elements of one key, in order. */
  function WithKey<T>(key: T -> int, k: int, s: seq<T>): seq<T> {
    if s == [] then []
    else if key(s[0]) == k then [s[0]] + WithKey(key, k, s[1..])
    else WithKey(key, k, s[1..])
  }

  function Insert<T>(key: T -> int, x: T, s: seq<T>): (r: seq<T>)
    ensures |r| == |s| + 1
    ensures multiset(r) == multiset{x} + multiset(s)
  {
    if s == [] then [x]
    else if key(x) <= key(s[0]) then assert [x] + s == [x] + s[..]; [x] + s
    else
      assert s == [s[0]] + s[1..];
      [s[0]] + Insert(key, x, s[1..])
  }

  function SortBy<T>(key: T -> int, s: seq<T>): (r: seq<T>)
    ensures |r| == |s|
    ensures multiset(r) == multiset(s)
  {
    if s == [] then []
    else
      assert s == [s[0]] + s[1..];
      Insert(key, s[0], SortBy(key, s[1..]))
  }

  lemma {:induction false} InsertSorted<T>(key: T -> int, x: T, s: seq<T>)
    requires SortedBy(key, s)
    ensures SortedBy(key, Insert(key, x, s))
  {
    if s != [] && key(x) > key(s[0]) {
      InsertSorted(key, x, s[1..]);
      var r := Insert(key, x, s[1..]);
      forall i | 0 <= i < |r|
        ensures key(s[0]) <= key(r[i])
      {
        assert r[i] in multiset(r);
        assert r[i] == x || r[i] in s[1..];
      }
    }
  }

  lemma {:induction false} SortSorted<T>(key: T -> int, s: seq<T>)
    ensures SortedBy(key, SortBy(key, s))
  {
    if s != [] {
      SortSorted(key, s[1..]);
      InsertSorted(key, s[0], SortBy(key, s[1..]));
    }
  }

  lemma {:induction false} InsertWithKey<T>(key: T -> int, k: int, x: T, s: seq<T>)
    ensures WithKey(key, k, Insert(key, x, s)) == (if key(x) == k then [x] else []) + WithKey(key, k, s)
  {
    if s == [] {
      assert Insert(key, x, s)[1..] == [];
    } else if key(x) <= key(s[0]) {
      assert Insert(key, x, s)[1..] == s;
    } else {
      InsertWithKey(key, k, x, s[1..]);
      var r := Insert(key, x, s);
      assert r[0] == s[0] && r[1..] == Insert(key, x, s[1..]);
      assert [] + WithKey(key, k, s) == WithKey(key, k, s);
      assert [] + WithKey(key, k, s[1..]) == WithKey(key, k, s[1..]);
    }
  }

  /** The sort is stable: elements of one key keep their order. */
  lemma {:induction false} SortStable<T>(key: T -> int, k: int, s: seq<T>)
    ensures WithKey(key, k, SortBy(key, s)) == WithKey(key, k, s)
  {
    if s != [] {
      SortStable(key, k, s[1..]);
      InsertWithKey(key, k, s[0], SortBy(key, s[1..]));
    }
  }

  lemma {:induction false} KeyPresent<T>(key: T -> int, k: int, s: seq<T>)
    ensures WithKey(key, k, s) != [] ==> exists i :: 0 <= i < |s| && key(s[i]) == k
  {
    if s != [] && key(s[0]) != k {
      KeyPresent(key, k, s[1..]);
      if WithKey(key, k, s) != [] {
        var i :| 0 <= i < |s[1..]| && key(s[1..][i]) == k;
        assert key(s[i + 1]) == k;
      }
    }
  }

  /** Order and stability determine a list, so any stable sort computes `SortBy`. */
  lemma {:induction false} SortedStableUnique<T>(key: T -> int, s: seq<T>, t: seq<T>)
    requires SortedBy(key, s) && SortedBy(key, t)
    requires forall k :: WithKey(key, k, s) == WithKey(key, k, t)
    ensures s == t
  {
    if s != [] {
      KeyPresent(key, key(s[0]), t);
    }
    if t != [] {
      KeyPresent(key, key(t[0]), s);
    }
    if s != [] && t != [] {
      var k0 := key(s[0]);
      assert key(t[0]) == k0;
      assert WithKey(key, k0, s)[0] == s[0] && WithKey(key, k0, t)[0] == t[0];
      forall k
        ensures WithKey(key, k, s[1..]) == WithKey(key, k, t[1..])
      {
        assert WithKey(key, k, s) == WithKey(key, k, t);
        if k == k0 {
          assert WithKey(key, k, s)[1..] == WithKey(key, k, s[1..]);
          assert WithKey(key, k, t)[1..] == WithKey(key, k, t[1..]);
        }
      }
      SortedStableUnique(key, s[1..], t[1..]);
      assert s == [s[0]] + s[1..] && t == [t[0]] + t[1..];
    }
  }

  /** The elements of each key come in the same order in both lists. */
  ghost predicate AlikeByKey<T(!new)>(key: T -> int, a: seq<T>, b: seq<T>) {
    forall k :: WithKey(key, k, a) == WithKey(key, k, b)
  }

  /** Exactly when two lists sort to the same. */
  lemma SortsAlikeExactly<T(!new)>(key: T -> int, a: seq<T>, b: seq<T>)
    ensures SortBy(key, a) == SortBy(key, b) <==> AlikeByKey(key, a, b)
  {
    hide SortBy, WithKey;
    SortSorted(key, a);
    SortSorted(key, b);
    if SortBy(key, a) == SortBy(key, b) {
      forall k
        ensures WithKey(key, k, a) == WithKey(key, k, b)
      {
        SortStable(key, k, a);
        SortStable(key, k, b);
      }
    } else if AlikeByKey(key, a, b) {
      forall k
        ensures WithKey(key, k, SortBy(key, a)) == WithKey(key, k, SortBy(key, b))
      {
        SortStable(key, k, a);
        SortStable(key, k, b);
        assert WithKey(key, k, a) == WithKey(key, k, b);
      }
      SortedStableUnique(key, SortBy(key, a), SortBy(key, b));
      assert false;
    }
  }

  /** Insertion after every element of the same or a smaller key. */
  function Place<T>(key: T -> int, s: seq<T>, x: T): seq<T> {
    if s == [] || key(x) < key(s[0]) then [x] + s else [s[0]] + Place(key, s[1..], x)
  }

  lemma {:induction false} PlaceWithKey<T>(key: T -> int, k: int, s: seq<T>, x: T)
    requires SortedBy(key, s)
    ensures WithKey(key, k, Place(key, s, x)) == WithKey(key, k, s) + if key(x) == k then [x] else []
  {
    if s == [] {
      assert Place(key, s, x)[1..] == [];
    } else if key(x) < key(s[0]) {
      assert Place(key, s, x)[1..] == s;
      if key(x) == k {
        KeyPresent(key, k, s);
        assert WithKey(key, k, s) == [];
      }
    } else {
      PlaceWithKey(key, k, s[1..], x);
      assert Place(key, s, x)[1..] == Place(key, s[1..], x);
      Assoc(if key(s[0]) == k then [s[0]] else [], WithKey(key, k, s[1..]), if key(x) == k then [x] else []);
    }
  }

  lemma {:induction false} WithKeySnoc<T>(key: T -> int, k: int, s: seq<T>, x: T)
    ensures WithKey(key, k, s + [x]) == WithKey(key, k, s) + if key(x) == k then [x] else []
  {
    if s == [] {
      assert (s + [x])[1..] == [];
    } else {
      WithKeySnoc(key, k, s[1..], x);
      assert (s + [x])[1..] == s[1..] + [x];
      Assoc(if key(s[0]) == k then [s[0]] else [], WithKey(key, k, s[1..]), if key(x) == k then [x] else []);
    }
  }

  lemma {:induction false} PlaceSorted<T>(key: T -> int, s: seq<T>, x: T)
    requires SortedBy(key, s)
    ensures SortedBy(key, Place(key, s, x))
    ensures forall y :: y in Place(key, s, x) ==> y == x || y in s
  {
    if s != [] && key(x) >= key(s[0]) {
      PlaceSorted(key, s[1..], x);
      forall y | y in Place(key, s[1..], x)
        ensures key(s[0]) <= key(y)
      {
      }
    }
  }

  /** Appending to a sorted list and sorting again places the element after its equals. */
  lemma SortAppended<T>(key: T -> int, s: seq<T>, x: T)
    requires SortedBy(key, s)
    ensures SortBy(key, s + [x]) == Place(key, s, x)
  {
    hide SortBy, Place, WithKey;
    forall k
      ensures WithKey(key, k, SortBy(key, s + [x])) == WithKey(key, k, Place(key, s, x))
    {
      SortStable(key, k, s + [x]);
      WithKeySnoc(key, k, s, x);
      PlaceWithKey(key, k, s, x);
    }
    SortSorted(key, s + [x]);
    PlaceSorted(key, s, x);
    SortedStableUnique(key, SortBy(key, s + [x]), Place(key, s, x));
  }
}
