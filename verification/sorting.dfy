/** `Array.prototype.sort` with a comparator that compares two numeric keys.
    The sort is stable, so it is modelled as a stable insertion sort on the
    keys: an element is placed after every earlier element whose key is not
    greater than its own. */
module Sorting {
  import opened Values

  predicate SortedBy<T>(s: seq<T>, key: T -> ExtInt) {
    forall i, j | 0 <= i < j < |s| :: LessEq(key(s[i]), key(s[j]))
  }

  /** Inserts `x` into a sorted sequence after every element whose key is
      not greater than the key of `x`. */
  function Insert<T>(x: T, s: seq<T>, key: T -> ExtInt): (r: seq<T>)
    ensures |r| == |s| + 1
    ensures multiset(r) == multiset(s) + multiset{x}
  {
    if |s| == 0 then [x]
    else if Less(key(x), key(s[0])) then [x] + s
    else
      assert s == [s[0]] + s[1..];
      [s[0]] + Insert(x, s[1..], key)
  }

  /** The comparator sort: ascending in `key`, equal keys in their original order. */
  function SortBy<T>(s: seq<T>, key: T -> ExtInt): seq<T> {
    if |s| == 0 then [] else Insert(s[|s| - 1], SortBy(s[..|s| - 1], key), key)
  }

  lemma {:induction false} InsertSorted<T>(x: T, s: seq<T>, key: T -> ExtInt)
    requires SortedBy(s, key)
    ensures SortedBy(Insert(x, s, key), key)
  {
    if |s| > 0 && !Less(key(x), key(s[0])) {
      InsertSorted(x, s[1..], key);
      var r := Insert(x, s, key);
      var t := Insert(x, s[1..], key);
      assert r == [s[0]] + t;
      forall k | 0 <= k < |t|
        ensures LessEq(key(s[0]), key(t[k]))
      {
        assert t[k] in multiset(t);
        assert t[k] == x || t[k] in multiset(s[1..]);
        LessTotal(key(x), key(s[0]));
        if t[k] != x {
          var m :| 0 <= m < |s[1..]| && s[1..][m] == t[k];
          assert s[1 + m] == t[k];
        }
      }
    } else if |s| > 0 {
      var r := Insert(x, s, key);
      assert r == [x] + s;
      forall i, j | 0 <= i < j < |r|
        ensures LessEq(key(r[i]), key(r[j]))
      {
        if i == 0 {
          LessTrans(key(x), key(s[0]), key(s[j - 1]));
        }
      }
    }
  }

  lemma SnocMultiset<T>(s: seq<T>)
    requires |s| > 0
    ensures multiset(s) == multiset(s[..|s| - 1]) + multiset{s[|s| - 1]}
  {
    assert s == s[..|s| - 1] + [s[|s| - 1]];
  }

  /** The sort is a permutation of its input. */
  lemma {:induction false} SortByPermutation<T>(s: seq<T>, key: T -> ExtInt)
    ensures |SortBy(s, key)| == |s|
    ensures multiset(SortBy(s, key)) == multiset(s)
  {
    if |s| > 0 {
      var init, last := s[..|s| - 1], s[|s| - 1];
      SortByPermutation(init, key);
      assert SortBy(s, key) == Insert(last, SortBy(init, key), key);
      SnocMultiset(s);
    }
  }

  /** The sort orders by key. */
  lemma {:induction false} SortBySorted<T>(s: seq<T>, key: T -> ExtInt)
    ensures SortedBy(SortBy(s, key), key)
  {
    if |s| > 0 {
      SortBySorted(s[..|s| - 1], key);
      InsertSorted(s[|s| - 1], SortBy(s[..|s| - 1], key), key);
    }
  }

  /** An element is in the sorted sequence exactly when it is in the input. */
  lemma SortByMembers<T>(s: seq<T>, key: T -> ExtInt)
    ensures forall x :: x in SortBy(s, key) <==> x in s
  {
    SortByPermutation(s, key);
    forall x
      ensures x in SortBy(s, key) <==> x in s
    {
      assert x in SortBy(s, key) <==> x in multiset(SortBy(s, key));
      assert x in s <==> x in multiset(s);
    }
  }

  /** Two keys that agree on the elements sort them alike: the order only
      depends on the keys' values on the sorted elements. */
  lemma {:induction false} InsertAgree<T>(x: T, s: seq<T>, k1: T -> ExtInt, k2: T -> ExtInt)
    requires k1(x) == k2(x) && forall y | y in s :: k1(y) == k2(y)
    ensures Insert(x, s, k1) == Insert(x, s, k2)
  {
    if |s| > 0 && !Less(k1(x), k1(s[0])) {
      assert forall y | y in s[1..] :: y in s;
      InsertAgree(x, s[1..], k1, k2);
    }
  }

  lemma {:induction false} SortByAgree<T>(s: seq<T>, k1: T -> ExtInt, k2: T -> ExtInt)
    requires forall y | y in s :: k1(y) == k2(y)
    ensures SortBy(s, k1) == SortBy(s, k2)
  {
    if |s| > 0 {
      var init, last := s[..|s| - 1], s[|s| - 1];
      var sorted := SortBy(init, k1);
      forall y | y in init
        ensures k1(y) == k2(y)
      {
        assert y in s;
      }
      SortByAgree(init, k1, k2);
      SortByPermutation(init, k1);
      forall y | y in sorted
        ensures k1(y) == k2(y)
      {
        assert y in multiset(sorted);
        assert y in init;
      }
      assert last in s;
      InsertAgree(last, sorted, k1, k2);
      assert SortBy(s, k1) == Insert(last, sorted, k1);
      assert SortBy(s, k2) == Insert(last, SortBy(init, k2), k2);
    }
  }

  /** The elements whose key is `v`, in their order. */
  function WithKey<T>(s: seq<T>, key: T -> ExtInt, v: ExtInt): seq<T> {
    if |s| == 0 then []
    else (if key(s[0]) == v then [s[0]] else []) + WithKey(s[1..], key, v)
  }

  lemma {:induction false} WithKeyAppend<T>(a: seq<T>, b: seq<T>, key: T -> ExtInt, v: ExtInt)
    ensures WithKey(a + b, key, v) == WithKey(a, key, v) + WithKey(b, key, v)
  {
    if |a| == 0 {
      assert a + b == b;
    } else {
      assert (a + b)[0] == a[0] && (a + b)[1..] == a[1..] + b;
      WithKeyAppend(a[1..], b, key, v);
    }
  }

  lemma {:induction false} WithKeyNone<T>(s: seq<T>, key: T -> ExtInt, v: ExtInt)
    requires forall k | 0 <= k < |s| :: key(s[k]) != v
    ensures WithKey(s, key, v) == []
  {
    if |s| > 0 {
      WithKeyNone(s[1..], key, v);
    }
  }

  lemma WithKeyOne<T>(x: T, key: T -> ExtInt, v: ExtInt)
    ensures WithKey([x], key, v) == if key(x) == v then [x] else []
  {
    assert [x][1..] == [];
  }

  lemma WithKeyCons<T>(x: T, s: seq<T>, key: T -> ExtInt, v: ExtInt)
    ensures WithKey([x] + s, key, v) == (if key(x) == v then [x] else []) + WithKey(s, key, v)
  {
    assert ([x] + s)[0] == x && ([x] + s)[1..] == s;
  }

  /** Inserting into a sorted sequence puts `x` after every element of the
      same key. */
  lemma {:induction false} InsertWithKey<T>(x: T, s: seq<T>, key: T -> ExtInt, v: ExtInt)
    requires SortedBy(s, key)
    ensures WithKey(Insert(x, s, key), key, v) ==
            WithKey(s, key, v) + (if key(x) == v then [x] else [])
    decreases |s|
  {
    if |s| == 0 {
      WithKeyOne(x, key, v);
    } else if Less(key(x), key(s[0])) {
      InsertFront(x, s, key, v);
    } else {
      assert SortedBy(s[1..], key);
      InsertWithKey(x, s[1..], key, v);
      InsertPast(x, s, key, v);
    }
  }

  lemma InsertFront<T>(x: T, s: seq<T>, key: T -> ExtInt, v: ExtInt)
    requires SortedBy(s, key) && |s| > 0 && Less(key(x), key(s[0]))
    ensures WithKey(Insert(x, s, key), key, v) ==
            WithKey(s, key, v) + (if key(x) == v then [x] else [])
  {
    assert Insert(x, s, key) == [x] + s;
    hide Insert, WithKey, SortedBy;
    WithKeyCons(x, s, key, v);
    if key(x) == v {
      SortedAbove(x, s, key, v);
    }
  }

  lemma InsertPast<T>(x: T, s: seq<T>, key: T -> ExtInt, v: ExtInt)
    requires |s| > 0 && !Less(key(x), key(s[0]))
    requires WithKey(Insert(x, s[1..], key), key, v) ==
             WithKey(s[1..], key, v) + (if key(x) == v then [x] else [])
    ensures WithKey(Insert(x, s, key), key, v) ==
            WithKey(s, key, v) + (if key(x) == v then [x] else [])
  {
    var t := Insert(x, s[1..], key);
    var h := if key(s[0]) == v then [s[0]] else [];
    var xs := if key(x) == v then [x] else [];
    var a := WithKey(s[1..], key, v);
    calc {
      WithKey(Insert(x, s, key), key, v);
      { InsertUnfold(x, s, key); }
      WithKey([s[0]] + t, key, v);
      { WithKeyCons(s[0], t, key, v); }
      h + WithKey(t, key, v);
      h + (a + xs);
      { ConcatAssoc(h, a, xs); }
      (h + a) + xs;
      { WithKeyCons(s[0], s[1..], key, v); assert s == [s[0]] + s[1..]; }
      WithKey(s, key, v) + xs;
    }
  }

  lemma ConcatAssoc<T>(a: seq<T>, b: seq<T>, c: seq<T>)
    ensures a + (b + c) == (a + b) + c
  {
  }

  lemma InsertUnfold<T>(x: T, s: seq<T>, key: T -> ExtInt)
    requires |s| > 0 && !Less(key(x), key(s[0]))
    ensures Insert(x, s, key) == [s[0]] + Insert(x, s[1..], key)
  {
  }

  /** No element of a sorted sequence whose first key is above `v` has key `v`. */
  lemma SortedAbove<T>(x: T, s: seq<T>, key: T -> ExtInt, v: ExtInt)
    requires SortedBy(s, key) && |s| > 0 && key(x) == v && Less(v, key(s[0]))
    ensures WithKey(s, key, v) == []
  {
    forall k | 0 <= k < |s|
      ensures key(s[k]) != v
    {
      if k > 0 {
        LessTrans(key(x), key(s[0]), key(s[k]));
      }
    }
    WithKeyNone(s, key, v);
  }

  /** The sort is stable: the elements of each key keep their order. */
  lemma {:induction false} SortByStable<T>(s: seq<T>, key: T -> ExtInt, v: ExtInt)
    ensures WithKey(SortBy(s, key), key, v) == WithKey(s, key, v)
  {
    if |s| > 0 {
      hide Insert, WithKey;
      var init, last := s[..|s| - 1], s[|s| - 1];
      assert SortBy(s, key) == Insert(last, SortBy(init, key), key);
      hide SortBy;
      SortByStable(init, key, v);
      SortBySorted(init, key);
      InsertWithKey(last, SortBy(init, key), key, v);
      assert s == init + [last];
      WithKeyAppend(init, [last], key, v);
      WithKeyOne(last, key, v);
    }
  }
}
