/** The sort the normaliser and the week listing rely on:
    `Array.prototype.sort` with a comparator that orders by a string key.
    That sort is stable, so it is modelled by a stable insertion sort. */
module Sorting {
  import opened StringOrder
  import opened SeqFacts

  /** No element's key is strictly below the key of an element before it. */
  predicate SortedBy<T>(s: seq<T>, key: T -> string) {
    forall i, j :: 0 <= i < j < |s| ==> !Less(key(s[j]), key(s[i]))
  }

  /** The elements of `s` whose key is `k`, in their order in `s`. */
  function WithKey<T>(s: seq<T>, key: T -> string, k: string): seq<T> {
    if s == [] then []
    else (if key(s[0]) == k then [s[0]] else []) + WithKey(s[1..], key, k)
  }

  lemma {:induction false} WithKeyAppend<T>(a: seq<T>, b: seq<T>, key: T -> string, k: string)
    ensures WithKey(a + b, key, k) == WithKey(a, key, k) + WithKey(b, key, k)
    decreases |a|
  {
    if a == [] {
      assert a + b == b;
    } else {
      var head := if key(a[0]) == k then [a[0]] else [];
      assert WithKey(a + b, key, k) == head + WithKey(a[1..] + b, key, k) by {
        assert (a + b)[0] == a[0] && (a + b)[1..] == a[1..] + b;
      }
      WithKeyAppend(a[1..], b, key, k);
      AppendAssoc(head, WithKey(a[1..], key, k), WithKey(b, key, k));
    }
  }

  lemma WithKeySingle<T>(x: T, key: T -> string, k: string)
    ensures WithKey([x], key, k) == if key(x) == k then [x] else []
  {
    assert [x][1..] == [];
  }

  /** Puts `x` after every element whose key is not above its own. */
  function Insert<T>(x: T, s: seq<T>, key: T -> string): (r: seq<T>)
    ensures multiset(r) == multiset(s) + multiset{x}
  {
    if s == [] then [x]
    else if Less(key(x), key(s[0])) then [x] + s
    else
      assert s == [s[0]] + s[1..];
      [s[0]] + Insert(x, s[1..], key)
  }

  lemma {:induction false} InsertSorted<T>(x: T, s: seq<T>, key: T -> string)
    requires SortedBy(s, key)
    ensures SortedBy(Insert(x, s, key), key)
    decreases |s|
  {
    if s == [] {
    } else if Less(key(x), key(s[0])) {
      forall j | 0 <= j < |s| ensures !Less(key(s[j]), key(x)) {
        if Less(key(s[j]), key(x)) {
          LessTransitive(key(s[j]), key(x), key(s[0]));
          LessIrreflexive(key(s[0]));
          assert false;
        }
      }
      HeadBeforeTail(x, s, key);
    } else {
      var t := Insert(x, s[1..], key);
      InsertSorted(x, s[1..], key);
      forall e | e in t ensures !Less(key(e), key(s[0])) {
        assert e in multiset(t);
        if e != x {
          assert e in s[1..];
        }
      }
      HeadBeforeTail(s[0], t, key);
    }
  }

  lemma HeadBeforeTail<T>(h: T, t: seq<T>, key: T -> string)
    requires forall e :: e in t ==> !Less(key(e), key(h))
    requires SortedBy(t, key)
    ensures SortedBy([h] + t, key)
  {
    var r := [h] + t;
    forall i, j | 0 <= i < j < |r| ensures !Less(key(r[j]), key(r[i])) {
      if i == 0 {
        assert r[j] == t[j - 1] && r[j] in t;
      } else {
        assert r[i] == t[i - 1] && r[j] == t[j - 1];
      }
    }
  }

  /** Stable sort ascending by `key`: the result is sorted and is a
      permutation of the input. */
  function SortBy<T>(s: seq<T>, key: T -> string): (r: seq<T>)
    ensures SortedBy(r, key)
    ensures multiset(r) == multiset(s)
    ensures |r| == |s|
  {
    if s == [] then []
    else
      var init := s[..|s| - 1];
      assert s == init + [s[|s| - 1]];
      var r := Insert(s[|s| - 1], SortBy(init, key), key);
      InsertSorted(s[|s| - 1], SortBy(init, key), key);
      assert |r| == |multiset(r)|;
      r
  }

  /** Inserting `x` into a sorted sequence puts it after the elements that
      share its key. */
  lemma {:induction false} InsertKeepsKeyOrder<T>(x: T, s: seq<T>, key: T -> string, k: string)
    requires SortedBy(s, key)
    ensures WithKey(Insert(x, s, key), key, k) == WithKey(s, key, k) + (if key(x) == k then [x] else [])
    decreases |s|
  {
    var own := if key(x) == k then [x] else [];
    if s == [] {
      assert Insert(x, s, key) == [x];
      WithKeySingle(x, key, k);
      AppendEmpty(own);
    } else if Less(key(x), key(s[0])) {
      assert Insert(x, s, key) == [x] + s;
      WithKeyCons(x, s, key, k);
      if key(x) == k {
        NoneWithKey(s, key, k);
      }
      AppendEmpty(own);
      AppendEmpty(WithKey(s, key, k));
    } else {
      var t := Insert(x, s[1..], key);
      var head := if key(s[0]) == k then [s[0]] else [];
      assert WithKey(Insert(x, s, key), key, k) == head + (WithKey(s[1..], key, k) + own) by {
        assert Insert(x, s, key) == [s[0]] + t;
        WithKeyCons(s[0], t, key, k);
        assert SortedBy(s[1..], key);
        InsertKeepsKeyOrder(x, s[1..], key, k);
      }
      assert WithKey(s, key, k) == head + WithKey(s[1..], key, k);
      AppendAssoc(head, WithKey(s[1..], key, k), own);
    }
  }

  lemma WithKeyCons<T>(h: T, t: seq<T>, key: T -> string, k: string)
    ensures WithKey([h] + t, key, k) == (if key(h) == k then [h] else []) + WithKey(t, key, k)
  {
    assert ([h] + t)[0] == h && ([h] + t)[1..] == t;
  }

  /** When `key(s[0])` is strictly above `k` in a sorted `s`, no element of
      `s` has key `k`. */
  lemma {:induction false} NoneWithKey<T>(s: seq<T>, key: T -> string, k: string)
    requires SortedBy(s, key) && s != [] && Less(k, key(s[0]))
    ensures WithKey(s, key, k) == []
  {
    forall i | 0 <= i < |s| ensures key(s[i]) != k {
      if key(s[i]) == k {
        LessIrreflexive(key(s[0]));
        assert false;
      }
    }
    NoneWithKeyFrom(s, key, k);
  }

  lemma {:induction false} NoneWithKeyFrom<T>(s: seq<T>, key: T -> string, k: string)
    requires forall i :: 0 <= i < |s| ==> key(s[i]) != k
    ensures WithKey(s, key, k) == []
    decreases |s|
  {
    if s != [] {
      NoneWithKeyFrom(s[1..], key, k);
    }
  }

  /** The sort is stable: the elements sharing a key keep their relative
      order. */
  lemma {:induction false} SortByStable<T>(s: seq<T>, key: T -> string, k: string)
    ensures WithKey(SortBy(s, key), key, k) == WithKey(s, key, k)
    decreases |s|
  {
    if s != [] {
      var init, last := s[..|s| - 1], s[|s| - 1];
      var own := if key(last) == k then [last] else [];
      var sorted := SortBy(init, key);
      assert WithKey(SortBy(s, key), key, k) == WithKey(sorted, key, k) + own by {
        assert SortBy(s, key) == Insert(last, sorted, key);
        InsertKeepsKeyOrder(last, sorted, key, k);
      }
      assert WithKey(s, key, k) == WithKey(init, key, k) + own by {
        InitLast(s);
        WithKeyAppend(init, [last], key, k);
        WithKeySingle(last, key, k);
      }
      SortByStable(init, key, k);
    }
  }
}
