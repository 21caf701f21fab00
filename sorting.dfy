// The stable sorts of Rust slices (`sort_by`, `sort_by_key`) as functions
// on values. Every comparator the application passes compares a number,
// then a text, then a second text, so an element is sorted by a key of
// that shape; `Reverse` is `reverse` on a slice.

module Sorting {
  import opened Text

  /** A sort key: compared by `n`, then by `a`, then by `b`. */
  datatype SortVal = SortVal(n: int, a: string, b: string)

  predicate KeyLt(x: SortVal, y: SortVal)
  {
    x.n < y.n || (x.n == y.n && (StrLt(x.a, y.a) || (x.a == y.a && StrLt(x.b, y.b))))
  }

  predicate KeyLe(x: SortVal, y: SortVal) { x == y || KeyLt(x, y) }

  lemma KeyLtIrreflexive(x: SortVal)
    ensures !KeyLt(x, x)
  {
    StrLtIrreflexive(x.a);
    StrLtIrreflexive(x.b);
  }

  lemma KeyLtTransitive(x: SortVal, y: SortVal, z: SortVal)
    requires KeyLt(x, y) && KeyLt(y, z)
    ensures KeyLt(x, z)
  {
    if x.n == y.n && y.n == z.n {
      if StrLt(x.a, y.a) && StrLt(y.a, z.a) {
        StrLtTransitive(x.a, y.a, z.a);
      } else if x.a == y.a && y.a == z.a {
        StrLtTransitive(x.b, y.b, z.b);
      }
    }
  }

  lemma KeyLtTotal(x: SortVal, y: SortVal)
    ensures x == y || KeyLt(x, y) || KeyLt(y, x)
  {
    StrLtTotal(x.a, y.a);
    StrLtTotal(x.b, y.b);
  }

  /** `KeyLe` is a total order. */
  lemma KeyLeOrder(x: SortVal, y: SortVal, z: SortVal)
    ensures KeyLe(x, y) || KeyLe(y, x)
    ensures KeyLe(x, y) && KeyLe(y, x) ==> x == y
    ensures KeyLe(x, y) && KeyLe(y, z) ==> KeyLe(x, z)
  {
    KeyLtTotal(x, y);
    if KeyLt(x, y) && KeyLt(y, x) {
      KeyLtTransitive(x, y, x);
      KeyLtIrreflexive(x);
    }
    if KeyLt(x, y) && KeyLt(y, z) {
      KeyLtTransitive(x, y, z);
    }
  }

  predicate SortedByKey<T>(s: seq<T>, key: T -> SortVal)
  {
    forall i, j :: 0 <= i < j < |s| ==> KeyLe(key(s[i]), key(s[j]))
  }

  /** Insertion of `x` after every element whose key is not greater. */
  function InsertByKey<T>(x: T, s: seq<T>, key: T -> SortVal): (r: seq<T>)
    ensures |r| == |s| + 1
  {
    if s == [] then [x]
    else if KeyLt(key(x), key(s[0])) then [x] + s
    else [s[0]] + InsertByKey(x, s[1..], key)
  }

  /** A stable sort by key: each element in turn is inserted after the
      sorted elements before it whose key is not greater. */
  function SortByKey<T>(s: seq<T>, key: T -> SortVal): (r: seq<T>)
    ensures |r| == |s|
  {
    if s == [] then [] else InsertByKey(s[|s| - 1], SortByKey(s[..|s| - 1], key), key)
  }

  lemma {:induction false} InsertByKeyPerm<T>(x: T, s: seq<T>, key: T -> SortVal)
    ensures multiset(InsertByKey(x, s, key)) == multiset(s) + multiset{x}
  {
    if s != [] && !KeyLt(key(x), key(s[0])) {
      InsertByKeyPerm(x, s[1..], key);
      assert s == [s[0]] + s[1..];
    }
  }

  lemma {:induction false} InsertByKeySorted<T>(x: T, s: seq<T>, key: T -> SortVal)
    requires SortedByKey(s, key)
    ensures SortedByKey(InsertByKey(x, s, key), key)
  {
    var r := InsertByKey(x, s, key);
    if s == [] {
    } else if KeyLt(key(x), key(s[0])) {
      forall j | 1 <= j < |r| ensures KeyLe(key(r[0]), key(r[j])) {
        KeyLeOrder(key(x), key(s[0]), key(s[j - 1]));
      }
    } else {
      var t := InsertByKey(x, s[1..], key);
      InsertByKeySorted(x, s[1..], key);
      InsertByKeyPerm(x, s[1..], key);
      KeyLtTotal(key(x), key(s[0]));
      forall j | 0 <= j < |t| ensures KeyLe(key(s[0]), key(t[j])) {
        assert t[j] in multiset(t);
        if t[j] != x {
          assert t[j] in multiset(s[1..]);
          var k :| 0 <= k < |s[1..]| && s[1..][k] == t[j];
          assert s[k + 1] == t[j];
        }
      }
      assert r == [s[0]] + t;
    }
  }

  lemma {:induction false} SortByKeyPerm<T>(s: seq<T>, key: T -> SortVal)
    ensures multiset(SortByKey(s, key)) == multiset(s)
  {
    if s != [] {
      var init := s[..|s| - 1];
      SortByKeyPerm(init, key);
      InsertByKeyPerm(s[|s| - 1], SortByKey(init, key), key);
      assert s == init + [s[|s| - 1]];
    }
  }

  lemma {:induction false} SortByKeySorted<T>(s: seq<T>, key: T -> SortVal)
    ensures SortedByKey(SortByKey(s, key), key)
  {
    if s != [] {
      SortByKeySorted(s[..|s| - 1], key);
      InsertByKeySorted(s[|s| - 1], SortByKey(s[..|s| - 1], key), key);
    }
  }

  /** The elements whose key is `v`, in order. */
  function WithKey<T>(s: seq<T>, key: T -> SortVal, v: SortVal): seq<T>
  {
    if s == [] then []
    else WithKey(s[..|s| - 1], key, v) + (if key(s[|s| - 1]) == v then [s[|s| - 1]] else [])
  }

  lemma {:induction false} WithKeyConcat<T>(a: seq<T>, b: seq<T>, key: T -> SortVal, v: SortVal)
    ensures WithKey(a + b, key, v) == WithKey(a, key, v) + WithKey(b, key, v)
  {
    if b == [] {
      assert a + b == a;
    } else {
      assert (a + b)[..|a + b| - 1] == a + b[..|b| - 1];
      WithKeyConcat(a, b[..|b| - 1], key, v);
    }
  }

  lemma {:induction false} WithKeyNone<T>(s: seq<T>, key: T -> SortVal, v: SortVal)
    requires forall k :: 0 <= k < |s| ==> key(s[k]) != v
    ensures WithKey(s, key, v) == []
  {
    if s != [] {
      WithKeyNone(s[..|s| - 1], key, v);
    }
  }

  lemma {:induction false} WithKeyInsert<T>(x: T, s: seq<T>, key: T -> SortVal, v: SortVal)
    requires SortedByKey(s, key)
    ensures WithKey(InsertByKey(x, s, key), key, v) == WithKey(s, key, v) + (if key(x) == v then [x] else [])
  {
    if s == [] {
      WithKeySingle(x, key, v);
    } else if KeyLt(key(x), key(s[0])) {
      WithKeyBefore(x, s, key, v);
    } else {
      var t := InsertByKey(x, s[1..], key);
      WithKeyInsert(x, s[1..], key, v);
      WithKeyConcat([s[0]], t, key, v);
      WithKeyConcat([s[0]], s[1..], key, v);
      assert s == [s[0]] + s[1..];
      assert InsertByKey(x, s, key) == [s[0]] + t;
    }
  }

  lemma WithKeySingle<T>(x: T, key: T -> SortVal, v: SortVal)
    ensures WithKey([x], key, v) == (if key(x) == v then [x] else [])
  {
    assert [x][..0] == [];
  }

  /** An element placed before larger keys comes after none of its own key. */
  lemma WithKeyBefore<T>(x: T, s: seq<T>, key: T -> SortVal, v: SortVal)
    requires SortedByKey(s, key) && s != [] && KeyLt(key(x), key(s[0]))
    ensures WithKey([x] + s, key, v) == WithKey(s, key, v) + (if key(x) == v then [x] else [])
  {
    WithKeyConcat([x], s, key, v);
    WithKeySingle(x, key, v);
    if key(x) == v {
      forall k | 0 <= k < |s| ensures key(s[k]) != v {
        KeyLeOrder(key(x), key(s[0]), key(s[k]));
        KeyLtIrreflexive(key(x));
      }
      WithKeyNone(s, key, v);
    }
  }

  /** The sort is stable: the elements of each key keep their order. */
  lemma {:induction false} SortByKeyStable<T>(s: seq<T>, key: T -> SortVal, v: SortVal)
    ensures WithKey(SortByKey(s, key), key, v) == WithKey(s, key, v)
  {
    if s != [] {
      var init := s[..|s| - 1];
      SortByKeyStable(init, key, v);
      SortByKeySorted(init, key);
      WithKeyInsert(s[|s| - 1], SortByKey(init, key), key, v);
    }
  }

  /** `reverse` on a slice. */
  function Reverse<T>(s: seq<T>): (r: seq<T>)
    ensures |r| == |s|
    ensures forall i :: 0 <= i < |s| ==> r[i] == s[|s| - 1 - i]
  {
    if s == [] then [] else [s[|s| - 1]] + Reverse(s[..|s| - 1])
  }

  lemma {:induction false} ReversePerm<T>(s: seq<T>)
    ensures multiset(Reverse(s)) == multiset(s)
  {
    if s != [] {
      var init := s[..|s| - 1];
      ReversePerm(init);
      assert Reverse(s) == [s[|s| - 1]] + Reverse(init);
      assert s == init + [s[|s| - 1]];
    }
  }

  /** A sorted sequence reversed is sorted in descending order. */
  lemma ReverseSorted<T>(s: seq<T>, key: T -> SortVal)
    requires SortedByKey(s, key)
    ensures forall i, j :: 0 <= i < j < |s| ==> KeyLe(key(Reverse(s)[j]), key(Reverse(s)[i]))
  {
  }

  predicate NoDup<T(==)>(s: seq<T>)
  {
    forall i, j :: 0 <= i < j < |s| ==> s[i] != s[j]
  }

  lemma {:induction false} NoDupCount<T>(s: seq<T>, x: T)
    requires NoDup(s)
    ensures multiset(s)[x] <= 1
  {
    if s != [] {
      var init := s[..|s| - 1];
      NoDupCount(init, x);
      assert s == init + [s[|s| - 1]];
      if x == s[|s| - 1] {
        assert x !in init;
      }
    }
  }

  /** Two equal entries make a count of at least two. */
  lemma CountOfEqual<T>(s: seq<T>, i: nat, j: nat)
    requires i < j < |s|
    ensures s[i] == s[j] ==> multiset(s)[s[i]] >= 2
  {
    assert s == s[..j] + s[j..];
    assert s[i] == s[..j][i];
    assert s[j] == s[j..][0];
    assert multiset(s)[s[i]] == multiset(s[..j])[s[i]] + multiset(s[j..])[s[i]];
  }

  /** A permutation of a duplicate-free sequence is duplicate-free. */
  lemma NoDupPerm<T>(a: seq<T>, b: seq<T>)
    requires NoDup(a) && multiset(a) == multiset(b)
    ensures NoDup(b)
  {
    forall i, j | 0 <= i < j < |b| ensures b[i] != b[j] {
      NoDupCount(a, b[i]);
      CountOfEqual(b, i, j);
    }
  }
}
