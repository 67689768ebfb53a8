/** Sequence helpers and Python's stable `list.sort(key=...)`, modelled as a stable
    insertion sort on keys that are pairs of reals compared lexicographically
    (a descending sort on `x` is an ascending sort on `-x`). */
module Sorting {
  import opened PyValues

  /** `[f(x) for x in s]`. */
  function MapSeq<T, U>(f: T -> U, s: seq<T>): (r: seq<U>)
    ensures |r| == |s|
    ensures forall i :: 0 <= i < |s| ==> r[i] == f(s[i])
  {
    if s == [] then [] else [f(s[0])] + MapSeq(f, s[1..])
  }

  lemma MapSeqAppend<T, U>(f: T -> U, a: seq<T>, b: seq<T>)
    ensures MapSeq(f, a + b) == MapSeq(f, a) + MapSeq(f, b)
  {
    assert forall i :: 0 <= i < |a + b| ==> MapSeq(f, a + b)[i] == (MapSeq(f, a) + MapSeq(f, b))[i];
  }

  /** `[y for x in s if (y := f(x)) is not None]`, in order. */
  function FilterMap<T, U>(f: T -> Option<U>, s: seq<T>): seq<U>
    decreases |s|
  {
    if s == [] then []
    else
      var rest := FilterMap(f, s[..|s| - 1]);
      match f(s[|s| - 1])
      case None => rest
      case Some(y) => rest + [y]
  }

  /** The last element of the input contributes its value, if any, at the end. */
  lemma FilterMapLast<T, U>(f: T -> Option<U>, s: seq<T>)
    requires s != []
    ensures FilterMap(f, s) == FilterMap(f, s[..|s| - 1]) + (if f(s[|s| - 1]).Some? then [f(s[|s| - 1]).value] else [])
  {
  }

  /** Every kept element comes from an element of the input. */
  lemma {:induction false} FilterMapSound<T, U>(f: T -> Option<U>, s: seq<T>, y: U)
    requires y in FilterMap(f, s)
    ensures exists x :: x in s && f(x) == Some(y)
    decreases |s|
  {
    var init, last := s[..|s| - 1], s[|s| - 1];
    assert s == init + [last];
    if y in FilterMap(f, init) {
      FilterMapSound(f, init, y);
      var x :| x in init && f(x) == Some(y);
      assert x in s;
    } else {
      assert f(last) == Some(y);
    }
  }

  /** Every element of the input with a value contributes that value. */
  lemma {:induction false} FilterMapComplete<T, U>(f: T -> Option<U>, s: seq<T>, x: T)
    requires x in s && f(x).Some?
    ensures f(x).value in FilterMap(f, s)
    decreases |s|
  {
    var init, last := s[..|s| - 1], s[|s| - 1];
    var rest := FilterMap(f, init);
    assert rest <= FilterMap(f, s);
    if x != last {
      assert s == init + [last];
      FilterMapComplete(f, init, x);
    }
  }

  /** When each value names the element it came from, values from distinct elements
      name distinct elements. */
  lemma {:induction false} FilterMapDistinct<T, U>(f: T -> Option<U>, name: U -> T, s: seq<T>)
    requires Distinct(s)
    requires forall x :: f(x).Some? ==> name(f(x).value) == x
    ensures Distinct(MapSeq(name, FilterMap(f, s)))
    decreases |s|
  {
    if s != [] {
      var init, last := s[..|s| - 1], s[|s| - 1];
      assert s == init + [last];
      assert Distinct(init) by {
        forall i, j | 0 <= i < j < |init| ensures init[i] != init[j] {
          assert init[i] == s[i] && init[j] == s[j];
        }
      }
      FilterMapDistinct(f, name, init);
      var rest := FilterMap(f, init);
      match f(last)
      case None =>
        assert FilterMap(f, s) == rest;
      case Some(y) =>
        assert FilterMap(f, s) == rest + [y];
        MapSeqAppend(name, rest, [y]);
        assert MapSeq(name, [y]) == [last];
        forall z | z in MapSeq(name, rest) ensures z != last {
          var i :| 0 <= i < |MapSeq(name, rest)| && MapSeq(name, rest)[i] == z;
          FilterMapSound(f, init, rest[i]);
          var x :| x in init && f(x) == Some(rest[i]);
          assert z == x;
        }
        DistinctAppend(MapSeq(name, rest), [last]);
    }
  }

  /** No element occurs twice. */
  predicate Distinct<T(==)>(s: seq<T>) {
    forall i, j :: 0 <= i < j < |s| ==> s[i] != s[j]
  }

  lemma {:induction false} DistinctIffSingletons<T>(s: seq<T>)
    ensures Distinct(s) <==> forall x :: multiset(s)[x] <= 1
  {
    if s != [] {
      var t := s[1..];
      assert s == [s[0]] + t;
      DistinctIffSingletons(t);
      assert multiset(s) == multiset{s[0]} + multiset(t);
      if Distinct(s) {
        assert s[0] !in t;
        assert Distinct(t) by {
          forall i, j | 0 <= i < j < |t| ensures t[i] != t[j] {
            assert s[i + 1] != s[j + 1];
          }
        }
      } else {
        var i, j :| 0 <= i < j < |s| && s[i] == s[j];
        if i == 0 {
          assert s[0] in t by { assert t[j - 1] == s[j]; }
          assert multiset(s)[s[0]] >= 2;
        } else {
          assert !Distinct(t) by { assert t[i - 1] == t[j - 1]; }
          var x :| multiset(t)[x] > 1;
          assert multiset(s)[x] > 1;
        }
      }
    }
  }

  /** A permutation of a sequence without repetitions has none either. */
  lemma PermutationDistinct<T>(a: seq<T>, b: seq<T>)
    requires multiset(a) == multiset(b)
    requires Distinct(a)
    ensures Distinct(b)
  {
    DistinctIffSingletons(a);
    DistinctIffSingletons(b);
  }

  /** No two elements share a key. */
  ghost predicate KeysDistinct<T, K>(s: seq<T>, k: T -> K) {
    forall i, j :: 0 <= i < j < |s| ==> k(s[i]) != k(s[j])
  }

  /** A permutation of a sequence whose elements have distinct keys has distinct keys too. */
  lemma PermutationKeysDistinct<T, K>(a: seq<T>, b: seq<T>, k: T -> K)
    requires multiset(a) == multiset(b)
    requires KeysDistinct(a, k)
    ensures KeysDistinct(b, k)
  {
    assert Distinct(a);
    PermutationDistinct(a, b);
    forall i, j | 0 <= i < j < |b| ensures k(b[i]) != k(b[j]) {
      assert b[i] != b[j];
      assert b[i] in multiset(a) && b[j] in multiset(a);
      var p :| 0 <= p < |a| && a[p] == b[i];
      var q :| 0 <= q < |a| && a[q] == b[j];
      assert p != q;
      if p > q {
        assert k(a[q]) != k(a[p]);
      }
    }
  }

  /** Two sequences without repetitions and without common elements concatenate to one. */
  lemma DistinctAppend<T>(a: seq<T>, b: seq<T>)
    requires Distinct(a) && Distinct(b)
    requires forall x :: x in a ==> x !in b
    ensures Distinct(a + b)
  {
    forall i, j | 0 <= i < j < |a + b| ensures (a + b)[i] != (a + b)[j] {
      if i < |a| && j >= |a| {
        assert (a + b)[i] in a && (a + b)[j] in b;
      }
    }
  }

  /** Sort keys: compared lexicographically, ascending. */
  type Key = (real, real)

  predicate KeyLt(a: Key, b: Key) {
    a.0 < b.0 || (a.0 == b.0 && a.1 < b.1)
  }

  predicate KeyLe(a: Key, b: Key) {
    a.0 < b.0 || (a.0 == b.0 && a.1 <= b.1)
  }

  /** The sequence is in ascending key order. */
  ghost predicate SortedBy<T>(s: seq<T>, key: T -> Key) {
    forall i, j :: 0 <= i < j < |s| ==> KeyLe(key(s[i]), key(s[j]))
  }

  /** Inserts `x` after every element whose key is not greater than its own. */
  function Insert<T>(x: T, s: seq<T>, key: T -> Key): seq<T>
  {
    if s == [] then [x]
    else if KeyLt(key(x), key(s[0])) then [x] + s
    else [s[0]] + Insert(x, s[1..], key)
  }

  /** The stable sort: sort all but the last element, then insert the last one. */
  function SortBy<T>(s: seq<T>, key: T -> Key): seq<T>
    decreases |s|
  {
    if s == [] then [] else Insert(s[|s| - 1], SortBy(s[..|s| - 1], key), key)
  }

  /** The elements with key `k`, in order. */
  function WithKey<T>(s: seq<T>, key: T -> Key, k: Key): (r: seq<T>)
    ensures forall x :: x in r ==> x in s && key(x) == k
  {
    if s == [] then []
    else (if key(s[0]) == k then [s[0]] else []) + WithKey(s[1..], key, k)
  }

  /** Where `Insert` puts the new element. */
  function InsertPos<T>(x: T, s: seq<T>, key: T -> Key): (p: nat)
    ensures p <= |s|
    ensures Insert(x, s, key) == s[..p] + [x] + s[p..]
  {
    if s == [] then 0
    else if KeyLt(key(x), key(s[0])) then 0
    else
      var p := InsertPos(x, s[1..], key) + 1;
      assert s[..p] == [s[0]] + s[1..][..p - 1];
      assert s[p..] == s[1..][p - 1..];
      p
  }

  lemma {:induction false} InsertSorted<T>(x: T, s: seq<T>, key: T -> Key)
    requires SortedBy(s, key)
    ensures SortedBy(Insert(x, s, key), key)
  {
    if s != [] && !KeyLt(key(x), key(s[0])) {
      InsertSorted(x, s[1..], key);
      var r := Insert(x, s, key);
      var p := InsertPos(x, s, key);
      assert r == s[..p] + [x] + s[p..];
      forall j | 0 < j < |r| ensures KeyLe(key(r[0]), key(r[j])) {
        assert r[j] == x || r[j] in s[1..];
      }
    }
  }

  /** SortBy returns the input's elements, each as often as in the input, in ascending key order. */
  lemma {:induction false} SortByCorrect<T>(s: seq<T>, key: T -> Key)
    ensures |SortBy(s, key)| == |s|
    ensures multiset(SortBy(s, key)) == multiset(s)
    ensures SortedBy(SortBy(s, key), key)
    decreases |s|
  {
    if s != [] {
      var init, last := s[..|s| - 1], s[|s| - 1];
      assert s == init + [last];
      SortByCorrect(init, key);
      var sorted := SortBy(init, key);
      var p := InsertPos(last, sorted, key);
      assert sorted == sorted[..p] + sorted[p..];
      InsertSorted(last, sorted, key);
    }
  }

  lemma {:induction false} WithKeyAppend<T>(a: seq<T>, b: seq<T>, key: T -> Key, k: Key)
    ensures WithKey(a + b, key, k) == WithKey(a, key, k) + WithKey(b, key, k)
  {
    if a == [] {
      assert a + b == b;
    } else {
      assert (a + b)[0] == a[0];
      assert (a + b)[1..] == a[1..] + b;
      WithKeyAppend(a[1..], b, key, k);
    }
  }

  /** The elements of one key in a prefix come first among those of the whole. */
  lemma WithKeyPrefix<T>(s: seq<T>, m: nat, key: T -> Key, k: Key)
    requires m <= |s|
    ensures WithKey(s[..m], key, k) <= WithKey(s, key, k)
  {
    assert s == s[..m] + s[m..];
    WithKeyAppend(s[..m], s[m..], key, k);
  }

  lemma {:induction false} WithKeyNone<T>(s: seq<T>, key: T -> Key, k: Key)
    requires forall i :: 0 <= i < |s| ==> key(s[i]) != k
    ensures WithKey(s, key, k) == []
  {
    if s != [] { WithKeyNone(s[1..], key, k); }
  }

  lemma {:induction false} InsertStable<T>(x: T, s: seq<T>, key: T -> Key, k: Key)
    requires SortedBy(s, key)
    ensures WithKey(Insert(x, s, key), key, k)
         == WithKey(s, key, k) + (if key(x) == k then [x] else [])
    decreases |s|
  {
    if s == [] {
    } else if KeyLt(key(x), key(s[0])) {
      assert Insert(x, s, key) == [x] + s;
      assert ([x] + s)[0] == x && ([x] + s)[1..] == s;
      if key(x) == k {
        assert forall i :: 0 <= i < |s| ==> KeyLe(key(s[0]), key(s[i]));
        WithKeyNone(s, key, k);
      }
    } else {
      var rest := s[1..];
      assert SortedBy(rest, key) by {
        assert forall i :: 0 <= i < |rest| ==> rest[i] == s[i + 1];
      }
      InsertStable(x, rest, key, k);
      var ins := Insert(x, rest, key);
      assert Insert(x, s, key) == [s[0]] + ins;
      assert ([s[0]] + ins)[0] == s[0] && ([s[0]] + ins)[1..] == ins;
    }
  }

  /** Stability: the elements sharing any one key keep their input order. */
  lemma {:induction false} SortByStable<T>(s: seq<T>, key: T -> Key, k: Key)
    ensures WithKey(SortBy(s, key), key, k) == WithKey(s, key, k)
    decreases |s|
  {
    if s != [] {
      var init, last := s[..|s| - 1], s[|s| - 1];
      SortByStable(init, key, k);
      SortByCorrect(init, key);
      var sorted := SortBy(init, key);
      InsertStable(last, sorted, key, k);
      assert SortBy(s, key) == Insert(last, sorted, key);
      WithKeyAppend(init, [last], key, k);
      assert s == init + [last];
      assert WithKey([last], key, k) == if key(last) == k then [last] else [] by {
        assert [last][1..] == [];
      }
    }
  }
}
