/**
 * java.util.LinkedHashMap as the sequence of its entries in iteration
 * (insertion) order, and the stable sort of a stream of entries
 * (`Stream.sorted(Comparator.comparingInt(...))`) collected back into one.
 */
module LinkedMaps {
  import opened Wrappers

  function Keys<K, V>(m: seq<(K, V)>): seq<K> {
    seq(|m|, i requires 0 <= i < |m| => m[i].0)
  }

  /** No key occurs twice: the entries form a map. */
  ghost predicate IsMap<K, V>(m: seq<(K, V)>) {
    forall i, j :: 0 <= i < j < |m| ==> m[i].0 != m[j].0
  }

  /** The position of key `k`, or -1. */
  function IndexOf<K(==), V>(m: seq<(K, V)>, k: K): (i: int)
    ensures -1 <= i < |m|
    ensures i >= 0 ==> m[i].0 == k && forall j :: 0 <= j < i ==> m[j].0 != k
    ensures i < 0 <==> forall j :: 0 <= j < |m| ==> m[j].0 != k
    decreases |m|
  {
    if |m| == 0 then -1
    else if m[0].0 == k then 0
    else
      var i := IndexOf(m[1..], k);
      if i < 0 then -1 else i + 1
  }

  lemma IndexOfMap<K, V>(m: seq<(K, V)>, i: int)
    requires IsMap(m) && 0 <= i < |m|
    ensures IndexOf(m, m[i].0) == i
  {
  }

  /** LinkedHashMap.get: the value of `k`, `None` when `k` is absent. */
  function Get<K(==), V>(m: seq<(K, V)>, k: K): (r: Option<V>)
    ensures r.None? <==> forall j :: 0 <= j < |m| ==> m[j].0 != k
    ensures IsMap(m) ==> forall j :: 0 <= j < |m| && m[j].0 == k ==> r == Some(m[j].1)
  {
    var i := IndexOf(m, k);
    if i < 0 then None else Some(m[i].1)
  }

  /**
   * LinkedHashMap.put: a present key keeps its place and takes the new
   * value; an absent key is appended.
   */
  function Put<K(==), V>(m: seq<(K, V)>, k: K, v: V): (r: seq<(K, V)>)
    ensures (forall j :: 0 <= j < |m| ==> m[j].0 != k) ==> r == m + [(k, v)]
    ensures IndexOf(m, k) >= 0 ==> |r| == |m| && r[IndexOf(m, k)] == (k, v)
  {
    var i := IndexOf(m, k);
    if i < 0 then m + [(k, v)] else m[i := (k, v)]
  }

  /** After a put the key holds the new value, the other entries stay, and a map stays a map. */
  lemma PutFacts<K, V>(m: seq<(K, V)>, k: K, v: V)
    ensures IsMap(m) ==> IsMap(Put(m, k, v)) && Get(Put(m, k, v), k) == Some(v)
    ensures forall e :: e in Put(m, k, v) ==> e in m || e == (k, v)
    ensures forall e :: e in m && e.0 != k ==> e in Put(m, k, v)
    ensures (exists j :: 0 <= j < |m| && m[j].0 == k) ==> Keys(Put(m, k, v)) == Keys(m)
  {
    var r := Put(m, k, v);
    var i := IndexOf(m, k);
    if i < 0 {
      assert r[|m|] == (k, v);
      assert forall e :: e in m ==> e in r;
    } else {
      assert forall j :: 0 <= j < |m| && j != i ==> r[j] == m[j];
      assert forall j :: 0 <= j < |m| ==> r[j].0 == m[j].0;
      assert r[i] == (k, v);
    }
  }

  /** LinkedHashMap.remove: the entry of `k`, when present, leaves; the others keep their order. */
  function Remove<K(==), V>(m: seq<(K, V)>, k: K): (r: seq<(K, V)>)
    ensures (forall j :: 0 <= j < |m| ==> m[j].0 != k) ==> r == m
    ensures IndexOf(m, k) >= 0 ==> |r| == |m| - 1
  {
    var i := IndexOf(m, k);
    if i < 0 then m else m[..i] + m[i + 1..]
  }

  /** After a remove from a map the key is gone and every other entry stays. */
  lemma RemoveFacts<K, V>(m: seq<(K, V)>, k: K)
    ensures IsMap(m) ==> IsMap(Remove(m, k)) && forall j :: 0 <= j < |Remove(m, k)| ==> Remove(m, k)[j].0 != k
    ensures forall e :: e in Remove(m, k) ==> e in m
    ensures IsMap(m) ==> forall e :: e in m && e.0 != k ==> e in Remove(m, k)
  {
    var i := IndexOf(m, k);
    if i >= 0 {
      var r := Remove(m, k);
      assert forall j :: 0 <= j < |r| ==> r[j] == if j < i then m[j] else m[j + 1];
      if IsMap(m) {
        forall e | e in m && e.0 != k ensures e in r {
          var j :| 0 <= j < |m| && m[j] == e;
          if j < i {
            assert r[j] == e;
          } else {
            assert r[j - 1] == e;
          }
        }
      }
    }
  }

  /** LinkedHashMap.putAll: the entries of `pairs` put one after another. */
  function PutAll<K(==), V>(m: seq<(K, V)>, pairs: seq<(K, V)>): (r: seq<(K, V)>)
    decreases |pairs|
  {
    if |pairs| == 0 then m
    else
      var last := pairs[|pairs| - 1];
      Put(PutAll(m, pairs[..|pairs| - 1]), last.0, last.1)
  }

  /** putAll into a map gives a map. */
  lemma {:induction false} PutAllIsMap<K, V>(m: seq<(K, V)>, pairs: seq<(K, V)>)
    requires IsMap(m)
    ensures IsMap(PutAll(m, pairs))
    decreases |pairs|
  {
    if |pairs| > 0 {
      var last := pairs[|pairs| - 1];
      PutAllIsMap(m, pairs[..|pairs| - 1]);
      PutFacts(PutAll(m, pairs[..|pairs| - 1]), last.0, last.1);
    }
  }

  /** A key stays a key after a put. */
  lemma PutKeepsKey<K, V>(m: seq<(K, V)>, k: K, v: V, x: K)
    requires Get(m, x).Some?
    ensures Get(Put(m, k, v), x).Some?
  {
    var i := IndexOf(m, x);
    var r := Put(m, k, v);
    if x == k {
      assert r[i].0 == x;
    } else {
      PutFacts(m, k, v);
      assert m[i] in r;
      var j :| 0 <= j < |r| && r[j] == m[i];
    }
  }

  /** Each entry of `PutAll(m, pairs)` comes from `m` or from `pairs`. */
  lemma {:induction false} PutAllMembers<K, V>(m: seq<(K, V)>, pairs: seq<(K, V)>)
    ensures forall e :: e in PutAll(m, pairs) ==> e in m || e in pairs
    decreases |pairs|
  {
    if |pairs| > 0 {
      var init := pairs[..|pairs| - 1];
      var last := pairs[|pairs| - 1];
      PutAllMembers(m, init);
      PutFacts(PutAll(m, init), last.0, last.1);
      assert forall e :: e in init ==> e in pairs;
    }
  }

  /** Every key of `m` and of `pairs` is a key of `PutAll(m, pairs)`. */
  lemma {:induction false} PutAllCovers<K, V>(m: seq<(K, V)>, pairs: seq<(K, V)>)
    ensures forall e :: e in pairs ==> Get(PutAll(m, pairs), e.0).Some?
    ensures forall e :: e in m ==> Get(PutAll(m, pairs), e.0).Some?
    decreases |pairs|
  {
    if |pairs| > 0 {
      var init := pairs[..|pairs| - 1];
      var last := pairs[|pairs| - 1];
      var prev := PutAll(m, init);
      PutAllCovers(m, init);
      forall e | e in pairs || e in m
        ensures Get(PutAll(m, pairs), e.0).Some?
      {
        if e in m || e in init {
          PutKeepsKey(prev, last.0, last.1, e.0);
        } else {
          assert e == last;
          var r := Put(prev, last.0, last.1);
          if IndexOf(prev, last.0) < 0 {
            assert r[|prev|].0 == last.0;
          } else {
            assert r[IndexOf(prev, last.0)].0 == last.0;
          }
        }
      }
    }
  }

  /** The sum of the values. */
  function SumValues<K>(m: seq<(K, int)>): int
    decreases |m|
  {
    if |m| == 0 then 0 else SumValues(m[..|m| - 1]) + m[|m| - 1].1
  }

  lemma {:induction false} SumValuesConcat<K>(a: seq<(K, int)>, b: seq<(K, int)>)
    ensures SumValues(a + b) == SumValues(a) + SumValues(b)
    decreases |b|
  {
    if |b| > 0 {
      var ab := a + b;
      assert ab[..|ab| - 1] == a + b[..|b| - 1];
      assert ab[|ab| - 1] == b[|b| - 1];
      SumValuesConcat(a, b[..|b| - 1]);
      assert SumValues(ab) == SumValues(ab[..|ab| - 1]) + ab[|ab| - 1].1;
    } else {
      assert a + b == a;
    }
  }

  /** One entry in the middle adds its value to the sum. */
  lemma SumValuesMiddle<K>(a: seq<(K, int)>, x: (K, int), b: seq<(K, int)>)
    ensures SumValues(a + [x] + b) == SumValues(a + b) + x.1
  {
    SumValuesConcat(a + [x], b);
    SumValuesConcat(a, [x]);
    SumValuesConcat(a, b);
    assert [x][..0] == [];
  }

  /** Removing a present key takes its value out of the sum. */
  lemma SumValuesRemove<K>(m: seq<(K, int)>, i: int)
    requires 0 <= i < |m| && IndexOf(m, m[i].0) == i
    ensures SumValues(m) == SumValues(Remove(m, m[i].0)) + m[i].1
  {
    assert m == m[..i] + [m[i]] + m[i + 1..];
    SumValuesMiddle(m[..i], m[i], m[i + 1..]);
  }

  /** Nondecreasing under `key`. */
  ghost predicate SortedBy<T>(s: seq<T>, key: T -> int) {
    forall i, j :: 0 <= i < j < |s| ==> key(s[i]) <= key(s[j])
  }

  /** Inserts `x` after every element whose key is not greater: ties keep their order. */
  function Insert<T(==)>(x: T, s: seq<T>, key: T -> int): (r: seq<T>)
    ensures multiset(r) == multiset(s) + multiset{x}
    decreases |s|
  {
    if |s| == 0 then [x]
    else if key(x) < key(s[0]) then [x] + s
    else
      assert s == [s[0]] + s[1..];
      [s[0]] + Insert(x, s[1..], key)
  }

  lemma {:induction false} InsertSorted<T>(x: T, s: seq<T>, key: T -> int)
    requires SortedBy(s, key)
    ensures SortedBy(Insert(x, s, key), key)
    decreases |s|
  {
    if |s| > 0 && key(x) >= key(s[0]) {
      var rest := Insert(x, s[1..], key);
      InsertSorted(x, s[1..], key);
      assert Insert(x, s, key) == [s[0]] + rest;
      forall e | e in rest ensures key(s[0]) <= key(e) {
        assert e in multiset(rest);
        if e != x {
          assert e in multiset(s[1..]);
          var j :| 0 <= j < |s[1..]| && s[1..][j] == e;
          assert s[j + 1] == e;
        }
      }
    }
  }

  /**
   * A stable insertion sort ascending by `key`: the stream sort with
   * `Comparator.comparingInt(key)`.
   */
  function SortBy<T(==)>(s: seq<T>, key: T -> int): (r: seq<T>)
    ensures multiset(r) == multiset(s)
    ensures SortedBy(r, key)
    decreases |s|
  {
    if |s| == 0 then []
    else
      assert s == s[..|s| - 1] + [s[|s| - 1]];
      var sorted := SortBy(s[..|s| - 1], key);
      InsertSorted(s[|s| - 1], sorted, key);
      Insert(s[|s| - 1], sorted, key)
  }

  lemma {:induction false} TwoPositionsCount<T>(s: seq<T>, i: int, j: int)
    requires 0 <= i < j < |s| && s[i] == s[j]
    ensures multiset(s)[s[i]] >= 2
  {
    assert s == s[..j] + [s[j]] + s[j + 1..];
    assert s[i] == s[..j][i];
    assert s[i] in multiset(s[..j]);
  }

  lemma {:induction false} CountPositions<T>(s: seq<T>, x: T)
    requires multiset(s)[x] >= 2
    ensures exists p, q :: 0 <= p < q < |s| && s[p] == x && s[q] == x
    decreases |s|
  {
    var n := |s| - 1;
    assert s == s[..n] + [s[n]];
    if s[n] == x {
      assert x in multiset(s[..n]);
      var p :| 0 <= p < n && s[..n][p] == x;
      assert s[p] == x;
    } else {
      CountPositions(s[..n], x);
      var p, q :| 0 <= p < q < n && s[..n][p] == x && s[..n][q] == x;
      assert s[p] == x && s[q] == x;
    }
  }

  /** Two positions of `r` come from two positions of any permutation `m` of it. */
  lemma PermutedPositions<T>(r: seq<T>, m: seq<T>, i: int, j: int)
    requires multiset(r) == multiset(m) && 0 <= i < j < |r|
    ensures exists p, q :: 0 <= p < |m| && 0 <= q < |m| && p != q && m[p] == r[i] && m[q] == r[j]
  {
    if r[i] == r[j] {
      TwoPositionsCount(r, i, j);
      CountPositions(m, r[i]);
    } else {
      assert r[i] in multiset(m) && r[j] in multiset(m);
      var p :| 0 <= p < |m| && m[p] == r[i];
      var q :| 0 <= q < |m| && m[q] == r[j];
    }
  }

  /** A permutation of a map's entries is a map: the collector's merge function is never called. */
  lemma PermutationIsMap<K, V>(m: seq<(K, V)>, r: seq<(K, V)>)
    requires IsMap(m) && multiset(r) == multiset(m)
    ensures IsMap(r)
  {
    forall i, j | 0 <= i < j < |r|
      ensures r[i].0 != r[j].0
    {
      PermutedPositions(r, m, i, j);
      var p, q :| 0 <= p < |m| && 0 <= q < |m| && p != q && m[p] == r[i] && m[q] == r[j];
      if p < q {
        assert m[p].0 != m[q].0;
      } else {
        assert m[q].0 != m[p].0;
      }
    }
  }

  /** Sorting the entries of a map gives a map with the same entries, ordered by `key`. */
  lemma SortedMap<K, V>(m: seq<(K, V)>, key: ((K, V)) -> int)
    requires IsMap(m)
    ensures IsMap(SortBy(m, key))
    ensures forall e :: e in SortBy(m, key) <==> e in m
    ensures |SortBy(m, key)| == |m|
  {
    var r := SortBy(m, key);
    PermutationIsMap(m, r);
    assert |r| == |multiset(r)| == |multiset(m)| == |m|;
    forall e ensures e in r <==> e in m {
      assert e in r <==> e in multiset(r);
      assert e in m <==> e in multiset(m);
    }
  }
}
