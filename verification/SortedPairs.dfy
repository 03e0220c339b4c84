/** The reference map of the ordered containers: key-value pairs in strictly ascending key order. */
module SortedPairs {
  import opened Order
  import opened Seqs

  ghost predicate Sorted<K(!new), V(!new)>(lt: (K, K) -> bool, s: seq<(K, V)>) {
    forall i, j :: 0 <= i < j < |s| ==> lt(s[i].0, s[j].0)
  }

  /** The pairs whose key lies before `key`, in order. */
  ghost function Below<K(!new), V(!new)>(lt: (K, K) -> bool, s: seq<(K, V)>, key: K): seq<(K, V)> {
    if s == [] then []
    else (if lt(s[0].0, key) then [s[0]] else []) + Below(lt, s[1..], key)
  }

  /** The pairs whose key lies after `key`, in order. */
  ghost function Above<K(!new), V(!new)>(lt: (K, K) -> bool, s: seq<(K, V)>, key: K): seq<(K, V)> {
    if s == [] then []
    else (if lt(key, s[0].0) then [s[0]] else []) + Above(lt, s[1..], key)
  }

  ghost function Put<K(!new), V(!new)>(lt: (K, K) -> bool, s: seq<(K, V)>, key: K, val: V): seq<(K, V)> {
    Below(lt, s, key) + [(key, val)] + Above(lt, s, key)
  }

  ghost function Remove<K(!new), V(!new)>(lt: (K, K) -> bool, s: seq<(K, V)>, key: K): seq<(K, V)> {
    Below(lt, s, key) + Above(lt, s, key)
  }

  /** The finite map that a sorted sequence lists. */
  ghost function AsMap<K(!new), V(!new)>(lt: (K, K) -> bool, s: seq<(K, V)>): map<K, V>
    requires StrictTotal(lt) && Sorted(lt, s)
  {
    map p | p in s :: p.0 := p.1
  }

  lemma AsMapMembers<K(!new), V(!new)>(lt: (K, K) -> bool, s: seq<(K, V)>)
    requires StrictTotal(lt) && Sorted(lt, s)
    ensures forall p :: p in s <==> p.0 in AsMap(lt, s) && AsMap(lt, s)[p.0] == p.1
  {
    forall k | k in AsMap(lt, s) ensures (k, AsMap(lt, s)[k]) in s {
      var p :| p in s && p.0 == k;
    }
  }

  lemma AsMapTail<K(!new), V(!new)>(lt: (K, K) -> bool, s: seq<(K, V)>)
    requires StrictTotal(lt) && Sorted(lt, s) && s != []
    ensures Sorted(lt, s[1..]) && s[0].0 !in AsMap(lt, s[1..])
    ensures AsMap(lt, s).Keys == AsMap(lt, s[1..]).Keys + {s[0].0}
  {
    SortedTail(lt, s);
    AsMapMembers(lt, s);
    AsMapMembers(lt, s[1..]);
    var m, m' := AsMap(lt, s), AsMap(lt, s[1..]);
    assert forall p :: p in s <==> p == s[0] || p in s[1..];
    forall k ensures k in m.Keys <==> k in m'.Keys + {s[0].0} {
      if k in m { assert (k, m[k]) in s; }
      if k in m' { assert (k, m'[k]) in s[1..]; }
    }
  }

  lemma {:induction false} AsMapSize<K(!new), V(!new)>(lt: (K, K) -> bool, s: seq<(K, V)>)
    requires StrictTotal(lt) && Sorted(lt, s)
    ensures |AsMap(lt, s).Keys| == |s|
  {
    if s != [] {
      AsMapTail(lt, s);
      AsMapSize(lt, s[1..]);
    }
  }

  lemma {:induction false} BelowMembers<K(!new), V(!new)>(lt: (K, K) -> bool, s: seq<(K, V)>, key: K)
    ensures forall p ::
      p in Below(lt, s, key) <==> p in s && lt(p.0, key)
  {
    if s != [] {
      BelowMembers(lt, s[1..], key);
      assert s == [s[0]] + s[1..];
    }
  }

  lemma {:induction false} AboveMembers<K(!new), V(!new)>(lt: (K, K) -> bool, s: seq<(K, V)>, key: K)
    ensures forall p ::
      p in Above(lt, s, key) <==> p in s && lt(key, p.0)
  {
    if s != [] {
      AboveMembers(lt, s[1..], key);
      assert s == [s[0]] + s[1..];
    }
  }

  lemma SortedTail<K(!new), V(!new)>(lt: (K, K) -> bool, s: seq<(K, V)>)
    requires s != [] && Sorted(lt, s)
    ensures Sorted(lt, s[1..])
    ensures forall p :: p in s[1..] ==> lt(s[0].0, p.0)
  {
    forall p | p in s[1..] ensures lt(s[0].0, p.0) {
      var i :| 0 <= i < |s[1..]| && s[1..][i] == p;
      assert s[i + 1] == p;
    }
  }

  lemma SortedCons<K(!new), V(!new)>(lt: (K, K) -> bool, x: (K, V), s: seq<(K, V)>)
    requires Sorted(lt, s)
    requires forall p :: p in s ==> lt(x.0, p.0)
    ensures Sorted(lt, [x] + s)
  {
    var t := [x] + s;
    forall i, j | 0 <= i < j < |t| ensures lt(t[i].0, t[j].0) {
      assert t[j] == s[j - 1] && s[j - 1] in s;
    }
  }

  lemma {:induction false} BelowSorted<K(!new), V(!new)>(lt: (K, K) -> bool, s: seq<(K, V)>, key: K)
    requires Sorted(lt, s)
    ensures Sorted(lt, Below(lt, s, key))
  {
    if s != [] {
      SortedTail(lt, s);
      BelowSorted(lt, s[1..], key);
      BelowMembers(lt, s[1..], key);
      if lt(s[0].0, key) {
        SortedCons(lt, s[0], Below(lt, s[1..], key));
      }
    }
  }

  lemma {:induction false} AboveSorted<K(!new), V(!new)>(lt: (K, K) -> bool, s: seq<(K, V)>, key: K)
    requires Sorted(lt, s)
    ensures Sorted(lt, Above(lt, s, key))
  {
    if s != [] {
      SortedTail(lt, s);
      AboveSorted(lt, s[1..], key);
      AboveMembers(lt, s[1..], key);
      if lt(key, s[0].0) {
        SortedCons(lt, s[0], Above(lt, s[1..], key));
      }
    }
  }

  lemma SortedJoin<K(!new), V(!new)>(lt: (K, K) -> bool, a: seq<(K, V)>, b: seq<(K, V)>)
    requires Sorted(lt, a) && Sorted(lt, b)
    requires forall p, q :: p in a && q in b ==> lt(p.0, q.0)
    ensures Sorted(lt, a + b)
  {
    var t := a + b;
    forall i, j | 0 <= i < j < |t| ensures lt(t[i].0, t[j].0) {
      if i < |a| && j >= |a| {
        assert t[i] == a[i] && a[i] in a;
        assert t[j] == b[j - |a|] && b[j - |a|] in b;
      }
    }
  }

  lemma SortedParts<K(!new), V(!new)>(lt: (K, K) -> bool, a: seq<(K, V)>, b: seq<(K, V)>)
    requires Sorted(lt, a + b)
    ensures Sorted(lt, a) && Sorted(lt, b)
    ensures forall p, q :: p in a && q in b ==> lt(p.0, q.0)
  {
    var t := a + b;
    assert forall i :: 0 <= i < |a| ==> t[i] == a[i];
    assert forall i :: 0 <= i < |b| ==> t[|a| + i] == b[i];
    forall p, q | p in a && q in b ensures lt(p.0, q.0) {
      var i :| 0 <= i < |a| && a[i] == p;
      var j :| 0 <= j < |b| && b[j] == q;
      assert t[i] == p && t[|a| + j] == q;
    }
  }

  lemma PutSorted<K(!new), V(!new)>(lt: (K, K) -> bool, s: seq<(K, V)>, key: K, val: V)
    requires StrictTotal(lt) && Sorted(lt, s)
    ensures Sorted(lt, Put(lt, s, key, val)) && Sorted(lt, Remove(lt, s, key))
  {
    var lo, hi := Below(lt, s, key), Above(lt, s, key);
    BelowMembers(lt, s, key);
    AboveMembers(lt, s, key);
    BelowSorted(lt, s, key);
    AboveSorted(lt, s, key);
    SortedJoin(lt, lo, [(key, val)]);
    SortedJoin(lt, lo + [(key, val)], hi);
    SortedJoin(lt, lo, hi);
  }

  lemma PutMembers<K(!new), V(!new)>(lt: (K, K) -> bool, s: seq<(K, V)>, key: K, val: V)
    requires StrictTotal(lt)
    ensures forall p :: p in Put(lt, s, key, val) <==> p == (key, val) || (p in s && p.0 != key)
    ensures forall p :: p in Remove(lt, s, key) <==> p in s && p.0 != key
  {
    BelowMembers(lt, s, key);
    AboveMembers(lt, s, key);
  }

  lemma SameMap<K(!new), V(!new)>(lt: (K, K) -> bool, s: seq<(K, V)>, m: map<K, V>)
    requires StrictTotal(lt) && Sorted(lt, s)
    requires forall p: (K, V) :: p in s <==> p.0 in m && m[p.0] == p.1
    ensures AsMap(lt, s) == m
  {
    AsMapMembers(lt, s);
    var m' := AsMap(lt, s);
    forall k ensures k in m' <==> k in m {
      if k in m' { assert (k, m'[k]) in s; }
      if k in m { assert (k, m[k]) in s; }
    }
    forall k | k in m' ensures m'[k] == m[k] {
      assert (k, m'[k]) in s;
    }
  }

  /** Put is map update and keeps the sequence sorted. */
  lemma PutIsUpdate<K(!new), V(!new)>(lt: (K, K) -> bool, s: seq<(K, V)>, key: K, val: V)
    requires StrictTotal(lt) && Sorted(lt, s)
    ensures Sorted(lt, Put(lt, s, key, val))
    ensures AsMap(lt, Put(lt, s, key, val)) == AsMap(lt, s)[key := val]
  {
    PutSorted(lt, s, key, val);
    PutMembers(lt, s, key, val);
    AsMapMembers(lt, s);
    SameMap(lt, Put(lt, s, key, val), AsMap(lt, s)[key := val]);
  }

  /** Remove is removal from the map and keeps the sequence sorted. */
  lemma RemoveIsRemoval<K(!new), V(!new)>(lt: (K, K) -> bool, s: seq<(K, V)>, key: K)
    requires StrictTotal(lt) && Sorted(lt, s)
    ensures Sorted(lt, Remove(lt, s, key))
    ensures AsMap(lt, Remove(lt, s, key)) == AsMap(lt, s) - {key}
  {
    AsMapMembers(lt, s);
    if s != [] {
      PutSorted(lt, s, key, s[0].1);
      PutMembers(lt, s, key, s[0].1);
    }
    SameMap(lt, Remove(lt, s, key), AsMap(lt, s) - {key});
  }

  lemma {:induction false} BelowJoin<K(!new), V(!new)>(lt: (K, K) -> bool, a: seq<(K, V)>, b: seq<(K, V)>, key: K)
    ensures Below(lt, a + b, key) == Below(lt, a, key) + Below(lt, b, key)
  {
    if a == [] {
      assert a + b == b;
    } else {
      assert (a + b)[1..] == a[1..] + b;
      BelowJoin(lt, a[1..], b, key);
      Assoc(if lt(a[0].0, key) then [a[0]] else [], Below(lt, a[1..], key), Below(lt, b, key));
    }
  }

  lemma {:induction false} AboveJoin<K(!new), V(!new)>(lt: (K, K) -> bool, a: seq<(K, V)>, b: seq<(K, V)>, key: K)
    ensures Above(lt, a + b, key) == Above(lt, a, key) + Above(lt, b, key)
  {
    if a == [] {
      assert a + b == b;
    } else {
      assert (a + b)[1..] == a[1..] + b;
      AboveJoin(lt, a[1..], b, key);
      Assoc(if lt(key, a[0].0) then [a[0]] else [], Above(lt, a[1..], key), Above(lt, b, key));
    }
  }

  lemma OneWay<K(!new)>(lt: (K, K) -> bool, a: K, b: K)
    requires StrictTotal(lt) && lt(a, b)
    ensures !lt(b, a)
  {
  }

  /** All of `s` lies below `key`: nothing is cut off on that side, nothing left on the other. */
  lemma {:induction false} AllBelow<K(!new), V(!new)>(lt: (K, K) -> bool, s: seq<(K, V)>, key: K)
    requires StrictTotal(lt) && forall p :: p in s ==> lt(p.0, key)
    ensures Below(lt, s, key) == s && Above(lt, s, key) == []
  {
    hide StrictTotal;
    if s != [] {
      assert s[0] in s && forall p :: p in s[1..] ==> p in s;
      OneWay(lt, s[0].0, key);
      AllBelow(lt, s[1..], key);
    }
  }

  lemma {:induction false} AllAbove<K(!new), V(!new)>(lt: (K, K) -> bool, s: seq<(K, V)>, key: K)
    requires StrictTotal(lt) && forall p :: p in s ==> lt(key, p.0)
    ensures Above(lt, s, key) == s && Below(lt, s, key) == []
  {
    hide StrictTotal;
    if s != [] {
      assert s[0] in s && forall p :: p in s[1..] ==> p in s;
      OneWay(lt, key, s[0].0);
      AllAbove(lt, s[1..], key);
    }
  }

  /** Around a pair `x` of a sorted sequence, Put and Remove touch one side only. */
  lemma SplitLeft<K(!new), V(!new)>(lt: (K, K) -> bool, a: seq<(K, V)>, x: (K, V), b: seq<(K, V)>, key: K)
    requires StrictTotal(lt) && Sorted(lt, a + ([x] + b)) && lt(key, x.0)
    ensures Below(lt, a + ([x] + b), key) == Below(lt, a, key)
    ensures Above(lt, a + ([x] + b), key) == Above(lt, a, key) + ([x] + b)
  {
    SortedParts(lt, a, [x] + b);
    SortedParts(lt, [x], b);
    assert x in [x];
    AllAbove(lt, [x] + b, key);
    BelowJoin(lt, a, [x] + b, key);
    AboveJoin(lt, a, [x] + b, key);
  }

  lemma SplitRight<K(!new), V(!new)>(lt: (K, K) -> bool, a: seq<(K, V)>, x: (K, V), b: seq<(K, V)>, key: K)
    requires StrictTotal(lt) && Sorted(lt, a + ([x] + b)) && lt(x.0, key)
    ensures Below(lt, a + ([x] + b), key) == a + ([x] + Below(lt, b, key))
    ensures Above(lt, a + ([x] + b), key) == Above(lt, b, key)
  {
    SortedParts(lt, a, [x] + b);
    assert x in [x] + b;
    AllBelow(lt, a, key);
    BelowJoin(lt, a, [x] + b, key);
    AboveJoin(lt, a, [x] + b, key);
  }

  lemma SplitHere<K(!new), V(!new)>(lt: (K, K) -> bool, a: seq<(K, V)>, x: (K, V), b: seq<(K, V)>)
    requires StrictTotal(lt) && Sorted(lt, a + ([x] + b))
    ensures Below(lt, a + ([x] + b), x.0) == a
    ensures Above(lt, a + ([x] + b), x.0) == b
  {
    SortedParts(lt, a, [x] + b);
    SortedParts(lt, [x], b);
    assert x in [x] && x in [x] + b;
    AllBelow(lt, a, x.0);
    AllAbove(lt, b, x.0);
    BelowJoin(lt, a, [x] + b, x.0);
    AboveJoin(lt, a, [x] + b, x.0);
  }

  /** Pairs can be listed in ascending key order in one way only. */
  lemma {:induction false} OneListing<K(!new), V(!new)>(lt: (K, K) -> bool, a: seq<(K, V)>, b: seq<(K, V)>)
    requires StrictTotal(lt) && Sorted(lt, a) && Sorted(lt, b) && forall p :: p in a <==> p in b
    ensures a == b
  {
    SameSize(lt, a, b);
    if a != [] {
      assert a[0] in b && b[0] in a;
      SameFirst(lt, a, b);
      TailMembers(lt, a);
      TailMembers(lt, b);
      SortedTail(lt, a);
      SortedTail(lt, b);
      OneListing(lt, a[1..], b[1..]);
      assert a == [a[0]] + a[1..] && b == [b[0]] + b[1..];
    }
  }

  lemma SameSize<K(!new), V(!new)>(lt: (K, K) -> bool, a: seq<(K, V)>, b: seq<(K, V)>)
    requires StrictTotal(lt) && Sorted(lt, a) && Sorted(lt, b) && forall p :: p in a <==> p in b
    ensures |a| == |b|
  {
    AsMapSize(lt, a);
    AsMapSize(lt, b);
    assert AsMap(lt, a).Keys == AsMap(lt, b).Keys;
  }

  lemma SameFirst<K(!new), V(!new)>(lt: (K, K) -> bool, a: seq<(K, V)>, b: seq<(K, V)>)
    requires StrictTotal(lt) && Sorted(lt, a) && Sorted(lt, b) && a != [] && b != [] && a[0] in b && b[0] in a
    ensures a[0] == b[0]
  {
    var i :| 0 <= i < |b| && b[i] == a[0];
    var j :| 0 <= j < |a| && a[j] == b[0];
  }

  lemma TailMembers<K(!new), V(!new)>(lt: (K, K) -> bool, a: seq<(K, V)>)
    requires StrictTotal(lt) && Sorted(lt, a) && a != []
    ensures forall p :: p in a[1..] <==> p in a && p != a[0]
  {
    assert a == [a[0]] + a[1..];
  }
}
