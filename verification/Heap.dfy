/** The binary heap over a growable slice of key-value pairs, for both heap types. */
module Heap {
  import opened Wrappers

  datatype HeapType = MinHeap | MaxHeap

  /** Key `a` may stand above key `b`. */
  predicate Above(ht: HeapType, a: int, b: int) {
    if ht.MinHeap? then a <= b else a >= b
  }

  function Parent(c: int): int { (c - 1) / 2 }

  predicate Edge<V>(ht: HeapType, s: seq<(int, V)>, p: int, c: int)
    requires 0 <= p < |s| && 0 <= c < |s|
  {
    Above(ht, s[p].0, s[c].0)
  }

  ghost predicate Ordered<V>(ht: HeapType, s: seq<(int, V)>) {
    forall c :: 0 < c < |s| ==> Edge(ht, s, Parent(c), c)
  }

  /** Heap order everywhere except above `hole`, and across `hole` from its parent to its children. */
  ghost predicate OrderedButAbove<V>(ht: HeapType, s: seq<(int, V)>, hole: nat) {
    && (forall c :: 0 < c < |s| && c != hole ==> Edge(ht, s, Parent(c), c))
    && (forall c :: 0 < hole < c < |s| && Parent(c) == hole ==> Edge(ht, s, Parent(hole), c))
  }

  /** Heap order everywhere except below `hole`, and across `hole` from its parent to its children. */
  ghost predicate OrderedButBelow<V>(ht: HeapType, s: seq<(int, V)>, hole: nat) {
    && (forall c :: 0 < c < |s| && Parent(c) != hole ==> Edge(ht, s, Parent(c), c))
    && (forall c :: 0 < hole < c < |s| && Parent(c) == hole ==> Edge(ht, s, Parent(hole), c))
  }

  function Swap<T>(s: seq<T>, i: nat, j: nat): seq<T>
    requires i < |s| && j < |s|
  {
    s[i := s[j]][j := s[i]]
  }

  lemma SwapKeepsPairs<T>(s: seq<T>, i: nat, j: nat)
    requires i < |s| && j < |s|
    ensures multiset(Swap(s, i, j)) == multiset(s)
  {
  }

  /** The pair at the root is extreme. */
  lemma {:induction false} RootIsExtreme<V>(ht: HeapType, s: seq<(int, V)>, i: nat)
    requires Ordered(ht, s) && i < |s|
    ensures Above(ht, s[0].0, s[i].0)
    decreases i
  {
    if i > 0 {
      RootIsExtreme(ht, s, Parent(i));
      assert Edge(ht, s, Parent(i), i);
    }
  }

  class Heap<V> {
    const heapType: HeapType
    var data: seq<(int, V)>

    ghost predicate Valid()
      reads this
    {
      Ordered(heapType, data)
    }

    ghost function Pairs(): multiset<(int, V)>
      reads this
    {
      multiset(data)
    }

    constructor (ht: HeapType)
      ensures Valid() && heapType == ht && data == []
    {
      heapType := ht;
      data := [];
    }

    method Push(key: int, val: V)
      requires Valid()
      modifies this
      ensures Valid() && Pairs() == old(Pairs()) + multiset{(key, val)} && |data| == |old(data)| + 1
    {
      data := data + [(key, val)];
      forall c | 0 < c < |data| && c != |data| - 1 ensures Edge(heapType, data, Parent(c), c) {
        assert Edge(heapType, old(data), Parent(c), c);
      }
      HeapifyUp(|data| - 1);
    }

    method HeapifyUp(start: nat)
      requires start < |data| && OrderedButAbove(heapType, data, start)
      modifies this
      ensures Valid() && Pairs() == old(Pairs()) && |data| == |old(data)|
    {
      var idx := start;
      while idx > 0
        invariant 0 <= idx < |data| == |old(data)|
        invariant OrderedButAbove(heapType, data, idx)
        invariant Pairs() == old(Pairs())
      {
        var parent := (idx - 1) / 2;
        if Above(heapType, data[parent].0, data[idx].0) {
          break;
        }
        ghost var before := data;
        SwapKeepsPairs(data, parent, idx);
        data := Swap(data, parent, idx);
        RaiseHole(heapType, before, idx);
        idx := parent;
      }
    }

    /** Removes and returns the root pair: an extreme key. Nothing to return on an empty heap. */
    method Pop() returns (r: Option<(int, V)>)
      requires Valid()
      modifies this
      ensures Valid()
      ensures r.None? <==> old(data) == []
      ensures r.None? ==> data == []
      ensures r.Some? ==>
        && r.value in old(Pairs()) && Pairs() == old(Pairs()) - multiset{r.value} && |data| == |old(data)| - 1
        && r.value == old(data)[0]
        && forall p :: p in old(Pairs()) ==> Above(heapType, r.value.0, p.0)
      ensures r.Some? && heapType == MinHeap ==> forall p :: p in old(Pairs()) ==> r.value.0 <= p.0
      ensures r.Some? && heapType == MaxHeap ==> forall p :: p in old(Pairs()) ==> r.value.0 >= p.0
    {
      if |data| == 0 {
        return None;
      }
      ghost var before := data;
      forall p | p in before ensures Above(heapType, before[0].0, p.0) {
        var i :| 0 <= i < |before| && before[i] == p;
        RootIsExtreme(heapType, before, i);
      }
      var top := data[0];
      var lastIdx := |data| - 1;
      data := data[0 := data[lastIdx]];
      data := data[..lastIdx];
      CutRoot(heapType, before, data);
      HeapifyDown(0);
      r := Some(top);
    }

    method Peak() returns (r: Option<(int, V)>)
      requires Valid()
      ensures r.None? <==> data == []
      ensures r.Some? ==>
        && data != [] && r.value == data[0]
        && forall p :: p in Pairs() ==> Above(heapType, r.value.0, p.0)
    {
      if |data| == 0 {
        return None;
      }
      forall p | p in data ensures Above(heapType, data[0].0, p.0) {
        var i :| 0 <= i < |data| && data[i] == p;
        RootIsExtreme(heapType, data, i);
      }
      r := Some(data[0]);
    }

    method HeapifyDown(start: nat)
      requires (start == 0 || start < |data|) && OrderedButBelow(heapType, data, start)
      modifies this
      ensures Valid() && Pairs() == old(Pairs()) && |data| == |old(data)|
    {
      var idx := start;
      while true
        invariant 0 <= idx && (idx == 0 || idx < |data|) && |data| == |old(data)|
        invariant OrderedButBelow(heapType, data, idx)
        invariant Pairs() == old(Pairs())
        decreases |data| - idx
      {
        var left, right, target := 2 * idx + 1, 2 * idx + 2, idx;
        if left < |data| && !Above(heapType, data[target].0, data[left].0) {
          target := left;
        }
        if right < |data| && !Above(heapType, data[target].0, data[right].0) {
          target := right;
        }
        if target == idx {
          HoleClosed(heapType, data, idx);
          break;
        }
        ghost var before := data;
        SwapKeepsPairs(data, idx, target);
        data := Swap(data, idx, target);
        LowerHole(heapType, before, idx, target);
        idx := target;
      }
    }

    /** Pops everything: all the pairs, in key order. */
    method Drain() returns (s: seq<(int, V)>)
      requires Valid()
      modifies this
      ensures data == [] && multiset(s) == old(Pairs())
      ensures heapType == MinHeap ==> forall i, j :: 0 <= i < j < |s| ==> s[i].0 <= s[j].0
      ensures heapType == MaxHeap ==> forall i, j :: 0 <= i < j < |s| ==> s[i].0 >= s[j].0
    {
      hide Ordered, Above, Descends;
      SortedNothing<V>(heapType);
      s := [];
      while data != []
        invariant Valid() && multiset(s) + Pairs() == old(Pairs())
        invariant Descends(heapType, s)
        invariant forall i, p :: 0 <= i < |s| && p in Pairs() ==> Above(heapType, s[i].0, p.0)
        decreases |data|
      {
        ghost var before := s;
        var r := Pop();
        s := s + [r.value];
        SortedMore(heapType, before, r.value);
      }
      SortedMeans(heapType, s);
    }
  }

  ghost predicate Descends<V>(ht: HeapType, s: seq<(int, V)>) {
    forall i, j :: 0 <= i < j < |s| ==> Above(ht, s[i].0, s[j].0)
  }

  lemma SortedNothing<V>(ht: HeapType)
    ensures Descends<V>(ht, [])
  {
  }

  lemma SortedMore<V>(ht: HeapType, s: seq<(int, V)>, p: (int, V))
    requires Descends(ht, s) && forall i :: 0 <= i < |s| ==> Above(ht, s[i].0, p.0)
    ensures Descends(ht, s + [p])
  {
  }

  lemma SortedMeans<V>(ht: HeapType, s: seq<(int, V)>)
    requires Descends(ht, s)
    ensures ht == MinHeap ==> forall i, j :: 0 <= i < j < |s| ==> s[i].0 <= s[j].0
    ensures ht == MaxHeap ==> forall i, j :: 0 <= i < j < |s| ==> s[i].0 >= s[j].0
  {
  }

  lemma RaiseHole<V>(ht: HeapType, s: seq<(int, V)>, idx: nat)
    requires 0 < idx < |s| && OrderedButAbove(ht, s, idx) && !Above(ht, s[Parent(idx)].0, s[idx].0)
    ensures OrderedButAbove(ht, Swap(s, Parent(idx), idx), Parent(idx))
  {
    var parent := Parent(idx);
    var t := Swap(s, parent, idx);
    forall c | 0 < c < |t| && c != parent ensures Edge(ht, t, Parent(c), c) {
      if c != idx { assert Edge(ht, s, Parent(c), c); }
      if Parent(c) == idx { assert Edge(ht, s, parent, c); }
    }
    forall c | 0 < parent < c < |t| && Parent(c) == parent ensures Edge(ht, t, Parent(parent), c) {
      assert Edge(ht, s, Parent(parent), parent);
      if c != idx { assert Edge(ht, s, parent, c); }
    }
  }

  lemma CutRoot<V>(ht: HeapType, s: seq<(int, V)>, t: seq<(int, V)>)
    requires Ordered(ht, s) && s != [] && t == s[0 := s[|s| - 1]][..|s| - 1]
    ensures OrderedButBelow(ht, t, 0) && multiset(t) == multiset(s) - multiset{s[0]}
  {
    forall c | 0 < c < |t| && Parent(c) != 0 ensures Edge(ht, t, Parent(c), c) {
      assert Edge(ht, s, Parent(c), c);
    }
    var last := s[|s| - 1];
    if |s| == 1 {
      assert s == [s[0]];
    } else {
      assert t == [last] + s[1..|s| - 1];
      assert s == [s[0]] + s[1..|s| - 1] + [last];
    }
  }

  lemma HoleClosed<V>(ht: HeapType, s: seq<(int, V)>, idx: nat)
    requires (idx == 0 || idx < |s|) && OrderedButBelow(ht, s, idx)
    requires 2 * idx + 1 < |s| ==> Above(ht, s[idx].0, s[2 * idx + 1].0)
    requires 2 * idx + 2 < |s| ==> Above(ht, s[idx].0, s[2 * idx + 2].0)
    ensures Ordered(ht, s)
  {
    forall c | 0 < c < |s| ensures Edge(ht, s, Parent(c), c) {
      if Parent(c) == idx {
        assert c == 2 * idx + 1 || c == 2 * idx + 2;
      }
    }
  }

  lemma LowerHole<V>(ht: HeapType, s: seq<(int, V)>, idx: nat, target: nat)
    requires idx < |s| && OrderedButBelow(ht, s, idx)
    requires target == 2 * idx + 1 || target == 2 * idx + 2
    requires target < |s| && !Above(ht, s[idx].0, s[target].0)
    requires 2 * idx + 1 < |s| ==> Above(ht, s[target].0, s[2 * idx + 1].0)
    requires 2 * idx + 2 < |s| ==> Above(ht, s[target].0, s[2 * idx + 2].0)
    ensures OrderedButBelow(ht, Swap(s, idx, target), target)
  {
    var t := Swap(s, idx, target);
    forall c | 0 < c < |t| && Parent(c) != target ensures Edge(ht, t, Parent(c), c) {
      if Parent(c) == idx {
        assert c == 2 * idx + 1 || c == 2 * idx + 2;
      } else {
        assert Edge(ht, s, Parent(c), c);
        if c == idx { assert Edge(ht, s, Parent(idx), target); }
      }
    }
    forall c | 0 < target < c < |t| && Parent(c) == target ensures Edge(ht, t, Parent(target), c) {
      assert Edge(ht, s, target, c);
    }
  }
}
