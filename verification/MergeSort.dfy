/** Merge sorting as functions on sequences, bottom-up and top-down, for any element with a value to compare. */
module MergeSort {
  /** A node of a linked list. The value never changes; sorting rewrites `next`. */
  class Node<T(0)> {
    const value: T
    var next: Node?<T>

    constructor Dummy()
      ensures next == null
    {
      next := null;
    }
  }

  type Less<!T> = (T, T) -> bool

  /** What the sort asks of its comparison to call the result sorted: a strict weak order. */
  ghost predicate StrictWeak<T(!new)>(less: Less<T>) {
    && (forall a :: !less(a, a))
    && (forall a, b, c :: less(a, b) && less(b, c) ==> less(a, c))
    && (forall a, b, c :: !less(a, b) && !less(b, c) ==> !less(a, c))
  }

  ghost predicate Sorted<T(0)>(less: Less<T>, s: seq<Node<T>>) {
    forall i, j :: 0 <= i < j < |s| ==> !less(s[j].value, s[i].value)
  }

  /** The same nodes, each as often. */
  ghost predicate Permutation<T>(a: seq<T>, b: seq<T>) {
    multiset(a) == multiset(b)
  }

  lemma Reflexive<T>(a: seq<T>)
    ensures Permutation(a, a)
  {
  }

  lemma SameLength<T>(a: seq<T>, b: seq<T>)
    requires Permutation(a, b)
    ensures |a| == |b|
  {
    assert |a| == |multiset(a)| && |b| == |multiset(b)|;
  }

  lemma HeadTail<T>(s: seq<T>)
    requires s != []
    ensures s == [s[0]] + s[1..] && multiset(s) == multiset{s[0]} + multiset(s[1..])
  {
    assert s == [s[0]] + s[1..];
  }

  lemma AroundIndex<T>(b: seq<T>, j: nat)
    requires j < |b|
    ensures b == b[..j] + ([b[j]] + b[j + 1..])
    ensures multiset(b[..j] + b[j + 1..]) == multiset(b) - multiset{b[j]}
  {
    assert b == b[..j] + ([b[j]] + b[j + 1..]);
  }

  /** Finds the first element of one arrangement in another and takes it out of both. */
  lemma TakeOut<T>(a: seq<T>, b: seq<T>) returns (j: nat)
    requires Permutation(a, b) && a != []
    ensures j < |b| && b[j] == a[0] && Permutation(a[1..], b[..j] + b[j + 1..])
  {
    assert a[0] in multiset(b);
    j :| 0 <= j < |b| && b[j] == a[0];
    HeadTail(a);
    AroundIndex(b, j);
  }

  lemma PutIn<T>(a: seq<T>, p: seq<T>, x: T, q: seq<T>)
    requires Permutation(a, p + q)
    ensures Permutation([x] + a, p + ([x] + q))
  {
  }

  lemma PutFirst<T>(a: seq<T>, x: T, p: seq<T>, q: seq<T>)
    requires Permutation(a, p + q)
    ensures Permutation([x] + a, [x] + p + q)
  {
  }

  lemma PermutationTrans<T>(a: seq<T>, b: seq<T>, c: seq<T>)
    requires Permutation(a, b) && (Permutation(b, c) || Permutation(c, b))
    ensures Permutation(a, c)
  {
  }

  lemma PermutationJoin<T>(a: seq<T>, b: seq<T>, c: seq<T>, d: seq<T>)
    requires Permutation(a, b) && Permutation(c, d)
    ensures Permutation(a + c, b + d)
  {
  }

  /** The left head goes first only if it is less than the right one. */
  function Merge<T(0)>(less: Less<T>, l: seq<Node<T>>, r: seq<Node<T>>): seq<Node<T>> {
    if l == [] then r
    else if r == [] then l
    else if less(l[0].value, r[0].value) then [l[0]] + Merge(less, l[1..], r)
    else [r[0]] + Merge(less, l, r[1..])
  }

  lemma {:induction false} MergeKeeps<T(0)>(less: Less<T>, l: seq<Node<T>>, r: seq<Node<T>>)
    ensures Permutation(Merge(less, l, r), l + r)
    decreases |l| + |r|
  {
    hide Permutation;
    if l == [] {
      assert l + r == r;
      Reflexive(r);
    } else if r == [] {
      assert l + r == l;
      Reflexive(l);
    } else if less(l[0].value, r[0].value) {
      MergeKeeps(less, l[1..], r);
      PutFirst(Merge(less, l[1..], r), l[0], l[1..], r);
      HeadTail(l);
    } else {
      MergeKeeps(less, l, r[1..]);
      PutIn(Merge(less, l, r[1..]), l, r[0], r[1..]);
      HeadTail(r);
    }
  }

  lemma SameMembers<T>(a: seq<T>, b: seq<T>, x: T)
    requires Permutation(a, b)
    ensures x in a <==> x in b
  {
    assert x in a <==> x in multiset(a);
  }

  lemma InMerge<T(0)>(less: Less<T>, l: seq<Node<T>>, r: seq<Node<T>>, x: Node<T>)
    ensures x in Merge(less, l, r) <==> x in l || x in r
  {
    MergeKeeps(less, l, r);
    SameMembers(Merge(less, l, r), l + r, x);
  }

  lemma ConsSorted<T(0, !new)>(less: Less<T>, x: Node<T>, s: seq<Node<T>>)
    requires Sorted(less, s) && forall y :: y in s ==> !less(y.value, x.value)
    ensures Sorted(less, [x] + s)
  {
  }

  lemma HeadIsLeast<T(0, !new)>(less: Less<T>, s: seq<Node<T>>, y: Node<T>)
    requires StrictWeak(less) && Sorted(less, s) && s != [] && y in s
    ensures !less(y.value, s[0].value)
  {
    var i :| 0 <= i < |s| && s[i] == y;
  }

  lemma {:induction false} MergeSorts<T(0, !new)>(less: Less<T>, l: seq<Node<T>>, r: seq<Node<T>>)
    requires StrictWeak(less) && Sorted(less, l) && Sorted(less, r)
    ensures Sorted(less, Merge(less, l, r))
    decreases |l| + |r|
  {
    if l != [] && r != [] {
      if less(l[0].value, r[0].value) {
        MergeSorts(less, l[1..], r);
        forall y | y in Merge(less, l[1..], r) ensures !less(y.value, l[0].value) {
          InMerge(less, l[1..], r, y);
          if y in r { HeadIsLeast(less, r, y); } else { HeadIsLeast(less, l, y); }
        }
        ConsSorted(less, l[0], Merge(less, l[1..], r));
      } else {
        MergeSorts(less, l, r[1..]);
        forall y | y in Merge(less, l, r[1..]) ensures !less(y.value, r[0].value) {
          InMerge(less, l, r[1..], y);
          if y in l { HeadIsLeast(less, l, y); } else { HeadIsLeast(less, r, y); }
        }
        ConsSorted(less, r[0], Merge(less, l, r[1..]));
      }
    }
  }

  function Take<T>(s: seq<T>, n: nat): seq<T> { if n <= |s| then s[..n] else s }

  function Drop<T>(s: seq<T>, n: nat): seq<T> { if n <= |s| then s[n..] else [] }

  /** One pass: neighbouring runs of `step` nodes merged. */
  function Pass<T(0)>(less: Less<T>, s: seq<Node<T>>, step: nat): seq<Node<T>>
    requires step > 0
    decreases |s|
  {
    if s == [] then []
    else
      Merge(less, Take(s, step), Take(Drop(s, step), step)) + Pass(less, Drop(Drop(s, step), step), step)
  }

  /** Passes with runs of doubling length until one run is the whole list. */
  function BottomUp<T(0)>(less: Less<T>, s: seq<Node<T>>, step: nat): (r: seq<Node<T>>)
    requires step > 0
    decreases |s| - step
  {
    if step >= |s| then s
    else
      PassKeeps(less, s, step);
      BottomUp(less, Pass(less, s, step), 2 * step)
  }

  lemma TakeDrop<T>(s: seq<T>, n: nat)
    ensures Take(s, n) + Drop(s, n) == s && |Take(s, n)| + |Drop(s, n)| == |s|
  {
  }

  lemma {:induction false} PassKeeps<T(0)>(less: Less<T>, s: seq<Node<T>>, step: nat)
    requires step > 0
    ensures Permutation(Pass(less, s, step), s) && |Pass(less, s, step)| == |s|
    decreases |s|
  {
    hide Permutation;
    if s == [] {
      Reflexive(s);
    } else {
      var a, b, rest := Take(s, step), Take(Drop(s, step), step), Drop(Drop(s, step), step);
      MergeKeeps(less, a, b);
      PassKeeps(less, rest, step);
      PermutationJoin(Merge(less, a, b), a + b, Pass(less, rest, step), rest);
      TakeDrop(s, step);
      TakeDrop(Drop(s, step), step);
      assert a + b + rest == s;
      SameLength(Pass(less, s, step), s);
    }
  }

  /** Cut into runs of `step` nodes from the front, every run is sorted. */
  ghost predicate RunsSorted<T(0)>(less: Less<T>, s: seq<Node<T>>, step: nat)
    requires step > 0
    decreases |s|
  {
    s == [] || (Sorted(less, Take(s, step)) && RunsSorted(less, Drop(s, step), step))
  }

  lemma {:induction false} SingleRuns<T(0)>(less: Less<T>, s: seq<Node<T>>)
    ensures RunsSorted(less, s, 1)
    decreases |s|
  {
    if s != [] { SingleRuns(less, Drop(s, 1)); }
  }

  lemma {:induction false} PassDoubles<T(0, !new)>(less: Less<T>, s: seq<Node<T>>, step: nat)
    requires step > 0 && StrictWeak(less) && RunsSorted(less, s, step)
    ensures RunsSorted(less, Pass(less, s, step), 2 * step)
    decreases |s|
  {
    if s != [] {
      var a, b, rest := Take(s, step), Take(Drop(s, step), step), Drop(Drop(s, step), step);
      if Drop(s, step) != [] { assert Sorted(less, b); }
      MergeSorts(less, a, b);
      MergeKeeps(less, a, b);
      var m := Merge(less, a, b);
      SameLength(m, a + b);
      PassDoubles(less, rest, step);
      PassFront(less, m, Pass(less, rest, step), rest, step);
    }
  }

  /** A merged pair of runs comes out as one run of twice the length, or as the last, shorter one. */
  lemma PassFront<T(0)>(less: Less<T>, m: seq<Node<T>>, tail: seq<Node<T>>, rest: seq<Node<T>>, step: nat)
    requires step > 0 && m != [] && Sorted(less, m) && |m| <= 2 * step && RunsSorted(less, tail, 2 * step)
    requires |m| == 2 * step || tail == []
    ensures RunsSorted(less, m + tail, 2 * step)
  {
    if |m| == 2 * step {
      assert Take(m + tail, 2 * step) == m && Drop(m + tail, 2 * step) == tail;
    } else {
      assert m + tail == m && Take(m, 2 * step) == m;
    }
  }

  lemma {:induction false} BottomUpKeeps<T(0)>(less: Less<T>, s: seq<Node<T>>, step: nat)
    requires step > 0
    ensures Permutation(BottomUp(less, s, step), s)
    decreases |s| - step
  {
    hide Permutation;
    if step >= |s| {
      Reflexive(s);
    } else {
      PassKeeps(less, s, step);
      BottomUpKeeps(less, Pass(less, s, step), 2 * step);
      PermutationTrans(BottomUp(less, s, step), Pass(less, s, step), s);
    }
  }

  lemma {:induction false} BottomUpSorts<T(0, !new)>(less: Less<T>, s: seq<Node<T>>, step: nat)
    requires step > 0 && StrictWeak(less) && RunsSorted(less, s, step)
    ensures Sorted(less, BottomUp(less, s, step))
    decreases |s| - step
  {
    if step >= |s| {
      assert Take(s, step) == s;
    } else {
      PassKeeps(less, s, step);
      PassDoubles(less, s, step);
      BottomUpSorts(less, Pass(less, s, step), 2 * step);
    }
  }

  /** The recursive sort: the first half has the extra node. */
  function TopDown<T(0)>(less: Less<T>, s: seq<Node<T>>): seq<Node<T>>
    decreases |s|
  {
    if |s| <= 1 then s
    else
      var h := (|s| + 1) / 2;
      Merge(less, TopDown(less, s[..h]), TopDown(less, s[h..]))
  }

  lemma TopDownIs<T(0)>(less: Less<T>, s: seq<Node<T>>, h: nat)
    requires |s| > 1 && h == (|s| + 1) / 2
    ensures TopDown(less, s) == Merge(less, TopDown(less, s[..h]), TopDown(less, s[h..]))
  {
  }

  lemma {:induction false} TopDownKeeps<T(0)>(less: Less<T>, s: seq<Node<T>>)
    ensures Permutation(TopDown(less, s), s)
    decreases |s|
  {
    hide Permutation, Merge;
    if |s| <= 1 {
      Reflexive(s);
    } else {
      var h := (|s| + 1) / 2;
      var l, r := s[..h], s[h..];
      TopDownIs(less, s, h);
      TopDownKeeps(less, l);
      TopDownKeeps(less, r);
      MergeKeeps(less, TopDown(less, l), TopDown(less, r));
      PermutationJoin(TopDown(less, l), l, TopDown(less, r), r);
      PermutationTrans(TopDown(less, s), TopDown(less, l) + TopDown(less, r), l + r);
      assert s == l + r;
    }
  }

  lemma {:induction false} TopDownSorts<T(0, !new)>(less: Less<T>, s: seq<Node<T>>)
    requires StrictWeak(less)
    ensures Sorted(less, TopDown(less, s))
    decreases |s|
  {
    if |s| > 1 {
      var h := (|s| + 1) / 2;
      TopDownIs(less, s, h);
      TopDownSorts(less, s[..h]);
      TopDownSorts(less, s[h..]);
      MergeSorts(less, TopDown(less, s[..h]), TopDown(less, s[h..]));
    }
  }

  ghost predicate TotalOnValues<T(!new)>(less: Less<T>) {
    forall a, b :: a == b || less(a, b) || less(b, a)
  }

  function Values<T(0)>(s: seq<Node<T>>): seq<T> {
    if s == [] then [] else [s[0].value] + Values(s[1..])
  }

  lemma {:induction false} ValuesJoin<T(0)>(a: seq<Node<T>>, b: seq<Node<T>>)
    ensures Values(a + b) == Values(a) + Values(b)
  {
    if a == [] {
      assert a + b == b;
    } else {
      assert (a + b)[1..] == a[1..] + b;
      ValuesJoin(a[1..], b);
    }
  }

  lemma ValuesAround<T(0)>(b: seq<Node<T>>, j: nat)
    requires j < |b|
    ensures Values(b) == Values(b[..j]) + ([b[j].value] + Values(b[j + 1..]))
    ensures Values(b[..j] + b[j + 1..]) == Values(b[..j]) + Values(b[j + 1..])
  {
    var p, q := b[..j], b[j + 1..];
    AroundIndex(b, j);
    ValuesJoin(p, q);
    ValuesJoin(p, [b[j]] + q);
    assert Values([b[j]] + q) == [b[j].value] + Values(q);
  }

  lemma {:induction false} PermutedValues<T(0)>(a: seq<Node<T>>, b: seq<Node<T>>)
    requires Permutation(a, b)
    ensures Permutation(Values(a), Values(b))
    decreases |a|
  {
    hide Permutation;
    SameLength(a, b);
    if a == [] {
      Reflexive(Values(a));
    } else {
      var j := TakeOut(a, b);
      ValuesAround(b, j);
      PermutedValues(a[1..], b[..j] + b[j + 1..]);
      PutIn(Values(a[1..]), Values(b[..j]), b[j].value, Values(b[j + 1..]));
    }
  }

  lemma {:induction false} ValuesAt<T(0)>(s: seq<Node<T>>, i: nat)
    requires i < |s|
    ensures |Values(s)| == |s| && Values(s)[i] == s[i].value
  {
    if |s| > 1 { ValuesAt(s[1..], if i > 0 then i - 1 else 0); }
  }

  ghost predicate SortedValues<T>(less: Less<T>, v: seq<T>) {
    forall i, j :: 0 <= i < j < |v| ==> !less(v[j], v[i])
  }

  lemma HeadsAgree<T(!new)>(less: Less<T>, v: seq<T>, w: seq<T>)
    requires StrictWeak(less) && TotalOnValues(less) && v != [] && w != []
    requires SortedValues(less, v) && SortedValues(less, w) && Permutation(v, w)
    ensures v[0] == w[0]
  {
    assert v[0] in multiset(w) && w[0] in multiset(v);
    var i :| 0 <= i < |w| && w[i] == v[0];
    var j :| 0 <= j < |v| && v[j] == w[0];
  }

  lemma TailsPermuted<T>(v: seq<T>, w: seq<T>)
    requires Permutation(v, w) && v != [] && w != [] && v[0] == w[0]
    ensures Permutation(v[1..], w[1..])
  {
    HeadTail(v);
    HeadTail(w);
    assert multiset(v[1..]) == multiset(v) - multiset{v[0]};
  }

  /** Under a strict total order there is only one sorted arrangement. */
  lemma {:induction false} OneArrangement<T(!new)>(less: Less<T>, v: seq<T>, w: seq<T>)
    requires StrictWeak(less) && TotalOnValues(less)
    requires SortedValues(less, v) && SortedValues(less, w) && Permutation(v, w)
    ensures v == w
  {
    hide Permutation, StrictWeak, TotalOnValues;
    SameLength(v, w);
    if v != [] {
      HeadsAgree(less, v, w);
      TailsPermuted(v, w);
      OneArrangement(less, v[1..], w[1..]);
      assert v == [v[0]] + v[1..] && w == [w[0]] + w[1..];
    }
  }

  lemma SortedGivesValues<T(0, !new)>(less: Less<T>, s: seq<Node<T>>)
    requires Sorted(less, s)
    ensures SortedValues(less, Values(s))
  {
    forall i, j | 0 <= i < j < |Values(s)| ensures !less(Values(s)[j], Values(s)[i]) {
      if s != [] { ValuesAt(s, 0); }
      ValuesAt(s, i);
      ValuesAt(s, j);
    }
  }

  /** Both sorts give the same values in the same order when the comparison is a strict total order. */
  lemma SortsAgree<T(0, !new)>(less: Less<T>, s: seq<Node<T>>)
    requires StrictWeak(less) && TotalOnValues(less)
    ensures Values(BottomUp(less, s, 1)) == Values(TopDown(less, s))
  {
    SingleRuns(less, s);
    BottomUpSorts(less, s, 1);
    TopDownSorts(less, s);
    BottomUpKeeps(less, s, 1);
    TopDownKeeps(less, s);
    PermutationTrans(BottomUp(less, s, 1), s, TopDown(less, s));
    PermutedValues(BottomUp(less, s, 1), TopDown(less, s));
    SortedGivesValues(less, BottomUp(less, s, 1));
    SortedGivesValues(less, TopDown(less, s));
    OneArrangement(less, Values(BottomUp(less, s, 1)), Values(TopDown(less, s)));
  }
}
