/** Both list sorts on the heap: every method rewires `next` pointers into what a function of MergeSort gives. */
module ListSort {
  import opened MergeSort
  import opened Seqs

  ghost predicate Distinct<T(0)>(s: seq<Node<T>>) {
    forall i, j :: 0 <= i < j < |s| ==> s[i] != s[j]
  }

  ghost predicate Apart<T(0)>(a: seq<Node<T>>, b: seq<Node<T>>) {
    forall i, j :: 0 <= i < |a| && 0 <= j < |b| ==> a[i] != b[j]
  }

  ghost predicate Within<T(0)>(a: seq<Node<T>>, b: seq<Node<T>>) {
    forall i :: 0 <= i < |a| ==> a[i] in b
  }

  lemma PermutationWithin<T(0)>(a: seq<Node<T>>, b: seq<Node<T>>)
    requires Permutation(a, b)
    ensures Within(a, b)
  {
    forall i | 0 <= i < |a| ensures a[i] in b { SameMembers(a, b, a[i]); }
  }

  /** Each node but the last leads to the following one. */
  ghost predicate Chained<T(0)>(s: seq<Node<T>>)
    reads s
  {
    forall i :: 0 <= i < |s| - 1 ==> s[i].next == s[i + 1]
  }

  function HeadOf<T(0)>(s: seq<Node<T>>): Node?<T> { if s == [] then null else s[0] }

  function LastOf<T(0)>(s: seq<Node<T>>): Node?<T> { if s == [] then null else s[|s| - 1] }

  /** An acyclic list of exactly these nodes. */
  ghost predicate IsList<T(0)>(head: Node?<T>, s: seq<Node<T>>)
    reads s
  {
    Distinct(s) && Chained(s) && (s != [] ==> s[|s| - 1].next == null) && head == HeadOf(s)
  }

  lemma TailIsList<T(0)>(s: seq<Node<T>>)
    requires s != [] && IsList(s[0], s)
    ensures IsList(s[0].next, s[1..]) && s[0] !in s[1..]
  {
    if |s| > 1 { assert s[0].next == s[1]; }
  }

  lemma FrontIsChain<T(0)>(head: Node?<T>, s: seq<Node<T>>, n: nat)
    requires IsList(head, s) && n <= |s|
    ensures Distinct(s[..n]) && Chained(s[..n]) && Distinct(s[n..]) && Chained(s[n..]) && Apart(s[..n], s[n..])
  {
    assert s == s[..n] + s[n..];
  }

  /** Cuts a list after `steps` nodes; the second part is returned. */
  method Split<T(0)>(head0: Node?<T>, steps: nat, ghost s: seq<Node<T>>) returns (rest: Node?<T>)
    requires IsList(head0, s) && steps > 0
    modifies s
    ensures IsList(head0, Take(s, steps)) && IsList(rest, Drop(s, steps)) && Apart(Take(s, steps), Drop(s, steps))
  {
    var head, i := head0, 1;
    while head != null && i < steps
      invariant 1 <= i <= steps
      invariant head == if i - 1 < |s| then s[i - 1] else null
      decreases steps - i
    {
      if i < |s| { assert s[i - 1].next == s[i]; }
      head := head.next;
      i := i + 1;
    }
    if head == null {
      return null;
    }
    rest := CutAfter(head0, head, s, i);
  }

  method CutAfter<T(0)>(
    ghost head: Node?<T>, node: Node<T>, ghost s: seq<Node<T>>, ghost n: nat) returns (rest: Node?<T>)
    requires IsList(head, s) && 0 < n <= |s| && node == s[n - 1]
    modifies node
    ensures IsList(head, s[..n]) && IsList(rest, s[n..]) && Apart(s[..n], s[n..])
  {
    FrontIsChain(head, s, n);
    if n < |s| { assert s[n - 1].next == s[n]; }
    rest := node.next;
    node.next := null;
    assert s[n - 1] !in s[n..];
  }

  /** The nodes of one list and then of another, once the last node of the first leads to the second. */
  lemma Joined<T(0)>(a: seq<Node<T>>, head: Node?<T>, b: seq<Node<T>>)
    requires a != [] && Distinct(a) && Chained(a) && IsList(head, b) && Apart(a, b) && a[|a| - 1].next == head
    ensures IsList(a[0], a + b)
  {
    var s := a + b;
    forall i | 0 <= i < |s| - 1 ensures s[i].next == s[i + 1] {
      if i < |a| - 1 { assert a[i].next == a[i + 1]; }
      if i >= |a| { assert b[i - |a|].next == b[i - |a| + 1]; }
    }
    forall i, j | 0 <= i < j < |s| ensures s[i] != s[j] {
      if i < |a| <= j { assert a[i] in a && b[j - |a|] in b; }
    }
  }

  /** In the middle of a merge: `done` is chained up to `current`, `a` and `b` are what is left of the two lists. */
  ghost predicate Merging<T(0)>(
    less: Less<T>, l: seq<Node<T>>, r: seq<Node<T>>, done: seq<Node<T>>, a: seq<Node<T>>, b: seq<Node<T>>)
    reads done, a, b
  {
    && done != [] && Distinct(done) && Chained(done) && IsList(HeadOf(a), a) && IsList(HeadOf(b), b)
    && Apart(done, a) && Apart(done, b) && Apart(a, b)
    && done[1..] + MergeSort.Merge(less, a, b) == MergeSort.Merge(less, l, r)
  }

  /** Moves the head of one list to the end of the chain. */
  method MoveHead<T(0)>(
    current: Node<T>, node: Node<T>, ghost done: seq<Node<T>>, ghost a: seq<Node<T>>, ghost b: seq<Node<T>>)
    requires done != [] && Distinct(done) && Chained(done) && current == done[|done| - 1]
    requires a != [] && node == a[0] && IsList(HeadOf(a), a) && IsList(HeadOf(b), b)
    requires Apart(done, a) && Apart(done, b) && Apart(a, b)
    modifies current
    ensures Distinct(done + [node]) && Chained(done + [node])
    ensures IsList(HeadOf(a[1..]), a[1..]) && node.next == HeadOf(a[1..]) && IsList(HeadOf(b), b)
    ensures Apart(done + [node], a[1..]) && Apart(done + [node], b) && Apart(a[1..], b)
  {
    TailIsList(a);
    assert current in done;
    current.next := node;
    ghost var c := done + [node];
    forall i | 0 <= i < |c| - 1 ensures c[i].next == c[i + 1] {
      if i < |done| - 1 { assert done[i].next == done[i + 1] && done[i] != current; }
    }
    assert node in a && forall x :: x in a[1..] ==> x in a;
  }

  method TakeLeft<T(0)>(
    less: Less<T>, current: Node<T>, node: Node<T>, ghost l: seq<Node<T>>, ghost r: seq<Node<T>>,
    ghost done: seq<Node<T>>, ghost a: seq<Node<T>>, ghost b: seq<Node<T>>)
    requires Merging(less, l, r, done, a, b) && current == done[|done| - 1]
    requires a != [] && b != [] && node == a[0] && less(a[0].value, b[0].value)
    modifies current
    ensures Merging(less, l, r, done + [node], a[1..], b) && node.next == HeadOf(a[1..])
  {
    assert (done + [a[0]])[1..] == done[1..] + [a[0]];
    MoveHead(current, node, done, a, b);
  }

  method TakeRight<T(0)>(
    less: Less<T>, current: Node<T>, node: Node<T>, ghost l: seq<Node<T>>, ghost r: seq<Node<T>>,
    ghost done: seq<Node<T>>, ghost a: seq<Node<T>>, ghost b: seq<Node<T>>)
    requires Merging(less, l, r, done, a, b) && current == done[|done| - 1]
    requires a != [] && b != [] && node == b[0] && !less(a[0].value, b[0].value)
    modifies current
    ensures Merging(less, l, r, done + [node], a, b[1..]) && node.next == HeadOf(b[1..])
  {
    assert (done + [b[0]])[1..] == done[1..] + [b[0]];
    MoveHead(current, node, done, b, a);
  }

  lemma MergeBegins<T(0)>(less: Less<T>, l: seq<Node<T>>, r: seq<Node<T>>, dummy: Node<T>)
    requires IsList(HeadOf(l), l) && IsList(HeadOf(r), r) && Apart(l, r) && dummy !in l && dummy !in r
    ensures Merging(less, l, r, [dummy], l, r)
  {
    hide MergeSort.Merge;
    assert [dummy][1..] == [];
    assert [] + MergeSort.Merge(less, l, r) == MergeSort.Merge(less, l, r);
  }

  method Merge<T(0)>(less: Less<T>, left0: Node?<T>, right0: Node?<T>, ghost l: seq<Node<T>>, ghost r: seq<Node<T>>)
    returns (head: Node?<T>)
    requires IsList(left0, l) && IsList(right0, r) && Apart(l, r)
    modifies l, r
    ensures IsList(head, MergeSort.Merge(less, l, r))
  {
    hide Merging;
    var dummy := new Node.Dummy();
    var current, left, right := dummy, left0, right0;
    ghost var done: seq<Node<T>>, a, b := [dummy], l, r;
    MergeBegins(less, l, r, dummy);
    while left != null && right != null
      invariant left == HeadOf(a) && right == HeadOf(b)
      invariant Merging(less, l, r, done, a, b)
      invariant done != [] && done[0] == dummy && current == done[|done| - 1]
      invariant (current == dummy || current in l || current in r) && fresh(dummy)
      invariant (forall x :: x in a ==> x in l) && forall x :: x in b ==> x in r
      invariant a == [] && b == [] ==> done == [dummy] && dummy.next == null
      decreases |a| + |b|
    {
      var node: Node<T>;
      if less(left.value, right.value) {
        node := left;
        assert node in a;
        TakeLeft(less, current, node, l, r, done, a, b);
        a := a[1..];
        left := left.next;
      } else {
        node := right;
        assert node in b;
        TakeRight(less, current, node, l, r, done, a, b);
        b := b[1..];
        right := right.next;
      }
      done := done + [node];
      current := node;
    }
    head := FinishMerge(less, dummy, current, left, right, l, r, done, a, b);
  }

  /** Lets the last node of a chain lead to a list that shares no node with it. */
  method LeadTo<T(0)>(current: Node<T>, head: Node?<T>, ghost done: seq<Node<T>>, ghost rest: seq<Node<T>>)
    requires done != [] && Distinct(done) && Chained(done) && current == done[|done| - 1]
    requires IsList(head, rest) && Apart(done, rest)
    modifies current
    ensures IsList(done[0], done + rest) && IsList(head, rest)
  {
    assert current in done;
    current.next := head;
    forall i | 0 <= i < |done| - 1 ensures done[i].next == done[i + 1] {
      assert done[i] != current;
    }
    Joined(done, head, rest);
  }

  /** The merged list behind the dummy node, once whatever is left of either list has been appended. */
  lemma BehindDummy<T(0)>(
    less: Less<T>, l: seq<Node<T>>, r: seq<Node<T>>, done: seq<Node<T>>, a: seq<Node<T>>, b: seq<Node<T>>,
    rest: seq<Node<T>>)
    requires done != [] && done[1..] + MergeSort.Merge(less, a, b) == MergeSort.Merge(less, l, r)
    requires rest == (if a == [] then b else a) && (a == [] || b == [])
    requires IsList(done[0], done + rest)
    ensures IsList(done[0].next, MergeSort.Merge(less, l, r))
  {
    TailIsList(done + rest);
    assert (done + rest)[1..] == done[1..] + rest;
  }

  /** Appends whatever is left of either list. */
  method FinishMerge<T(0)>(
    less: Less<T>, dummy: Node<T>, current: Node<T>, left: Node?<T>, right: Node?<T>, ghost l: seq<Node<T>>,
    ghost r: seq<Node<T>>, ghost done: seq<Node<T>>, ghost a: seq<Node<T>>, ghost b: seq<Node<T>>)
    returns (head: Node?<T>)
    requires Merging(less, l, r, done, a, b) && done[0] == dummy && current == done[|done| - 1]
    requires left == HeadOf(a) && right == HeadOf(b) && (left == null || right == null)
    requires a == [] && b == [] ==> done == [dummy] && dummy.next == null
    modifies current
    ensures IsList(head, MergeSort.Merge(less, l, r))
  {
    if left != null {
      LeadTo(current, left, done, a);
      BehindDummy(less, l, r, done, a, b, a);
    }
    if right != null {
      LeadTo(current, right, done, b);
      BehindDummy(less, l, r, done, a, b, b);
    }
    head := dummy.next;
  }

  function Merged<T(0)>(less: Less<T>, s: seq<Node<T>>, step: nat): seq<Node<T>> {
    MergeSort.Merge(less, Take(s, step), Take(Drop(s, step), step))
  }

  function Rest<T>(s: seq<T>, step: nat): seq<T> { Drop(Drop(s, step), step) }

  lemma MembersOfMerged<T(0)>(less: Less<T>, s: seq<Node<T>>, step: nat)
    ensures Within(Merged(less, s, step), s)
    ensures Within(Rest(s, step), s)
    ensures |Merged(less, s, step)| + |Rest(s, step)| == |s|
    ensures s != [] && step > 0 ==> Merged(less, s, step) != []
  {
    var a, b := Take(s, step), Take(Drop(s, step), step);
    var m := Merged(less, s, step);
    forall i | 0 <= i < |m| ensures m[i] in s { InMerge(less, a, b, m[i]); }
    MergeKeeps(less, a, b);
    SameLength(Merged(less, s, step), a + b);
  }

  /** Two runs are cut off the front of a list. */
  method SplitTwice<T(0)>(left: Node?<T>, step: nat, ghost s: seq<Node<T>>) returns (right: Node?<T>, current: Node?<T>)
    requires IsList(left, s) && step > 0
    modifies s
    ensures IsList(left, Take(s, step)) && IsList(right, Take(Drop(s, step), step)) && IsList(current, Rest(s, step))
    ensures Apart(Take(s, step), Take(Drop(s, step), step))
    ensures Apart(Take(s, step), Rest(s, step)) && Apart(Take(Drop(s, step), step), Rest(s, step))
  {
    hide IsList;
    ghost var s1 := Drop(s, step);
    right := Split(left, step, s);
    assert forall x :: x in s1 ==> x in s;
    current := Split(right, step, s1);
    assert forall x :: x in Take(s1, step) || x in Drop(s1, step) ==> x in s1;
  }

  lemma ApartFromMerged<T(0)>(less: Less<T>, a: seq<Node<T>>, b: seq<Node<T>>, c: seq<Node<T>>)
    requires Apart(a, c) && Apart(b, c)
    ensures Apart(MergeSort.Merge(less, a, b), c)
  {
    var m := MergeSort.Merge(less, a, b);
    forall i, j | 0 <= i < |m| && 0 <= j < |c| ensures m[i] != c[j] { InMerge(less, a, b, m[i]); }
  }

  /** They are merged. */
  method MergePair<T(0)>(less: Less<T>, left: Node?<T>, step: nat, ghost s: seq<Node<T>>)
    returns (merged: Node?<T>, current: Node?<T>)
    requires IsList(left, s) && step > 0
    modifies s
    ensures IsList(merged, Merged(less, s, step)) && IsList(current, Rest(s, step))
    ensures Apart(Merged(less, s, step), Rest(s, step))
  {
    hide IsList;
    ghost var a, b, s2 := Take(s, step), Take(Drop(s, step), step), Rest(s, step);
    var right;
    right, current := SplitTwice(left, step, s);
    assert forall x :: x in a || x in b ==> x in s;
    merged := Merge(less, left, right, a, b);
    ApartFromMerged(less, a, b, s2);
  }

  /** A pass so far: `done` is the list of the dummy and the runs merged, `rest` still has to be merged. */
  ghost predicate Passing<T(0)>(
    less: Less<T>, s: seq<Node<T>>, step: nat, dummy: Node<T>, tail: Node<T>, current: Node?<T>,
    done: seq<Node<T>>, rest: seq<Node<T>>)
    requires step > 0
    reads done, rest
  {
    && done != [] && done[0] == dummy && tail == done[|done| - 1] && Distinct(done) && Chained(done)
    && IsList(current, rest) && Apart(done, rest) && (rest == [] ==> tail.next == null)
    && done[1..] + Pass(less, rest, step) == Pass(less, s, step)
  }

  method PassStep<T(0)>(
    less: Less<T>, ghost s: seq<Node<T>>, step: nat, ghost dummy: Node<T>, prevTail: Node<T>, current: Node<T>,
    ghost done: seq<Node<T>>, ghost rest: seq<Node<T>>)
    returns (tail: Node<T>, next: Node?<T>)
    requires step > 0 && Passing(less, s, step, dummy, prevTail, current, done, rest)
    modifies prevTail, rest
    ensures Passing(less, s, step, dummy, tail, next, done + Merged(less, rest, step), Rest(rest, step))
    ensures tail in rest
  {
    hide IsList, Chained, Distinct, Apart, Pass, Passing, Merged;
    ghost var m, left := Merged(less, rest, step), Rest(rest, step);
    PassingParts(less, s, step, dummy, prevTail, current, done, rest);
    MembersOfMerged(less, rest, step);
    ApartFromPart(done, rest, m);
    ApartFromPart(done, rest, left);
    var merged;
    merged, next := MergeBeside(less, current, step, done, rest);
    HeadOfList(merged, m);
    tail := LinkBeside(prevTail, merged, next, done, m, left);
    PassGoesOn(less, s, step, done, rest);
    PassingAgain(less, s, step, dummy, tail, next, done, m, left);
  }

  lemma PassingParts<T(0)>(
    less: Less<T>, s: seq<Node<T>>, step: nat, dummy: Node<T>, tail: Node<T>, current: Node?<T>,
    done: seq<Node<T>>, rest: seq<Node<T>>)
    requires step > 0 && Passing(less, s, step, dummy, tail, current, done, rest)
    ensures done != [] && done[0] == dummy && tail == done[|done| - 1] && Distinct(done) && Chained(done)
    ensures IsList(current, rest) && Apart(done, rest) && current == HeadOf(rest)
    ensures done[1..] + Pass(less, rest, step) == Pass(less, s, step)
  {
  }

  lemma PassingAgain<T(0)>(
    less: Less<T>, s: seq<Node<T>>, step: nat, dummy: Node<T>, tail: Node<T>, next: Node?<T>,
    done: seq<Node<T>>, m: seq<Node<T>>, left: seq<Node<T>>)
    requires step > 0 && done != [] && done[0] == dummy && m != [] && tail == m[|m| - 1]
    requires IsList(dummy, done + m) && IsList(next, left) && Apart(done, left) && Apart(m, left)
    requires (done + m)[1..] + Pass(less, left, step) == Pass(less, s, step)
    ensures Passing(less, s, step, dummy, tail, next, done + m, left)
  {
    hide Pass;
  }

  /** MergePair, with nodes elsewhere left as they were. */
  method MergeBeside<T(0)>(less: Less<T>, left: Node?<T>, step: nat, ghost done: seq<Node<T>>, ghost s: seq<Node<T>>)
    returns (merged: Node?<T>, current: Node?<T>)
    requires IsList(left, s) && step > 0 && Chained(done) && Apart(done, s)
    modifies s
    ensures IsList(merged, Merged(less, s, step)) && IsList(current, Rest(s, step)) && Chained(done)
    ensures Apart(Merged(less, s, step), Rest(s, step))
  {
    hide IsList, Chained;
    merged, current := MergePair(less, left, step, s);
  }

  /** The merged run is appended and walked to its end. */
  method LinkBeside<T(0)>(
    prevTail: Node<T>, merged: Node<T>, ghost next: Node?<T>, ghost done: seq<Node<T>>, ghost m: seq<Node<T>>,
    ghost left: seq<Node<T>>)
    returns (tail: Node<T>)
    requires done != [] && Distinct(done) && Chained(done) && prevTail == done[|done| - 1]
    requires IsList(merged, m) && Apart(done, m) && IsList(next, left) && Apart(done, left)
    modifies prevTail
    ensures IsList(done[0], done + m) && IsList(next, left) && tail == LastOf(m)
  {
    LeadTo(prevTail, merged, done, m);
    tail := merged;
    ghost var i := 0;
    while tail.next != null
      invariant 0 <= i < |m| && tail == m[i]
      invariant tail.next == if i < |m| - 1 then m[i + 1] else null
      decreases |m| - i
    {
      tail := tail.next;
      i := i + 1;
    }
  }

  lemma PassGoesOn<T(0)>(less: Less<T>, s: seq<Node<T>>, step: nat, done: seq<Node<T>>, rest: seq<Node<T>>)
    requires step > 0 && done != [] && rest != [] && done[1..] + Pass(less, rest, step) == Pass(less, s, step)
    ensures (done + Merged(less, rest, step))[1..] + Pass(less, Rest(rest, step), step) == Pass(less, s, step)
  {
    hide Pass, Merged, Rest;
    var m := Merged(less, rest, step);
    PassIs(less, rest, step);
    assert (done + m)[1..] == done[1..] + m;
    Assoc(done[1..], m, Pass(less, Rest(rest, step), step));
  }

  lemma PassIs<T(0)>(less: Less<T>, s: seq<Node<T>>, step: nat)
    requires step > 0 && s != []
    ensures Pass(less, s, step) == Merged(less, s, step) + Pass(less, Rest(s, step), step)
  {
  }

  lemma ApartFromPart<T(0)>(a: seq<Node<T>>, b: seq<Node<T>>, part: seq<Node<T>>)
    requires Apart(a, b) && Within(part, b)
    ensures Apart(a, part)
  {
    forall i, j | 0 <= i < |a| && 0 <= j < |part| ensures a[i] != part[j] { assert part[j] in b; }
  }

  lemma HeadOfList<T(0)>(head: Node?<T>, s: seq<Node<T>>)
    requires IsList(head, s)
    ensures head == HeadOf(s)
  {
  }

  lemma PassDone<T(0)>(less: Less<T>, s: seq<Node<T>>, step: nat, dummy: Node<T>, tail: Node<T>, done: seq<Node<T>>)
    requires step > 0 && s != [] && Passing(less, s, step, dummy, tail, null, done, [])
    ensures IsList(dummy.next, Pass(less, s, step)) && tail == LastOf(Pass(less, s, step))
  {
    PassKeeps(less, s, step);
    assert done[1..] + [] == done[1..];
    TailIsList(done);
  }

  /** One pass over the list behind the dummy node. */
  method PassOnce<T(0)>(less: Less<T>, dummy: Node<T>, step: nat, ghost s: seq<Node<T>>) returns (tail: Node<T>)
    requires step > 0 && s != [] && IsList(dummy.next, s) && dummy !in s
    modifies dummy, s
    ensures IsList(dummy.next, Pass(less, s, step)) && tail == LastOf(Pass(less, s, step))
  {
    hide Passing, IsList, Pass;
    var current := dummy.next;
    tail := dummy;
    ghost var done: seq<Node<T>>, rest := [dummy], s;
    PassBegins(less, s, step, dummy);
    while current != null
      invariant Passing(less, s, step, dummy, tail, current, done, rest)
      invariant (tail == dummy || tail in s) && Within(rest, s)
      decreases |rest|
    {
      MembersOfMerged(less, rest, step);
      PassingParts(less, s, step, dummy, tail, current, done, rest);
      tail, current := PassStep(less, s, step, dummy, tail, current, done, rest);
      done, rest := done + Merged(less, rest, step), Rest(rest, step);
    }
    PassingParts(less, s, step, dummy, tail, current, done, rest);
    PassDone(less, s, step, dummy, tail, done);
  }

  lemma PassBegins<T(0)>(less: Less<T>, s: seq<Node<T>>, step: nat, dummy: Node<T>)
    requires step > 0 && s != [] && IsList(dummy.next, s) && dummy !in s
    ensures Passing(less, s, step, dummy, dummy, dummy.next, [dummy], s)
  {
    assert [dummy][1..] + Pass(less, s, step) == Pass(less, s, step);
  }

  /** From any node of a list to its last one. */
  method LastFrom<T(0)>(
    node: Node<T>, ghost head: Node?<T>, ghost s: seq<Node<T>>, ghost start: nat) returns (last: Node<T>)
    requires IsList(head, s) && start < |s| && node == s[start]
    ensures last == LastOf(s) && IsList(head, s)
  {
    last := node;
    ghost var i := start;
    while last.next != null
      invariant i < |s| && last == s[i]
      invariant last.next == if i < |s| - 1 then s[i + 1] else null
      decreases |s| - i
    {
      last := last.next;
      i := i + 1;
    }
  }

  method Length<T(0)>(head: Node?<T>, ghost s: seq<Node<T>>) returns (length: nat)
    requires IsList(head, s)
    ensures length == |s|
  {
    length := 0;
    var current := head;
    while current != null
      invariant length <= |s| && current == if length < |s| then s[length] else null
      decreases |s| - length
    {
      assert length < |s| - 1 ==> s[length].next == s[length + 1];
      length := length + 1;
      current := current.next;
    }
  }

  /** One pass and a doubled step. */
  method DoubleStep<T(0)>(less: Less<T>, dummy: Node<T>, step: nat, ghost s: seq<Node<T>>) returns (tail: Node<T>)
    requires step > 0 && step < |s| && IsList(dummy.next, s) && dummy !in s
    modifies dummy, s
    ensures var p := Pass(less, s, step);
      && IsList(dummy.next, p) && tail == LastOf(p) && |p| == |s| && Within(p, s) && dummy !in p
      && BottomUp(less, p, 2 * step) == BottomUp(less, s, step)
  {
    hide IsList, Pass;
    PassKeeps(less, s, step);
    PermutationWithin(Pass(less, s, step), s);
    tail := PassOnce(less, dummy, step, s);
  }

  /** sortLinkedListNodeIterative: passes with doubling steps. */
  method SortIterative<T(0)>(less: Less<T>, head0: Node?<T>, tail0: Node?<T>, ghost s: seq<Node<T>>)
    returns (head: Node?<T>, tail: Node?<T>)
    requires IsList(head0, s) && tail0 == LastOf(s)
    modifies s
    ensures IsList(head, BottomUp(less, s, 1)) && tail == LastOf(BottomUp(less, s, 1))
  {
    hide IsList, Pass;
    var length := Length(head0, s);
    if length <= 1 {
      return head0, tail0;
    }
    var dummy := new Node.Dummy();
    dummy.next := head0;
    head, tail := SortPasses(less, dummy, tail0, length, s);
  }

  method SortPasses<T(0)>(less: Less<T>, dummy: Node<T>, tail0: Node?<T>, length: nat, ghost s: seq<Node<T>>)
    returns (head: Node?<T>, tail: Node?<T>)
    requires length == |s| > 1 && IsList(dummy.next, s) && tail0 == LastOf(s) && dummy !in s
    modifies dummy, s
    ensures IsList(head, BottomUp(less, s, 1)) && tail == LastOf(BottomUp(less, s, 1))
  {
    hide IsList, Pass;
    tail := tail0;
    var step := 1;
    ghost var cur := s;
    while step < length
      invariant step > 0 && |cur| == length && IsList(dummy.next, cur) && tail == LastOf(cur)
      invariant BottomUp(less, cur, step) == BottomUp(less, s, 1)
      invariant dummy !in cur && Within(cur, s)
      decreases length - step
    {
      ghost var p := Pass(less, cur, step);
      tail := DoubleStep(less, dummy, step, cur);
      cur := p;
      step := step * 2;
    }
    tail := LastFrom(tail, dummy.next, cur, |cur| - 1);
    head := dummy.next;
  }

  /** The node at the end of the first half, found with two pointers. */
  method FindMiddle<T(0)>(head: Node<T>, ghost s: seq<Node<T>>) returns (slow: Node<T>)
    requires IsList(head, s)
    ensures (|s| - 1) / 2 < |s| && slow == s[(|s| - 1) / 2]
  {
    slow := head;
    var fast := head;
    ghost var i := 0;
    while fast.next != null && fast.next.next != null
      invariant 0 <= 2 * i < |s| && slow == s[i] && fast == s[2 * i]
      invariant fast.next == if 2 * i + 1 < |s| then s[2 * i + 1] else null
      invariant 2 * i + 1 < |s| ==> s[2 * i + 1].next == if 2 * i + 2 < |s| then s[2 * i + 2] else null
      decreases |s| - i
    {
      assert s[i].next == s[i + 1];
      slow := slow.next;
      fast := fast.next.next;
      i := i + 1;
      assert 2 * i + 1 < |s| ==> s[2 * i].next == s[2 * i + 1];
      assert 2 * i + 2 < |s| ==> s[2 * i + 1].next == s[2 * i + 2];
    }
  }

  /** mergeSortListNode. */
  method SortRecursive<T(0)>(less: Less<T>, head: Node?<T>, ghost s: seq<Node<T>>) returns (r: Node?<T>)
    requires IsList(head, s)
    modifies s
    ensures IsList(r, TopDown(less, s))
    decreases |s|, 1
  {
    HasTwo(head, s);
    if head == null || head.next == null {
      return head;
    }
    var middle := FindMiddle(head, s);
    ghost var h := (|s| + 1) / 2;
    ghost var a, b := s[..h], s[h..];
    var secondHalf := CutAfter(head, middle, s, h);
    r := SortHalves(less, head, secondHalf, s, a, b);
  }

  lemma HasTwo<T(0)>(head: Node?<T>, s: seq<Node<T>>)
    requires IsList(head, s)
    ensures head != null && head.next != null <==> |s| > 1
  {
    if |s| > 1 { assert s[0].next == s[1]; }
  }

  lemma SortedApart<T(0)>(less: Less<T>, a: seq<Node<T>>, b: seq<Node<T>>)
    requires Apart(a, b)
    ensures Within(TopDown(less, a), a) && Within(TopDown(less, b), b)
    ensures Apart(TopDown(less, a), b) && Apart(TopDown(less, a), TopDown(less, b))
  {
    var c, d := TopDown(less, a), TopDown(less, b);
    TopDownKeeps(less, a);
    TopDownKeeps(less, b);
    PermutationWithin(c, a);
    PermutationWithin(d, b);
    ApartFromPart(a, b, d);
    ApartSwap(a, b);
    ApartFromPart(b, a, c);
    ApartSwap(b, c);
    ApartFromPart(c, b, d);
  }

  lemma ApartSwap<T(0)>(a: seq<Node<T>>, b: seq<Node<T>>)
    requires Apart(a, b)
    ensures Apart(b, a)
  {
  }

  method SortHalves<T(0)>(
    less: Less<T>, head: Node?<T>, secondHalf: Node?<T>, ghost s: seq<Node<T>>, ghost a: seq<Node<T>>,
    ghost b: seq<Node<T>>)
    returns (r: Node?<T>)
    requires |s| > 1 && a == s[..(|s| + 1) / 2] && b == s[(|s| + 1) / 2..]
    requires IsList(head, a) && IsList(secondHalf, b) && Apart(a, b)
    modifies s
    ensures IsList(r, TopDown(less, s))
    decreases |s|, 0
  {
    hide IsList, TopDown;
    TopDownIs(less, s, (|s| + 1) / 2);
    SortedApart(less, a, b);
    assert Within(a, s) && Within(b, s);
    var left := SortRecursive(less, head, a);
    var right := SortRecursive(less, secondHalf, b);
    assert Within(TopDown(less, a), s) && Within(TopDown(less, b), s);
    r := Merge(less, left, right, TopDown(less, a), TopDown(less, b));
  }

  class LinkedList<T(0, !new)> {
    var head: Node?<T>
    var tail: Node?<T>
    ghost var nodes: seq<Node<T>>

    ghost predicate Valid()
      reads this, nodes
    {
      IsList(head, nodes) && tail == LastOf(nodes)
    }

    /** SortLinkedListIterative: the same nodes, sorted by any strict weak order, with the last node as tail. */
    method SortIteratively(less: Less<T>)
      requires Valid()
      modifies this, nodes
      ensures Valid() && nodes == BottomUp(less, old(nodes), 1) && Permutation(nodes, old(nodes))
      ensures StrictWeak(less) ==> Sorted(less, nodes)
    {
      hide IsList;
      ghost var s := nodes;
      var h, t := SortIterative(less, head, tail, s);
      head, tail, nodes := h, t, BottomUp(less, s, 1);
      BottomUpKeeps(less, s, 1);
      if StrictWeak(less) {
        SingleRuns(less, s);
        BottomUpSorts(less, s, 1);
      }
    }

    /** SortLinkedList, the recursive sort; the tail is found afterwards. */
    method SortRecursively(less: Less<T>)
      requires Valid()
      modifies this, nodes
      ensures Valid() && nodes == TopDown(less, old(nodes)) && Permutation(nodes, old(nodes))
      ensures StrictWeak(less) ==> Sorted(less, nodes)
    {
      hide IsList;
      ghost var s := nodes;
      var h := SortRecursive(less, head, s);
      ghost var sorted := TopDown(less, s);
      HeadOfList(h, sorted);
      var t: Node?<T> := null;
      if h != null {
        t := LastFrom(h, h, sorted, 0);
      }
      head, tail, nodes := h, t, sorted;
      TopDownKeeps(less, s);
      if StrictWeak(less) {
        TopDownSorts(less, s);
      }
    }
  }
}
