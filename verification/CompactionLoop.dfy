/** The rescanning loop itself: a slice cut in place, a remove list, and a restart after every rewrite. */
module CompactionLoop {
  import opened Wrappers
  import opened Resources
  import opened ChangeLogs
  import opened Compaction

  function Triangle(n: nat): nat { n * (n + 1) / 2 }

  lemma TriangleStep(n: nat)
    requires n > 0
    ensures Triangle(n) == Triangle(n - 1) + n
  {
    assert n * (n + 1) == (n - 1) * n + 2 * n;
  }

  lemma {:induction false} TriangleMonotone(m: nat, n: nat)
    requires m <= n
    ensures Triangle(m) <= Triangle(n)
    decreases n
  {
    if m < n {
      TriangleStep(n);
      TriangleMonotone(m, n - 1);
    }
  }

  /** Keeps the first entry of every ID. */
  function UniqueById(logs: seq<ChangeLog>, seen: set<string>): seq<ChangeLog>
    decreases logs
  {
    if logs == [] then []
    else if logs[0].id in seen then UniqueById(logs[1..], seen)
    else [logs[0]] + UniqueById(logs[1..], seen + {logs[0].id})
  }

  lemma {:induction false} UniqueKeepsIds(logs: seq<ChangeLog>, seen: set<string>)
    ensures Ids(UniqueById(logs, seen)) == Ids(logs) - seen
    decreases logs
  {
    if logs != [] {
      var rest := logs[1..];
      assert logs == [logs[0]] + rest;
      assert Ids(logs) == {logs[0].id} + Ids(rest);
      if logs[0].id in seen {
        UniqueKeepsIds(rest, seen);
      } else {
        UniqueKeepsIds(rest, seen + {logs[0].id});
        var u := UniqueById(rest, seen + {logs[0].id});
        assert Ids([logs[0]] + u) == {logs[0].id} + Ids(u);
      }
    }
  }

  lemma {:induction false} UniqueIsDistinct(logs: seq<ChangeLog>, seen: set<string>)
    ensures DistinctIds(UniqueById(logs, seen)) && forall cl :: cl in UniqueById(logs, seen) ==> cl.id !in seen
    decreases logs
  {
    if logs != [] {
      if logs[0].id in seen {
        UniqueIsDistinct(logs[1..], seen);
      } else {
        UniqueIsDistinct(logs[1..], seen + {logs[0].id});
        var rest := UniqueById(logs[1..], seen + {logs[0].id});
        forall i | 0 <= i < |rest| ensures rest[i].id != logs[0].id { assert rest[i] in rest; }
      }
    }
  }

  lemma {:induction false} UniqueOfDistinct(logs: seq<ChangeLog>, seen: set<string>)
    requires DistinctIds(logs) && forall cl :: cl in logs ==> cl.id !in seen
    ensures UniqueById(logs, seen) == logs
    decreases logs
  {
    if logs != [] {
      forall cl | cl in logs[1..] ensures cl.id !in seen + {logs[0].id} {
        var i :| 0 <= i < |logs[1..]| && logs[1..][i] == cl;
        assert logs[i + 1] == cl;
      }
      UniqueOfDistinct(logs[1..], seen + {logs[0].id});
    }
  }

  /** State of the loop: what has been cut from `input` so far, and what is left of it. */
  ghost predicate Cut(input: seq<ChangeLog>, logs: seq<ChangeLog>, removed: seq<ChangeLog>) {
    && Survivors(logs) == Survivors(input)
    && CutEntries(input, logs, removed)
  }

  ghost predicate CutEntries(input: seq<ChangeLog>, logs: seq<ChangeLog>, removed: seq<ChangeLog>) {
    && multiset(logs) + multiset(removed) == multiset(input)
    && (DistinctIds(input) ==>
      DistinctIds(logs) && DistinctIds(removed) && logs == Without(input, Ids(removed)))
  }

  lemma DistinctAround(p: seq<ChangeLog>, a: ChangeLog, r: seq<ChangeLog>)
    requires DistinctIds(p + [a] + r)
    ensures forall cl :: cl in p || cl in r ==> cl.id !in {a.id}
  {
    var s := p + [a] + r;
    assert s[|p|] == a;
    forall cl | cl in p ensures cl.id !in {a.id} {
      var i :| 0 <= i < |p| && p[i] == cl;
      assert s[i] == cl;
    }
    forall cl | cl in r ensures cl.id !in {a.id} {
      var i :| 0 <= i < |r| && r[i] == cl;
      assert s[|p| + 1 + i] == cl;
    }
  }

  lemma CutOne(p: seq<ChangeLog>, a: ChangeLog, r: seq<ChangeLog>)
    requires DistinctIds(p + [a] + r)
    ensures Without(p + [a] + r, {a.id}) == p + r
  {
    DistinctAround(p, a, r);
    WithoutMiddle(p, a, r, {a.id});
  }

  lemma WithoutMiddle(p: seq<ChangeLog>, a: ChangeLog, r: seq<ChangeLog>, ids: set<string>)
    requires a.id in ids && forall cl :: cl in p || cl in r ==> cl.id !in ids
    ensures Without(p + [a] + r, ids) == p + r
  {
    WithoutJoin(p + [a], r, ids);
    WithoutJoin(p, [a], ids);
    WithoutNothing(p, ids);
    WithoutNothing(r, ids);
    assert Without([a], ids) == [] + Without([], ids);
    assert p + Without([a], ids) == p;
  }

  lemma IdsSnoc(removed: seq<ChangeLog>, a: ChangeLog)
    ensures Ids(removed + [a]) == Ids(removed) + {a.id}
  {
    forall x ensures x in Ids(removed + [a]) <==> x in Ids(removed) + {a.id} {
      if x in Ids(removed) {
        var cl :| cl in removed && cl.id == x;
        assert cl in removed + [a];
      }
      if x == a.id { assert a in removed + [a]; }
    }
  }

  lemma DistinctSnoc(removed: seq<ChangeLog>, a: ChangeLog)
    requires DistinctIds(removed) && a.id !in Ids(removed)
    ensures DistinctIds(removed + [a])
  {
    var s := removed + [a];
    forall i, j | 0 <= i < j < |s| ensures s[i].id != s[j].id {
      if j == |removed| { assert removed[i] in removed && s[i].id in Ids(removed); }
    }
  }

  /** Cutting one entry keeps the record straight. */
  lemma CutsFurther(input: seq<ChangeLog>, p: seq<ChangeLog>, a: ChangeLog, r: seq<ChangeLog>, removed: seq<ChangeLog>)
    requires CutEntries(input, p + [a] + r, removed)
    ensures CutEntries(input, p + r, removed + [a])
  {
    assert multiset(p + [a] + r) == multiset(p) + multiset{a} + multiset(r);
    assert multiset(removed + [a]) == multiset(removed) + multiset{a};
    if DistinctIds(input) {
      CutOne(p, a, r);
      WithoutTwice(input, Ids(removed), {a.id});
      IdsSnoc(removed, a);
      WithoutKeepsDistinct(p + [a] + r, {a.id});
      WithoutKeepsDistinct(input, Ids(removed));
      assert a in p + [a] + r;
      DistinctSnoc(removed, a);
    }
  }

  lemma Around(logs: seq<ChangeLog>, i: nat)
    requires 0 < i < |logs|
    ensures logs == logs[..i - 1] + [logs[i - 1]] + [logs[i]] + logs[i + 1..]
    ensures logs[..i - 1] + [logs[i]] + logs[i + 1..] == logs[..i - 1] + logs[i..]
    ensures logs[..i] == logs[..i - 1] + [logs[i - 1]]
  {
  }

  /** A rewrite that drops the earlier entry of the pair at i - 1, i. */
  lemma DropEarlier(input: seq<ChangeLog>, logs: seq<ChangeLog>, removed: seq<ChangeLog>, i: nat)
    requires Cut(input, logs, removed) && 0 < i < |logs| && Normal(logs[..i])
    requires Redex(logs[i - 1], logs[i]) && !Cancels(logs[i - 1], logs[i])
    ensures Cut(input, logs[..i - 1] + logs[i..], removed + [logs[i - 1]])
  {
    var p, a, b, r := logs[..i - 1], logs[i - 1], logs[i], logs[i + 1..];
    Around(logs, i);
    RewriteKeepsSurvivors(p, a, b, r);
    assert logs == p + [a] + logs[i..];
    CutsFurther(input, p, a, logs[i..], removed);
  }

  /** A rewrite that drops both entries of the pair at i - 1, i. */
  lemma DropBoth(input: seq<ChangeLog>, logs: seq<ChangeLog>, removed: seq<ChangeLog>, i: nat)
    requires Cut(input, logs, removed) && 0 < i < |logs| && Normal(logs[..i])
    requires Cancels(logs[i - 1], logs[i])
    ensures Cut(input, logs[..i - 1] + logs[i + 1..], removed + [logs[i - 1], logs[i]])
  {
    var p, a, b, r := logs[..i - 1], logs[i - 1], logs[i], logs[i + 1..];
    Around(logs, i);
    RewriteKeepsSurvivors(p, a, b, r);
    assert p + [] + r == p + r;
    assert logs == p + [a] + logs[i..];
    CutsFurther(input, p, a, logs[i..], removed);
    assert p + logs[i..] == p + [b] + r;
    CutsFurther(input, p, b, r, removed + [a]);
    assert removed + [a] + [b] == removed + [a, b];
  }

  /** The log after the rewrite of its first redex, the pair at i - 1, i. */
  ghost predicate RewrittenAt(logs: seq<ChangeLog>, i: nat, rewritten: seq<ChangeLog>)
    requires 0 < i < |logs|
  {
    && Normal(logs[..i]) && Redex(logs[i - 1], logs[i])
    && rewritten == logs[..i - 1] + Kept(logs[i - 1], logs[i]) + logs[i + 1..]
  }

  /** Both entries are commands on the same resource kind, name and namespace, and the first is an add. */
  predicate AddThenSame(a: ChangeLog, b: ChangeLog) {
    && a.cmd.Command? && b.cmd.Command? && a.cmd.action == AddAction && a.cmd.resource == b.cmd.resource
    && a.name == b.name && a.namespace == b.namespace
  }

  /** No noop has an entry after it, and no add is directly followed by another command of the same key. */
  ghost predicate Compacted(logs: seq<ChangeLog>) {
    && (forall i :: 0 <= i < |logs| - 1 ==> logs[i].cmd != Noop)
    && forall i :: 0 <= i < |logs| - 1 ==> !AddThenSame(logs[i], logs[i + 1])
  }

  lemma NormalMeans(logs: seq<ChangeLog>)
    ensures Normal(logs) <==> Compacted(logs)
  {
    if Normal(logs) {
      forall i | 0 <= i < |logs| - 1 ensures logs[i].cmd != Noop && !AddThenSame(logs[i], logs[i + 1]) {
        assert !Redex(logs[i], logs[i + 1]);
      }
    }
  }

  lemma FirstBad(logs: seq<ChangeLog>, i: nat)
    requires 0 < i < |logs| && Redex(logs[i - 1], logs[i])
    ensures !Compacted(logs) && (logs[i - 1].cmd == Noop || AddThenSame(logs[i - 1], logs[i]))
  {
    assert logs[i - 1 + 1] == logs[i];
  }

  /** What a scan does with the pair at i - 1, i, the first that is not as it should be. */
  ghost predicate Rewrites(
    logs0: seq<ChangeLog>, removed0: seq<ChangeLog>, i: nat, logs: seq<ChangeLog>, removed: seq<ChangeLog>)
    requires 0 < i < |logs0|
  {
    var a, b := logs0[i - 1], logs0[i];
    && Compacted(logs0[..i])
    && (a.cmd == Noop || AddThenSame(a, b))
    && (a.cmd != Noop && b.cmd.action == DeleteAction ==>
      logs == logs0[..i - 1] + logs0[i + 1..] && removed == removed0 + [a, b])
    && (a.cmd == Noop || b.cmd.action == AddAction ==>
      logs == logs0[..i - 1] + logs0[i..] && removed == removed0 + [a])
  }

  /** One scan: up to the first rewrite, which it makes, or to the end. */
  method Scan(ghost input: seq<ChangeLog>, logs0: seq<ChangeLog>, removeList0: seq<ChangeLog>)
    returns (logs: seq<ChangeLog>, removeList: seq<ChangeLog>, iterations: nat, restart: bool)
    requires Cut(input, logs0, removeList0)
    ensures Cut(input, logs, removeList)
    ensures restart ==> |logs| < |logs0|
    ensures restart ==> exists i :: 0 < i < |logs0| && RewrittenAt(logs0, i, logs)
    ensures restart ==> exists i :: 0 < i < |logs0| && Rewrites(logs0, removeList0, i, logs, removeList)
    ensures restart <==> !Compacted(logs0)
    ensures !restart ==> logs == logs0 && Normal(logs)
    ensures iterations <= |logs0|
  {
    hide Cut;
    NormalMeans(logs0);
    logs, removeList, iterations, restart := logs0, removeList0, 0, false;
    var prevLog: Option<ChangeLog> := None;
    var i := 0;
    while i < |logs|
      invariant 0 <= i <= |logs| && logs == logs0 && removeList == removeList0 && iterations == i && !restart
      invariant prevLog == if i == 0 then None else Some(logs[i - 1])
      invariant Normal(logs[..i])
    {
      iterations := iterations + 1;
      var curLog := logs[i];
      if prevLog.Some? {
        var prev := prevLog.value;
        if prev.cmd.Noop? {
          DropEarlier(input, logs, removeList, i);
          removeList := removeList + [prev];
          logs := logs[..i - 1] + logs[i..];
          restart := true;
          assert RewrittenAt(logs0, i, logs);
          NormalMeans(logs0[..i]);
          FirstBad(logs0, i);
          assert Rewrites(logs0, removeList0, i, logs, removeList);
          return;
        }
        if Cancels(prev, curLog) {
          DropBoth(input, logs, removeList, i);
          removeList := removeList + [prev, curLog];
          logs := logs[..i - 1] + logs[i + 1..];
          restart := true;
          assert RewrittenAt(logs0, i, logs);
          NormalMeans(logs0[..i]);
          FirstBad(logs0, i);
          assert Rewrites(logs0, removeList0, i, logs, removeList);
          return;
        }
        if Supersedes(prev, curLog) {
          DropEarlier(input, logs, removeList, i);
          removeList := removeList + [prev];
          logs := logs[..i - 1] + logs[i..];
          restart := true;
          assert RewrittenAt(logs0, i, logs);
          NormalMeans(logs0[..i]);
          FirstBad(logs0, i);
          assert Rewrites(logs0, removeList0, i, logs, removeList);
          return;
        }
      }
      prevLog := Some(curLog);
      i := i + 1;
    }
    assert logs[..i] == logs;
  }

  lemma NothingCut(input: seq<ChangeLog>)
    ensures Cut(input, input, [])
  {
    WithoutNothing(input, Ids([]));
  }

  lemma ScanPaid(passed: nat, len: nat, left: nat)
    requires passed <= len
    ensures passed <= Triangle(len)
    ensures left < len ==> passed + Triangle(left) <= Triangle(len)
  {
    if len > 0 { TriangleStep(len); }
    if left < len { TriangleMonotone(left, len - 1); }
  }

  lemma RemovedAreInput(input: seq<ChangeLog>, logs: seq<ChangeLog>, removed: seq<ChangeLog>)
    requires multiset(logs) + multiset(removed) == multiset(input)
    ensures Ids(removed) <= Ids(input)
  {
    forall cl | cl in removed ensures cl in input {
      assert cl in multiset(removed);
      assert cl in multiset(input);
    }
  }

  lemma LeftAreInput(input: seq<ChangeLog>, logs: seq<ChangeLog>, removed: seq<ChangeLog>)
    requires Cut(input, logs, removed)
    ensures forall cl :: cl in logs ==> cl in input
  {
    forall cl | cl in logs ensures cl in input {
      assert cl in multiset(logs);
      assert cl in multiset(input);
    }
  }

  /** No rewrite is left to make: what the loop leaves, and the list it hands back. */
  lemma Finished(input: seq<ChangeLog>, logs: seq<ChangeLog>, removed: seq<ChangeLog>)
    requires Cut(input, logs, removed) && Normal(logs)
    ensures logs == Survivors(input)
    ensures Ids(UniqueById(removed, {})) == Ids(removed) <= Ids(input)
    ensures DistinctIds(input) ==> UniqueById(removed, {}) == removed
  {
    NormalSurvives(logs);
    RemovedAreInput(input, logs, removed);
    UniqueKeepsIds(removed, {});
    if DistinctIds(input) {
      UniqueOfDistinct(removed, {});
    }
  }

  /**
   The compaction of a log: scans until one makes no rewrite. Beside the remove list, the two locals
   that the code logs or drops are returned: what is left of the slice and the iteration count.
   */
  method CompactChangeLogsRemoveList(input: seq<ChangeLog>)
    returns (removeList: seq<ChangeLog>, logs: seq<ChangeLog>, iterations: nat)
    ensures logs == Survivors(input) && Normal(logs)
    ensures forall i :: 0 <= i < |logs| - 1 ==> logs[i].cmd != Noop
    ensures forall i :: 0 <= i < |logs| - 1 ==>
      !(&& logs[i].cmd.Command? && logs[i + 1].cmd.Command? && logs[i].cmd.action == AddAction
        && logs[i].cmd.resource == logs[i + 1].cmd.resource
        && logs[i].name == logs[i + 1].name && logs[i].namespace == logs[i + 1].namespace)
    ensures forall cl :: cl in logs ==> cl in input
    ensures iterations <= |input| * (|input| + 1) / 2
    ensures Ids(removeList) <= Ids(input) && DistinctIds(removeList)
    ensures DistinctIds(input) ==>
      && logs == Without(input, Ids(removeList))
      && multiset(logs) + multiset(removeList) == multiset(input)
  {
    logs, removeList, iterations := input, [], 0;
    NothingCut(input);
    var restart := true;
    while restart
      invariant |logs| <= |input| && Cut(input, logs, removeList)
      invariant restart ==> iterations + Triangle(|logs|) <= Triangle(|input|)
      invariant !restart ==> iterations <= Triangle(|input|) && Normal(logs)
      decreases |logs|, restart
    {
      ghost var len := |logs|;
      var passed;
      logs, removeList, passed, restart := Scan(input, logs, removeList);
      ScanPaid(passed, len, |logs|);
      iterations := iterations + passed;
    }
    Finished(input, logs, removeList);
    NormalMeans(logs);
    LeftAreInput(input, logs, removeList);
    UniqueIsDistinct(removeList, {});
    removeList := UniqueById(removeList, {});
  }

  /** A log that does not end in a delete is never compacted to nothing. */
  lemma SomethingSurvives(logs: seq<ChangeLog>)
    requires logs != [] && !IsDelete(logs[|logs| - 1])
    ensures Survivors(logs) != []
  {
    var init, last := logs[..|logs| - 1], logs[|logs| - 1];
    assert logs == init + [last];
    SurvivorsSnoc(init, last);
    ReducePushes(Survivors(init), last);
  }

  lemma {:induction false} ReducePushes(stack: seq<ChangeLog>, cl: ChangeLog)
    requires !IsDelete(cl)
    ensures Reduce(stack, cl) != []
  {
    if stack != [] {
      ReducePushes(stack[..|stack| - 1], cl);
    }
  }

  lemma {:induction false} WithoutIsShorter(logs: seq<ChangeLog>, ids: set<string>)
    ensures |Without(logs, ids)| <= |logs|
  {
    if logs != [] {
      WithoutIsShorter(logs[1..], ids);
    }
  }

  lemma SurvivorsAreCompacted(logs: seq<ChangeLog>)
    ensures Compacted(Survivors(logs))
  {
    FoldIsNormal([], logs);
    NormalMeans(Survivors(logs));
  }

  /**
   compactChangeLogs on the stored log. The remove list is deleted by ID, entry by entry in a transaction; the
   deletion given by `failsAt`, if any, fails. The file store then rolls back, the in-memory store does not. The
   number removed is reported as the length of the log, which is right only if nothing is left.
   */
  method CompactChangeLogs(stored: seq<ChangeLog>, failsAt: Option<nat>, rollsBack: bool)
    returns (removed: Option<nat>, removeList: seq<ChangeLog>, left: seq<ChangeLog>)
    ensures removed.None? <==> failsAt.Some? && failsAt.value < |removeList|
    ensures removed.Some? ==> left == Without(stored, Ids(removeList))
    ensures removed.Some? ==> |left| <= |stored| && (removed == Some(|stored| - |left|) <==> left == [])
    ensures removed.Some? && DistinctIds(stored) ==> left == Survivors(stored) && Compacted(left)
    ensures removed.None? ==> left == if rollsBack then stored else Without(stored, Ids(removeList[..failsAt.value]))
  {
    hide Normal, Survivors, Without, DistinctIds;
    var list, _, _ := CompactChangeLogsRemoveList(stored);
    SurvivorsAreCompacted(stored);
    removeList, left := list, stored;
    WithoutNothing(stored, Ids([]));
    for i := 0 to |removeList|
      invariant left == Without(stored, Ids(removeList[..i]))
      invariant failsAt.Some? ==> i <= failsAt.value
    {
      if failsAt == Some(i) {
        return None, removeList, if rollsBack then stored else left;
      }
      left := Without(left, {removeList[i].id});
      WithoutTwice(stored, Ids(removeList[..i]), {removeList[i].id});
      IdsSnoc(removeList[..i], removeList[i]);
      assert removeList[..i + 1] == removeList[..i] + [removeList[i]];
    }
    assert removeList[..|removeList|] == removeList;
    WithoutIsShorter(stored, Ids(removeList));
    removed := Some(|stored|);
  }

  /** Not rolled back, half a cancelled pair can be left: here the delete alone, which does not replay. */
  lemma HalfCutIsRefused(add: ChangeLog, delete: ChangeLog)
    requires Cancels(add, delete) && add.id != delete.id && ChangesGraph(delete)
    ensures Survivors([add, delete]) == [] && Without([add, delete], {add.id}) == [delete]
    ensures Replay(EmptyState, [delete]).Err?
  {
    var logs := [add, delete];
    assert logs == [add] + [delete];
    SurvivorsSnoc([add], delete);
    NormalSurvives([add]);
    CutOne([], add, [delete]);
    assert [] + [add] + [delete] == logs && [] + [delete] == [delete];
    ReplaySnoc(EmptyState, [], delete);
  }
}
