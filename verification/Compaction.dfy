/**
 Change-log compaction. The code rescans the log from the start after every rewrite; here the same
 rules run once, left to right, on a stack, and the rescanning loop is proved to compute that.
 */
module Compaction {
  import opened ChangeLogs

  /** Rule 1: an add directly followed by a delete of the same key. */
  predicate Cancels(a: ChangeLog, b: ChangeLog) {
    IsAdd(a) && IsDelete(b) && KeyOf(a) == KeyOf(b)
  }

  /** Rule 2: an add directly followed by an add of the same key. */
  predicate Supersedes(a: ChangeLog, b: ChangeLog) {
    IsAdd(a) && IsAdd(b) && KeyOf(a) == KeyOf(b)
  }

  /** Some rule applies to the adjacent pair. */
  predicate Redex(a: ChangeLog, b: ChangeLog) {
    a.cmd.Noop? || Cancels(a, b) || Supersedes(a, b)
  }

  ghost predicate Normal(s: seq<ChangeLog>) {
    forall i :: 0 <= i < |s| - 1 ==> !Redex(s[i], s[i + 1])
  }

  /** Adds one entry to a stack of survivors. */
  function Reduce(stack: seq<ChangeLog>, cl: ChangeLog): seq<ChangeLog> {
    if stack == [] then [cl]
    else
      var top, rest := stack[|stack| - 1], stack[..|stack| - 1];
      if Cancels(top, cl) then rest
      else if Redex(top, cl) then Reduce(rest, cl)
      else stack + [cl]
  }

  function Fold(stack: seq<ChangeLog>, logs: seq<ChangeLog>): seq<ChangeLog>
    decreases logs
  {
    if logs == [] then stack else Fold(Reduce(stack, logs[0]), logs[1..])
  }

  /** What compaction leaves of a log. */
  function Survivors(logs: seq<ChangeLog>): seq<ChangeLog> { Fold([], logs) }

  lemma {:induction false} FoldJoin(stack: seq<ChangeLog>, a: seq<ChangeLog>, b: seq<ChangeLog>)
    ensures Fold(stack, a + b) == Fold(Fold(stack, a), b)
    decreases a
  {
    if a == [] {
      assert a + b == b;
    } else {
      assert (a + b)[1..] == a[1..] + b;
      FoldJoin(Reduce(stack, a[0]), a[1..], b);
    }
  }

  lemma SurvivorsSnoc(logs: seq<ChangeLog>, cl: ChangeLog)
    ensures Survivors(logs + [cl]) == Reduce(Survivors(logs), cl)
  {
    FoldJoin([], logs, [cl]);
    assert Fold(Reduce(Survivors(logs), cl), []) == Reduce(Survivors(logs), cl);
  }

  lemma {:induction false} ReduceIsNormal(stack: seq<ChangeLog>, cl: ChangeLog)
    requires Normal(stack)
    ensures Normal(Reduce(stack, cl))
  {
    if stack != [] {
      ReduceIsNormal(stack[..|stack| - 1], cl);
    }
  }

  lemma {:induction false} FoldIsNormal(stack: seq<ChangeLog>, logs: seq<ChangeLog>)
    requires Normal(stack)
    ensures Normal(Fold(stack, logs))
    decreases logs
  {
    if logs != [] {
      ReduceIsNormal(stack, logs[0]);
      FoldIsNormal(Reduce(stack, logs[0]), logs[1..]);
    }
  }

  lemma {:induction false} FoldOntoNormal(stack: seq<ChangeLog>, logs: seq<ChangeLog>)
    requires Normal(stack + logs)
    ensures Fold(stack, logs) == stack + logs
    decreases logs
  {
    if logs == [] {
      assert stack + logs == stack;
    } else {
      var s := stack + logs;
      if stack != [] {
        var i := |stack| - 1;
        assert !Redex(s[i], s[i + 1]);
        assert s[i] == stack[i] && s[i + 1] == logs[0];
      }
      assert Reduce(stack, logs[0]) == stack + [logs[0]];
      assert (stack + [logs[0]]) + logs[1..] == s;
      FoldOntoNormal(stack + [logs[0]], logs[1..]);
    }
  }

  /** A log to which no rule applies is its own compaction. */
  lemma NormalSurvives(logs: seq<ChangeLog>)
    requires Normal(logs)
    ensures Survivors(logs) == logs
  {
    assert [] + logs == logs;
    FoldOntoNormal([], logs);
  }

  /** Compacting twice removes nothing more. */
  lemma CompactionIsIdempotent(logs: seq<ChangeLog>)
    ensures Normal(Survivors(logs)) && Survivors(Survivors(logs)) == Survivors(logs)
  {
    FoldIsNormal([], logs);
    NormalSurvives(Survivors(logs));
  }

  /** `a` is `b` with some entries left out. */
  predicate Subsequence(a: seq<ChangeLog>, b: seq<ChangeLog>)
    decreases b
  {
    if a == [] then true
    else if b == [] then false
    else
      var rest := b[..|b| - 1];
      Subsequence(a, rest) || (a[|a| - 1] == b[|b| - 1] && Subsequence(a[..|a| - 1], rest))
  }

  lemma {:induction false} SubsequenceFront(a: seq<ChangeLog>, b: seq<ChangeLog>, k: nat)
    requires Subsequence(a, b) && k <= |a|
    ensures Subsequence(a[..k], b)
    decreases b
  {
    if a != [] && k < |a| {
      var init, rest := a[..|a| - 1], b[..|b| - 1];
      assert a[..k] == init[..k];
      if Subsequence(a, rest) {
        SubsequenceFront(a, rest, k);
      } else {
        SubsequenceFront(init, rest, k);
      }
    } else {
      assert a[..k] == a;
    }
  }

  /** Adding an entry cuts the stack back to some length, and may put the entry on top. */
  lemma {:induction false} ReduceCutsBack(stack: seq<ChangeLog>, cl: ChangeLog) returns (k: nat)
    ensures k <= |stack| && (Reduce(stack, cl) == stack[..k] || Reduce(stack, cl) == stack[..k] + [cl])
  {
    if stack == [] {
      k := 0;
    } else {
      var top, rest := stack[|stack| - 1], stack[..|stack| - 1];
      if Cancels(top, cl) {
        k := |rest|;
      } else if Redex(top, cl) {
        k := ReduceCutsBack(rest, cl);
        assert rest[..k] == stack[..k];
      } else {
        k := |stack|;
        assert stack[..k] == stack;
      }
    }
  }

  /** Compaction only ever leaves entries out. */
  lemma {:induction false} SurvivorsAreSubsequence(logs: seq<ChangeLog>)
    ensures Subsequence(Survivors(logs), logs)
  {
    if logs != [] {
      var init, last := logs[..|logs| - 1], logs[|logs| - 1];
      SurvivorsAreSubsequence(init);
      assert logs == init + [last];
      SurvivorsSnoc(init, last);
      var k := ReduceCutsBack(Survivors(init), last);
      SubsequenceFront(Survivors(init), init, k);
      var front := Survivors(init)[..k];
      assert (front + [last])[..|front|] == front;
    }
  }

  /** What a rewrite keeps of its pair. */
  function Kept(a: ChangeLog, b: ChangeLog): seq<ChangeLog>
    requires Redex(a, b)
  {
    if Cancels(a, b) then [] else [b]
  }

  /** Rewriting the first redex of a log does not change its compaction. */
  lemma RewriteKeepsSurvivors(p: seq<ChangeLog>, a: ChangeLog, b: ChangeLog, r: seq<ChangeLog>)
    requires Normal(p + [a]) && Redex(a, b)
    ensures Survivors(p + [a] + [b] + r) == Survivors(p + Kept(a, b) + r)
  {
    var q := p + [a];
    assert Normal(p) by { assert forall i :: 0 <= i < |p| ==> q[i] == p[i]; }
    NormalSurvives(q);
    NormalSurvives(p);
    SurvivorsSnoc(q, b);
    assert q[..|q| - 1] == p && q[|q| - 1] == a;
    FoldJoin([], q + [b], r);
    FoldJoin([], p + Kept(a, b), r);
    if Cancels(a, b) {
      assert p + Kept(a, b) == p;
    } else {
      SurvivorsSnoc(p, b);
    }
  }

  ghost predicate DistinctIds(logs: seq<ChangeLog>) {
    forall i, j :: 0 <= i < j < |logs| ==> logs[i].id != logs[j].id
  }

  function Ids(logs: seq<ChangeLog>): set<string> { set cl | cl in logs :: cl.id }

  /** The log with the listed entries deleted by ID, as the store deletes them. */
  function Without(logs: seq<ChangeLog>, ids: set<string>): seq<ChangeLog> {
    if logs == [] then []
    else (if logs[0].id in ids then [] else [logs[0]]) + Without(logs[1..], ids)
  }

  lemma {:induction false} WithoutJoin(a: seq<ChangeLog>, b: seq<ChangeLog>, ids: set<string>)
    ensures Without(a + b, ids) == Without(a, ids) + Without(b, ids)
  {
    if a == [] {
      assert a + b == b;
    } else {
      assert (a + b)[1..] == a[1..] + b;
      WithoutJoin(a[1..], b, ids);
    }
  }

  lemma {:induction false} WithoutTwice(logs: seq<ChangeLog>, ids: set<string>, more: set<string>)
    ensures Without(Without(logs, ids), more) == Without(logs, ids + more)
  {
    if logs != [] {
      WithoutTwice(logs[1..], ids, more);
      WithoutJoin(if logs[0].id in ids then [] else [logs[0]], Without(logs[1..], ids), more);
    }
  }

  lemma {:induction false} WithoutNothing(logs: seq<ChangeLog>, ids: set<string>)
    requires forall cl :: cl in logs ==> cl.id !in ids
    ensures Without(logs, ids) == logs
  {
    if logs != [] {
      WithoutNothing(logs[1..], ids);
    }
  }

  lemma {:induction false} WithoutKeepsDistinct(logs: seq<ChangeLog>, ids: set<string>)
    requires DistinctIds(logs)
    ensures DistinctIds(Without(logs, ids))
    ensures forall cl :: cl in Without(logs, ids) ==> cl in logs && cl.id !in ids
  {
    if logs != [] {
      WithoutKeepsDistinct(logs[1..], ids);
      var rest := Without(logs[1..], ids);
      forall cl | cl in rest ensures cl.id != logs[0].id {
        assert cl in logs[1..];
        var j :| 0 <= j < |logs[1..]| && logs[1..][j] == cl;
        assert logs[j + 1] == cl;
      }
    }
  }
}
