/** Compaction judged at the end of the log alone: what the survivors describe, and when they are accepted. */
module CompactionEnd {
  import opened Wrappers
  import opened Resources
  import opened ChangeLogs
  import opened Compaction
  import opened CompactionLimits
  import opened CompactionReplay
  import CompactionExact

  /** The entry is a delete, and the last command for its key. */
  ghost predicate LastDelete(logs: seq<ChangeLog>, n: nat)
    requires n < |logs|
  {
    IsDelete(logs[n]) && forall k :: n < k < |logs| && logs[k].cmd.Command? ==> KeyOf(logs[k]) != KeyOf(logs[n])
  }

  ghost predicate SameAtKey(m: map<LogKey, Spec>, m': map<LogKey, Spec>, key: LogKey) {
    (key in m <==> key in m') && (key in m ==> m[key] == m'[key])
  }

  lemma SameEverywhere(m: map<LogKey, Spec>, m': map<LogKey, Spec>)
    requires forall key :: SameAtKey(m, m', key)
    ensures m == m'
  {
    forall key ensures key in m <==> key in m' { assert SameAtKey(m, m', key); }
    forall key | key in m ensures m[key] == m'[key] { assert SameAtKey(m, m', key); }
    assert m.Keys == m'.Keys;
  }

  /** The last command for a key decides what the log describes there. */
  lemma {:induction false} DescribedAt(m: map<LogKey, Spec>, logs: seq<ChangeLog>, key: LogKey)
    ensures LastFor(logs, key).None? ==> SameAtKey(Described(m, logs), m, key)
    ensures LastFor(logs, key).Some? ==>
      var last := LastFor(logs, key).value;
      && last.cmd.Command? && KeyOf(last) == key && (key in Described(m, logs) <==> IsAdd(last))
      && (IsAdd(last) ==> Described(m, logs)[key] == ItemOf(last))
  {
    if logs != [] {
      DescribedAt(m, logs[..|logs| - 1], key);
    }
  }

  lemma {:induction false} LastForIsEntry(logs: seq<ChangeLog>, key: LogKey)
    ensures LastFor(logs, key).Some? <==> exists cl :: cl in logs && cl.cmd.Command? && KeyOf(cl) == key
  {
    if logs != [] {
      LastForIsEntry(logs[..|logs| - 1], key);
      assert logs == logs[..|logs| - 1] + [logs[|logs| - 1]];
    }
  }

  /** Where the last command for a key stands, if there is one. */
  lemma {:induction false} LastForAt(logs: seq<ChangeLog>, key: LogKey) returns (n: nat)
    requires LastFor(logs, key).Some?
    ensures n < |logs| && logs[n] == LastFor(logs, key).value && logs[n].cmd.Command? && KeyOf(logs[n]) == key
    ensures forall k :: n < k < |logs| && logs[k].cmd.Command? ==> KeyOf(logs[k]) != key
  {
    var last := logs[|logs| - 1];
    if last.cmd.Command? && KeyOf(last) == key {
      n := |logs| - 1;
    } else {
      n := LastForAt(logs[..|logs| - 1], key);
    }
  }

  /** Entries for other keys do not change what the survivors describe at this one. */
  lemma {:induction false} OthersLeaveKey(m: map<LogKey, Spec>, logs: seq<ChangeLog>, key: LogKey, n: nat, k: nat)
    requires n <= k <= |logs|
    requires forall j :: n <= j < k && logs[j].cmd.Command? ==> KeyOf(logs[j]) != key
    ensures SameAtKey(Described(m, Survivors(logs[..k])), Described(m, Survivors(logs[..n])), key)
  {
    if n < k {
      OthersLeaveKey(m, logs, key, n, k - 1);
      var prefix, cl := logs[..k - 1], logs[k - 1];
      assert logs[..k] == prefix + [cl];
      SurvivorsSnoc(prefix, cl);
      ReduceLastFor(Survivors(prefix), cl, key);
      DescribedAt(m, Survivors(prefix), key);
      DescribedAt(m, Survivors(logs[..k]), key);
    }
  }

  /** A key whose last command is a delete is gone from the survivors too exactly if that delete was safe. */
  lemma DeletedKeyIff(m: map<LogKey, Spec>, logs: seq<ChangeLog>, n: nat)
    requires n < |logs| && LastDelete(logs, n)
    ensures KeyOf(logs[n]) in Described(m, Survivors(logs)) <==> !SafeCancel(m, Survivors(logs[..n]), logs[n])
  {
    var prefix, cl := logs[..n], logs[n];
    assert logs[..n + 1] == prefix + [cl] && logs[..|logs|] == logs;
    SurvivorsSnoc(prefix, cl);
    FoldIsNormal([], prefix);
    ReduceDescribed(m, Survivors(prefix), cl);
    DescribedSnoc(m, Survivors(prefix), cl);
    OthersLeaveKey(m, logs, KeyOf(cl), n + 1, |logs|);
  }

  ghost predicate SafeAtKey(m: map<LogKey, Spec>, logs: seq<ChangeLog>, key: LogKey) {
    forall n :: 0 <= n < |logs| && LastDelete(logs, n) && KeyOf(logs[n]) == key ==>
      SafeCancel(m, Survivors(logs[..n]), logs[n])
  }

  /** Key by key: the survivors describe what the log describes unless the key's last command is an unsafe delete. */
  lemma KeyPreservedIff(m: map<LogKey, Spec>, logs: seq<ChangeLog>, key: LogKey)
    ensures SameAtKey(Described(m, Survivors(logs)), Described(m, logs), key) <==> SafeAtKey(m, logs, key)
  {
    DescribedAt(m, logs, key);
    DescribedAt(m, Survivors(logs), key);
    if LastFor(logs, key).None? {
      LastForIsEntry(logs, key);
      LastForIsEntry(Survivors(logs), key);
      SurvivorsMembers(logs);
    } else {
      var n := LastForAt(logs, key);
      if IsAdd(logs[n]) {
        LastAddSurvives(logs, key);
      } else {
        DeletedKeyIff(m, logs, n);
        assert forall k :: 0 <= k < |logs| && LastDelete(logs, k) && KeyOf(logs[k]) == key ==> k == n;
      }
    }
  }

  /** At the end of any log: the live map is preserved if and only if every key's last command, if a delete, is safe. */
  lemma EndPreservedIff(m: map<LogKey, Spec>, logs: seq<ChangeLog>)
    ensures Described(m, Survivors(logs)) == Described(m, logs) <==>
      forall n :: 0 <= n < |logs| && LastDelete(logs, n) ==> SafeCancel(m, Survivors(logs[..n]), logs[n])
  {
    var d, d' := Described(m, logs), Described(m, Survivors(logs));
    forall key ensures SameAtKey(d', d, key) <==> SafeAtKey(m, logs, key) { KeyPreservedIff(m, logs, key); }
    if d' == d {
      forall n | 0 <= n < |logs| && LastDelete(logs, n) ensures SafeCancel(m, Survivors(logs[..n]), logs[n]) {
        assert SameAtKey(d', d, KeyOf(logs[n])) && SafeAtKey(m, logs, KeyOf(logs[n]));
      }
    }
    if forall n :: 0 <= n < |logs| && LastDelete(logs, n) ==> SafeCancel(m, Survivors(logs[..n]), logs[n]) {
      forall key ensures SameAtKey(d', d, key) { assert SafeAtKey(m, logs, key); }
      SameEverywhere(d', d);
    }
  }

  lemma LiveAtIff(s: State, m: map<LogKey, Spec>, filed: Filing, logs: seq<ChangeLog>, id: Id)
    requires Replay(s, logs).Ok? && Replay(s, Survivors(logs)).Ok? && CompactionExact.KeyedBy(s, m, filed, logs)
    ensures var l, l' := Replay(s, logs).value.live, Replay(s, Survivors(logs)).value.live;
      (id in l <==> id in l') && (id in l ==> l[id] == l'[id]) <==> SafeAtKey(m, logs, filed(id))
  {
    SurvivorsMembers(logs);
    ReplayIsDescribed(s, m, filed, logs, id);
    ReplayIsDescribed(s, m, filed, Survivors(logs), id);
    KeyPreservedIff(m, logs, filed(id));
  }

  /** Every resource's last command, if it is a delete, is safe. */
  ghost predicate LastDeletesSafe(m: map<LogKey, Spec>, logs: seq<ChangeLog>) {
    forall n :: 0 <= n < |logs| && ChangesGraph(logs[n]) && LastDelete(logs, n) ==>
      SafeCancel(m, Survivors(logs[..n]), logs[n])
  }

  /**
   For a log whose survivors are accepted too: they end in the same live resources exactly if its last deletes
   are safe.
   */
  lemma AcceptedEndsAlikeIff(s: State, m: map<LogKey, Spec>, filed: Filing, logs: seq<ChangeLog>)
    requires Replay(s, logs).Ok? && Replay(s, Survivors(logs)).Ok? && CompactionExact.KeyedBy(s, m, filed, logs)
    ensures Replay(s, Survivors(logs)).value.live == Replay(s, logs).value.live <==> LastDeletesSafe(m, logs)
  {
    var l, l' := Replay(s, logs).value.live, Replay(s, Survivors(logs)).value.live;
    forall id ensures ((id in l <==> id in l') && (id in l ==> l[id] == l'[id])) <==> SafeAtKey(m, logs, filed(id)) {
      LiveAtIff(s, m, filed, logs, id);
    }
    if l' == l {
      forall n | 0 <= n < |logs| && ChangesGraph(logs[n]) && LastDelete(logs, n)
        ensures SafeCancel(m, Survivors(logs[..n]), logs[n])
      {
        assert logs[n] in logs && filed(IdOf(logs[n])) == KeyOf(logs[n]);
        assert SafeAtKey(m, logs, filed(IdOf(logs[n])));
      }
    }
    if LastDeletesSafe(m, logs) {
      forall id ensures (id in l <==> id in l') && (id in l ==> l[id] == l'[id]) {
        assert SafeAtKey(m, logs, filed(id));
      }
    }
  }

  /** The entry does not delete what others refer to: a namespace, a service or a module. */
  predicate KeepsOwners(cl: ChangeLog) {
    IsDelete(cl) && ChangesGraph(cl) ==>
      !cl.cmd.resource.kind.Namespaces? && !cl.cmd.resource.kind.Services? && !cl.cmd.resource.kind.Modules?
  }

  /** What is live in `o` is live in `c`. */
  ghost predicate Covers(c: State, o: State) { o.live.Keys <= c.live.Keys }

  /** With more resources live, adds stay allowed, and so do deletes of what nothing refers to. */
  lemma CoveringApplies(c: State, o: State, cl: ChangeLog)
    requires Covers(c, o) && KeepsOwners(cl) && Apply(o, cl).Ok?
    ensures Apply(c, cl).Ok? && Covers(Apply(c, cl).value, Apply(o, cl).value)
  {
    if ChangesGraph(cl) {
      NoMissingModule(c, ItemOf(cl).modules, ItemOf(cl).namespace);
      NoMissingModule(o, ItemOf(cl).modules, ItemOf(cl).namespace);
    }
  }

  /** Rule 1 on a covering stack. */
  lemma CancelCovers(s: State, core: seq<ChangeLog>, o: State, cl: ChangeLog)
    requires Replay(s, core).Ok? && Covers(Replay(s, core).value, o) && Apply(o, cl).Ok?
    requires core != [] && Cancels(core[|core| - 1], cl) && SameResource(core[|core| - 1], cl)
    ensures Replay(s, core[..|core| - 1]).Ok? && Covers(Replay(s, core[..|core| - 1]).value, Apply(o, cl).value)
  {
    hide Apply, Covers, SameResource;
    var top, rest := core[|core| - 1], core[..|core| - 1];
    assert core == rest + [top];
    ReplaySnoc(s, rest, top);
    PairCovers(Replay(s, rest).value, top, o, cl);
  }

  lemma PairCovers(t: State, top: ChangeLog, o: State, cl: ChangeLog)
    requires Cancels(top, cl) && SameResource(top, cl) && Apply(t, top).Ok? && Apply(o, cl).Ok?
    requires Covers(Apply(t, top).value, o)
    ensures Covers(t, Apply(o, cl).value)
  {
  }

  /** Rule 2 on a covering stack. */
  lemma SupersedeCovers(s: State, core: seq<ChangeLog>, o: State, cl: ChangeLog)
    requires Replay(s, core).Ok? && Covers(Replay(s, core).value, o) && Apply(o, cl).Ok?
    requires core != [] && Supersedes(core[|core| - 1], cl) && SameResource(core[|core| - 1], cl)
    ensures var r := Replay(s, core[..|core| - 1] + [cl]); r.Ok? && Covers(r.value, Apply(o, cl).value)
  {
    var top, rest := core[|core| - 1], core[..|core| - 1];
    assert core == rest + [top];
    ReplaySnoc(s, rest, top);
    ReplaySnoc(s, rest, cl);
    CoveringApplies(Replay(s, core).value, o, cl);
    if ChangesGraph(cl) {
      SecondAddStands(Replay(s, rest).value, OpOf(top), OpOf(cl));
    }
  }

  lemma StepCovers(s: State, stack: seq<ChangeLog>, o: State, cl: ChangeLog)
    requires Normal(stack) && Replay(s, stack).Ok? && Covers(Replay(s, stack).value, o) && Apply(o, cl).Ok?
    requires KeepsOwners(cl) && forall x :: x in stack && (Cancels(x, cl) || Supersedes(x, cl)) ==> SameResource(x, cl)
    ensures var r := Replay(s, Reduce(stack, cl)); r.Ok? && Covers(r.value, Apply(o, cl).value)
  {
    hide KeepsOwners, Covers, Apply, SameResource, Normal, Replay, Reduce, WithoutTrailingNoop;
    var core := WithoutTrailingNoop(stack);
    CompactionExact.WithoutNoop(s, stack);
    CoreReduces(stack, cl);
    if core == [] || !Redex(core[|core| - 1], cl) {
      ReduceAppends(core, cl);
      ReplaySnoc(s, core, cl);
      CoveringApplies(Replay(s, core).value, o, cl);
    } else if Cancels(core[|core| - 1], cl) {
      CancelPops(core, cl);
      CancelCovers(s, core, o, cl);
    } else {
      SupersedePushes(core, cl);
      SupersedeCovers(s, core, o, cl);
    }
  }

  lemma {:induction false} PrefixCovers(s: State, logs: seq<ChangeLog>, n: nat)
    requires Replay(s, logs).Ok? && KeysTellApart(logs) && (forall cl :: cl in logs ==> KeepsOwners(cl)) && n <= |logs|
    ensures Replay(s, logs[..n]).Ok?
    ensures var r := Replay(s, Survivors(logs[..n])); r.Ok? && Covers(r.value, Replay(s, logs[..n]).value)
  {
    ReplayPrefix(s, logs, n);
    if n == 0 {
      assert logs[..0] == [];
    } else {
      PrefixCovers(s, logs, n - 1);
      var prefix, cl := logs[..n - 1], logs[n - 1];
      assert logs[..n] == prefix + [cl] && cl in logs && forall x :: x in prefix ==> x in logs;
      ReplaySnoc(s, prefix, cl);
      SurvivorsSnoc(prefix, cl);
      SurvivorsMembers(prefix);
      CompactionExact.SurvivorsAreNormal(prefix);
      StepCovers(s, Survivors(prefix), Replay(s, prefix).value, cl);
    }
  }

  /**
   A log that deletes no namespace, service or module: however unsafe its other deletes and however its updates
   merge, the survivors are accepted and nothing live is lost; and nothing else is live exactly if its last
   deletes are safe.
   */
  lemma OwnersKeptEndsAlikeIff(s: State, m: map<LogKey, Spec>, filed: Filing, logs: seq<ChangeLog>)
    requires Replay(s, logs).Ok? && CompactionExact.KeyedBy(s, m, filed, logs)
    requires forall cl :: cl in logs ==> KeepsOwners(cl)
    ensures Replay(s, Survivors(logs)).Ok? && Covers(Replay(s, Survivors(logs)).value, Replay(s, logs).value)
    ensures Replay(s, Survivors(logs)).value.live == Replay(s, logs).value.live <==> LastDeletesSafe(m, logs)
  {
    assert KeysTellApart(logs);
    PrefixCovers(s, logs, |logs|);
    assert logs[..|logs|] == logs;
    AcceptedEndsAlikeIff(s, m, filed, logs);
  }
}
