/**
 When compaction preserves a replay exactly: what each entry that takes another off must meet, for every log
 that replays with every entry accepted; and the case of routes that name their services.
 */
module CompactionExact {
  import opened Wrappers
  import opened Resources
  import opened ChangeLogs
  import opened Compaction
  import opened CompactionReplay
  import opened CompactionLimits

  /**
   Merging update `a` of a route into update `b` loses nothing that `b` would have kept: `b` names a service
   and so starts afresh, or `a` brought no link that was not there before.
   */
  predicate MergesCleanly(before: Links, a: Spec, b: Spec) {
    || b.service != ""
    || (&& (a.service == "" || before.service == Some(a.service))
        && (if a.service != "" then Named(a) else before.modules + Named(a)) + Named(b) == before.modules + Named(b))
  }

  lemma MergesCleanlyIff(before: Links, a: Spec, b: Spec)
    ensures Relinked(Relinked(before, a), b) == Relinked(before, b) <==> MergesCleanly(before, a, b)
  {
  }

  /**
   What an entry must meet when it takes the add below it off the stack. A delete must be of the very resource
   that was added, and find it not live beneath that add. An add must add that resource too, and merge cleanly
   with the links beneath if it is a route; or the add below must have changed nothing.
   */
  ghost predicate Neutral(s: State, stack: seq<ChangeLog>, cl: ChangeLog) {
    var core := WithoutTrailingNoop(stack);
    core != [] && ChangesGraph(cl) && Replay(s, core[..|core| - 1]).Ok? ==>
      var top, below := core[|core| - 1], Replay(s, core[..|core| - 1]).value;
      && (Cancels(top, cl) ==> UndoesAdd(below, top, cl))
      && (Supersedes(top, cl) ==> MakesUp(below, top, cl))
  }

  predicate UndoesAdd(below: State, top: ChangeLog, cl: ChangeLog)
    requires ChangesGraph(top) && ChangesGraph(cl)
  {
    IdOf(top) == IdOf(cl) && IdOf(cl) !in below.live
  }

  predicate MakesUp(below: State, top: ChangeLog, cl: ChangeLog)
    requires ChangesGraph(top) && ChangesGraph(cl)
  {
    if IdOf(top) == IdOf(cl) then
      cl.cmd.resource.kind.Routes? ==> MergesCleanly(LinksOf(below, IdOf(cl)), ItemOf(top), ItemOf(cl))
    else Effect(below, OpOf(top)) == below
  }

  lemma CancelsNeutrally(s: State, a: ChangeLog, b: ChangeLog)
    requires Consistent(s) && Cancels(a, b)
    requires Apply(s, a).Ok? && Apply(Apply(s, a).value, b).Ok?
    ensures Ok(s) == Apply(Apply(s, a).value, b) <==> (ChangesGraph(b) ==> UndoesAdd(s, a, b))
  {
    if ChangesGraph(b) {
      if UndoesAdd(s, a, b) {
        AddThenDelete(s, a, b);
      } else {
        RemovedWasLive(s, OpOf(a), OpOf(b));
        assert IdOf(b) in s.live && IdOf(b) !in Apply(Apply(s, a).value, b).value.live;
      }
    }
  }

  /** What is removed was live, before the add too if it is not what was added. */
  lemma RemovedWasLive(s: State, a: Op, b: Op)
    requires a.Add? && b.Remove? && RemoveError(Effect(s, a), b.kind, b.name, b.namespace).None?
    ensures OpId(b) in Effect(s, a).live && (OpId(b) != OpId(a) ==> OpId(b) in s.live)
  {
  }

  lemma EffectsMerge(s: State, a: Op, b: Op)
    requires a.Add? && b.Add? && a.kind == b.kind && OpId(a) == OpId(b)
    ensures Effect(s, b) == Effect(Effect(s, a), b) <==>
      !b.kind.Routes? || MergesCleanly(LinksOf(s, OpId(b)), a.spec, b.spec)
  {
    var id := OpId(b);
    var t := Effect(Effect(s, a), b);
    assert t.live == Effect(s, b).live;
    if b.kind.Routes? {
      MergesCleanlyIff(LinksOf(s, id), a.spec, b.spec);
      assert t.links[id] == Relinked(Relinked(LinksOf(s, id), a.spec), b.spec);
      assert t.links == s.links[id := t.links[id]];
      assert Effect(s, b).links == s.links[id := Relinked(LinksOf(s, id), b.spec)];
    }
  }

  /** Of two adds of different resources, the second alone does the same exactly if the first does nothing. */
  lemma EffectsDiffer(s: State, a: Op, b: Op)
    requires a.Add? && b.Add? && a.kind == b.kind && OpId(a) != OpId(b)
    ensures Effect(s, b) == Effect(Effect(s, a), b) <==> Effect(s, a) == s
  {
    var id, t, u := OpId(a), Effect(Effect(s, a), b), Effect(s, b);
    if u == t {
      assert id in u.live && t.live[id] == a.spec == s.live[id];
      assert Effect(s, a).live == s.live;
      if a.kind.Routes? {
        assert id in u.links && t.links[id] == Effect(s, a).links[id] == s.links[id];
        assert Effect(s, a).links == s.links;
      }
    }
  }

  lemma SupersedesNeutrally(s: State, a: ChangeLog, b: ChangeLog)
    requires Supersedes(a, b)
    requires Apply(s, a).Ok? && Apply(Apply(s, a).value, b).Ok?
    ensures Apply(s, b) == Apply(Apply(s, a).value, b) <==> (ChangesGraph(b) ==> MakesUp(s, a, b))
  {
    if ChangesGraph(b) {
      if IdOf(a) == IdOf(b) {
        SecondAddStands(s, OpOf(a), OpOf(b));
        EffectsMerge(s, OpOf(a), OpOf(b));
      } else {
        EffectsDiffer(s, OpOf(a), OpOf(b));
      }
    }
  }

  lemma WithoutNoop(s: State, stack: seq<ChangeLog>)
    requires Normal(stack)
    ensures var core := WithoutTrailingNoop(stack);
      Normal(core) && (core == [] || !core[|core| - 1].cmd.Noop?) && Replay(s, core) == Replay(s, stack)
  {
    var core := WithoutTrailingNoop(stack);
    if core != stack {
      assert stack == core + [stack[|stack| - 1]];
      ReplaySnoc(s, core, stack[|stack| - 1]);
      NormalInit(stack);
    }
  }

  /** One entry: the compacted replay stays the same exactly if the entry is neutral. */
  lemma StepIff(s: State, stack: seq<ChangeLog>, prefix: seq<ChangeLog>, cl: ChangeLog)
    requires Consistent(s) && Normal(stack) && Replay(s, stack) == Replay(s, prefix) && Replay(s, prefix + [cl]).Ok?
    ensures Replay(s, Reduce(stack, cl)) == Replay(s, prefix + [cl]) <==> Neutral(s, stack, cl)
  {
    var core := WithoutTrailingNoop(stack);
    WithoutNoop(s, stack);
    ReplaySnoc(s, prefix, cl);
    assert Reduce(stack, cl) == Reduce(core, cl);
    if core == [] || !Redex(core[|core| - 1], cl) {
      ReplaySnoc(s, core, cl);
    } else {
      RedexIff(s, core, prefix, cl);
    }
  }

  lemma RedexIff(s: State, core: seq<ChangeLog>, prefix: seq<ChangeLog>, cl: ChangeLog)
    requires Consistent(s) && Normal(core) && Replay(s, core) == Replay(s, prefix) && Replay(s, prefix + [cl]).Ok?
    requires core != [] && !core[|core| - 1].cmd.Noop? && Redex(core[|core| - 1], cl)
    ensures Replay(s, Reduce(core, cl)) == Replay(s, prefix + [cl]) <==> Neutral(s, core, cl)
  {
    hide Consistent, UndoesAdd, MakesUp, Normal, Apply, Reduce, Neutral;
    var top, rest := core[|core| - 1], core[..|core| - 1];
    assert core == rest + [top];
    ReplaySnoc(s, prefix, cl);
    ReplaySnoc(s, rest, top);
    ReplayKeepsConsistent(s, rest);
    var t := Replay(s, rest).value;
    if Cancels(top, cl) {
      CancelPops(core, cl);
      CancelsNeutrally(t, top, cl);
      NeutralCancel(s, core, cl, t);
    } else {
      SupersedePushes(core, cl);
      ReplaySnoc(s, rest, cl);
      SupersedesNeutrally(t, top, cl);
      NeutralSupersede(s, core, cl, t);
    }
  }

  lemma NeutralCancel(s: State, core: seq<ChangeLog>, cl: ChangeLog, t: State)
    requires core != [] && !core[|core| - 1].cmd.Noop? && Cancels(core[|core| - 1], cl)
    requires Replay(s, core[..|core| - 1]) == Ok(t)
    ensures Neutral(s, core, cl) <==> (ChangesGraph(cl) ==> UndoesAdd(t, core[|core| - 1], cl))
  {
  }

  lemma NeutralSupersede(s: State, core: seq<ChangeLog>, cl: ChangeLog, t: State)
    requires core != [] && !core[|core| - 1].cmd.Noop? && Supersedes(core[|core| - 1], cl)
    requires Replay(s, core[..|core| - 1]) == Ok(t)
    ensures Neutral(s, core, cl) <==> (ChangesGraph(cl) ==> MakesUp(t, core[|core| - 1], cl))
  {
  }

  ghost predicate ReplaysAlike(s: State, logs: seq<ChangeLog>, n: nat)
    requires n <= |logs|
  {
    Replay(s, Survivors(logs[..n])) == Replay(s, logs[..n])
  }

  lemma PrefixIff(s: State, logs: seq<ChangeLog>, n: nat)
    requires Consistent(s) && Replay(s, logs).Ok?
    requires n < |logs| && ReplaysAlike(s, logs, n)
    ensures ReplaysAlike(s, logs, n + 1) <==> Neutral(s, Survivors(logs[..n]), logs[n])
  {
    hide Consistent, Neutral, Replay, Reduce, Normal, Survivors;
    var prefix, cl := logs[..n], logs[n];
    assert logs[..n + 1] == prefix + [cl];
    ReplayPrefix(s, logs, n + 1);
    SurvivorsSnoc(prefix, cl);
    SurvivorsAreNormal(prefix);
    StepIff(s, Survivors(prefix), prefix, cl);
  }

  lemma SurvivorsAreNormal(logs: seq<ChangeLog>)
    ensures Normal(Survivors(logs))
  {
    FoldIsNormal([], logs);
  }

  lemma {:induction false} NeutralReplaysAlike(s: State, logs: seq<ChangeLog>, n: nat)
    requires Consistent(s) && Replay(s, logs).Ok?
    requires n <= |logs| && forall k :: 0 <= k < n ==> Neutral(s, Survivors(logs[..k]), logs[k])
    ensures ReplaysAlike(s, logs, n)
  {
    if n == 0 {
      assert logs[..0] == [];
    } else {
      NeutralReplaysAlike(s, logs, n - 1);
      PrefixIff(s, logs, n - 1);
    }
  }

  /**
   For every log that replays with every entry accepted: at every point of it the compacted log replays with
   every entry accepted and ends in the very same state, links included, if and only if every entry is neutral.
   */
  lemma ReplayPreservedIff(s: State, logs: seq<ChangeLog>)
    requires Consistent(s) && Replay(s, logs).Ok?
    ensures (forall n :: 0 <= n <= |logs| ==> ReplaysAlike(s, logs, n)) <==>
      forall n :: 0 <= n < |logs| ==> Neutral(s, Survivors(logs[..n]), logs[n])
  {
    if forall n :: 0 <= n < |logs| ==> Neutral(s, Survivors(logs[..n]), logs[n]) {
      forall n | 0 <= n <= |logs| ensures ReplaysAlike(s, logs, n) { NeutralReplaysAlike(s, logs, n); }
    }
    if forall n :: 0 <= n <= |logs| ==> ReplaysAlike(s, logs, n) {
      forall n | 0 <= n < |logs| ensures Neutral(s, Survivors(logs[..n]), logs[n]) {
        assert ReplaysAlike(s, logs, n) && ReplaysAlike(s, logs, n + 1);
        PrefixIff(s, logs, n);
      }
    }
  }

  /** Each resource has a key of its own, in the log and in the map of what is live before it. */
  ghost predicate KeyedBy(s: State, m: map<LogKey, Spec>, filed: Filing, logs: seq<ChangeLog>) {
    OneToOne(filed) && (forall cl :: cl in logs ==> FiledBy(filed, cl)) && forall id :: Agree(s.live, m, filed, id)
  }

  /** The entry does not add a route that names no service. */
  predicate NamesService(cl: ChangeLog) {
    IsAdd(cl) && ChangesGraph(cl) && cl.cmd.resource.kind.Routes? ==> ItemOf(cl).service != ""
  }

  lemma SafeIsNeutral(s: State, m: map<LogKey, Spec>, filed: Filing, stack: seq<ChangeLog>, cl: ChangeLog)
    requires KeyedBy(s, m, filed, stack + [cl]) && ChangesGraph(cl) && NamesService(cl) && Replay(s, stack).Ok?
    ensures Neutral(s, stack, cl) <==> SafeCancel(m, stack, cl)
  {
    hide UndoesAdd, MakesUp, Described, Replay, IdOf, KeyOf;
    assert cl in stack + [cl] && forall x :: x in stack ==> x in stack + [cl];
    var core := WithoutTrailingNoop(stack);
    if core != [] {
      var rest := core[..|core| - 1];
      assert rest == stack[..|rest|] && core[|core| - 1] in stack;
      ReplayPrefix(s, stack, |rest|);
      ReplayIsDescribed(s, m, filed, rest, IdOf(cl));
      TopSafeIsNeutral(m, filed, Replay(s, rest).value, rest, core[|core| - 1], cl);
    }
  }

  lemma TopSafeIsNeutral(
    m: map<LogKey, Spec>, filed: Filing, below: State, rest: seq<ChangeLog>, top: ChangeLog, cl: ChangeLog)
    requires OneToOne(filed) && FiledBy(filed, top) && FiledBy(filed, cl) && ChangesGraph(cl) && NamesService(cl)
    requires Agree(below.live, Described(m, rest), filed, IdOf(cl))
    ensures Cancels(top, cl) ==> (UndoesAdd(below, top, cl) <==> KeyOf(cl) !in Described(m, rest))
    ensures Supersedes(top, cl) ==> MakesUp(below, top, cl)
  {
  }

  /** Where every route is added with a service, only the deletes matter. */
  lemma NamedServicesIff(s: State, m: map<LogKey, Spec>, filed: Filing, logs: seq<ChangeLog>)
    requires Consistent(s) && Replay(s, logs).Ok? && KeyedBy(s, m, filed, logs)
    requires forall cl :: cl in logs ==> NamesService(cl)
    ensures (forall n :: 0 <= n <= |logs| ==> ReplaysAlike(s, logs, n)) <==>
      forall n :: 0 <= n < |logs| && ChangesGraph(logs[n]) ==> SafeCancel(m, Survivors(logs[..n]), logs[n])
  {
    ReplayPreservedIff(s, logs);
    if forall n :: 0 <= n < |logs| && ChangesGraph(logs[n]) ==> SafeCancel(m, Survivors(logs[..n]), logs[n]) {
      forall n | 0 <= n <= |logs| ensures ReplaysAlike(s, logs, n) { SafeReplaysAlike(s, m, filed, logs, n); }
    }
    if forall n :: 0 <= n <= |logs| ==> ReplaysAlike(s, logs, n) {
      forall n | 0 <= n < |logs| && ChangesGraph(logs[n]) ensures SafeCancel(m, Survivors(logs[..n]), logs[n]) {
        assert Neutral(s, Survivors(logs[..n]), logs[n]) && ReplaysAlike(s, logs, n);
        PrefixSafeIsNeutral(s, m, filed, logs, n);
      }
    }
  }

  lemma PrefixSafeIsNeutral(s: State, m: map<LogKey, Spec>, filed: Filing, logs: seq<ChangeLog>, n: nat)
    requires Replay(s, logs).Ok? && KeyedBy(s, m, filed, logs)
    requires n < |logs| && ReplaysAlike(s, logs, n) && ChangesGraph(logs[n]) && NamesService(logs[n])
    ensures Neutral(s, Survivors(logs[..n]), logs[n]) <==> SafeCancel(m, Survivors(logs[..n]), logs[n])
  {
    hide Neutral, SafeCancel, FiledBy, Agree, NamesService, OneToOne, Replay;
    ReplayPrefix(s, logs, n);
    SurvivorsMembers(logs[..n]);
    SafeIsNeutral(s, m, filed, Survivors(logs[..n]), logs[n]);
  }

  lemma {:induction false} SafeReplaysAlike(s: State, m: map<LogKey, Spec>, filed: Filing, logs: seq<ChangeLog>, n: nat)
    requires Consistent(s) && Replay(s, logs).Ok? && KeyedBy(s, m, filed, logs)
    requires forall cl :: cl in logs ==> NamesService(cl)
    requires n <= |logs|
    requires forall k :: 0 <= k < n && ChangesGraph(logs[k]) ==> SafeCancel(m, Survivors(logs[..k]), logs[k])
    ensures ReplaysAlike(s, logs, n)
  {
    hide Consistent, SafeCancel, KeyedBy, NamesService;
    if n == 0 {
      assert logs[..0] == [];
    } else {
      SafeReplaysAlike(s, m, filed, logs, n - 1);
      if ChangesGraph(logs[n - 1]) {
        PrefixSafeIsNeutral(s, m, filed, logs, n - 1);
      } else {
        OutsideIsNeutral(s, Survivors(logs[..n - 1]), logs[n - 1]);
      }
      PrefixIff(s, logs, n - 1);
    }
  }

  lemma OutsideIsNeutral(s: State, stack: seq<ChangeLog>, cl: ChangeLog)
    requires !ChangesGraph(cl)
    ensures Neutral(s, stack, cl)
  {
  }
}
