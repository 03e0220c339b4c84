/** What compaction preserves of a replay when overwrites are adjacent and keys tell resources apart. */
module CompactionReplay {
  import opened Wrappers
  import opened Resources
  import opened ChangeLogs
  import opened Compaction

  /** Same live resources; no link in `c` that is missing in `o`. */
  ghost predicate Leaner(c: State, o: State) {
    && c.live == o.live && c.links.Keys == o.links.Keys
    && (forall id :: id in c.links ==> FewerLinks(c.links[id], o.links[id]))
  }

  ghost predicate FewerLinks(c: Links, o: Links) {
    (c.service.None? || c.service == o.service) && c.modules <= o.modules
  }

  /** With fewer stale links nothing that was accepted is refused. */
  lemma StepMonotone(c: State, o: State, op: Op)
    requires Leaner(c, o) && Step(o, op).Ok?
    ensures Step(c, op).Ok? && Leaner(Step(c, op).value, Step(o, op).value)
  {
    match op
    case Add(kind, spec) =>
      SameMissing(c, o, spec.modules, spec.namespace);
    case Remove(kind, name, namespace) =>
      if ServiceInUse(c, name, namespace) {
        var id :| id in c.links && id.namespace == namespace && c.links[id].service == Some(name);
        assert FewerLinks(c.links[id], o.links[id]);
        assert id in o.links && o.links[id].service == Some(name);
      }
      if ModuleInUse(c, name, namespace) {
        var id :| id in c.links && id.namespace == namespace && name in c.links[id].modules;
        assert FewerLinks(c.links[id], o.links[id]);
        assert id in o.links && name in o.links[id].modules;
      }
      assert forall k, n :: Populated(c, k, n) <==> Populated(o, k, n);
  }

  lemma {:induction false} SameMissing(c: State, o: State, names: seq<string>, namespace: string)
    requires c.live == o.live
    ensures FirstMissingModule(c, names, namespace) == FirstMissingModule(o, names, namespace)
  {
    if names != [] {
      SameMissing(c, o, names[1..], namespace);
    }
  }

  lemma LeanerIsTransitive(a: State, b: State, c: State)
    requires Leaner(a, b) && Leaner(b, c)
    ensures Leaner(a, c)
  {
    forall id | id in a.links ensures FewerLinks(a.links[id], c.links[id]) {
      assert FewerLinks(a.links[id], b.links[id]) && FewerLinks(b.links[id], c.links[id]);
    }
  }

  lemma ApplyMonotone(c: State, o: State, cl: ChangeLog)
    requires Leaner(c, o) && Apply(o, cl).Ok?
    ensures Apply(c, cl).Ok? && Leaner(Apply(c, cl).value, Apply(o, cl).value)
  {
    if ChangesGraph(cl) {
      StepMonotone(c, o, OpOf(cl));
    }
  }

  predicate SameResource(a: ChangeLog, b: ChangeLog) {
    ChangesGraph(a) && ChangesGraph(b) ==> IdOf(a) == IdOf(b)
  }

  /** Adding a resource that is not live and deleting it again changes nothing. */
  lemma AddThenDelete(s: State, a: ChangeLog, b: ChangeLog)
    requires Consistent(s) && Cancels(a, b)
    requires ChangesGraph(a) ==> IdOf(a) == IdOf(b) && IdOf(a) !in s.live
    requires Apply(s, a).Ok? && Apply(Apply(s, a).value, b).Ok?
    ensures Apply(Apply(s, a).value, b).value == s
  {
    if ChangesGraph(a) {
      EffectsCancel(s, OpOf(a), OpOf(b));
    }
  }

  lemma EffectsCancel(s: State, a: Op, b: Op)
    requires Consistent(s) && a.Add? && b.Remove? && a.kind == b.kind && OpId(a) == OpId(b) && OpId(a) !in s.live
    ensures Effect(Effect(s, a), b) == s
  {
    var id, t := OpId(a), Effect(s, a);
    assert id !in s.links;
    assert t.live - {id} == s.live;
    if a.kind.Routes? { assert t.links - {id} == s.links; }
  }

  /** Of two adds of a resource that is not live, the first leaves nothing but links behind. */
  lemma AddThenAdd(s: State, a: ChangeLog, b: ChangeLog)
    requires Consistent(s) && Supersedes(a, b)
    requires ChangesGraph(a) ==> IdOf(a) == IdOf(b) && IdOf(a) !in s.live
    requires Apply(s, a).Ok? && Apply(Apply(s, a).value, b).Ok?
    ensures Apply(s, b).Ok? && Leaner(Apply(s, b).value, Apply(Apply(s, a).value, b).value)
  {
    if ChangesGraph(a) {
      SecondAddStands(s, OpOf(a), OpOf(b));
      EffectsAbsorb(s, OpOf(a), OpOf(b));
    }
  }

  lemma SecondAddStands(s: State, a: Op, b: Op)
    requires a.Add? && b.Add? && a.kind == b.kind && OpId(a) == OpId(b)
    requires AddError(Effect(s, a), b.kind, b.spec).None?
    ensures AddError(s, b.kind, b.spec).None?
  {
    var t := Effect(s, a);
    NoMissingModule(s, b.spec.modules, b.spec.namespace);
    NoMissingModule(t, b.spec.modules, b.spec.namespace);
    assert forall i :: i in t.live && i.kind != a.kind ==> i in s.live;
  }

  lemma EffectsAbsorb(s: State, a: Op, b: Op)
    requires Consistent(s) && a.Add? && b.Add? && a.kind == b.kind && OpId(a) == OpId(b) && OpId(a) !in s.live
    ensures Leaner(Effect(s, b), Effect(Effect(s, a), b))
  {
    assert OpId(a) !in s.links;
  }

  /** The last entry that is not a noop. */
  function LastCommand(logs: seq<ChangeLog>): Option<ChangeLog> {
    if logs == [] then None
    else if logs[|logs| - 1].cmd.Noop? then LastCommand(logs[..|logs| - 1])
    else Some(logs[|logs| - 1])
  }

  /** An add of a resource that is already live only ever comes directly after another add of it, noops aside. */
  ghost predicate OverwritesAreAdjacent(s: State, logs: seq<ChangeLog>)
    requires Replay(s, logs).Ok?
  {
    forall n :: 0 <= n < |logs| ==> OverwriteIsAdjacent(s, logs, n)
  }

  ghost predicate OverwriteIsAdjacent(s: State, logs: seq<ChangeLog>, n: nat)
    requires n < |logs| && Replay(s, logs).Ok?
  {
    ReplayPrefix(s, logs, n);
    IsAdd(logs[n]) && ChangesGraph(logs[n]) && IdOf(logs[n]) in Replay(s, logs[..n]).value.live ==>
      var last := LastCommand(logs[..n]);
      last.Some? && Supersedes(last.value, logs[n])
  }

  /** A stack on which every add is the add of a resource that was not live below it. */
  ghost predicate FreshAdds(s: State, stack: seq<ChangeLog>) {
    stack == [] ||
    (FreshAdds(s, stack[..|stack| - 1]) && FreshTop(s, stack))
  }

  function WithoutTrailingNoop(stack: seq<ChangeLog>): seq<ChangeLog> {
    if stack != [] && stack[|stack| - 1].cmd.Noop? then stack[..|stack| - 1] else stack
  }

  /** The relation between the compaction of a prefix and the replay of the prefix. */
  ghost predicate Tracks(s: State, stack: seq<ChangeLog>, prefix: seq<ChangeLog>) {
    && Normal(stack) && FreshAdds(s, stack)
    && Replay(s, prefix).Ok? && Replay(s, stack).Ok?
    && Leaner(Replay(s, stack).value, Replay(s, prefix).value)
    && (LastCommand(prefix).Some? && IsAdd(LastCommand(prefix).value) ==>
      var core := WithoutTrailingNoop(stack);
      core != [] && core[|core| - 1] == LastCommand(prefix).value)
  }

  lemma DropNoop(s: State, stack: seq<ChangeLog>, prefix: seq<ChangeLog>)
    requires Tracks(s, stack, prefix)
    ensures Tracks(s, WithoutTrailingNoop(stack), prefix)
    ensures var core := WithoutTrailingNoop(stack); core == [] || !core[|core| - 1].cmd.Noop?
  {
    var core := WithoutTrailingNoop(stack);
    if core != stack {
      assert stack == core + [stack[|stack| - 1]];
      ReplaySnoc(s, core, stack[|stack| - 1]);
      forall i | 0 <= i < |core| - 1 ensures !Redex(core[i], core[i + 1]) {
        assert !Redex(stack[i], stack[i + 1]);
      }
      if core != [] {
        var i := |core| - 1;
        assert !Redex(stack[i], stack[i + 1]);
      }
    }
  }

  lemma LastSnoc(logs: seq<ChangeLog>, cl: ChangeLog)
    ensures LastCommand(logs + [cl]) == if cl.cmd.Noop? then LastCommand(logs) else Some(cl)
  {
    assert (logs + [cl])[..|logs|] == logs;
  }

  lemma NormalSnoc(stack: seq<ChangeLog>, cl: ChangeLog)
    requires Normal(stack) && (stack != [] ==> !Redex(stack[|stack| - 1], cl))
    ensures Normal(stack + [cl])
  {
  }

  lemma NormalInit(stack: seq<ChangeLog>)
    requires Normal(stack) && stack != []
    ensures Normal(stack[..|stack| - 1])
    ensures |stack| > 1 ==> !Redex(stack[|stack| - 2], stack[|stack| - 1])
  {
    var rest := stack[..|stack| - 1];
    forall i | 0 <= i < |rest| - 1 ensures !Redex(rest[i], rest[i + 1]) {
      assert !Redex(stack[i], stack[i + 1]);
    }
    if |stack| > 1 {
      var i := |stack| - 2;
      assert !Redex(stack[i], stack[i + 1]);
    }
  }

  lemma FreshSnoc(s: State, stack: seq<ChangeLog>, cl: ChangeLog)
    requires FreshAdds(s, stack) && Replay(s, stack).Ok?
    requires IsAdd(cl) && ChangesGraph(cl) ==> IdOf(cl) !in Replay(s, stack).value.live
    ensures FreshAdds(s, stack + [cl])
  {
    assert (stack + [cl])[..|stack|] == stack;
  }

  /** No rule applies: the entry is pushed. */
  lemma PushTracks(s: State, core: seq<ChangeLog>, prefix: seq<ChangeLog>, cl: ChangeLog)
    requires Tracks(s, core, prefix) && (core == [] || !core[|core| - 1].cmd.Noop?)
    requires core != [] ==> !Redex(core[|core| - 1], cl)
    requires Replay(s, prefix + [cl]).Ok?
    requires IsAdd(cl) && ChangesGraph(cl) && IdOf(cl) in Replay(s, prefix).value.live ==>
      LastCommand(prefix).Some? && Supersedes(LastCommand(prefix).value, cl)
    ensures Tracks(s, core + [cl], prefix + [cl])
  {
    ReplaySnoc(s, prefix, cl);
    ReplaySnoc(s, core, cl);
    ApplyMonotone(Replay(s, core).value, Replay(s, prefix).value, cl);
    NormalSnoc(core, cl);
    FreshSnoc(s, core, cl);
    LastSnoc(prefix, cl);
    assert (core + [cl])[..|core|] == core;
  }

  /** Rule 1: the add below and the delete disappear together. */
  lemma CancelTracks(s: State, core: seq<ChangeLog>, prefix: seq<ChangeLog>, cl: ChangeLog)
    requires Consistent(s) && Tracks(s, core, prefix)
    requires core != [] && Cancels(core[|core| - 1], cl) && SameResource(core[|core| - 1], cl)
    requires Replay(s, prefix + [cl]).Ok?
    ensures Tracks(s, core[..|core| - 1], prefix + [cl])
  {
    var top, rest := core[|core| - 1], core[..|core| - 1];
    assert core == rest + [top];
    ReplaySnoc(s, prefix, cl);
    ReplaySnoc(s, rest, top);
    ReplayKeepsConsistent(s, rest);
    ApplyMonotone(Replay(s, core).value, Replay(s, prefix).value, cl);
    AddThenDelete(Replay(s, rest).value, top, cl);
    NormalInit(core);
    LastSnoc(prefix, cl);
  }

  /** Rule 2 on the states: the later add does what both did, but for links. */
  lemma SupersedeReplays(s: State, core: seq<ChangeLog>, o: State, cl: ChangeLog)
    requires Consistent(s) && core != [] && Supersedes(core[|core| - 1], cl) && SameResource(core[|core| - 1], cl)
    requires Replay(s, core).Ok? && Leaner(Replay(s, core).value, o) && Apply(o, cl).Ok?
    requires FreshTop(s, core)
    ensures var r := Replay(s, core[..|core| - 1] + [cl]); r.Ok? && Leaner(r.value, Apply(o, cl).value)
  {
    hide Apply, Leaner, Consistent, IdOf;
    var top, rest := core[|core| - 1], core[..|core| - 1];
    assert core == rest + [top];
    ReplaySnoc(s, rest, top);
    ReplaySnoc(s, rest, cl);
    ReplayKeepsConsistent(s, rest);
    var t := Replay(s, rest).value;
    var c := Apply(t, top).value;
    ApplyMonotone(c, o, cl);
    AddThenAdd(t, top, cl);
    LeanerIsTransitive(Apply(t, cl).value, Apply(c, cl).value, Apply(o, cl).value);
  }

  /** The add on top is the add of a resource that was not live below it. */
  ghost predicate FreshTop(s: State, stack: seq<ChangeLog>)
    requires stack != []
  {
    var top, rest := stack[|stack| - 1], stack[..|stack| - 1];
    IsAdd(top) && ChangesGraph(top) && Replay(s, rest).Ok? ==> IdOf(top) !in Replay(s, rest).value.live
  }

  /** Rule 2: the later add takes the place of the earlier one. */
  lemma SupersedeTracks(s: State, core: seq<ChangeLog>, prefix: seq<ChangeLog>, cl: ChangeLog)
    requires Consistent(s) && Tracks(s, core, prefix)
    requires core != [] && Supersedes(core[|core| - 1], cl) && SameResource(core[|core| - 1], cl)
    requires Replay(s, prefix + [cl]).Ok?
    ensures Reduce(core, cl) == core[..|core| - 1] + [cl]
    ensures Tracks(s, core[..|core| - 1] + [cl], prefix + [cl])
  {
    hide Apply, Leaner, Consistent, IdOf, Replay;
    var rest := core[..|core| - 1];
    ReplaySnoc(s, prefix, cl);
    SupersedeReplays(s, core, Replay(s, prefix).value, cl);
    ReplayPrefix(s, core, |rest|);
    NormalInit(core);
    NormalSnoc(rest, cl);
    FreshSnoc(s, rest, cl);
    LastSnoc(prefix, cl);
  }

  lemma StepTracks(s: State, stack: seq<ChangeLog>, prefix: seq<ChangeLog>, cl: ChangeLog)
    requires Consistent(s) && Tracks(s, stack, prefix) && Replay(s, prefix + [cl]).Ok?
    requires forall x :: x in stack && (Cancels(x, cl) || Supersedes(x, cl)) ==> SameResource(x, cl)
    requires IsAdd(cl) && ChangesGraph(cl) && IdOf(cl) in Replay(s, prefix).value.live ==>
      LastCommand(prefix).Some? && Supersedes(LastCommand(prefix).value, cl)
    ensures Tracks(s, Reduce(stack, cl), prefix + [cl])
  {
    hide Tracks, Consistent, SameResource;
    var core := WithoutTrailingNoop(stack);
    DropNoop(s, stack, prefix);
    assert Reduce(stack, cl) == Reduce(core, cl);
    if core == [] || !Redex(core[|core| - 1], cl) {
      PushTracks(s, core, prefix, cl);
      assert Reduce(core, cl) == core + [cl];
    } else if Cancels(core[|core| - 1], cl) {
      assert core[|core| - 1] in stack;
      CancelTracks(s, core, prefix, cl);
    } else {
      assert core[|core| - 1] in stack;
      SupersedeTracks(s, core, prefix, cl);
    }
  }

  lemma {:induction false} ReduceMembers(stack: seq<ChangeLog>, cl: ChangeLog)
    ensures forall x :: x in Reduce(stack, cl) ==> x in stack || x == cl
  {
    if stack != [] {
      ReduceMembers(stack[..|stack| - 1], cl);
    }
  }

  /** Every survivor is an entry of the log. */
  lemma {:induction false} SurvivorsMembers(logs: seq<ChangeLog>)
    ensures forall x :: x in Survivors(logs) ==> x in logs
  {
    if logs != [] {
      var init, last := logs[..|logs| - 1], logs[|logs| - 1];
      assert logs == init + [last];
      SurvivorsMembers(init);
      SurvivorsSnoc(init, last);
      ReduceMembers(Survivors(init), last);
    }
  }

  lemma {:induction false} PrefixTracks(s: State, logs: seq<ChangeLog>, n: nat)
    requires Consistent(s) && Replay(s, logs).Ok? && OverwritesAreAdjacent(s, logs)
    requires KeysTellApart(logs) && n <= |logs|
    ensures Tracks(s, Survivors(logs[..n]), logs[..n])
  {
    ReplayPrefix(s, logs, n);
    if n > 0 {
      PrefixTracks(s, logs, n - 1);
      var prefix, cl := logs[..n - 1], logs[n - 1];
      assert logs[..n] == prefix + [cl];
      SurvivorsSnoc(prefix, cl);
      SurvivorsMembers(prefix);
      assert OverwriteIsAdjacent(s, logs, n - 1);
      assert cl in logs && forall x :: x in prefix ==> x in logs;
      StepTracks(s, Survivors(prefix), prefix, cl);
    }
  }

  /**
   Compaction preserves replay. If a log replays with every entry accepted, its keys tell resources apart, and
   an add of a live resource only ever comes directly after another add of it, then the compacted log replays with
   every entry accepted and ends in the same live resources, with no link the original lacks.
   */
  lemma CompactionPreservesReplay(s: State, logs: seq<ChangeLog>)
    requires Consistent(s) && Replay(s, logs).Ok? && OverwritesAreAdjacent(s, logs)
    requires KeysTellApart(logs)
    ensures Replay(s, Survivors(logs)).Ok?
    ensures Leaner(Replay(s, Survivors(logs)).value, Replay(s, logs).value)
  {
    PrefixTracks(s, logs, |logs|);
    assert logs[..|logs|] == logs;
  }
}
