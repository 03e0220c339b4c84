/**
 Compaction without the assumption on overwrites: what still holds for every log, and exactly when the live map
 that a log describes is preserved at every point of it.
 */
module CompactionLimits {
  import opened Wrappers
  import opened Resources
  import opened ChangeLogs
  import opened Compaction
  import CompactionReplay

  /** The last entry of the log with this key. */
  function LastFor(logs: seq<ChangeLog>, key: LogKey): Option<ChangeLog> {
    if logs == [] then None
    else
      var last := logs[|logs| - 1];
      if last.cmd.Command? && KeyOf(last) == key then Some(last) else LastFor(logs[..|logs| - 1], key)
  }

  lemma LastForSnoc(logs: seq<ChangeLog>, cl: ChangeLog, key: LogKey)
    ensures LastFor(logs + [cl], key) ==
      if cl.cmd.Command? && KeyOf(cl) == key then Some(cl) else LastFor(logs, key)
  {
    assert (logs + [cl])[..|logs|] == logs;
  }

  /**
   Reducing an entry of another key, or a noop, does not disturb the last entry for a key; an add becomes the
   last for its own.
   */
  lemma {:induction false} ReduceLastFor(stack: seq<ChangeLog>, cl: ChangeLog, key: LogKey)
    ensures !(cl.cmd.Command? && KeyOf(cl) == key) ==> LastFor(Reduce(stack, cl), key) == LastFor(stack, key)
    ensures IsAdd(cl) && KeyOf(cl) == key ==> LastFor(Reduce(stack, cl), key) == Some(cl)
  {
    LastForSnoc(stack, cl, key);
    if stack == [] {
      assert [] + [cl] == [cl];
    } else {
      var top, rest := stack[|stack| - 1], stack[..|stack| - 1];
      assert stack == rest + [top];
      LastForSnoc(rest, top, key);
      ReduceLastFor(rest, cl, key);
    }
  }

  /** For every log whatsoever: a key whose last entry is an add still ends with that same add. */
  lemma {:induction false} LastAddSurvives(logs: seq<ChangeLog>, key: LogKey)
    requires LastFor(logs, key).Some? && IsAdd(LastFor(logs, key).value)
    ensures LastFor(Survivors(logs), key) == LastFor(logs, key)
  {
    if logs != [] {
      var init, last := logs[..|logs| - 1], logs[|logs| - 1];
      assert logs == init + [last];
      SurvivorsSnoc(init, last);
      ReduceLastFor(Survivors(init), last, key);
      if !(last.cmd.Command? && KeyOf(last) == key) {
        LastAddSurvives(init, key);
      }
    }
  }

  /** The map of live items a log describes when nothing is ever refused: an add files its item, a delete drops it. */
  function Described(m: map<LogKey, Spec>, logs: seq<ChangeLog>): map<LogKey, Spec> {
    if logs == [] then m
    else
      var before, cl := Described(m, logs[..|logs| - 1]), logs[|logs| - 1];
      if IsAdd(cl) then before[KeyOf(cl) := ItemOf(cl)]
      else if IsDelete(cl) then before - {KeyOf(cl)}
      else before
  }

  lemma DescribedSnoc(m: map<LogKey, Spec>, logs: seq<ChangeLog>, cl: ChangeLog)
    ensures Described(m, logs + [cl]) ==
      if IsAdd(cl) then Described(m, logs)[KeyOf(cl) := ItemOf(cl)]
      else if IsDelete(cl) then Described(m, logs) - {KeyOf(cl)}
      else Described(m, logs)
  {
    assert (logs + [cl])[..|logs|] == logs;
  }

  /**
   The guard of rule 1 as it should be. Whenever a delete meets its add on the stack, the key is not
   live beneath that add: the add was not itself an overwrite.
   */
  ghost predicate SafeCancel(m: map<LogKey, Spec>, stack: seq<ChangeLog>, cl: ChangeLog) {
    var core := CompactionReplay.WithoutTrailingNoop(stack);
    core != [] && Cancels(core[|core| - 1], cl) ==> KeyOf(cl) !in Described(m, core[..|core| - 1])
  }

  ghost predicate SafeCancels(m: map<LogKey, Spec>, logs: seq<ChangeLog>) {
    forall n :: 0 <= n < |logs| ==> SafeCancel(m, Survivors(logs[..n]), logs[n])
  }

  ghost predicate SameAtEveryPrefix(m: map<LogKey, Spec>, logs: seq<ChangeLog>) {
    forall n :: 0 <= n <= |logs| ==> SameAt(m, logs, n)
  }

  ghost predicate SameAt(m: map<LogKey, Spec>, logs: seq<ChangeLog>, n: nat)
    requires n <= |logs|
  {
    Described(m, Survivors(logs[..n])) == Described(m, logs[..n])
  }

  /** A noop on top does not matter, and beneath it there is none. */
  lemma CoreDescribed(m: map<LogKey, Spec>, stack: seq<ChangeLog>, cl: ChangeLog)
    requires Normal(stack)
    ensures var core := CompactionReplay.WithoutTrailingNoop(stack);
      && Normal(core) && (core == [] || !core[|core| - 1].cmd.Noop?)
      && Described(m, core) == Described(m, stack) && Reduce(core, cl) == Reduce(stack, cl)
  {
    var core := CompactionReplay.WithoutTrailingNoop(stack);
    if core != stack {
      assert stack == core + [stack[|stack| - 1]];
      DescribedSnoc(m, core, stack[|stack| - 1]);
      CompactionReplay.NormalInit(stack);
    }
  }

  lemma CoreReduces(stack: seq<ChangeLog>, cl: ChangeLog)
    ensures var core := CompactionReplay.WithoutTrailingNoop(stack);
      Reduce(core, cl) == Reduce(stack, cl) && forall x :: x in core ==> x in stack
  {
  }

  /** One entry on a normal stack: how the described map moves. */
  lemma ReduceDescribed(m: map<LogKey, Spec>, stack: seq<ChangeLog>, cl: ChangeLog)
    requires Normal(stack)
    ensures SafeCancel(m, stack, cl) ==>
      Described(m, Reduce(stack, cl)) == Described(m, stack + [cl])
    ensures !SafeCancel(m, stack, cl) ==>
      cl.cmd.Command? && KeyOf(cl) in Described(m, Reduce(stack, cl)) && KeyOf(cl) !in Described(m, stack + [cl])
  {
    hide Described, Normal, Reduce;
    var core := CompactionReplay.WithoutTrailingNoop(stack);
    CoreDescribed(m, stack, cl);
    DescribedSnoc(m, stack, cl);
    if core == [] || !Redex(core[|core| - 1], cl) {
      ReduceAppends(core, cl);
      DescribedSnoc(m, core, cl);
    } else {
      var top, rest := core[|core| - 1], core[..|core| - 1];
      assert core == rest + [top];
      DescribedSnoc(m, rest, top);
      if Cancels(top, cl) {
        CancelPops(core, cl);
      } else {
        SupersedePushes(core, cl);
        DescribedSnoc(m, rest, cl);
      }
    }
  }

  lemma ReduceAppends(stack: seq<ChangeLog>, cl: ChangeLog)
    requires stack == [] || !Redex(stack[|stack| - 1], cl)
    ensures Reduce(stack, cl) == stack + [cl]
  {
    assert [] + [cl] == [cl];
  }

  lemma CancelPops(stack: seq<ChangeLog>, cl: ChangeLog)
    requires stack != [] && Cancels(stack[|stack| - 1], cl)
    ensures Reduce(stack, cl) == stack[..|stack| - 1]
  {
  }

  lemma SupersedePushes(stack: seq<ChangeLog>, cl: ChangeLog)
    requires Normal(stack) && stack != [] && Supersedes(stack[|stack| - 1], cl)
    ensures Reduce(stack, cl) == stack[..|stack| - 1] + [cl]
  {
    CompactionReplay.NormalInit(stack);
  }

  /**
   Exactly when compaction preserves the live map at every point of the log: no delete may cancel an
   add that had overwritten a live key and was not merged with the add before it.
   */
  lemma PreservedIffSafe(m: map<LogKey, Spec>, logs: seq<ChangeLog>)
    ensures SameAtEveryPrefix(m, logs) <==> SafeCancels(m, logs)
  {
    if SafeCancels(m, logs) {
      forall n | 0 <= n <= |logs| ensures SameAt(m, logs, n) {
        SafeIsSame(m, logs, n);
      }
    }
    if SameAtEveryPrefix(m, logs) {
      forall n | 0 <= n < |logs| ensures SafeCancel(m, Survivors(logs[..n]), logs[n]) {
        assert SameAt(m, logs, n) && SameAt(m, logs, n + 1);
        PrefixStep(m, logs, n);
      }
    }
  }

  lemma PrefixStep(m: map<LogKey, Spec>, logs: seq<ChangeLog>, n: nat)
    requires n < |logs| && SameAt(m, logs, n)
    ensures SafeCancel(m, Survivors(logs[..n]), logs[n]) <==> SameAt(m, logs, n + 1)
  {
    var prefix, cl := logs[..n], logs[n];
    assert logs[..n + 1] == prefix + [cl];
    SurvivorsSnoc(prefix, cl);
    FoldIsNormal([], prefix);
    ReduceDescribed(m, Survivors(prefix), cl);
    DescribedSnoc(m, Survivors(prefix), cl);
    DescribedSnoc(m, prefix, cl);
  }

  lemma {:induction false} SafeIsSame(m: map<LogKey, Spec>, logs: seq<ChangeLog>, n: nat)
    requires SafeCancels(m, logs) && n <= |logs|
    ensures SameAt(m, logs, n)
  {
    if n == 0 {
      assert logs[..0] == [];
    } else {
      SafeIsSame(m, logs, n - 1);
      PrefixStep(m, logs, n - 1);
    }
  }

  /** The state's live map and the described map agree on this resource. */
  ghost predicate Agree(live: map<Id, Spec>, m: map<LogKey, Spec>, filed: Filing, id: Id) {
    (id in live <==> filed(id) in m) && (id in live ==> live[id] == m[filed(id)])
  }

  lemma ApplyAgrees(s: State, m: map<LogKey, Spec>, filed: Filing, cl: ChangeLog, id: Id)
    requires Agree(s.live, m, filed, id) && OneToOne(filed) && FiledBy(filed, cl) && Apply(s, cl).Ok?
    ensures Agree(Apply(s, cl).value.live,
      if IsAdd(cl) then m[KeyOf(cl) := ItemOf(cl)] else if IsDelete(cl) then m - {KeyOf(cl)} else m, filed, id)
  {
    if ChangesGraph(cl) {
      assert filed(id) == KeyOf(cl) <==> id == IdOf(cl);
    }
  }

  /**
   A replay that accepts every entry ends in the live map that its log describes, if each resource has a key
   of its own.
   */
  lemma {:induction false} ReplayIsDescribed(
    s: State, m: map<LogKey, Spec>, filed: Filing, logs: seq<ChangeLog>, id: Id)
    requires Replay(s, logs).Ok? && OneToOne(filed) && (forall cl :: cl in logs ==> FiledBy(filed, cl))
    requires Agree(s.live, m, filed, id)
    ensures Agree(Replay(s, logs).value.live, Described(m, logs), filed, id)
  {
    if logs != [] {
      var init, cl := logs[..|logs| - 1], logs[|logs| - 1];
      ReplayIsDescribed(s, m, filed, init, id);
      ApplyAgrees(Replay(s, init).value, Described(m, init), filed, cl, id);
    }
  }
}
