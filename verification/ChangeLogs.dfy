/** The change log and its replay into the admin state. */
module ChangeLogs {
  import opened Wrappers
  import opened Resources

  datatype Action = AddAction | DeleteAction

  datatype Resource = OfKind(kind: Kind) | Documents

  datatype Command = Noop | Command(action: Action, resource: Resource)

  datatype ChangeLog = ChangeLog(id: string, cmd: Command, name: string, namespace: string, item: Spec)

  /** What compaction compares: resource, name and namespace of the log entry. */
  datatype LogKey = LogKey(resource: Resource, name: string, namespace: string)

  function KeyOf(cl: ChangeLog): LogKey
    requires cl.cmd.Command?
  {
    LogKey(cl.cmd.resource, cl.name, cl.namespace)
  }

  predicate IsAdd(cl: ChangeLog) { cl.cmd.Command? && cl.cmd.action.AddAction? }

  predicate IsDelete(cl: ChangeLog) { cl.cmd.Command? && cl.cmd.action.DeleteAction? }

  /** The entry changes the resource graph: not a noop, and not a document, which replay skips. */
  predicate ChangesGraph(cl: ChangeLog) { cl.cmd.Command? && cl.cmd.resource.OfKind? }

  /** The item replay works on: a missing namespace is taken from the log entry. */
  function ItemOf(cl: ChangeLog): Spec {
    if cl.item.namespace == "" then cl.item.(namespace := cl.namespace) else cl.item
  }

  function OpOf(cl: ChangeLog): Op
    requires ChangesGraph(cl)
  {
    if IsAdd(cl) then Add(cl.cmd.resource.kind, ItemOf(cl))
    else Remove(cl.cmd.resource.kind, ItemOf(cl).name, ItemOf(cl).namespace)
  }

  /** The resource the entry is about when it is replayed, whatever it is filed under. */
  function IdOf(cl: ChangeLog): Id
    requires ChangesGraph(cl)
  {
    OpId(OpOf(cl))
  }

  /** A way of filing: which key the entries about a resource have. */
  type Filing = Id -> LogKey

  predicate FiledBy(filed: Filing, cl: ChangeLog) { ChangesGraph(cl) ==> KeyOf(cl) == filed(IdOf(cl)) }

  /** No two resources share a key, and keys name the kind. */
  ghost predicate OneToOne(filed: Filing) {
    && (forall i, j :: filed(i) == filed(j) ==> i == j)
    && (forall i :: filed(i).resource == OfKind(i.kind))
  }

  /** Resources filed under their own name and namespace. */
  function KeyOfId(id: Id): LogKey { LogKey(OfKind(id.kind), id.name, id.namespace) }

  function NewChangeLog(id: string, item: Spec, namespace: string, cmd: Command): ChangeLog {
    ChangeLog(id, cmd, item.name, namespace, item)
  }

  /**
   The admin handlers file a namespace under its own name and everything else under its item's namespace. A
   script files what it adds under its module's namespace, which need not be the one its item names.
   */
  lemma FiledUnderOwnNameIff(id: string, item: Spec, namespace: string, cmd: Command)
    requires cmd.Command? && cmd.resource.OfKind?
    ensures OneToOne(KeyOfId)
    ensures FiledBy(KeyOfId, NewChangeLog(id, item, namespace, cmd)) <==>
      if cmd.resource.kind.Namespaces? then namespace == item.name
      else item.namespace == "" || item.namespace == namespace
  {
  }

  /** No two entries of the log have the same key but are about different resources. */
  ghost predicate KeysTellApart(logs: seq<ChangeLog>) {
    forall a, b :: a in logs && b in logs && ChangesGraph(a) && ChangesGraph(b) && KeyOf(a) == KeyOf(b) ==>
      IdOf(a) == IdOf(b)
  }

  /** One entry of the restore loop. */
  function Apply(s: State, cl: ChangeLog): Result<State, Error> {
    if ChangesGraph(cl) then Step(s, OpOf(cl)) else Ok(s)
  }

  /** What an entry that is accepted does: documents and noops nothing, the rest to the resource its item names. */
  lemma AppliedMeans(s: State, cl: ChangeLog)
    ensures cl.cmd == Noop || cl.cmd.resource == Documents ==> Apply(s, cl) == Ok(s)
    ensures cl.cmd != Noop && cl.cmd.resource != Documents ==>
      var kind, ns := cl.cmd.resource.kind, if cl.item.namespace == "" then cl.namespace else cl.item.namespace;
      var id := Id(kind, cl.item.name, if kind == Namespaces then cl.item.name else ns);
      var add := cl.cmd.action == AddAction;
      && (Apply(s, cl).Ok? <==>
        OpError(s, if add then Add(kind, cl.item.(namespace := ns)) else Remove(kind, cl.item.name, ns)).None?)
      && (Apply(s, cl).Ok? ==>
        Apply(s, cl).value.live == if add then s.live[id := cl.item.(namespace := ns)] else s.live - {id})
  {
  }

  /** From one state to the next, entry by entry. */
  ghost predicate IsPath(s: State, logs: seq<ChangeLog>, path: seq<State>) {
    && |path| == |logs| + 1 && path[0] == s
    && forall n :: 0 <= n < |logs| ==> Apply(path[n], logs[n]) == Ok(path[n + 1])
  }

  lemma {:induction false} PathOf(s: State, logs: seq<ChangeLog>) returns (path: seq<State>)
    requires Replay(s, logs).Ok?
    ensures IsPath(s, logs, path) && path[|logs|] == Replay(s, logs).value
  {
    if logs == [] {
      path := [s];
    } else {
      var init := logs[..|logs| - 1];
      var front := PathOf(s, init);
      path := front + [Replay(s, logs).value];
      forall n | 0 <= n < |logs| ensures Apply(path[n], logs[n]) == Ok(path[n + 1]) {
        if n < |init| { assert logs[n] == init[n]; }
      }
    }
  }

  lemma {:induction false} PathReplays(s: State, logs: seq<ChangeLog>, path: seq<State>)
    requires IsPath(s, logs, path)
    ensures Replay(s, logs) == Ok(path[|logs|])
  {
    if logs != [] {
      var n := |logs| - 1;
      assert IsPath(s, logs[..n], path[..n + 1]);
      PathReplays(s, logs[..n], path[..n + 1]);
      assert Apply(path[n], logs[n]) == Ok(path[n + 1]);
    }
  }

  /** A replay that succeeds leads from state to state; one that fails does so up to its first refused entry. */
  lemma {:induction false} ReplayMeans(s: State, logs: seq<ChangeLog>)
    ensures forall t :: Replay(s, logs) == Ok(t) <==> exists path :: IsPath(s, logs, path) && path[|logs|] == t
    ensures forall e :: Replay(s, logs) == Err(e) ==>
      exists n, path :: 0 <= n < |logs| && IsPath(s, logs[..n], path) && Apply(path[n], logs[n]) == Err(e)
  {
    if Replay(s, logs).Ok? { var path := PathOf(s, logs); }
    forall path | IsPath(s, logs, path) ensures Replay(s, logs) == Ok(path[|logs|]) { PathReplays(s, logs, path); }
    if Replay(s, logs).Err? {
      var n, path := FirstRefused(s, logs);
    }
  }

  lemma {:induction false} FirstRefused(s: State, logs: seq<ChangeLog>) returns (n: nat, path: seq<State>)
    requires Replay(s, logs).Err?
    ensures n < |logs| && IsPath(s, logs[..n], path) && Apply(path[n], logs[n]) == Replay(s, logs)
  {
    var init := logs[..|logs| - 1];
    if Replay(s, init).Err? {
      n, path := FirstRefused(s, init);
      assert init[..n] == logs[..n];
    } else {
      n := |logs| - 1;
      path := PathOf(s, init);
    }
  }

  /** The restore loop: the first refused entry stops it. */
  function Replay(s: State, logs: seq<ChangeLog>): Result<State, Error> {
    if logs == [] then Ok(s)
    else
      var before := Replay(s, logs[..|logs| - 1]);
      if before.Err? then before else Apply(before.value, logs[|logs| - 1])
  }

  lemma ReplaySnoc(s: State, logs: seq<ChangeLog>, cl: ChangeLog)
    ensures Replay(s, logs + [cl]) ==
      if Replay(s, logs).Err? then Replay(s, logs) else Apply(Replay(s, logs).value, cl)
  {
    assert (logs + [cl])[..|logs|] == logs;
  }

  lemma {:induction false} ReplayKeepsConsistent(s: State, logs: seq<ChangeLog>)
    requires Consistent(s) && Replay(s, logs).Ok?
    ensures Consistent(Replay(s, logs).value)
  {
    if logs != [] {
      ReplayKeepsConsistent(s, logs[..|logs| - 1]);
      if ChangesGraph(logs[|logs| - 1]) {
        StepKeepsConsistent(Replay(s, logs[..|logs| - 1]).value, OpOf(logs[|logs| - 1]));
      }
    }
  }

  lemma {:induction false} ReplayPrefix(s: State, logs: seq<ChangeLog>, n: nat)
    requires Replay(s, logs).Ok? && n <= |logs|
    ensures Replay(s, logs[..n]).Ok?
  {
    if n < |logs| {
      var init := logs[..|logs| - 1];
      ReplayPrefix(s, init, n);
      assert init[..n] == logs[..n];
    } else {
      assert logs[..n] == logs;
    }
  }

  /** The restore method: a loop over the log that stops at the first error, outside debug mode. */
  method Restore(s: State, logs: seq<ChangeLog>) returns (r: Result<State, Error>)
    ensures r == Replay(s, logs)
    ensures forall t :: r == Ok(t) <==> exists path :: IsPath(s, logs, path) && path[|logs|] == t
    ensures forall e :: r == Err(e) ==>
      exists n, path :: 0 <= n < |logs| && IsPath(s, logs[..n], path) && Apply(path[n], logs[n]) == Err(e)
  {
    hide IsPath;
    ReplayMeans(s, logs);
    var cur := s;
    for i := 0 to |logs|
      invariant Replay(s, logs[..i]) == Ok(cur)
    {
      assert logs[..i + 1] == logs[..i] + [logs[i]];
      ReplaySnoc(s, logs[..i], logs[i]);
      var next := Apply(cur, logs[i]);
      if next.Err? {
        RefusedStaysRefused(s, logs, i + 1);
        return next;
      }
      cur := next.value;
    }
    assert logs[..|logs|] == logs;
    r := Ok(cur);
  }

  lemma {:induction false} RefusedStaysRefused(s: State, logs: seq<ChangeLog>, n: nat)
    requires n <= |logs| && Replay(s, logs[..n]).Err?
    ensures Replay(s, logs) == Replay(s, logs[..n])
  {
    if n < |logs| {
      var init := logs[..|logs| - 1];
      assert init[..n] == logs[..n];
      RefusedStaysRefused(s, init, n);
    } else {
      assert logs[..n] == logs;
    }
  }
}
