/** Three ways in which compaction breaks a log, each shown by one. */
module CompactionWitnesses {
  import opened Wrappers
  import opened Resources
  import opened ChangeLogs
  import opened Compaction
  import opened CompactionLimits

  function AddEntry(id: string, kind: Kind, name: string, namespace: string, service: string): ChangeLog {
    ChangeLog(id, Command(AddAction, OfKind(kind)), name, namespace,
      Spec(name, namespace, service, [], 0, [], true, ""))
  }

  /** A namespace `n` with two services and a route led to the first of them, and another namespace. */
  function RoutedLog(n: string, b: string, svc: string, other: string, rt: string): seq<ChangeLog> {
    [AddEntry("1", Namespaces, n, n, ""), AddEntry("2", Services, svc, n, ""), AddEntry("3", Services, other, n, ""),
     AddEntry("4", Routes, rt, n, svc), AddEntry("5", Namespaces, b, b, "")]
  }

  /** The route is led to the other service, and is then updated without naming one. */
  function ToOther(n: string, other: string, rt: string): ChangeLog { AddEntry("6", Routes, rt, n, other) }

  function ToNone(n: string, rt: string): ChangeLog { AddEntry("7", Routes, rt, n, "") }

  function DropService(n: string, svc: string): ChangeLog {
    AddEntry("8", Services, svc, n, "").(cmd := Command(DeleteAction, OfKind(Services)))
  }

  lemma OneMore(s: State, logs: seq<ChangeLog>, cl: ChangeLog, longer: seq<ChangeLog>) returns (t: State)
    requires Replay(s, logs).Ok? && ChangesGraph(cl) && OpError(Replay(s, logs).value, OpOf(cl)).None?
    requires longer == logs + [cl]
    ensures Replay(s, longer) == Ok(t) && t == Effect(Replay(s, logs).value, OpOf(cl))
  {
    ReplaySnoc(s, logs, cl);
    t := Replay(s, longer).value;
  }

  ghost predicate Routed(s: State, n: string, svc: string, other: string, rt: string, target: string) {
    && s.links == map[Id(Routes, rt, n) := Links(Some(target), {})]
    && {NamespaceId(n), Id(Services, svc, n), Id(Services, other, n), Id(Routes, rt, n)} <= s.live.Keys
  }

  lemma Leads(before: Option<string>, spec: Spec)
    requires spec.modules == []
    ensures Relinked(Links(before, {}), spec) == Links(if spec.service == "" then before else Some(spec.service), {})
  {
    assert Named(spec) == {};
  }

  lemma RoutedReplays(n: string, b: string, svc: string, other: string, rt: string)
    requires svc != ""
    ensures var r := Replay(EmptyState, RoutedLog(n, b, svc, other, rt));
      r.Ok? && Routed(r.value, n, svc, other, rt, svc)
  {
    var logs := RoutedLog(n, b, svc, other, rt);
    var s1 := OneMore(EmptyState, [], logs[0], logs[..1]);
    var s2 := OneMore(EmptyState, logs[..1], logs[1], logs[..2]);
    var s3 := OneMore(EmptyState, logs[..2], logs[2], logs[..3]);
    var s4 := OneMore(EmptyState, logs[..3], logs[3], logs[..4]);
    var s5 := OneMore(EmptyState, logs[..4], logs[4], logs);
    assert s3.links == map[];
    Leads(None, ItemOf(logs[3]));
  }

  /** Merging away the last update but one, with whatever comes after. */
  lemma MergedAway(p: seq<ChangeLog>, x: ChangeLog, y: ChangeLog, r: seq<ChangeLog>)
    requires Supersedes(x, y) && Normal(p + [x]) && Normal(p + [y] + r)
    ensures Survivors(p + [x, y] + r) == p + [y] + r
  {
    assert p + [x, y] + r == p + [x] + [y] + r && p + Kept(x, y) + r == p + [y] + r;
    RewriteKeepsSurvivors(p, x, y, r);
    NormalSurvives(p + [y] + r);
  }

  lemma RoutedIsNormal(n: string, b: string, svc: string, other: string, rt: string)
    requires n != b && svc != other
    ensures var p := RoutedLog(n, b, svc, other, rt);
      var x, y, z := ToOther(n, other, rt), ToNone(n, rt), DropService(n, svc);
      Normal(p + [x]) && Normal(p + [y] + [z]) && Normal(p + [y] + [])
  {
  }

  lemma RoutedSurvivors(n: string, b: string, svc: string, other: string, rt: string)
    requires n != b && svc != other
    ensures var p := RoutedLog(n, b, svc, other, rt);
      var x, y, z := ToOther(n, other, rt), ToNone(n, rt), DropService(n, svc);
      && Survivors(p + [x, y, z]) == p + [y, z] && Survivors(p + [x, y]) == p + [y]
  {
    hide Survivors, Normal;
    var p, x, y, z := RoutedLog(n, b, svc, other, rt), ToOther(n, other, rt), ToNone(n, rt), DropService(n, svc);
    RoutedIsNormal(n, b, svc, other, rt);
    assert p + [x, y] + [z] == p + [x, y, z] && p + [y] + [z] == p + [y, z];
    MergedAway(p, x, y, [z]);
    assert p + [x, y] + [] == p + [x, y] && p + [y] + [] == p + [y];
    MergedAway(p, x, y, []);
  }

  lemma RoutedIsSafe(n: string, b: string, svc: string, other: string, rt: string)
    requires n != b && svc != other
    ensures SafeCancels(map[],
      RoutedLog(n, b, svc, other, rt) + [ToOther(n, other, rt), ToNone(n, rt), DropService(n, svc)])
  {
    hide Survivors;
    var p, x, y, z := RoutedLog(n, b, svc, other, rt), ToOther(n, other, rt), ToNone(n, rt), DropService(n, svc);
    var logs := p + [x, y, z];
    RoutedSurvivors(n, b, svc, other, rt);
    forall k | 0 <= k < |logs| ensures SafeCancel(map[], Survivors(logs[..k]), logs[k]) {
      if k == 7 {
        assert logs[..7] == p + [x, y];
      }
    }
  }

  /**
   No delete cancels anything here, and still the survivors are refused: with the update to the other service
   merged away, the route is linked to the first one when the delete comes.
   */
  lemma SurvivorsCanBeRefused(n: string, b: string, svc: string, other: string, rt: string)
    requires n != b && svc != other && svc != "" && other != ""
    ensures var logs := RoutedLog(n, b, svc, other, rt) + [ToOther(n, other, rt), ToNone(n, rt), DropService(n, svc)];
      && Replay(EmptyState, logs).Ok? && (forall cl :: cl in logs ==> FiledBy(KeyOfId, cl)) && SafeCancels(map[], logs)
      && Replay(EmptyState, Survivors(logs)) == Err(StillLinked(svc, Routes))
  {
    hide Replay, Survivors, SafeCancels, FiledBy;
    var p := RoutedLog(n, b, svc, other, rt);
    RoutedIsFiled(n, b, svc, other, rt);
    RoutedReplays(n, b, svc, other, rt);
    RoutedSurvivors(n, b, svc, other, rt);
    RoutedIsSafe(n, b, svc, other, rt);
    AcceptedOneByOne(p, n, svc, other, rt);
    RefusedMerged(p, n, svc, other, rt);
  }

  lemma RoutedIsFiled(n: string, b: string, svc: string, other: string, rt: string)
    ensures var logs := RoutedLog(n, b, svc, other, rt) + [ToOther(n, other, rt), ToNone(n, rt), DropService(n, svc)];
      forall cl :: cl in logs ==> FiledBy(KeyOfId, cl)
  {
    hide FiledBy;
    forall id, kind: Kind, name, ns, service | kind.Namespaces? ==> ns == name
      ensures FiledBy(KeyOfId, AddEntry(id, kind, name, ns, service))
    {
      EntryIsFiled(id, kind, name, ns, service);
    }
    EntryIsFiled("8", Services, svc, n, "");
  }

  lemma EntryIsFiled(id: string, kind: Kind, name: string, ns: string, service: string)
    requires kind.Namespaces? ==> ns == name
    ensures FiledBy(KeyOfId, AddEntry(id, kind, name, ns, service))
    ensures FiledBy(KeyOfId, AddEntry(id, kind, name, ns, service).(cmd := Command(DeleteAction, OfKind(kind))))
  {
  }

  lemma AcceptedOneByOne(p: seq<ChangeLog>, n: string, svc: string, other: string, rt: string)
    requires Replay(EmptyState, p).Ok? && Routed(Replay(EmptyState, p).value, n, svc, other, rt, svc)
    requires svc != other && other != ""
    ensures Replay(EmptyState, p + [ToOther(n, other, rt), ToNone(n, rt), DropService(n, svc)]).Ok?
  {
    var x, y, z := ToOther(n, other, rt), ToNone(n, rt), DropService(n, svc);
    var s6 := OneMore(EmptyState, p, x, p + [x]);
    var s7 := OneMore(EmptyState, p + [x], y, p + [x, y]);
    Leads(Some(svc), ItemOf(x));
    Leads(Some(other), ItemOf(y));
    assert Routed(s7, n, svc, other, rt, other);
    assert !ServiceInUse(s7, svc, n);
    var s8 := OneMore(EmptyState, p + [x, y], z, p + [x, y, z]);
  }

  lemma RefusedMerged(p: seq<ChangeLog>, n: string, svc: string, other: string, rt: string)
    requires Replay(EmptyState, p).Ok? && Routed(Replay(EmptyState, p).value, n, svc, other, rt, svc)
    ensures Replay(EmptyState, p + [ToNone(n, rt), DropService(n, svc)]) == Err(StillLinked(svc, Routes))
  {
    var y, z := ToNone(n, rt), DropService(n, svc);
    var s6 := OneMore(EmptyState, p, y, p + [y]);
    Leads(Some(svc), ItemOf(y));
    assert Routed(s6, n, svc, other, rt, svc);
    assert s6.links[Id(Routes, rt, n)].service == Some(svc) && ServiceInUse(s6, svc, n) && !ServiceShared(s6, svc, n);
    assert p + [y, z] == p + [y] + [z];
    ReplaySnoc(EmptyState, p + [y], z);
  }

  /** What a module's script adds: a collection of the namespace its item names, filed under the module's own. */
  function ScriptAdds(id: string, name: string, namespace: string, home: string): ChangeLog {
    AddEntry(id, Collections, name, namespace, "").(namespace := home)
  }

  function TwoNamespaces(x: string, y: string): seq<ChangeLog> {
    [AddEntry("1", Namespaces, x, x, ""), AddEntry("2", Namespaces, y, y, "")]
  }

  lemma TwoNamespacesReplay(x: string, y: string)
    ensures var r := Replay(EmptyState, TwoNamespaces(x, y));
      r.Ok? && r.value.live.Keys == {NamespaceId(x), NamespaceId(y)}
  {
    var p := TwoNamespaces(x, y);
    var s1 := OneMore(EmptyState, [], p[0], p[..1]);
    var s2 := OneMore(EmptyState, p[..1], p[1], p);
  }

  function DropNamespace(id: string, name: string): ChangeLog {
    AddEntry(id, Namespaces, name, name, "").(cmd := Command(DeleteAction, OfKind(Namespaces)))
  }

  /**
   A deleted namespace can come back. Add a, add b, add a again, delete a: the delete takes the second add of a
   with it, and the first one stays.
   */
  lemma DeletedComesBack(a: string, b: string)
    requires a != b
    ensures var logs := TwoNamespaces(a, b) + [AddEntry("3", Namespaces, a, a, "")] + [DropNamespace("4", a)];
      && Replay(EmptyState, logs).Ok? && NamespaceId(a) !in Replay(EmptyState, logs).value.live
      && Replay(EmptyState, Survivors(logs)).Ok? && NamespaceId(a) in Replay(EmptyState, Survivors(logs)).value.live
  {
    hide Replay, Survivors;
    var p, l2, l3 := TwoNamespaces(a, b), AddEntry("3", Namespaces, a, a, ""), DropNamespace("4", a);
    TwoNamespacesReplay(a, b);
    var s3 := OneMore(EmptyState, p, l2, p + [l2]);
    assert forall kind, ns :: Populated(s3, kind, ns) ==> kind.Namespaces?;
    var s4 := OneMore(EmptyState, p + [l2], l3, p + [l2] + [l3]);
    CancelledAway(p, l2, l3);
  }

  lemma CancelledAway(p: seq<ChangeLog>, x: ChangeLog, y: ChangeLog)
    requires Normal(p + [x]) && Cancels(x, y)
    ensures Survivors(p + [x] + [y]) == p
  {
    NormalSurvives(p + [x]);
    SurvivorsSnoc(p + [x], y);
    CancelPops(p + [x], y);
  }

  /**
   A script adds collections of one name to two namespaces. Filed under the module's namespace they have one key,
   so the first is dropped, although there is no delete and no route in the log.
   */
  lemma MisfiledIsLost(x: string, y: string, a: string, home: string)
    requires x != y && x != "" && y != ""
    ensures var logs := TwoNamespaces(x, y) + [ScriptAdds("3", a, x, home)] + [ScriptAdds("4", a, y, home)];
      && Replay(EmptyState, logs).Ok? && Replay(EmptyState, Survivors(logs)).Ok?
      && Id(Collections, a, x) in Replay(EmptyState, logs).value.live
      && Id(Collections, a, x) !in Replay(EmptyState, Survivors(logs)).value.live
  {
    hide Replay, Survivors;
    var p := TwoNamespaces(x, y);
    var l2, l3 := ScriptAdds("3", a, x, home), ScriptAdds("4", a, y, home);
    TwoNamespacesReplay(x, y);
    var s3 := OneMore(EmptyState, p, l2, p + [l2]);
    var s4 := OneMore(EmptyState, p + [l2], l3, p + [l2] + [l3]);
    var c3 := OneMore(EmptyState, p, l3, p + [l3]);
    assert p + [l2, l3] + [] == p + [l2] + [l3] && p + [l3] + [] == p + [l3];
    MergedAway(p, l2, l3, []);
  }
}
