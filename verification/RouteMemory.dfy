/**
 The modules a route leads to. Unlinking leaves a route's own edges to its modules in place, so the route
 remembers every module it has named since it was added, and reads them all.
 */
module RouteMemory {
  import opened Resources
  import opened Linker
  import opened Wiring
  import opened RouteWiring

  /** The modules each live route has named. */
  type Memory = map<Id, set<string>>

  function Remembered(mem: Memory, id: Id): set<string> { if id in mem then mem[id] else {} }

  /** What one call adds or drops. */
  function Remember(s: State, mem: Memory, op: Op): Memory {
    if !op.kind.Routes? || OpError(s, op).Some? then mem
    else
      match op
      case Add(_, spec) => mem[OpId(op) := Remembered(mem, OpId(op)) + Named(spec)]
      case Remove(_, _, _) => mem - {OpId(op)}
  }

  function RunMemory(s: State, mem: Memory, ops: seq<Op>): Memory {
    if ops == [] then mem
    else
      var init := ops[..|ops| - 1];
      Remember(Run(s, init), RunMemory(s, mem, init), ops[|ops| - 1])
  }

  /** Call `k` of the run is accepted. */
  predicate AcceptedAt(ops: seq<Op>, k: nat)
    requires k < |ops|
  {
    OpError(Run(EmptyState, ops[..k]), ops[k]).None?
  }

  predicate AddsRoute(op: Op, id: Id) { op.Add? && op.kind.Routes? && OpId(op) == id }

  predicate RemovesRoute(op: Op, id: Id) { op.Remove? && op.kind.Routes? && OpId(op) == id }

  /** Call `k` adds or updates the route, and the route is not removed later in the run. */
  ghost predicate AddedAt(ops: seq<Op>, id: Id, k: nat)
    requires k < |ops|
  {
    && AddsRoute(ops[k], id) && AcceptedAt(ops, k)
    && forall j :: k < j < |ops| && RemovesRoute(ops[j], id) ==> !AcceptedAt(ops, j)
  }

  /** Some accepted call has named the module since the route was last removed. */
  ghost predicate NamedSinceAdded(ops: seq<Op>, id: Id, m: string) {
    exists k :: 0 <= k < |ops| && AddedAt(ops, id, k) && m in ops[k].spec.modules
  }

  lemma AcceptedInPrefix(ops: seq<Op>, n: nat, k: nat)
    requires k < n <= |ops|
    ensures AcceptedAt(ops[..n], k) <==> AcceptedAt(ops, k)
  {
    assert ops[..n][..k] == ops[..k];
  }

  lemma AddedInPrefix(ops: seq<Op>, id: Id, k: nat)
    requires k < |ops| - 1
    ensures var n := |ops| - 1;
      AddedAt(ops, id, k) <==> AddedAt(ops[..n], id, k) && !(AcceptedAt(ops, n) && RemovesRoute(ops[n], id))
  {
    hide AcceptedAt, AddsRoute, RemovesRoute;
    var n := |ops| - 1;
    forall j | 0 <= j < n ensures AcceptedAt(ops[..n], j) <==> AcceptedAt(ops, j) { AcceptedInPrefix(ops, n, j); }
  }

  lemma NamedSinceSnoc(ops: seq<Op>, id: Id, m: string)
    requires ops != []
    ensures var n := |ops| - 1; var init, op := ops[..n], ops[n];
      NamedSinceAdded(ops, id, m) <==>
        || (AcceptedAt(ops, n) && AddsRoute(op, id) && m in op.spec.modules)
        || (NamedSinceAdded(init, id, m) && !(AcceptedAt(ops, n) && RemovesRoute(op, id)))
  {
    hide AcceptedAt, RemovesRoute;
    var n := |ops| - 1;
    var init := ops[..n];
    forall k | 0 <= k < n
      ensures AddedAt(ops, id, k) <==> AddedAt(init, id, k) && !(AcceptedAt(ops, n) && RemovesRoute(ops[n], id))
    {
      AddedInPrefix(ops, id, k);
    }
    if NamedSinceAdded(ops, id, m) {
      var k :| 0 <= k < |ops| && AddedAt(ops, id, k) && m in ops[k].spec.modules;
      if k < n { assert AddedAt(init, id, k) && m in init[k].spec.modules; }
    }
    if NamedSinceAdded(init, id, m) && !(AcceptedAt(ops, n) && RemovesRoute(ops[n], id)) {
      var k :| 0 <= k < |init| && AddedAt(init, id, k) && m in init[k].spec.modules;
      assert AddedAt(ops, id, k) && m in ops[k].spec.modules;
    }
    if AcceptedAt(ops, n) && AddsRoute(ops[n], id) && m in ops[n].spec.modules {
      assert AddedAt(ops, id, n);
    }
  }

  /** What a run remembers is what has been named since the route was added. */
  lemma {:induction false} MemoryIsNamedSince(ops: seq<Op>, id: Id, m: string)
    ensures m in Remembered(RunMemory(EmptyState, map[], ops), id) <==> NamedSinceAdded(ops, id, m)
  {
    if ops != [] {
      MemoryIsNamedSince(ops[..|ops| - 1], id, m);
      NamedSinceSnoc(ops, id, m);
    }
  }

  /** A live route remembers at least what its spec names. */
  lemma {:induction false} SpecIsRemembered(ops: seq<Op>, id: Id)
    requires id.kind.Routes?
    ensures var s, mem := Run(EmptyState, ops), RunMemory(EmptyState, map[], ops);
      (id in mem <==> id in s.live) && (id in s.live ==> Named(s.live[id]) <= mem[id])
  {
    if ops != [] {
      SpecIsRemembered(ops[..|ops| - 1], id);
    }
  }

  /**
   When the modules a route remembers, all of which it reads, are just those its spec names: exactly when
   every module named since the route was added is still named.
   */
  lemma ReadIsExactIff(ops: seq<Op>, id: Id)
    requires id.kind.Routes? && id in Run(EmptyState, ops).live
    ensures id in RunMemory(EmptyState, map[], ops)
    ensures var spec := Run(EmptyState, ops).live[id];
      RunMemory(EmptyState, map[], ops)[id] == Named(spec) <==>
        forall k :: 0 <= k < |ops| && AddedAt(ops, id, k) ==> Named(ops[k].spec) <= Named(spec)
  {
    SpecIsRemembered(ops, id);
    var spec, mem := Run(EmptyState, ops).live[id], RunMemory(EmptyState, map[], ops);
    if mem[id] == Named(spec) {
      forall k | 0 <= k < |ops| && AddedAt(ops, id, k) ensures Named(ops[k].spec) <= Named(spec) {
        forall m | m in Named(ops[k].spec) ensures m in Named(spec) {
          assert NamedSinceAdded(ops, id, m);
          MemoryIsNamedSince(ops, id, m);
        }
      }
    }
    if forall k :: 0 <= k < |ops| && AddedAt(ops, id, k) ==> Named(ops[k].spec) <= Named(spec) {
      forall m | m in mem[id] ensures m in Named(spec) {
        MemoryIsNamedSince(ops, id, m);
        var k :| 0 <= k < |ops| && AddedAt(ops, id, k) && m in ops[k].spec.modules;
        assert m in Named(ops[k].spec);
      }
    }
  }

  /** The route vertices lead to just the modules remembered. */
  ghost predicate Remembers(E: map<Id, Edges>, mem: Memory) {
    forall id: Id {:trigger RemembersAt(E, mem, id)} :: id.kind.Routes? ==> RemembersAt(E, mem, id)
  }

  ghost predicate RemembersAt(E: map<Id, Edges>, mem: Memory, id: Id) {
    && (id in mem <==> id in E)
    && (id in E ==> ToModules in E[id] && E[id][ToModules].Keys == mem[id])
  }

  /** No route's edges have changed, and no route has come or gone. */
  ghost predicate SameRoutes(E: map<Id, Edges>, E': map<Id, Edges>) {
    forall id: Id {:trigger id in E'} :: id.kind.Routes? ==> (id in E' <==> id in E) && (id in E' ==> E'[id] == E[id])
  }

  lemma StillRemembers(E: map<Id, Edges>, E': map<Id, Edges>, mem: Memory)
    requires Remembers(E, mem) && SameRoutes(E, E')
    ensures Remembers(E', mem)
  {
    forall id: Id | id.kind.Routes? ensures RemembersAt(E', mem, id) {
      assert RemembersAt(E, mem, id);
      assert id in E' <==> id in E;
    }
  }

  /** Unlinking a route leaves its edges to modules alone. */
  lemma UnlinkedRemembers(T: Tree, st: State, E: map<Id, Edges>, repr: set<Link>, mem: Memory, id: Id)
    requires Sound(T, st, E, repr) && id in T && id.kind.Routes? && id in st.links && ToModules in E[id]
    requires Remembers(E, mem)
    ensures Remembers(AllUnlinked(T, st, E, id), mem)
  {
    var U := AllUnlinked(T, st, E, id);
    forall i: Id | i.kind.Routes? ensures RemembersAt(U, mem, i) {
      assert RemembersAt(E, mem, i);
    }
  }

  lemma RelinkedRemembers(T: Tree, id: Id, service: string, done: set<string>, E: map<Id, Edges>, mem: Memory)
    requires id in T && NamespaceId(id.namespace) in T && id.kind.Routes?
    requires service != "" ==> Id(Services, service, id.namespace) in T
    requires forall m :: m in done ==> Id(Modules, m, id.namespace) in T
    requires E.Keys == T.Keys && E[id].Keys == EdgeNames(Routes)
    requires Remembers(E, mem)
    ensures Remembers(RelinkedAll(T, id, service, done, E), mem[id := Remembered(mem, id) + done])
  {
    var R, mem' := RelinkedAll(T, id, service, done, E), mem[id := Remembered(mem, id) + done];
    forall i: Id | i.kind.Routes? ensures RemembersAt(R, mem', i) {
      assert RemembersAt(E, mem, i);
      if i == id {
        assert R[i][ToModules] == E[i][ToModules] + NamedModules(T, id.namespace, done);
      }
    }
  }

  /** A fresh route has named nothing yet. */
  lemma NewRemembers(E: map<Id, Edges>, mem: Memory, id: Id)
    requires Remembers(E, mem) && id.kind.Routes? && id !in E
    ensures id !in mem && Remembers(E[id := NoEdges(Routes)], mem[id := {}])
  {
    assert RemembersAt(E, mem, id);
    forall i: Id | i.kind.Routes? ensures RemembersAt(E[id := NoEdges(Routes)], mem[id := {}], i) {
      assert RemembersAt(E, mem, i);
    }
  }

  lemma GoneForgotten(E: map<Id, Edges>, mem: Memory, id: Id)
    requires Remembers(E, mem)
    ensures Remembers(E - {id}, mem - {id})
  {
    forall i: Id | i.kind.Routes? ensures RemembersAt(E - {id}, mem - {id}, i) {
      assert RemembersAt(E, mem, i);
    }
  }

  function Plain(name: string, namespace: string, service: string, modules: seq<string>): Spec {
    Spec(name, namespace, service, modules, 0, [], true, "")
  }

  /** A route names a module, is updated to name none, and the module is removed. */
  function StaleRun(n: string, m: string, svc: string, rt: string): seq<Op> {
    [Add(Namespaces, Plain(n, "", "", [])), Add(Modules, Plain(m, n, "", [])), Add(Services, Plain(svc, n, "", [])),
     Add(Routes, Plain(rt, n, svc, [m])), Add(Routes, Plain(rt, n, svc, [])), Remove(Modules, m, n)]
  }

  lemma OneMoreCall(ops: seq<Op>, op: Op, longer: seq<Op>) returns (s: State, mem: Memory)
    requires longer == ops + [op] && OpError(Run(EmptyState, ops), op).None?
    ensures s == Run(EmptyState, longer) == Effect(Run(EmptyState, ops), op)
    ensures mem == RunMemory(EmptyState, map[], longer)
    ensures mem == Remember(Run(EmptyState, ops), RunMemory(EmptyState, map[], ops), op)
  {
    assert longer[..|longer| - 1] == ops;
    s, mem := Run(EmptyState, longer), RunMemory(EmptyState, map[], longer);
  }

  lemma ModuleIsNamed(n: string, m: string, svc: string, rt: string)
    requires svc != ""
    ensures var ops, id := StaleRun(n, m, svc, rt)[..4], Id(Routes, rt, n);
      var s, mem := Run(EmptyState, ops), RunMemory(EmptyState, map[], ops);
      && {id, NamespaceId(n), Id(Modules, m, n), Id(Services, svc, n)} <= s.live.Keys && s.links.Keys == {id}
      && id in mem && m in mem[id]
  {
    var ops, id := StaleRun(n, m, svc, rt), Id(Routes, rt, n);
    var s1, mem1 := OneMoreCall([], ops[0], ops[..1]);
    var s2, mem2 := OneMoreCall(ops[..1], ops[1], ops[..2]);
    var s3, mem3 := OneMoreCall(ops[..2], ops[2], ops[..3]);
    NoMissingModule(s3, [m], n);
    assert s3.links == map[];
    var s4, mem4 := OneMoreCall(ops[..3], ops[3], ops[..4]);
    assert m in Named(ops[3].spec);
  }

  /** Every call of that run is accepted, and the route still remembers the module. */
  lemma StaleModuleIsRemembered(n: string, m: string, svc: string, rt: string)
    requires svc != ""
    ensures var ops, id := StaleRun(n, m, svc, rt), Id(Routes, rt, n);
      var s, mem := Run(EmptyState, ops), RunMemory(EmptyState, map[], ops);
      && id in s.live && s.live[id].modules == [] && Id(Modules, m, n) !in s.live
      && id in mem && m in mem[id]
  {
    hide Run, RunMemory;
    var ops, id := StaleRun(n, m, svc, rt), Id(Routes, rt, n);
    ModuleIsNamed(n, m, svc, rt);
    var s5, mem5 := OneMoreCall(ops[..4], ops[4], ops[..5]);
    assert Named(ops[4].spec) == {};
    assert s5.links[id].modules == {};
    assert !ModuleInUse(s5, m, n);
    var s6, mem6 := OneMoreCall(ops[..5], ops[5], ops);
  }
}
