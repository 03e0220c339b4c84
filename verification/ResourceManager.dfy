/**
 The resource manager: vertices rewired in place. Its methods accept, refuse and leave behind what
 Resources.Step says, and keep every edge of every live vertex wired as the state requires.
 */
module ResourceManager {
  import opened Wrappers
  import opened Resources
  import opened Linker
  import opened Wiring
  import opened RouteWiring
  import opened RouteLinking
  import opened RouteMemory
  import opened Acceptance
  import opened DomainOrder
  import opened Order
  import Counts

  /** A route as it is read: its spec, with the service and the modules looked up. */
  datatype RouteView = RouteView(spec: Spec, service: Option<Spec>, modules: map<string, Spec>)

  /** The service and every module that the spec names, as last accepted. */
  ghost predicate Resolves(st: State, namespace: string, view: RouteView) {
    && (view.spec.service != "" ==>
      var s := Id(Services, view.spec.service, namespace); s in st.live && view.service == Some(st.live[s]))
    && (forall m :: m in view.spec.modules ==>
      var i := Id(Modules, m, namespace); i in st.live && m in view.modules && view.modules[m] == st.live[i])
  }

  class Manager {
    /** The seven resource trees, filed by kind, name and namespace. */
    var tree: Tree
    /** The domains in matching order, if they have been listed since a domain last changed. */
    var priorityDomainCache: Option<seq<Spec>>
    ghost var state: State
    /** The edges of the live vertices. */
    ghost var E: map<Id, Edges>
    /** Every vertex ever made; routes can keep edges to vertices that have left the tree. */
    ghost var repr: set<Link>
    /** The modules each live route has named since it was added. */
    ghost var memory: Memory

    ghost predicate Valid()
      reads this, repr
    {
      Mirror(tree, E, state.live, repr) && Sound(tree, state, E, repr) && Remembers(E, memory)
    }

    ghost predicate CacheValid()
      reads this
    {
      priorityDomainCache.Some? ==> PriorityList(priorityDomainCache.value, state.live)
    }

    constructor ()
      ensures Valid() && CacheValid() && fresh(repr) && state == EmptyState && memory == map[]
    {
      priorityDomainCache := None;
      tree, state, E, repr, memory := map[], EmptyState, map[], {}, map[];
    }

    /** Takes on the tree and the record of an accepted call, the vertices being in line with it. */
    method Settle(T: Tree, ghost E': map<Id, Edges>, ghost repr': set<Link>, ghost st: State)
      requires Mirror(T, E', st.live, repr') && Sound(T, st, E', repr')
      requires Remembers(E, memory) && SameRoutes(E, E')
      modifies `tree, `state, `E, `repr
      ensures Valid() && tree == T && E == E' && repr == repr' && state == st
    {
      StillRemembers(E, E', memory);
      tree, E, repr, state := T, E', repr', st;
    }

    /** The same after a call on a route. */
    method SettleRoute(T: Tree, ghost E': map<Id, Edges>, ghost repr': set<Link>, ghost st: State, ghost mem: Memory)
      requires Mirror(T, E', st.live, repr') && Sound(T, st, E', repr') && Remembers(E', mem)
      modifies `tree, `state, `E, `repr, `memory
      ensures Valid() && tree == T && E == E' && repr == repr' && state == st && memory == mem
    {
      memory := mem;
      tree, E, repr, state := T, E', repr', st;
    }

    /** Another spec for a resource that is not a route: the vertex stays, its item is replaced. */
    method Update(id: Id, spec: Spec, ghost op: Op)
      requires Valid() && op.Add? && op.spec == spec && !op.kind.Routes?
      requires id == OpId(op) && id in tree && OpError(state, op).None?
      modifies `tree, `state, `E, `repr, repr
      ensures Valid() && state == Effect(old(state), op) && repr == old(repr)
    {
      Accepted(tree, state, E, repr, op);
      ReplaceItem(tree, E, state.live, repr, tree[id], spec);
      Settle(tree, E, repr, Effect(state, op));
    }

    method AddNamespace(spec: Spec)
      requires Valid()
      modifies `tree, `state, `E, `repr, repr
      ensures Valid() && fresh(repr - old(repr))
      ensures Step(old(state), Add(Namespaces, spec)) == Ok(state)
      ensures state.live == old(state).live[Id(Namespaces, spec.name, spec.name) := spec]
      ensures state.links == old(state).links
    {
      AddNamespaceMeans(state, spec);
      var id := NamespaceId(spec.name);
      if id in tree {
        Update(id, spec, Add(Namespaces, spec));
      } else {
        NewNamespace(id, spec);
      }
    }

    method NewNamespace(id: Id, spec: Spec)
      requires Valid() && id == NamespaceId(spec.name) && id !in tree
      modifies `tree, `state, `E, `repr
      ensures Valid() && fresh(repr - old(repr))
      ensures state == Effect(old(state), Add(Namespaces, spec))
    {
      var v := new Link(id, spec, EdgeNames(Namespaces));
      AddNamespaceWired(tree, state, E, id, v);
      ReachesPut(E, repr, id, v.edges, repr + {v});
      Accepted(tree[id := v], state, E[id := v.edges], repr + {v}, Add(Namespaces, spec));
      MirrorPut(tree, E, state.live, repr, id, v);
      Settle(tree[id := v], E[id := v.edges], repr + {v}, Effect(state, Add(Namespaces, spec)));
    }

    method RemoveNamespace(name: string) returns (err: Option<Error>)
      requires Valid()
      modifies `tree, `state, `E, `repr
      ensures Valid() && repr == old(repr)
      ensures err == OpError(old(state), Remove(Namespaces, name, name))
      ensures state == if err.None? then Effect(old(state), Remove(Namespaces, name, name)) else old(state)
      ensures err.None? <==>
        && Id(Namespaces, name, name) in old(state).live
        && forall i :: i in old(state).live && i.namespace == name ==> i.kind == Namespaces || i.kind == Secrets
      ensures err == Some(NotFound(Namespaces, name)) <==> Id(Namespaces, name, name) !in old(state).live
      ensures err.Some? && err.value.StillLinked? ==> LivesIn(old(state).live, err.value.users, name)
      ensures err.None? ==> state == State(old(state).live - {Id(Namespaces, name, name)}, old(state).links)
    {
      RemoveNamespaceMeans(state, name);
      if NamespaceId(name) !in tree {
        return Some(NotFound(Namespaces, name));
      }
      var n := ListLength(name, Routes);
      if n > 0 {
        return Some(StillLinked(name, Routes));
      }
      n := ListLength(name, Services);
      if n > 0 {
        return Some(StillLinked(name, Services));
      }
      n := ListLength(name, Modules);
      if n > 0 {
        return Some(StillLinked(name, Modules));
      }
      n := ListLength(name, Domains);
      if n > 0 {
        return Some(StillLinked(name, Domains));
      }
      n := ListLength(name, Collections);
      if n > 0 {
        return Some(StillLinked(name, Collections));
      }
      DropNamespace(name);
      err := None;
    }

    method DropNamespace(name: string)
      requires Valid() && OpError(state, Remove(Namespaces, name, name)).None?
      modifies `tree, `state, `E, `repr
      ensures Valid() && repr == old(repr) && state == Effect(old(state), Remove(Namespaces, name, name))
    {
      var id := NamespaceId(name);
      RemoveNamespaceWired(tree, state, E, id);
      MirrorDrop(tree, E, state.live, repr, id);
      ReachesDrop(E, repr, id);
      Accepted(tree - {id}, state, E - {id}, repr, Remove(Namespaces, name, name));
      Settle(tree - {id}, E - {id}, repr, Effect(state, Remove(Namespaces, name, name)));
    }

    method ListLength(name: string, kind: Kind) returns (n: nat)
      requires Valid() && NamespaceId(name) in tree && !kind.Namespaces? && !kind.Secrets?
      ensures n > 0 <==> Populated(state, kind, name)
    {
      ListedIsPopulated(tree, state, E, name, kind);
      n := tree[NamespaceId(name)].Len(ListName(kind));
    }

    /** AddService, AddModule, AddDomain, AddCollection and AddSecret, whose bodies differ in edge names only. */
    method AddOwned(kind: Kind, spec: Spec) returns (err: Option<Error>)
      requires Valid() && !kind.Namespaces? && !kind.Routes?
      modifies `tree, `state, `E, `repr, repr
      ensures Valid() && fresh(repr - old(repr))
      ensures err == OpError(old(state), Add(kind, spec))
      ensures state == if err.None? then Effect(old(state), Add(kind, spec)) else old(state)
      ensures err.None? <==>
        && Id(Namespaces, spec.namespace, spec.namespace) in old(state).live
        && (kind == Modules || kind == Secrets ==> spec.decodes)
      ensures err.None? ==>
        state == State(old(state).live[Id(kind, spec.name, spec.namespace) := spec], old(state).links)
    {
      AddOwnedMeans(state, kind, spec);
      if NamespaceId(spec.namespace) !in tree {
        return Some(NotFound(Namespaces, spec.namespace));
      }
      if (kind.Modules? || kind.Secrets?) && !spec.decodes {
        return Some(Undecodable(spec.name));
      }
      var id := Id(kind, spec.name, spec.namespace);
      if id in tree {
        Update(id, spec, Add(kind, spec));
      } else {
        AttachNew(id, spec);
      }
      err := None;
    }

    /** A new vertex, linked both ways with its namespace and then put in the tree. */
    method AttachNew(id: Id, spec: Spec)
      requires Valid() && !id.kind.Namespaces? && !id.kind.Routes? && id !in tree && NamespaceId(id.namespace) in tree
      requires id == OpId(Add(id.kind, spec)) && OpError(state, Add(id.kind, spec)).None?
      modifies `tree, `state, `E, `repr, repr
      ensures Valid() && fresh(repr - old(repr)) && state == Effect(old(state), Add(id.kind, spec))
    {
      hide Sound;
      var v := new Link(id, spec, EdgeNames(id.kind));
      var nsLk := tree[NamespaceId(id.namespace)];
      OwnedAccepted(tree, state, E, repr, id, v, spec);
      LinkOwner(tree, E, state.live, repr, id, v, nsLk);
      Settle(tree[id := v], AttachedEdges(tree, E, id, v), repr + {v}, Effect(state, Add(id.kind, spec)));
    }

    method RemoveService(name: string, namespace: string) returns (err: Option<Error>)
      requires Valid()
      modifies `tree, `state, `E, `repr, repr
      ensures Valid() && repr == old(repr)
      ensures err == OpError(old(state), Remove(Services, name, namespace))
      ensures state == if err.None? then Effect(old(state), Remove(Services, name, namespace)) else old(state)
      ensures err.None? <==>
        && Id(Services, name, namespace) in old(state).live && Id(Namespaces, namespace, namespace) in old(state).live
        && forall r :: r in old(state).links && r.namespace == namespace ==> old(state).links[r].service != Some(name)
      ensures err.Some? && err.value.Panics? ==> SharedByRoutes(old(state).links, name, namespace)
      ensures err.None? ==> state == State(old(state).live - {Id(Services, name, namespace)}, old(state).links)
    {
      hide Consistent, Effect, AllWired, Reaches, Remembers, ServiceShared;
      RemoveServiceMeans(state, name, namespace);
      var id := Id(Services, name, namespace);
      if id !in tree {
        return Some(NotFound(Services, name));
      }
      if NamespaceId(namespace) !in tree {
        return Some(NotFound(Namespaces, namespace));
      }
      InUseIsListed(tree, state, E, id);
      SharedIsListed(tree, state, E, id);
      var n := tree[id].Len(ToRoutes);
      // With more than one route, Get panics.
      if n > 1 {
        return Some(Panics(name));
      }
      var route := tree[id].Get(ToRoutes);
      if route.Some? {
        return Some(StillLinked(name, Routes));
      }
      Detach(id, Services, name, namespace);
      err := None;
    }

    method RemoveModule(name: string, namespace: string) returns (err: Option<Error>)
      requires Valid()
      modifies `tree, `state, `E, `repr, repr
      ensures Valid() && repr == old(repr)
      ensures err == OpError(old(state), Remove(Modules, name, namespace))
      ensures state == if err.None? then Effect(old(state), Remove(Modules, name, namespace)) else old(state)
      ensures err.None? <==>
        && Id(Modules, name, namespace) in old(state).live && Id(Namespaces, namespace, namespace) in old(state).live
        && forall r :: r in old(state).links && r.namespace == namespace ==> name !in old(state).links[r].modules
      ensures err.None? ==> state == State(old(state).live - {Id(Modules, name, namespace)}, old(state).links)
    {
      hide Consistent, Effect, AllWired, Reaches, Remembers, ModuleInUse;
      RemoveModuleMeans(state, name, namespace);
      var id := Id(Modules, name, namespace);
      if id !in tree {
        return Some(NotFound(Modules, name));
      }
      InUseIsListed(tree, state, E, id);
      var n := tree[id].Len(ToRoutes);
      if n > 0 {
        return Some(StillLinked(name, Routes));
      }
      if NamespaceId(namespace) !in tree {
        return Some(NotFound(Namespaces, namespace));
      }
      Detach(id, Modules, name, namespace);
      err := None;
    }

    /**
     RemoveDomain, RemoveCollection and RemoveSecret. A secret has no "routes" edge, so that guard of its own
     never holds.
     */
    method RemoveOwned(kind: Kind, name: string, namespace: string) returns (err: Option<Error>)
      requires Valid() && (kind.Domains? || kind.Collections? || kind.Secrets?)
      modifies `tree, `state, `E, `repr, repr
      ensures Valid() && repr == old(repr)
      ensures err == OpError(old(state), Remove(kind, name, namespace))
      ensures state == if err.None? then Effect(old(state), Remove(kind, name, namespace)) else old(state)
      ensures err.None? <==>
        Id(kind, name, namespace) in old(state).live && Id(Namespaces, namespace, namespace) in old(state).live
      ensures err == Some(NotFound(kind, name)) <==> Id(kind, name, namespace) !in old(state).live
      ensures err.None? ==> state == State(old(state).live - {Id(kind, name, namespace)}, old(state).links)
    {
      RemoveFreeMeans(state, kind, name, namespace);
      var id := Id(kind, name, namespace);
      if id !in tree {
        return Some(NotFound(kind, name));
      }
      if NamespaceId(namespace) !in tree {
        return Some(NotFound(Namespaces, namespace));
      }
      Detach(id, kind, name, namespace);
      err := None;
    }

    method Detach(id: Id, kind: Kind, name: string, namespace: string)
      requires Valid() && id == Id(kind, name, namespace) && !kind.Namespaces? && !kind.Routes?
      requires OpError(state, Remove(kind, name, namespace)).None?
      modifies `tree, `state, `E, `repr, repr
      ensures Valid() && repr == old(repr) && state == Effect(old(state), Remove(kind, name, namespace))
    {
      hide Sound;
      OwnedGone(tree, state, E, repr, id);
      ghost var st := Effect(state, Remove(kind, name, namespace));
      assert tree[id] in repr && tree[NamespaceId(namespace)] in repr;
      UnlinkOwner(tree, E, state.live, repr, id, kind, name, namespace, tree[id], tree[NamespaceId(namespace)]);
      Settle(tree - {id}, DetachedEdges(tree, E, id), repr, st);
    }

    /** transformRoute: the first thing the route names that is not there. */
    method RouteError(spec: Spec) returns (err: Option<Error>)
      requires Valid()
      ensures err == OpError(state, Add(Routes, spec))
      ensures err.Some? && err.value.NotFound? && err.value.kind == Modules ==>
        exists i: nat :: FirstMissing(state.live, spec.modules, spec.namespace, i) && err.value.name == spec.modules[i]
    {
      AddRouteMeans(state, spec);
      if NamespaceId(spec.namespace) !in tree {
        return Some(NotFound(Namespaces, spec.namespace));
      }
      if spec.service != "" && Id(Services, spec.service, spec.namespace) !in tree {
        return Some(NotFound(Services, spec.service));
      }
      for i := 0 to |spec.modules|
        invariant FirstMissingModule(state, spec.modules, spec.namespace) ==
          FirstMissingModule(state, spec.modules[i..], spec.namespace)
      {
        if Id(Modules, spec.modules[i], spec.namespace) !in tree {
          return Some(NotFound(Modules, spec.modules[i]));
        }
      }
      err := None;
    }

    method AddRoute(spec: Spec) returns (err: Option<Error>)
      requires Valid()
      modifies `tree, `state, `E, `repr, `memory, repr
      ensures Valid() && fresh(repr - old(repr))
      ensures memory == Remember(old(state), old(memory), Add(Routes, spec))
      ensures err == OpError(old(state), Add(Routes, spec))
      ensures state == if err.None? then Effect(old(state), Add(Routes, spec)) else old(state)
      ensures err.None? <==>
        && Id(Namespaces, spec.namespace, spec.namespace) in old(state).live
        && (spec.service != "" ==> Id(Services, spec.service, spec.namespace) in old(state).live)
        && forall m :: m in spec.modules ==> Id(Modules, m, spec.namespace) in old(state).live
      ensures err.None? ==> LedTo(old(state), spec, state)
    {
      AddRouteMeans(state, spec);
      RouteLedTo(state, spec);
      hide Mirror, Sound, Remembers, Effect, AddError;
      err := RouteError(spec);
      if err.None? {
        var id := Id(Routes, spec.name, spec.namespace);
        if id in tree {
          UpdateRoute(id, spec);
        } else {
          NewRoute(id, spec);
        }
      }
    }

    /** The item is replaced, then relinkRoute: unlinked first only if the new spec names a service. */
    method UpdateRoute(id: Id, spec: Spec)
      requires Valid() && id == Id(Routes, spec.name, spec.namespace) && id in tree
      requires OpError(state, Add(Routes, spec)).None?
      modifies `tree, `state, `E, `repr, `memory, repr
      ensures Valid() && repr == old(repr) && state == Effect(old(state), Add(Routes, spec))
      ensures memory == old(memory)[id := Remembered(old(memory), id) + Named(spec)]
    {
      hide Sound, Prepared, Remembers;
      var rtLk := tree[id];
      ReplaceItem(tree, E, state.live, repr, rtLk, spec);
      if spec.service != "" {
        UnlinkedIsReady(tree, state, E, repr, id, spec);
        UnlinkedRemembers(tree, state, E, repr, memory, id);
        UnlinkOldRoute(id, state.live[id := spec], spec.name, spec.namespace);
        LinkAndSettle(tree, state.links[id := NoLinks], Some(id), AllUnlinked(tree, state, E, id), repr, memory,
          id, rtLk, spec);
      } else {
        KeptIsReady(tree, state, E, repr, id, spec);
        LinkAndSettle(tree, state.links, None, E, repr, memory, id, rtLk, spec);
      }
    }

    method UnlinkOldRoute(id: Id, ghost items: map<Id, Spec>, name: string, namespace: string)
      requires Mirror(tree, E, items, repr) && Sound(tree, state, E, repr) && tree.Keys == state.live.Keys
      requires id == Id(Routes, name, namespace) && id in tree && NamespaceId(namespace) in tree
      modifies repr
      ensures id in state.links && ToModules in E[id]
      ensures Mirror(tree, AllUnlinked(tree, state, E, id), items, repr)
    {
      hide Mirror, AllWired, Reaches, Consistent;
      MirrorKeys(tree, E, items, repr);
      RouteLeadsTo(tree, state.links, E, repr, id);
      UnlinkRoute(tree, state.links[id].service, E, items, repr, id, tree[id], tree[NamespaceId(namespace)],
        name, namespace);
    }

    method NewRoute(id: Id, spec: Spec)
      requires Valid() && id == Id(Routes, spec.name, spec.namespace) && id !in tree
      requires OpError(state, Add(Routes, spec)).None?
      modifies `tree, `state, `E, `repr, `memory, repr
      ensures Valid() && fresh(repr - old(repr)) && state == Effect(old(state), Add(Routes, spec))
      ensures memory == old(memory)[id := Remembered(old(memory), id) + Named(spec)]
    {
      hide Mirror, Sound, Prepared;
      var rtLk := new Link(id, spec, EdgeNames(Routes));
      MirrorKeys(tree, E, state.live, repr);
      NewIsReady(tree, state, E, repr, id, rtLk, spec);
      MirrorPut(tree, E, state.live, repr, id, rtLk);
      ghost var repr0 := repr + {rtLk};
      NewRemembers(E, memory, id);
      LinkAndSettle(tree[id := rtLk], state.links[id := NoLinks], Some(id), E[id := NoEdges(Routes)], repr0,
        memory[id := {}], id, rtLk, spec);
      assert old(memory)[id := {}][id := {} + Named(spec)] == old(memory)[id := {} + Named(spec)];
      assert repr - old(repr) <= {rtLk};
    }

    /** relinkRoute's lookups and linking; the vertex is in the tree afterwards. */
    method LinkAndSettle(
      T: Tree, ghost links: map<Id, Links>, ghost hole: Option<Id>, ghost E0: map<Id, Edges>, ghost repr0: set<Link>,
      ghost mem: Memory, id: Id, rtLk: Link, spec: Spec)
      requires Mirror(T, E0, state.live[id := spec], repr0) && Prepared(T, state, links, hole, E0, repr0, id, spec)
      requires id == Id(Routes, spec.name, spec.namespace) && id in T && rtLk == T[id] && Remembers(E0, mem)
      modifies `tree, `state, `E, `repr, `memory, repr0
      ensures Valid() && repr == repr0 && state == Effect(old(state), Add(Routes, spec))
      ensures memory == mem[id := Remembered(mem, id) + Named(spec)]
    {
      hide Sound, Prepared;
      LinkedAccepted(T, state, links, hole, E0, repr0, id, spec);
      var modLks := map m | m in spec.modules :: T[Id(Modules, m, spec.namespace)];
      assert modLks.Keys == Named(spec);
      var svcLk := if spec.service != "" then Some(T[Id(Services, spec.service, spec.namespace)]) else None;
      LinkRoute(T, E0, state.live[id := spec], repr0, id, rtLk, T[NamespaceId(spec.namespace)], svcLk, modLks,
        spec.service, spec.name, spec.namespace);
      RelinkedRemembers(T, id, spec.service, Named(spec), E0, mem);
      SettleRoute(T, RelinkedAll(T, id, spec.service, Named(spec), E0), repr0, Effect(state, Add(Routes, spec)),
        mem[id := Remembered(mem, id) + Named(spec)]);
    }

    /**
     GetRoute, with the references refreshed on reading: the service under its name, and the items of whatever
     vertices the route leads to. What the spec names is there as last accepted; beside it, every module the
     route has named since it was added, removed or not.
     */
    method GetRoute(name: string, namespace: string) returns (r: Option<RouteView>)
      requires Valid()
      ensures var id := Id(Routes, name, namespace);
        && (r.Some? <==> id in state.live)
        && (r.Some? ==> r.value.spec == state.live[id] && Resolves(state, namespace, r.value))
        && (r.Some? ==> id in memory && r.value.modules.Keys == memory[id])
    {
      var id := Id(Routes, name, namespace);
      if id !in tree {
        return None;
      }
      var rtLk := tree[id];
      RouteLeadsTo(tree, state.links, E, repr, id);
      assert RemembersAt(E, memory, id);
      var service := None;
      if rtLk.item.service != "" && Id(Services, rtLk.item.service, namespace) in tree {
        service := Some(tree[Id(Services, rtLk.item.service, namespace)].item);
      }
      var modules := map m | m in rtLk.edges[ToModules] :: rtLk.edges[ToModules][m].item;
      ReadsResolve(id, RouteView(rtLk.item, service, modules));
      r := Some(RouteView(rtLk.item, service, modules));
    }

    lemma ReadsResolve(id: Id, view: RouteView)
      requires Valid() && id in tree && id.kind.Routes? && id in state.links && tree[id].edges.Keys == EdgeNames(Routes)
      requires view.spec == tree[id].item
      requires view.spec.service != "" && Id(Services, view.spec.service, id.namespace) in tree ==>
        view.service == Some(tree[Id(Services, view.spec.service, id.namespace)].item)
      requires view.modules.Keys == tree[id].edges[ToModules].Keys
      requires forall m :: m in view.modules ==> view.modules[m] == tree[id].edges[ToModules][m].item
      ensures Resolves(state, id.namespace, view)
    {
      assert Linked(state, id);
      assert VertexWired(tree, state.links, None, id, E[id]);
    }

    method RemoveRoute(name: string, namespace: string) returns (err: Option<Error>)
      requires Valid()
      modifies `tree, `state, `E, `repr, `memory, repr
      ensures Valid() && repr == old(repr)
      ensures memory == Remember(old(state), old(memory), Remove(Routes, name, namespace))
      ensures err == OpError(old(state), Remove(Routes, name, namespace))
      ensures state == if err.None? then Effect(old(state), Remove(Routes, name, namespace)) else old(state)
      ensures err.None? <==>
        Id(Routes, name, namespace) in old(state).live && Id(Namespaces, namespace, namespace) in old(state).live
      ensures err.None? ==> var id := Id(Routes, name, namespace);
        state == State(old(state).live - {id}, old(state).links - {id})
    {
      RemoveFreeMeans(state, Routes, name, namespace);
      if NamespaceId(namespace) !in tree {
        return Some(NotFound(Namespaces, namespace));
      }
      if Id(Routes, name, namespace) !in tree {
        return Some(NotFound(Routes, name));
      }
      DropRoute(Id(Routes, name, namespace), name, namespace);
      err := None;
    }

    method DropRoute(id: Id, name: string, namespace: string)
      requires Valid() && id == Id(Routes, name, namespace)
      requires OpError(state, Remove(Routes, name, namespace)).None?
      modifies `tree, `state, `E, `repr, `memory, repr
      ensures Valid() && repr == old(repr) && state == Effect(old(state), Remove(Routes, name, namespace))
      ensures memory == old(memory) - {id}
    {
      hide Sound, Remembers;
      RouteGone(tree, state, E, repr, id);
      ghost var U := AllUnlinked(tree, state, E, id);
      UnlinkedRemembers(tree, state, E, repr, memory, id);
      GoneForgotten(U, memory, id);
      UnlinkOldRoute(id, state.live, name, namespace);
      MirrorDrop(tree, U, state.live, repr, id);
      SettleRoute(tree - {id}, U - {id}, repr, Effect(state, Remove(Routes, name, namespace)), memory - {id});
    }

    method AddDomain(spec: Spec) returns (err: Option<Error>)
      requires Valid() && CacheValid()
      modifies this, repr
      ensures Valid() && CacheValid() && fresh(repr - old(repr)) && memory == old(memory)
      ensures err == OpError(old(state), Add(Resources.Domains, spec))
      ensures state == if err.None? then Effect(old(state), Add(Resources.Domains, spec)) else old(state)
      ensures err.None? <==> Id(Namespaces, spec.namespace, spec.namespace) in old(state).live
      ensures err.None? ==>
        state == State(old(state).live[Id(Resources.Domains, spec.name, spec.namespace) := spec], old(state).links)
    {
      hide Mirror, Sound, AddError;
      err := AddOwned(Resources.Domains, spec);
      if err.None? {
        priorityDomainCache := None;
      }
    }

    method RemoveDomain(name: string, namespace: string) returns (err: Option<Error>)
      requires Valid() && CacheValid()
      modifies this, repr
      ensures Valid() && CacheValid() && repr == old(repr) && memory == old(memory)
      ensures err == OpError(old(state), Remove(Resources.Domains, name, namespace))
      ensures state ==
        if err.None? then Effect(old(state), Remove(Resources.Domains, name, namespace)) else old(state)
      ensures err.None? <==>
        && Id(Resources.Domains, name, namespace) in old(state).live
        && Id(Namespaces, namespace, namespace) in old(state).live
      ensures err.None? ==>
        state == State(old(state).live - {Id(Resources.Domains, name, namespace)}, old(state).links)
    {
      hide Mirror, Sound, RemoveError;
      err := RemoveOwned(Resources.Domains, name, namespace);
      priorityDomainCache := None;
    }

    /** Every live domain, best first; the list is kept for the next call unless it is empty. */
    method GetDomainsByPriority() returns (list: seq<Spec>)
      requires Valid() && CacheValid()
      modifies `priorityDomainCache
      ensures Valid() && CacheValid()
      ensures PriorityList(list, state.live)
      ensures forall d :: d in list <==>
        exists id :: id in state.live && id.kind == Resources.Domains && state.live[id] == d
      ensures forall i, j :: 0 <= i < j < |list| ==>
        && list[i].priority >= list[j].priority
        && (list[i].priority == list[j].priority ==> !StringLt(list[i].name, list[j].name))
    {
      hide Mirror, Sound, Remembers;
      if priorityDomainCache.Some? {
        ListMeans(priorityDomainCache.value, state.live);
        return priorityDomainCache.value;
      }
      list := DomainsByPriority();
      ListMeans(list, state.live);
      if list != [] {
        priorityDomainCache := Some(list);
      }
    }

    method DomainsByPriority() returns (list: seq<Spec>)
      requires Valid()
      ensures PriorityList(list, state.live)
    {
      var todo := set id | id in tree && id.kind.Domains?;
      ghost var all := todo;
      ghost var seen: set<Spec> := {};
      list := [];
      while todo != {}
        invariant todo <= all
        invariant seen == set id | id in all - todo :: state.live[id]
        invariant multiset(list) == multiset(seen) && InOrder(list)
      {
        var id :| id in todo;
        DomainSpecsDiffer(state, all, id);
        list := Place(list, tree[id].item);
        todo := todo - {id};
        assert all - todo == (all - (todo + {id})) + {id};
        seen := seen + {state.live[id]};
      }
      assert seen == LiveDomains(state.live);
    }

    /** One call of the administration interface. */
    method Call(op: Op) returns (err: Option<Error>)
      requires Valid() && CacheValid()
      modifies this, repr
      ensures Valid() && CacheValid() && fresh(repr - old(repr))
      ensures Step(old(state), op) == if err.None? then Ok(state) else Err(err.value)
      ensures err.Some? ==> state == old(state)
      ensures memory == Remember(old(state), old(memory), op)
    {
      hide Valid;
      OtherKindsKeepDomains(state, op);
      match op
      case Add(Namespaces, spec) => AddNamespace(spec); err := None;
      case Add(Routes, spec) => err := AddRoute(spec);
      case Add(Domains, spec) => err := AddDomain(spec);
      case Add(kind, spec) => err := AddOwned(kind, spec);
      case Remove(Namespaces, name, namespace) => err := RemoveNamespace(name);
      case Remove(Routes, name, namespace) => err := RemoveRoute(name, namespace);
      case Remove(Services, name, namespace) => err := RemoveService(name, namespace);
      case Remove(Modules, name, namespace) => err := RemoveModule(name, namespace);
      case Remove(Domains, name, namespace) => err := RemoveDomain(name, namespace);
      case Remove(kind, name, namespace) => err := RemoveOwned(kind, name, namespace);
    }

    /** Any run of calls from any reached state ends where the run on values ends. */
    method CallAll(ops: seq<Op>)
      requires Valid() && CacheValid()
      modifies this, repr
      ensures Valid() && CacheValid() && fresh(repr - old(repr))
      ensures state == Run(old(state), ops) && memory == RunMemory(old(state), old(memory), ops)
    {
      for i := 0 to |ops|
        invariant Valid() && CacheValid() && fresh(repr - old(repr))
        invariant state == Run(old(state), ops[..i]) && memory == RunMemory(old(state), old(memory), ops[..i])
      {
        assert ops[..i + 1][..i] == ops[..i] && ops[..i + 1][i] == ops[i];
        var _ := Call(ops[i]);
      }
      assert ops[..|ops|] == ops;
    }

    /**
     FindNamespaceByRequest: the namespace of a matching domain of highest priority, or the default one. A
     domain whose patterns fail to compile is passed over.
     */
    method FindNamespaceByRequest(pm: (string, string) -> Outcome, host: string, disableDefault: bool)
      returns (r: Option<string>)
      requires Valid() && CacheValid()
      modifies `priorityDomainCache
      ensures Valid() && CacheValid()
      ensures RightNamespace(pm, host, disableDefault, state.live, r)
      ensures (exists id ::
        id in state.live && id.kind == Resources.Domains && HostMatches(pm, host, state.live[id])) ==>
        exists id :: Best(pm, host, state.live, id) && r == Some(state.live[id].namespace)
      ensures (forall id :: id in state.live ==> id.kind != Resources.Domains) ==>
        && (r.Some? <==> exists id :: id in state.live && id.kind == Namespaces)
        && (r.Some? ==> Id(Namespaces, r.value, r.value) in state.live)
      ensures NoneMatches(pm, host, state.live) ==>
        r == (if !disableDefault && DefaultIsFree(state.live) then Some("default") else None)
    {
      hide Valid;
      var lone := NoDomainButNamespace();
      if lone {
        r := SomeNamespace();
      } else {
        r := FindNamespaceByDomain(pm, host, disableDefault);
      }
      AnswerMeans(pm, host, disableDefault, state.live, r);
    }

    /**
     DomainCountEquals and NamespaceCountEquals: a walk over the tree of the kind that counts down and stops
     early.
     */
    method CountEquals(kind: Kind, target: nat) returns (equal: bool)
      requires Valid()
      ensures equal <==> Counts.Answer(|OfKind(state.live, kind)|, target)
      ensures equal <==> if target == 0 then OfKind(state.live, kind) == {} else |OfKind(state.live, kind)| >= target
    {
      hide Sound;
      var ids := set id | id in tree && id.kind == kind;
      assert ids == OfKind(state.live, kind);
      equal := Counts.CountDownOver(ids, target);
    }

    /** DomainCountEquals(0) and NamespaceCountEquals(1), which is true of any number of namespaces but none. */
    method NoDomainButNamespace() returns (lone: bool)
      requires Valid()
      ensures lone <==> LiveDomains(state.live) == {} && exists id :: id in state.live && id.kind.Namespaces?
    {
      hide Sound;
      NoLiveDomains(state.live);
      NoneOfKind(state.live, Resources.Domains);
      NoneOfKind(state.live, Namespaces);
      lone := CountEquals(Resources.Domains, 0);
      if lone {
        lone := CountEquals(Namespaces, 1);
      }
    }

    /** The code takes the root of the namespace tree, however many namespaces there are. */
    method SomeNamespace() returns (r: Option<string>)
      requires Valid() && exists id :: id in state.live && id.kind.Namespaces?
      ensures r.Some? && NamespaceId(r.value) in state.live
    {
      var id :| id in tree && id.kind.Namespaces?;
      assert Filed(state, id);
      r := Some(id.name);
    }

    method FindNamespaceByDomain(pm: (string, string) -> Outcome, host: string, disableDefault: bool)
      returns (r: Option<string>)
      requires Valid() && CacheValid()
      requires LiveDomains(state.live) != {} || forall id :: id in state.live ==> !id.kind.Namespaces?
      modifies `priorityDomainCache
      ensures Valid() && CacheValid()
      ensures RightNamespace(pm, host, disableDefault, state.live, r)
    {
      hide Sound, Matches;
      var domains := GetDomainsByPriority();
      var defaultNsHasDomain;
      r, defaultNsHasDomain := FirstMatch(pm, host, disableDefault, domains, state.live);
      if r.None? && !disableDefault && !defaultNsHasDomain && NamespaceId("default") in tree {
        r := Some("default");
      }
    }
  }

  /** A route reads a module that it has stopped naming and that has been removed. */
  method ReadsRemovedModule(n: string, m: string, svc: string, rt: string) returns (r: Option<RouteView>)
    requires svc != ""
    ensures r.Some? && r.value.spec.modules == [] && m in r.value.modules
    ensures Id(Modules, m, n) !in Run(EmptyState, StaleRun(n, m, svc, rt)).live
  {
    hide Manager.Valid, Manager.CacheValid, Run, RunMemory;
    var manager := new Manager();
    manager.CallAll(StaleRun(n, m, svc, rt));
    StaleModuleIsRemembered(n, m, svc, rt);
    r := manager.GetRoute(rt, n);
  }

  ghost function OfKind(live: map<Id, Spec>, kind: Kind): set<Id> { set id | id in live && id.kind == kind }

  lemma NoneOfKind(live: map<Id, Spec>, kind: Kind)
    ensures |OfKind(live, kind)| == 0 <==> forall id :: id in live ==> id.kind != kind
  {
    forall id | id in live && id.kind == kind ensures id in OfKind(live, kind) { }
  }

  lemma NoLiveDomains(live: map<Id, Spec>)
    ensures LiveDomains(live) == {} <==> forall id :: id in live ==> !id.kind.Domains?
  {
    forall id | id in live && id.kind.Domains? ensures live[id] in LiveDomains(live) { }
  }

  lemma DomainSpecsDiffer(st: State, ids: set<Id>, id: Id)
    requires Consistent(st) && id in ids && forall i :: i in ids ==> i in st.live && i.kind.Domains?
    ensures forall i :: i in ids && i != id ==> st.live[i] != st.live[id]
  {
    forall i | i in ids ensures Filed(st, i) { }
  }

  lemma OtherKindsKeepDomains(st: State, op: Op)
    ensures !op.kind.Domains? ==> LiveDomains(Effect(st, op).live) == LiveDomains(st.live)
  {
    if op.kind.Domains? { return; }
    var id, live := OpId(op), Effect(st, op).live;
    forall d ensures d in LiveDomains(live) <==> d in LiveDomains(st.live) {
      if d in LiveDomains(st.live) {
        var i :| i in st.live && i.kind.Domains? && st.live[i] == d;
        assert i in live && live[i] == d;
      }
    }
  }
}
