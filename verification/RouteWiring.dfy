/** Unlinking and relinking a route: what happens to the edges of every vertex, and why the result is wired. */
module RouteWiring {
  import opened Wrappers
  import opened Resources
  import opened Linker
  import opened Wiring

  function Put(e: Edges, name: EdgeName, key: string, v: Link): Edges {
    if name in e then e[name := e[name][key := v]] else e
  }

  function Drop(e: Edges, name: EdgeName, key: string): Edges {
    if name in e then e[name := e[name] - {key}] else e
  }

  /** The edges of vertex `i` once route `id` has been unlinked, its modules only as far as `done`. */
  ghost function UnlinkedEdges(
    T: Tree, service: Option<string>, id: Id, modules: map<string, Link>, done: set<string>, i: Id, e: Edges): Edges
    requires i in T && done <= modules.Keys
  {
    if i == NamespaceId(id.namespace) then Drop(e, ToRoutes, id.name)
    else if i == id then Drop(e, ToNamespace, id.namespace)[ToService := map[]]
    else if i.kind.Services? && i.namespace == id.namespace && service == Some(i.name) then Drop(e, ToRoutes, id.name)
    else if i.kind.Modules? && i.namespace == id.namespace && i.name in done && modules[i.name] == T[i] then
      Drop(e, ToRoutes, id.name)
    else e
  }

  ghost function Unlinked(
    T: Tree, service: Option<string>, id: Id, modules: map<string, Link>, done: set<string>, E: map<Id, Edges>)
    : map<Id, Edges>
    requires E.Keys == T.Keys && done <= modules.Keys
  {
    map i | i in T :: UnlinkedEdges(T, service, id, modules, done, i, E[i])
  }

  ghost function NamedModules(T: Tree, namespace: string, done: set<string>): map<string, Link>
    requires forall m :: m in done ==> Id(Modules, m, namespace) in T
  {
    map m | m in done :: T[Id(Modules, m, namespace)]
  }

  /** The edges of vertex `i` once route `id` has been linked for `spec`, its modules only as far as `done`. */
  ghost function RelinkedEdges(T: Tree, id: Id, service: string, done: set<string>, i: Id, e: Edges): Edges
    requires id in T && NamespaceId(id.namespace) in T
    requires service != "" ==> Id(Services, service, id.namespace) in T
    requires forall m :: m in done ==> Id(Modules, m, id.namespace) in T
    requires i == id ==> e.Keys == EdgeNames(Routes)
  {
    if i == NamespaceId(id.namespace) then Put(e, ToRoutes, id.name, T[id])
    else if i == id then
      e[ToService := if service != "" then map[service := T[Id(Services, service, id.namespace)]] else e[ToService]]
       [ToNamespace := map[id.namespace := T[NamespaceId(id.namespace)]]]
       [ToModules := e[ToModules] + NamedModules(T, id.namespace, done)]
    else if service != "" && i == Id(Services, service, id.namespace) then Put(e, ToRoutes, id.name, T[id])
    else if i.kind.Modules? && i.namespace == id.namespace && i.name in done then Put(e, ToRoutes, id.name, T[id])
    else e
  }

  ghost function RelinkedAll(T: Tree, id: Id, service: string, done: set<string>, E: map<Id, Edges>): map<Id, Edges>
    requires id in T && NamespaceId(id.namespace) in T
    requires service != "" ==> Id(Services, service, id.namespace) in T
    requires forall m :: m in done ==> Id(Modules, m, id.namespace) in T
    requires E.Keys == T.Keys && E[id].Keys == EdgeNames(Routes)
  {
    map i | i in T :: RelinkedEdges(T, id, service, done, i, E[i])
  }

  lemma RoutesOfServiceAfter(links: map<Id, Links>, id: Id, l: Links, name: string, namespace: string)
    requires id.kind.Routes?
    ensures RoutesOfService(links[id := l], name, namespace) ==
      if namespace == id.namespace && l.service == Some(name) then RoutesOfService(links, name, namespace) + {id.name}
      else if namespace == id.namespace then RoutesOfService(links, name, namespace) - {id.name}
      else RoutesOfService(links, name, namespace)
  {
    var links' := links[id := l];
    forall r ensures r in RoutesOfService(links', name, namespace) <==>
      (if namespace == id.namespace && r == id.name then l.service == Some(name)
       else r in RoutesOfService(links, name, namespace))
    {
      var i := Id(Routes, r, namespace);
      assert r in RoutesOfService(links', name, namespace) <==> i in links' && links'[i].service == Some(name);
      assert r in RoutesOfService(links, name, namespace) <==> i in links && links[i].service == Some(name);
    }
  }

  lemma RoutesOfModuleAfter(links: map<Id, Links>, id: Id, l: Links, name: string, namespace: string)
    requires id.kind.Routes?
    ensures RoutesOfModule(links[id := l], name, namespace) ==
      if namespace == id.namespace && name in l.modules then RoutesOfModule(links, name, namespace) + {id.name}
      else if namespace == id.namespace then RoutesOfModule(links, name, namespace) - {id.name}
      else RoutesOfModule(links, name, namespace)
  {
    var links' := links[id := l];
    forall r ensures r in RoutesOfModule(links', name, namespace) <==>
      (if namespace == id.namespace && r == id.name then name in l.modules
       else r in RoutesOfModule(links, name, namespace))
    {
      var i := Id(Routes, r, namespace);
      assert r in RoutesOfModule(links', name, namespace) <==> i in links' && name in links'[i].modules;
      assert r in RoutesOfModule(links, name, namespace) <==> i in links && name in links[i].modules;
    }
  }

  const NoLinks := Links(None, {})

  lemma UnlinkedService(T: Tree, links: map<Id, Links>, id: Id, modules: map<string, Link>, i: Id, e: Edges)
    requires VertexWired(T, links, None, i, e) && id.kind.Routes? && id in T
    requires id in links && i in T && i.kind.Services?
    ensures VertexWired(T, links[id := NoLinks], Some(id), i,
      UnlinkedEdges(T, links[id].service, id, modules, modules.Keys, i, e))
  {
    RoutesOfServiceAfter(links, id, NoLinks, i.name, i.namespace);
    assert id.name in RoutesOfService(links, i.name, id.namespace) <==> links[id].service == Some(i.name);
  }

  lemma UnlinkedModule(T: Tree, links: map<Id, Links>, id: Id, modules: map<string, Link>, i: Id, e: Edges)
    requires VertexWired(T, links, None, i, e) && id.kind.Routes? && id in T && id in links && i in T && i.kind.Modules?
    requires i.name in links[id].modules && i.namespace == id.namespace ==> i.name in modules && modules[i.name] == T[i]
    ensures VertexWired(T, links[id := NoLinks], Some(id), i,
      UnlinkedEdges(T, links[id].service, id, modules, modules.Keys, i, e))
  {
    RoutesOfModuleAfter(links, id, NoLinks, i.name, i.namespace);
    assert id.name in RoutesOfModule(links, i.name, id.namespace) <==> i.name in links[id].modules;
  }

  /** A route being unlinked: nothing lists it, its own edges to namespace and service are gone. */
  lemma UnlinkedVertex(T: Tree, links: map<Id, Links>, E: map<Id, Edges>, id: Id, i: Id)
    requires AllWired(T, links, None, E) && id.kind.Routes? && id in T && id in links && i in T
    requires i.kind.Namespaces? ==> i.namespace == i.name
    ensures ToModules in E[id]
    ensures VertexWired(T, links[id := NoLinks], Some(id), i,
      UnlinkedEdges(T, links[id].service, id, E[id][ToModules], E[id][ToModules].Keys, i, E[i]))
  {
    assert VertexWired(T, links, None, i, E[i]);
    assert VertexWired(T, links, None, id, E[id]);
    match i.kind
    case Namespaces => UnlinkedNamespace(T, id, i, E[i]);
    case Services => UnlinkedService(T, links, id, E[id][ToModules], i, E[i]);
    case Modules =>
      if i.name in links[id].modules && i.namespace == id.namespace {
        assert i == Id(Modules, i.name, id.namespace);
      }
      UnlinkedModule(T, links, id, E[id][ToModules], i, E[i]);
    case _ =>
  }

  lemma UnlinkedNamespace(T: Tree, id: Id, i: Id, e: Edges)
    requires id.kind.Routes? && i.kind.Namespaces? && i.namespace == i.name
    requires e.Keys == EdgeNames(Namespaces) && NamespaceWired(T, None, i.name, e)
    ensures var e' := if i == NamespaceId(id.namespace) then Drop(e, ToRoutes, id.name) else e;
      e'.Keys == EdgeNames(Namespaces) && NamespaceWired(T, Some(id), i.name, e')
  {
    forall kind: Kind ensures ListName(kind) == ToRoutes <==> kind == Routes {
      ListNamesDiffer(kind, Routes);
    }
  }

  lemma UnlinkedWired(T: Tree, links: map<Id, Links>, E: map<Id, Edges>, id: Id)
    requires AllWired(T, links, None, E) && id.kind.Routes? && id in T && id in links
    requires forall i :: i in T && i.kind.Namespaces? ==> i.namespace == i.name
    ensures ToModules in E[id]
    ensures AllWired(T, links[id := NoLinks], Some(id),
      Unlinked(T, links[id].service, id, E[id][ToModules], E[id][ToModules].Keys, E))
  {
    assert VertexWired(T, links, None, id, E[id]);
    var E' := Unlinked(T, links[id].service, id, E[id][ToModules], E[id][ToModules].Keys, E);
    forall i | i in T ensures VertexWired(T, links[id := NoLinks], Some(id), i, E'[i]) {
      UnlinkedVertex(T, links, E, id, i);
    }
  }

  /** Linking a route that is unlinked, or that is linked and names no service. */
  ghost predicate ReadyToLink(T: Tree, links: map<Id, Links>, hole: Option<Id>, E: map<Id, Edges>, id: Id, spec: Spec) {
    && AllWired(T, links, hole, E) && id.kind.Routes? && id in T && id in links
    && (hole == None || (hole == Some(id) && links[id] == NoLinks))
    && (spec.service != "" ==> hole == Some(id))
    && NamespaceId(id.namespace) in T
    && (spec.service != "" ==> Id(Services, spec.service, id.namespace) in T)
    && (forall m :: m in spec.modules ==> Id(Modules, m, id.namespace) in T)
    && E[id].Keys == EdgeNames(Routes)
  }

  lemma RelinkedNamespace(T: Tree, hole: Option<Id>, id: Id, i: Id, e: Edges)
    requires id.kind.Routes? && i.kind.Namespaces? && i.namespace == i.name && id in T
    requires (hole == None || hole == Some(id))
    requires e.Keys == EdgeNames(Namespaces) && NamespaceWired(T, hole, i.name, e)
    ensures var e' := if i == NamespaceId(id.namespace) then Put(e, ToRoutes, id.name, T[id]) else e;
      e'.Keys == EdgeNames(Namespaces) && NamespaceWired(T, None, i.name, e')
  {
    forall kind: Kind ensures ListName(kind) == ToRoutes <==> kind == Routes {
      ListNamesDiffer(kind, Routes);
    }
  }

  lemma RelinkedVertex(T: Tree, links: map<Id, Links>, hole: Option<Id>, E: map<Id, Edges>, id: Id, spec: Spec, i: Id)
    requires ReadyToLink(T, links, hole, E, id, spec) && i in T
    requires i.kind.Namespaces? ==> i.namespace == i.name
    requires forall j {:trigger T[j]} :: j in T ==> T[j].id == j
    ensures VertexWired(T, links[id := Relinked(links[id], spec)], None, i,
      RelinkedEdges(T, id, spec.service, Named(spec), i, E[i]))
  {
    var l := Relinked(links[id], spec);
    assert VertexWired(T, links, hole, i, E[i]);
    match i.kind
    case Namespaces => RelinkedNamespace(T, hole, id, i, E[i]);
    case Services => RelinkedService(T, links, hole, E, id, spec, i);
    case Modules => RelinkedModule(T, links, hole, E, id, spec, i);
    case Routes => if i == id { RelinkedRoute(T, links, hole, E, id, spec); }
    case _ =>
  }

  lemma RelinkedService(T: Tree, links: map<Id, Links>, hole: Option<Id>, E: map<Id, Edges>, id: Id, spec: Spec, i: Id)
    requires ReadyToLink(T, links, hole, E, id, spec) && i in T && i.kind.Services?
    ensures VertexWired(T, links[id := Relinked(links[id], spec)], None, i,
      RelinkedEdges(T, id, spec.service, Named(spec), i, E[i]))
  {
    assert VertexWired(T, links, hole, i, E[i]);
    RoutesOfServiceAfter(links, id, Relinked(links[id], spec), i.name, i.namespace);
    assert id.name in RoutesOfService(links, i.name, id.namespace) <==> links[id].service == Some(i.name);
  }

  lemma RelinkedModule(T: Tree, links: map<Id, Links>, hole: Option<Id>, E: map<Id, Edges>, id: Id, spec: Spec, i: Id)
    requires ReadyToLink(T, links, hole, E, id, spec) && i in T && i.kind.Modules?
    ensures VertexWired(T, links[id := Relinked(links[id], spec)], None, i,
      RelinkedEdges(T, id, spec.service, Named(spec), i, E[i]))
  {
    assert VertexWired(T, links, hole, i, E[i]);
    RoutesOfModuleAfter(links, id, Relinked(links[id], spec), i.name, i.namespace);
    assert id.name in RoutesOfModule(links, i.name, id.namespace) <==> i.name in links[id].modules;
  }

  lemma RelinkedRoute(T: Tree, links: map<Id, Links>, hole: Option<Id>, E: map<Id, Edges>, id: Id, spec: Spec)
    requires ReadyToLink(T, links, hole, E, id, spec)
    requires forall j {:trigger T[j]} :: j in T ==> T[j].id == j
    ensures VertexWired(T, links[id := Relinked(links[id], spec)], None, id,
      RelinkedEdges(T, id, spec.service, Named(spec), id, E[id]))
  {
    assert VertexWired(T, links, hole, id, E[id]);
  }

  lemma RelinkedWired(T: Tree, links: map<Id, Links>, hole: Option<Id>, E: map<Id, Edges>, id: Id, spec: Spec)
    requires ReadyToLink(T, links, hole, E, id, spec)
    requires forall i :: i in T && i.kind.Namespaces? ==> i.namespace == i.name
    requires forall j {:trigger T[j]} :: j in T ==> T[j].id == j
    ensures AllWired(T, links[id := Relinked(links[id], spec)], None, RelinkedAll(T, id, spec.service, Named(spec), E))
  {
    var E' := RelinkedAll(T, id, spec.service, Named(spec), E);
    forall i | i in T ensures VertexWired(T, links[id := Relinked(links[id], spec)], None, i, E'[i]) {
      RelinkedVertex(T, links, hole, E, id, spec, i);
    }
  }

  /** A fresh route vertex, not linked to anything yet. */
  lemma NewRouteWired(T: Tree, st: State, E: map<Id, Edges>, id: Id, v: Link)
    requires AllWired(T, st.links, None, E) && Consistent(st) && st.live.Keys == T.Keys
    requires id.kind.Routes? && id !in T && v.id == id
    ensures AllWired(T[id := v], st.links[id := NoLinks], Some(id), E[id := NoEdges(Routes)])
  {
    var T', E', links' := T[id := v], E[id := NoEdges(Routes)], st.links[id := NoLinks];
    forall i | i in T' ensures VertexWired(T', links', Some(id), i, E'[i]) {
      if i != id {
        assert VertexWired(T, st.links, None, i, E[i]);
        NewRouteVertex(T, st.links, id, v, i, E[i]);
      }
    }
  }

  lemma NewRouteVertex(T: Tree, links: map<Id, Links>, id: Id, v: Link, i: Id, e: Edges)
    requires id.kind.Routes? && id !in T && id !in links && i != id && VertexWired(T, links, None, i, e)
    ensures VertexWired(T[id := v], links[id := NoLinks], Some(id), i, e)
  {
    match i.kind
    case Services => RoutesOfServiceAfter(links, id, NoLinks, i.name, i.namespace);
    case Modules => RoutesOfModuleAfter(links, id, NoLinks, i.name, i.namespace);
    case _ =>
  }

  /** An unlinked route leaves the tree. */
  lemma RouteGoneWired(T: Tree, links: map<Id, Links>, E: map<Id, Edges>, id: Id)
    requires AllWired(T, links[id := NoLinks], Some(id), E) && id.kind.Routes? && id in T
    ensures AllWired(T - {id}, links - {id}, None, E - {id})
  {
    forall i | i in T - {id} ensures VertexWired(T - {id}, links - {id}, None, i, (E - {id})[i]) {
      assert VertexWired(T, links[id := NoLinks], Some(id), i, E[i]);
      RouteGoneVertex(T, links, id, i, E[i]);
    }
  }

  lemma RouteGoneVertex(T: Tree, links: map<Id, Links>, id: Id, i: Id, e: Edges)
    requires id.kind.Routes? && i != id && VertexWired(T, links[id := NoLinks], Some(id), i, e)
    ensures VertexWired(T - {id}, links - {id}, None, i, e)
  {
    assert (links - {id})[id := NoLinks] == links[id := NoLinks];
    match i.kind
    case Services =>
      assert RoutesOfService(links - {id}, i.name, i.namespace) ==
        RoutesOfService(links[id := NoLinks], i.name, i.namespace);
    case Modules =>
      assert RoutesOfModule(links - {id}, i.name, i.namespace) ==
        RoutesOfModule(links[id := NoLinks], i.name, i.namespace);
    case _ =>
  }

  /** The route's one-to-one edges have room for what it is about to be linked to. */
  ghost predicate Linkable(E: map<Id, Edges>, id: Id, service: string) {
    && id in E && E[id].Keys == EdgeNames(Routes) && E[id][ToNamespace].Keys <= {id.namespace}
    && (service != "" ==> E[id][ToService] == map[])
  }

  lemma ReadyIsLinkable(T: Tree, links: map<Id, Links>, hole: Option<Id>, E: map<Id, Edges>, id: Id, spec: Spec)
    requires ReadyToLink(T, links, hole, E, id, spec)
    ensures Linkable(E, id, spec.service)
  {
    assert VertexWired(T, links, hole, id, E[id]);
  }

  lemma RelinkedReaches(T: Tree, id: Id, service: string, done: set<string>, E: map<Id, Edges>, repr: set<Link>)
    requires id in T && NamespaceId(id.namespace) in T && id.kind.Routes?
    requires service != "" ==> Id(Services, service, id.namespace) in T
    requires forall m :: m in done ==> Id(Modules, m, id.namespace) in T
    requires E.Keys == T.Keys && E[id].Keys == EdgeNames(Routes)
    requires Reaches(E, repr) && forall i {:trigger T[i]} :: i in T ==> T[i] in repr
    ensures Reaches(RelinkedAll(T, id, service, done, E), repr)
  {
    var R := RelinkedAll(T, id, service, done, E);
    forall i, m | i in R && i.kind.Routes? && ToModules in R[i] && m in R[i][ToModules]
      ensures R[i][ToModules][m] in repr
    {
      if i == id && m in done {
        assert R[i][ToModules][m] == T[Id(Modules, m, id.namespace)];
      } else {
        assert m in E[i][ToModules] && R[i][ToModules][m] == E[i][ToModules][m];
      }
    }
  }

  lemma UnlinkedReaches(
    T: Tree, service: Option<string>, id: Id, modules: map<string, Link>, E: map<Id, Edges>, repr: set<Link>)
    requires E.Keys == T.Keys && id in T && id.kind.Routes? && Reaches(E, repr)
    ensures Reaches(Unlinked(T, service, id, modules, modules.Keys, E), repr)
  {
    var U := Unlinked(T, service, id, modules, modules.Keys, E);
    forall i, m | i in U && i.kind.Routes? && ToModules in U[i] && m in U[i][ToModules]
      ensures U[i][ToModules][m] in repr
    {
      assert m in E[i][ToModules] && U[i][ToModules][m] == E[i][ToModules][m];
    }
  }

  lemma NamesAreLive(st: State, spec: Spec)
    requires AddError(st, Routes, spec).None?
    ensures NamespaceId(spec.namespace) in st.live
    ensures spec.service != "" ==> Id(Services, spec.service, spec.namespace) in st.live
    ensures forall m :: m in Named(spec) ==> Id(Modules, m, spec.namespace) in st.live
  {
    NoMissingModule(st, spec.modules, spec.namespace);
  }

  lemma NamespacesAreNamed(st: State)
    requires Consistent(st)
    ensures forall i :: i in st.live && i.kind.Namespaces? ==> i.namespace == i.name
  {
    forall i | i in st.live ensures Filed(st, i) { }
  }

  /** An accepted spec for a route, and a record in which the route is ready to be linked for it. */
  ghost predicate Prepared(
    T: Tree, st: State, links: map<Id, Links>, hole: Option<Id>, E: map<Id, Edges>, repr: set<Link>, id: Id,
    spec: Spec) {
    && Consistent(st) && AddError(st, Routes, spec).None? && id == Id(Routes, spec.name, spec.namespace)
    && T.Keys == st.live.Keys + {id}
    && ReadyToLink(T, links, hole, E, id, spec)
    && links[id := Relinked(links[id], spec)] == Effect(st, Add(Routes, spec)).links
    && Reaches(E, repr)
  }

  /** Linking a route that is ready for it gives what the accepted call promises. */
  lemma LinkedAccepted(
    T: Tree, st: State, links: map<Id, Links>, hole: Option<Id>, E: map<Id, Edges>, repr: set<Link>, id: Id, spec: Spec)
    requires Prepared(T, st, links, hole, E, repr, id, spec)
    requires forall i {:trigger T[i]} :: i in T ==> T[i] in repr && T[i].id == i
    ensures id in T && NamespaceId(spec.namespace) in T && E.Keys == T.Keys && Linkable(E, id, spec.service)
    ensures spec.service != "" ==> Id(Services, spec.service, spec.namespace) in T
    ensures forall m :: m in Named(spec) ==> Id(Modules, m, spec.namespace) in T
    ensures Sound(T, Effect(st, Add(Routes, spec)), RelinkedAll(T, id, spec.service, Named(spec), E), repr)
  {
    ReadyIsLinkable(T, links, hole, E, id, spec);
    NamesAreLive(st, spec);
    NamespacesAreNamed(st);
    RelinkedWired(T, links, hole, E, id, spec);
    RelinkedReaches(T, id, spec.service, Named(spec), E, repr);
    Accepted(T, st, RelinkedAll(T, id, spec.service, Named(spec), E), repr, Add(Routes, spec));
  }

  /** A route that names no service is linked on top of what it is linked to already. */
  lemma KeptIsReady(T: Tree, st: State, E: map<Id, Edges>, repr: set<Link>, id: Id, spec: Spec)
    requires Sound(T, st, E, repr) && T.Keys == st.live.Keys
    requires AddError(st, Routes, spec).None? && id == Id(Routes, spec.name, spec.namespace) && id in T
    requires spec.service == ""
    ensures Prepared(T, st, st.links, None, E, repr, id, spec)
  {
    NamesAreLive(st, spec);
    assert VertexWired(T, st.links, None, id, E[id]);
  }

  ghost function AllUnlinked(T: Tree, st: State, E: map<Id, Edges>, id: Id): map<Id, Edges>
    requires E.Keys == T.Keys && id in T && id in st.links && ToModules in E[id]
  {
    Unlinked(T, st.links[id].service, id, E[id][ToModules], E[id][ToModules].Keys, E)
  }

  /** A route that names a service is unlinked first. */
  lemma UnlinkedIsReady(T: Tree, st: State, E: map<Id, Edges>, repr: set<Link>, id: Id, spec: Spec)
    requires Sound(T, st, E, repr) && T.Keys == st.live.Keys
    requires AddError(st, Routes, spec).None? && id == Id(Routes, spec.name, spec.namespace) && id in T
    requires spec.service != ""
    ensures id in st.links && ToModules in E[id]
    ensures Prepared(T, st, st.links[id := NoLinks], Some(id), AllUnlinked(T, st, E, id), repr, id, spec)
  {
    NamesAreLive(st, spec);
    NamespacesAreNamed(st);
    UnlinkedWired(T, st.links, E, id);
    UnlinkedReaches(T, st.links[id].service, id, E[id][ToModules], E, repr);
    assert VertexWired(T, st.links[id := NoLinks], Some(id), id, AllUnlinked(T, st, E, id)[id]);
    assert st.links[id := NoLinks][id := Relinked(NoLinks, spec)] == st.links[id := Relinked(NoLinks, spec)];
  }

  /** A fresh route vertex is ready as it is. */
  lemma NewIsReady(T: Tree, st: State, E: map<Id, Edges>, repr: set<Link>, id: Id, v: Link, spec: Spec)
    requires Sound(T, st, E, repr) && T.Keys == st.live.Keys && v.id == id
    requires AddError(st, Routes, spec).None? && id == Id(Routes, spec.name, spec.namespace) && id !in T
    ensures Prepared(T[id := v], st, st.links[id := NoLinks], Some(id), E[id := NoEdges(Routes)], repr + {v}, id, spec)
  {
    NamesAreLive(st, spec);
    NewRouteWired(T, st, E, id, v);
    ReachesPut(E, repr, id, NoEdges(Routes), repr + {v});
    assert id !in st.links;
    assert st.links[id := NoLinks][id := Relinked(NoLinks, spec)] == st.links[id := Relinked(NoLinks, spec)];
  }

  /** An unlinked route may leave. */
  lemma RouteGone(T: Tree, st: State, E: map<Id, Edges>, repr: set<Link>, id: Id)
    requires Sound(T, st, E, repr) && T.Keys == st.live.Keys
    requires id.kind.Routes? && RemoveError(st, Routes, id.name, id.namespace).None?
    ensures id in T && id in st.links && ToModules in E[id]
    ensures Sound(T - {id}, Effect(st, Remove(Routes, id.name, id.namespace)), AllUnlinked(T, st, E, id) - {id}, repr)
  {
    NamespacesAreNamed(st);
    UnlinkedWired(T, st.links, E, id);
    RouteGoneWired(T, st.links, AllUnlinked(T, st, E, id), id);
    UnlinkedReaches(T, st.links[id].service, id, E[id][ToModules], E, repr);
    ReachesDrop(AllUnlinked(T, st, E, id), repr, id);
    Accepted(T - {id}, st, AllUnlinked(T, st, E, id) - {id}, repr, Remove(Routes, id.name, id.namespace));
  }
}
