/**
 How the vertices must be wired for a given admin state: what every live vertex's edges hold. The
 vertices are named by the map `T`; a route given as `hole` is momentarily out of its namespace's list.
 */
module Wiring {
  import opened Wrappers
  import opened Resources
  import opened Linker

  type Tree = map<Id, Link>

  /** The edge of a namespace vertex that lists its resources of a kind. */
  function ListName(kind: Kind): EdgeName {
    match kind
    case Namespaces => ToNamespaces
    case Services => ToServices
    case Routes => ToRoutes
    case Modules => ToModules
    case Domains => ToDomains
    case Collections => ToCollections
    case Secrets => ToSecrets
  }

  /** The edge of a vertex that holds its namespace. */
  function OwnerName(kind: Kind): EdgeName {
    if kind.Services? then ToNamespaces else ToNamespace
  }

  function EdgeNames(kind: Kind): set<EdgeName> {
    match kind
    case Namespaces => {ToRoutes, ToServices, ToModules, ToDomains, ToCollections, ToSecrets}
    case Services => {ToRoutes, ToNamespaces}
    case Routes => {ToNamespace, ToService, ToModules}
    case Modules => {ToNamespace, ToRoutes}
    case Domains => {ToNamespace}
    case Collections => {ToNamespace}
    case Secrets => {ToNamespace}
  }

  /** The edge lists exactly the routes of the namespace that satisfy the link condition. */
  ghost predicate ListsRoutes(T: Tree, namespace: string, e: map<string, Link>, linked: set<string>) {
    && (forall r :: r in e <==> r in linked)
    && (forall r :: r in e ==> Id(Routes, r, namespace) in T && e[r] == T[Id(Routes, r, namespace)])
  }

  ghost function RoutesOfService(links: map<Id, Links>, name: string, namespace: string): set<string> {
    set id | id in links && id.kind.Routes? && id.namespace == namespace && links[id].service == Some(name) :: id.name
  }

  ghost function RoutesOfModule(links: map<Id, Links>, name: string, namespace: string): set<string> {
    set id | id in links && id.kind.Routes? && id.namespace == namespace && name in links[id].modules :: id.name
  }

  ghost predicate NamespaceWired(T: Tree, hole: Option<Id>, ns: string, e: Edges)
    requires e.Keys == EdgeNames(Namespaces)
  {
    && (forall kind: Kind, name: string :: !kind.Namespaces? && name in e[ListName(kind)] ==>
      Id(kind, name, ns) in T && e[ListName(kind)][name] == T[Id(kind, name, ns)])
    && (forall kind: Kind, name: string ::
      !kind.Namespaces? && !kind.Secrets? && Id(kind, name, ns) in T && hole != Some(Id(kind, name, ns)) ==>
        name in e[ListName(kind)])
    && (hole.Some? && hole.value.kind.Routes? && hole.value.namespace == ns ==> hole.value.name !in e[ToRoutes])
  }

  ghost predicate OwnerWired(T: Tree, id: Id, e: Edges)
    requires OwnerName(id.kind) in e
  {
    NamespaceId(id.namespace) in T && e[OwnerName(id.kind)] == map[id.namespace := T[NamespaceId(id.namespace)]]
  }

  ghost predicate RouteWired(T: Tree, links: map<Id, Links>, hole: Option<Id>, id: Id, e: Edges)
    requires id.kind.Routes? && e.Keys == EdgeNames(Routes)
  {
    && id in links
    && (if hole == Some(id) then e[ToNamespace] == map[] else OwnerWired(T, id, e))
    && (match links[id].service
      case None => e[ToService] == map[]
      case Some(s) =>
        Id(Services, s, id.namespace) in T && e[ToService] == map[s := T[Id(Services, s, id.namespace)]])
    && (forall m :: m in links[id].modules ==>
      m in e[ToModules] && Id(Modules, m, id.namespace) in T && e[ToModules][m] == T[Id(Modules, m, id.namespace)])
    && (forall m :: m in e[ToModules] ==> e[ToModules][m].id == Id(Modules, m, id.namespace))
  }

  ghost predicate VertexWired(T: Tree, links: map<Id, Links>, hole: Option<Id>, id: Id, e: Edges) {
    && e.Keys == EdgeNames(id.kind)
    && match id.kind
      case Namespaces => NamespaceWired(T, hole, id.name, e)
      case Services =>
        OwnerWired(T, id, e) && ListsRoutes(T, id.namespace, e[ToRoutes], RoutesOfService(links, id.name, id.namespace))
      case Routes => RouteWired(T, links, hole, id, e)
      case Modules =>
        OwnerWired(T, id, e) && ListsRoutes(T, id.namespace, e[ToRoutes], RoutesOfModule(links, id.name, id.namespace))
      case Domains => OwnerWired(T, id, e)
      case Collections => OwnerWired(T, id, e)
      case Secrets => true
  }

  /** Every vertex of `T`, with the edges that `E` gives it, is wired as the state says. */
  ghost predicate AllWired(T: Tree, links: map<Id, Links>, hole: Option<Id>, E: map<Id, Edges>) {
    && E.Keys == T.Keys
    && (forall id {:trigger VertexWired(T, links, hole, id, E[id])} ::
      id in T ==> VertexWired(T, links, hole, id, E[id]))
  }

  /**
   The heap side: each vertex stands at its own identity with the edges and item recorded for it, and
   every vertex ever made keeps the edge names it was made with.
   */
  ghost predicate Mirror(T: Tree, E: map<Id, Edges>, items: map<Id, Spec>, repr: set<Link>)
    reads repr
  {
    && E.Keys == T.Keys && items.Keys == T.Keys
    && (forall id {:trigger T[id]} :: id in T ==>
      T[id] in repr && T[id].id == id && T[id].edges == E[id] && T[id].item == items[id])
    && (forall v {:trigger v.edges} :: v in repr ==> v.edges.Keys == EdgeNames(v.id.kind))
  }

  /** The modules a live route leads to, live or not, are vertices made here. */
  ghost predicate Reaches(E: map<Id, Edges>, repr: set<Link>) {
    forall id, m {:trigger E[id][ToModules][m]} ::
      id in E && id.kind.Routes? && ToModules in E[id] && m in E[id][ToModules] ==> E[id][ToModules][m] in repr
  }

  /** The state side of a manager between calls. */
  ghost predicate Sound(T: Tree, st: State, E: map<Id, Edges>, repr: set<Link>) {
    Consistent(st) && AllWired(T, st.links, None, E) && Reaches(E, repr)
  }

  lemma Accepted(T: Tree, st: State, E: map<Id, Edges>, repr: set<Link>, op: Op)
    requires Consistent(st) && OpError(st, op).None?
    requires AllWired(T, Effect(st, op).links, None, E) && Reaches(E, repr)
    ensures Sound(T, Effect(st, op), E, repr)
  {
    assert Step(st, op) == Ok(Effect(st, op));
    StepKeepsConsistent(st, op);
  }

  lemma MirrorPut(T: Tree, E: map<Id, Edges>, items: map<Id, Spec>, repr: set<Link>, id: Id, v: Link)
    requires Mirror(T, E, items, repr) && v.id == id && id !in T && v.edges.Keys == EdgeNames(id.kind)
    ensures Mirror(T[id := v], E[id := v.edges], items[id := v.item], repr + {v})
  {
  }

  lemma MirrorDrop(T: Tree, E: map<Id, Edges>, items: map<Id, Spec>, repr: set<Link>, id: Id)
    requires Mirror(T, E, items, repr)
    ensures Mirror(T - {id}, E - {id}, items - {id}, repr)
  {
  }

  lemma ReachesPut(E: map<Id, Edges>, repr: set<Link>, id: Id, e: Edges, more: set<Link>)
    requires Reaches(E, repr) && repr <= more
    requires id.kind.Routes? && ToModules in e ==> forall m :: m in e[ToModules] ==> e[ToModules][m] in more
    ensures Reaches(E[id := e], more)
  {
  }

  lemma ReachesDrop(E: map<Id, Edges>, repr: set<Link>, id: Id)
    requires Reaches(E, repr)
    ensures Reaches(E - {id}, repr)
  {
  }

  /** Item().Replace: the vertex and its edges stay. */
  method ReplaceItem(
    ghost T: Tree, ghost E: map<Id, Edges>, ghost items: map<Id, Spec>, ghost repr: set<Link>, v: Link, spec: Spec)
    requires Mirror(T, E, items, repr) && v.id in T && T[v.id] == v
    modifies v`item
    ensures Mirror(T, E, items[v.id := spec], repr)
  {
    v.item := spec;
  }

  ghost function WithEdges(T: Tree, E: map<Id, Edges>, v: Link, e: Edges): map<Id, Edges> {
    if v.id in T && T[v.id] == v then E[v.id := e] else E
  }

  /** LinkOneMany on a vertex, as the record of the whole tree sees it. */
  method LinkIn(
    ghost T: Tree, ghost E: map<Id, Edges>, ghost items: map<Id, Spec>, ghost repr: set<Link>,
    v: Link, name: EdgeName, key: string, w: Link)
    requires Mirror(T, E, items, repr) && v in repr && name in v.edges
    modifies v`edges
    ensures v.edges == old(v.edges)[name := old(v.edges)[name][key := w]]
    ensures Mirror(T, WithEdges(T, E, v, v.edges), items, repr)
  {
    v.LinkOneMany(name, key, w);
  }

  method UnlinkIn(
    ghost T: Tree, ghost E: map<Id, Edges>, ghost items: map<Id, Spec>, ghost repr: set<Link>,
    v: Link, name: EdgeName, key: string)
    requires Mirror(T, E, items, repr) && v in repr && name in v.edges
    modifies v`edges
    ensures v.edges == old(v.edges)[name := old(v.edges)[name] - {key}]
    ensures Mirror(T, WithEdges(T, E, v, v.edges), items, repr)
  {
    var _ := v.UnlinkOneMany(name, key);
  }

  /** UnlinkOneOneByKey in the same way. */
  method UnlinkKeyIn(
    ghost T: Tree, ghost E: map<Id, Edges>, ghost items: map<Id, Spec>, ghost repr: set<Link>,
    v: Link, name: EdgeName, key: string)
    requires Mirror(T, E, items, repr) && v in repr && name in v.edges
    modifies v`edges
    ensures v.edges == old(v.edges)[name := old(v.edges)[name] - {key}]
    ensures Mirror(T, WithEdges(T, E, v, v.edges), items, repr)
  {
    var _ := v.UnlinkOneOneByKey(name, key);
  }

  /** UnlinkOneOne in the same way. */
  method UnlinkOnlyIn(
    ghost T: Tree, ghost E: map<Id, Edges>, ghost items: map<Id, Spec>, ghost repr: set<Link>, v: Link, name: EdgeName)
    requires Mirror(T, E, items, repr) && v in repr && name in v.edges
    modifies v`edges
    ensures v.edges == old(v.edges)[name := map[]]
    ensures Mirror(T, WithEdges(T, E, v, v.edges), items, repr)
  {
    var _ := v.UnlinkOneOne(name);
  }

  ghost function NoEdges(kind: Kind): Edges { Unconnected(EdgeNames(kind)) }

  lemma NamespaceAdded(T: Tree, links: map<Id, Links>, ns: Id, v: Link, i: Id, e: Edges)
    requires ns == NamespaceId(ns.name) && ns !in T && VertexWired(T, links, None, i, e)
    ensures VertexWired(T[ns := v], links, None, i, e)
  {
  }

  lemma DeadNamespaceIsEmpty(st: State, ns: string)
    requires Consistent(st) && NamespaceId(ns) !in st.live
    ensures forall kind: Kind, name: string :: !kind.Secrets? ==> Id(kind, name, ns) !in st.live
  {
    forall id | id in st.live ensures Filed(st, id) { }
  }

  /** A new namespace with empty lists leaves the tree wired. */
  lemma AddNamespaceWired(T: Tree, st: State, E: map<Id, Edges>, ns: Id, v: Link)
    requires AllWired(T, st.links, None, E) && Consistent(st) && st.live.Keys == T.Keys
    requires ns == NamespaceId(ns.name) && ns !in T
    ensures AllWired(T[ns := v], st.links, None, E[ns := NoEdges(Namespaces)])
  {
    var T', E' := T[ns := v], E[ns := NoEdges(Namespaces)];
    forall i | i in T' ensures VertexWired(T', st.links, None, i, E'[i]) {
      if i != ns {
        assert VertexWired(T, st.links, None, i, E[i]);
        NamespaceAdded(T, st.links, ns, v, i, E[i]);
      } else {
        DeadNamespaceIsEmpty(st, ns.name);
      }
    }
  }

  lemma NamespaceRemoved(T: Tree, links: map<Id, Links>, ns: Id, i: Id, e: Edges)
    requires ns.kind.Namespaces? && VertexWired(T, links, None, i, e)
    requires i.kind.Namespaces? || i.kind.Secrets? || i.namespace != ns.name
    ensures VertexWired(T - {ns}, links, None, i, e)
  {
  }

  /** So does removing one that nothing but secrets lives in. */
  lemma RemoveNamespaceWired(T: Tree, st: State, E: map<Id, Edges>, ns: Id)
    requires AllWired(T, st.links, None, E) && st.live.Keys == T.Keys && ns == NamespaceId(ns.name) && ns in T
    requires RemoveError(st, Namespaces, ns.name, ns.name).None?
    ensures AllWired(T - {ns}, st.links, None, E - {ns})
  {
    var T', E' := T - {ns}, E - {ns};
    forall i | i in T' ensures VertexWired(T', st.links, None, i, E'[i]) {
      assert VertexWired(T, st.links, None, i, E[i]);
      if !i.kind.Namespaces? && !i.kind.Secrets? && i.namespace == ns.name {
        assert Populated(st, i.kind, ns.name);
      }
      NamespaceRemoved(T, st.links, ns, i, E[i]);
    }
  }

  /** A namespace's lists are empty exactly when nothing of the kind lives in it. */
  lemma ListedIsPopulated(T: Tree, st: State, E: map<Id, Edges>, name: string, kind: Kind)
    requires AllWired(T, st.links, None, E) && st.live.Keys == T.Keys && NamespaceId(name) in T
    requires !kind.Namespaces? && !kind.Secrets?
    ensures ListName(kind) in E[NamespaceId(name)]
    ensures |E[NamespaceId(name)][ListName(kind)]| > 0 <==> Populated(st, kind, name)
  {
    var e := E[NamespaceId(name)];
    assert VertexWired(T, st.links, None, NamespaceId(name), e);
    if e[ListName(kind)] != map[] {
      var x :| x in e[ListName(kind)];
      assert Id(kind, x, name) in st.live;
    }
    if Populated(st, kind, name) {
      var i :| i in st.live && i.kind == kind && i.namespace == name;
      assert i == Id(kind, i.name, name);
      assert i.name in e[ListName(kind)];
    }
  }

  /** The edges of a namespace vertex once a resource has been listed, or taken off the list. */
  function Listed(e: Edges, id: Id, v: Link): Edges
    requires ListName(id.kind) in e
  {
    e[ListName(id.kind) := e[ListName(id.kind)][id.name := v]]
  }

  function Unlisted(e: Edges, id: Id): Edges
    requires ListName(id.kind) in e
  {
    e[ListName(id.kind) := e[ListName(id.kind)] - {id.name}]
  }

  lemma ListNamesDiffer(a: Kind, b: Kind)
    ensures ListName(a) == ListName(b) <==> a == b
  {
  }

  lemma OthersIgnoreOwned(T: Tree, links: map<Id, Links>, id: Id, v: Link, i: Id, e: Edges)
    requires !id.kind.Namespaces? && !id.kind.Routes? && id !in T && VertexWired(T, links, None, i, e)
    requires i.kind.Namespaces? ==> i.name != id.namespace
    ensures VertexWired(T[id := v], links, None, i, e)
  {
  }

  lemma ListedNamespace(T: Tree, id: Id, v: Link, e: Edges)
    requires !id.kind.Namespaces? && id !in T
    requires e.Keys == EdgeNames(Namespaces) && NamespaceWired(T, None, id.namespace, e)
    ensures Listed(e, id, v).Keys == EdgeNames(Namespaces)
    ensures NamespaceWired(T[id := v], None, id.namespace, Listed(e, id, v))
  {
    forall kind: Kind ensures ListName(kind) == ListName(id.kind) <==> kind == id.kind {
      ListNamesDiffer(kind, id.kind);
    }
  }

  ghost function OwnedEdges(id: Id, nsLk: Link): Edges {
    NoEdges(id.kind)[OwnerName(id.kind) := map[id.namespace := nsLk]]
  }

  /** A new resource, not a route, linked both ways with its namespace. */
  lemma AddOwnedWired(T: Tree, st: State, E: map<Id, Edges>, id: Id, v: Link)
    requires AllWired(T, st.links, None, E) && Consistent(st) && st.live.Keys == T.Keys
    requires !id.kind.Namespaces? && !id.kind.Routes? && id !in T && NamespaceId(id.namespace) in T
    ensures ListName(id.kind) in E[NamespaceId(id.namespace)]
    ensures var ns := NamespaceId(id.namespace);
      AllWired(T[id := v], st.links, None, E[ns := Listed(E[ns], id, v)][id := OwnedEdges(id, T[ns])])
  {
    var ns := NamespaceId(id.namespace);
    assert VertexWired(T, st.links, None, ns, E[ns]);
    ListedNamespace(T, id, v, E[ns]);
    var T', E' := T[id := v], E[ns := Listed(E[ns], id, v)][id := OwnedEdges(id, T[ns])];
    forall i | i in T' ensures VertexWired(T', st.links, None, i, E'[i]) {
      if i == id {
        NoRoutesYet(st, id);
      } else if i != ns {
        assert VertexWired(T, st.links, None, i, E[i]);
        assert Filed(st, i);
        OthersIgnoreOwned(T, st.links, id, v, i, E[i]);
      }
    }
  }

  /** The record after a resource has been attached. */
  ghost function AttachedEdges(T: Tree, E: map<Id, Edges>, id: Id, v: Link): map<Id, Edges>
    requires NamespaceId(id.namespace) in T && NamespaceId(id.namespace) in E
    requires ListName(id.kind) in E[NamespaceId(id.namespace)]
  {
    var ns := NamespaceId(id.namespace);
    E[ns := Listed(E[ns], id, v)][id := OwnedEdges(id, T[ns])]
  }

  lemma OwnedAccepted(T: Tree, st: State, E: map<Id, Edges>, repr: set<Link>, id: Id, v: Link, spec: Spec)
    requires Sound(T, st, E, repr) && st.live.Keys == T.Keys
    requires !id.kind.Namespaces? && !id.kind.Routes? && id !in T && NamespaceId(id.namespace) in T
    requires id == OpId(Add(id.kind, spec)) && OpError(st, Add(id.kind, spec)).None?
    ensures ListName(id.kind) in E[NamespaceId(id.namespace)]
    ensures Sound(T[id := v], Effect(st, Add(id.kind, spec)), AttachedEdges(T, E, id, v), repr + {v})
  {
    AddOwnedWired(T, st, E, id, v);
    var ns := NamespaceId(id.namespace);
    ReachesPut(E, repr, ns, Listed(E[ns], id, v), repr + {v});
    ReachesPut(E[ns := Listed(E[ns], id, v)], repr + {v}, id, OwnedEdges(id, T[ns]), repr + {v});
    Accepted(T[id := v], st, AttachedEdges(T, E, id, v), repr + {v}, Add(id.kind, spec));
  }

  /** A new vertex is linked both ways with its namespace, ready to go into the tree. */
  method LinkOwner(
    ghost T: Tree, ghost E: map<Id, Edges>, ghost items: map<Id, Spec>, ghost repr: set<Link>,
    id: Id, v: Link, nsLk: Link)
    requires Mirror(T, E, items, repr) && v !in repr && v.id == id && v.edges == NoEdges(id.kind)
    requires NamespaceId(id.namespace) in T && nsLk == T[NamespaceId(id.namespace)]
    requires !id.kind.Namespaces? && !id.kind.Routes? && id !in T
    modifies v`edges, nsLk`edges
    ensures ListName(id.kind) in E[NamespaceId(id.namespace)]
    ensures Mirror(T[id := v], AttachedEdges(T, E, id, v), items[id := v.item], repr + {v})
  {
    v.LinkOneOne(OwnerName(id.kind), id.namespace, nsLk);
    LinkIn(T, E, items, repr, nsLk, ListName(id.kind), id.name, v);
    MirrorPut(T, E[nsLk.id := nsLk.edges], items, repr, id, v);
  }

  /** The record after a resource has been detached. */
  ghost function DetachedEdges(T: Tree, E: map<Id, Edges>, id: Id): map<Id, Edges>
    requires NamespaceId(id.namespace) in E && ListName(id.kind) in E[NamespaceId(id.namespace)]
  {
    var ns := NamespaceId(id.namespace);
    E[ns := Unlisted(E[ns], id)] - {id}
  }

  lemma DetachedAnyway(T: Tree, E: map<Id, Edges>, id: Id, e: Edges)
    requires NamespaceId(id.namespace) in E && ListName(id.kind) in E[NamespaceId(id.namespace)]
    ensures var ns := NamespaceId(id.namespace);
      E[ns := Unlisted(E[ns], id)][id := e] - {id} == DetachedEdges(T, E, id)
  {
  }

  /** The vertex's own edge: services and domains drop the key, the others whatever single key there is. */
  method UnlinkOwnEdge(
    ghost T: Tree, ghost E: map<Id, Edges>, ghost items: map<Id, Spec>, ghost repr: set<Link>,
    kind: Kind, namespace: string, v: Link)
    requires Mirror(T, E, items, repr) && v.id in T && T[v.id] == v && kind == v.id.kind && !kind.Namespaces?
    modifies v`edges
    ensures Mirror(T, E[v.id := v.edges], items, repr)
  {
    if kind.Services? {
      UnlinkIn(T, E, items, repr, v, OwnerName(kind), namespace);
    } else if kind.Domains? {
      UnlinkKeyIn(T, E, items, repr, v, OwnerName(kind), namespace);
    } else {
      UnlinkOnlyIn(T, E, items, repr, v, OwnerName(kind));
    }
  }

  /** A vertex and its namespace are unlinked both ways, and the vertex is ready to leave the tree. */
  method UnlinkOwner(
    ghost T: Tree, ghost E: map<Id, Edges>, ghost items: map<Id, Spec>, ghost repr: set<Link>,
    ghost id: Id, kind: Kind, name: string, namespace: string, v: Link, nsLk: Link)
    requires Mirror(T, E, items, repr) && id == Id(kind, name, namespace) && id in T && v == T[id]
    requires NamespaceId(namespace) in T && nsLk == T[NamespaceId(namespace)]
    requires !kind.Namespaces? && !kind.Routes?
    modifies v`edges, nsLk`edges
    ensures ListName(kind) in E[NamespaceId(namespace)]
    ensures Mirror(T - {id}, DetachedEdges(T, E, id), items - {id}, repr)
  {
    UnlinkIn(T, E, items, repr, nsLk, ListName(kind), name);
    ghost var E1 := E[nsLk.id := nsLk.edges];
    UnlinkOwnEdge(T, E1, items, repr, kind, namespace, v);
    MirrorDrop(T, E1[id := v.edges], items, repr, id);
    DetachedAnyway(T, E, id, v.edges);
  }

  lemma NoRoutesYet(st: State, id: Id)
    requires Consistent(st) && id !in st.live
    ensures id.kind.Services? ==> RoutesOfService(st.links, id.name, id.namespace) == {}
    ensures id.kind.Modules? ==> RoutesOfModule(st.links, id.name, id.namespace) == {}
  {
    forall r | r in st.links ensures Linked(st, r) { }
  }

  lemma OthersIgnoreGone(T: Tree, links: map<Id, Links>, id: Id, i: Id, e: Edges)
    requires !id.kind.Namespaces? && !id.kind.Routes? && i != id && VertexWired(T, links, None, i, e)
    requires i.kind.Namespaces? ==> i.name != id.namespace
    requires i.kind.Routes? && i in links && id.kind.Services? && i.namespace == id.namespace ==>
      links[i].service != Some(id.name)
    requires i.kind.Routes? && i in links && id.kind.Modules? && i.namespace == id.namespace ==>
      id.name !in links[i].modules
    ensures VertexWired(T - {id}, links, None, i, e)
  {
  }

  lemma UnlistedNamespace(T: Tree, id: Id, e: Edges)
    requires !id.kind.Namespaces? && e.Keys == EdgeNames(Namespaces) && NamespaceWired(T, None, id.namespace, e)
    ensures Unlisted(e, id).Keys == EdgeNames(Namespaces)
    ensures NamespaceWired(T - {id}, None, id.namespace, Unlisted(e, id))
  {
    forall kind: Kind ensures ListName(kind) == ListName(id.kind) <==> kind == id.kind {
      ListNamesDiffer(kind, id.kind);
    }
  }

  /** A resource, not a route, that no route is linked to is taken off its namespace's list and out of the tree. */
  lemma RemoveOwnedWired(T: Tree, st: State, E: map<Id, Edges>, id: Id)
    requires AllWired(T, st.links, None, E) && Consistent(st) && st.live.Keys == T.Keys
    requires !id.kind.Namespaces? && !id.kind.Routes? && id in T && NamespaceId(id.namespace) in T
    requires id.kind.Services? ==> !ServiceInUse(st, id.name, id.namespace)
    requires id.kind.Modules? ==> !ModuleInUse(st, id.name, id.namespace)
    ensures ListName(id.kind) in E[NamespaceId(id.namespace)]
    ensures var ns := NamespaceId(id.namespace);
      AllWired(T - {id}, st.links, None, E[ns := Unlisted(E[ns], id)] - {id})
  {
    var ns := NamespaceId(id.namespace);
    assert VertexWired(T, st.links, None, ns, E[ns]);
    UnlistedNamespace(T, id, E[ns]);
    var T', E' := T - {id}, E[ns := Unlisted(E[ns], id)] - {id};
    forall i | i in T' ensures VertexWired(T', st.links, None, i, E'[i]) {
      if i != ns {
        assert VertexWired(T, st.links, None, i, E[i]);
        assert Filed(st, i);
        OthersIgnoreGone(T, st.links, id, i, E[i]);
      }
    }
  }

  /** A vertex lists a route exactly when the state says some route is linked to it. */
  lemma InUseIsListed(T: Tree, st: State, E: map<Id, Edges>, id: Id)
    requires AllWired(T, st.links, None, E) && Consistent(st) && id in T
    ensures id.kind.Services? ==>
      ToRoutes in E[id] && (|E[id][ToRoutes]| > 0 <==> ServiceInUse(st, id.name, id.namespace))
    ensures id.kind.Modules? ==>
      ToRoutes in E[id] && (|E[id][ToRoutes]| > 0 <==> ModuleInUse(st, id.name, id.namespace))
    ensures id.kind.Secrets? ==> ToRoutes !in E[id]
  {
    assert VertexWired(T, st.links, None, id, E[id]);
    if id.kind.Services? || id.kind.Modules? {
      var e := E[id][ToRoutes];
      if e != map[] {
        var r :| r in e;
        assert Id(Routes, r, id.namespace) in T;
      }
      if id.kind.Services? && ServiceInUse(st, id.name, id.namespace) {
        var i :| i in st.links && i.namespace == id.namespace && st.links[i].service == Some(id.name);
        assert i.name in e;
      }
      if id.kind.Modules? && ModuleInUse(st, id.name, id.namespace) {
        var i :| i in st.links && i.namespace == id.namespace && id.name in st.links[i].modules;
        assert i.name in e;
      }
    }
  }

  /** A service vertex lists more than one route exactly when the service is shared. */
  lemma SharedIsListed(T: Tree, st: State, E: map<Id, Edges>, id: Id)
    requires AllWired(T, st.links, None, E) && Consistent(st) && id in T && id.kind.Services?
    ensures ToRoutes in E[id] && (|E[id][ToRoutes]| > 1 <==> ServiceShared(st, id.name, id.namespace))
  {
    assert VertexWired(T, st.links, None, id, E[id]);
    var e := E[id][ToRoutes];
    if |e| > 1 {
      var a, b := TwoOf(e.Keys);
      var i, j := Id(Routes, a, id.namespace), Id(Routes, b, id.namespace);
      assert UsesService(st, i, id.name, id.namespace) && UsesService(st, j, id.name, id.namespace);
    }
    if ServiceShared(st, id.name, id.namespace) {
      var i, j :| i in st.links && j in st.links && i != j &&
        UsesService(st, i, id.name, id.namespace) && UsesService(st, j, id.name, id.namespace);
      assert {i.name, j.name} <= e.Keys && i.name != j.name;
      HasTwo(e.Keys, i.name, j.name);
    }
  }

  lemma TwoOf(s: set<string>) returns (a: string, b: string)
    requires |s| > 1
    ensures a in s && b in s && a != b
  {
    a :| a in s;
    assert |s - {a}| == |s| - 1;
    b :| b in s - {a};
  }

  lemma HasTwo(s: set<string>, a: string, b: string)
    requires {a, b} <= s && a != b
    ensures |s| > 1
  {
    assert |s - {a}| == |s| - 1 && b in s - {a};
  }

  lemma OwnedGone(T: Tree, st: State, E: map<Id, Edges>, repr: set<Link>, id: Id)
    requires Sound(T, st, E, repr) && st.live.Keys == T.Keys
    requires !id.kind.Namespaces? && !id.kind.Routes? && RemoveError(st, id.kind, id.name, id.namespace).None?
    ensures ListName(id.kind) in E[NamespaceId(id.namespace)]
    ensures Sound(T - {id}, Effect(st, Remove(id.kind, id.name, id.namespace)), DetachedEdges(T, E, id), repr)
  {
    RemoveOwnedWired(T, st, E, id);
    var ns := NamespaceId(id.namespace);
    ReachesPut(E, repr, ns, Unlisted(E[ns], id), repr);
    ReachesDrop(E[ns := Unlisted(E[ns], id)], repr, id);
    Accepted(T - {id}, st, DetachedEdges(T, E, id), repr, Remove(id.kind, id.name, id.namespace));
  }

  /**
   Edges mirror each other: a route leads to a service exactly when the service lists the route, whatever
   module lists a route is led to by it, and one-to-one edges hold at most one vertex.
   */
  lemma EdgesMirror(T: Tree, st: State, E: map<Id, Edges>, repr: set<Link>, rt: Id)
    requires Sound(T, st, E, repr) && st.live.Keys == T.Keys && rt in T && rt.kind.Routes?
    ensures E[rt].Keys == EdgeNames(Routes) && |E[rt][ToService]| <= 1 && |E[rt][ToNamespace]| == 1
    ensures NamespaceId(rt.namespace) in T && E[rt][ToNamespace] == map[rt.namespace := T[NamespaceId(rt.namespace)]]
    ensures forall s :: s in E[rt][ToService] ==>
      Id(Services, s, rt.namespace) in T && E[rt][ToService][s] == T[Id(Services, s, rt.namespace)]
    ensures forall s :: Id(Services, s, rt.namespace) in T ==>
      && ToRoutes in E[Id(Services, s, rt.namespace)]
      && (s in E[rt][ToService] <==> rt.name in E[Id(Services, s, rt.namespace)][ToRoutes])
      && (s in E[rt][ToService] ==> E[Id(Services, s, rt.namespace)][ToRoutes][rt.name] == T[rt])
    ensures forall m :: Id(Modules, m, rt.namespace) in T ==>
      && ToRoutes in E[Id(Modules, m, rt.namespace)]
      && (rt.name in E[Id(Modules, m, rt.namespace)][ToRoutes] ==>
        && E[Id(Modules, m, rt.namespace)][ToRoutes][rt.name] == T[rt]
        && m in E[rt][ToModules] && E[rt][ToModules][m] == T[Id(Modules, m, rt.namespace)])
  {
    assert VertexWired(T, st.links, None, rt, E[rt]);
    forall i | i in T && (i.kind.Services? || i.kind.Modules?) && i.namespace == rt.namespace
      ensures ToRoutes in E[i]
      ensures i.kind.Services? ==> (rt.name in E[i][ToRoutes] <==> st.links[rt].service == Some(i.name))
      ensures i.kind.Modules? ==> (rt.name in E[i][ToRoutes] <==> i.name in st.links[rt].modules)
      ensures rt.name in E[i][ToRoutes] ==> E[i][ToRoutes][rt.name] == T[rt]
    {
      assert VertexWired(T, st.links, None, i, E[i]);
      assert rt == Id(Routes, rt.name, rt.namespace);
    }
  }

  /** A namespace's edges list exactly what lives in it, secrets aside, and lead to the vertices in the tree. */
  lemma NamespaceListsExactly(
    T: Tree, st: State, E: map<Id, Edges>, repr: set<Link>, ns: string, kind: Kind, name: string)
    requires Sound(T, st, E, repr) && st.live.Keys == T.Keys && NamespaceId(ns) in T
    requires !kind.Namespaces? && !kind.Secrets?
    ensures var e := E[NamespaceId(ns)];
      && ListName(kind) in e
      && (name in e[ListName(kind)] <==> Id(kind, name, ns) in st.live)
      && (name in e[ListName(kind)] ==> e[ListName(kind)][name] == T[Id(kind, name, ns)])
  {
    assert VertexWired(T, st.links, None, NamespaceId(ns), E[NamespaceId(ns)]);
  }

  lemma ListedRoutesAreLive(T: Tree, st: State, E: map<Id, Edges>, repr: set<Link>, i: Id, r: string)
    requires Sound(T, st, E, repr) && st.live.Keys == T.Keys && i in T && (i.kind.Services? || i.kind.Modules?)
    ensures ToRoutes in E[i]
    ensures r in E[i][ToRoutes] ==>
      Id(Routes, r, i.namespace) in st.live && E[i][ToRoutes][r] == T[Id(Routes, r, i.namespace)]
  {
    assert VertexWired(T, st.links, None, i, E[i]);
  }
}
