/** Unlinking and relinking a route on the heap, one edge at a time. */
module RouteLinking {
  import opened Wrappers
  import opened Resources
  import opened Linker
  import opened Wiring
  import opened RouteWiring

  /** LinkOneOne on a vertex, as the record of the whole tree sees it. */
  method LinkOnlyIn(
    ghost T: Tree, ghost E: map<Id, Edges>, ghost items: map<Id, Spec>, ghost repr: set<Link>,
    v: Link, name: EdgeName, key: string, w: Link)
    requires Mirror(T, E, items, repr) && v in repr && name in v.edges && v.edges[name].Keys <= {key}
    modifies v`edges
    ensures v.edges == old(v.edges)[name := map[key := w]]
    ensures Mirror(T, WithEdges(T, E, v, v.edges), items, repr)
  {
    v.LinkOneOne(name, key, w);
  }

  /** Unlinking from one more module: a vertex that has left the tree changes nothing in the record. */
  lemma UnlinkedFurther(
    T: Tree, service: Option<string>, id: Id, modules: map<string, Link>, done: set<string>, E: map<Id, Edges>,
    m: string)
    requires E.Keys == T.Keys && done <= modules.Keys && m in modules && m !in done
    requires modules[m].id == Id(Modules, m, id.namespace) && id.kind.Routes?
    ensures var U, v := Unlinked(T, service, id, modules, done, E), modules[m];
      Unlinked(T, service, id, modules, done + {m}, E) ==
        if v.id in T && T[v.id] == v then U[v.id := Drop(U[v.id], ToRoutes, id.name)] else U
  {
  }

  /** What a route's own edges lead to. */
  ghost predicate LeadsTo(T: Tree, service: Option<string>, id: Id, e: Edges, repr: set<Link>) {
    && e.Keys == EdgeNames(Routes)
    && (match service
      case None => e[ToService] == map[]
      case Some(s) =>
        Id(Services, s, id.namespace) in T && e[ToService] == map[s := T[Id(Services, s, id.namespace)]])
    && (forall m :: m in e[ToModules] ==> e[ToModules][m].id == Id(Modules, m, id.namespace) && e[ToModules][m] in repr)
  }

  lemma RouteLeadsTo(T: Tree, links: map<Id, Links>, E: map<Id, Edges>, repr: set<Link>, id: Id)
    requires AllWired(T, links, None, E) && Reaches(E, repr) && id in T && id.kind.Routes?
    ensures id in links && LeadsTo(T, links[id].service, id, E[id], repr)
  {
    assert VertexWired(T, links, None, id, E[id]);
    forall m | m in E[id][ToModules] ensures E[id][ToModules][m] in repr { }
  }

  lemma UnlinkedKeepsModules(
    T: Tree, service: Option<string>, id: Id, modules: map<string, Link>, done: set<string>, E: map<Id, Edges>)
    requires E.Keys == T.Keys && id in T && id.kind.Routes? && done <= modules.Keys && E[id].Keys == EdgeNames(Routes)
    ensures var e := Unlinked(T, service, id, modules, done, E)[id];
      e.Keys == EdgeNames(Routes) && e[ToModules] == E[id][ToModules]
  {
  }

  /** unlinkRoute: off the namespace's list, off the service's, and off every module the route leads to. */
  method UnlinkRoute(
    ghost T: Tree, ghost service: Option<string>, ghost E: map<Id, Edges>, ghost items: map<Id, Spec>,
    ghost repr: set<Link>,
    ghost id: Id, rtLk: Link, nsLk: Link, name: string, namespace: string)
    requires Mirror(T, E, items, repr) && id == Id(Routes, name, namespace) && id in T && NamespaceId(namespace) in T
    requires LeadsTo(T, service, id, E[id], repr) && rtLk == T[id] && nsLk == T[NamespaceId(namespace)]
    modifies repr`edges
    ensures Mirror(T, Unlinked(T, service, id, E[id][ToModules], E[id][ToModules].Keys, E), items, repr)
  {
    UnlinkHead(T, service, E, items, repr, id, rtLk, nsLk, name, namespace);
    UnlinkedKeepsModules(T, service, id, E[id][ToModules], {}, E);
    UnlinkModules(T, service, E, items, repr, id, rtLk.edges[ToModules], name);
  }

  method UnlinkModule(
    ghost T: Tree, ghost service: Option<string>, ghost E: map<Id, Edges>, ghost items: map<Id, Spec>,
    ghost repr: set<Link>,
    ghost id: Id, ghost modules: map<string, Link>, ghost done: set<string>, ghost m: string, modLk: Link, name: string)
    requires E.Keys == T.Keys && done <= modules.Keys && m in modules && m !in done && modLk == modules[m]
    requires modLk.id == Id(Modules, m, id.namespace) && modLk in repr && id.kind.Routes? && id.name == name
    requires Mirror(T, Unlinked(T, service, id, modules, done, E), items, repr)
    modifies repr`edges
    ensures Mirror(T, Unlinked(T, service, id, modules, done + {m}, E), items, repr)
  {
    UnlinkedFurther(T, service, id, modules, done, E, m);
    UnlinkIn(T, Unlinked(T, service, id, modules, done, E), items, repr, modLk, ToRoutes, name);
  }

  method UnlinkModules(
    ghost T: Tree, ghost service: Option<string>, ghost E: map<Id, Edges>, ghost items: map<Id, Spec>,
    ghost repr: set<Link>,
    ghost id: Id, modules: map<string, Link>, name: string)
    requires E.Keys == T.Keys && Mirror(T, Unlinked(T, service, id, modules, {}, E), items, repr)
    requires id.kind.Routes? && id.name == name
    requires forall m :: m in modules ==> modules[m].id == Id(Modules, m, id.namespace) && modules[m] in repr
    modifies repr`edges
    ensures Mirror(T, Unlinked(T, service, id, modules, modules.Keys, E), items, repr)
  {
    hide Mirror, Unlinked;
    var todo := modules.Keys;
    assert modules.Keys - todo == {};
    while todo != {}
      invariant todo <= modules.Keys
      invariant Mirror(T, Unlinked(T, service, id, modules, modules.Keys - todo, E), items, repr)
    {
      var m :| m in todo;
      ghost var done := modules.Keys - todo;
      UnlinkModule(T, service, E, items, repr, id, modules, done, m, modules[m], name);
      todo := todo - {m};
      assert done + {m} == modules.Keys - todo;
    }
    assert modules.Keys - todo == modules.Keys;
  }

  ghost function OffNamespace(E: map<Id, Edges>, id: Id): map<Id, Edges>
    requires id in E && NamespaceId(id.namespace) in E
  {
    E[NamespaceId(id.namespace) := Drop(E[NamespaceId(id.namespace)], ToRoutes, id.name)]
     [id := Drop(E[id], ToNamespace, id.namespace)]
  }

  ghost function OffService(E: map<Id, Edges>, service: Option<string>, id: Id): map<Id, Edges>
    requires id in E && (service.Some? ==> Id(Services, service.value, id.namespace) in E)
  {
    if service.None? then E
    else
      var sid := Id(Services, service.value, id.namespace);
      E[sid := Drop(E[sid], ToRoutes, id.name)][id := E[id][ToService := map[]]]
  }

  lemma SameRecords(A: map<Id, Edges>, B: map<Id, Edges>)
    requires A.Keys == B.Keys && forall i :: i in A ==> A[i] == B[i]
    ensures A == B
  {
  }

  lemma HeadUnlinked(T: Tree, service: Option<string>, E: map<Id, Edges>, repr: set<Link>, id: Id)
    requires id in T && E.Keys == T.Keys && id.kind.Routes? && NamespaceId(id.namespace) in T
    requires LeadsTo(T, service, id, E[id], repr)
    ensures OffService(OffNamespace(E, id), service, id) == Unlinked(T, service, id, E[id][ToModules], {}, E)
  {
    var L, R := OffService(OffNamespace(E, id), service, id), Unlinked(T, service, id, E[id][ToModules], {}, E);
    forall i | i in T ensures L[i] == R[i] { UnlinkedAt(T, service, E, repr, id, i); }
    SameRecords(L, R);
  }

  lemma UnlinkedAt(T: Tree, service: Option<string>, E: map<Id, Edges>, repr: set<Link>, id: Id, i: Id)
    requires id in T && E.Keys == T.Keys && id.kind.Routes? && NamespaceId(id.namespace) in T && i in T
    requires LeadsTo(T, service, id, E[id], repr)
    ensures OffService(OffNamespace(E, id), service, id)[i] ==
      UnlinkedEdges(T, service, id, E[id][ToModules], {}, i, E[i])
  {
    hide UnlinkedEdges, Drop;
    OwnHeadUnlinked(T, service, E[id], repr, id);
    if i != id { OtherHeadUnlinked(T, service, E[i], id, E[id][ToModules], i); }
  }

  lemma OwnHeadUnlinked(T: Tree, service: Option<string>, e: Edges, repr: set<Link>, id: Id)
    requires id in T && id.kind.Routes? && LeadsTo(T, service, id, e, repr)
    ensures UnlinkedEdges(T, service, id, e[ToModules], {}, id, e) ==
      if service.None? then Drop(e, ToNamespace, id.namespace)
      else Drop(e, ToNamespace, id.namespace)[ToService := map[]]
  {
    var d := Drop(e, ToNamespace, id.namespace);
    assert service.None? ==> d == d[ToService := map[]];
  }

  lemma OtherHeadUnlinked(
    T: Tree, service: Option<string>, e: Edges, id: Id, modules: map<string, Link>, i: Id)
    requires i in T && id.kind.Routes? && i != id
    ensures UnlinkedEdges(T, service, id, modules, {}, i, e) ==
      if i == NamespaceId(id.namespace) || (service.Some? && i == Id(Services, service.value, id.namespace)) then
        Drop(e, ToRoutes, id.name)
      else e
  {
  }

  /** The part of unlinkRoute before the loop over the modules. */
  method UnlinkHead(
    ghost T: Tree, ghost service: Option<string>, ghost E: map<Id, Edges>, ghost items: map<Id, Spec>,
    ghost repr: set<Link>,
    ghost id: Id, rtLk: Link, nsLk: Link, name: string, namespace: string)
    requires Mirror(T, E, items, repr) && id == Id(Routes, name, namespace) && id in T && NamespaceId(namespace) in T
    requires LeadsTo(T, service, id, E[id], repr) && rtLk == T[id] && nsLk == T[NamespaceId(namespace)]
    modifies repr`edges
    ensures Mirror(T, Unlinked(T, service, id, E[id][ToModules], {}, E), items, repr)
  {
    UnlinkNamespace(T, E, items, repr, id, rtLk, nsLk, name, namespace);
    UnlinkService(T, service, OffNamespace(E, id), items, repr, id, rtLk, name);
    HeadUnlinked(T, service, E, repr, id);
  }

  method UnlinkNamespace(
    ghost T: Tree, ghost E: map<Id, Edges>, ghost items: map<Id, Spec>, ghost repr: set<Link>,
    ghost id: Id, rtLk: Link, nsLk: Link, name: string, namespace: string)
    requires Mirror(T, E, items, repr) && id == Id(Routes, name, namespace) && id in T && NamespaceId(namespace) in T
    requires rtLk == T[id] && nsLk == T[NamespaceId(namespace)]
    modifies repr`edges
    ensures Mirror(T, OffNamespace(E, id), items, repr)
  {
    UnlinkIn(T, E, items, repr, nsLk, ToRoutes, name);
    ghost var E1 := E[nsLk.id := nsLk.edges];
    UnlinkKeyIn(T, E1, items, repr, rtLk, ToNamespace, namespace);
  }

  method UnlinkService(
    ghost T: Tree, ghost service: Option<string>, ghost E: map<Id, Edges>, ghost items: map<Id, Spec>,
    ghost repr: set<Link>,
    ghost id: Id, rtLk: Link, name: string)
    requires Mirror(T, E, items, repr) && id in T && id.kind.Routes? && id.name == name && rtLk == T[id]
    requires ToService in E[id]
    requires match service
      case None => E[id][ToService] == map[]
      case Some(s) =>
        Id(Services, s, id.namespace) in T && E[id][ToService] == map[s := T[Id(Services, s, id.namespace)]]
    modifies repr`edges
    ensures Mirror(T, OffService(E, service, id), items, repr)
  {
    var svcLk := rtLk.Get(ToService);
    if svcLk.Some? {
      ghost var sid := Id(Services, service.value, id.namespace);
      assert svcLk.value == T[sid];
      UnlinkIn(T, E, items, repr, svcLk.value, ToRoutes, name);
      UnlinkOnlyIn(T, E[sid := T[sid].edges], items, repr, rtLk, ToService);
    }
  }

  lemma NamedFurther(T: Tree, namespace: string, done: set<string>, m: string, e: map<string, Link>)
    requires forall k :: k in done + {m} ==> Id(Modules, k, namespace) in T
    ensures e + NamedModules(T, namespace, done + {m}) ==
      (e + NamedModules(T, namespace, done))[m := T[Id(Modules, m, namespace)]]
  {
    assert NamedModules(T, namespace, done + {m}) ==
      NamedModules(T, namespace, done)[m := T[Id(Modules, m, namespace)]];
  }

  /** One more module linked with the route both ways. */
  lemma RelinkedFurther(T: Tree, id: Id, service: string, done: set<string>, E: map<Id, Edges>, m: string)
    requires id in T && NamespaceId(id.namespace) in T && id.kind.Routes? && m !in done
    requires service != "" ==> Id(Services, service, id.namespace) in T
    requires forall k :: k in done + {m} ==> Id(Modules, k, id.namespace) in T
    requires E.Keys == T.Keys && E[id].Keys == EdgeNames(Routes)
    ensures var R, mid := RelinkedAll(T, id, service, done, E), Id(Modules, m, id.namespace);
      ToModules in R[id] && RelinkedAll(T, id, service, done + {m}, E) ==
        R[mid := Put(R[mid], ToRoutes, id.name, T[id])][id := R[id][ToModules := R[id][ToModules][m := T[mid]]]]
  {
    hide RelinkedEdges;
    var R, R' := RelinkedAll(T, id, service, done, E), RelinkedAll(T, id, service, done + {m}, E);
    var mid := Id(Modules, m, id.namespace);
    OwnRelinkedFurther(T, E[id], service, id, done, m);
    var L := R[mid := Put(R[mid], ToRoutes, id.name, T[id])][id := R[id][ToModules := R[id][ToModules][m := T[mid]]]];
    forall i | i in T ensures R'[i] == L[i] {
      if i != id { OtherRelinkedFurther(T, E[i], service, id, done, m, i); }
    }
    SameRecords(L, R');
  }

  lemma OwnRelinkedFurther(T: Tree, e: Edges, service: string, id: Id, done: set<string>, m: string)
    requires id in T && NamespaceId(id.namespace) in T && id.kind.Routes? && e.Keys == EdgeNames(Routes)
    requires service != "" ==> Id(Services, service, id.namespace) in T
    requires forall k :: k in done + {m} ==> Id(Modules, k, id.namespace) in T
    ensures var r := RelinkedEdges(T, id, service, done, id, e);
      ToModules in r && RelinkedEdges(T, id, service, done + {m}, id, e) ==
        r[ToModules := r[ToModules][m := T[Id(Modules, m, id.namespace)]]]
  {
    NamedFurther(T, id.namespace, done, m, e[ToModules]);
  }

  lemma OtherRelinkedFurther(T: Tree, e: Edges, service: string, id: Id, done: set<string>, m: string, i: Id)
    requires id in T && NamespaceId(id.namespace) in T && id.kind.Routes? && i != id && m !in done
    requires service != "" ==> Id(Services, service, id.namespace) in T
    requires forall k :: k in done + {m} ==> Id(Modules, k, id.namespace) in T
    ensures RelinkedEdges(T, id, service, done + {m}, i, e) ==
      if i == Id(Modules, m, id.namespace) then Put(RelinkedEdges(T, id, service, done, i, e), ToRoutes, id.name, T[id])
      else RelinkedEdges(T, id, service, done, i, e)
  {
  }

  method LinkModules(
    ghost T: Tree, ghost service: string, ghost E: map<Id, Edges>, ghost items: map<Id, Spec>, ghost repr: set<Link>,
    ghost id: Id, rtLk: Link, modLks: map<string, Link>, name: string)
    requires id in T && NamespaceId(id.namespace) in T && id.kind.Routes? && id.name == name && rtLk == T[id]
    requires service != "" ==> Id(Services, service, id.namespace) in T
    requires forall m :: m in modLks ==>
      Id(Modules, m, id.namespace) in T && modLks[m] == T[Id(Modules, m, id.namespace)]
    requires E.Keys == T.Keys && E[id].Keys == EdgeNames(Routes)
    requires Mirror(T, RelinkedAll(T, id, service, {}, E), items, repr)
    modifies repr`edges
    ensures Mirror(T, RelinkedAll(T, id, service, modLks.Keys, E), items, repr)
  {
    hide Mirror, RelinkedAll;
    var todo := modLks.Keys;
    assert modLks.Keys - todo == {};
    while todo != {}
      invariant todo <= modLks.Keys
      invariant Mirror(T, RelinkedAll(T, id, service, modLks.Keys - todo, E), items, repr)
    {
      var m :| m in todo;
      ghost var done := modLks.Keys - todo;
      RelinkedFurther(T, id, service, done, E, m);
      LinkModule(T, RelinkedAll(T, id, service, done, E), items, repr, id, rtLk, modLks[m], m, name);
      todo := todo - {m};
      assert done + {m} == modLks.Keys - todo;
    }
    assert modLks.Keys - todo == modLks.Keys;
  }

  method LinkModule(
    ghost T: Tree, ghost E: map<Id, Edges>, ghost items: map<Id, Spec>, ghost repr: set<Link>,
    ghost id: Id, rtLk: Link, modLk: Link, modName: string, name: string)
    requires Mirror(T, E, items, repr) && id in T && id.kind.Routes? && id.name == name && rtLk == T[id]
    requires Id(Modules, modName, id.namespace) in T && modLk == T[Id(Modules, modName, id.namespace)]
    requires ToModules in E[id]
    modifies repr`edges
    ensures var mid := Id(Modules, modName, id.namespace);
      Mirror(T,
        E[mid := Put(E[mid], ToRoutes, name, rtLk)][id := E[id][ToModules := E[id][ToModules][modName := modLk]]],
        items, repr)
  {
    LinkIn(T, E, items, repr, modLk, ToRoutes, name, rtLk);
    LinkIn(T, E[modLk.id := modLk.edges], items, repr, rtLk, ToModules, modName, modLk);
  }

  ghost function OnService(T: Tree, E: map<Id, Edges>, service: string, id: Id): map<Id, Edges>
    requires id in E && id in T
    requires service != "" ==> Id(Services, service, id.namespace) in E && Id(Services, service, id.namespace) in T
  {
    if service == "" then E
    else
      var sid := Id(Services, service, id.namespace);
      E[id := E[id][ToService := map[service := T[sid]]]][sid := Put(E[sid], ToRoutes, id.name, T[id])]
  }

  ghost function OnNamespace(T: Tree, E: map<Id, Edges>, id: Id): map<Id, Edges>
    requires id in E && id in T && NamespaceId(id.namespace) in E && NamespaceId(id.namespace) in T
  {
    var ns := NamespaceId(id.namespace);
    E[id := E[id][ToNamespace := map[id.namespace := T[ns]]]][ns := Put(E[ns], ToRoutes, id.name, T[id])]
  }

  lemma HeadRelinked(T: Tree, E: map<Id, Edges>, service: string, id: Id)
    requires id in T && E.Keys == T.Keys && id.kind.Routes? && NamespaceId(id.namespace) in T
    requires service != "" ==> Id(Services, service, id.namespace) in T
    requires E[id].Keys == EdgeNames(Routes)
    ensures OnNamespace(T, OnService(T, E, service, id), id) == RelinkedAll(T, id, service, {}, E)
  {
    hide RelinkedEdges;
    var R, L := RelinkedAll(T, id, service, {}, E), OnNamespace(T, OnService(T, E, service, id), id);
    OwnHeadRelinked(T, E[id], service, id);
    forall i | i in T ensures L[i] == R[i] {
      if i != id { OtherHeadRelinked(T, E[i], service, id, i); }
    }
    SameRecords(L, R);
  }

  lemma OwnHeadRelinked(T: Tree, e: Edges, service: string, id: Id)
    requires id in T && id.kind.Routes? && NamespaceId(id.namespace) in T && e.Keys == EdgeNames(Routes)
    requires service != "" ==> Id(Services, service, id.namespace) in T
    ensures RelinkedEdges(T, id, service, {}, id, e) ==
      (if service == "" then e else e[ToService := map[service := T[Id(Services, service, id.namespace)]]])
       [ToNamespace := map[id.namespace := T[NamespaceId(id.namespace)]]]
  {
    assert NamedModules(T, id.namespace, {}) == map[];
    assert e[ToModules] + map[] == e[ToModules];
    assert e == e[ToService := e[ToService]];
  }

  lemma OtherHeadRelinked(T: Tree, e: Edges, service: string, id: Id, i: Id)
    requires id in T && id.kind.Routes? && NamespaceId(id.namespace) in T && i != id
    requires service != "" ==> Id(Services, service, id.namespace) in T
    ensures RelinkedEdges(T, id, service, {}, i, e) ==
      if i == NamespaceId(id.namespace) || (service != "" && i == Id(Services, service, id.namespace)) then
        Put(e, ToRoutes, id.name, T[id])
      else e
  {
  }

  method LinkService(
    ghost T: Tree, ghost E: map<Id, Edges>, ghost items: map<Id, Spec>, ghost repr: set<Link>,
    ghost id: Id, rtLk: Link, service: string, svcLk: Link, name: string)
    requires Mirror(T, E, items, repr) && id in T && id.kind.Routes? && id.name == name && rtLk == T[id]
    requires service != "" && Id(Services, service, id.namespace) in T
    requires svcLk == T[Id(Services, service, id.namespace)]
    requires ToService in E[id] && E[id][ToService] == map[]
    modifies repr`edges
    ensures Mirror(T, OnService(T, E, service, id), items, repr)
  {
    LinkOnlyIn(T, E, items, repr, rtLk, ToService, service, svcLk);
    LinkIn(T, E[id := rtLk.edges], items, repr, svcLk, ToRoutes, name, rtLk);
  }

  method LinkNamespace(
    ghost T: Tree, ghost E: map<Id, Edges>, ghost items: map<Id, Spec>, ghost repr: set<Link>,
    ghost id: Id, rtLk: Link, nsLk: Link, name: string, namespace: string)
    requires Mirror(T, E, items, repr) && id == Id(Routes, name, namespace) && id in T && rtLk == T[id]
    requires NamespaceId(namespace) in T && nsLk == T[NamespaceId(namespace)]
    requires ToNamespace in E[id] && E[id][ToNamespace].Keys <= {namespace}
    modifies repr`edges
    ensures Mirror(T, OnNamespace(T, E, id), items, repr)
  {
    LinkOnlyIn(T, E, items, repr, rtLk, ToNamespace, namespace, nsLk);
    LinkIn(T, E[id := rtLk.edges], items, repr, nsLk, ToRoutes, name, rtLk);
  }

  /** The linking half of relinkRoute. */
  method LinkRoute(
    ghost T: Tree, ghost E: map<Id, Edges>, ghost items: map<Id, Spec>, ghost repr: set<Link>,
    ghost id: Id, rtLk: Link, nsLk: Link, svcLk: Option<Link>, modLks: map<string, Link>,
    service: string, name: string, namespace: string)
    requires Mirror(T, E, items, repr) && id == Id(Routes, name, namespace) && id in T && rtLk == T[id]
    requires NamespaceId(namespace) in T && nsLk == T[NamespaceId(namespace)]
    requires service != "" ==>
      Id(Services, service, namespace) in T && svcLk == Some(T[Id(Services, service, namespace)])
    requires forall m :: m in modLks ==> Id(Modules, m, namespace) in T && modLks[m] == T[Id(Modules, m, namespace)]
    requires Linkable(E, id, service)
    modifies repr`edges
    ensures Mirror(T, RelinkedAll(T, id, service, modLks.Keys, E), items, repr)
  {
    hide Mirror;
    assert E.Keys == T.Keys by { MirrorKeys(T, E, items, repr); }
    if service != "" {
      LinkService(T, E, items, repr, id, rtLk, service, svcLk.value, name);
    }
    LinkNamespace(T, OnService(T, E, service, id), items, repr, id, rtLk, nsLk, name, namespace);
    HeadRelinked(T, E, service, id);
    LinkModules(T, service, E, items, repr, id, rtLk, modLks, name);
  }

  lemma MirrorKeys(T: Tree, E: map<Id, Edges>, items: map<Id, Spec>, repr: set<Link>)
    requires Mirror(T, E, items, repr)
    ensures E.Keys == T.Keys && items.Keys == T.Keys
  {
  }
}
