/**
 Which calls are accepted and what they leave behind, kind by kind and in the terms of the state alone: what is
 live, and what routes are linked to.
 */
module Acceptance {
  import opened Wrappers
  import opened Resources

  lemma AddNamespaceMeans(s: State, spec: Spec)
    ensures OpError(s, Add(Namespaces, spec)).None?
    ensures Effect(s, Add(Namespaces, spec)).live == s.live[Id(Namespaces, spec.name, spec.name) := spec]
    ensures Effect(s, Add(Namespaces, spec)).links == s.links
  {
  }

  /** Everything else needs a live namespace; a module or a secret must decode too. */
  lemma AddOwnedMeans(s: State, kind: Kind, spec: Spec)
    requires !kind.Namespaces? && !kind.Routes?
    ensures OpError(s, Add(kind, spec)).None? <==>
      && Id(Namespaces, spec.namespace, spec.namespace) in s.live
      && (kind == Modules || kind == Secrets ==> spec.decodes)
    ensures OpError(s, Add(kind, spec)) == Some(NotFound(Namespaces, spec.namespace)) <==>
      Id(Namespaces, spec.namespace, spec.namespace) !in s.live
    ensures OpError(s, Add(kind, spec)) == Some(Undecodable(spec.name)) <==>
      && Id(Namespaces, spec.namespace, spec.namespace) in s.live
      && (kind == Modules || kind == Secrets) && !spec.decodes
    ensures Effect(s, Add(kind, spec)).live == s.live[Id(kind, spec.name, spec.namespace) := spec]
    ensures Effect(s, Add(kind, spec)).links == s.links
  {
  }

  /** The i-th of the names is the first whose module is not live. */
  ghost predicate FirstMissing(live: map<Id, Spec>, names: seq<string>, namespace: string, i: nat) {
    && i < |names| && Id(Modules, names[i], namespace) !in live
    && forall j :: 0 <= j < i ==> Id(Modules, names[j], namespace) in live
  }

  lemma {:induction false} FirstMissingAt(s: State, names: seq<string>, namespace: string) returns (i: nat)
    requires FirstMissingModule(s, names, namespace).Some?
    ensures FirstMissing(s.live, names, namespace, i) && FirstMissingModule(s, names, namespace) == Some(names[i])
  {
    if Id(Modules, names[0], namespace) !in s.live {
      i := 0;
    } else {
      var k := FirstMissingAt(s, names[1..], namespace);
      i := k + 1;
      assert names == [names[0]] + names[1..];
    }
  }

  /** A route needs its namespace, its service if it names one, and all of its modules; the first missing is told. */
  lemma AddRouteMeans(s: State, spec: Spec)
    ensures var ns := spec.namespace; var e := OpError(s, Add(Routes, spec));
      && (e.None? <==>
        && Id(Namespaces, ns, ns) in s.live
        && (spec.service != "" ==> Id(Services, spec.service, ns) in s.live)
        && forall m :: m in spec.modules ==> Id(Modules, m, ns) in s.live)
      && (e == Some(NotFound(Namespaces, ns)) <==> Id(Namespaces, ns, ns) !in s.live)
      && (e == Some(NotFound(Services, spec.service)) <==>
        Id(Namespaces, ns, ns) in s.live && spec.service != "" && Id(Services, spec.service, ns) !in s.live)
      && (e.Some? && e.value.NotFound? && e.value.kind == Modules ==>
        exists i: nat :: FirstMissing(s.live, spec.modules, ns, i) && e.value.name == spec.modules[i])
      && (e.Some? ==> e.value.NotFound?)
  {
    NoMissingModule(s, spec.modules, spec.namespace);
    if FirstMissingModule(s, spec.modules, spec.namespace).Some? {
      var i := FirstMissingAt(s, spec.modules, spec.namespace);
    }
  }

  /**
   The state after a route has been accepted: it is led to what it names, and without a service to name it keeps
   what it was led to before.
   */
  ghost predicate LedTo(s: State, spec: Spec, t: State) {
    var id := Id(Routes, spec.name, spec.namespace);
    && t.live == s.live[id := spec] && t.links.Keys == s.links.Keys + {id}
    && (forall i :: i in s.links && i != id ==> t.links[i] == s.links[i])
    && (spec.service != "" ==> t.links[id].service == Some(spec.service))
    && (spec.service == "" ==> t.links[id].service == if id in s.links then s.links[id].service else None)
    && (forall m :: m in t.links[id].modules <==>
      m in spec.modules || (spec.service == "" && id in s.links && m in s.links[id].modules))
  }

  lemma RouteLedTo(s: State, spec: Spec)
    ensures LedTo(s, spec, Effect(s, Add(Routes, spec)))
  {
  }

  /** What lives in a namespace. */
  ghost predicate LivesIn(live: map<Id, Spec>, kind: Kind, namespace: string) {
    exists i :: i in live && i.kind == kind && i.namespace == namespace
  }

  /** A namespace can go when nothing but secrets is left in it; else the first kind there is told. */
  lemma RemoveNamespaceMeans(s: State, name: string)
    ensures var e := OpError(s, Remove(Namespaces, name, name));
      && (e.None? <==>
        && Id(Namespaces, name, name) in s.live
        && forall i :: i in s.live && i.namespace == name ==> i.kind == Namespaces || i.kind == Secrets)
      && (e == Some(NotFound(Namespaces, name)) <==> Id(Namespaces, name, name) !in s.live)
      && (e.Some? && e.value.StillLinked? ==>
        && e.value.name == name && LivesIn(s.live, e.value.users, name)
        && (e.value.users != Routes ==> !LivesIn(s.live, Routes, name))
        && (e.value.users != Routes && e.value.users != Services ==> !LivesIn(s.live, Services, name))
        && (e.value.users == Domains || e.value.users == Collections ==> !LivesIn(s.live, Modules, name))
        && (e.value.users == Collections ==> !LivesIn(s.live, Domains, name)))
    ensures Effect(s, Remove(Namespaces, name, name)).live == s.live - {Id(Namespaces, name, name)}
    ensures Effect(s, Remove(Namespaces, name, name)).links == s.links
  {
    forall kind ensures Populated(s, kind, name) <==> LivesIn(s.live, kind, name) { }
    forall i | i in s.live && i.namespace == name ensures LivesIn(s.live, i.kind, name) { }
  }

  ghost predicate SharedByRoutes(links: map<Id, Links>, name: string, namespace: string) {
    exists q, r ::
      && q in links && r in links && q != r && q.namespace == r.namespace == namespace
      && links[q].service == links[r].service == Some(name)
  }

  /** A service can go when no route is linked to it. */
  lemma RemoveServiceMeans(s: State, name: string, namespace: string)
    ensures var e := OpError(s, Remove(Services, name, namespace));
      && (e.None? <==>
        && Id(Services, name, namespace) in s.live && Id(Namespaces, namespace, namespace) in s.live
        && forall r :: r in s.links && r.namespace == namespace ==> s.links[r].service != Some(name))
      && (e == Some(NotFound(Services, name)) <==> Id(Services, name, namespace) !in s.live)
      && (e.Some? && Id(Services, name, namespace) in s.live && Id(Namespaces, namespace, namespace) in s.live ==>
        && e.value in {StillLinked(name, Routes), Panics(name)}
        && (e.value.Panics? <==> SharedByRoutes(s.links, name, namespace)))
    ensures Effect(s, Remove(Services, name, namespace)).live == s.live - {Id(Services, name, namespace)}
    ensures Effect(s, Remove(Services, name, namespace)).links == s.links
  {
    assert ServiceShared(s, name, namespace) ==> ServiceInUse(s, name, namespace);
    assert ServiceShared(s, name, namespace) <==> SharedByRoutes(s.links, name, namespace);
  }

  /** So can a module. */
  lemma RemoveModuleMeans(s: State, name: string, namespace: string)
    ensures var e := OpError(s, Remove(Modules, name, namespace));
      && (e.None? <==>
        && Id(Modules, name, namespace) in s.live && Id(Namespaces, namespace, namespace) in s.live
        && forall r :: r in s.links && r.namespace == namespace ==> name !in s.links[r].modules)
      && (e == Some(NotFound(Modules, name)) <==> Id(Modules, name, namespace) !in s.live)
      && (e == Some(StillLinked(name, Routes)) <==>
        && Id(Modules, name, namespace) in s.live
        && exists r :: r in s.links && r.namespace == namespace && name in s.links[r].modules)
    ensures Effect(s, Remove(Modules, name, namespace)).live == s.live - {Id(Modules, name, namespace)}
    ensures Effect(s, Remove(Modules, name, namespace)).links == s.links
  {
  }

  /** Routes, domains, collections and secrets can go whenever they and their namespace are there. */
  lemma RemoveFreeMeans(s: State, kind: Kind, name: string, namespace: string)
    requires kind == Routes || kind == Domains || kind == Collections || kind == Secrets
    ensures OpError(s, Remove(kind, name, namespace)).None? <==>
      Id(kind, name, namespace) in s.live && Id(Namespaces, namespace, namespace) in s.live
    ensures var e, here, ns := OpError(s, Remove(kind, name, namespace)), Id(kind, name, namespace) in s.live,
        Id(Namespaces, namespace, namespace) in s.live;
      && (e == Some(NotFound(kind, name)) <==> !here && (kind == Routes ==> ns))
      && (e == Some(NotFound(Namespaces, namespace)) <==> !ns && (kind != Routes ==> here))
    ensures var t := Effect(s, Remove(kind, name, namespace));
      && t.live == s.live - {Id(kind, name, namespace)}
      && t.links == if kind == Routes then s.links - {Id(kind, name, namespace)} else s.links
  {
  }

  /** In a consistent state only a secret can have lost its namespace. */
  lemma NamespaceIsLive(s: State, id: Id)
    requires Consistent(s) && id in s.live && id.kind != Secrets
    ensures Id(Namespaces, id.namespace, id.namespace) in s.live
  {
    assert Filed(s, id);
  }
}
