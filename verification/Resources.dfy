/**
 The admin state as a value: live resources and the links that routes hold on services and modules.
 Step says which add and remove calls the resource manager accepts and what they leave behind.
 */
module Resources {
  import opened Wrappers

  datatype Kind = Namespaces | Services | Routes | Modules | Domains | Collections | Secrets

  /** Identity of a resource. A namespace is filed under its own name. */
  datatype Id = Id(kind: Kind, name: string, namespace: string)

  /**
   A resource as submitted. `service` and `modules` matter for routes, `priority` and `patterns` for
   domains, `decodes` (the payload is valid base64) for modules and secrets; `payload` is the rest.
   */
  datatype Spec = Spec(
    name: string, namespace: string, service: string, modules: seq<string>,
    priority: int, patterns: seq<string>, decodes: bool, payload: string)

  /**
   What a live route is linked to: the service whose "routes" edge lists it, and the modules whose
   "routes" edges list it. An update can leave links behind that its own spec no longer names.
   */
  datatype Links = Links(service: Option<string>, modules: set<string>)

  datatype State = State(live: map<Id, Spec>, links: map<Id, Links>)

  const EmptyState := State(map[], map[])

  datatype Op =
    | Add(kind: Kind, spec: Spec)
    | Remove(kind: Kind, name: string, namespace: string)

  datatype Error =
    | NotFound(kind: Kind, name: string)
    | StillLinked(name: string, users: Kind)
    | Undecodable(name: string)
    /** A service with several routes: the code panics before it has changed anything. */
    | Panics(name: string)

  function NamespaceId(namespace: string): Id { Id(Namespaces, namespace, namespace) }

  function OpId(op: Op): Id {
    match op
    case Add(kind, spec) => if kind.Namespaces? then NamespaceId(spec.name) else Id(kind, spec.name, spec.namespace)
    case Remove(kind, name, namespace) => if kind.Namespaces? then NamespaceId(name) else Id(kind, name, namespace)
  }

  /** Some live resource of this kind belongs to the namespace. */
  predicate Populated(s: State, kind: Kind, namespace: string) {
    exists id :: id in s.live && id.kind == kind && id.namespace == namespace
  }

  /** Some route of the namespace is linked to the service. */
  predicate ServiceInUse(s: State, name: string, namespace: string) {
    exists id :: id in s.links && id.namespace == namespace && s.links[id].service == Some(name)
  }

  /** At least two are. */
  predicate ServiceShared(s: State, name: string, namespace: string) {
    exists i, j :: i in s.links && j in s.links && i != j &&
      UsesService(s, i, name, namespace) && UsesService(s, j, name, namespace)
  }

  predicate UsesService(s: State, id: Id, name: string, namespace: string)
    requires id in s.links
  {
    id.namespace == namespace && s.links[id].service == Some(name)
  }

  /** Some route of the namespace is linked to the module. */
  predicate ModuleInUse(s: State, name: string, namespace: string) {
    exists id :: id in s.links && id.namespace == namespace && name in s.links[id].modules
  }

  function FirstMissingModule(s: State, names: seq<string>, namespace: string): Option<string> {
    if names == [] then None
    else if Id(Modules, names[0], namespace) !in s.live then Some(names[0])
    else FirstMissingModule(s, names[1..], namespace)
  }

  /** The modules a route's spec names. */
  function Named(spec: Spec): set<string> { set m | m in spec.modules }

  /** The links of a route once `spec` is accepted: naming a service drops the old links, naming none keeps them. */
  function Relinked(before: Links, spec: Spec): Links {
    if spec.service != "" then Links(Some(spec.service), Named(spec))
    else Links(before.service, before.modules + Named(spec))
  }

  function LinksOf(s: State, id: Id): Links {
    if id in s.links then s.links[id] else Links(None, {})
  }

  function AddError(s: State, kind: Kind, spec: Spec): Option<Error> {
    if kind.Namespaces? then None
    else if NamespaceId(spec.namespace) !in s.live then Some(NotFound(Namespaces, spec.namespace))
    else if (kind.Modules? || kind.Secrets?) && !spec.decodes then Some(Undecodable(spec.name))
    else if kind.Routes? && spec.service != "" && Id(Services, spec.service, spec.namespace) !in s.live then
      Some(NotFound(Services, spec.service))
    else if kind.Routes? && FirstMissingModule(s, spec.modules, spec.namespace).Some? then
      Some(NotFound(Modules, FirstMissingModule(s, spec.modules, spec.namespace).value))
    else None
  }

  function RemoveError(s: State, kind: Kind, name: string, namespace: string): Option<Error> {
    match kind
    case Namespaces =>
      if NamespaceId(name) !in s.live then Some(NotFound(Namespaces, name))
      else if Populated(s, Routes, name) then Some(StillLinked(name, Routes))
      else if Populated(s, Services, name) then Some(StillLinked(name, Services))
      else if Populated(s, Modules, name) then Some(StillLinked(name, Modules))
      else if Populated(s, Domains, name) then Some(StillLinked(name, Domains))
      else if Populated(s, Collections, name) then Some(StillLinked(name, Collections))
      else None
    case Routes =>
      if NamespaceId(namespace) !in s.live then Some(NotFound(Namespaces, namespace))
      else if Id(Routes, name, namespace) !in s.live then Some(NotFound(Routes, name))
      else None
    case Services =>
      if Id(Services, name, namespace) !in s.live then Some(NotFound(Services, name))
      else if NamespaceId(namespace) !in s.live then Some(NotFound(Namespaces, namespace))
      else if ServiceShared(s, name, namespace) then Some(Panics(name))
      else if ServiceInUse(s, name, namespace) then Some(StillLinked(name, Routes))
      else None
    case Modules =>
      if Id(Modules, name, namespace) !in s.live then Some(NotFound(Modules, name))
      else if ModuleInUse(s, name, namespace) then Some(StillLinked(name, Routes))
      else if NamespaceId(namespace) !in s.live then Some(NotFound(Namespaces, namespace))
      else None
    case _ =>
      if Id(kind, name, namespace) !in s.live then Some(NotFound(kind, name))
      else if NamespaceId(namespace) !in s.live then Some(NotFound(Namespaces, namespace))
      else None
  }

  function OpError(s: State, op: Op): Option<Error> {
    match op
    case Add(kind, spec) => AddError(s, kind, spec)
    case Remove(kind, name, namespace) => RemoveError(s, kind, name, namespace)
  }

  function Effect(s: State, op: Op): State {
    var id := OpId(op);
    match op
    case Add(kind, spec) =>
      State(s.live[id := spec], if kind.Routes? then s.links[id := Relinked(LinksOf(s, id), spec)] else s.links)
    case Remove(kind, _, _) =>
      State(s.live - {id}, if kind.Routes? then s.links - {id} else s.links)
  }

  function Step(s: State, op: Op): Result<State, Error> {
    var e := OpError(s, op);
    if e.Some? then Err(e.value) else Ok(Effect(s, op))
  }

  /** A run of calls: a refused call changes nothing and the run goes on. */
  function Run(s: State, ops: seq<Op>): State {
    if ops == [] then s
    else
      var before := Run(s, ops[..|ops| - 1]);
      var r := Step(before, ops[|ops| - 1]);
      if r.Ok? then r.value else before
  }

  /** Every reference is live, and every reference a spec makes is also a link. */
  ghost predicate Consistent(s: State) {
    && (forall id :: id in s.links <==> id in s.live && id.kind.Routes?)
    && (forall id {:trigger Filed(s, id)} :: id in s.live ==> Filed(s, id))
    && (forall id {:trigger Linked(s, id)} :: id in s.links ==> Linked(s, id))
  }

  /** The resource sits under the identity its spec gives it, in a live namespace (secrets aside). */
  ghost predicate Filed(s: State, id: Id)
    requires id in s.live
  {
    && s.live[id].name == id.name
    && (if id.kind.Namespaces? then id.namespace == id.name else s.live[id].namespace == id.namespace)
    && (!id.kind.Secrets? ==> NamespaceId(id.namespace) in s.live)
  }

  ghost predicate Linked(s: State, id: Id)
    requires id in s.links && id in s.live
  {
    var spec, links := s.live[id], s.links[id];
    && (spec.service != "" ==> links.service == Some(spec.service))
    && (links.service.Some? ==> Id(Services, links.service.value, id.namespace) in s.live)
    && (forall m :: m in spec.modules ==> m in links.modules)
    && (forall m :: m in links.modules ==> Id(Modules, m, id.namespace) in s.live)
  }

  lemma {:induction false} NoMissingModule(s: State, names: seq<string>, namespace: string)
    ensures FirstMissingModule(s, names, namespace).None? <==>
      forall m :: m in names ==> Id(Modules, m, namespace) in s.live
  {
    if names != [] {
      NoMissingModule(s, names[1..], namespace);
      assert names == [names[0]] + names[1..];
    }
  }

  lemma AddKeepsConsistent(s: State, kind: Kind, spec: Spec)
    requires Consistent(s) && AddError(s, kind, spec).None?
    ensures Consistent(Effect(s, Add(kind, spec)))
  {
    var op := Add(kind, spec);
    var id, t := OpId(op), Effect(s, op);
    NoMissingModule(s, spec.modules, spec.namespace);
    forall i | i in t.live ensures Filed(t, i) {
      if i != id { assert Filed(s, i); }
    }
    forall i | i in t.links ensures Linked(t, i) {
      if i in s.links { assert Linked(s, i); }
    }
  }

  lemma NotPopulated(s: State, i: Id, name: string)
    requires i in s.live && !Populated(s, i.kind, name)
    ensures i.namespace != name
  {
  }

  lemma NotUsingService(s: State, i: Id, name: string, namespace: string)
    requires i in s.links && !ServiceInUse(s, name, namespace)
    ensures i.namespace == namespace ==> s.links[i].service != Some(name)
  {
  }

  lemma NotUsingModule(s: State, i: Id, name: string, namespace: string)
    requires i in s.links && !ModuleInUse(s, name, namespace)
    ensures i.namespace == namespace ==> name !in s.links[i].modules
  {
  }

  lemma RemoveKeepsConsistent(s: State, kind: Kind, name: string, namespace: string)
    requires Consistent(s) && RemoveError(s, kind, name, namespace).None?
    ensures Consistent(Effect(s, Remove(kind, name, namespace)))
  {
    var op := Remove(kind, name, namespace);
    var id, t := OpId(op), Effect(s, op);
    forall i | i in t.live ensures Filed(t, i) {
      assert Filed(s, i);
      if kind.Namespaces? && !i.kind.Secrets? && !i.kind.Namespaces? {
        NotPopulated(s, i, name);
      }
    }
    forall i | i in t.links ensures Linked(t, i) {
      assert Linked(s, i);
      if kind.Services? { NotUsingService(s, i, name, namespace); }
      if kind.Modules? { NotUsingModule(s, i, name, namespace); }
    }
  }

  lemma StepKeepsConsistent(s: State, op: Op)
    requires Consistent(s) && Step(s, op).Ok?
    ensures Consistent(Step(s, op).value)
  {
    match op
    case Add(kind, spec) => AddKeepsConsistent(s, kind, spec);
    case Remove(kind, name, namespace) => RemoveKeepsConsistent(s, kind, name, namespace);
  }

  lemma {:induction false} RunKeepsConsistent(s: State, ops: seq<Op>)
    requires Consistent(s)
    ensures Consistent(Run(s, ops))
  {
    if ops != [] {
      RunKeepsConsistent(s, ops[..|ops| - 1]);
      var before := Run(s, ops[..|ops| - 1]);
      if Step(before, ops[|ops| - 1]).Ok? {
        StepKeepsConsistent(before, ops[|ops| - 1]);
      }
    }
  }

  /**
   No dangling references in any run: whatever calls are made from the empty manager, a live route's
   namespace, service and modules are live, and so is the namespace of every other resource but secrets.
   */
  lemma NoDanglingReferences(ops: seq<Op>, id: Id)
    requires id in Run(EmptyState, ops).live && !id.kind.Secrets?
    ensures var s := Run(EmptyState, ops);
      && NamespaceId(id.namespace) in s.live
      && (id.kind.Routes? && s.live[id].service != "" ==> Id(Services, s.live[id].service, id.namespace) in s.live)
      && (id.kind.Routes? ==> forall m :: m in s.live[id].modules ==> Id(Modules, m, id.namespace) in s.live)
  {
    RunKeepsConsistent(EmptyState, ops);
    var s := Run(EmptyState, ops);
    assert Filed(s, id);
    if id.kind.Routes? { assert Linked(s, id); }
  }
}
