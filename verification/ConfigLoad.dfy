/** Loading a configuration at start-up, and when a validated one is sure to load. */
module ConfigLoad {
  import opened Wrappers
  import opened Resources
  import opened Config
  import opened ChangeLogs
  import Keys

  /** What the loader submits for a module: its payload, always encoded before it is sent. */
  function Encoded(m: ModuleEntry): Spec { m.spec.(decodes := true) }

  function ModuleSpecs(ms: seq<ModuleEntry>): seq<Spec> {
    if ms == [] then [] else [Encoded(ms[0])] + ModuleSpecs(ms[1..])
  }

  function DomainSpecs(ds: seq<DomainEntry>): seq<Spec> {
    if ds == [] then [] else [ds[0].spec] + DomainSpecs(ds[1..])
  }

  function CollectionSpecs(cs: seq<CollectionEntry>): seq<Spec> {
    if cs == [] then [] else [cs[0].spec] + CollectionSpecs(cs[1..])
  }

  function NamespaceSpecs(names: seq<string>): seq<Spec> {
    if names == [] then [] else [Spec(names[0], "", "", [], 0, [], true, "")] + NamespaceSpecs(names[1..])
  }

  /** The change log entry for adding a resource; a namespace is filed under its own name. */
  function AddLog(kind: Kind, spec: Spec): ChangeLog {
    NewChangeLog("", spec, if kind.Namespaces? then spec.name else spec.namespace, Command(AddAction, OfKind(kind)))
  }

  /** Adds resources of one kind until one is refused. */
  function Load(s: State, kind: Kind, specs: seq<Spec>): Result<State, Error>
    decreases |specs|
  {
    if specs == [] then Ok(s)
    else
      var next := Apply(s, AddLog(kind, specs[0]));
      if next.Err? then next else Load(next.value, kind, specs[1..])
  }

  method LoadKind(s: State, kind: Kind, specs: seq<Spec>) returns (r: Result<State, Error>)
    ensures r == Load(s, kind, specs)
  {
    var cur := s;
    for i := 0 to |specs|
      invariant Load(s, kind, specs) == Load(cur, kind, specs[i..])
    {
      var next := Apply(cur, AddLog(kind, specs[i]));
      if next.Err? {
        return next;
      }
      cur := next.value;
    }
    r := Ok(cur);
  }

  function Then(r: Result<State, Error>, kind: Kind, specs: seq<Spec>): Result<State, Error> {
    if r.Err? then r else Load(r.value, kind, specs)
  }

  /** What a manager starts with: nothing, or the default namespace. */
  function StartState(disableDefault: bool): State {
    if disableDefault then EmptyState
    else Effect(EmptyState, Add(Namespaces, Spec("default", "", "", [], 0, [], true, "")))
  }

  /** Namespaces first, routes only after the modules and services they may name; secrets are not loaded at all. */
  function LoadAll(s0: State, c: Config): Result<State, Error> {
    var n := Load(s0, Namespaces, NamespaceSpecs(c.namespaces));
    var m := Then(n, Modules, ModuleSpecs(c.modules));
    var s := Then(m, Services, c.services);
    var t := Then(s, Routes, c.routes);
    var d := Then(t, Domains, DomainSpecs(c.domains));
    Then(d, Collections, CollectionSpecs(c.collections))
  }

  ghost predicate Grows(s: State, t: State) { s.live.Keys <= t.live.Keys }

  /** Adding more resources does not take away the right to add one. */
  lemma AddStaysAllowed(s: State, t: State, kind: Kind, spec: Spec)
    requires Grows(s, t) && AddError(s, kind, spec).None?
    ensures AddError(t, kind, spec).None?
  {
    NoMissingModule(s, spec.modules, spec.namespace);
    NoMissingModule(t, spec.modules, spec.namespace);
  }

  /** The item the change is made with: a namespace's gets its own name as namespace. */
  function Item(kind: Kind, spec: Spec): Spec { ItemOf(AddLog(kind, spec)) }

  lemma AddLogAdds(s: State, kind: Kind, spec: Spec)
    ensures Apply(s, AddLog(kind, spec)) == Step(s, Add(kind, Item(kind, spec)))
    ensures spec.namespace != "" ==> Item(kind, spec) == spec
    ensures Item(kind, spec).name == spec.name
  {
  }

  lemma {:induction false} AllLoad(s: State, kind: Kind, specs: seq<Spec>)
    requires forall sp :: sp in specs ==> AddError(s, kind, Item(kind, sp)).None?
    ensures var r := Load(s, kind, specs);
      r.Ok? && Grows(s, r.value) && forall sp :: sp in specs ==> OpId(Add(kind, Item(kind, sp))) in r.value.live
    decreases |specs|
  {
    if specs != [] {
      var sp := specs[0];
      AddLogAdds(s, kind, sp);
      var t := Effect(s, Add(kind, Item(kind, sp)));
      forall x | x in specs[1..] ensures AddError(t, kind, Item(kind, x)).None? {
        AddStaysAllowed(s, t, kind, Item(kind, x));
      }
      AllLoad(t, kind, specs[1..]);
      assert specs == [sp] + specs[1..];
    }
  }

  lemma {:induction false} NamespaceSpecsAt(names: seq<string>, name: string)
    requires name in names
    ensures exists sp :: sp in NamespaceSpecs(names) && sp.name == name && sp.namespace == ""
  {
    if names[0] == name {
      assert NamespaceSpecs(names)[0].name == name;
    } else {
      assert names == [names[0]] + names[1..];
      NamespaceSpecsAt(names[1..], name);
      var sp :| sp in NamespaceSpecs(names[1..]) && sp.name == name && sp.namespace == "";
      assert sp in NamespaceSpecs(names);
    }
  }

  lemma {:induction false} ModuleSpecsAre(ms: seq<ModuleEntry>)
    ensures forall sp :: sp in ModuleSpecs(ms) <==> exists m :: m in ms && sp == Encoded(m)
  {
    if ms != [] {
      ModuleSpecsAre(ms[1..]);
      assert ms == [ms[0]] + ms[1..];
      forall sp ensures sp in ModuleSpecs(ms) <==> exists m :: m in ms && sp == Encoded(m) {
        if sp == Encoded(ms[0]) { assert ms[0] in ms; }
        if sp in ModuleSpecs(ms[1..]) {
          var m :| m in ms[1..] && sp == Encoded(m);
          assert m in ms;
        }
      }
    }
  }

  lemma {:induction false} DomainSpecsAre(ds: seq<DomainEntry>)
    ensures forall sp :: sp in DomainSpecs(ds) ==> exists d :: d in ds && sp == d.spec
  {
    if ds != [] {
      DomainSpecsAre(ds[1..]);
      assert ds == [ds[0]] + ds[1..];
    }
  }

  lemma {:induction false} CollectionSpecsAre(cs: seq<CollectionEntry>)
    ensures forall sp :: sp in CollectionSpecs(cs) ==> exists c :: c in cs && sp == c.spec
  {
    if cs != [] {
      CollectionSpecsAre(cs[1..]);
      assert cs == [cs[0]] + cs[1..];
    }
  }

  /** The namespaces a state has. */
  ghost predicate HasNamespaces(s: State, names: set<string>) {
    forall n :: n in names ==> NamespaceId(n) in s.live
  }

  lemma OwnedIsAddable(s: State, names: set<string>, kind: Kind, spec: Spec)
    requires HasNamespaces(s, names) && OwnedFault(names, spec.name, spec.namespace).None?
    requires !kind.Namespaces? && !kind.Routes? && (kind.Modules? || kind.Secrets? ==> spec.decodes)
    ensures AddError(s, kind, Item(kind, spec)).None? && Item(kind, spec) == spec
  {
    AddLogAdds(s, kind, spec);
  }

  lemma LoadNamespaces(s0: State, c: Config)
    ensures var r := Load(s0, Namespaces, NamespaceSpecs(c.namespaces));
      r.Ok? && Grows(s0, r.value) && HasNamespaces(r.value, NamespaceSet(c))
  {
    AllLoad(s0, Namespaces, NamespaceSpecs(c.namespaces));
    var t := Load(s0, Namespaces, NamespaceSpecs(c.namespaces)).value;
    forall n | n in NamespaceSet(c) ensures NamespaceId(n) in t.live {
      NamespaceSpecsAt(c.namespaces, n);
      var sp :| sp in NamespaceSpecs(c.namespaces) && sp.name == n && sp.namespace == "";
      AddLogAdds(s0, Namespaces, sp);
    }
  }

  /** The configuration lists the service under that namespace, or it is live already. */
  ghost predicate FindsService(s0: State, c: Config, name: string, namespace: string) {
    || Id(Services, name, namespace) in s0.live
    || exists s :: s in c.services && s.name == name && s.namespace == namespace
  }

  ghost predicate FindsModule(s0: State, c: Config, name: string, namespace: string) {
    || Id(Modules, name, namespace) in s0.live
    || exists m :: m in c.modules && m.spec.name == name && m.spec.namespace == namespace
  }

  /** The route's service and modules are found under its own namespace. */
  ghost predicate RouteResolves(s0: State, c: Config, r: Spec) {
    && (r.service != "" ==> FindsService(s0, c, r.service, r.namespace))
    && (forall n :: n in r.modules ==> FindsModule(s0, c, n, r.namespace))
  }

  /** What has been loaded before the routes: the namespaces, the modules and the services. */
  ghost predicate Loaded(s0: State, s: State, c: Config) {
    && Grows(s0, s) && HasNamespaces(s, NamespaceSet(c))
    && (forall m :: m in c.modules ==> Id(Modules, m.spec.name, m.spec.namespace) in s.live)
    && (forall x :: x in c.services ==> Id(Services, x.name, x.namespace) in s.live)
  }

  lemma LoadModules(c: Config, s: State)
    requires Accepted(c) && HasNamespaces(s, NamespaceSet(c))
    ensures var r := Load(s, Modules, ModuleSpecs(c.modules));
      && r.Ok? && Grows(s, r.value)
      && forall m :: m in c.modules ==> Id(Modules, m.spec.name, m.spec.namespace) in r.value.live
  {
    var specs := ModuleSpecs(c.modules);
    ModuleSpecsAre(c.modules);
    forall sp | sp in specs ensures AddError(s, Modules, Item(Modules, sp)).None? && Item(Modules, sp) == sp {
      var m :| m in c.modules && sp == Encoded(m);
      assert ModuleFault(NamespaceSet(c), m).None?;
      OwnedIsAddable(s, NamespaceSet(c), Modules, sp);
    }
    AllLoad(s, Modules, specs);
    forall m | m in c.modules ensures OpId(Add(Modules, Encoded(m))) in Load(s, Modules, specs).value.live {
      assert Encoded(m) in specs;
    }
  }

  lemma LoadServices(c: Config, s: State)
    requires Accepted(c) && HasNamespaces(s, NamespaceSet(c))
    ensures var r := Load(s, Services, c.services);
      && r.Ok? && Grows(s, r.value) && forall x :: x in c.services ==> Id(Services, x.name, x.namespace) in r.value.live
  {
    forall sp | sp in c.services ensures AddError(s, Services, Item(Services, sp)).None? && Item(Services, sp) == sp {
      assert SpecFault(NamespaceSet(c), sp).None?;
      OwnedIsAddable(s, NamespaceSet(c), Services, sp);
    }
    AllLoad(s, Services, c.services);
  }

  lemma RouteIsAddable(s0: State, c: Config, s: State, r: Spec)
    requires Accepted(c) && Loaded(s0, s, c) && r in c.routes && RouteResolves(s0, c, r)
    ensures AddError(s, Routes, Item(Routes, r)).None?
  {
    assert RouteFault(NamespaceSet(c), KeysOf(c.services, SpecKey), KeysOf(c.modules, ModuleKey), r).None?;
    AddLogAdds(s, Routes, r);
    NoMissingModule(s, r.modules, r.namespace);
    forall n | n in r.modules ensures FindsModule(s0, c, n, r.namespace) { }
  }

  lemma LoadRoutes(s0: State, c: Config, s: State)
    requires Accepted(c) && Loaded(s0, s, c) && forall r :: r in c.routes ==> RouteResolves(s0, c, r)
    ensures var t := Load(s, Routes, c.routes); t.Ok? && Grows(s, t.value)
  {
    forall r | r in c.routes ensures AddError(s, Routes, Item(Routes, r)).None? { RouteIsAddable(s0, c, s, r); }
    AllLoad(s, Routes, c.routes);
  }

  lemma LoadDomains(c: Config, s: State)
    requires Accepted(c) && HasNamespaces(s, NamespaceSet(c))
    ensures var t := Load(s, Domains, DomainSpecs(c.domains)); t.Ok? && Grows(s, t.value)
  {
    DomainSpecsAre(c.domains);
    forall sp | sp in DomainSpecs(c.domains) ensures AddError(s, Domains, Item(Domains, sp)).None? {
      var d :| d in c.domains && sp == d.spec;
      assert DomainFault(NamespaceSet(c), d).None?;
      OwnedIsAddable(s, NamespaceSet(c), Domains, sp);
    }
    AllLoad(s, Domains, DomainSpecs(c.domains));
  }

  lemma LoadCollections(c: Config, s: State)
    requires Accepted(c) && HasNamespaces(s, NamespaceSet(c))
    ensures Load(s, Collections, CollectionSpecs(c.collections)).Ok?
  {
    CollectionSpecsAre(c.collections);
    forall sp | sp in CollectionSpecs(c.collections) ensures AddError(s, Collections, Item(Collections, sp)).None? {
      var e :| e in c.collections && sp == e.spec;
      assert CollectionFault(NamespaceSet(c), e).None?;
      OwnedIsAddable(s, NamespaceSet(c), Collections, sp);
    }
    AllLoad(s, Collections, CollectionSpecs(c.collections));
  }

  /** Into any state, a validated configuration loads once its routes resolve. */
  lemma ResolvedLoads(s0: State, c: Config)
    requires Accepted(c) && forall r :: r in c.routes ==> RouteResolves(s0, c, r)
    ensures LoadAll(s0, c).Ok?
  {
    hide Accepted, RouteResolves;
    LoadNamespaces(s0, c);
    var n := Load(s0, Namespaces, NamespaceSpecs(c.namespaces)).value;
    LoadModules(c, n);
    var m := Load(n, Modules, ModuleSpecs(c.modules)).value;
    LoadServices(c, m);
    var s := Load(m, Services, c.services).value;
    LoadRoutes(s0, c, s);
    var t := Load(s, Routes, c.routes).value;
    LoadDomains(c, t);
    LoadCollections(c, Load(t, Domains, DomainSpecs(c.domains)).value);
  }

  /** The validator's joined keys find what they mean when no namespace ends in a dash and another namespace. */
  lemma KeyFindsService(c: Config, r: Spec)
    requires Accepted(c) && Keys.SeparatorSuffixFree('-', NamespaceSet(c)) && r in c.routes && r.service != ""
    ensures exists s :: s in c.services && s.name == r.service && s.namespace == r.namespace
  {
    assert RouteFault(NamespaceSet(c), KeysOf(c.services, SpecKey), KeysOf(c.modules, ModuleKey), r).None?;
    var s :| s in c.services && SpecKey(s) == Key(r.service, r.namespace);
    assert SpecFault(NamespaceSet(c), s).None?;
    Keys.NoCollision('-', s.name, s.namespace, r.service, r.namespace);
  }

  lemma {:induction false} NoMissingKey(modules: set<string>, names: seq<string>, namespace: string, n: string)
    requires MissingModule(modules, names, namespace).None? && n in names
    ensures Key(n, namespace) in modules
  {
    if names[0] != n {
      assert names == [names[0]] + names[1..];
      NoMissingKey(modules, names[1..], namespace, n);
    }
  }

  lemma KeyFindsModule(c: Config, r: Spec, n: string)
    requires Accepted(c) && Keys.SeparatorSuffixFree('-', NamespaceSet(c)) && r in c.routes && n in r.modules
    ensures exists m :: m in c.modules && m.spec.name == n && m.spec.namespace == r.namespace
  {
    assert RouteFault(NamespaceSet(c), KeysOf(c.services, SpecKey), KeysOf(c.modules, ModuleKey), r).None?;
    NoMissingKey(KeysOf(c.modules, ModuleKey), r.modules, r.namespace, n);
    var m :| m in c.modules && ModuleKey(m) == Key(n, r.namespace);
    assert ModuleFault(NamespaceSet(c), m).None?;
    Keys.NoCollision('-', m.spec.name, m.spec.namespace, n, r.namespace);
  }

  lemma SuffixFreeLoads(s0: State, c: Config)
    requires Accepted(c) && Keys.SeparatorSuffixFree('-', NamespaceSet(c))
    ensures LoadAll(s0, c).Ok?
  {
    forall r | r in c.routes ensures RouteResolves(s0, c, r) {
      if r.service != "" { KeyFindsService(c, r); }
      forall n | n in r.modules ensures FindsModule(s0, c, n, r.namespace) {
        KeyFindsModule(c, r, n);
      }
    }
    ResolvedLoads(s0, c);
  }

  /** Nothing is live after a load that was not before or is not listed. */
  lemma {:induction false} OnlyListed(s: State, kind: Kind, specs: seq<Spec>, id: Id)
    requires Load(s, kind, specs).Ok? && id in Load(s, kind, specs).value.live
    ensures id in s.live || exists sp :: sp in specs && id == OpId(Add(kind, Item(kind, sp)))
    decreases |specs|
  {
    if specs != [] {
      AddLogAdds(s, kind, specs[0]);
      var t := Apply(s, AddLog(kind, specs[0])).value;
      OnlyListed(t, kind, specs[1..], id);
      assert specs == [specs[0]] + specs[1..];
    }
  }

  /** Routes that load find their services and modules in the state before any of them. */
  lemma {:induction false} LoadedRoutesFind(s: State, routes: seq<Spec>, r: Spec)
    requires Load(s, Routes, routes).Ok? && r in routes && r.namespace != ""
    ensures r.service != "" ==> Id(Services, r.service, r.namespace) in s.live
    ensures forall n :: n in r.modules ==> Id(Modules, n, r.namespace) in s.live
    decreases |routes|
  {
    AddLogAdds(s, Routes, routes[0]);
    if r == routes[0] {
      NoMissingModule(s, r.modules, r.namespace);
    } else {
      assert routes == [routes[0]] + routes[1..];
      LoadedRoutesFind(Apply(s, AddLog(Routes, routes[0])).value, routes[1..], r);
    }
  }

  lemma LoadedServiceIsListed(s0: State, c: Config, n: State, m: State, s: State, name: string, namespace: string)
    requires Accepted(c) && Load(s0, Namespaces, NamespaceSpecs(c.namespaces)) == Ok(n)
    requires Load(n, Modules, ModuleSpecs(c.modules)) == Ok(m) && Load(m, Services, c.services) == Ok(s)
    requires Id(Services, name, namespace) in s.live
    ensures FindsService(s0, c, name, namespace)
  {
    var id := Id(Services, name, namespace);
    OnlyListed(m, Services, c.services, id);
    if id in m.live {
      OnlyListed(n, Modules, ModuleSpecs(c.modules), id);
      OnlyListed(s0, Namespaces, NamespaceSpecs(c.namespaces), id);
    } else {
      var x :| x in c.services && id == OpId(Add(Services, Item(Services, x)));
      assert SpecFault(NamespaceSet(c), x).None?;
      AddLogAdds(m, Services, x);
    }
  }

  lemma LoadedModuleIsListed(s0: State, c: Config, n: State, m: State, s: State, name: string, namespace: string)
    requires Accepted(c) && Load(s0, Namespaces, NamespaceSpecs(c.namespaces)) == Ok(n)
    requires Load(n, Modules, ModuleSpecs(c.modules)) == Ok(m) && Load(m, Services, c.services) == Ok(s)
    requires Id(Modules, name, namespace) in s.live
    ensures FindsModule(s0, c, name, namespace)
  {
    var id := Id(Modules, name, namespace);
    OnlyListed(m, Services, c.services, id);
    OnlyListed(n, Modules, ModuleSpecs(c.modules), id);
    if id in n.live {
      OnlyListed(s0, Namespaces, NamespaceSpecs(c.namespaces), id);
    } else {
      var sp :| sp in ModuleSpecs(c.modules) && id == OpId(Add(Modules, Item(Modules, sp)));
      ModuleSpecsAre(c.modules);
      var x :| x in c.modules && sp == Encoded(x);
      assert ModuleFault(NamespaceSet(c), x).None?;
      AddLogAdds(n, Modules, sp);
    }
  }

  /**
   Into any state, each validated configuration loads if and only if every route's references are found in its
   own namespace.
   */
  lemma LoadsIffResolved(s0: State, c: Config)
    requires Accepted(c)
    ensures LoadAll(s0, c).Ok? <==> forall r :: r in c.routes ==> RouteResolves(s0, c, r)
  {
    if LoadAll(s0, c).Ok? {
      forall r | r in c.routes ensures RouteResolves(s0, c, r) { LoadedResolves(s0, c, r); }
    }
    if forall r :: r in c.routes ==> RouteResolves(s0, c, r) {
      ResolvedLoads(s0, c);
    }
  }

  lemma LoadedResolves(s0: State, c: Config, r: Spec)
    requires Accepted(c) && LoadAll(s0, c).Ok? && r in c.routes
    ensures RouteResolves(s0, c, r)
  {
    var n := Load(s0, Namespaces, NamespaceSpecs(c.namespaces)).value;
    var m := Load(n, Modules, ModuleSpecs(c.modules)).value;
    var s := Load(m, Services, c.services).value;
    assert RouteFault(NamespaceSet(c), KeysOf(c.services, SpecKey), KeysOf(c.modules, ModuleKey), r).None?;
    LoadedRoutesFind(s, c.routes, r);
    if r.service != "" { LoadedServiceIsListed(s0, c, n, m, s, r.service, r.namespace); }
    forall x | x in r.modules ensures FindsModule(s0, c, x, r.namespace) {
      LoadedModuleIsListed(s0, c, n, m, s, x, r.namespace);
    }
  }

  /** A route that names a service of one namespace whose joined key is that of a service of another. */
  function Misleading(names: seq<string>, x: string, y: string, z: string): Config {
    Config(false, names, [], [Spec("a", y, "", [], 0, [], true, "")],
      [Spec("r", x, "a-" + z, [], 0, [], true, "")], [], [], [], [])
  }

  lemma MisleadingIsAccepted(names: seq<string>, x: string, y: string, z: string)
    requires (forall i, j :: 0 <= i < j < |names| ==> names[i] != names[j]) && "" !in names
    requires x in names && y in names && y == z + ['-'] + x
    ensures Accepted(Misleading(names, x, y, z))
  {
    var c := Misleading(names, x, y, z);
    assert SpecKey(c.services[0]) == "a-" + y;
    assert Key("a-" + z, x) == "a-" + y;
    assert SpecKey(c.services[0]) in KeysOf(c.services, SpecKey);
  }

  ghost predicate HasNoServices(s0: State) { forall id :: id in s0.live ==> !id.kind.Services? }

  lemma MisleadingIsRefused(s0: State, names: seq<string>, x: string, y: string, z: string)
    requires HasNoServices(s0) && x in names && y in names && y == z + ['-'] + x && "" !in names
    ensures LoadAll(s0, Misleading(names, x, y, z)) == Err(NotFound(Services, "a-" + z))
  {
    var c := Misleading(names, x, y, z);
    LoadNamespaces(s0, c);
    var n := Load(s0, Namespaces, NamespaceSpecs(names)).value;
    var sid := Id(Services, "a-" + z, x);
    if sid in n.live { OnlyListed(s0, Namespaces, NamespaceSpecs(names), sid); }
    var svc, rt := c.services[0], c.routes[0];
    AddLogAdds(n, Services, svc);
    var s := Effect(n, Add(Services, svc));
    assert c.services[1..] == [] && Load(n, Services, c.services) == Ok(s);
    AddLogAdds(s, Routes, rt);
    assert Load(s, Routes, c.routes) == Err(NotFound(Services, "a-" + z));
  }

  /**
   The namespaces decide: into a manager without services, every configuration over them that the validator
   accepts loads, exactly when none of them is a dash suffix of another.
   */
  lemma ValidatedLoadsIff(s0: State, names: seq<string>)
    requires HasNoServices(s0) && (forall i, j :: 0 <= i < j < |names| ==> names[i] != names[j]) && "" !in names
    ensures (forall c :: Accepted(c) && c.namespaces == names ==> LoadAll(s0, c).Ok?) <==>
      Keys.SeparatorSuffixFree('-', set n | n in names)
  {
    var ns := set n | n in names;
    if Keys.SeparatorSuffixFree('-', ns) {
      forall c | Accepted(c) && c.namespaces == names ensures LoadAll(s0, c).Ok? {
        assert NamespaceSet(c) == ns;
        SuffixFreeLoads(s0, c);
      }
    } else {
      var x, y :| x in ns && y in ns && Keys.SeparatorSuffix('-', x, y);
      var z: string :| y == z + ['-'] + x;
      MisleadingIsAccepted(names, x, y, z);
      MisleadingIsRefused(s0, names, x, y, z);
    }
  }

  /** In particular into the manager as it starts, with or without the default namespace. */
  lemma StartHasNoServices(disableDefault: bool)
    ensures HasNoServices(StartState(disableDefault)) && Consistent(StartState(disableDefault))
  {
    if !disableDefault {
      StepKeepsConsistent(EmptyState, Add(Namespaces, Spec("default", "", "", [], 0, [], true, "")));
    }
  }
}
