/** The load of the configuration at start-up: what is read, what is refused, and what is live afterwards. */
module ConfigStart {
  import opened Wrappers
  import opened Resources
  import opened ChangeLogs
  import opened Config
  import opened ConfigLoad

  datatype InitError = Invalid(fault: Fault) | Unreadable(file: string) | Refused(error: Error)

  function ModuleFiles(m: ModuleEntry): seq<string> { if m.payloadFile != "" then [m.payloadFile] else [] }

  function DomainFiles(d: DomainEntry): seq<string> {
    (if d.certFile != "" then [d.certFile] else []) + (if d.keyFile != "" then [d.keyFile] else [])
  }

  /** Every file the configuration names can be read. */
  ghost predicate AllReadable(c: Config, files: set<string>) {
    && (forall m :: m in c.modules ==> FirstMissing(ModuleFiles(m), files).None?)
    && (forall d :: d in c.domains ==> FirstMissing(DomainFiles(d), files).None?)
  }

  /** Every payload, certificate and key that is given as a file is there. */
  ghost predicate FilesThere(c: Config, files: set<string>) {
    && (forall m :: m in c.modules && m.payloadFile != "" ==> m.payloadFile in files)
    && (forall d :: d in c.domains && d.certFile != "" ==> d.certFile in files)
    && (forall d :: d in c.domains && d.keyFile != "" ==> d.keyFile in files)
  }

  lemma FilesMean(c: Config, files: set<string>)
    ensures AllReadable(c, files) <==> FilesThere(c, files)
    ensures forall m, f :: FirstMissing(ModuleFiles(m), files) == Some(f) ==> m.payloadFile == f && f !in files
    ensures forall d, f :: FirstMissing(DomainFiles(d), files) == Some(f) ==>
      (d.certFile == f || d.keyFile == f) && f !in files
  {
    forall m ensures FirstMissing(ModuleFiles(m), files).None? <==> m.payloadFile == "" || m.payloadFile in files {
      assert ModuleFiles(m) == if m.payloadFile != "" then [m.payloadFile] else [];
      assert m.payloadFile != "" ==> m.payloadFile in ModuleFiles(m);
    }
    forall d ensures FirstMissing(DomainFiles(d), files).None? <==>
      (d.certFile == "" || d.certFile in files) && (d.keyFile == "" || d.keyFile in files)
    {
      assert d.certFile != "" ==> d.certFile in DomainFiles(d);
      assert d.keyFile != "" ==> d.keyFile in DomainFiles(d);
    }
  }

  function FirstMissing(names: seq<string>, files: set<string>): (r: Option<string>)
    ensures r.None? <==> forall f :: f in names ==> f in files
    ensures r.Some? ==> r.value in names && r.value !in files
  {
    if names == [] then None
    else if names[0] !in files then Some(names[0])
    else
      assert names == [names[0]] + names[1..];
      FirstMissing(names[1..], files)
  }

  /** The changes of one kind, each issued once the files its item names have been read. */
  method LoadReading<T>(
    s: State, kind: Kind, items: seq<T>, needs: T -> seq<string>, specs: seq<Spec>, files: set<string>)
    returns (r: Result<State, InitError>)
    requires |specs| == |items|
    ensures r.Ok? ==>
      Load(s, kind, specs) == Ok(r.value) && forall x :: x in items ==> FirstMissing(needs(x), files).None?
    ensures r.Err? && r.error.Refused? ==> Load(s, kind, specs) == Err(r.error.error)
    ensures r.Err? && r.error.Unreadable? ==>
      exists x :: x in items && FirstMissing(needs(x), files) == Some(r.error.file)
    ensures r.Err? ==> !r.error.Invalid?
  {
    var cur := s;
    for i := 0 to |items|
      invariant Load(s, kind, specs) == Load(cur, kind, specs[i..])
      invariant forall k :: 0 <= k < i ==> FirstMissing(needs(items[k]), files).None?
    {
      var missing := FirstMissing(needs(items[i]), files);
      if missing.Some? {
        return Err(Unreadable(missing.value));
      }
      var next := Apply(cur, AddLog(kind, specs[i]));
      if next.Err? {
        return Err(Refused(next.error));
      }
      cur := next.value;
    }
    r := Ok(cur);
  }

  lemma {:induction false} ModuleSpecsLength(ms: seq<ModuleEntry>)
    ensures |ModuleSpecs(ms)| == |ms|
  {
    if ms != [] { ModuleSpecsLength(ms[1..]); }
  }

  lemma {:induction false} DomainSpecsLength(ds: seq<DomainEntry>)
    ensures |DomainSpecs(ds)| == |ds|
  {
    if ds != [] { DomainSpecsLength(ds[1..]); }
  }

  /**
   initConfigResources: validate, then issue the changes kind by kind, reading the files that modules and
   domains name. The manager need not be empty: a restart does not clear it. Documents do not touch the graph.
   */
  method InitConfigResources(s0: State, c: Config, files: set<string>) returns (r: Result<State, InitError>)
    ensures r.Ok? <==> (c.skipValidation || Accepted(c)) && AllReadable(c, files) && LoadAll(s0, c).Ok?
    ensures r.Ok? ==> LoadAll(s0, c) == Ok(r.value)
    ensures r.Ok? <==> (c.skipValidation || Accepted(c)) && LoadAll(s0, c).Ok? && FilesThere(c, files)
    ensures r.Err? && r.error.Unreadable? ==>
      && r.error.file !in files
      && ((exists m :: m in c.modules && m.payloadFile == r.error.file)
        || (exists d :: d in c.domains && (d.certFile == r.error.file || d.keyFile == r.error.file)))
    ensures r.Ok? && Accepted(c) ==> LoadedInto(s0, c, r.value)
    ensures r.Ok? && Consistent(s0) ==> Consistent(r.value)
    ensures r.Err? && r.error.Invalid? <==> !c.skipValidation && !Accepted(c)
    ensures r.Err? && r.error.Refused? ==> LoadAll(s0, c) == Err(r.error.error)
    ensures r.Err? && r.error.Unreadable? ==>
      || (exists m :: m in c.modules && FirstMissing(ModuleFiles(m), files) == Some(r.error.file))
      || (exists d :: d in c.domains && FirstMissing(DomainFiles(d), files) == Some(r.error.file))
  {
    hide Accepted, LoadAll, LoadedInto, Consistent;
    var v := Validate(c);
    if v.Err? {
      return Err(Invalid(v.error));
    }
    FilesMean(c, files);
    r := LoadResources(s0, c, files);
    if r.Ok? {
      if Accepted(c) { LoadedMeans(s0, c); }
      if Consistent(s0) { LoadedIsConsistent(s0, c); }
    }
  }

  method LoadResources(s0: State, c: Config, files: set<string>) returns (r: Result<State, InitError>)
    ensures r.Ok? <==> AllReadable(c, files) && LoadAll(s0, c).Ok?
    ensures r.Ok? ==> LoadAll(s0, c) == Ok(r.value)
    ensures r.Err? ==> !r.error.Invalid?
    ensures r.Err? && r.error.Refused? ==> LoadAll(s0, c) == Err(r.error.error)
    ensures r.Err? && r.error.Unreadable? ==>
      || (exists m :: m in c.modules && FirstMissing(ModuleFiles(m), files) == Some(r.error.file))
      || (exists d :: d in c.domains && FirstMissing(DomainFiles(d), files) == Some(r.error.file))
  {
    hide Load;
    ModuleSpecsLength(c.modules);
    DomainSpecsLength(c.domains);
    var s := LoadKind(s0, Namespaces, NamespaceSpecs(c.namespaces));
    if s.Err? {
      return Err(Refused(s.error));
    }
    r := LoadReading(s.value, Modules, c.modules, ModuleFiles, ModuleSpecs(c.modules), files);
    if r.Err? {
      return;
    }
    s := LoadKind(r.value, Services, c.services);
    if s.Ok? { s := LoadKind(s.value, Routes, c.routes); }
    if s.Err? {
      return Err(Refused(s.error));
    }
    r := LoadReading(s.value, Domains, c.domains, DomainFiles, DomainSpecs(c.domains), files);
    if r.Err? {
      return;
    }
    s := LoadKind(r.value, Collections, CollectionSpecs(c.collections));
    r := if s.Ok? then Ok(s.value) else Err(Refused(s.error));
  }

  ghost predicate SameLive(s: State, t: State, id: Id) {
    (id in s.live <==> id in t.live) && (id in s.live ==> s.live[id] == t.live[id])
  }

  /** A load leaves alone what it does not list, other kinds among it. */
  lemma {:induction false} LoadUntouched(s: State, kind: Kind, specs: seq<Spec>, id: Id)
    requires Load(s, kind, specs).Ok?
    requires id.kind != kind || forall sp :: sp in specs ==> OpId(Add(kind, Item(kind, sp))) != id
    ensures SameLive(s, Load(s, kind, specs).value, id)
    decreases |specs|
  {
    if specs != [] {
      AddLogAdds(s, kind, specs[0]);
      LoadUntouched(Apply(s, AddLog(kind, specs[0])).value, kind, specs[1..], id);
      assert specs == [specs[0]] + specs[1..];
    }
  }

  /** What is listed once is live as listed. */
  lemma {:induction false} LoadFiles(s: State, kind: Kind, specs: seq<Spec>, sp: Spec)
    requires Load(s, kind, specs).Ok? && sp in specs
    requires forall x :: x in specs && OpId(Add(kind, Item(kind, x))) == OpId(Add(kind, Item(kind, sp))) ==> x == sp
    ensures var id, t := OpId(Add(kind, Item(kind, sp))), Load(s, kind, specs).value;
      id in t.live && t.live[id] == Item(kind, sp)
    decreases |specs|
  {
    AddLogAdds(s, kind, specs[0]);
    assert specs == [specs[0]] + specs[1..];
    var next, id := Apply(s, AddLog(kind, specs[0])).value, OpId(Add(kind, Item(kind, sp)));
    if sp in specs[1..] {
      LoadFiles(next, kind, specs[1..], sp);
    } else {
      assert sp == specs[0];
      LoadUntouched(next, kind, specs[1..], id);
    }
  }

  lemma OneItemAKey<T(!new)>(items: seq<T>, key: T -> string, fault: T -> Option<Fault>, x: T, y: T)
    requires InOrder(items, key, fault) && x in items && y in items && key(x) == key(y)
    ensures x == y
  {
    var i :| 0 <= i < |items| && items[i] == x;
    var j :| 0 <= j < |items| && items[j] == y;
    assert i == j;
  }

  /** The configuration lists something of this kind, name and namespace. Secrets are not loaded. */
  ghost predicate Lists(c: Config, id: Id) {
    match id.kind
    case Namespaces => id.name in c.namespaces && id.namespace == id.name
    case Modules => exists m :: m in c.modules && m.spec.name == id.name && m.spec.namespace == id.namespace
    case Services => exists x :: x in c.services && x.name == id.name && x.namespace == id.namespace
    case Routes => exists x :: x in c.routes && x.name == id.name && x.namespace == id.namespace
    case Domains => exists d :: d in c.domains && d.spec.name == id.name && d.spec.namespace == id.namespace
    case Collections => exists e :: e in c.collections && e.spec.name == id.name && e.spec.namespace == id.namespace
    case Secrets => false
  }

  /** Whatever is listed is live as listed, and nothing else has changed. */
  ghost predicate LoadedInto(s0: State, c: Config, t: State) {
    && (forall n :: n in c.namespaces ==>
      Id(Namespaces, n, n) in t.live && t.live[Id(Namespaces, n, n)] == Spec(n, n, "", [], 0, [], true, ""))
    && (forall m :: m in c.modules ==> var id := Id(Modules, m.spec.name, m.spec.namespace);
      id in t.live && t.live[id] == m.spec.(decodes := true))
    && (forall x :: x in c.services ==> var id := Id(Services, x.name, x.namespace); id in t.live && t.live[id] == x)
    && (forall x :: x in c.routes ==> var id := Id(Routes, x.name, x.namespace); id in t.live && t.live[id] == x)
    && (forall d :: d in c.domains ==> var id := Id(Domains, d.spec.name, d.spec.namespace);
      id in t.live && t.live[id] == d.spec)
    && (forall e :: e in c.collections ==> var id := Id(Collections, e.spec.name, e.spec.namespace);
      id in t.live && t.live[id] == e.spec)
    && (forall id :: !Lists(c, id) ==> SameLive(s0, t, id))
  }

  lemma NamespacesFiled(s: State, c: Config, n: string)
    requires Load(s, Namespaces, NamespaceSpecs(c.namespaces)).Ok? && n in c.namespaces
    ensures var id, t := Id(Namespaces, n, n), Load(s, Namespaces, NamespaceSpecs(c.namespaces)).value;
      id in t.live && t.live[id] == Spec(n, n, "", [], 0, [], true, "")
  {
    var specs := NamespaceSpecs(c.namespaces);
    NamespaceSpecsAre(c.namespaces);
    var sp := Spec(n, "", "", [], 0, [], true, "");
    LoadFiles(s, Namespaces, specs, sp);
  }

  lemma {:induction false} NamespaceSpecsAre(names: seq<string>)
    ensures forall sp :: sp in NamespaceSpecs(names) <==>
      sp.name in names && sp == Spec(sp.name, "", "", [], 0, [], true, "")
  {
    if names != [] {
      NamespaceSpecsAre(names[1..]);
      assert names == [names[0]] + names[1..];
    }
  }

  lemma ModulesFiled(s: State, c: Config, m: ModuleEntry)
    requires Accepted(c) && Load(s, Modules, ModuleSpecs(c.modules)).Ok? && m in c.modules
    ensures var id, t := Id(Modules, m.spec.name, m.spec.namespace), Load(s, Modules, ModuleSpecs(c.modules)).value;
      id in t.live && t.live[id] == Encoded(m)
  {
    var ns := NamespaceSet(c);
    ModuleSpecsAre(c.modules);
    forall x | x in ModuleSpecs(c.modules)
      ensures Item(Modules, x) == x
      ensures OpId(Add(Modules, x)) == OpId(Add(Modules, Encoded(m))) ==> x == Encoded(m)
    {
      var k :| k in c.modules && x == Encoded(k);
      assert ModuleFault(ns, k).None?;
      AddLogAdds(s, Modules, x);
      if k.spec.name == m.spec.name && k.spec.namespace == m.spec.namespace {
        OneItemAKey(c.modules, ModuleKey, e => ModuleFault(ns, e), k, m);
      }
    }
    assert Encoded(m) in ModuleSpecs(c.modules);
    LoadFiles(s, Modules, ModuleSpecs(c.modules), Encoded(m));
  }

  lemma SpecsFiled(s: State, kind: Kind, specs: seq<Spec>, fault: Spec -> Option<Fault>, x: Spec)
    requires kind == Services || kind == Routes
    requires InOrder(specs, SpecKey, fault) && Load(s, kind, specs).Ok? && x in specs
    requires forall y :: y in specs ==> y.namespace != ""
    ensures var id, t := Id(kind, x.name, x.namespace), Load(s, kind, specs).value; id in t.live && t.live[id] == x
  {
    forall y | y in specs
      ensures Item(kind, y) == y && (OpId(Add(kind, y)) == OpId(Add(kind, x)) ==> y == x)
    {
      AddLogAdds(s, kind, y);
      if y.name == x.name && y.namespace == x.namespace { OneItemAKey(specs, SpecKey, fault, y, x); }
    }
    LoadFiles(s, kind, specs, x);
  }

  lemma DomainsFiled(s: State, c: Config, d: DomainEntry)
    requires Accepted(c) && Load(s, Domains, DomainSpecs(c.domains)).Ok? && d in c.domains
    ensures var id, t := Id(Domains, d.spec.name, d.spec.namespace), Load(s, Domains, DomainSpecs(c.domains)).value;
      id in t.live && t.live[id] == d.spec
  {
    var ns := NamespaceSet(c);
    DomainSpecsAre(c.domains);
    forall x | x in DomainSpecs(c.domains)
      ensures Item(Domains, x) == x && (OpId(Add(Domains, x)) == OpId(Add(Domains, d.spec)) ==> x == d.spec)
    {
      var k :| k in c.domains && x == k.spec;
      assert DomainFault(ns, k).None?;
      AddLogAdds(s, Domains, x);
      if k.spec.name == d.spec.name && k.spec.namespace == d.spec.namespace {
        OneItemAKey(c.domains, DomainKey, e => DomainFault(ns, e), k, d);
      }
    }
    DomainIsListed(c.domains, d);
    LoadFiles(s, Domains, DomainSpecs(c.domains), d.spec);
  }

  lemma {:induction false} DomainIsListed(ds: seq<DomainEntry>, d: DomainEntry)
    requires d in ds
    ensures d.spec in DomainSpecs(ds)
  {
    if d != ds[0] {
      assert ds == [ds[0]] + ds[1..];
      DomainIsListed(ds[1..], d);
    }
  }

  lemma CollectionsFiled(s: State, c: Config, e: CollectionEntry)
    requires Accepted(c) && Load(s, Collections, CollectionSpecs(c.collections)).Ok? && e in c.collections
    ensures var id := Id(Collections, e.spec.name, e.spec.namespace);
      var t := Load(s, Collections, CollectionSpecs(c.collections)).value; id in t.live && t.live[id] == e.spec
  {
    var ns := NamespaceSet(c);
    CollectionSpecsAre(c.collections);
    forall x | x in CollectionSpecs(c.collections)
      ensures Item(Collections, x) == x && (OpId(Add(Collections, x)) == OpId(Add(Collections, e.spec)) ==> x == e.spec)
    {
      var k :| k in c.collections && x == k.spec;
      assert CollectionFault(ns, k).None?;
      AddLogAdds(s, Collections, x);
      if k.spec.name == e.spec.name && k.spec.namespace == e.spec.namespace {
        OneItemAKey(c.collections, CollectionKey, y => CollectionFault(ns, y), k, e);
      }
    }
    CollectionIsListed(c.collections, e);
    LoadFiles(s, Collections, CollectionSpecs(c.collections), e.spec);
  }

  lemma {:induction false} CollectionIsListed(cs: seq<CollectionEntry>, e: CollectionEntry)
    requires e in cs
    ensures e.spec in CollectionSpecs(cs)
  {
    if e != cs[0] {
      assert cs == [cs[0]] + cs[1..];
      CollectionIsListed(cs[1..], e);
    }
  }

  /** The states between the kinds of a load. */
  datatype Stages = Stages(n: State, m: State, s: State, t: State, d: State, e: State)

  ghost predicate Staged(s0: State, c: Config, g: Stages) {
    && Load(s0, Namespaces, NamespaceSpecs(c.namespaces)) == Ok(g.n)
    && Load(g.n, Modules, ModuleSpecs(c.modules)) == Ok(g.m)
    && Load(g.m, Services, c.services) == Ok(g.s) && Load(g.s, Routes, c.routes) == Ok(g.t)
    && Load(g.t, Domains, DomainSpecs(c.domains)) == Ok(g.d)
    && Load(g.d, Collections, CollectionSpecs(c.collections)) == Ok(g.e)
  }

  lemma LoadIsStaged(s0: State, c: Config) returns (g: Stages)
    requires LoadAll(s0, c).Ok?
    ensures Staged(s0, c, g) && LoadAll(s0, c) == Ok(g.e)
  {
    var n := Load(s0, Namespaces, NamespaceSpecs(c.namespaces)).value;
    var m := Load(n, Modules, ModuleSpecs(c.modules)).value;
    var s := Load(m, Services, c.services).value;
    var t := Load(s, Routes, c.routes).value;
    var d := Load(t, Domains, DomainSpecs(c.domains)).value;
    g := Stages(n, m, s, t, d, Load(d, Collections, CollectionSpecs(c.collections)).value);
  }

  /** What is submitted for a kind is listed. */
  lemma SubmittedIsListed(c: Config, kind: Kind, specs: seq<Spec>, sp: Spec)
    requires Accepted(c) && sp in specs
    requires kind == Namespaces ==> specs == NamespaceSpecs(c.namespaces)
    requires kind == Modules ==> specs == ModuleSpecs(c.modules)
    requires kind == Services ==> specs == c.services
    requires kind == Routes ==> specs == c.routes
    requires kind == Domains ==> specs == DomainSpecs(c.domains)
    requires kind == Collections ==> specs == CollectionSpecs(c.collections)
    requires kind != Secrets
    ensures Lists(c, OpId(Add(kind, Item(kind, sp))))
  {
    AddLogAdds(EmptyState, kind, sp);
    match kind
    case Namespaces => NamespaceSpecsAre(c.namespaces);
    case Modules =>
      ModuleSpecsAre(c.modules);
      var m :| m in c.modules && sp == Encoded(m);
      assert ModuleFault(NamespaceSet(c), m).None?;
    case Services => assert SpecFault(NamespaceSet(c), sp).None?;
    case Routes =>
      assert RouteFault(NamespaceSet(c), KeysOf(c.services, SpecKey), KeysOf(c.modules, ModuleKey), sp).None?;
    case Domains =>
      DomainSpecsAre(c.domains);
      var d :| d in c.domains && sp == d.spec;
      assert DomainFault(NamespaceSet(c), d).None?;
    case Collections =>
      CollectionSpecsAre(c.collections);
      var e :| e in c.collections && sp == e.spec;
      assert CollectionFault(NamespaceSet(c), e).None?;
  }

  lemma UnlistedUntouched(c: Config, s: State, kind: Kind, specs: seq<Spec>, id: Id)
    requires Accepted(c) && !Lists(c, id) && Load(s, kind, specs).Ok?
    requires kind == Namespaces ==> specs == NamespaceSpecs(c.namespaces)
    requires kind == Modules ==> specs == ModuleSpecs(c.modules)
    requires kind == Services ==> specs == c.services
    requires kind == Routes ==> specs == c.routes
    requires kind == Domains ==> specs == DomainSpecs(c.domains)
    requires kind == Collections ==> specs == CollectionSpecs(c.collections)
    requires kind != Secrets
    ensures SameLive(s, Load(s, kind, specs).value, id)
  {
    hide Accepted, Lists, OpId, Item;
    forall sp | sp in specs ensures OpId(Add(kind, Item(kind, sp))) != id { SubmittedIsListed(c, kind, specs, sp); }
    LoadUntouched(s, kind, specs, id);
  }

  /** A load leaves alone what is of another kind or not listed. */
  lemma LeftAlone(c: Config, s: State, kind: Kind, specs: seq<Spec>, id: Id, t: State)
    requires Accepted(c) && Load(s, kind, specs) == Ok(t) && kind != Secrets
    requires kind == Namespaces ==> specs == NamespaceSpecs(c.namespaces)
    requires kind == Modules ==> specs == ModuleSpecs(c.modules)
    requires kind == Services ==> specs == c.services
    requires kind == Routes ==> specs == c.routes
    requires kind == Domains ==> specs == DomainSpecs(c.domains)
    requires kind == Collections ==> specs == CollectionSpecs(c.collections)
    ensures id.kind != kind || !Lists(c, id) ==> SameLive(s, t, id)
  {
    hide Accepted, Lists, Load, SameLive;
    if !Lists(c, id) {
      UnlistedUntouched(c, s, kind, specs, id);
    } else if id.kind != kind {
      LoadUntouched(s, kind, specs, id);
    }
  }

  /** Once its kind has been loaded, an identity stays as it is; one that is not listed stays throughout. */
  ghost predicate Lasting(s0: State, g: Stages, id: Id, listed: bool) {
    && (id.kind == Namespaces ==> SameLive(g.n, g.e, id))
    && (id.kind == Modules ==> SameLive(g.m, g.e, id))
    && (id.kind == Services ==> SameLive(g.s, g.e, id))
    && (id.kind == Routes ==> SameLive(g.t, g.e, id))
    && (id.kind == Domains ==> SameLive(g.d, g.e, id))
    && (!listed ==> SameLive(s0, g.e, id))
  }

  lemma LastStage(s0: State, c: Config, g: Stages, id: Id)
    requires Accepted(c) && Staged(s0, c, g)
    ensures Lasting(s0, g, id, Lists(c, id))
  {
    hide Load, Accepted, Lists, SameLive, NamespaceSpecs, ModuleSpecs, DomainSpecs, CollectionSpecs;
    LeftAlone(c, s0, Namespaces, NamespaceSpecs(c.namespaces), id, g.n);
    LeftAlone(c, g.n, Modules, ModuleSpecs(c.modules), id, g.m);
    LeftAlone(c, g.m, Services, c.services, id, g.s);
    LeftAlone(c, g.s, Routes, c.routes, id, g.t);
    LeftAlone(c, g.t, Domains, DomainSpecs(c.domains), id, g.d);
    LeftAlone(c, g.d, Collections, CollectionSpecs(c.collections), id, g.e);
    Onwards(g.t, g.d, g.e, id);
    Onwards(g.s, g.t, g.e, id);
    Onwards(g.m, g.s, g.e, id);
    Onwards(g.n, g.m, g.e, id);
    Onwards(s0, g.n, g.e, id);
  }

  lemma Onwards(a: State, b: State, c: State, id: Id)
    ensures SameLive(a, b, id) && SameLive(b, c, id) ==> SameLive(a, c, id)
  {
  }

  /** What a load that succeeds leaves behind. */
  lemma LoadedMeans(s0: State, c: Config)
    requires Accepted(c) && LoadAll(s0, c).Ok?
    ensures LoadedInto(s0, c, LoadAll(s0, c).value)
  {
    hide Load, LoadAll, Accepted;
    var g := LoadIsStaged(s0, c);
    var n, m, s, t, d, e := g.n, g.m, g.s, g.t, g.d, g.e;
    forall id: Id
      ensures id.kind == Namespaces ==> SameLive(n, e, id)
      ensures id.kind == Modules ==> SameLive(m, e, id)
      ensures id.kind == Services ==> SameLive(s, e, id)
      ensures id.kind == Routes ==> SameLive(t, e, id)
      ensures id.kind == Domains ==> SameLive(d, e, id)
      ensures !Lists(c, id) ==> SameLive(s0, e, id)
    {
      LastStage(s0, c, g, id);
    }
    forall x | x in c.modules ensures var id := Id(Modules, x.spec.name, x.spec.namespace);
      id in e.live && e.live[id] == x.spec.(decodes := true)
    {
      ModulesFiled(n, c, x);
    }
    ServicesAndRoutesFiled(c, m, s, t);
    forall x | x in c.domains ensures var id := Id(Domains, x.spec.name, x.spec.namespace);
      id in e.live && e.live[id] == x.spec
    {
      DomainsFiled(t, c, x);
    }
    forall x | x in c.collections ensures var id := Id(Collections, x.spec.name, x.spec.namespace);
      id in e.live && e.live[id] == x.spec
    {
      CollectionsFiled(d, c, x);
    }
    forall x | x in c.namespaces
      ensures Id(Namespaces, x, x) in e.live && e.live[Id(Namespaces, x, x)] == Spec(x, x, "", [], 0, [], true, "")
    {
      NamespacesFiled(s0, c, x);
    }
  }

  lemma ServicesAndRoutesFiled(c: Config, m: State, s: State, t: State)
    requires Accepted(c) && Load(m, Services, c.services) == Ok(s) && Load(s, Routes, c.routes) == Ok(t)
    ensures forall x :: x in c.services ==> var id := Id(Services, x.name, x.namespace); id in s.live && s.live[id] == x
    ensures forall x :: x in c.routes ==> var id := Id(Routes, x.name, x.namespace); id in t.live && t.live[id] == x
  {
    var ns, sk, mk := NamespaceSet(c), KeysOf(c.services, SpecKey), KeysOf(c.modules, ModuleKey);
    forall x | x in c.services ensures x.namespace != "" { assert SpecFault(ns, x).None?; }
    forall x | x in c.routes ensures x.namespace != "" { assert RouteFault(ns, sk, mk, x).None?; }
    forall x | x in c.services ensures var id := Id(Services, x.name, x.namespace); id in s.live && s.live[id] == x {
      SpecsFiled(m, Services, c.services, y => SpecFault(ns, y), x);
    }
    forall x | x in c.routes ensures var id := Id(Routes, x.name, x.namespace); id in t.live && t.live[id] == x {
      SpecsFiled(s, Routes, c.routes, y => RouteFault(ns, sk, mk, y), x);
    }
  }

  /** Loading keeps every reference live. */
  lemma {:induction false} LoadKeepsConsistent(s: State, kind: Kind, specs: seq<Spec>)
    requires Consistent(s) && Load(s, kind, specs).Ok?
    ensures Consistent(Load(s, kind, specs).value)
    decreases |specs|
  {
    if specs != [] {
      AddLogAdds(s, kind, specs[0]);
      StepKeepsConsistent(s, Add(kind, Item(kind, specs[0])));
      LoadKeepsConsistent(Apply(s, AddLog(kind, specs[0])).value, kind, specs[1..]);
    }
  }

  lemma LoadedIsConsistent(s0: State, c: Config)
    requires Consistent(s0) && LoadAll(s0, c).Ok?
    ensures Consistent(LoadAll(s0, c).value)
  {
    hide Load, LoadAll, Consistent;
    var g := LoadIsStaged(s0, c);
    var n, m, s, t, d := g.n, g.m, g.s, g.t, g.d;
    LoadKeepsConsistent(s0, Namespaces, NamespaceSpecs(c.namespaces));
    LoadKeepsConsistent(n, Modules, ModuleSpecs(c.modules));
    LoadKeepsConsistent(m, Services, c.services);
    LoadKeepsConsistent(s, Routes, c.routes);
    LoadKeepsConsistent(t, Domains, DomainSpecs(c.domains));
    LoadKeepsConsistent(d, Collections, CollectionSpecs(c.collections));
  }
}
