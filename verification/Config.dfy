/** The configuration file's resources: their validation, and their load at start-up. */
module Config {
  import opened Wrappers
  import opened Resources
  import Keys

  datatype ModuleEntry = ModuleEntry(spec: Spec, payload: string, payloadFile: string)

  datatype DomainEntry = DomainEntry(spec: Spec, cert: string, certFile: string, key: string, keyFile: string)

  datatype CollectionEntry = CollectionEntry(spec: Spec, hasSchema: bool, visibilityKnown: bool, typeKnown: bool)

  datatype DocumentEntry = DocumentEntry(id: string, namespace: string, collection: string)

  datatype Config = Config(
    skipValidation: bool, namespaces: seq<string>, modules: seq<ModuleEntry>, services: seq<Spec>, routes: seq<Spec>,
    domains: seq<DomainEntry>, collections: seq<CollectionEntry>, documents: seq<DocumentEntry>, secrets: seq<Spec>)

  datatype Fault =
    | Duplicate(name: string)
    | NameMissing
    | NoSuchNamespace(name: string, namespace: string)
    | NamespaceMissing(name: string)
    | PayloadMissing
    | PayloadTwice
    | NoSuchService(name: string, service: string)
    | NoSuchModule(name: string, mod: string)
    | CertTwice
    | KeyTwice
    | CertWithoutKey
    | SchemaMissing(name: string)
    | VisibilityUnknown(name: string)
    | TypeUnknown(name: string)
    | NoSuchCollection(id: string, collection: string)

  /** Name and namespace joined by a dash, as the validator's maps are keyed. */
  function Key(name: string, namespace: string): string { Keys.Joined('-', name, namespace) }

  function NamespaceFault(namespaces: set<string>, name: string, namespace: string): Option<Fault> {
    if namespace == "" then Some(NamespaceMissing(name))
    else if namespace !in namespaces then Some(NoSuchNamespace(name, namespace))
    else None
  }

  function OwnedFault(namespaces: set<string>, name: string, namespace: string): Option<Fault> {
    if name == "" then Some(NameMissing) else NamespaceFault(namespaces, name, namespace)
  }

  function SpecFault(namespaces: set<string>, s: Spec): Option<Fault> { OwnedFault(namespaces, s.name, s.namespace) }

  function ModuleFault(namespaces: set<string>, m: ModuleEntry): Option<Fault> {
    var owned := OwnedFault(namespaces, m.spec.name, m.spec.namespace);
    if owned.Some? then owned
    else if m.payload == "" && m.payloadFile == "" then Some(PayloadMissing)
    else if m.payload != "" && m.payloadFile != "" then Some(PayloadTwice)
    else None
  }

  function MissingModule(modules: set<string>, names: seq<string>, namespace: string): Option<string> {
    if names == [] then None
    else if Key(names[0], namespace) !in modules then Some(names[0])
    else MissingModule(modules, names[1..], namespace)
  }

  function RouteFault(namespaces: set<string>, services: set<string>, modules: set<string>, r: Spec): Option<Fault> {
    if r.name == "" then Some(NameMissing)
    else if r.service != "" && Key(r.service, r.namespace) !in services then Some(NoSuchService(r.name, r.service))
    else if NamespaceFault(namespaces, r.name, r.namespace).Some? then NamespaceFault(namespaces, r.name, r.namespace)
    else if MissingModule(modules, r.modules, r.namespace).Some? then
      Some(NoSuchModule(r.name, MissingModule(modules, r.modules, r.namespace).value))
    else None
  }

  function DomainFault(namespaces: set<string>, d: DomainEntry): Option<Fault> {
    var owned := OwnedFault(namespaces, d.spec.name, d.spec.namespace);
    if owned.Some? then owned
    else if d.cert != "" && d.certFile != "" then Some(CertTwice)
    else if d.key != "" && d.keyFile != "" then Some(KeyTwice)
    else if (d.cert == "") != (d.key == "") then Some(CertWithoutKey)
    else None
  }

  function CollectionFault(namespaces: set<string>, c: CollectionEntry): Option<Fault> {
    var owned := OwnedFault(namespaces, c.spec.name, c.spec.namespace);
    if owned.Some? then owned
    else if !c.hasSchema then Some(SchemaMissing(c.spec.name))
    else if !c.visibilityKnown then Some(VisibilityUnknown(c.spec.name))
    else if !c.typeKnown then Some(TypeUnknown(c.spec.name))
    else None
  }

  function DocumentFault(namespaces: set<string>, collections: set<string>, d: DocumentEntry): Option<Fault> {
    var owned := OwnedFault(namespaces, d.id, d.namespace);
    if owned.Some? then owned
    else if d.collection != "" && Key(d.collection, d.namespace) !in collections then
      Some(NoSuchCollection(d.id, d.collection))
    else None
  }

  ghost function KeysOf<T(!new)>(items: seq<T>, key: T -> string): set<string> { set x | x in items :: key(x) }

  /** Every item is in order and no two have the same key. */
  ghost predicate InOrder<T(!new)>(items: seq<T>, key: T -> string, fault: T -> Option<Fault>) {
    && (forall x :: x in items ==> fault(x).None?)
    && (forall i, j :: 0 <= i < j < |items| ==> key(items[i]) != key(items[j]))
  }

  /** The item at `j` is the first that is out of order or repeats a key, and this is what is wrong with it. */
  ghost predicate FirstFault<T(!new)>(
    items: seq<T>, key: T -> string, name: T -> string, fault: T -> Option<Fault>, j: int, error: Fault)
    requires 0 <= j < |items|
  {
    && InOrder(items[..j], key, fault)
    && (if key(items[j]) in KeysOf(items[..j], key) then error == Duplicate(name(items[j]))
        else fault(items[j]) == Some(error))
  }

  /** One of the validator's loops: a map of what has been seen, a duplicate check and the checks of the kind. */
  method Check<T(!new)>(items: seq<T>, key: T -> string, name: T -> string, fault: T -> Option<Fault>)
    returns (r: Result<set<string>, Fault>)
    ensures r.Ok? <==> InOrder(items, key, fault)
    ensures r.Ok? ==> r.value == KeysOf(items, key) && |r.value| == |items|
    ensures r.Err? ==> exists j :: 0 <= j < |items| && FirstFault(items, key, name, fault, j, r.error)
  {
    var seen: set<string> := {};
    for i := 0 to |items|
      invariant seen == KeysOf(items[..i], key) && |seen| == i && InOrder(items[..i], key, fault)
    {
      var x := items[i];
      assert items[..i + 1] == items[..i] + [x];
      if key(x) in seen {
        ghost var y :| y in items[..i] && key(y) == key(x);
        ghost var j :| 0 <= j < i && items[j] == y;
        r := Err(Duplicate(name(x)));
        assert FirstFault(items, key, name, fault, i, r.error);
        return;
      }
      var f := fault(x);
      if f.Some? {
        r := Err(f.value);
        assert FirstFault(items, key, name, fault, i, r.error);
        return;
      }
      OneMore(items, key, i);
      forall j | 0 <= j < i ensures key(items[j]) != key(x) { assert items[j] in items[..i]; }
      seen := seen + {key(x)};
    }
    assert items[..|items|] == items;
    r := Ok(seen);
  }

  lemma OneMore<T(!new)>(items: seq<T>, key: T -> string, i: nat)
    requires i < |items|
    ensures KeysOf(items[..i + 1], key) == KeysOf(items[..i], key) + {key(items[i])}
  {
    assert items[..i + 1] == items[..i] + [items[i]];
  }

  function ModuleKey(m: ModuleEntry): string { Key(m.spec.name, m.spec.namespace) }

  function SpecKey(s: Spec): string { Key(s.name, s.namespace) }

  function DomainKey(d: DomainEntry): string { Key(d.spec.name, d.spec.namespace) }

  function CollectionKey(c: CollectionEntry): string { Key(c.spec.name, c.spec.namespace) }

  function DocumentKey(d: DocumentEntry): string { Key(d.id, d.namespace) }

  ghost function NamespaceSet(c: Config): set<string> { set n | n in c.namespaces }

  /** What the validator accepts. */
  ghost predicate Accepted(c: Config) {
    var ns := NamespaceSet(c);
    && (forall i, j :: 0 <= i < j < |c.namespaces| ==> c.namespaces[i] != c.namespaces[j]) && "" !in c.namespaces
    && InOrder(c.modules, ModuleKey, m => ModuleFault(ns, m))
    && InOrder(c.services, SpecKey, s => SpecFault(ns, s))
    && InOrder(c.routes, SpecKey, r => RouteFault(ns, KeysOf(c.services, SpecKey), KeysOf(c.modules, ModuleKey), r))
    && InOrder(c.domains, DomainKey, d => DomainFault(ns, d))
    && InOrder(c.collections, CollectionKey, e => CollectionFault(ns, e))
    && InOrder(c.documents, DocumentKey, d => DocumentFault(ns, KeysOf(c.collections, CollectionKey), d))
    && InOrder(c.secrets, SpecKey, s => SpecFault(ns, s))
  }

  /** No two items have the same name and namespace once these are joined by a dash. */
  ghost predicate DistinctNames(names: seq<(string, string)>) {
    forall i, j :: 0 <= i < j < |names| ==>
      names[i].0 + ['-'] + names[i].1 != names[j].0 + ['-'] + names[j].1
  }

  /** Named, and in a namespace of the configuration. */
  predicate Placed(c: Config, name: string, namespace: string) {
    name != "" && namespace != "" && namespace in c.namespaces
  }

  /** Some item of these names has the same joined name as the reference. */
  ghost predicate Refers(names: seq<(string, string)>, name: string, namespace: string) {
    exists i :: 0 <= i < |names| && names[i].0 + ['-'] + names[i].1 == name + ['-'] + namespace
  }

  ghost function ModuleNames(c: Config): seq<(string, string)> {
    seq(|c.modules|, i requires 0 <= i < |c.modules| => (c.modules[i].spec.name, c.modules[i].spec.namespace))
  }

  ghost function SpecNames(specs: seq<Spec>): seq<(string, string)> {
    seq(|specs|, i requires 0 <= i < |specs| => (specs[i].name, specs[i].namespace))
  }

  ghost function DomainNames(c: Config): seq<(string, string)> {
    seq(|c.domains|, i requires 0 <= i < |c.domains| => (c.domains[i].spec.name, c.domains[i].spec.namespace))
  }

  ghost function CollectionNames(c: Config): seq<(string, string)> {
    seq(|c.collections|,
      i requires 0 <= i < |c.collections| => (c.collections[i].spec.name, c.collections[i].spec.namespace))
  }

  ghost function DocumentNames(c: Config): seq<(string, string)> {
    seq(|c.documents|, i requires 0 <= i < |c.documents| => (c.documents[i].id, c.documents[i].namespace))
  }

  /** What the validator promises, in the fields of the items. */
  ghost predicate WellFormed(c: Config) {
    && (forall i, j :: 0 <= i < j < |c.namespaces| ==> c.namespaces[i] != c.namespaces[j]) && "" !in c.namespaces
    && DistinctNames(ModuleNames(c)) && DistinctNames(SpecNames(c.services)) && DistinctNames(SpecNames(c.routes))
    && DistinctNames(DomainNames(c)) && DistinctNames(CollectionNames(c)) && DistinctNames(DocumentNames(c))
    && DistinctNames(SpecNames(c.secrets))
    && (forall m :: m in c.modules ==>
      Placed(c, m.spec.name, m.spec.namespace) && (m.payload == "" <==> m.payloadFile != ""))
    && (forall s :: s in c.services ==> Placed(c, s.name, s.namespace))
    && (forall r :: r in c.routes ==> RouteInOrder(c, r))
    && (forall d :: d in c.domains ==>
      && Placed(c, d.spec.name, d.spec.namespace)
      && !(d.cert != "" && d.certFile != "") && !(d.key != "" && d.keyFile != "") && (d.cert == "" <==> d.key == ""))
    && (forall e :: e in c.collections ==>
      Placed(c, e.spec.name, e.spec.namespace) && e.hasSchema && e.visibilityKnown && e.typeKnown)
    && (forall d :: d in c.documents ==> DocumentInOrder(c, d))
    && (forall s :: s in c.secrets ==> Placed(c, s.name, s.namespace))
  }

  lemma InOrderMeans<T(!new)>(items: seq<T>, key: T -> string, fault: T -> Option<Fault>, names: seq<(string, string)>)
    requires |names| == |items| && forall i :: 0 <= i < |items| ==> key(items[i]) == Key(names[i].0, names[i].1)
    ensures InOrder(items, key, fault) <==> DistinctNames(names) && forall x :: x in items ==> fault(x).None?
  {
    forall i, j | 0 <= i < j < |items|
      ensures key(items[i]) != key(items[j]) <==>
        names[i].0 + ['-'] + names[i].1 != names[j].0 + ['-'] + names[j].1
    {
      JoinedIs(names[i].0, names[i].1);
      JoinedIs(names[j].0, names[j].1);
    }
  }

  lemma JoinedIs(name: string, namespace: string)
    ensures Key(name, namespace) == name + ['-'] + namespace
  {
  }

  lemma RefersMeans<T(!new)>(items: seq<T>, key: T -> string, names: seq<(string, string)>, name: string, ns: string)
    requires |names| == |items| && forall i :: 0 <= i < |items| ==> key(items[i]) == Key(names[i].0, names[i].1)
    ensures Refers(names, name, ns) <==> Key(name, ns) in KeysOf(items, key)
  {
    JoinedIs(name, ns);
    forall i | 0 <= i < |names| ensures Key(names[i].0, names[i].1) == names[i].0 + ['-'] + names[i].1 {
      JoinedIs(names[i].0, names[i].1);
    }
    if Key(name, ns) in KeysOf(items, key) {
      var x :| x in items && key(x) == Key(name, ns);
      var i :| 0 <= i < |items| && items[i] == x;
      assert names[i].0 + ['-'] + names[i].1 == name + ['-'] + ns;
    }
    if Refers(names, name, ns) {
      var i :| 0 <= i < |names| && names[i].0 + ['-'] + names[i].1 == name + ['-'] + ns;
      assert items[i] in items && key(items[i]) == Key(name, ns);
    }
  }

  lemma {:induction false} MissingMeans(modules: set<string>, names: seq<string>, namespace: string)
    ensures MissingModule(modules, names, namespace).None? <==> forall m :: m in names ==> Key(m, namespace) in modules
  {
    if names != [] {
      MissingMeans(modules, names[1..], namespace);
      assert names == [names[0]] + names[1..];
    }
  }

  /** What is wrong with one item, in its fields. */
  lemma FaultsMean(c: Config)
    requires "" !in c.namespaces
    ensures var ns := NamespaceSet(c);
      && (forall m :: ModuleFault(ns, m).None? <==>
        Placed(c, m.spec.name, m.spec.namespace) && (m.payload == "" <==> m.payloadFile != ""))
      && (forall s :: SpecFault(ns, s).None? <==> Placed(c, s.name, s.namespace))
      && (forall d :: DomainFault(ns, d).None? <==>
        && Placed(c, d.spec.name, d.spec.namespace)
        && !(d.cert != "" && d.certFile != "") && !(d.key != "" && d.keyFile != "") && (d.cert == "" <==> d.key == ""))
      && (forall e :: CollectionFault(ns, e).None? <==>
        Placed(c, e.spec.name, e.spec.namespace) && e.hasSchema && e.visibilityKnown && e.typeKnown)
  {
  }

  lemma RouteFaultMeans(c: Config, r: Spec)
    requires "" !in c.namespaces
    ensures RouteFault(NamespaceSet(c), KeysOf(c.services, SpecKey), KeysOf(c.modules, ModuleKey), r).None? <==>
      && Placed(c, r.name, r.namespace)
      && (r.service != "" ==> Refers(SpecNames(c.services), r.service, r.namespace))
      && (forall m :: m in r.modules ==> Refers(ModuleNames(c), m, r.namespace))
  {
    RefersMeans(c.services, SpecKey, SpecNames(c.services), r.service, r.namespace);
    MissingMeans(KeysOf(c.modules, ModuleKey), r.modules, r.namespace);
    forall m | m in r.modules
      ensures Refers(ModuleNames(c), m, r.namespace) <==> Key(m, r.namespace) in KeysOf(c.modules, ModuleKey)
    {
      RefersMeans(c.modules, ModuleKey, ModuleNames(c), m, r.namespace);
    }
  }

  lemma DocumentFaultMeans(c: Config, d: DocumentEntry)
    requires "" !in c.namespaces
    ensures DocumentFault(NamespaceSet(c), KeysOf(c.collections, CollectionKey), d).None? <==>
      Placed(c, d.id, d.namespace) && (d.collection != "" ==> Refers(CollectionNames(c), d.collection, d.namespace))
  {
    RefersMeans(c.collections, CollectionKey, CollectionNames(c), d.collection, d.namespace);
  }

  /** The validator accepts exactly the well-formed configurations. */
  lemma AcceptedMeans(c: Config)
    ensures Accepted(c) <==> WellFormed(c)
  {
    hide ModuleFault, SpecFault, RouteFault, DomainFault, CollectionFault, DocumentFault, Refers, Placed, DistinctNames;
    hide InOrder, KeysOf;
    if "" !in c.namespaces {
      var ns, sk, mk := NamespaceSet(c), KeysOf(c.services, SpecKey), KeysOf(c.modules, ModuleKey);
      FaultsMean(c);
      forall r ensures RouteFault(ns, sk, mk, r).None? <==> RouteInOrder(c, r) { RouteFaultMeans(c, r); }
      forall d ensures DocumentFault(ns, KeysOf(c.collections, CollectionKey), d).None? <==> DocumentInOrder(c, d) {
        DocumentFaultMeans(c, d);
      }
      InOrderMeans(c.modules, ModuleKey, m => ModuleFault(ns, m), ModuleNames(c));
      InOrderMeans(c.services, SpecKey, s => SpecFault(ns, s), SpecNames(c.services));
      InOrderMeans(c.routes, SpecKey, r => RouteFault(ns, sk, mk, r), SpecNames(c.routes));
      InOrderMeans(c.domains, DomainKey, d => DomainFault(ns, d), DomainNames(c));
      InOrderMeans(c.collections, CollectionKey, e => CollectionFault(ns, e), CollectionNames(c));
      InOrderMeans(c.documents, DocumentKey, d => DocumentFault(ns, KeysOf(c.collections, CollectionKey), d),
        DocumentNames(c));
      InOrderMeans(c.secrets, SpecKey, s => SpecFault(ns, s), SpecNames(c.secrets));
    }
  }

  ghost predicate RouteInOrder(c: Config, r: Spec) {
    && Placed(c, r.name, r.namespace)
    && (r.service != "" ==> Refers(SpecNames(c.services), r.service, r.namespace))
    && (forall m :: m in r.modules ==> Refers(ModuleNames(c), m, r.namespace))
  }

  ghost predicate DocumentInOrder(c: Config, d: DocumentEntry) {
    Placed(c, d.id, d.namespace) && (d.collection != "" ==> Refers(CollectionNames(c), d.collection, d.namespace))
  }

  lemma NamesAreKeys(names: seq<string>)
    ensures KeysOf(names, (n: string) => n) == set n | n in names
  {
  }

  /** Validate: eight loops, the later ones looking into the maps of the earlier ones. Counts what it accepts. */
  method Validate(c: Config) returns (r: Result<nat, Fault>)
    ensures c.skipValidation ==> r == Ok(0)
    ensures !c.skipValidation ==> (r.Ok? <==> Accepted(c))
    ensures !c.skipValidation ==> (r.Ok? <==> WellFormed(c))
    ensures !c.skipValidation && r.Ok? ==>
      r.value == |c.namespaces| + |c.modules| + |c.services| + |c.routes| + |c.domains| + |c.collections|
        + |c.documents| + |c.secrets|
  {
    hide WellFormed;
    AcceptedMeans(c);
    if c.skipValidation {
      return Ok(0);
    }
    var n := Check(c.namespaces, (n: string) => n, n => n, n => if n == "" then Some(NameMissing) else None);
    if n.Err? {
      return Err(n.error);
    }
    NamesAreKeys(c.namespaces);
    var ns := n.value;
    var m := Check(c.modules, ModuleKey, (m: ModuleEntry) => m.spec.name, m => ModuleFault(ns, m));
    if m.Err? {
      return Err(m.error);
    }
    var s := Check(c.services, SpecKey, (s: Spec) => s.name, s => SpecFault(ns, s));
    if s.Err? {
      return Err(s.error);
    }
    var t := Check(c.routes, SpecKey, (t: Spec) => t.name, t => RouteFault(ns, s.value, m.value, t));
    if t.Err? {
      return Err(t.error);
    }
    var d := Check(c.domains, DomainKey, (d: DomainEntry) => d.spec.name, d => DomainFault(ns, d));
    if d.Err? {
      return Err(d.error);
    }
    var e := Check(c.collections, CollectionKey, (e: CollectionEntry) => e.spec.name, e => CollectionFault(ns, e));
    if e.Err? {
      return Err(e.error);
    }
    var o := Check(c.documents, DocumentKey, (o: DocumentEntry) => o.id, o => DocumentFault(ns, e.value, o));
    if o.Err? {
      return Err(o.error);
    }
    var x := Check(c.secrets, SpecKey, (x: Spec) => x.name, x => SpecFault(ns, x));
    if x.Err? {
      return Err(x.error);
    }
    r := Ok(|n.value| + |m.value| + |s.value| + |t.value| + |d.value| + |e.value| + |o.value| + |x.value|);
  }
}
