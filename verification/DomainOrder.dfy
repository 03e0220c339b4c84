/** Domains in matching order, and the match of a request's host against their patterns. */
module DomainOrder {
  import opened Wrappers
  import opened Resources
  import Order

  /** The live domains. In a consistent state no two of them have the same spec. */
  ghost function LiveDomains(live: map<Id, Spec>): set<Spec> {
    set id | id in live && id.kind.Domains? :: live[id]
  }

  /** `a` must come before `b`: greater priority first, then greater name. */
  predicate Before(a: Spec, b: Spec) {
    a.priority > b.priority || (a.priority == b.priority && Order.StringLt(b.name, a.name))
  }

  ghost predicate InOrder(list: seq<Spec>) {
    forall i, j :: 0 <= i < j < |list| ==> !Before(list[j], list[i])
  }

  /** What the cache holds when it holds anything. */
  ghost predicate PriorityList(list: seq<Spec>, live: map<Id, Spec>) {
    multiset(list) == multiset(LiveDomains(live)) && InOrder(list)
  }

  lemma ListedIsLive(list: seq<Spec>, live: map<Id, Spec>, d: Spec)
    requires multiset(list) == multiset(LiveDomains(live))
    ensures d in list <==> d in LiveDomains(live)
  {
    assert d in list <==> d in multiset(list);
  }

  lemma NotBeforeTransitive(a: Spec, b: Spec, c: Spec)
    requires !Before(b, a) && !Before(c, b)
    ensures !Before(c, a)
  {
    Order.StringLtIsStrictTotal();
  }

  lemma BeforeAsymmetric(a: Spec, b: Spec)
    requires Before(a, b)
    ensures !Before(b, a)
  {
    Order.StringLtIsStrictTotal();
  }

  /** Puts one more domain where it belongs. */
  method Place(list: seq<Spec>, d: Spec) returns (r: seq<Spec>)
    requires InOrder(list)
    ensures InOrder(r) && multiset(r) == multiset(list) + multiset{d}
  {
    hide Before;
    var n := 0;
    while n < |list| && !Before(d, list[n])
      invariant 0 <= n <= |list|
      invariant forall i :: 0 <= i < n ==> !Before(d, list[i])
    {
      n := n + 1;
    }
    r := list[..n] + [d] + list[n..];
    assert list == list[..n] + list[n..];
    PlacedInOrder(list, n, d);
  }

  lemma PlacedInOrder(list: seq<Spec>, n: nat, d: Spec)
    requires InOrder(list) && n <= |list| && (n < |list| ==> Before(d, list[n]))
    requires forall i :: 0 <= i < n ==> !Before(d, list[i])
    ensures InOrder(list[..n] + [d] + list[n..])
  {
    hide Before;
    forall i | n <= i < |list| ensures !Before(list[i], d) {
      BeforeAsymmetric(d, list[n]);
      if i > n { NotBeforeTransitive(d, list[n], list[i]); }
    }
  }

  datatype Outcome = Match | NoMatch | Failed

  /** The first pattern that matches or fails decides. */
  function MatchAny(pm: (string, string) -> Outcome, host: string, patterns: seq<string>): Outcome {
    if patterns == [] then NoMatch
    else if pm(host, patterns[0]) != NoMatch then pm(host, patterns[0])
    else MatchAny(pm, host, patterns[1..])
  }

  /** The first pattern that does not simply fail to match gives this outcome. */
  ghost predicate DecidesAs(
    pm: (string, string) -> Outcome, host: string, patterns: seq<string>, i: nat, o: Outcome) {
    && i < |patterns| && pm(host, patterns[i]) == o && !o.NoMatch?
    && forall k :: 0 <= k < i ==> pm(host, patterns[k]).NoMatch?
  }

  lemma {:induction false} FirstDeciding(pm: (string, string) -> Outcome, host: string, patterns: seq<string>)
    returns (i: nat)
    ensures i <= |patterns| && forall k :: 0 <= k < i ==> pm(host, patterns[k]).NoMatch?
    ensures if i < |patterns| then DecidesAs(pm, host, patterns, i, MatchAny(pm, host, patterns))
      else MatchAny(pm, host, patterns).NoMatch?
  {
    if patterns == [] || !pm(host, patterns[0]).NoMatch? {
      i := 0;
    } else {
      var rest := patterns[1..];
      var j := FirstDeciding(pm, host, rest);
      i := j + 1;
      assert patterns == [patterns[0]] + rest;
    }
  }

  /** The outcome is a match, or a failure, exactly when some pattern gives it and none before it decides. */
  lemma MatchAnyMeans(pm: (string, string) -> Outcome, host: string, patterns: seq<string>)
    ensures MatchAny(pm, host, patterns).Match? <==> exists i: nat :: DecidesAs(pm, host, patterns, i, Match)
    ensures MatchAny(pm, host, patterns).Failed? <==> exists i: nat :: DecidesAs(pm, host, patterns, i, Failed)
    ensures MatchAny(pm, host, patterns).NoMatch? <==> forall p :: p in patterns ==> pm(host, p).NoMatch?
  {
    var i := FirstDeciding(pm, host, patterns);
    forall j: nat, o | DecidesAs(pm, host, patterns, j, o) ensures j == i && o == MatchAny(pm, host, patterns) { }
  }

  method MatchAnyPattern(pm: (string, string) -> Outcome, host: string, patterns: seq<string>) returns (r: Outcome)
    ensures r == MatchAny(pm, host, patterns)
    ensures r.Match? <==> exists i: nat :: DecidesAs(pm, host, patterns, i, Match)
    ensures r.Failed? <==> exists i: nat :: DecidesAs(pm, host, patterns, i, Failed)
    ensures r.NoMatch? <==> forall p :: p in patterns ==> pm(host, p).NoMatch?
  {
    MatchAnyMeans(pm, host, patterns);
    for i := 0 to |patterns|
      invariant MatchAny(pm, host, patterns) == MatchAny(pm, host, patterns[i..])
    {
      var o := pm(host, patterns[i]);
      if o != NoMatch {
        return o;
      }
    }
    r := NoMatch;
  }

  predicate Matches(pm: (string, string) -> Outcome, host: string, d: Spec) {
    MatchAny(pm, host, d.patterns).Match?
  }

  /** A live domain that matches, and that no other matching domain comes before. */
  ghost predicate BestMatch(pm: (string, string) -> Outcome, host: string, live: map<Id, Spec>, d: Spec) {
    && d in LiveDomains(live) && Matches(pm, host, d)
    && forall e :: e in LiveDomains(live) && Matches(pm, host, e) ==> !Before(e, d)
  }

  ghost predicate SomeMatch(pm: (string, string) -> Outcome, host: string, live: map<Id, Spec>) {
    exists d :: d in LiveDomains(live) && Matches(pm, host, d)
  }

  ghost predicate DefaultHasDomain(live: map<Id, Spec>) {
    exists d: Spec :: d in LiveDomains(live) && d.namespace == "default"
  }

  /** The answer a request may get: the namespace of a best matching domain, or else the fallback. */
  ghost predicate RightNamespace(
    pm: (string, string) -> Outcome, host: string, disableDefault: bool, live: map<Id, Spec>, r: Option<string>) {
    if LiveDomains(live) == {} && exists id :: id in live && id.kind.Namespaces? then
      r.Some? && NamespaceId(r.value) in live
    else if SomeMatch(pm, host, live) then
      r.Some? && exists d :: BestMatch(pm, host, live, d) && r.value == d.namespace
    else
      r == if !disableDefault && NamespaceId("default") in live && !DefaultHasDomain(live) then Some("default")
        else None
  }

  /** The search through the listed domains. */
  method FirstMatch(
    pm: (string, string) -> Outcome, host: string, disableDefault: bool, domains: seq<Spec>, ghost live: map<Id, Spec>)
    returns (r: Option<string>, defaultNsHasDomain: bool)
    requires PriorityList(domains, live)
    ensures r.Some? <==> SomeMatch(pm, host, live)
    ensures r.Some? ==> exists d :: BestMatch(pm, host, live, d) && r.value == d.namespace
    ensures r.None? ==> (defaultNsHasDomain <==> !disableDefault && DefaultHasDomain(live))
  {
    defaultNsHasDomain := false;
    for i := 0 to |domains|
      invariant forall k :: 0 <= k < i ==> !Matches(pm, host, domains[k])
      invariant defaultNsHasDomain <==> !disableDefault && exists k :: 0 <= k < i && domains[k].namespace == "default"
    {
      if !disableDefault && domains[i].namespace == "default" {
        defaultNsHasDomain := true;
      }
      var o := MatchAnyPattern(pm, host, domains[i].patterns);
      if o.Match? {
        FirstMatchIsBest(pm, host, domains, live, i);
        return Some(domains[i].namespace), defaultNsHasDomain;
      }
    }
    forall d ensures d in domains <==> d in LiveDomains(live) { ListedIsLive(domains, live, d); }
    r := None;
  }

  lemma FirstMatchIsBest(
    pm: (string, string) -> Outcome, host: string, domains: seq<Spec>, live: map<Id, Spec>, i: nat)
    requires PriorityList(domains, live) && i < |domains| && Matches(pm, host, domains[i])
    requires forall k :: 0 <= k < i ==> !Matches(pm, host, domains[k])
    ensures BestMatch(pm, host, live, domains[i])
  {
    ListedIsLive(domains, live, domains[i]);
    forall e | e in LiveDomains(live) && Matches(pm, host, e) ensures !Before(e, domains[i]) {
      ListedIsLive(domains, live, e);
      var k :| 0 <= k < |domains| && domains[k] == e;
      if k == i { Order.StringLtIsStrictTotal(); }
    }
  }

  /** Greater priorities come first, and among equal ones greater names. */
  lemma ListMeans(list: seq<Spec>, live: map<Id, Spec>)
    requires PriorityList(list, live)
    ensures forall d :: d in list <==> exists id :: id in live && id.kind == Resources.Domains && live[id] == d
    ensures forall i, j :: 0 <= i < j < |list| ==>
      && list[i].priority >= list[j].priority
      && (list[i].priority == list[j].priority ==> !Order.StringLt(list[i].name, list[j].name))
  {
    forall d ensures d in list <==> exists id :: id in live && id.kind == Resources.Domains && live[id] == d {
      ListedIsLive(list, live, d);
    }
    forall i, j | 0 <= i < j < |list|
      ensures list[i].priority >= list[j].priority
      ensures list[i].priority == list[j].priority ==> !Order.StringLt(list[i].name, list[j].name)
    {
      assert !Before(list[j], list[i]);
    }
  }

  /** Some pattern of the domain matches, and none before it fails. */
  ghost predicate HostMatches(pm: (string, string) -> Outcome, host: string, d: Spec) {
    exists i: nat :: DecidesAs(pm, host, d.patterns, i, Match)
  }

  /**
   Whose request it is: with a live domain that matches, that of the one of greatest priority, the greatest name
   among equals; without, and unless that is the lone namespace's, the default namespace's if it has no domain.
   */
  lemma AnswerMeans(
    pm: (string, string) -> Outcome, host: string, disableDefault: bool, live: map<Id, Spec>, r: Option<string>)
    requires RightNamespace(pm, host, disableDefault, live, r)
    ensures (exists id :: id in live && id.kind == Resources.Domains && HostMatches(pm, host, live[id])) ==>
      exists id :: Best(pm, host, live, id) && r == Some(live[id].namespace)
    ensures (forall id :: id in live ==> id.kind != Resources.Domains) ==>
      && (r.Some? <==> exists id :: id in live && id.kind == Namespaces)
      && (r.Some? ==> Id(Namespaces, r.value, r.value) in live)
    ensures NoneMatches(pm, host, live) ==>
      r == (if !disableDefault && DefaultIsFree(live) then Some("default") else None)
  {
    forall d: Spec ensures Matches(pm, host, d) <==> HostMatches(pm, host, d) { MatchAnyMeans(pm, host, d.patterns); }
    forall id | id in live && id.kind == Resources.Domains ensures live[id] in LiveDomains(live) { }
    if SomeMatch(pm, host, live) {
      var d :| BestMatch(pm, host, live, d) && r == Some(d.namespace);
      var id :| id in live && id.kind == Resources.Domains && live[id] == d;
      assert Best(pm, host, live, id);
    }
  }

  /** There are domains, and none matches. */
  ghost predicate NoneMatches(pm: (string, string) -> Outcome, host: string, live: map<Id, Spec>) {
    && (exists id :: id in live && id.kind == Resources.Domains)
    && (forall id :: id in live && id.kind == Resources.Domains ==> !HostMatches(pm, host, live[id]))
  }

  /** The default namespace is there and no domain is its. */
  ghost predicate DefaultIsFree(live: map<Id, Spec>) {
    && Id(Namespaces, "default", "default") in live
    && forall id :: id in live && id.kind == Resources.Domains ==> live[id].namespace != "default"
  }

  ghost predicate Best(pm: (string, string) -> Outcome, host: string, live: map<Id, Spec>, id: Id) {
    && id in live && id.kind == Resources.Domains && HostMatches(pm, host, live[id])
    && forall j :: j in live && j.kind == Resources.Domains && HostMatches(pm, host, live[j]) ==>
      && live[j].priority <= live[id].priority
      && (live[j].priority == live[id].priority ==> !Order.StringLt(live[id].name, live[j].name))
  }
}
