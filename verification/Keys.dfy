/** Composite keys. The resource trees join name and namespace with '/', the config validator with '-'. */
module Keys {
  function Joined(separator: char, name: string, namespace: string): string { name + [separator] + namespace }

  /** One namespace ends in the separator followed by the other: "x-ns" and "ns". */
  ghost predicate SeparatorSuffix(separator: char, short: string, long: string) {
    exists x: string :: long == x + [separator] + short
  }

  /** Distinct pairs collide only through a separator inside the longer namespace. */
  lemma CollisionShape(separator: char, a: string, x: string, b: string, y: string)
    requires Joined(separator, a, x) == Joined(separator, b, y) && |x| < |y|
    ensures SeparatorSuffix(separator, x, y)
  {
    var s := Joined(separator, a, x);
    var z := y[..|y| - |x| - 1];
    assert y == s[|b| + 1..];
    assert x == s[|a| + 1..];
    assert y[|y| - |x|..] == x;
    assert y[|y| - |x| - 1] == s[|a|] == separator;
    assert y == z + [separator] + x;
  }

  lemma SameNamespace(separator: char, a: string, x: string, b: string, y: string)
    requires Joined(separator, a, x) == Joined(separator, b, y) && |x| == |y|
    ensures a == b && x == y
  {
    var s := Joined(separator, a, x);
    assert a == s[..|a|] && b == s[..|b|];
    assert x == s[|a| + 1..] && y == s[|b| + 1..];
  }

  ghost predicate Injective(separator: char, namespaces: set<string>) {
    forall a, x, b, y ::
      x in namespaces && y in namespaces && Joined(separator, a, x) == Joined(separator, b, y) ==>
        a == b && x == y
  }

  ghost predicate SeparatorSuffixFree(separator: char, namespaces: set<string>) {
    forall x, y :: x in namespaces && y in namespaces ==> !SeparatorSuffix(separator, x, y)
  }

  /**
   Keys are injective over a set of namespaces exactly when no namespace of the set is a separator suffix of
   another.
   */
  lemma InjectiveIff(separator: char, namespaces: set<string>)
    ensures Injective(separator, namespaces) <==> SeparatorSuffixFree(separator, namespaces)
  {
    if SeparatorSuffixFree(separator, namespaces) {
      forall a, x, b, y | x in namespaces && y in namespaces && Joined(separator, a, x) == Joined(separator, b, y)
        ensures a == b && x == y
      {
        NoCollision(separator, a, x, b, y);
      }
    } else {
      var x, y :| x in namespaces && y in namespaces && SeparatorSuffix(separator, x, y);
      var z :| y == z + [separator] + x;
      assert Joined(separator, [] + [separator] + z, x) == Joined(separator, [], y);
      assert x != y;
    }
  }

  lemma NoCollision(separator: char, a: string, x: string, b: string, y: string)
    requires Joined(separator, a, x) == Joined(separator, b, y)
    requires !SeparatorSuffix(separator, x, y) && !SeparatorSuffix(separator, y, x)
    ensures a == b && x == y
  {
    if |x| < |y| {
      CollisionShape(separator, a, x, b, y);
    } else if |y| < |x| {
      CollisionShape(separator, b, y, a, x);
    } else {
      SameNamespace(separator, a, x, b, y);
    }
  }

  /** In particular when no namespace contains the separator. */
  lemma InjectiveWithoutSeparator(separator: char, a: string, x: string, b: string, y: string)
    requires Joined(separator, a, x) == Joined(separator, b, y) && separator !in x && separator !in y
    ensures a == b && x == y
  {
    NoCollision(separator, a, x, b, y);
  }
}
