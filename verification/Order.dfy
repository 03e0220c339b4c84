/** Orders on keys: what Go's `<` promises the ordered containers, and byte order on strings. */
module Order {
  /** `lt` behaves like Go's `<` on a type whose values are totally ordered. */
  ghost predicate StrictTotal<K(!new)>(lt: (K, K) -> bool) {
    && (forall a :: !lt(a, a))
    && (forall a, b, c :: lt(a, b) && lt(b, c) ==> lt(a, c))
    && (forall a, b :: a == b || lt(a, b) || lt(b, a))
  }

  /** Go compares strings byte by byte; a proper prefix comes first. */
  predicate StringLt(a: string, b: string) {
    if b == [] then false
    else if a == [] then true
    else a[0] < b[0] || (a[0] == b[0] && StringLt(a[1..], b[1..]))
  }

  lemma {:induction false} StringLtIrreflexive(a: string)
    ensures !StringLt(a, a)
  {
    if a != [] {
      StringLtIrreflexive(a[1..]);
    }
  }

  lemma {:induction false} StringLtTransitive(a: string, b: string, c: string)
    requires StringLt(a, b) && StringLt(b, c)
    ensures StringLt(a, c)
  {
    if a != [] && a[0] == b[0] && b[0] == c[0] {
      StringLtTransitive(a[1..], b[1..], c[1..]);
    }
  }

  lemma {:induction false} StringLtTotal(a: string, b: string)
    ensures a == b || StringLt(a, b) || StringLt(b, a)
  {
    if a != [] && b != [] && a[0] == b[0] {
      StringLtTotal(a[1..], b[1..]);
      assert a == [a[0]] + a[1..] && b == [b[0]] + b[1..];
    }
  }

  lemma StringLtIsStrictTotal()
    ensures StrictTotal(StringLt)
  {
    forall a: string ensures !StringLt(a, a) { StringLtIrreflexive(a); }
    forall a: string, b: string, c: string | StringLt(a, b) && StringLt(b, c) ensures StringLt(a, c) {
      StringLtTransitive(a, b, c);
    }
    forall a: string, b: string ensures a == b || StringLt(a, b) || StringLt(b, a) { StringLtTotal(a, b); }
  }

  /** The strings agree up to `k`, where the first ends or has the smaller character. */
  ghost predicate LtAt(a: string, b: string, k: nat) {
    k <= |a| && k < |b| && a[..k] == b[..k] && (k == |a| || a[k] < b[k])
  }

  lemma {:induction false} LtSomewhere(a: string, b: string) returns (k: nat)
    requires StringLt(a, b)
    ensures LtAt(a, b, k)
  {
    if a == [] || a[0] < b[0] {
      k := 0;
    } else {
      var j := LtSomewhere(a[1..], b[1..]);
      k := j + 1;
      assert a[..k] == [a[0]] + a[1..][..j] && b[..k] == [b[0]] + b[1..][..j];
    }
  }

  lemma {:induction false} LtFrom(a: string, b: string, k: nat)
    requires LtAt(a, b, k)
    ensures StringLt(a, b)
    decreases k
  {
    if k > 0 {
      assert a[..k][0] == b[..k][0];
      assert a[1..][..k - 1] == a[..k][1..] && b[1..][..k - 1] == b[..k][1..];
      LtFrom(a[1..], b[1..], k - 1);
    }
  }

  /** Strings are compared at the first place at which they differ; a proper prefix comes first. */
  lemma StringLtMeans(a: string, b: string)
    ensures StringLt(a, b) <==> exists k: nat :: LtAt(a, b, k)
  {
    if StringLt(a, b) { var k := LtSomewhere(a, b); }
    if exists k: nat :: LtAt(a, b, k) {
      var k: nat :| LtAt(a, b, k);
      LtFrom(a, b, k);
    }
  }
}
