/**
 Counting by a countdown that stops early: NamespaceCountEquals and DomainCountEquals ask for an exact
 number, and answer whether there are at least that many.
 */
module Counts {
  import AvlMap
  import AvlTree

  /** The visitor of both: one fewer to go, and on only while some are left to go. */
  function CountDown<K, V>(): (int, K, V) -> (int, bool) { (left: int, k: K, v: V) => (left - 1, left - 1 > 0) }

  lemma {:induction false} CountsDown<K, V>(s: seq<(K, V)>, target: int)
    ensures AvlTree.Walk(CountDown(), s, target).0 ==
      if s == [] then target else if target <= 0 then target - 1 else if |s| <= target then target - |s| else 0
  {
    if s != [] && target > 1 {
      CountsDown(s[1..], target - 1);
    }
  }

  /** What the countdown answers when there are `n`. */
  predicate Answer(n: nat, target: nat) { if target == 0 then n == 0 else n >= target }

  /** Right exactly when there are no more than a positive number asked for. */
  method CountEquals<K(!new), V(!new)>(t: AvlTree.Tree<K, V>, target: nat) returns (equal: bool)
    requires t.Valid()
    ensures equal <==> Answer(|t.Contents().Keys|, target)
    ensures equal <==> if target == 0 then t.Contents() == map[] else |t.Contents().Keys| >= target
    ensures (equal <==> |t.Contents().Keys| == target) <==> target == 0 || |t.Contents().Keys| <= target
  {
    ghost var items := AvlTree.M.Items(t.Model());
    CountsDown(items, target);
    AvlMap.SizeIsLength(t.Model());
    AvlMap.SizeIsCardinality(t.lt, t.Model());
    var left := t.Each(CountDown<K, V>(), target as int);
    equal := left == 0;
  }

  /** The same countdown over the keys of a tree that is taken as a map. */
  method CountDownOver<K>(keys: set<K>, target: nat) returns (equal: bool)
    ensures equal <==> Answer(|keys|, target)
    ensures equal <==> if target == 0 then keys == {} else |keys| >= target
  {
    var left: int, more, todo := target, true, keys;
    while more && todo != {}
      invariant |todo| <= |keys| && left == target - (|keys| - |todo|)
      invariant more ==> left > 0 || |todo| == |keys|
      invariant !more ==> left <= 0 && (left == 0 || target == 0) && |todo| < |keys|
      decreases |todo|
    {
      var k :| k in todo;
      todo := todo - {k};
      left := left - 1;
      more := left > 0;
    }
    equal := left == 0;
  }
}
