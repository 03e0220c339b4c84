/**
 The AVL tree on values: the same case analysis as the pointer code, with None standing for the
 run-time panic of a rotation that dereferences a missing child.
 */
module AvlModel {
  import opened Wrappers
  import opened SortedPairs

  datatype Tree<K, V> = Nil | Node(left: Tree<K, V>, key: K, val: V, right: Tree<K, V>, height: int)

  function Max(a: int, b: int): int { if a < b then b else a }

  function Height<K, V>(t: Tree<K, V>): int { if t.Nil? then 0 else t.height }

  /** A node whose stored height has just been updated from its children. */
  function Join<K, V>(left: Tree<K, V>, key: K, val: V, right: Tree<K, V>): Tree<K, V> {
    Node(left, key, val, right, 1 + Max(Height(left), Height(right)))
  }

  /** The balance factor as the code computes it: a leaf counts as 1. */
  function Balance<K, V>(t: Tree<K, V>): int {
    if t.Nil? then 0
    else if t.left.Nil? && t.right.Nil? then 1
    else if t.left.Nil? then -t.right.height
    else if t.right.Nil? then t.left.height
    else t.left.height - t.right.height
  }

  function RotateRight<K, V>(t: Tree<K, V>): Option<Tree<K, V>>
    requires t.Node?
  {
    if t.left.Nil? then None
    else Some(Join(t.left.left, t.left.key, t.left.val, Join(t.left.right, t.key, t.val, t.right)))
  }

  function RotateLeft<K, V>(t: Tree<K, V>): Option<Tree<K, V>>
    requires t.Node?
  {
    if t.right.Nil? then None
    else Some(Join(Join(t.left, t.key, t.val, t.right.left), t.right.key, t.right.val, t.right.right))
  }

  function RotateLeftRight<K, V>(t: Tree<K, V>): Option<Tree<K, V>>
    requires t.Node? && t.left.Node?
  {
    var l := RotateLeft(t.left);
    if l.None? then None else RotateRight(t.(left := l.value))
  }

  function RotateRightLeft<K, V>(t: Tree<K, V>): Option<Tree<K, V>>
    requires t.Node? && t.right.Node?
  {
    var r := RotateRight(t.right);
    if r.None? then None else RotateLeft(t.(right := r.value))
  }

  function FixInsert<K(!new), V>(lt: (K, K) -> bool, t: Tree<K, V>, key: K): Option<Tree<K, V>>
    requires t.Node?
  {
    var b := Balance(t);
    if b > 1 then
      if t.left.Nil? then None
      else if lt(key, t.left.key) then RotateRight(t)
      else if lt(t.left.key, key) then RotateLeftRight(t)
      else Some(t)
    else if b < -1 then
      if t.right.Nil? then None
      else if lt(t.right.key, key) then RotateLeft(t)
      else if lt(key, t.right.key) then RotateRightLeft(t)
      else Some(t)
    else Some(t)
  }

  function Insert<K(!new), V>(lt: (K, K) -> bool, t: Tree<K, V>, key: K, val: V): Option<Tree<K, V>> {
    if t.Nil? then Some(Node(Nil, key, val, Nil, 1))
    else if lt(key, t.key) then
      var l := Insert(lt, t.left, key, val);
      if l.None? then None else FixInsert(lt, Join(l.value, t.key, t.val, t.right), key)
    else if lt(t.key, key) then
      var r := Insert(lt, t.right, key, val);
      if r.None? then None else FixInsert(lt, Join(t.left, t.key, t.val, r.value), key)
    else Some(t.(val := val))
  }

  /** What a deletion hands back: the tree, the value the code returns, and the found flag. */
  datatype Deleted<K, V> = Deleted(tree: Tree<K, V>, popped: Option<V>, found: bool)

  function Leftmost<K, V>(t: Tree<K, V>): Tree<K, V>
    requires t.Node?
    ensures Leftmost(t).Node?
  {
    if t.left.Nil? then t else Leftmost(t.left)
  }

  function FixDelete<K, V>(t: Tree<K, V>): Option<Tree<K, V>>
    requires t.Node?
  {
    var b := Balance(t);
    if b > 1 then
      if Balance(t.left) >= 0 then RotateRight(t) else RotateLeftRight(t)
    else if b < -1 then
      if Balance(t.right) <= 0 then RotateLeft(t) else RotateRightLeft(t)
    else Some(t)
  }

  function FinishDelete<K, V>(t: Tree<K, V>, popped: Option<V>, found: bool): Option<Deleted<K, V>>
    requires t.Node?
  {
    if found then
      var f := FixDelete(Join(t.left, t.key, t.val, t.right));
      if f.None? then None else Some(Deleted(f.value, popped, found))
    else Some(Deleted(t, popped, found))
  }

  function Delete<K(!new), V>(lt: (K, K) -> bool, t: Tree<K, V>, key: K): Option<Deleted<K, V>> {
    if t.Nil? then Some(Deleted(Nil, None, false))
    else if lt(key, t.key) then
      var d := Delete(lt, t.left, key);
      if d.None? then None else FinishDelete(t.(left := d.value.tree), d.value.popped, d.value.found)
    else if lt(t.key, key) then
      var d := Delete(lt, t.right, key);
      if d.None? then None else FinishDelete(t.(right := d.value.tree), d.value.popped, d.value.found)
    else if t.left.Nil? && t.right.Nil? then Some(Deleted(Nil, Some(t.val), true))
    else if t.left.Nil? then FinishDelete(t.right, Some(t.val), true)
    else if t.right.Nil? then FinishDelete(t.left, Some(t.val), true)
    else
      var next := Leftmost(t.right);
      var d := Delete(lt, t.right, next.key);
      if d.None? then None
      else
        FinishDelete(t.(key := next.key, val := next.val, right := d.value.tree), d.value.popped, d.value.found)
  }

  function Find<K(!new), V>(lt: (K, K) -> bool, t: Tree<K, V>, key: K): Option<V> {
    if t.Nil? then None
    else if lt(key, t.key) then Find(lt, t.left, key)
    else if lt(t.key, key) then Find(lt, t.right, key)
    else Some(t.val)
  }

  /** A clone keeps keys, values and shape; the copying code leaves every stored height at zero. */
  function Clone<K, V>(t: Tree<K, V>): Tree<K, V> {
    if t.Nil? then Nil else Node(Clone(t.left), t.key, t.val, Clone(t.right), 0)
  }

  function Size<K, V>(t: Tree<K, V>): nat {
    if t.Nil? then 0 else 1 + Size(t.left) + Size(t.right)
  }

  /** The pairs in the order the in-order walk meets them. */
  ghost function Items<K, V>(t: Tree<K, V>): seq<(K, V)> {
    if t.Nil? then [] else Items(t.left) + ([(t.key, t.val)] + Items(t.right))
  }

  /** A search tree for `lt`: the walk is strictly ascending. Nothing is said about heights. */
  ghost predicate Search<K(!new), V(!new)>(lt: (K, K) -> bool, t: Tree<K, V>) {
    Sorted(lt, Items(t))
  }

  /** Exact stored heights, and subtrees that differ by at most one, at every node. */
  ghost predicate Avl<K, V>(t: Tree<K, V>) {
    t.Node? ==>
      && Avl(t.left) && Avl(t.right)
      && t.height == 1 + Max(Height(t.left), Height(t.right))
      && -1 <= Height(t.left) - Height(t.right) <= 1
  }
}
