/** Balance: trees grown from the empty tree never panic and stay logarithmic; where other trees do panic. */
module AvlBalance {
  import opened Wrappers
  import opened Order
  import opened SortedPairs
  import opened AvlModel
  import opened AvlMap

  lemma HeightNonNegative<K, V>(t: Tree<K, V>)
    requires Avl(t)
    ensures Height(t) >= 0 && (t.Node? ==> Height(t) >= 1)
  {
  }

  /**
   Inserting into an AVL tree succeeds and gives an AVL tree, at most one taller. A non-empty tree
   that grew leans towards the inserted key, which is what selects the right rotation above it.
   */
  lemma {:induction false} InsertKeepsAvl<K(!new), V>(lt: (K, K) -> bool, t: Tree<K, V>, key: K, val: V)
    requires StrictTotal(lt) && Avl(t)
    ensures Insert(lt, t, key, val).Some?
    ensures Leans(lt, Insert(lt, t, key, val).value, Height(t), key)
  {
    if t.Node? {
      HeightNonNegative(t.left);
      HeightNonNegative(t.right);
      if lt(key, t.key) {
        InsertKeepsAvl(lt, t.left, key, val);
        FixInsertLeft(lt, Insert(lt, t.left, key, val).value, t, key);
      } else if lt(t.key, key) {
        InsertKeepsAvl(lt, t.right, key, val);
        FixInsertRight(lt, Insert(lt, t.right, key, val).value, t, key);
      }
    }
  }

  /** The tree `f` after an insertion below its root towards `left` has grown by at most one level, that way. */
  ghost predicate Grown<K(!new), V>(
    lt: (K, K) -> bool, f: Option<Tree<K, V>>, height: int, key: K, left: bool)
  {
    && f.Some? && Avl(f.value) && f.value.Node? && height <= Height(f.value) <= height + 1
    && (Height(f.value) == height + 1 ==>
      if left then lt(key, f.value.key) && Height(f.value.left) == Height(f.value.right) + 1
      else lt(f.value.key, key) && Height(f.value.right) == Height(f.value.left) + 1)
  }

  /** What an insertion into a subtree of height `height` promises about the new subtree `t`. */
  ghost predicate Leans<K(!new), V>(lt: (K, K) -> bool, t: Tree<K, V>, height: int, key: K) {
    && t.Node? && Avl(t) && height <= Height(t) <= height + 1
    && (height > 0 && Height(t) == height + 1 ==>
      || (lt(key, t.key) && Height(t.left) == Height(t.right) + 1)
      || (lt(t.key, key) && Height(t.right) == Height(t.left) + 1))
  }

  lemma FixInsertLeft<K(!new), V>(lt: (K, K) -> bool, l: Tree<K, V>, t: Tree<K, V>, key: K)
    requires StrictTotal(lt) && t.Node? && Avl(t) && lt(key, t.key) && Leans(lt, l, Height(t.left), key)
    ensures Grown(lt, FixInsert(lt, Join(l, t.key, t.val, t.right), key), Height(t), key, true)
  {
    HeightNonNegative(t.right);
    HeightNonNegative(l.left);
    HeightNonNegative(l.right);
    HeightNonNegative(t.left);
    if Height(l) - Height(t.right) > 1 && lt(l.key, key) {
      DoubleRight(lt, l, t);
    }
  }

  lemma DoubleRight<K(!new), V>(lt: (K, K) -> bool, l: Tree<K, V>, t: Tree<K, V>)
    requires t.Node? && Avl(t.right) && l.Node? && Avl(l)
    requires Height(l) == Height(t.right) + 2 && Height(l.right) == Height(l.left) + 1
    ensures var f := RotateLeftRight(Join(l, t.key, t.val, t.right));
      l.right.Node? && f.Some? && Avl(f.value) && f.value.Node? && Height(f.value) == Height(l)
  {
    HeightNonNegative(t.right);
    HeightNonNegative(l.left);
    HeightNonNegative(l.right.left);
    HeightNonNegative(l.right.right);
  }

  lemma FixInsertRight<K(!new), V>(lt: (K, K) -> bool, r: Tree<K, V>, t: Tree<K, V>, key: K)
    requires StrictTotal(lt) && t.Node? && Avl(t) && lt(t.key, key) && Leans(lt, r, Height(t.right), key)
    ensures Grown(lt, FixInsert(lt, Join(t.left, t.key, t.val, r), key), Height(t), key, false)
  {
    HeightNonNegative(t.left);
    HeightNonNegative(r.left);
    HeightNonNegative(r.right);
    HeightNonNegative(t.right);
    if Height(r) - Height(t.left) > 1 && lt(key, r.key) {
      DoubleLeft(lt, r, t);
    }
  }

  lemma DoubleLeft<K(!new), V>(lt: (K, K) -> bool, r: Tree<K, V>, t: Tree<K, V>)
    requires t.Node? && Avl(t.left) && r.Node? && Avl(r)
    requires Height(r) == Height(t.left) + 2 && Height(r.left) == Height(r.right) + 1
    ensures var f := RotateRightLeft(Join(t.left, t.key, t.val, r));
      r.left.Node? && f.Some? && Avl(f.value) && f.value.Node? && Height(f.value) == Height(r)
  {
    HeightNonNegative(t.left);
    HeightNonNegative(r.right);
    HeightNonNegative(r.left.left);
    HeightNonNegative(r.left.right);
  }

  /** Restoring balance after one side may have lost a level. */
  lemma FixDeleteAvl<K, V>(t: Tree<K, V>)
    requires t.Node? && Avl(t.left) && Avl(t.right)
    requires -2 <= Height(t.left) - Height(t.right) <= 2
    ensures var f := FixDelete(Join(t.left, t.key, t.val, t.right));
      && f.Some? && Avl(f.value)
      && Max(Height(t.left), Height(t.right)) <= Height(f.value) <= 1 + Max(Height(t.left), Height(t.right))
      && (-1 <= Height(t.left) - Height(t.right) <= 1 ==>
        Height(f.value) == 1 + Max(Height(t.left), Height(t.right)))
  {
    HeightNonNegative(t.left);
    HeightNonNegative(t.right);
    if Height(t.left) - Height(t.right) > 1 {
      HeightNonNegative(t.left.left);
      HeightNonNegative(t.left.right);
      FixLeftHeavy(t);
    } else if Height(t.left) - Height(t.right) < -1 {
      HeightNonNegative(t.right.left);
      HeightNonNegative(t.right.right);
      FixRightHeavy(t);
    }
  }

  lemma FixLeftHeavy<K, V>(t: Tree<K, V>)
    requires t.Node? && Avl(t.left) && Avl(t.right) && t.left.Node?
    requires Height(t.left) - Height(t.right) == 2
    requires Height(t.left.left) >= 0 && Height(t.left.right) >= 0 && Height(t.right) >= 0
    ensures var f := FixDelete(Join(t.left, t.key, t.val, t.right));
      f.Some? && Avl(f.value) && Height(t.left) <= Height(f.value) <= 1 + Height(t.left)
  {
    if Balance(t.left) < 0 {
      HeightNonNegative(t.left.right);
      HeightNonNegative(t.left.right.left);
      HeightNonNegative(t.left.right.right);
    }
  }

  lemma FixRightHeavy<K, V>(t: Tree<K, V>)
    requires t.Node? && Avl(t.left) && Avl(t.right) && t.right.Node?
    requires Height(t.left) - Height(t.right) == -2
    requires Height(t.right.left) >= 0 && Height(t.right.right) >= 0 && Height(t.left) >= 0
    ensures var f := FixDelete(Join(t.left, t.key, t.val, t.right));
      f.Some? && Avl(f.value) && Height(t.right) <= Height(f.value) <= 1 + Height(t.right)
  {
    if Balance(t.right) > 0 {
      HeightNonNegative(t.right.left);
      HeightNonNegative(t.right.left.left);
      HeightNonNegative(t.right.left.right);
    }
  }

  lemma RejoinAvl<K, V>(t: Tree<K, V>, popped: Option<V>)
    requires t.Node? && Avl(t)
    ensures var d := FinishDelete(t, popped, true);
      d.Some? && Avl(d.value.tree) && Height(d.value.tree) == Height(t)
  {
    HeightNonNegative(t.left);
    HeightNonNegative(t.right);
    FixDeleteAvl(t);
  }

  ghost predicate Shrunk<K, V>(before: Tree<K, V>, after: Tree<K, V>) {
    Avl(after) && Height(before) - 1 <= Height(after) <= Height(before)
  }

  /** One side of `t` may have shrunk: finishing the deletion at `t` shrinks it by at most one. */
  lemma FinishAvl<K, V>(t: Tree<K, V>, t': Tree<K, V>, popped: Option<V>, found: bool)
    requires t.Node? && Avl(t) && t'.Node? && t'.height == t.height
    requires (Shrunk(t.left, t'.left) && t'.right == t.right) || (Shrunk(t.right, t'.right) && t'.left == t.left)
    requires !found ==> t' == t
    ensures var d := FinishDelete(t', popped, found);
      d.Some? && Shrunk(t, d.value.tree) && d.value.found == found && (!found ==> d.value.tree == t)
  {
    HeightNonNegative(t.left);
    HeightNonNegative(t.right);
    if found {
      FixDeleteAvl(t');
    }
  }

  lemma LeftmostFound<K(!new), V(!new)>(lt: (K, K) -> bool, t: Tree<K, V>)
    requires StrictTotal(lt) && Search(lt, t) && t.Node? && Delete(lt, t, Leftmost(t).key).Some?
    ensures Delete(lt, t, Leftmost(t).key).value.found
  {
    LeftmostIsFirst(t);
    assert Items(t)[0] in Items(t);
    DeleteItems(lt, t, Leftmost(t).key);
  }

  /** Deleting from an AVL tree succeeds and gives an AVL tree, at most one shorter. */
  lemma {:induction false} DeleteKeepsAvl<K(!new), V(!new)>(lt: (K, K) -> bool, t: Tree<K, V>, key: K)
    requires StrictTotal(lt) && Search(lt, t) && Avl(t)
    ensures Delete(lt, t, key).Some?
    ensures var d := Delete(lt, t, key).value;
      Shrunk(t, d.tree) && (!d.found ==> d.tree == t)
  {
    if t.Node? {
      SearchParts(lt, t);
      HeightNonNegative(t.left);
      HeightNonNegative(t.right);
      if lt(key, t.key) {
        DeleteKeepsAvl(lt, t.left, key);
        var d := Delete(lt, t.left, key).value;
        FinishAvl(t, t.(left := d.tree), d.popped, d.found);
      } else if lt(t.key, key) {
        DeleteKeepsAvl(lt, t.right, key);
        var d := Delete(lt, t.right, key).value;
        FinishAvl(t, t.(right := d.tree), d.popped, d.found);
      } else if t.left.Nil? && t.right.Nil? {
      } else if t.left.Nil? {
        RejoinAvl(t.right, Some(t.val));
      } else if t.right.Nil? {
        RejoinAvl(t.left, Some(t.val));
      } else {
        var next := Leftmost(t.right);
        DeleteKeepsAvl(lt, t.right, next.key);
        LeftmostFound(lt, t.right);
        var d := Delete(lt, t.right, next.key).value;
        FinishAvl(Node(t.left, next.key, next.val, t.right, t.height),
          Node(t.left, next.key, next.val, d.tree, t.height), d.popped, true);
      }
    }
  }

  /** One deletion on a search tree that either is balanced or at least does not panic. */
  lemma DeleteStep<K(!new), V(!new)>(lt: (K, K) -> bool, t: Tree<K, V>, key: K)
    requires StrictTotal(lt) && Search(lt, t) && (Avl(t) || Delete(lt, t, key).Some?)
    ensures Delete(lt, t, key).Some?
    ensures var d := Delete(lt, t, key).value;
      && Search(lt, d.tree) && (Avl(t) ==> Avl(d.tree))
      && AsMap(lt, Items(d.tree)) == AsMap(lt, Items(t)) - {key}
      && (d.found <==> key in AsMap(lt, Items(t)))
  {
    if Avl(t) { DeleteKeepsAvl(lt, t, key); }
    DeleteRefinesMap(lt, t, key);
  }

  datatype Op<K, V> = Put(key: K, val: V) | Del(key: K)

  /** The tree after a run of insertions and deletions on an empty tree; None if one of them panicked. */
  function Run<K(!new), V>(lt: (K, K) -> bool, ops: seq<Op<K, V>>): Option<Tree<K, V>> {
    if ops == [] then Some(Nil)
    else
      var before := Run(lt, ops[..|ops| - 1]);
      if before.None? then None
      else match ops[|ops| - 1]
        case Put(k, v) => Insert(lt, before.value, k, v)
        case Del(k) =>
          var d := Delete(lt, before.value, k);
          if d.None? then None else Some(d.value.tree)
  }

  /** The map that the same run describes. */
  ghost function RunMap<K, V>(ops: seq<Op<K, V>>): map<K, V> {
    if ops == [] then map[]
    else match ops[|ops| - 1]
      case Put(k, v) => RunMap(ops[..|ops| - 1])[k := v]
      case Del(k) => RunMap(ops[..|ops| - 1]) - {k}
  }

  /**
   No run on an empty tree panics; search order, exact heights and balance hold throughout, and the tree is
   the map.
   */
  lemma {:induction false} EveryRunIsAnAvlMap<K(!new), V(!new)>(lt: (K, K) -> bool, ops: seq<Op<K, V>>)
    requires StrictTotal(lt)
    ensures Run(lt, ops).Some?
    ensures var t := Run(lt, ops).value;
      Avl(t) && Search(lt, t) && AsMap(lt, Items(t)) == RunMap(ops)
  {
    if ops != [] {
      EveryRunIsAnAvlMap(lt, ops[..|ops| - 1]);
      var t := Run(lt, ops[..|ops| - 1]).value;
      match ops[|ops| - 1]
      case Put(k, v) =>
        InsertKeepsAvl(lt, t, k, v);
        InsertRefinesMap(lt, t, k, v);
      case Del(k) =>
        DeleteKeepsAvl(lt, t, k);
        DeleteRefinesMap(lt, t, k);
    }
  }

  function Fib(n: nat): nat {
    if n < 2 then n else Fib(n - 1) + Fib(n - 2)
  }

  lemma {:induction false} FibMonotone(m: nat, n: nat)
    requires m <= n
    ensures Fib(m) <= Fib(n)
    decreases n
  {
    if m < n {
      FibMonotone(m, n - 1);
    }
  }

  /** An AVL tree of height h holds at least Fib(h + 2) - 1 nodes: its height is logarithmic in its size. */
  lemma {:induction false} SizeIsFibonacci<K, V>(t: Tree<K, V>)
    requires Avl(t)
    ensures Height(t) >= 0 && Size(t) + 1 >= Fib(Height(t) + 2)
  {
    if t.Node? {
      SizeIsFibonacci(t.left);
      SizeIsFibonacci(t.right);
      var h := Height(t);
      FibMonotone(h, Height(t.left) + 2);
      FibMonotone(h, Height(t.right) + 2);
    }
  }
}
