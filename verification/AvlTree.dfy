/**
 The AVL tree on the heap: nodes rewired in place. Every node carries the tree value it stands for,
 and each method is the matching function of AvlModel on those values.
 */
module AvlTree {
  import opened Wrappers
  import opened Order
  import opened SortedPairs
  import M = AvlModel
  import AvlMap
  import AvlBalance

  class Node<K(!new), V(!new)> {
    var key: K
    var val: V
    var left: Node?<K, V>
    var right: Node?<K, V>
    var height: int
    ghost var model: M.Tree<K, V>
    ghost var repr: set<Node<K, V>>

    constructor (key: K, val: V, height: int)
      ensures Valid() && fresh(repr)
      ensures model == M.Tree.Node(M.Nil, key, val, M.Nil, height)
    {
      this.key, this.val, this.height := key, val, height;
      left, right := null, null;
      model := M.Tree.Node(M.Nil, key, val, M.Nil, height);
      repr := {this};
    }

    constructor WithChildren(left: Node?<K, V>, key: K, val: V, right: Node?<K, V>, height: int)
      requires ValidOrNil(left) && ValidOrNil(right) && ReprOf(left) !! ReprOf(right)
      ensures Valid() && fresh(repr - ReprOf(left) - ReprOf(right))
      ensures model == M.Tree.Node(ModelOf(left), key, val, ModelOf(right), height)
    {
      this.left, this.key, this.val, this.right, this.height := left, key, val, right, height;
      model := M.Tree.Node(ModelOf(left), key, val, ModelOf(right), height);
      repr := {this} + ReprOf(left) + ReprOf(right);
    }

    ghost predicate Valid()
      reads this, repr
      ensures Valid() ==> this in repr && model.Node?
      ensures Valid() ==> model.key == key && model.val == val && model.height == height
      decreases repr
    {
      && this in repr
      && (left != null ==> left in repr && left.repr <= repr && this !in left.repr && left.Valid())
      && (right != null ==> right in repr && right.repr <= repr && this !in right.repr && right.Valid())
      && ReprOf(left) !! ReprOf(right)
      && model == M.Tree.Node(ModelOf(left), key, val, ModelOf(right), height)
    }
  }

  ghost function ModelOf<K(!new), V(!new)>(n: Node?<K, V>): M.Tree<K, V>
    reads n
  {
    if n == null then M.Nil else n.model
  }

  ghost function ReprOf<K(!new), V(!new)>(n: Node?<K, V>): set<Node<K, V>>
    reads n
  {
    if n == null then {} else n.repr
  }

  ghost predicate ValidOrNil<K(!new), V(!new)>(n: Node?<K, V>)
    reads n, ReprOf(n)
  {
    n != null ==> n.Valid()
  }

  method GetHeight<K(!new), V(!new)>(n: Node?<K, V>) returns (h: int)
    requires ValidOrNil(n)
    ensures h == M.Height(ModelOf(n))
  {
    h := if n == null then 0 else n.height;
  }

  /** Stores the height that the children's stored heights call for; the node then stands for a Join. */
  method UpdateHeight<K(!new), V(!new)>(n: Node<K, V>)
    requires ValidOrNil(n.left) && ValidOrNil(n.right)
    requires n !in ReprOf(n.left) && n !in ReprOf(n.right) && ReprOf(n.left) !! ReprOf(n.right)
    modifies n`height, n`model, n`repr
    ensures n.Valid() && n.repr == {n} + ReprOf(n.left) + ReprOf(n.right)
    ensures n.model == M.Join(ModelOf(n.left), n.key, n.val, ModelOf(n.right))
  {
    var l := GetHeight(n.left);
    var r := GetHeight(n.right);
    n.height := 1 + M.Max(l, r);
    n.model := M.Tree.Node(ModelOf(n.left), n.key, n.val, ModelOf(n.right), n.height);
    n.repr := {n} + ReprOf(n.left) + ReprOf(n.right);
  }

  method GetBalanceFactor<K(!new), V(!new)>(n: Node?<K, V>) returns (b: int)
    requires ValidOrNil(n)
    ensures b == M.Balance(ModelOf(n))
  {
    if n == null {
      return 0;
    }
    if n.left == null && n.right == null {
      return 1;
    }
    if n.left == null {
      return -n.right.height;
    }
    if n.right == null {
      return n.left.height;
    }
    return n.left.height - n.right.height;
  }

  lemma RotatedRight<K, V>(
    a: M.Tree<K, V>, k: K, v: V, b: M.Tree<K, V>, h: int, k': K, v': V, c: M.Tree<K, V>, h': int)
    ensures M.RotateRight(M.Tree.Node(M.Tree.Node(a, k, v, b, h), k', v', c, h')) ==
      Some(M.Join(a, k, v, M.Join(b, k', v', c)))
  {
  }

  lemma RotatedLeft<K, V>(
    a: M.Tree<K, V>, k: K, v: V, h: int, b: M.Tree<K, V>, k': K, v': V, c: M.Tree<K, V>, h': int)
    ensures M.RotateLeft(M.Tree.Node(a, k, v, M.Tree.Node(b, k', v', c, h'), h)) ==
      Some(M.Join(M.Join(a, k, v, b), k', v', c))
  {
  }

  method RotateRight<K(!new), V(!new)>(y: Node<K, V>) returns (x: Node<K, V>)
    requires y.Valid() && y.left != null
    modifies y, y.left
    ensures x.Valid() && x.repr <= old(y.repr)
    ensures old(y.model.left.Node?) && M.RotateRight(old(y.model)) == Some(x.model)
  {
    hide M.Join, M.RotateRight;
    x := y.left;
    var t := x.right;
    ghost var a, b, c := ModelOf(x.left), ModelOf(t), ModelOf(y.right);
    RotatedRight(a, x.key, x.val, b, x.height, y.key, y.val, c, y.height);
    x.right := y;
    y.left := t;
    UpdateHeight(y);
    UpdateHeight(x);
  }

  method RotateLeft<K(!new), V(!new)>(x: Node<K, V>) returns (y: Node<K, V>)
    requires x.Valid() && x.right != null
    modifies x, x.right
    ensures y.Valid() && y.repr <= old(x.repr)
    ensures old(x.model.right.Node?) && M.RotateLeft(old(x.model)) == Some(y.model)
  {
    hide M.Join, M.RotateLeft;
    y := x.right;
    var t := y.left;
    ghost var a, b, c := ModelOf(x.left), ModelOf(t), ModelOf(y.right);
    RotatedLeft(a, x.key, x.val, x.height, b, y.key, y.val, c, y.height);
    y.left := x;
    x.right := t;
    UpdateHeight(x);
    UpdateHeight(y);
  }

  /** The two-step rotation: the left child is rotated left, then the root right. */
  method RotateLeftRight<K(!new), V(!new)>(root: Node<K, V>) returns (r: Node<K, V>)
    requires root.Valid() && root.left != null && root.left.right != null
    modifies root.repr
    ensures r.Valid() && r.repr <= old(root.repr)
    ensures old(root.model.left.Node?) && M.RotateLeftRight(old(root.model)) == Some(r.model)
  {
    var l := RotateLeft(root.left);
    root.left := l;
    root.model := root.model.(left := l.model);
    r := RotateRight(root);
  }

  method RotateRightLeft<K(!new), V(!new)>(root: Node<K, V>) returns (r: Node<K, V>)
    requires root.Valid() && root.right != null && root.right.left != null
    modifies root.repr
    ensures r.Valid() && r.repr <= old(root.repr)
    ensures old(root.model.right.Node?) && M.RotateRightLeft(old(root.model)) == Some(r.model)
  {
    var l := RotateRight(root.right);
    root.right := l;
    root.model := root.model.(right := l.model);
    r := RotateLeft(root);
  }

  /** The rotations of `replace`, chosen by the balance factor and the key. */
  method FixInsert<K(!new), V(!new)>(lt: (K, K) -> bool, root: Node<K, V>, key: K) returns (r: Node<K, V>)
    requires root.Valid() && M.FixInsert(lt, root.model, key).Some?
    modifies root.repr
    ensures r.Valid() && r.repr <= old(root.repr)
    ensures M.FixInsert(lt, old(root.model), key) == Some(r.model)
  {
    var balance := GetBalanceFactor(root);
    if balance > 1 && lt(key, root.left.key) {
      r := RotateRight(root);
      return;
    }
    if balance < -1 && lt(root.right.key, key) {
      r := RotateLeft(root);
      return;
    }
    if balance > 1 && lt(root.left.key, key) {
      r := RotateLeftRight(root);
      return;
    }
    if balance < -1 && lt(key, root.right.key) {
      r := RotateRightLeft(root);
      return;
    }
    r := root;
  }

  method Replace<K(!new), V(!new)>(lt: (K, K) -> bool, root: Node?<K, V>, key: K, value: V)
    returns (r: Node<K, V>, oldValue: Option<V>)
    requires ValidOrNil(root)
    requires M.Insert(lt, ModelOf(root), key, value).Some?
    modifies ReprOf(root)
    ensures r.Valid() && fresh(r.repr - old(ReprOf(root)))
    ensures M.Insert(lt, old(ModelOf(root)), key, value) == Some(r.model)
    ensures oldValue == M.Find(lt, old(ModelOf(root)), key)
    decreases ReprOf(root), 1
  {
    if root == null {
      r := new Node(key, value, 1);
      return r, None;
    }
    if lt(key, root.key) {
      oldValue := ReplaceLeft(lt, root, key, value);
    } else if lt(root.key, key) {
      oldValue := ReplaceRight(lt, root, key, value);
    } else {
      oldValue := Some(root.val);
      root.val := value;
      root.model := root.model.(val := value);
      return root, oldValue;
    }
    r := FixInsert(lt, root, key);
  }

  method ReplaceLeft<K(!new), V(!new)>(lt: (K, K) -> bool, root: Node<K, V>, key: K, value: V)
    returns (oldValue: Option<V>)
    requires root.Valid() && M.Insert(lt, root.model.left, key, value).Some?
    modifies root.repr
    ensures root.Valid() && fresh(root.repr - old(root.repr))
    ensures root.model == old(M.Join(
      M.Insert(lt, root.model.left, key, value).value, root.key, root.val, root.model.right))
    ensures oldValue == M.Find(lt, old(root.model.left), key)
    decreases root.repr, 0
  {
    var l;
    l, oldValue := Replace(lt, root.left, key, value);
    root.left := l;
    UpdateHeight(root);
  }

  method ReplaceRight<K(!new), V(!new)>(lt: (K, K) -> bool, root: Node<K, V>, key: K, value: V)
    returns (oldValue: Option<V>)
    requires root.Valid() && M.Insert(lt, root.model.right, key, value).Some?
    modifies root.repr
    ensures root.Valid() && fresh(root.repr - old(root.repr))
    ensures root.model == old(M.Join(
      root.model.left, root.key, root.val, M.Insert(lt, root.model.right, key, value).value))
    ensures oldValue == M.Find(lt, old(root.model.right), key)
    decreases root.repr, 0
  {
    var r;
    r, oldValue := Replace(lt, root.right, key, value);
    root.right := r;
    UpdateHeight(root);
  }

  /** The rotations of `deleteNode`, chosen by the balance factors of the root and its taller child. */
  method FixDelete<K(!new), V(!new)>(root: Node<K, V>) returns (r: Node<K, V>)
    requires root.Valid() && M.FixDelete(root.model).Some?
    modifies root.repr
    ensures r.Valid() && r.repr <= old(root.repr)
    ensures M.FixDelete(old(root.model)) == Some(r.model)
  {
    var balance := GetBalanceFactor(root);
    var left := GetBalanceFactor(root.left);
    var right := GetBalanceFactor(root.right);
    if balance > 1 && left >= 0 {
      r := RotateRight(root);
    } else if balance > 1 && left < 0 {
      r := RotateLeftRight(root);
    } else if balance < -1 && right <= 0 {
      r := RotateLeft(root);
    } else if balance < -1 && right > 0 {
      r := RotateRightLeft(root);
    } else {
      r := root;
    }
  }

  /** After a deletion below: update the height and rebalance, unless nothing was deleted. */
  method FinishDelete<K(!new), V(!new)>(root: Node<K, V>, ghost popped: Option<V>, deleted: bool)
    returns (r: Node<K, V>)
    requires root.Valid() && M.FinishDelete(root.model, popped, deleted).Some?
    modifies root.repr
    ensures r.Valid() && r.repr <= old(root.repr)
    ensures M.FinishDelete(old(root.model), popped, deleted) == Some(M.Deleted(r.model, popped, deleted))
  {
    r := root;
    if deleted {
      UpdateHeight(root);
      r := FixDelete(root);
    }
  }

  method FindMin<K(!new), V(!new)>(root: Node<K, V>) returns (m: Node<K, V>)
    requires root.Valid()
    ensures m in root.repr && m.Valid() && m.model == M.Leftmost(root.model)
  {
    m := root;
    while m.left != null
      invariant m in root.repr && m.repr <= root.repr && m.Valid()
      invariant M.Leftmost(m.model) == M.Leftmost(root.model)
      decreases m.repr
    {
      m := m.left;
    }
  }

  /** The one-child case: the node takes over the child's key, value, children and height. */
  method TakeOver<K(!new), V(!new)>(root: Node<K, V>, child: Node<K, V>)
    requires root.Valid() && (child == root.left || child == root.right)
    modifies root
    ensures root.Valid() && root.repr <= old(root.repr) && root.model == old(child.model)
  {
    assert child.Valid() && root !in child.repr;
    root.key, root.val, root.height := child.key, child.val, child.height;
    root.left, root.right := child.left, child.right;
    root.model := child.model;
  }

  method DeleteNode<K(!new), V(!new)>(lt: (K, K) -> bool, root: Node?<K, V>, key: K)
    returns (r: Node?<K, V>, v: Option<V>, deleted: bool)
    requires ValidOrNil(root)
    requires M.Delete(lt, ModelOf(root), key).Some?
    modifies ReprOf(root)
    ensures ValidOrNil(r) && ReprOf(r) <= old(ReprOf(root))
    ensures M.Delete(lt, old(ModelOf(root)), key) == Some(M.Deleted(ModelOf(r), v, deleted))
    decreases ReprOf(root), 1
  {
    if root == null {
      return null, None, false;
    }
    if lt(key, root.key) {
      v, deleted := DeleteLeft(lt, root, key);
    } else if lt(root.key, key) {
      v, deleted := DeleteRight(lt, root, key);
    } else {
      deleted, v := true, Some(root.val);
      if root.left == null || root.right == null {
        var temp := if root.left != null then root.left else root.right;
        if temp == null {
          return null, v, deleted;
        }
        TakeOver(root, temp);
      } else {
        var temp := FindMin(root.right);
        root.key, root.val := temp.key, temp.val;
        root.model := root.model.(key := temp.key, val := temp.val);
        v, deleted := DeleteRight(lt, root, temp.key);
      }
    }
    r := FinishDelete(root, v, deleted);
  }

  method DeleteLeft<K(!new), V(!new)>(lt: (K, K) -> bool, root: Node<K, V>, key: K)
    returns (v: Option<V>, deleted: bool)
    requires root.Valid() && M.Delete(lt, root.model.left, key).Some?
    modifies root.repr
    ensures root.Valid() && root.repr <= old(root.repr)
    ensures var d := M.Delete(lt, old(root.model.left), key).value;
      root.model == old(root.model).(left := d.tree) && v == d.popped && deleted == d.found
    decreases root.repr, 0
  {
    var l;
    l, v, deleted := DeleteNode(lt, root.left, key);
    root.left := l;
    root.model := root.model.(left := ModelOf(l));
  }

  method DeleteRight<K(!new), V(!new)>(lt: (K, K) -> bool, root: Node<K, V>, key: K)
    returns (v: Option<V>, deleted: bool)
    requires root.Valid() && M.Delete(lt, root.model.right, key).Some?
    modifies root.repr
    ensures root.Valid() && root.repr <= old(root.repr)
    ensures var d := M.Delete(lt, old(root.model.right), key).value;
      root.model == old(root.model).(right := d.tree) && v == d.popped && deleted == d.found
    decreases root.repr, 0
  {
    var r;
    r, v, deleted := DeleteNode(lt, root.right, key);
    root.right := r;
    root.model := root.model.(right := ModelOf(r));
  }

  method FindNode<K(!new), V(!new)>(lt: (K, K) -> bool, root: Node?<K, V>, key: K) returns (v: Option<V>)
    requires ValidOrNil(root)
    ensures v == M.Find(lt, ModelOf(root), key)
    decreases ReprOf(root)
  {
    if root == null {
      return None;
    }
    if lt(key, root.key) {
      v := FindNode(lt, root.left, key);
    } else if lt(root.key, key) {
      v := FindNode(lt, root.right, key);
    } else {
      v := Some(root.val);
    }
  }

  /** Hands the pairs of `s` to `f` in order, threading an accumulator, until `f` asks to stop. */
  function Walk<K, V, A>(f: (A, K, V) -> (A, bool), s: seq<(K, V)>, acc: A): (A, bool) {
    if s == [] then (acc, true)
    else
      var (next, more) := f(acc, s[0].0, s[0].1);
      if more then Walk(f, s[1..], next) else (next, false)
  }

  lemma {:induction false} WalkJoin<K, V, A>(f: (A, K, V) -> (A, bool), a: seq<(K, V)>, b: seq<(K, V)>, acc: A)
    ensures Walk(f, a + b, acc) ==
      if Walk(f, a, acc).1 then Walk(f, b, Walk(f, a, acc).0) else Walk(f, a, acc)
  {
    if a == [] {
      assert a + b == b;
    } else {
      assert (a + b)[1..] == a[1..] + b;
      WalkJoin(f, a[1..], b, f(acc, a[0].0, a[0].1).0);
    }
  }

  method EachNode<K(!new), V(!new), A>(n: Node?<K, V>, f: (A, K, V) -> (A, bool), acc: A)
    returns (res: A, more: bool)
    requires ValidOrNil(n)
    ensures (res, more) == Walk(f, M.Items(ModelOf(n)), acc)
    decreases ReprOf(n)
  {
    if n == null {
      return acc, true;
    }
    ghost var l, x, r := M.Items(ModelOf(n.left)), [(n.key, n.val)], M.Items(ModelOf(n.right));
    WalkJoin(f, l, x + r, acc);
    res, more := EachNode(n.left, f, acc);
    if more {
      WalkJoin(f, x, r, res);
      var next := f(res, n.key, n.val);
      res, more := next.0, next.1;
      if more {
        res, more := EachNode(n.right, f, res);
      }
    }
  }

  method LengthOf<K(!new), V(!new)>(n: Node?<K, V>) returns (len: nat)
    requires ValidOrNil(n)
    ensures len == M.Size(ModelOf(n))
    decreases ReprOf(n)
  {
    if n == null {
      return 0;
    }
    var l := LengthOf(n.left);
    var r := LengthOf(n.right);
    len := 1 + l + r;
  }

  /** Copies keys and values into new nodes; their heights stay zero. */
  lemma CloneOfNil<K, V>()
    ensures M.Clone<K, V>(M.Nil) == M.Nil
  {
  }

  lemma CloneIs<K, V>(m: M.Tree<K, V>)
    requires m.Node?
    ensures M.Clone(m) == M.Tree.Node(M.Clone(m.left), m.key, m.val, M.Clone(m.right), 0)
  {
  }

  method CloneNode<K(!new), V(!new)>(n: Node?<K, V>) returns (c: Node?<K, V>)
    requires ValidOrNil(n)
    ensures ValidOrNil(c) && fresh(ReprOf(c)) && ModelOf(c) == M.Clone(ModelOf(n))
    decreases ReprOf(n)
  {
    hide M.Clone;
    CloneOfNil<K, V>();
    if n == null {
      return null;
    }
    CloneIs(n.model);
    var l := CloneNode(n.left);
    var r := CloneNode(n.right);
    assert ReprOf(l) !! ReprOf(r);
    c := new Node.WithChildren(l, n.key, n.val, r, 0);
  }

  /** The tree object: a root and an order. Its contents are a finite map. */
  class Tree<K(!new), V(!new)> {
    const lt: (K, K) -> bool
    var root: Node?<K, V>

    ghost function Repr(): set<object>
      reads this, root
    {
      {this} + ReprOf(root)
    }

    ghost function Model(): M.Tree<K, V>
      reads this, root
    {
      ModelOf(root)
    }

    /** A search tree for a strict total order. Heights may be anything, as they are in a clone. */
    ghost predicate Valid()
      reads this, root, ReprOf(root)
    {
      StrictTotal(lt) && ValidOrNil(root) && M.Search(lt, ModelOf(root))
    }

    ghost function Contents(): map<K, V>
      requires Valid()
      reads this, root, ReprOf(root)
    {
      AsMap(lt, M.Items(ModelOf(root)))
    }

    constructor (lt: (K, K) -> bool)
      requires StrictTotal(lt)
      ensures Valid() && fresh(Repr()) && this.lt == lt
      ensures M.Avl(Model()) && Contents() == map[]
    {
      this.lt := lt;
      root := null;
    }

    /** Panics on no tree grown from NewTree; on other trees exactly where AvlModel.Insert is None. */
    method Insert(key: K, value: V) returns (old_: Option<V>)
      requires Valid()
      requires M.Avl(Model()) || M.Insert(lt, Model(), key, value).Some?
      modifies this, ReprOf(root)
      ensures Valid() && fresh(Repr() - old(Repr()))
      ensures old(M.Avl(Model())) ==> M.Avl(Model())
      ensures Contents() == old(Contents())[key := value]
      ensures old_ == if key in old(Contents()) then Some(old(Contents())[key]) else None
    {
      hide M.Avl, M.Insert, M.Items, M.Find, AsMap;
      if M.Avl(Model()) { AvlBalance.InsertKeepsAvl(lt, Model(), key, value); }
      AvlMap.InsertRefinesMap(lt, Model(), key, value);
      AvlMap.FindIsLookup(lt, Model(), key);
      root, old_ := Replace(lt, root, key, value);
    }

    method Delete(key: K) returns (found: bool)
      requires Valid()
      requires M.Avl(Model()) || M.Delete(lt, Model(), key).Some?
      modifies this, ReprOf(root)
      ensures Valid() && Repr() <= old(Repr())
      ensures old(M.Avl(Model())) ==> M.Avl(Model())
      ensures Contents() == old(Contents()) - {key} && (found <==> key in old(Contents()))
    {
      var v;
      v, found := Pop(key);
    }

    /** Removes the key. For a node with two children the value returned is its successor's: see AvlMap.PopReturns. */
    method Pop(key: K) returns (v: Option<V>, found: bool)
      requires Valid()
      requires M.Avl(Model()) || M.Delete(lt, Model(), key).Some?
      modifies this, ReprOf(root)
      ensures Valid() && Repr() <= old(Repr())
      ensures old(M.Avl(Model())) ==> M.Avl(Model())
      ensures Contents() == old(Contents()) - {key} && (found <==> key in old(Contents()))
      ensures M.Delete(lt, old(Model()), key) == Some(M.Deleted(Model(), v, found))
    {
      AvlBalance.DeleteStep(lt, Model(), key);
      root, v, found := DeleteNode(lt, root, key);
    }

    method Find(key: K) returns (v: Option<V>)
      requires Valid()
      ensures v == if key in Contents() then Some(Contents()[key]) else None
    {
      AvlMap.FindIsLookup(lt, Model(), key);
      v := FindNode(lt, root, key);
    }

    /** Visits the pairs in ascending key order until the visitor returns false. */
    method Each<A>(f: (A, K, V) -> (A, bool), start: A) returns (res: A)
      requires Valid()
      ensures res == Walk(f, M.Items(Model()), start).0
      ensures Sorted(lt, M.Items(Model())) && AsMap(lt, M.Items(Model())) == Contents()
    {
      var more;
      res, more := EachNode(root, f, start);
    }

    method RootKeyValue() returns (kv: Option<(K, V)>)
      requires Valid()
      ensures kv.None? <==> Contents() == map[]
      ensures kv.Some? ==> kv.value.0 in Contents() && Contents()[kv.value.0] == kv.value.1
      ensures kv.Some? ==> root != null && kv.value == (root.key, root.val)
    {
      AsMapMembers(lt, M.Items(Model()));
      if root == null {
        return None;
      }
      assert (root.key, root.val) in [(root.key, root.val)] + M.Items(ModelOf(root.right));
      assert (root.key, root.val) in M.Items(Model());
      kv := Some((root.key, root.val));
    }

    method Length() returns (len: nat)
      requires Valid()
      ensures len == |Contents().Keys|
    {
      AvlMap.SizeIsCardinality(lt, Model());
      len := LengthOf(root);
    }

    method Clear()
      requires Valid()
      modifies this
      ensures Valid() && M.Avl(Model()) && Contents() == map[]
    {
      root := null;
    }

    method Empty() returns (empty: bool)
      requires Valid()
      ensures empty <==> Contents() == map[]
    {
      AsMapMembers(lt, M.Items(Model()));
      if root != null {
        assert (root.key, root.val) in [(root.key, root.val)] + M.Items(ModelOf(root.right));
        assert (root.key, root.val) in M.Items(Model());
      }
      empty := root == null;
    }

    /** An independent copy: the same map, in nodes of its own. */
    method Clone() returns (t: Tree<K, V>)
      requires Valid()
      ensures t.Valid() && fresh(t.Repr()) && t.Contents() == Contents()
      ensures t.Model() == M.Clone(Model())
    {
      hide M.Clone, M.Items, AsMap;
      AvlMap.CloneItems(Model());
      t := new Tree(lt);
      var c := CloneNode(root);
      t.root := c;
    }
  }
}
