/**
 Trees whose stored heights are not exact. A clone is one: the copying code writes no heights, so
 they all read zero. Such a tree still reads and deletes correctly, but an insertion can make a
 rotation dereference a missing child.
 */
module AvlPanics {
  import opened Wrappers
  import opened Order
  import opened SortedPairs
  import opened AvlModel
  import opened AvlMap

  ghost predicate NonNegative<K, V>(t: Tree<K, V>) {
    t.Node? ==> t.height >= 0 && NonNegative(t.left) && NonNegative(t.right)
  }

  /** Stored heights are not negative and a leaf never claims more than one level. */
  ghost predicate LowLeaves<K, V>(t: Tree<K, V>) {
    t.Node? ==>
      && t.height >= 0 && LowLeaves(t.left) && LowLeaves(t.right)
      && (t.left.Nil? && t.right.Nil? ==> t.height <= 1)
  }

  lemma {:induction false} CloneHasLowLeaves<K, V>(t: Tree<K, V>)
    ensures LowLeaves(Clone(t))
  {
    if t.Node? {
      CloneHasLowLeaves(t.left);
      CloneHasLowLeaves(t.right);
    }
  }

  lemma JoinLowLeaves<K, V>(t: Tree<K, V>)
    requires t.Node? && LowLeaves(t.left) && LowLeaves(t.right)
    ensures LowLeaves(Join(t.left, t.key, t.val, t.right))
  {
  }

  lemma RotateLowLeaves<K, V>(t: Tree<K, V>)
    requires t.Node? && LowLeaves(t.left) && LowLeaves(t.right)
    ensures RotateRight(t).Some? ==> LowLeaves(RotateRight(t).value)
    ensures RotateLeft(t).Some? ==> LowLeaves(RotateLeft(t).value)
  {
    if t.left.Node? {
      JoinLowLeaves(t.(left := t.left.right));
    }
    if t.right.Node? {
      JoinLowLeaves(t.(right := t.right.left));
    }
  }

  lemma DoubleRotateLowLeaves<K, V>(t: Tree<K, V>)
    requires t.Node? && LowLeaves(t.left) && LowLeaves(t.right)
    ensures t.left.Node? && RotateLeftRight(t).Some? ==> LowLeaves(RotateLeftRight(t).value)
    ensures t.right.Node? && RotateRightLeft(t).Some? ==> LowLeaves(RotateRightLeft(t).value)
  {
    if t.left.Node? && RotateLeft(t.left).Some? {
      RotateLowLeaves(t.left);
      RotateLowLeaves(t.(left := RotateLeft(t.left).value));
    }
    if t.right.Node? && RotateRight(t.right).Some? {
      RotateLowLeaves(t.right);
      RotateLowLeaves(t.(right := RotateRight(t.right).value));
    }
  }

  lemma FixDeleteLowLeaves<K, V>(t: Tree<K, V>)
    requires t.Node? && LowLeaves(t.left) && LowLeaves(t.right)
    ensures var f := FixDelete(Join(t.left, t.key, t.val, t.right));
      f.Some? && LowLeaves(f.value)
  {
    var j := Join(t.left, t.key, t.val, t.right);
    JoinLowLeaves(t);
    RotateLowLeaves(j);
    DoubleRotateLowLeaves(j);
  }

  /** On such a tree, clones included, no deletion panics, and deleting keeps it so. */
  lemma {:induction false} DeleteNeverPanics<K(!new), V(!new)>(lt: (K, K) -> bool, t: Tree<K, V>, key: K)
    requires StrictTotal(lt) && Search(lt, t) && LowLeaves(t)
    ensures Delete(lt, t, key).Some? && LowLeaves(Delete(lt, t, key).value.tree)
  {
    if t.Node? {
      SearchParts(lt, t);
      if lt(key, t.key) {
        DeleteNeverPanics(lt, t.left, key);
        FixDeleteLowLeaves(t.(left := Delete(lt, t.left, key).value.tree));
      } else if lt(t.key, key) {
        DeleteNeverPanics(lt, t.right, key);
        FixDeleteLowLeaves(t.(right := Delete(lt, t.right, key).value.tree));
      } else if t.left.Nil? && t.right.Nil? {
      } else if t.left.Nil? {
        FixDeleteLowLeaves(t.right);
      } else if t.right.Nil? {
        FixDeleteLowLeaves(t.left);
      } else {
        var next := Leftmost(t.right);
        DeleteNeverPanics(lt, t.right, next.key);
        FixDeleteLowLeaves(Node(t.left, next.key, next.val, Delete(lt, t.right, next.key).value.tree, t.height));
      }
      if !Delete(lt, t, key).value.found {
        NotFoundLeavesTree(lt, t, key);
      }
    }
  }

  /**
   The guard that fails. Somewhere on the way down the subtree the key does not enter outweighs the
   one it enters by two levels or more, and lacks the inner child the double rotation needs.
   */
  ghost predicate HollowSibling<K(!new), V>(lt: (K, K) -> bool, t: Tree<K, V>, key: K, val: V) {
    t.Node? &&
    if lt(key, t.key) then
      || HollowSibling(lt, t.left, key, val)
      || (var l := Insert(lt, t.left, key, val);
        l.Some? && t.right.Node? && t.right.left.Nil? && Height(t.right) >= Height(l.value) + 2)
    else if lt(t.key, key) then
      || HollowSibling(lt, t.right, key, val)
      || (var r := Insert(lt, t.right, key, val);
        r.Some? && t.left.Node? && t.left.right.Nil? && Height(t.left) >= Height(r.value) + 2)
    else false
  }

  lemma RotateNonNegative<K, V>(t: Tree<K, V>)
    requires t.Node? && NonNegative(t.left) && NonNegative(t.right)
    ensures RotateRight(t).Some? ==> NonNegative(RotateRight(t).value)
    ensures RotateLeft(t).Some? ==> NonNegative(RotateLeft(t).value)
  {
  }

  lemma DoubleRotateNonNegative<K, V>(t: Tree<K, V>)
    requires t.Node? && NonNegative(t.left) && NonNegative(t.right)
    ensures t.left.Node? && RotateLeftRight(t).Some? ==> NonNegative(RotateLeftRight(t).value)
    ensures t.right.Node? && RotateRightLeft(t).Some? ==> NonNegative(RotateRightLeft(t).value)
  {
    if t.left.Node? && RotateLeft(t.left).Some? {
      RotateNonNegative(t.left);
      RotateNonNegative(t.(left := RotateLeft(t.left).value));
    }
    if t.right.Node? && RotateRight(t.right).Some? {
      RotateNonNegative(t.right);
      RotateNonNegative(t.(right := RotateRight(t.right).value));
    }
  }

  lemma FixInsertNonNegative<K(!new), V>(lt: (K, K) -> bool, t: Tree<K, V>, key: K)
    requires t.Node? && NonNegative(t) && FixInsert(lt, t, key).Some?
    ensures NonNegative(FixInsert(lt, t, key).value) && FixInsert(lt, t, key).value.Node?
  {
    RotateNonNegative(t);
    DoubleRotateNonNegative(t);
  }

  lemma {:induction false} InsertNonNegative<K(!new), V>(lt: (K, K) -> bool, t: Tree<K, V>, key: K, val: V)
    requires NonNegative(t) && Insert(lt, t, key, val).Some?
    ensures NonNegative(Insert(lt, t, key, val).value) && Insert(lt, t, key, val).value.Node?
  {
    if t.Node? {
      if lt(key, t.key) {
        InsertNonNegative(lt, t.left, key, val);
        FixInsertNonNegative(lt, Join(Insert(lt, t.left, key, val).value, t.key, t.val, t.right), key);
      } else if lt(t.key, key) {
        InsertNonNegative(lt, t.right, key, val);
        FixInsertNonNegative(lt, Join(t.left, t.key, t.val, Insert(lt, t.right, key, val).value), key);
      }
    }
  }

  lemma FixInsertLowLeaves<K(!new), V>(lt: (K, K) -> bool, t: Tree<K, V>, key: K)
    requires t.Node? && LowLeaves(t) && FixInsert(lt, t, key).Some?
    ensures LowLeaves(FixInsert(lt, t, key).value)
  {
    RotateLowLeaves(t);
    DoubleRotateLowLeaves(t);
  }

  /** An insertion that does not panic keeps the condition under which deletions never panic. */
  lemma {:induction false} InsertKeepsLowLeaves<K(!new), V>(lt: (K, K) -> bool, t: Tree<K, V>, key: K, val: V)
    requires LowLeaves(t) && Insert(lt, t, key, val).Some?
    ensures LowLeaves(Insert(lt, t, key, val).value)
  {
    if t.Node? {
      if lt(key, t.key) {
        InsertKeepsLowLeaves(lt, t.left, key, val);
        JoinLowLeaves(t.(left := Insert(lt, t.left, key, val).value));
        FixInsertLowLeaves(lt, Join(Insert(lt, t.left, key, val).value, t.key, t.val, t.right), key);
      } else if lt(t.key, key) {
        InsertKeepsLowLeaves(lt, t.right, key, val);
        JoinLowLeaves(t.(right := Insert(lt, t.right, key, val).value));
        FixInsertLowLeaves(lt, Join(t.left, t.key, t.val, Insert(lt, t.right, key, val).value), key);
      }
    }
  }

  /** In a search tree that holds `key`, a child exists on the side `key` lies. */
  lemma KeyLeadsToChild<K(!new), V(!new)>(lt: (K, K) -> bool, t: Tree<K, V>, key: K, val: V)
    requires StrictTotal(lt) && Search(lt, t) && t.Node? && (key, val) in Items(t)
    ensures lt(key, t.key) ==> t.left.Node?
    ensures lt(t.key, key) ==> t.right.Node?
  {
    SearchParts(lt, t);
    assert Items(t) == Items(t.left) + [(t.key, t.val)] + Items(t.right);
  }

  lemma InsertedIsThere<K(!new), V(!new)>(lt: (K, K) -> bool, t: Tree<K, V>, key: K, val: V)
    requires StrictTotal(lt) && Search(lt, t) && Insert(lt, t, key, val).Some?
    ensures var r := Insert(lt, t, key, val).value; Search(lt, r) && (key, val) in Items(r)
  {
    InsertItems(lt, t, key, val);
    PutIsUpdate(lt, Items(t), key, val);
  }

  /** Exactly when an insertion panics: on any search tree whose stored heights are not negative. */
  lemma {:induction false} InsertPanicsExactly<K(!new), V(!new)>(lt: (K, K) -> bool, t: Tree<K, V>, key: K, val: V)
    requires StrictTotal(lt) && Search(lt, t) && NonNegative(t)
    ensures Insert(lt, t, key, val).None? <==> HollowSibling(lt, t, key, val)
  {
    if t.Node? {
      SearchParts(lt, t);
      if lt(key, t.key) {
        InsertPanicsExactly(lt, t.left, key, val);
        var l := Insert(lt, t.left, key, val);
        if l.Some? {
          InsertNonNegative(lt, t.left, key, val);
          InsertedIsThere(lt, t.left, key, val);
          KeyLeadsToChild(lt, l.value, key, val);
          LeftFixPanics(lt, t, l.value, key);
        }
      } else if lt(t.key, key) {
        InsertPanicsExactly(lt, t.right, key, val);
        var r := Insert(lt, t.right, key, val);
        if r.Some? {
          InsertNonNegative(lt, t.right, key, val);
          InsertedIsThere(lt, t.right, key, val);
          KeyLeadsToChild(lt, r.value, key, val);
          RightFixPanics(lt, t, r.value, key);
        }
      }
    }
  }

  lemma LeftFixPanics<K(!new), V(!new)>(lt: (K, K) -> bool, t: Tree<K, V>, l: Tree<K, V>, key: K)
    requires StrictTotal(lt) && t.Node? && Search(lt, t) && lt(key, t.key) && NonNegative(t)
    requires l.Node? && l.height >= 0 && (lt(l.key, key) ==> l.right.Node?)
    ensures FixInsert(lt, Join(l, t.key, t.val, t.right), key).None? <==>
      t.right.Node? && t.right.left.Nil? && Height(t.right) >= Height(l) + 2
  {
    SearchParts(lt, t);
    if t.right.Node? {
      assert (t.right.key, t.right.val) in Items(t.right);
    }
  }

  lemma RightFixPanics<K(!new), V(!new)>(lt: (K, K) -> bool, t: Tree<K, V>, r: Tree<K, V>, key: K)
    requires StrictTotal(lt) && t.Node? && Search(lt, t) && lt(t.key, key) && NonNegative(t)
    requires r.Node? && r.height >= 0 && (lt(key, r.key) ==> r.left.Node?)
    ensures FixInsert(lt, Join(t.left, t.key, t.val, r), key).None? <==>
      t.left.Node? && t.left.right.Nil? && Height(t.left) >= Height(r) + 2
  {
    SearchParts(lt, t);
    if t.left.Node? {
      assert (t.left.key, t.left.val) in Items(t.left);
    }
  }

  lemma {:induction false} FlatHasNoHollowSibling<K(!new), V>(lt: (K, K) -> bool, t: Tree<K, V>, key: K, val: V)
    requires NonNegative(Clone(t))
    ensures !HollowSibling(lt, Clone(t), key, val)
  {
    if t.Node? {
      FlatHasNoHollowSibling(lt, t.left, key, val);
      FlatHasNoHollowSibling(lt, t.right, key, val);
      if lt(key, t.key) && Insert(lt, Clone(t.left), key, val).Some? {
        InsertNonNegative(lt, Clone(t.left), key, val);
      } else if lt(t.key, key) && Insert(lt, Clone(t.right), key, val).Some? {
        InsertNonNegative(lt, Clone(t.right), key, val);
      }
    }
  }

  lemma {:induction false} CloneIsNonNegative<K, V>(t: Tree<K, V>)
    ensures NonNegative(Clone(t))
  {
    if t.Node? {
      CloneIsNonNegative(t.left);
      CloneIsNonNegative(t.right);
    }
  }

  /** A fresh clone always takes one insertion. */
  lemma CloneTakesOneInsertion<K(!new), V(!new)>(lt: (K, K) -> bool, t: Tree<K, V>, key: K, val: V)
    requires StrictTotal(lt) && Search(lt, t)
    ensures Insert(lt, Clone(t), key, val).Some?
  {
    CloneItems(t);
    CloneIsNonNegative(t);
    FlatHasNoHollowSibling(lt, t, key, val);
    InsertPanicsExactly(lt, Clone(t), key, val);
  }

  predicate IntLt(a: int, b: int) { a < b }

  function Leaf(key: int, height: int): Tree<int, int> { Node(Nil, key, 0, Nil, height) }

  /** Seven keys in AVL shape with exact heights. */
  function SevenKeys(): Tree<int, int> {
    Node(Node(Nil, 1, 0, Leaf(3, 1), 2), 5, 0, Node(Node(Leaf(7, 1), 9, 0, Nil, 2), 11, 0, Leaf(13, 1), 3), 4)
  }

  /** Six on the way up: the subtrees of keys 7, 9 and 11 after the insertion. */
  function SixBelowSeven(): Tree<int, int> { Node(Leaf(6, 1), 7, 0, Nil, 2) }

  function SixBelowNine(): Tree<int, int> { Node(Leaf(6, 1), 7, 0, Leaf(9, 1), 2) }

  function SixBelowEleven(): Tree<int, int> {
    Node(Leaf(6, 1), 7, 0, Node(Leaf(9, 1), 11, 0, Leaf(13, 0), 2), 3)
  }

  function OneAndThree(): Tree<int, int> { Node(Nil, 1, 0, Leaf(3, 0), 0) }

  /**
   The clone of SevenKeys once key 6 has been inserted: the subtree of 7 claims three levels and has no left
   child.
   */
  function SevenKeysCloneWithSix(): Tree<int, int> {
    Node(Node(OneAndThree(), 5, 0, Nil, 1), 6, 0,
      Node(Nil, 7, 0, Node(Leaf(9, 1), 11, 0, Leaf(13, 0), 2), 3), 4)
  }

  lemma SixGoesIn()
    ensures Insert(IntLt, Clone(SevenKeys()), 6, 0) == Some(SevenKeysCloneWithSix())
  {
    assert Insert(IntLt, Leaf(7, 0), 6, 0) == Some(SixBelowSeven());
    var nine := Node(Leaf(7, 0), 9, 0, Nil, 0);
    assert Insert(IntLt, nine, 6, 0) == Some(SixBelowNine());
    var eleven := Node(nine, 11, 0, Leaf(13, 0), 0);
    assert Insert(IntLt, eleven, 6, 0) == Some(SixBelowEleven());
    assert Clone(SevenKeys()) == Node(OneAndThree(), 5, 0, eleven, 0) by {
      assert Clone(SevenKeys().left) == OneAndThree();
      assert Clone(SevenKeys().right.left) == nine;
    }
  }

  lemma OneDoesNot()
    ensures Insert(IntLt, SevenKeysCloneWithSix(), 1, 0) == None
  {
    assert Insert(IntLt, OneAndThree(), 1, 0) == Some(OneAndThree());
    assert Insert(IntLt, SevenKeysCloneWithSix().left, 1, 0) == Some(SevenKeysCloneWithSix().left);
  }

  lemma SevenKeysIsSearch()
    ensures Search(IntLt, SevenKeys())
  {
    var l, r := SevenKeys().left, SevenKeys().right;
    assert Items(l) == [(1, 0), (3, 0)];
    assert Items(r.left) == [(7, 0), (9, 0)];
    assert Items(r) == [(7, 0), (9, 0), (11, 0), (13, 0)];
    assert Items(SevenKeys()) == [(1, 0), (3, 0), (5, 0), (7, 0), (9, 0), (11, 0), (13, 0)];
  }

  lemma LeftIsAvl(t: Tree<int, int>)
    requires t == SevenKeys().left
    ensures Avl(t)
  {
    assert Avl(t.right);
  }

  lemma RightIsAvl(t: Tree<int, int>)
    requires t == SevenKeys().right
    ensures Avl(t)
  {
    hide Avl;
    NilAndLeavesAvl();
    NodeIsAvl(Leaf(7, 1), 9, Nil, 2);
    NodeIsAvl(t.left, 11, Leaf(13, 1), 3);
  }

  lemma NilAndLeavesAvl()
    ensures Avl<int, int>(Nil) && forall k :: Avl(Leaf(k, 1))
  {
  }

  lemma NodeIsAvl(l: Tree<int, int>, k: int, r: Tree<int, int>, h: int)
    requires Avl(l) && Avl(r) && h == 1 + Max(Height(l), Height(r)) && -1 <= Height(l) - Height(r) <= 1
    ensures Avl(Node(l, k, 0, r, h))
  {
  }

  lemma AvlJoin(l: Tree<int, int>, key: int, r: Tree<int, int>) returns (t: Tree<int, int>)
    requires Avl(l) && Avl(r) && -1 <= Height(l) - Height(r) <= 1
    ensures t == Join(l, key, 0, r) && Avl(t)
  {
    t := Join(l, key, 0, r);
  }

  lemma SevenKeysIsAvl() returns (t: Tree<int, int>)
    ensures t == SevenKeys() && Avl(t)
  {
    LeftIsAvl(SevenKeys().left);
    RightIsAvl(SevenKeys().right);
    t := AvlJoin(SevenKeys().left, 5, SevenKeys().right);
  }

  /** But not two: on the clone of a seven-key AVL tree, inserting 6 succeeds and writing key 1 again panics. */
  lemma CloneCanPanic() returns (t: Tree<int, int>)
    ensures Avl(t) && Search(IntLt, t)
    ensures var once := Insert(IntLt, Clone(t), 6, 0);
      once.Some? && Insert(IntLt, once.value, 1, 0).None?
  {
    t := SevenKeysIsAvl();
    SevenKeysIsSearch();
    SixGoesIn();
    OneDoesNot();
  }
}
