/** The tree refines a finite map, whatever its stored heights, as long as no rotation panics. */
module AvlMap {
  import opened Wrappers
  import opened Seqs
  import opened Order
  import opened SortedPairs
  import opened AvlModel

  lemma InsertOnRight<T>(a: seq<T>, x: seq<T>, b: seq<T>, y: seq<T>, c: seq<T>)
    ensures a + (x + ((b + y) + c)) == ((a + (x + b)) + y) + c
  {
    Assoc(b, y, c);
    Assoc(x, b, y + c);
    Assoc(a, x + b, y + c);
    Assoc(a + (x + b), y, c);
  }

  lemma RotateRightItems<K(!new), V(!new)>(t: Tree<K, V>)
    requires t.Node? && t.left.Node?
    ensures Items(RotateRight(t).value) == Items(t)
  {
    var a, b, c := Items(t.left.left), Items(t.left.right), Items(t.right);
    var x, y := [(t.left.key, t.left.val)], [(t.key, t.val)];
    Assoc(a, x + b, y + c);
    Assoc(x, b, y + c);
  }

  lemma RotateLeftItems<K(!new), V(!new)>(t: Tree<K, V>)
    requires t.Node? && t.right.Node?
    ensures Items(RotateLeft(t).value) == Items(t)
  {
    var a, b, c := Items(t.left), Items(t.right.left), Items(t.right.right);
    var x, y := [(t.key, t.val)], [(t.right.key, t.right.val)];
    Assoc(a, x + b, y + c);
    Assoc(x, b, y + c);
  }

  lemma RotateLeftRightItems<K(!new), V(!new)>(t: Tree<K, V>)
    requires t.Node? && t.left.Node? && RotateLeftRight(t).Some?
    ensures Items(RotateLeftRight(t).value) == Items(t)
  {
    RotateLeftItems(t.left);
    RotateRightItems(t.(left := RotateLeft(t.left).value));
  }

  lemma RotateRightLeftItems<K(!new), V(!new)>(t: Tree<K, V>)
    requires t.Node? && t.right.Node? && RotateRightLeft(t).Some?
    ensures Items(RotateRightLeft(t).value) == Items(t)
  {
    RotateRightItems(t.right);
    RotateLeftItems(t.(right := RotateRight(t.right).value));
  }

  lemma FixInsertItems<K(!new), V(!new)>(lt: (K, K) -> bool, t: Tree<K, V>, key: K)
    requires t.Node? && FixInsert(lt, t, key).Some?
    ensures Items(FixInsert(lt, t, key).value) == Items(t)
  {
    var r := FixInsert(lt, t, key);
    if t.left.Node? {
      if r == RotateRight(t) { RotateRightItems(t); }
      if r == RotateLeftRight(t) { RotateLeftRightItems(t); }
    }
    if t.right.Node? {
      if r == RotateLeft(t) { RotateLeftItems(t); }
      if r == RotateRightLeft(t) { RotateRightLeftItems(t); }
    }
  }

  lemma FixDeleteItems<K(!new), V(!new)>(t: Tree<K, V>)
    requires t.Node? && FixDelete(t).Some?
    ensures Items(FixDelete(t).value) == Items(t)
  {
    var r := FixDelete(t);
    if t.left.Node? {
      if r == RotateRight(t) { RotateRightItems(t); }
      if r == RotateLeftRight(t) { RotateLeftRightItems(t); }
    }
    if t.right.Node? {
      if r == RotateLeft(t) { RotateLeftItems(t); }
      if r == RotateRightLeft(t) { RotateRightLeftItems(t); }
    }
  }

  lemma SearchParts<K(!new), V(!new)>(lt: (K, K) -> bool, t: Tree<K, V>)
    requires t.Node? && Search(lt, t)
    ensures Search(lt, t.left) && Search(lt, t.right)
    ensures forall p :: p in Items(t.left) ==> lt(p.0, t.key)
    ensures forall p :: p in Items(t.right) ==> lt(t.key, p.0)
  {
    SortedParts(lt, Items(t.left), [(t.key, t.val)] + Items(t.right));
    SortedParts(lt, [(t.key, t.val)], Items(t.right));
    assert (t.key, t.val) in [(t.key, t.val)];
    assert (t.key, t.val) in [(t.key, t.val)] + Items(t.right);
  }

  /** Whatever the stored heights, an insertion that does not panic is a map update. */
  lemma {:induction false} InsertItems<K(!new), V(!new)>(lt: (K, K) -> bool, t: Tree<K, V>, key: K, val: V)
    requires StrictTotal(lt) && Search(lt, t) && Insert(lt, t, key, val).Some?
    ensures Items(Insert(lt, t, key, val).value) == Put(lt, Items(t), key, val)
  {
    if t.Node? {
      SearchParts(lt, t);
      var a, x, b := Items(t.left), (t.key, t.val), Items(t.right);
      if lt(key, t.key) {
        InsertItems(lt, t.left, key, val);
        var l := Insert(lt, t.left, key, val).value;
        FixInsertItems(lt, Join(l, t.key, t.val, t.right), key);
        SplitLeft(lt, a, x, b, key);
        Assoc(Below(lt, a, key) + [(key, val)], Above(lt, a, key), [x] + b);
      } else if lt(t.key, key) {
        InsertItems(lt, t.right, key, val);
        var r := Insert(lt, t.right, key, val).value;
        FixInsertItems(lt, Join(t.left, t.key, t.val, r), key);
        SplitRight(lt, a, x, b, key);
        InsertOnRight(a, [x], Below(lt, b, key), [(key, val)], Above(lt, b, key));
      } else {
        SplitHere(lt, a, x, b);
        Assoc(a, [(key, val)], b);
      }
    }
  }

  lemma {:induction false} LeftmostIsFirst<K(!new), V(!new)>(t: Tree<K, V>)
    requires t.Node?
    ensures Items(t) != [] && Items(t)[0] == (Leftmost(t).key, Leftmost(t).val)
  {
    if t.left.Node? {
      LeftmostIsFirst(t.left);
    }
  }

  lemma FinishDeleteItems<K(!new), V(!new)>(t: Tree<K, V>, popped: Option<V>, found: bool)
    requires t.Node? && FinishDelete(t, popped, found).Some?
    ensures var d := FinishDelete(t, popped, found).value;
      Items(d.tree) == Items(t) && d.popped == popped && d.found == found
  {
    if found {
      FixDeleteItems(Join(t.left, t.key, t.val, t.right));
    }
  }

  /** Whatever the stored heights, a deletion that does not panic removes the key and says whether it was there. */
  lemma {:induction false} DeleteItems<K(!new), V(!new)>(lt: (K, K) -> bool, t: Tree<K, V>, key: K)
    requires StrictTotal(lt) && Search(lt, t) && Delete(lt, t, key).Some?
    ensures Items(Delete(lt, t, key).value.tree) == Remove(lt, Items(t), key)
    ensures Delete(lt, t, key).value.found <==> exists p :: p in Items(t) && p.0 == key
    decreases t
  {
    if t.Node? {
      SearchParts(lt, t);
      var a, x, b := Items(t.left), (t.key, t.val), Items(t.right);
      assert forall p :: p in Items(t) <==> p in a || p == x || p in b;
      if lt(key, t.key) {
        DeleteItems(lt, t.left, key);
        SplitLeft(lt, a, x, b, key);
        var d := Delete(lt, t.left, key).value;
        FinishDeleteItems(t.(left := d.tree), d.popped, d.found);
        Assoc(Below(lt, a, key), Above(lt, a, key), [x] + b);
      } else if lt(t.key, key) {
        DeleteItems(lt, t.right, key);
        SplitRight(lt, a, x, b, key);
        var d := Delete(lt, t.right, key).value;
        FinishDeleteItems(t.(right := d.tree), d.popped, d.found);
        InsertOnRight(a, [x], Below(lt, b, key), [], Above(lt, b, key));
        assert Below(lt, b, key) + [] == Below(lt, b, key);
        assert (a + ([x] + Below(lt, b, key))) + [] == a + ([x] + Below(lt, b, key));
      } else {
        assert x in Items(t) && x.0 == key;
        SplitHere(lt, a, x, b);
        DeleteHereItems(lt, t);
      }
    }
  }

  lemma {:induction false} DeleteHereItems<K(!new), V(!new)>(lt: (K, K) -> bool, t: Tree<K, V>)
    requires StrictTotal(lt) && Search(lt, t) && t.Node? && Delete(lt, t, t.key).Some?
    ensures Items(Delete(lt, t, t.key).value.tree) == Items(t.left) + Items(t.right)
    ensures Delete(lt, t, t.key).value.found
    decreases t, 0
  {
    SearchParts(lt, t);
    if t.left.Nil? && t.right.Nil? {
    } else if t.left.Nil? {
      FinishDeleteItems(t.right, Some(t.val), true);
    } else if t.right.Nil? {
      FinishDeleteItems(t.left, Some(t.val), true);
    } else {
      var next, b := Leftmost(t.right), Items(t.right);
      LeftmostIsFirst(t.right);
      DeleteItems(lt, t.right, next.key);
      assert b == [] + ([(next.key, next.val)] + b[1..]);
      SplitHere(lt, [], (next.key, next.val), b[1..]);
      assert b[0] in b;
      var d := Delete(lt, t.right, next.key).value;
      FinishDeleteItems(t.(key := next.key, val := next.val, right := d.tree), d.popped, d.found);
      assert [] + b[1..] == b[1..];
      assert [(next.key, next.val)] + b[1..] == b;
    }
  }

  /** A deletion that finds nothing leaves the tree alone. */
  lemma {:induction false} NotFoundLeavesTree<K(!new), V(!new)>(lt: (K, K) -> bool, t: Tree<K, V>, key: K)
    requires StrictTotal(lt) && Search(lt, t) && Delete(lt, t, key).Some? && !Delete(lt, t, key).value.found
    ensures Delete(lt, t, key).value.tree == t
  {
    if t.Node? {
      SearchParts(lt, t);
      if lt(key, t.key) {
        NotFoundLeavesTree(lt, t.left, key);
      } else if lt(t.key, key) {
        NotFoundLeavesTree(lt, t.right, key);
      } else {
        DeleteHereItems(lt, t);
      }
    }
  }

  /**
   The value that Pop returns. The code lets the deletion of the in-order successor overwrite it,
   so a node with two children pops its successor's value.
   */
  lemma {:induction false} PopReturns<K(!new), V(!new)>(lt: (K, K) -> bool, t: Tree<K, V>, key: K)
    requires StrictTotal(lt) && Search(lt, t) && Delete(lt, t, key).Some?
    ensures Delete(lt, t, key).value.popped ==
      if Locate(lt, t, key).Nil? then None
      else if Locate(lt, t, key).left.Node? && Locate(lt, t, key).right.Node? then
        Some(Leftmost(Locate(lt, t, key).right).val)
      else Some(Locate(lt, t, key).val)
    decreases t
  {
    if t.Node? {
      SearchParts(lt, t);
      if lt(key, t.key) {
        PopReturns(lt, t.left, key);
      } else if lt(t.key, key) {
        PopReturns(lt, t.right, key);
      } else if t.left.Node? && t.right.Node? {
        PopReturns(lt, t.right, Leftmost(t.right).key);
        LocateLeftmost(lt, t.right);
      }
    }
  }

  /** The subtree whose root holds `key`. */
  function Locate<K(!new), V>(lt: (K, K) -> bool, t: Tree<K, V>, key: K): Tree<K, V> {
    if t.Nil? then Nil
    else if lt(key, t.key) then Locate(lt, t.left, key)
    else if lt(t.key, key) then Locate(lt, t.right, key)
    else t
  }

  lemma {:induction false} LocateLeftmost<K(!new), V(!new)>(lt: (K, K) -> bool, t: Tree<K, V>)
    requires StrictTotal(lt) && Search(lt, t) && t.Node?
    ensures Locate(lt, t, Leftmost(t).key) == Leftmost(t) && Leftmost(t).left.Nil?
  {
    if t.left.Node? {
      SearchParts(lt, t);
      LeftmostIsFirst(t.left);
      assert Items(t.left)[0] in Items(t.left);
      LocateLeftmost(lt, t.left);
    }
  }

  /** Find answers from the map. */
  lemma {:induction false} FindIsLookup<K(!new), V(!new)>(lt: (K, K) -> bool, t: Tree<K, V>, key: K)
    requires StrictTotal(lt) && Search(lt, t)
    ensures Find(lt, t, key) ==
      if key in AsMap(lt, Items(t)) then Some(AsMap(lt, Items(t))[key]) else None
  {
    AsMapMembers(lt, Items(t));
    if t.Node? {
      SearchParts(lt, t);
      var a, x, b := Items(t.left), (t.key, t.val), Items(t.right);
      AsMapMembers(lt, a);
      AsMapMembers(lt, b);
      FindIsLookup(lt, t.left, key);
      FindIsLookup(lt, t.right, key);
      assert forall p :: p in Items(t) <==> p in a || p == x || p in b;
      if key in AsMap(lt, Items(t)) { assert (key, AsMap(lt, Items(t))[key]) in Items(t); }
      if key in AsMap(lt, a) { assert (key, AsMap(lt, a)[key]) in a; }
      if key in AsMap(lt, b) { assert (key, AsMap(lt, b)[key]) in b; }
      if !lt(key, t.key) && !lt(t.key, key) { assert x in Items(t); }
    }
  }

  /** The node count is the number of keys. */
  lemma SizeIsCardinality<K(!new), V(!new)>(lt: (K, K) -> bool, t: Tree<K, V>)
    requires StrictTotal(lt) && Search(lt, t)
    ensures Size(t) == |AsMap(lt, Items(t)).Keys|
  {
    SizeIsLength(t);
    AsMapSize(lt, Items(t));
  }

  lemma {:induction false} SizeIsLength<K, V>(t: Tree<K, V>)
    ensures Size(t) == |Items(t)|
  {
    if t.Node? {
      SizeIsLength(t.left);
      SizeIsLength(t.right);
    }
  }

  lemma {:induction false} CloneItems<K(!new), V(!new)>(t: Tree<K, V>)
    ensures Items(Clone(t)) == Items(t)
  {
    if t.Node? {
      CloneItems(t.left);
      CloneItems(t.right);
    }
  }

  /** On any search tree, whatever its heights, an insertion that does not panic is the map's update. */
  lemma InsertRefinesMap<K(!new), V(!new)>(lt: (K, K) -> bool, t: Tree<K, V>, key: K, val: V)
    requires StrictTotal(lt) && Search(lt, t) && Insert(lt, t, key, val).Some?
    ensures var r := Insert(lt, t, key, val).value;
      Search(lt, r) && AsMap(lt, Items(r)) == AsMap(lt, Items(t))[key := val]
  {
    InsertItems(lt, t, key, val);
    PutIsUpdate(lt, Items(t), key, val);
  }

  /** Likewise a deletion is the map's removal, and its flag says whether the key was there. */
  lemma DeleteRefinesMap<K(!new), V(!new)>(lt: (K, K) -> bool, t: Tree<K, V>, key: K)
    requires StrictTotal(lt) && Search(lt, t) && Delete(lt, t, key).Some?
    ensures var d := Delete(lt, t, key).value;
      && Search(lt, d.tree) && AsMap(lt, Items(d.tree)) == AsMap(lt, Items(t)) - {key}
      && (d.found <==> key in AsMap(lt, Items(t)))
  {
    DeleteItems(lt, t, key);
    RemoveIsRemoval(lt, Items(t), key);
    AsMapMembers(lt, Items(t));
    if key in AsMap(lt, Items(t)) { assert (key, AsMap(lt, Items(t))[key]) in Items(t); }
  }
}
