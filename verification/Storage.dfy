/**
 Reading a page of the keys with a prefix. One store filters its whole ordered walk, the other seeks and
 stops at the first key without the prefix; both give the same page.
 */
module Storage {
  import opened Wrappers
  import opened Order
  import SortedPairs
  import AvlTree

  predicate HasPrefix(key: string, prefix: string) { prefix <= key }

  /** The pairs whose key has the prefix, in order. */
  function WithPrefix<V>(s: seq<(string, V)>, prefix: string): seq<(string, V)> {
    if s == [] then []
    else (if HasPrefix(s[0].0, prefix) then [s[0]] else []) + WithPrefix(s[1..], prefix)
  }

  function Least(a: nat, b: nat): nat { if a <= b then a else b }

  /** At most `limit` elements after skipping `offset`. */
  function Page<T>(s: seq<T>, offset: int, limit: nat): seq<T> {
    var from := Least(if offset > 0 then offset else 0, |s|);
    s[from..Least(from + limit, |s|)]
  }

  /** The page holds what stands from the offset on, as far as limit and listing go. */
  lemma PageMeans<T>(s: seq<T>, offset: int, limit: nat)
    ensures var from := if offset > 0 then offset else 0;
      && |Page(s, offset, limit)| == (if |s| <= from then 0 else if |s| - from <= limit then |s| - from else limit)
      && forall i :: 0 <= i < |Page(s, offset, limit)| ==> Page(s, offset, limit)[i] == s[from + i]
  {
  }

  /** Exactly the pairs whose key starts with the prefix, in the order of the listing. */
  lemma {:induction false} WithPrefixMeans<V>(s: seq<(string, V)>, prefix: string)
    ensures forall p :: p in WithPrefix(s, prefix) <==> p in s && |prefix| <= |p.0| && p.0[..|prefix|] == prefix
    ensures |WithPrefix(s, prefix)| <= |s|
  {
    if s != [] {
      WithPrefixMeans(s[1..], prefix);
      assert s == [s[0]] + s[1..];
      StartsWith(s[0].0, prefix);
    }
  }

  lemma StartsWith(key: string, prefix: string)
    ensures HasPrefix(key, prefix) <==> |prefix| <= |key| && key[..|prefix|] == prefix
  {
    if |prefix| <= |key| && key[..|prefix|] == prefix {
      forall i | 0 <= i < |prefix| ensures prefix[i] == key[i] { assert key[..|prefix|][i] == key[i]; }
    }
  }

  lemma SortedFront<V(!new)>(x: (string, V), rest: seq<(string, V)>)
    requires SortedPairs.Sorted(StringLt, rest) && forall p :: p in rest ==> StringLt(x.0, p.0)
    ensures SortedPairs.Sorted(StringLt, rest) && SortedPairs.Sorted(StringLt, [x] + rest)
  {
    var s := [x] + rest;
    forall i, j | 0 <= i < j < |s| ensures StringLt(s[i].0, s[j].0) {
      assert s[j] == rest[j - 1] && rest[j - 1] in rest;
    }
  }

  lemma {:induction false} WithPrefixSorted<V(!new)>(s: seq<(string, V)>, prefix: string)
    requires SortedPairs.Sorted(StringLt, s)
    ensures SortedPairs.Sorted(StringLt, WithPrefix(s, prefix))
  {
    if s != [] {
      var rest := WithPrefix(s[1..], prefix);
      WithPrefixSorted(s[1..], prefix);
      WithPrefixMeans(s[1..], prefix);
      forall p | p in rest ensures StringLt(s[0].0, p.0) {
        var i :| 0 <= i < |s[1..]| && s[1..][i] == p;
        assert s[i + 1] == p;
      }
      SortedFront(s[0], rest);
    }
  }

  /** Consecutive pages make up the larger page. */
  lemma PagesJoin<T>(s: seq<T>, offset: nat, n: nat, m: nat)
    ensures Page(s, offset, n) + Page(s, offset + n, m) == Page(s, offset, n + m)
  {
  }

  lemma {:induction false} WithPrefixJoin<V>(a: seq<(string, V)>, b: seq<(string, V)>, prefix: string)
    ensures WithPrefix(a + b, prefix) == WithPrefix(a, prefix) + WithPrefix(b, prefix)
  {
    hide HasPrefix;
    if a == [] {
      assert a + b == b;
    } else {
      assert a + b == [a[0]] + (a[1..] + b);
      WithPrefixJoin(a[1..], b, prefix);
      WithPrefixFront(a[0], a[1..] + b, prefix);
      WithPrefixFront(a[0], a[1..], prefix);
      assert a == [a[0]] + a[1..];
    }
  }

  lemma WithPrefixFront<V>(x: (string, V), s: seq<(string, V)>, prefix: string)
    ensures WithPrefix([x] + s, prefix) ==
      if HasPrefix(x.0, prefix) then [x] + WithPrefix(s, prefix) else WithPrefix(s, prefix)
  {
    assert ([x] + s)[1..] == s;
  }

  /** A key with the prefix does not come before the prefix itself. */
  lemma {:induction false} PrefixComesFirst(key: string, prefix: string)
    requires HasPrefix(key, prefix)
    ensures !StringLt(key, prefix)
  {
    if prefix != [] {
      PrefixComesFirst(key[1..], prefix[1..]);
    }
  }

  /**
   Past a key that is not before the prefix and does not have it, no key has it: the keys with a prefix are
   contiguous.
   */
  lemma {:induction false} NoneAfter(prefix: string, a: string, b: string)
    requires !StringLt(a, prefix) && !HasPrefix(a, prefix) && StringLt(a, b)
    ensures !HasPrefix(b, prefix)
  {
    if prefix != [] && a[0] == prefix[0] == b[0] {
      assert HasPrefix(a[1..], prefix[1..]) ==> HasPrefix(a, prefix) by {
        assert prefix == [prefix[0]] + prefix[1..] && a == [a[0]] + a[1..];
      }
      NoneAfter(prefix[1..], a[1..], b[1..]);
    }
  }

  lemma {:induction false} NoneWithPrefix<V>(s: seq<(string, V)>, prefix: string)
    requires forall p :: p in s ==> !HasPrefix(p.0, prefix)
    ensures WithPrefix(s, prefix) == []
  {
    if s != [] { NoneWithPrefix(s[1..], prefix); }
  }

  lemma {:induction false} AllWithPrefix<V>(s: seq<(string, V)>, prefix: string)
    requires forall p :: p in s ==> HasPrefix(p.0, prefix)
    ensures WithPrefix(s, prefix) == s
  {
    if s != [] { AllWithPrefix(s[1..], prefix); }
  }

  /** Keys before the prefix do not have it. */
  lemma NoneBefore<V>(s: seq<(string, V)>, prefix: string, from: nat)
    requires from <= |s| && forall i :: 0 <= i < from ==> StringLt(s[i].0, prefix)
    ensures WithPrefix(s, prefix) == WithPrefix(s[from..], prefix)
  {
    var a := s[..from];
    assert s == a + s[from..];
    WithPrefixJoin(a, s[from..], prefix);
    forall p | p in a ensures !HasPrefix(p.0, prefix) {
      if HasPrefix(p.0, prefix) { PrefixComesFirst(p.0, prefix); }
    }
    NoneWithPrefix(a, prefix);
  }

  /** Nor do keys from the first one on that is not before the prefix and does not have it. */
  lemma NoneFrom<V(!new)>(s: seq<(string, V)>, prefix: string, to: nat)
    requires SortedPairs.Sorted(StringLt, s) && to <= |s|
    requires to < |s| ==> !StringLt(s[to].0, prefix) && !HasPrefix(s[to].0, prefix)
    ensures WithPrefix(s[to..], prefix) == []
  {
    var c := s[to..];
    forall p | p in c ensures !HasPrefix(p.0, prefix) {
      var i :| 0 <= i < |c| && c[i] == p;
      if i > 0 { NoneAfter(prefix, s[to].0, s[to + i].0); }
    }
    NoneWithPrefix(c, prefix);
  }

  /** The pairs from the first key not before the prefix up to the first key without it are all there are. */
  lemma Contiguous<V(!new)>(s: seq<(string, V)>, prefix: string, from: nat, to: nat)
    requires SortedPairs.Sorted(StringLt, s) && from <= to <= |s|
    requires forall i :: 0 <= i < from ==> StringLt(s[i].0, prefix)
    requires forall i :: from <= i < to ==> HasPrefix(s[i].0, prefix)
    requires to < |s| ==> !StringLt(s[to].0, prefix) && !HasPrefix(s[to].0, prefix)
    ensures WithPrefix(s, prefix) == s[from..to]
  {
    NoneBefore(s, prefix, from);
    NoneFrom(s, prefix, to);
    assert s[from..] == s[from..to] + s[to..];
    WithPrefixJoin(s[from..to], s[to..], prefix);
    AllWithPrefix(s[from..to], prefix);
  }

  /** The locals a filtering walk updates: how many matches are still to be skipped, and the page so far. */
  datatype Scan<V> = Scan(offset: int, kvs: seq<(string, V)>)

  function Visitor<V>(prefix: string, limit: nat): (Scan<V>, string, V) -> (Scan<V>, bool) {
    (acc: Scan<V>, k: string, v: V) =>
      if !HasPrefix(k, prefix) then (acc, true)
      else if acc.offset > 0 then (acc.(offset := acc.offset - 1), true)
      else if |acc.kvs| >= limit then (acc, false)
      else (acc.(kvs := acc.kvs + [(k, v)]), true)
  }

  lemma PageMoves<T>(x: T, rest: seq<T>, offset: int, limit: nat)
    ensures offset > 0 ==> Page([x] + rest, offset, limit) == Page(rest, offset - 1, limit)
    ensures offset <= 0 && limit > 0 ==> Page([x] + rest, offset, limit) == [x] + Page(rest, offset, limit - 1)
    ensures Page(rest, offset, 0) == []
  {
  }

  /** The filtering walk collects the page. */
  lemma {:induction false} WalkCollects<V(!new)>(s: seq<(string, V)>, prefix: string, limit: nat, acc: Scan<V>)
    requires |acc.kvs| <= limit
    ensures AvlTree.Walk(Visitor(prefix, limit), s, acc).0.kvs ==
      acc.kvs + Page(WithPrefix(s, prefix), acc.offset, limit - |acc.kvs|)
  {
    if s != [] {
      var (next, more) := Visitor(prefix, limit)(acc, s[0].0, s[0].1);
      var rest := WithPrefix(s[1..], prefix);
      PageMoves(s[0], rest, acc.offset, limit - |acc.kvs|);
      PageMoves(s[0], [s[0]] + rest, acc.offset, 0);
      if more {
        WalkCollects(s[1..], prefix, limit, next);
        if HasPrefix(s[0].0, prefix) && acc.offset <= 0 {
          AppendPage(acc.kvs, s[0], Page(rest, acc.offset, limit - |acc.kvs| - 1));
        } else if !HasPrefix(s[0].0, prefix) {
          assert WithPrefix(s, prefix) == rest;
        }
      }
    }
  }

  lemma AppendPage<T>(kvs: seq<T>, x: T, page: seq<T>)
    ensures kvs + [x] + page == kvs + ([x] + page)
  {
  }

  /** The in-memory store: an AVL tree by key. */
  class MemStore<V(!new)> {
    const tree: AvlTree.Tree<string, V>

    ghost predicate Valid()
      reads this, tree, tree.root, tree.Repr(), AvlTree.ReprOf(tree.root)
    {
      tree.Valid() && tree.lt == StringLt && AvlTree.M.Avl(tree.Model())
    }

    constructor ()
      ensures Valid() && tree.Contents() == map[]
    {
      StringLtIsStrictTotal();
      tree := new AvlTree.Tree(StringLt);
    }

    method Get(key: string) returns (v: Option<V>)
      requires Valid()
      ensures v == if key in tree.Contents() then Some(tree.Contents()[key]) else None
    {
      v := tree.Find(key);
    }

    method Set(key: string, value: V)
      requires Valid()
      modifies tree, AvlTree.ReprOf(tree.root)
      ensures Valid() && tree.Contents() == old(tree.Contents())[key := value]
    {
      var _ := tree.Insert(key, value);
    }

    method Delete(key: string) returns (ok: bool)
      requires Valid()
      modifies tree, AvlTree.ReprOf(tree.root)
      ensures Valid() && tree.Contents() == old(tree.Contents()) - {key} && (ok <==> key in old(tree.Contents()))
    {
      ok := tree.Delete(key);
    }

    /** Walks the whole tree, keeping what matches. */
    method GetPrefix(prefix: string, offset: int, limit: int) returns (kvs: seq<(string, V)>)
      requires Valid()
      ensures kvs == Page(WithPrefix(AvlTree.M.Items(tree.Model()), prefix), offset, if limit > 0 then limit else 0)
    {
      var most := if limit > 0 then limit else 0;
      WalkCollects(AvlTree.M.Items(tree.Model()), prefix, most, Scan(offset, []));
      var scan := tree.Each(Visitor(prefix, most), Scan(offset, []));
      kvs := scan.kvs;
    }
  }

  /** What a cursor hands out: a pair, or past the last one no value and the nil key, which has length zero. */
  type Row<V> = (string, Option<V>)

  function PastEnd<V>(): Row<V> { ("", None) }

  function RowOf<V>(p: (string, V)): Row<V> { (p.0, Some(p.1)) }

  function Rows<V>(s: seq<(string, V)>): (rows: seq<Row<V>>)
    ensures |rows| == |s| && forall i :: 0 <= i < |s| ==> rows[i] == RowOf(s[i])
  {
    if s == [] then [] else [RowOf(s[0])] + Rows(s[1..])
  }

  function FirstRow<V>(s: seq<(string, V)>): Row<V> { if s == [] then PastEnd() else RowOf(s[0]) }

  /** A cursor over pairs in ascending key order, as a B-tree bucket gives one. */
  class Cursor<V(!new)> {
    const pairs: seq<(string, V)>
    var pos: nat

    constructor (pairs: seq<(string, V)>)
      ensures this.pairs == pairs && pos == 0
    {
      this.pairs, pos := pairs, 0;
    }

    function Current(): Row<V>
      reads this
    {
      if pos < |pairs| then RowOf(pairs[pos]) else PastEnd()
    }

    /** Moves to the first key not before the given one. */
    method Seek(key: string) returns (kv: Row<V>)
      requires SortedPairs.Sorted(StringLt, pairs)
      modifies this
      ensures pos <= |pairs| && kv == Current()
      ensures forall i :: 0 <= i < pos ==> StringLt(pairs[i].0, key)
      ensures forall i :: pos <= i < |pairs| ==> !StringLt(pairs[i].0, key)
    {
      pos := 0;
      while pos < |pairs| && StringLt(pairs[pos].0, key)
        invariant 0 <= pos <= |pairs|
        invariant forall i :: 0 <= i < pos ==> StringLt(pairs[i].0, key)
      {
        pos := pos + 1;
      }
      StringLtIsStrictTotal();
      kv := Current();
    }

    method Next() returns (kv: Row<V>)
      modifies this
      ensures pos == (if old(pos) < |pairs| then old(pos) + 1 else old(pos)) && kv == Current()
    {
      if pos < |pairs| {
        pos := pos + 1;
      }
      kv := Current();
    }
  }

  function Skip(offset: int): nat { if offset > 0 then offset else 0 }

  /** The page at the empty prefix, which the row past the end has too: always full, padded with that row. */
  function Padded<V>(s: seq<(string, V)>, offset: int, limit: nat): (rows: seq<Row<V>>)
    ensures |rows| == limit
    ensures forall i :: 0 <= i < limit ==>
      rows[i] == if Skip(offset) + i < |s| then RowOf(s[Skip(offset) + i]) else PastEnd()
  {
    seq(limit, i requires 0 <= i => if Skip(offset) + i < |s| then RowOf(s[Skip(offset) + i]) else PastEnd())
  }

  /**
   What the file store's read comes to, if it ends: a negative limit is no limit, and at the empty prefix
   never ends.
   */
  function FilePage<V>(s: seq<(string, V)>, prefix: string, offset: int, limit: int): Option<seq<Row<V>>> {
    var all := WithPrefix(s, prefix);
    if prefix != "" then Some(Rows(Page(all, offset, if limit >= 0 then limit else |all|)))
    else if limit >= 0 then Some(Padded(s, offset, limit))
    else None
  }

  /** Row by row: what has the prefix from the offset on, to the limit, or to the end if the limit is negative. */
  lemma FilePageMeans<V>(s: seq<(string, V)>, prefix: string, offset: int, limit: int)
    requires prefix != ""
    ensures var all, from := WithPrefix(s, prefix), if offset > 0 then offset else 0;
      var there := if |all| <= from then 0 else |all| - from;
      && FilePage(s, prefix, offset, limit).Some?
      && var rows := FilePage(s, prefix, offset, limit).value;
      && |rows| == (if limit < 0 || there <= limit then there else limit)
      && forall i :: 0 <= i < |rows| ==> rows[i] == (all[from + i].0, Some(all[from + i].1))
  {
    PageMeans(WithPrefix(s, prefix), offset, if limit >= 0 then limit else |WithPrefix(s, prefix)|);
  }

  /** What is read once some rows have been. */
  function After<V>(list: seq<Row<V>>, rest: Option<seq<Row<V>>>): Option<seq<Row<V>>> {
    if rest.Some? then Some(list + rest.value) else None
  }

  lemma PageOfAll<T>(s: seq<T>, offset: int, n: nat)
    requires |s| <= n
    ensures Page(s, offset, n) == Page(s, offset, |s|)
  {
  }

  lemma RowsFront<V>(x: (string, V), rest: seq<(string, V)>)
    ensures Rows([x] + rest) == [RowOf(x)] + Rows(rest)
  {
  }

  /** One turn of the loop at a key with a prefix that is not empty. */
  lemma PrefixTurn<V>(x: (string, V), s: seq<(string, V)>, prefix: string, offset: int, limit: int)
    requires prefix != "" && HasPrefix(x.0, prefix)
    ensures offset > 0 ==> FilePage([x] + s, prefix, offset, limit) == FilePage(s, prefix, offset - 1, limit)
    ensures offset <= 0 && limit == 0 ==> FilePage([x] + s, prefix, offset, limit) == Some([])
    ensures offset <= 0 && limit != 0 ==>
      FilePage([x] + s, prefix, offset, limit) == After([RowOf(x)], FilePage(s, prefix, offset, limit - 1))
  {
    var rest := WithPrefix(s, prefix);
    assert WithPrefix([x] + s, prefix) == [x] + rest;
    var n, m := if limit >= 0 then limit else |rest| + 1, if limit - 1 >= 0 then limit - 1 else |rest|;
    PageMoves(x, rest, offset, n);
    PageMoves(x, [x] + rest, offset, 0);
    if limit < 0 && offset > 0 { PageOfAll(rest, offset - 1, n); }
    if offset <= 0 && limit != 0 {
      assert m == n - 1;
      RowsFront(x, Page(rest, offset, m));
    }
  }

  /** One turn of the loop at the empty prefix, past the end or not. */
  lemma EmptyPrefixTurn<V>(s: seq<(string, V)>, offset: int, limit: nat)
    ensures var rest := if s == [] then s else s[1..];
      && (offset > 0 ==> Padded(s, offset, limit) == Padded(rest, offset - 1, limit))
      && (offset <= 0 && limit == 0 ==> Padded(s, offset, limit) == [])
      && (offset <= 0 && limit > 0 ==> Padded(s, offset, limit) == [FirstRow(s)] + Padded(rest, offset, limit - 1))
  {
  }

  lemma Turn<V>(s: seq<(string, V)>, prefix: string, offset: int, limit: int)
    requires HasPrefix(FirstRow(s).0, prefix)
    ensures var rest := if s == [] then s else s[1..];
      && (offset > 0 ==> FilePage(s, prefix, offset, limit) == FilePage(rest, prefix, offset - 1, limit))
      && (offset <= 0 && limit == 0 ==> FilePage(s, prefix, offset, limit) == Some([]))
      && (offset <= 0 && limit != 0 ==>
        FilePage(s, prefix, offset, limit) == After([FirstRow(s)], FilePage(rest, prefix, offset, limit - 1)))
  {
    hide Padded, Page, Rows, WithPrefix;
    if prefix == "" {
      if limit >= 0 { EmptyPrefixTurn(s, offset, limit); }
    } else {
      assert s == [s[0]] + s[1..];
      PrefixTurn(s[0], s[1..], prefix, offset, limit);
    }
  }

  lemma AfterMore<V>(list: seq<Row<V>>, x: Row<V>, rest: Option<seq<Row<V>>>)
    ensures After(list, After([x], rest)) == After(list + [x], rest)
  {
    if rest.Some? { AppendPage(list, x, rest.value); }
  }

  lemma EmptyIsFirst(key: string)
    ensures !StringLt(key, "")
  {
  }

  lemma AfterNothing<V>(list: seq<Row<V>>)
    ensures After(list, Some([])) == Some(list)
  {
    assert list + [] == list;
  }

  /** Nothing before the place sought is on the page. */
  lemma SoughtPage<V>(bucket: seq<(string, V)>, prefix: string, pos: nat, offset: int, limit: int)
    requires pos <= |bucket| && forall i :: 0 <= i < pos ==> StringLt(bucket[i].0, prefix)
    ensures FilePage(bucket, prefix, offset, limit) == After([], FilePage(bucket[pos..], prefix, offset, limit))
  {
    NoneBefore(bucket, prefix, pos);
    if prefix == "" { forall k { EmptyIsFirst(k); } }
    var rest := FilePage(bucket[pos..], prefix, offset, limit);
    if rest.Some? { assert [] + rest.value == rest.value; }
  }

  /** Nothing from the first key on that lacks the prefix is on the page either. */
  lemma StoppedPage<V(!new)>(bucket: seq<(string, V)>, prefix: string, pos: nat, offset: int, limit: int)
    requires SortedPairs.Sorted(StringLt, bucket) && pos <= |bucket|
    requires pos < |bucket| ==> !StringLt(bucket[pos].0, prefix)
    requires !HasPrefix(FirstRow(bucket[pos..]).0, prefix)
    ensures FilePage(bucket[pos..], prefix, offset, limit) == Some([])
  {
    NoneFrom(bucket, prefix, pos);
    PageOfNothing<(string, V)>(offset, if limit >= 0 then limit else 0);
  }

  /** How many turns of its loop the read may take. */
  function Turns(len: nat, prefix: string, offset: int, limit: int): nat {
    if prefix != "" then len else if limit >= 0 then Skip(offset) + limit + 1 else 0
  }

  /**
   The file store's read, watched for a number of turns of its loop: seek to the prefix, skip, take, and stop at
   the first key without the prefix. The nil key past the end has the empty prefix, so that at the empty prefix
   only the limit ends the loop, and a negative one never does.
   */
  method GetPrefix<V(!new)>(bucket: seq<(string, V)>, prefix: string, offset0: int, limit0: int, turns: nat)
    returns (r: Option<seq<Row<V>>>)
    requires SortedPairs.Sorted(StringLt, bucket)
    ensures r.Some? ==> r == FilePage(bucket, prefix, offset0, limit0)
    ensures prefix == "" && limit0 < 0 ==> r.None?
    ensures FilePage(bucket, prefix, offset0, limit0).Some? && turns >= Turns(|bucket|, prefix, offset0, limit0) ==>
      r.Some?
  {
    hide StringLt, FilePage, After;
    var list: seq<Row<V>>, offset, limit, left: nat := [], offset0, limit0, turns;
    EndsIff(bucket, prefix, offset0, limit0);
    var c := new Cursor(bucket);
    var kv := c.Seek(prefix);
    SoughtPage(bucket, prefix, c.pos, offset, limit);
    while HasPrefix(kv.0, prefix)
      invariant c.pos <= |bucket| && c.pairs == bucket && kv == c.Current() == FirstRow(bucket[c.pos..])
      invariant forall i :: c.pos <= i < |bucket| ==> !StringLt(bucket[i].0, prefix)
      invariant FilePage(bucket, prefix, offset0, limit0) ==
        After(list, FilePage(bucket[c.pos..], prefix, offset, limit))
      invariant limit0 >= 0 ==> limit >= 0
      invariant turns >= Turns(|bucket|, prefix, offset0, limit0) && (prefix != "" || limit0 >= 0) ==>
        left >= Turns(|bucket| - c.pos, prefix, offset, limit)
      decreases left
    {
      if left == 0 {
        return None;
      }
      left := left - 1;
      Turn(bucket[c.pos..], prefix, offset, limit);
      if offset > 0 {
        offset := offset - 1;
      } else {
        if limit == 0 {
          AfterNothing(list);
          return Some(list);
        }
        ghost var rest := if bucket[c.pos..] == [] then [] else bucket[c.pos..][1..];
        AfterMore(list, kv, FilePage(rest, prefix, offset, limit - 1));
        list := list + [kv];
        limit := limit - 1;
      }
      kv := c.Next();
    }
    StoppedPage(bucket, prefix, c.pos, offset, limit);
    AfterNothing(list);
    r := Some(list);
  }

  lemma EndsIff<V>(s: seq<(string, V)>, prefix: string, offset: int, limit: int)
    ensures FilePage(s, prefix, offset, limit).Some? <==> prefix != "" || limit >= 0
  {
  }

  lemma PageOfNothing<T>(offset: int, limit: nat)
    ensures Page<T>([], offset, limit) == []
  {
  }

  lemma EverythingHasEmptyPrefix<V>(s: seq<(string, V)>)
    ensures WithPrefix(s, "") == s
  {
    forall p | p in s ensures HasPrefix(p.0, "") { }
    AllWithPrefix(s, "");
  }

  /** At the empty prefix the rows agree exactly up to the end. */
  lemma PaddedIff<V>(s: seq<(string, V)>, offset: int, limit: nat)
    ensures Padded(s, offset, limit) == Rows(Page(s, offset, limit)) <==>
      limit == 0 || Skip(offset) + limit <= |s|
  {
    hide Padded, Rows;
    var page := Page(s, offset, limit);
    if Skip(offset) + limit <= |s| || limit == 0 {
      assert Padded(s, offset, limit) == Rows(page);
    } else {
      assert |Rows(page)| < |Padded(s, offset, limit)|;
    }
  }

  /** The two stores' pages are the same rows exactly when the file store neither pads nor ignores the limit. */
  lemma SameRowsIff<V>(s: seq<(string, V)>, prefix: string, offset: int, limit: int)
    ensures FilePage(s, prefix, offset, limit) == Some(Rows(Page(WithPrefix(s, prefix), offset, Skip(limit)))) <==>
      if limit < 0 then prefix != "" && |WithPrefix(s, prefix)| <= Skip(offset)
      else prefix != "" || limit == 0 || Skip(offset) + limit <= |s|
  {
    if prefix == "" {
      hide Page, Padded;
      EverythingHasEmptyPrefix(s);
      if limit >= 0 { PaddedIff(s, offset, limit); }
    } else if limit < 0 {
      NothingPastIff(WithPrefix(s, prefix), offset);
    }
  }

  lemma NothingPastIff<V>(all: seq<(string, V)>, offset: int)
    ensures Rows(Page(all, offset, |all|)) == Rows(Page(all, offset, 0)) <==> |all| <= Skip(offset)
  {
    assert |Page(all, offset, 0)| == 0;
    assert |Page(all, offset, |all|)| == if |all| <= Skip(offset) then 0 else |all| - Skip(offset);
  }

  /**
   Both stores, holding the same pairs, give the same rows, except past the end at the empty prefix, and except
   for a negative limit, for which the in-memory store gives nothing.
   */
  method SamePage<V(!new)>(
    mem: MemStore<V>, bucket: seq<(string, V)>, prefix: string, offset: int, limit: int, turns: nat)
    returns (a: seq<(string, V)>, b: Option<seq<Row<V>>>)
    requires mem.Valid() && SortedPairs.Sorted(StringLt, bucket)
    requires SortedPairs.AsMap(StringLt, bucket) == mem.tree.Contents()
    requires turns >= Turns(|bucket|, prefix, offset, limit)
    ensures a == Page(WithPrefix(bucket, prefix), offset, Skip(limit))
    ensures b.Some? <==> prefix != "" || limit >= 0
    ensures b == Some(Rows(a)) <==>
      if limit < 0 then prefix != "" && |WithPrefix(bucket, prefix)| <= Skip(offset)
      else prefix != "" || limit == 0 || Skip(offset) + limit <= |bucket|
  {
    StringLtIsStrictTotal();
    SortedPairs.AsMapMembers(StringLt, bucket);
    SortedPairs.AsMapMembers(StringLt, AvlTree.M.Items(mem.tree.Model()));
    SortedPairs.OneListing(StringLt, AvlTree.M.Items(mem.tree.Model()), bucket);
    SameRowsIff(bucket, prefix, offset, limit);
    a := mem.GetPrefix(prefix, offset, limit);
    b := GetPrefix(bucket, prefix, offset, limit, turns);
  }

  /** Two pairs, asked for five at the empty prefix: three rows that are not there. */
  lemma TwoPairsAreFiveRows<V>(x: (string, V), y: (string, V))
    ensures FilePage([x, y], "", 0, 5) == Some([RowOf(x), RowOf(y), PastEnd(), PastEnd(), PastEnd()])
    ensures Page(WithPrefix([x, y], ""), 0, 5) == [x, y]
  {
    AllWithPrefix([x, y], "");
    var rows := Padded([x, y], 0, 5);
    assert rows == [rows[0], rows[1], rows[2], rows[3], rows[4]];
  }
}
