/**
 What holds of a cache bucket between calls, on values: items and last writes, and the pairs that the
 two lazy queues hold, stale ones included. Clock readings are nanoseconds, queue keys milliseconds.
 */
module CacheModel {
  import opened Wrappers

  function Milli(ns: nat): nat { ns / 1_000_000 }

  /** On a millisecond boundary. */
  predicate Whole(ns: int) { ns % 1_000_000 == 0 }

  predicate Unexpired(exp: Option<nat>, now: nat) { exp.None? || exp.value > now }

  /** What a write puts under a key. */
  datatype Written<V> = Written(value: V, exp: Option<nat>)

  function Expiry(now: nat, ttl: int): Option<nat> { if ttl > 0 then Some(now + ttl) else None }

  /** The plain map of last writes with expiry that a bucket ought to be. */
  function Lookup<V>(writes: map<string, Written<V>>, key: string, now: nat): Option<V> {
    if key in writes && Unexpired(writes[key].exp, now) then Some(writes[key].value) else None
  }

  /** A write is there until its time to live has passed, or for good, and leaves the other keys alone. */
  lemma WrittenMeans<V>(writes: map<string, Written<V>>, key: string, value: V, ttl: int, now: nat)
    ensures var w := writes[key := Written(value, Expiry(now, ttl))];
      && (forall t: nat :: now <= t ==> Lookup(w, key, t) == if ttl <= 0 || t < now + ttl then Some(value) else None)
      && forall k: string, t: nat :: k != key ==> Lookup(w, k, t) == Lookup(writes, k, t)
  {
  }

  class Entry<V> {
    const key: string
    var value: V
    var exp: Option<nat>

    constructor (key: string, value: V, exp: Option<nat>)
      ensures this.key == key && this.value == value && this.exp == exp
    {
      this.key, this.value, this.exp := key, value, exp;
    }
  }

  type Items<V> = map<string, Entry<V>>
  type Contents<V> = map<Entry<V>, Written<V>>
  type Pairs<V> = multiset<(int, Entry<V>)>

  /** Every item is the last write under its key. */
  ghost predicate AreWrites<V>(I: Items<V>, X: Contents<V>, writes: map<string, Written<V>>) {
    forall k :: k in I ==> I[k] in X && I[k].key == k && k in writes && writes[k] == X[I[k]]
  }

  ghost predicate Mentions<V>(Q: Pairs<V>, e: Entry<V>) {
    exists t: int :: (t, e) in Q
  }

  ghost predicate Known<V>(Q: Pairs<V>, X: Contents<V>) {
    forall p :: p in Q ==> p.1 in X
  }

  /** An entry with a time to live has a pair for it; one without has a pair in the limit queue if there is a limit. */
  ghost predicate HasPair<V>(e: Entry<V>, exp: Option<nat>, TQ: Pairs<V>, LQ: Pairs<V>, limited: bool) {
    if exp.Some? then (Milli(exp.value), e) in TQ else limited ==> Mentions(LQ, e)
  }

  ghost predicate Covered<V>(I: Items<V>, X: Contents<V>, TQ: Pairs<V>, LQ: Pairs<V>, limited: bool) {
    forall k :: k in I ==> I[k] in X && HasPair(I[k], X[I[k]].exp, TQ, LQ, limited)
  }

  /** The pair's key is still the entry's expiration time. */
  predicate Due<V>(p: (int, Entry<V>), X: Contents<V>) {
    p.1 in X && X[p.1].exp.Some? && p.0 == Milli(X[p.1].exp.value)
  }

  ghost predicate WholeExpiries<V>(X: Contents<V>) {
    forall e :: e in X && X[e].exp.Some? ==> Whole(X[e].exp.value)
  }

  /** The queues have a pair for every item. */
  ghost predicate Core<V>(
    limited: bool, I: Items<V>, X: Contents<V>, TQ: Pairs<V>, LQ: Pairs<V>, writes: map<string, Written<V>>) {
    AreWrites(I, X, writes) && Known(TQ, X) && Known(LQ, X) && Covered(I, X, TQ, LQ, limited)
  }

  /** The queues after a write: an expiring entry goes into one, another may go into the other. */
  ghost function TtlPairs<V>(TQ: Pairs<V>, e: Entry<V>, exp: Option<nat>): Pairs<V> {
    if exp.Some? then TQ + multiset{(Milli(exp.value), e)} else TQ
  }

  ghost function LimitPairs<V>(LQ: Pairs<V>, e: Entry<V>, exp: Option<nat>, now: nat): Pairs<V> {
    if exp.None? then LQ + multiset{(Milli(now), e)} else LQ
  }

  lemma StillHasPair<V>(
    e: Entry<V>, exp: Option<nat>, TQ: Pairs<V>, LQ: Pairs<V>, limited: bool, TQ': Pairs<V>, LQ': Pairs<V>)
    requires HasPair(e, exp, TQ, LQ, limited)
    requires forall p :: p in TQ && p.1 == e ==> p in TQ'
    requires forall p :: p in LQ && p.1 == e ==> p in LQ'
    ensures HasPair(e, exp, TQ', LQ', limited)
  {
    if exp.None? && limited {
      var t: int :| (t, e) in LQ;
      assert (t, e) in LQ';
    }
  }

  lemma NowHasPair<V>(e: Entry<V>, exp: Option<nat>, TQ: Pairs<V>, LQ: Pairs<V>, limited: bool, now: nat)
    ensures HasPair(e, exp, TtlPairs(TQ, e, exp), LimitPairs(LQ, e, exp, now), limited)
  {
    if exp.None? {
      assert (Milli(now), e) in LimitPairs(LQ, e, exp, now);
    }
  }

  lemma Overwritten<V>(
    limited: bool, I: Items<V>, X: Contents<V>, TQ: Pairs<V>, LQ: Pairs<V>, writes: map<string, Written<V>>,
    key: string, w: Written<V>, now: nat)
    requires Core(limited, I, X, TQ, LQ, writes) && key in I
    ensures Core(limited, I, X[I[key] := w],
      TtlPairs(TQ, I[key], w.exp), LimitPairs(LQ, I[key], w.exp, now), writes[key := w])
  {
    var TQ', LQ', X' := TtlPairs(TQ, I[key], w.exp), LimitPairs(LQ, I[key], w.exp, now), X[I[key] := w];
    forall k | k in I ensures HasPair(I[k], X'[I[k]].exp, TQ', LQ', limited) {
      if k == key {
        NowHasPair(I[k], w.exp, TQ, LQ, limited, now);
      } else {
        StillHasPair(I[k], X[I[k]].exp, TQ, LQ, limited, TQ', LQ');
      }
    }
  }

  lemma KnownInserted<V>(X: Contents<V>, Q: Pairs<V>, p: (int, Entry<V>), w: Written<V>)
    requires Known(Q, X)
    ensures Known(Q, X[p.1 := w]) && Known(Q + multiset{p}, X[p.1 := w])
  {
  }

  /** A new entry gets a pair in the limit queue only if there is a limit. */
  lemma Inserted<V>(
    limited: bool, I: Items<V>, X: Contents<V>, TQ: Pairs<V>, LQ: Pairs<V>, writes: map<string, Written<V>>,
    e: Entry<V>, w: Written<V>, now: nat)
    requires Core(limited, I, X, TQ, LQ, writes) && e !in X
    ensures Core(limited, I[e.key := e], X[e := w], TtlPairs(TQ, e, w.exp),
      if limited then LimitPairs(LQ, e, w.exp, now) else LQ, writes[e.key := w])
  {
    KnownInserted(X, TQ, (if w.exp.Some? then Milli(w.exp.value) else 0, e), w);
    KnownInserted(X, LQ, (Milli(now), e), w);
    InsertedCovered(limited, I, X, TQ, LQ, e, w, now);
  }

  lemma InsertedCovered<V>(
    limited: bool, I: Items<V>, X: Contents<V>, TQ: Pairs<V>, LQ: Pairs<V>, e: Entry<V>, w: Written<V>, now: nat)
    requires Covered(I, X, TQ, LQ, limited) && e !in X
    ensures Covered(I[e.key := e], X[e := w], TtlPairs(TQ, e, w.exp),
      if limited then LimitPairs(LQ, e, w.exp, now) else LQ, limited)
  {
    var I', X' := I[e.key := e], X[e := w];
    var TQ', LQ' := TtlPairs(TQ, e, w.exp), if limited then LimitPairs(LQ, e, w.exp, now) else LQ;
    NowHasPair(e, w.exp, TQ, LQ, limited, now);
    forall k | k in I' ensures I'[k] in X' && HasPair(I'[k], X'[I'[k]].exp, TQ', LQ', limited) {
      if k != e.key {
        StillHasPair(I[k], X[I[k]].exp, TQ, LQ, limited, TQ', LQ');
      }
    }
  }

  lemma Deleted<V>(
    limited: bool, I: Items<V>, X: Contents<V>, TQ: Pairs<V>, LQ: Pairs<V>, writes: map<string, Written<V>>,
    key: string)
    requires Core(limited, I, X, TQ, LQ, writes)
    ensures Core(limited, I - {key}, X, TQ, LQ, writes - {key})
  {
  }

  /** Removing an entry's key, after taking one of its pairs out of a queue or not. */
  lemma Removed<V>(
    limited: bool, I: Items<V>, X: Contents<V>, TQ: Pairs<V>, LQ: Pairs<V>, writes: map<string, Written<V>>,
    e: Entry<V>, TQ': Pairs<V>, LQ': Pairs<V>)
    requires Core(limited, I, X, TQ, LQ, writes)
    requires (forall p :: p in TQ' ==> p in TQ) && forall p :: p in LQ' ==> p in LQ
    requires forall p :: p in TQ && p.1 != e ==> p in TQ'
    requires forall p :: p in LQ && p.1 != e ==> p in LQ'
    ensures Core(limited, I - {e.key}, X, TQ', LQ', writes)
  {
    forall k | k in I - {e.key} ensures HasPair(I[k], X[I[k]].exp, TQ', LQ', limited) {
      StillHasPair(I[k], X[I[k]].exp, TQ, LQ, limited, TQ', LQ');
    }
  }

  /** Dropping a stale pair. */
  lemma Dropped<V>(
    limited: bool, I: Items<V>, X: Contents<V>, TQ: Pairs<V>, LQ: Pairs<V>, writes: map<string, Written<V>>,
    p: (int, Entry<V>), TQ': Pairs<V>)
    requires Core(limited, I, X, TQ, LQ, writes) && !Due(p, X) && TQ' == TQ - multiset{p}
    ensures Core(limited, I, X, TQ', LQ, writes)
  {
    forall k | k in I ensures HasPair(I[k], X[I[k]].exp, TQ', LQ, limited) {
      if X[I[k]].exp.Some? {
        assert Due((Milli(X[I[k]].exp.value), I[k]), X);
      }
    }
  }

  /** There are at least as many pairs as items when there is a limit. */
  lemma {:induction false} KeysOfPairs<V>(s: seq<(int, Entry<V>)>, keys: set<string>)
    requires forall k :: k in keys ==> exists p :: p in s && p.1.key == k
    ensures |keys| <= |s|
  {
    if s == [] {
      assert keys == {};
    } else {
      var rest := s[1..];
      assert s == [s[0]] + rest;
      KeysOfPairs(rest, keys - {s[0].1.key});
      assert keys <= (keys - {s[0].1.key}) + {s[0].1.key};
    }
  }

  /** Once the earliest pair is due in the future, no item is left that expired in an earlier millisecond. */
  lemma SweptClean<V>(
    I: Items<V>, X: Contents<V>, TQ: Pairs<V>, LQ: Pairs<V>, limited: bool, writes: map<string, Written<V>>,
    now: nat, top: Option<(int, Entry<V>)>)
    requires Core(limited, I, X, TQ, LQ, writes)
    requires top.None? ==> TQ == multiset{}
    requires top.Some? ==> Due(top.value, X) && X[top.value.1].exp.value > now
    requires top.Some? ==> forall p :: p in TQ ==> top.value.0 <= p.0
    ensures forall k :: k in I && X[I[k]].exp.Some? ==> Milli(X[I[k]].exp.value) >= Milli(now)
  {
    forall k | k in I && X[I[k]].exp.Some? ensures Milli(X[I[k]].exp.value) >= Milli(now) {
      assert HasPair(I[k], X[I[k]].exp, TQ, LQ, limited);
      assert (Milli(X[I[k]].exp.value), I[k]) in TQ;
    }
  }

  lemma Room<V>(
    I: Items<V>, X: Contents<V>, tq: seq<(int, Entry<V>)>, lq: seq<(int, Entry<V>)>, writes: map<string, Written<V>>)
    requires Core(true, I, X, multiset(tq), multiset(lq), writes)
    ensures |I| <= |tq| + |lq|
  {
    var s := tq + lq;
    forall k | k in I.Keys ensures exists p :: p in s && p.1.key == k {
      var e := I[k];
      if X[e].exp.Some? {
        var p := (Milli(X[e].exp.value), e);
        assert p in multiset(tq);
        assert p in s;
      } else {
        var t: int :| (t, e) in multiset(lq);
        assert (t, e) in s;
      }
    }
    KeysOfPairs(s, I.Keys);
  }

  /** A bucket with its history: the last writes, what has been overwritten and deleted, the latest clock reading. */
  datatype Model<V> = Model(
    maxItems: int, items: Items<V>, contents: Contents<V>, ttlPairs: Pairs<V>, limitPairs: Pairs<V>,
    writes: map<string, Written<V>>, clock: nat, overwrites: nat, deletes: nat)

  function PairCount<V>(b: Model<V>): nat { |b.ttlPairs| + |b.limitPairs| }

  /** Pairs beyond one per item, and items beyond the limit, are paid for by overwrites and deletes. */
  predicate Paid<V>(b: Model<V>) {
    b.maxItems > 0 ==>
      && PairCount(b) <= |b.items| + b.overwrites + b.deletes
      && PairCount(b) <= b.maxItems + b.overwrites + b.deletes
  }

  /** There is room for one more item. */
  predicate HasRoom<V>(b: Model<V>) {
    b.maxItems > 0 ==>
      && PairCount(b) <= |b.items| + b.overwrites + b.deletes
      && PairCount(b) < b.maxItems + b.overwrites + b.deletes
  }

  ghost predicate CoreOf<V>(b: Model<V>) {
    Core(b.maxItems > 0, b.items, b.contents, b.ttlPairs, b.limitPairs, b.writes)
  }

  /** What holds between calls, and between two steps of a sweep. */
  ghost predicate Holds<V>(b: Model<V>) { CoreOf(b) && Paid(b) }

  function Empty<V>(maxItems: int): Model<V> {
    Model(maxItems, map[], map[], multiset{}, multiset{}, map[], 0, 0, 0)
  }

  ghost function AfterOverwrite<V>(b: Model<V>, key: string, value: V, ttl: int, now: nat): Model<V>
    requires key in b.items
  {
    var e, w := b.items[key], Written(value, Expiry(now, ttl));
    b.(contents := b.contents[e := w],
       ttlPairs := TtlPairs(b.ttlPairs, e, w.exp), limitPairs := LimitPairs(b.limitPairs, e, w.exp, now),
       writes := b.writes[key := w], clock := now, overwrites := b.overwrites + 1)
  }

  lemma OverwriteHolds<V>(b: Model<V>, key: string, value: V, ttl: int, now: nat)
    requires Holds(b) && b.clock <= now && key in b.items
    ensures Holds(AfterOverwrite(b, key, value, ttl, now))
  {
    var w := Written(value, Expiry(now, ttl));
    Overwritten(b.maxItems > 0, b.items, b.contents, b.ttlPairs, b.limitPairs, b.writes, key, w, now);
  }

  ghost function AfterInsert<V>(b: Model<V>, e: Entry<V>, value: V, ttl: int, now: nat): Model<V> {
    var w := Written(value, Expiry(now, ttl));
    b.(items := b.items[e.key := e], contents := b.contents[e := w],
       ttlPairs := TtlPairs(b.ttlPairs, e, w.exp),
       limitPairs := if b.maxItems > 0 then LimitPairs(b.limitPairs, e, w.exp, now) else b.limitPairs,
       writes := b.writes[e.key := w], clock := now)
  }

  lemma InsertHolds<V>(b: Model<V>, e: Entry<V>, value: V, ttl: int, now: nat)
    requires Holds(b) && HasRoom(b) && b.clock <= now && e.key !in b.items && e !in b.contents
    ensures Holds(AfterInsert(b, e, value, ttl, now))
  {
    var w := Written(value, Expiry(now, ttl));
    Inserted(b.maxItems > 0, b.items, b.contents, b.ttlPairs, b.limitPairs, b.writes, e, w, now);
  }

  ghost function AfterEvict<V>(b: Model<V>, p: (int, Entry<V>), ttl: bool): Model<V> {
    b.(items := b.items - {p.1.key},
       ttlPairs := if ttl then b.ttlPairs - multiset{p} else b.ttlPairs,
       limitPairs := if ttl then b.limitPairs else b.limitPairs - multiset{p})
  }

  /** Pairs of items that expire go first. */
  function OutQueue<V>(b: Model<V>): Pairs<V> { if b.ttlPairs != multiset{} then b.ttlPairs else b.limitPairs }

  /** The pair whose key goes when room is made: the earliest to expire, or the oldest if nothing expires. */
  ghost predicate NextOut<V>(b: Model<V>, p: (int, Entry<V>)) {
    p in OutQueue(b) && forall q :: q in OutQueue(b) ==> p.0 <= q.0
  }

  /** Room was made, if there had to be. */
  ghost predicate MadeRoom<V>(b: Model<V>, b': Model<V>) {
    if b.maxItems > 0 && |b.items| >= b.maxItems then
      exists p :: p in OutQueue(b) && NextOut(b, p) && b' == AfterEvict(b, p, b.ttlPairs != multiset{})
    else b' == b
  }

  lemma MakingRoomKeeps<V>(b: Model<V>, b': Model<V>)
    requires MadeRoom(b, b')
    ensures b'.writes == b.writes && b'.clock == b.clock
    ensures b'.maxItems == b.maxItems && b'.contents == b.contents
    ensures b.maxItems <= 0 || |b.items| < b.maxItems ==> b' == b
    ensures b'.overwrites == b.overwrites && b'.deletes == b.deletes
    ensures b'.items.Keys <= b.items.Keys
    ensures b.maxItems <= 0 || |b.items| < b.maxItems ==> b'.items == b.items
  {
  }

  /** The key of an earliest pair goes, and with it that pair only: of the expiring ones if there are any. */
  lemma MadeRoomMeans<V>(b: Model<V>, b': Model<V>)
    requires MadeRoom(b, b')
    ensures b.maxItems <= 0 || |b.items| < b.maxItems ==> b' == b
    ensures b.maxItems > 0 && |b.items| >= b.maxItems && b.ttlPairs != multiset{} ==>
      exists p :: p in b.ttlPairs && GoesFrom(b.ttlPairs, p) && b'.items == b.items - {p.1.key} &&
        b'.ttlPairs == b.ttlPairs - multiset{p} && b'.limitPairs == b.limitPairs
    ensures b.maxItems > 0 && |b.items| >= b.maxItems && b.ttlPairs == multiset{} ==>
      exists p :: p in b.limitPairs && GoesFrom(b.limitPairs, p) && b'.items == b.items - {p.1.key} &&
        b'.limitPairs == b.limitPairs - multiset{p} && b'.ttlPairs == b.ttlPairs
  {
    if b.maxItems > 0 && |b.items| >= b.maxItems {
      var p :| p in OutQueue(b) && NextOut(b, p) && b' == AfterEvict(b, p, b.ttlPairs != multiset{});
      assert GoesFrom(OutQueue(b), p);
    }
  }

  ghost predicate GoesFrom<V>(Q: Pairs<V>, p: (int, Entry<V>)) { p in Q && forall q :: q in Q ==> p.0 <= q.0 }

  lemma CountWithout<V>(items: Items<V>, key: string)
    ensures |items| - 1 <= |items - {key}| <= |items|
  {
    assert (items - {key}).Keys == items.Keys - {key};
    assert |items.Keys - {key}| >= |items.Keys| - 1;
  }

  lemma EvictHolds<V>(b: Model<V>, p: (int, Entry<V>), ttl: bool)
    requires Holds(b) && b.maxItems > 0 && p in (if ttl then b.ttlPairs else b.limitPairs)
    ensures Holds(AfterEvict(b, p, ttl)) && HasRoom(AfterEvict(b, p, ttl))
  {
    var b' := AfterEvict(b, p, ttl);
    Removed(true, b.items, b.contents, b.ttlPairs, b.limitPairs, b.writes, p.1, b'.ttlPairs, b'.limitPairs);
    CountWithout(b.items, p.1.key);
  }

  lemma RoomAlready<V>(b: Model<V>)
    requires Holds(b) && (b.maxItems > 0 ==> |b.items| < b.maxItems)
    ensures HasRoom(b)
  {
  }

  /** With a limit in force, an item always has a pair: the queues cannot both be empty. */
  lemma NeverInconsistent<V>(b: Model<V>)
    requires Holds(b) && b.maxItems > 0
    ensures |b.items| <= PairCount(b) <= b.maxItems + b.overwrites + b.deletes
  {
    var tq, lq := AsSeq(b.ttlPairs), AsSeq(b.limitPairs);
    Room(b.items, b.contents, tq, lq, b.writes);
    assert |tq| == |multiset(tq)| && |lq| == |multiset(lq)|;
  }

  ghost function AsSeq<T>(m: multiset<T>): (s: seq<T>)
    ensures multiset(s) == m
  {
    if m == multiset{} then [] else
      var x :| x in m;
      [x] + AsSeq(m - multiset{x})
  }

  /** Deleting an item that was to expire leaves its pair behind. */
  ghost function AfterDelete<V>(b: Model<V>, key: string): Model<V>
    requires key in b.items && b.items[key] in b.contents
  {
    b.(items := b.items - {key}, writes := b.writes - {key}, deletes := b.deletes + 1)
  }

  lemma DeleteHolds<V>(b: Model<V>, key: string)
    requires Holds(b) && key in b.items
    ensures b.items[key] in b.contents && Holds(AfterDelete(b, key))
  {
    Deleted(b.maxItems > 0, b.items, b.contents, b.ttlPairs, b.limitPairs, b.writes, key);
    CountWithout(b.items, key);
  }

  ghost function Cleared<V>(b: Model<V>): Model<V> {
    b.(items := map[], ttlPairs := multiset{}, limitPairs := multiset{}, writes := map[])
  }

  lemma ClearHolds<V>(b: Model<V>)
    requires Holds(b)
    ensures Holds(Cleared(b))
  {
  }

  ghost function AfterStale<V>(b: Model<V>, p: (int, Entry<V>)): Model<V> {
    b.(ttlPairs := b.ttlPairs - multiset{p})
  }

  lemma StaleHolds<V>(b: Model<V>, p: (int, Entry<V>))
    requires Holds(b) && p in b.ttlPairs && !Due(p, b.contents)
    ensures Holds(AfterStale(b, p))
  {
    Dropped(b.maxItems > 0, b.items, b.contents, b.ttlPairs, b.limitPairs, b.writes, p, b.ttlPairs - multiset{p});
  }

  lemma ExpiredHolds<V>(b: Model<V>, p: (int, Entry<V>))
    requires Holds(b) && p in b.ttlPairs
    ensures Holds(AfterEvict(b, p, true))
  {
    var TQ' := b.ttlPairs - multiset{p};
    Removed(b.maxItems > 0, b.items, b.contents, b.ttlPairs, b.limitPairs, b.writes, p.1, TQ', b.limitPairs);
    CountWithout(b.items, p.1.key);
  }

  /** No item is left that expired in an earlier millisecond. */
  ghost predicate Clean<V>(b: Model<V>) {
    forall k :: k in b.items && b.items[k] in b.contents && b.contents[b.items[k]].exp.Some? ==>
      Milli(b.contents[b.items[k]].exp.value) >= Milli(b.clock)
  }

  /** The pair is not stale, and its entry was made for the key. */
  ghost predicate Haunts<V>(X: Contents<V>, p: (int, Entry<V>), key: string) { Due(p, X) && p.1.key == key }

  /** A pair by which a sweep at `now` takes the key. */
  ghost predicate Takes<V>(X: Contents<V>, p: (int, Entry<V>), key: string, now: nat) {
    Haunts(X, p, key) && X[p.1].exp.value <= now
  }

  /** The pair has done what it can do to the items. */
  ghost predicate Settled<V>(b: Model<V>, p: (int, Entry<V>)) {
    p in b.ttlPairs || !Due(p, b.contents) || p.1.key !in b.items
  }

  /**
   What a sweep changes: an item goes by a pair that is due under its key, its own or another's, pairs go, and
   nothing else changes but the clock.
   */
  ghost predicate Swept<V>(before: Model<V>, b: Model<V>, now: nat) {
    && b.items.Keys <= before.items.Keys && (forall k :: k in b.items ==> b.items[k] == before.items[k])
    && (forall k :: k in before.items && k !in b.items ==>
      exists p :: p in before.ttlPairs && Takes(before.contents, p, k, now))
    && (forall p :: p in b.ttlPairs ==> p in before.ttlPairs)
    && (forall p :: p in before.ttlPairs ==> Settled(b, p))
    && b.maxItems == before.maxItems && b.limitPairs == before.limitPairs
    && b.contents == before.contents && b.writes == before.writes
    && b.overwrites == before.overwrites && b.deletes == before.deletes && b.clock == now
  }

  lemma ClockHolds<V>(b: Model<V>, now: nat)
    requires Holds(b)
    ensures Holds(b.(clock := now))
  {
  }

  lemma SweptNothing<V>(b: Model<V>, now: nat)
    ensures Swept(b, b.(clock := now), now)
  {
  }

  lemma SweptWrites<V>(before: Model<V>, b: Model<V>, now: nat)
    requires Swept(before, b, now)
    ensures b.writes == before.writes
  {
  }

  lemma SweptStale<V>(before: Model<V>, b: Model<V>, now: nat, p: (int, Entry<V>))
    requires Swept(before, b, now) && p in b.ttlPairs && !Due(p, b.contents)
    ensures Swept(before, AfterStale(b, p), now)
  {
    var b' := AfterStale(b, p);
    forall q | q in before.ttlPairs ensures Settled(b', q) { assert Settled(b, q); }
  }

  lemma SweptTaken<V>(before: Model<V>, b: Model<V>, now: nat, p: (int, Entry<V>))
    requires Swept(before, b, now) && p in b.ttlPairs && Due(p, b.contents) && b.contents[p.1].exp.value <= now
    ensures Swept(before, AfterEvict(b, p, true), now)
  {
    var b' := AfterEvict(b, p, true);
    assert p in before.ttlPairs && Takes(before.contents, p, p.1.key, now);
    forall q | q in before.ttlPairs ensures Settled(b', q) { assert Settled(b, q); }
  }

  /** A sweep stops at the first pair that is due in the future, or at none. */
  ghost predicate Stopped<V>(b: Model<V>) {
    b.ttlPairs == multiset{} || exists top :: top in b.ttlPairs && StopsAt(b, top)
  }

  ghost predicate StopsAt<V>(b: Model<V>, top: (int, Entry<V>)) {
    && Due(top, b.contents) && b.contents[top.1].exp.value > b.clock
    && forall p :: p in b.ttlPairs ==> top.0 <= p.0
  }

  /** What is left of the queue is not of an earlier millisecond, and not of this one if times are on boundaries. */
  lemma StoppedPast<V>(b: Model<V>)
    requires Stopped(b)
    ensures forall p :: p in b.ttlPairs ==> p.0 >= Milli(b.clock)
    ensures Whole(b.clock) && WholeExpiries(b.contents) ==> forall p :: p in b.ttlPairs ==> p.0 > Milli(b.clock)
  {
    if b.ttlPairs != multiset{} {
      var top :| top in b.ttlPairs && StopsAt(b, top);
    }
  }

  /** So it takes the key of every pair that is due in an earlier millisecond, whatever item the key has. */
  lemma SweepTakes<V>(before: Model<V>, b: Model<V>, now: nat, p: (int, Entry<V>))
    requires Swept(before, b, now) && Stopped(b) && p in before.ttlPairs && Due(p, before.contents)
    requires p.0 < Milli(now) || (p.0 == Milli(now) && Whole(now) && WholeExpiries(before.contents))
    ensures p.1.key !in b.items
  {
    assert Settled(b, p);
    StoppedPast(b);
  }

  /** One more pair: stale ones go alone, overdue ones with their key. */
  lemma SweptFurther<V>(before: Model<V>, b: Model<V>, now: nat, p: (int, Entry<V>))
    requires Swept(before, b, now) && Holds(b) && p in b.ttlPairs
    ensures !Due(p, b.contents) ==> var b' := AfterStale(b, p);
      Swept(before, b', now) && Holds(b') && b'.clock == now && |b'.ttlPairs| < |b.ttlPairs|
    ensures Due(p, b.contents) && b.contents[p.1].exp.value <= now ==> var b' := AfterEvict(b, p, true);
      Swept(before, b', now) && Holds(b') && b'.clock == now && |b'.ttlPairs| < |b.ttlPairs|
  {
    hide Holds;
    if !Due(p, b.contents) {
      SweptStale(before, b, now, p);
      StaleHolds(b, p);
    } else if b.contents[p.1].exp.value <= now {
      SweptTaken(before, b, now, p);
      ExpiredHolds(b, p);
    }
  }

  lemma PairsAreKnown<V>(b: Model<V>, p: (int, Entry<V>))
    requires Holds(b) && p in b.ttlPairs
    ensures p.1 in b.contents
  {
  }

  lemma SweepEnds<V>(b: Model<V>, top: Option<(int, Entry<V>)>)
    requires Holds(b)
    requires top.None? ==> b.ttlPairs == multiset{}
    requires top.Some? ==> top.value in b.ttlPairs && StopsAt(b, top.value)
    ensures Clean(b) && Stopped(b)
  {
    SweptClean(b.items, b.contents, b.ttlPairs, b.limitPairs, b.maxItems > 0, b.writes, b.clock, top);
  }

  /** A hit is the last write and unexpired; a right bucket hits exactly when the plain map does. */
  lemma Answers<V>(b: Model<V>, key: string, now: nat)
    requires Holds(b) && b.clock <= now
    ensures key in b.items ==>
      b.items[key] in b.contents && key in b.writes && b.writes[key] == b.contents[b.items[key]]
    ensures Right(b) && key !in b.items ==> Lookup(b.writes, key, now) == None
  {
  }

  /** Whatever has been written and is not there has expired. */
  ghost predicate Right<V>(b: Model<V>) {
    forall k :: k in b.writes && k !in b.items ==> !Unexpired(b.writes[k].exp, b.clock)
  }

  function Answer<V>(b: Model<V>, key: string): Option<V> {
    if key in b.items && b.items[key] in b.contents && Unexpired(b.contents[b.items[key]].exp, b.clock) then
      Some(b.contents[b.items[key]].value)
    else None
  }

  /** A bucket is right exactly when it answers for every key as the plain map does. */
  lemma RightIff<V>(b: Model<V>)
    requires Holds(b)
    ensures Right(b) <==> forall key :: Answer(b, key) == Lookup(b.writes, key, b.clock)
  {
    if forall key :: Answer(b, key) == Lookup(b.writes, key, b.clock) {
      forall k | k in b.writes && k !in b.items ensures !Unexpired(b.writes[k].exp, b.clock) {
        assert Answer(b, k) == Lookup(b.writes, k, b.clock);
      }
    }
  }

  /** The first expires after the second does, or never. */
  predicate Outlives(exp: Option<nat>, other: nat) { exp.None? || exp.value > other }

  /** The pair is due, its key has another item, and that item expires later. */
  ghost predicate Outlived<V>(b: Model<V>, p: (int, Entry<V>)) {
    && Due(p, b.contents) && p.1.key in b.items && b.items[p.1.key] != p.1 && b.items[p.1.key] in b.contents
    && Outlives(b.contents[b.items[p.1.key]].exp, b.contents[p.1].exp.value)
  }

  ghost predicate NoneOutlived<V>(b: Model<V>) { forall p :: p in b.ttlPairs ==> !Outlived(b, p) }

  /** A sweep at this time would take an unexpired item by the pair. */
  ghost predicate Threatens<V>(b: Model<V>, p: (int, Entry<V>), now: nat) {
    Outlived(b, p) && b.contents[p.1].exp.value <= now && Unexpired(b.contents[b.items[p.1.key]].exp, now)
  }

  /** A pair threatens at some time to come exactly if it is outlived by an item that has not expired yet. */
  lemma ThreatensIff<V>(b: Model<V>, p: (int, Entry<V>))
    ensures (exists now: nat :: b.clock <= now && Threatens(b, p, now)) <==>
      Outlived(b, p) && Unexpired(b.contents[b.items[p.1.key]].exp, b.clock)
    ensures Outlived(b, p) && Unexpired(b.contents[b.items[p.1.key]].exp, b.clock) ==>
      Threatens(b, p, Later(b.clock, b.contents[p.1].exp.value))
  {
    if Outlived(b, p) && Unexpired(b.contents[b.items[p.1.key]].exp, b.clock) {
      assert Threatens(b, p, Later(b.clock, b.contents[p.1].exp.value));
    }
  }

  function Later(a: nat, b: nat): nat { if a >= b then a else b }

  /** A sweep at a time at which no pair threatens leaves a right bucket right. */
  lemma SweepKeepsRight<V>(b: Model<V>, b': Model<V>, now: nat)
    requires Holds(b) && Right(b) && b.clock <= now && Swept(b, b', now)
    requires forall p :: p in b.ttlPairs ==> !Threatens(b, p, now)
    ensures Right(b')
  {
    forall k | k in b'.writes && k !in b'.items ensures !Unexpired(b'.writes[k].exp, now) {
      if k in b.items {
        var p :| p in b.ttlPairs && Takes(b.contents, p, k, now);
        assert !Threatens(b, p, now);
      }
    }
  }

  /** No due pair falls in the very millisecond of the sweep, or all times are on millisecond boundaries. */
  ghost predicate Resolved<V>(b: Model<V>, now: nat) {
    || (Whole(now) && WholeExpiries(b.contents))
    || forall p :: p in b.ttlPairs && Due(p, b.contents) ==> p.0 != Milli(now)
  }

  /** A finished sweep leaves a right bucket right if and only if no pair threatens at its time. */
  lemma SweepRightIff<V>(b: Model<V>, b': Model<V>, now: nat)
    requires Holds(b) && Right(b) && b.clock <= now && Swept(b, b', now) && Stopped(b') && Resolved(b, now)
    ensures Right(b') <==> forall p :: p in b.ttlPairs ==> !Threatens(b, p, now)
  {
    if forall p :: p in b.ttlPairs ==> !Threatens(b, p, now) {
      SweepKeepsRight(b, b', now);
    } else {
      var p :| p in b.ttlPairs && Threatens(b, p, now);
      ThreatIsLost(b, b', now, p);
    }
  }

  lemma ThreatIsLost<V>(b: Model<V>, b': Model<V>, now: nat, p: (int, Entry<V>))
    requires Holds(b) && Swept(b, b', now) && Stopped(b') && p in b.ttlPairs && Threatens(b, p, now)
    requires Resolved(b, now) || p.0 < Milli(now)
    ensures b'.writes == b.writes && p.1.key in b'.writes && p.1.key !in b'.items
    ensures Unexpired(b'.writes[p.1.key].exp, now) && !Right(b')
  {
    assert p.0 <= Milli(now);
    SweepTakes(b, b', now, p);
  }

  /** If no pair is outlived, no sweep at any time makes a right bucket wrong. */
  lemma NoneOutlivedStaysRight<V>(b: Model<V>, b': Model<V>, now: nat)
    requires Holds(b) && Right(b) && NoneOutlived(b) && b.clock <= now && Swept(b, b', now)
    ensures Right(b') && NoneOutlived(b')
  {
    SweepKeepsRight(b, b', now);
    forall p | p in b'.ttlPairs ensures !Outlived(b', p) { assert p in b.ttlPairs && !Outlived(b, p); }
  }

  /** The expiration passes none of the pairs that other items have left under the key. */
  ghost predicate PassesNone<V>(b: Model<V>, key: string, exp: Option<nat>) {
    forall p :: p in b.ttlPairs && Haunts(b.contents, p, key) && (key in b.items ==> b.items[key] != p.1) ==>
      !Outlives(exp, b.contents[p.1].exp.value)
  }

  /** Setting a key leaves no pair outlived if and only if the new expiration passes none of the pairs left under it. */
  lemma InsertOutlivesIff<V>(b: Model<V>, e: Entry<V>, value: V, ttl: int, now: nat)
    requires Holds(b) && NoneOutlived(b) && e.key !in b.items && e !in b.contents
    ensures NoneOutlived(AfterInsert(b, e, value, ttl, now)) <==> PassesNone(b, e.key, Expiry(now, ttl))
  {
    var b' := AfterInsert(b, e, value, ttl, now);
    forall p | p in b.ttlPairs
      ensures Outlived(b', p) <==>
        Haunts(b.contents, p, e.key) && Outlives(Expiry(now, ttl), b.contents[p.1].exp.value)
    {
      assert !Outlived(b, p);
    }
    forall p | p in b'.ttlPairs ensures p in b.ttlPairs || !Outlived(b', p) { }
  }

  lemma OverwriteOutlivesIff<V>(b: Model<V>, key: string, value: V, ttl: int, now: nat)
    requires Holds(b) && NoneOutlived(b) && key in b.items
    ensures NoneOutlived(AfterOverwrite(b, key, value, ttl, now)) <==> PassesNone(b, key, Expiry(now, ttl))
  {
    var b' := AfterOverwrite(b, key, value, ttl, now);
    forall p | p in b.ttlPairs
      ensures Outlived(b', p) <==>
        && Haunts(b.contents, p, key) && p.1 != b.items[key]
        && Outlives(Expiry(now, ttl), b.contents[p.1].exp.value)
    {
      assert !Outlived(b, p);
    }
    forall p | p in b'.ttlPairs ensures p in b.ttlPairs || !Outlived(b', p) { }
  }

  lemma DeleteStaysRight<V>(b: Model<V>, key: string)
    requires Right(b) && key in b.items && b.items[key] in b.contents
    ensures Right(AfterDelete(b, key))
  {
  }

  /** Writes never make a bucket wrong. */
  lemma WritesStayRight<V>(b: Model<V>, key: string, e: Entry<V>, value: V, ttl: int, now: nat)
    requires Right(b) && b.clock <= now
    ensures key in b.items ==> Right(AfterOverwrite(b, key, value, ttl, now))
    ensures Right(AfterInsert(b, e, value, ttl, now))
  {
  }

  lemma DeleteOutlivesNone<V>(b: Model<V>, key: string)
    requires NoneOutlived(b) && key in b.items && b.items[key] in b.contents
    ensures NoneOutlived(AfterDelete(b, key))
  {
    forall p | p in b.ttlPairs ensures !Outlived(AfterDelete(b, key), p) { assert !Outlived(b, p); }
  }

  /** Every pair that is not stale is of the item that its key has, and expirations are on millisecond boundaries. */
  ghost predicate Tidy<V>(b: Model<V>) {
    && WholeExpiries(b.contents)
    && forall p :: p in b.ttlPairs && Due(p, b.contents) ==> p.1.key in b.items && b.items[p.1.key] == p.1
  }

  /** A tidy bucket has no pair outlived. */
  lemma TidyOutlivesNone<V>(b: Model<V>)
    requires Tidy(b)
    ensures NoneOutlived(b)
  {
  }

  /** Writes keep a bucket tidy, at times on millisecond boundaries and if no item is evicted. */
  lemma OverwriteStaysTidy<V>(b: Model<V>, key: string, value: V, ttl: int, now: nat)
    requires Holds(b) && Tidy(b) && Whole(now) && Whole(ttl) && key in b.items
    ensures Tidy(AfterOverwrite(b, key, value, ttl, now))
  {
    assert b.items[key].key == key;
  }

  lemma InsertStaysTidy<V>(b: Model<V>, e: Entry<V>, value: V, ttl: int, now: nat)
    requires Holds(b) && Tidy(b) && Whole(now) && Whole(ttl) && e.key !in b.items && e !in b.contents
    ensures Tidy(AfterInsert(b, e, value, ttl, now))
  {
    hide Tidy, Holds, Due;
    var b' := AfterInsert(b, e, value, ttl, now);
    WholeInserted(b, e, value, ttl, now);
    forall p | p in b'.ttlPairs && Due(p, b'.contents) ensures p.1.key in b'.items && b'.items[p.1.key] == p.1 {
      InsertedPairTidy(b, e, value, ttl, now, p);
    }
    TidyIs(b');
  }

  lemma TidyIs<V>(b: Model<V>)
    requires WholeExpiries(b.contents)
    requires forall p :: p in b.ttlPairs && Due(p, b.contents) ==> p.1.key in b.items && b.items[p.1.key] == p.1
    ensures Tidy(b)
  {
  }

  lemma WholeInserted<V>(b: Model<V>, e: Entry<V>, value: V, ttl: int, now: nat)
    requires Tidy(b) && Whole(now) && Whole(ttl)
    ensures WholeExpiries(AfterInsert(b, e, value, ttl, now).contents)
  {
  }

  lemma InsertedPairTidy<V>(b: Model<V>, e: Entry<V>, value: V, ttl: int, now: nat, p: (int, Entry<V>))
    requires Holds(b) && Tidy(b) && e.key !in b.items && e !in b.contents
    requires p in AfterInsert(b, e, value, ttl, now).ttlPairs && Due(p, AfterInsert(b, e, value, ttl, now).contents)
    ensures var items := AfterInsert(b, e, value, ttl, now).items; p.1.key in items && items[p.1.key] == p.1
  {
    if p.1 != e { assert p in b.ttlPairs && Due(p, b.contents); }
  }

  /** So do deletions of items that do not expire. */
  lemma DeleteStaysTidy<V>(b: Model<V>, key: string)
    requires Tidy(b) && key in b.items && b.items[key] in b.contents && b.contents[b.items[key]].exp.None?
    ensures Tidy(AfterDelete(b, key))
  {
  }

  /** And sweeps. */
  lemma SweepStaysTidy<V>(b: Model<V>, b': Model<V>, now: nat)
    requires Holds(b) && Tidy(b) && Whole(now) && Swept(b, b', now) && Stopped(b')
    ensures Tidy(b')
  {
    StoppedPast(b');
    forall p | p in b'.ttlPairs && Due(p, b'.contents) ensures p.1.key in b'.items {
      assert forall q :: q in b.ttlPairs && Takes(b.contents, q, p.1.key, now) ==> q.1 == p.1;
    }
  }

  /** The pair under which a written item is queued: when it expires, or when it was written. */
  lemma QueuedWhen<V>(b: Model<V>, b': Model<V>, key: string, value: V, ttl: int, now: nat)
    requires SetIs(b, b', key, value, ttl, now)
    ensures ttl > 0 ==> key in b'.items && ((now + ttl) / 1_000_000, b'.items[key]) in b'.ttlPairs
    ensures ttl <= 0 && (b.maxItems > 0 || key in b.items) ==>
      key in b'.items && (now / 1_000_000, b'.items[key]) in b'.limitPairs
  {
  }

  /** What setting a key does to a bucket when no item has to go. */
  ghost predicate SetIs<V>(b: Model<V>, b': Model<V>, key: string, value: V, ttl: int, now: nat) {
    if key in b.items then b' == AfterOverwrite(b, key, value, ttl, now)
    else
      && key in b'.items && b'.items[key].key == key && b'.items[key] !in b.contents
      && b' == AfterInsert(b, b'.items[key], value, ttl, now)
  }

  /** A right bucket stays right, and whether some pair is now outlived depends on the new expiration only. */
  lemma SetStays<V>(b: Model<V>, b': Model<V>, key: string, value: V, ttl: int, now: nat)
    requires Holds(b) && b.clock <= now && SetIs(b, b', key, value, ttl, now)
    ensures Right(b) ==> Right(b')
    ensures NoneOutlived(b) ==> (NoneOutlived(b') <==> PassesNone(b, key, Expiry(now, ttl)))
    ensures Tidy(b) && Whole(now) && Whole(ttl) ==> Tidy(b')
  {
    hide Holds, Right, NoneOutlived, PassesNone, Tidy, Whole, AfterOverwrite, AfterInsert;
    if key in b.items {
      if Right(b) { WritesStayRight(b, key, b.items[key], value, ttl, now); }
      if NoneOutlived(b) { OverwriteOutlivesIff(b, key, value, ttl, now); }
      if Tidy(b) && Whole(now) && Whole(ttl) { OverwriteStaysTidy(b, key, value, ttl, now); }
    } else {
      var e := b'.items[key];
      if Right(b) { WritesStayRight(b, key, e, value, ttl, now); }
      if NoneOutlived(b) { InsertOutlivesIff(b, e, value, ttl, now); }
      if Tidy(b) && Whole(now) && Whole(ttl) { InsertStaysTidy(b, e, value, ttl, now); }
    }
  }

  lemma DeleteStays<V>(b: Model<V>, key: string)
    requires key in b.items && b.items[key] in b.contents
    ensures Right(b) ==> Right(AfterDelete(b, key))
    ensures NoneOutlived(b) ==> NoneOutlived(AfterDelete(b, key))
    ensures Tidy(b) && b.contents[b.items[key]].exp.None? ==> Tidy(AfterDelete(b, key))
  {
    if Right(b) { DeleteStaysRight(b, key); }
    if NoneOutlived(b) { DeleteOutlivesNone(b, key); }
    if Tidy(b) && b.contents[b.items[key]].exp.None? { DeleteStaysTidy(b, key); }
  }

  lemma SweepStays<V>(b: Model<V>, b': Model<V>, now: nat)
    requires Holds(b) && b.clock <= now && Swept(b, b', now) && Stopped(b')
    ensures Right(b) && Resolved(b, now) ==> (Right(b') <==> forall p :: p in b.ttlPairs ==> !Threatens(b, p, now))
    ensures Right(b) && NoneOutlived(b) ==> Right(b') && NoneOutlived(b')
    ensures Tidy(b) && Whole(now) ==> Tidy(b')
  {
    hide Holds, Swept, Stopped, Right, Resolved, NoneOutlived, Tidy, Threatens;
    if Right(b) && Resolved(b, now) { SweepRightIff(b, b', now); }
    if Right(b) && NoneOutlived(b) { NoneOutlivedStaysRight(b, b', now); }
    if Tidy(b) && Whole(now) { SweepStaysTidy(b, b', now); }
  }
}
