/**
 A cache bucket on the heap: entries updated in place, and two queues cleaned up lazily. Its ghost model
 carries the history: the last write under every key not deleted since, and the latest clock reading.
 */
module Cache {
  import opened Wrappers
  import opened Heap
  import opened CacheModel

  /** The record of the two heaps. */
  ghost predicate Queues<V>(ttlQueue: Heap<Entry<V>>, limitQueue: Heap<Entry<V>>, TQ: Pairs<V>, LQ: Pairs<V>)
    reads ttlQueue, limitQueue
  {
    && TQ == ttlQueue.Pairs() && LQ == limitQueue.Pairs()
    && ttlQueue != limitQueue && ttlQueue.Valid() && limitQueue.Valid()
    && ttlQueue.heapType == MinHeap && limitQueue.heapType == MinHeap
  }

  lemma NewQueues<V>(ttlQueue: Heap<Entry<V>>, limitQueue: Heap<Entry<V>>)
    requires ttlQueue != limitQueue && ttlQueue.data == [] && limitQueue.data == []
    requires ttlQueue.heapType == MinHeap && limitQueue.heapType == MinHeap
    ensures Queues(ttlQueue, limitQueue, multiset{}, multiset{})
  {
  }

  /** The record of what every entry holds. */
  ghost predicate Recorded<V>(entries: set<Entry<V>>, contents: Contents<V>)
    reads entries
  {
    contents.Keys == entries && forall e :: e in entries ==> contents[e] == Written(e.value, e.exp)
  }

  lemma RecordedIs<V>(entries: set<Entry<V>>, contents: Contents<V>, e: Entry<V>)
    requires Recorded(entries, contents)
    ensures e in entries <==> e in contents
    ensures e in contents ==> contents[e] == Written(e.value, e.exp)
  {
  }

  lemma RecordedNew<V>(entries: set<Entry<V>>, contents: Contents<V>, e: Entry<V>)
    requires Recorded(entries, contents)
    ensures Recorded(entries + {e}, contents[e := Written(e.value, e.exp)])
  {
  }

  method Rewrite<V>(ghost entries: set<Entry<V>>, ghost contents: Contents<V>, e: Entry<V>, value: V, exp: Option<nat>)
    requires Recorded(entries, contents) && e in entries
    modifies e
    ensures Recorded(entries, contents[e := Written(value, exp)])
  {
    e.value := value;
    e.exp := exp;
  }

  method Push<V>(
    ghost ttlQueue: Heap<Entry<V>>, ghost limitQueue: Heap<Entry<V>>, ghost TQ: Pairs<V>, ghost LQ: Pairs<V>,
    queue: Heap<Entry<V>>, t: int, e: Entry<V>)
    requires Queues(ttlQueue, limitQueue, TQ, LQ) && (queue == ttlQueue || queue == limitQueue)
    modifies queue
    ensures queue == ttlQueue ==> Queues(ttlQueue, limitQueue, TQ + multiset{(t, e)}, LQ)
    ensures queue == limitQueue ==> Queues(ttlQueue, limitQueue, TQ, LQ + multiset{(t, e)})
  {
    queue.Push(t, e);
  }

  /** Takes the earliest pair out of one queue. */
  method Pop<V>(
    ghost ttlQueue: Heap<Entry<V>>, ghost limitQueue: Heap<Entry<V>>, ghost TQ: Pairs<V>, ghost LQ: Pairs<V>,
    queue: Heap<Entry<V>>) returns (r: Option<(int, Entry<V>)>)
    requires Queues(ttlQueue, limitQueue, TQ, LQ) && (queue == ttlQueue || queue == limitQueue)
    modifies queue
    ensures r.None? ==> Queues(ttlQueue, limitQueue, TQ, LQ) && (if queue == ttlQueue then TQ else LQ) == multiset{}
    ensures r.Some? && queue == ttlQueue ==>
      && Queues(ttlQueue, limitQueue, TQ - multiset{r.value}, LQ)
      && r.value in TQ && forall p :: p in TQ ==> r.value.0 <= p.0
    ensures old(queue.data) != [] ==> r == Some(old(queue.data)[0])
    ensures r.Some? && queue == limitQueue ==>
      && Queues(ttlQueue, limitQueue, TQ, LQ - multiset{r.value})
      && r.value in LQ && forall p :: p in LQ ==> r.value.0 <= p.0
  {
    r := queue.Pop();
  }

  method Peak<V>(ttlQueue: Heap<Entry<V>>, ghost limitQueue: Heap<Entry<V>>, ghost TQ: Pairs<V>, ghost LQ: Pairs<V>)
    returns (r: Option<(int, Entry<V>)>)
    requires Queues(ttlQueue, limitQueue, TQ, LQ)
    ensures r.None? ==> TQ == multiset{}
    ensures r.Some? ==>
      ttlQueue.data != [] && r.value == ttlQueue.data[0] && r.value in TQ && forall p :: p in TQ ==> r.value.0 <= p.0
  {
    r := ttlQueue.Peak();
  }

  class Bucket<V> {
    const maxItems: int
    var items: Items<V>
    var ttlQueue: Heap<Entry<V>>
    var limitQueue: Heap<Entry<V>>

    ghost var entries: set<Entry<V>>
    ghost var model: Model<V>

    /** The heap is as the model says. */
    ghost predicate Mirror(b: Model<V>)
      reads this, ttlQueue, limitQueue, entries
    {
      && Queues(ttlQueue, limitQueue, b.ttlPairs, b.limitPairs) && Recorded(entries, b.contents)
      && items == b.items && maxItems == b.maxItems
    }

    ghost predicate Valid()
      reads this, ttlQueue, limitQueue, entries
    {
      Mirror(model) && Holds(model)
    }

    constructor (maxItems: int)
      ensures Valid() && fresh(ttlQueue) && fresh(limitQueue) && entries == {} && model == Empty(maxItems)
    {
      this.maxItems := maxItems;
      items, entries, model := map[], {}, Empty(maxItems);
      ttlQueue := new Heap(MinHeap);
      limitQueue := new Heap(MinHeap);
    }

    /** Takes on the items and the model of a finished step, the heap being in line with them. */
    method Take(items': Items<V>, ghost entries': set<Entry<V>>, ghost b: Model<V>)
      requires Queues(ttlQueue, limitQueue, b.ttlPairs, b.limitPairs) && Recorded(entries', b.contents)
      requires items' == b.items && maxItems == b.maxItems
      modifies `items, `entries, `model
      ensures Mirror(model) && model == b && items == items' && entries == entries'
    {
      hide Queues, Recorded;
      items, entries, model := items', entries', b;
    }

    /** A hit is the last value written and unexpired; a right bucket hits exactly when the plain map does. */
    method Get(key: string, now: nat) returns (r: Option<V>)
      requires Valid() && model.clock <= now
      ensures r.Some? <==> key in items && Unexpired(items[key].exp, now)
      ensures r.Some? ==> r == Lookup(model.writes, key, now)
      ensures Right(model) ==> r == Lookup(model.writes, key, now)
    {
      hide Holds;
      Answers(model, key, now);
      if key in items {
        var v := items[key];
        if v.exp.Some? && v.exp.value <= now {
          return None;
        }
        return Some(v.value);
      }
      r := None;
    }

    /** The items never outnumber the limit by more than the overwrites and deletes so far. */
    method Len() returns (n: nat)
      requires Valid()
      ensures n == |items|
      ensures maxItems > 0 ==> n <= maxItems + model.overwrites + model.deletes
    {
      n := |items|;
      if maxItems > 0 {
        NeverInconsistent(model);
      }
    }

    /** SetWithTTL. */
    method Set(key: string, value: V, ttl: int, now: nat)
      requires Valid() && model.clock <= now
      modifies this, ttlQueue, limitQueue, entries
      ensures Valid() && ttlQueue == old(ttlQueue) && limitQueue == old(limitQueue) && fresh(entries - old(entries))
      ensures model.writes == old(model).writes[key := Written(value, Expiry(now, ttl))] && model.clock == now
      ensures forall t: nat :: now <= t ==>
        Lookup(model.writes, key, t) == if ttl <= 0 || t < now + ttl then Some(value) else None
      ensures forall k: string, t: nat :: k != key ==> Lookup(model.writes, k, t) == Lookup(old(model).writes, k, t)
      ensures model.deletes == old(model).deletes
      ensures model.overwrites == old(model).overwrites + if key in old(items) then 1 else 0
      ensures key in items && items.Keys <= old(items).Keys + {key}
      ensures key in old(items) || maxItems <= 0 || |old(items)| < maxItems ==>
        && SetIs(old(model), model, key, value, ttl, now)
        && (ttl > 0 ==> ((now + ttl) / 1_000_000, items[key]) in model.ttlPairs)
        && (ttl <= 0 && (maxItems > 0 || key in old(items)) ==> (now / 1_000_000, items[key]) in model.limitPairs)
        && (Right(old(model)) ==> Right(model))
        && (NoneOutlived(old(model)) ==> (NoneOutlived(model) <==> PassesNone(old(model), key, Expiry(now, ttl))))
        && (Tidy(old(model)) && Whole(now) && Whole(ttl) ==> Tidy(model))
    {
      hide Holds, Queues, Recorded, Right, NoneOutlived, PassesNone, Tidy, Whole;
      if key in items {
        Overwrite(key, value, ttl, now);
      } else {
        Add(key, value, ttl, now);
      }
      WrittenMeans(old(model).writes, key, value, ttl, now);
      if key in old(items) || maxItems <= 0 || |old(items)| < maxItems {
        SetStays(old(model), model, key, value, ttl, now);
        QueuedWhen(old(model), model, key, value, ttl, now);
      }
    }

    method Add(key: string, value: V, ttl: int, now: nat)
      requires Valid() && model.clock <= now && key !in items
      modifies this, ttlQueue, limitQueue
      ensures Valid() && ttlQueue == old(ttlQueue) && limitQueue == old(limitQueue) && fresh(entries - old(entries))
      ensures model.writes == old(model).writes[key := Written(value, Expiry(now, ttl))] && model.clock == now
      ensures model.deletes == old(model).deletes && model.overwrites == old(model).overwrites
      ensures key in items && items.Keys <= old(items).Keys + {key}
      ensures maxItems <= 0 || |old(items)| < maxItems ==>
        && model == AfterInsert(old(model), items[key], value, ttl, now)
        && items[key].key == key && items[key] !in old(model).contents
    {
      hide Holds, HasRoom, MadeRoom, Queues, Recorded;
      MakeRoom(key);
      MakingRoomKeeps(old(model), model);
      Insert(key, value, ttl, now);
    }

    method Overwrite(key: string, value: V, ttl: int, now: nat)
      requires Valid() && model.clock <= now && key in items
      modifies this, ttlQueue, limitQueue, entries
      ensures Valid() && ttlQueue == old(ttlQueue) && limitQueue == old(limitQueue) && entries == old(entries)
      ensures model == AfterOverwrite(old(model), key, value, ttl, now)
    {
      hide Holds, Queues, Recorded;
      OverwriteHolds(model, key, value, ttl, now);
      Answers(model, key, now);
      var v := items[key];
      RecordedIs(entries, model.contents, v);
      Rewrite(entries, model.contents, v, value, Expiry(now, ttl));
      if ttl > 0 {
        Push(ttlQueue, limitQueue, model.ttlPairs, model.limitPairs, ttlQueue, Milli(now + ttl), v);
      } else {
        Push(ttlQueue, limitQueue, model.ttlPairs, model.limitPairs, limitQueue, Milli(now), v);
      }
      Take(items, entries, AfterOverwrite(model, key, value, ttl, now));
    }

    /** Removes the key of a pair that has just been taken out of its queue. */
    method RemoveKey(p: (int, Entry<V>), ghost ttl: bool)
      requires Recorded(entries, model.contents) && items == model.items && maxItems == model.maxItems
      requires Queues(ttlQueue, limitQueue,
        if ttl then model.ttlPairs - multiset{p} else model.ttlPairs,
        if ttl then model.limitPairs else model.limitPairs - multiset{p})
      modifies `items, `entries, `model
      ensures Mirror(model) && model == AfterEvict(old(model), p, ttl) && entries == old(entries)
      ensures items == old(items) - {p.1.key}
    {
      hide Queues, Recorded;
      ghost var b := AfterEvict(model, p, ttl);
      var left := items - {p.1.key};
      Take(left, entries, b);
    }

    /** At the limit, drops whatever the earliest pair names. The queues cannot both be empty then. */
    method MakeRoom(key: string)
      requires Valid() && key !in items
      modifies `items, `entries, `model, ttlQueue, limitQueue
      ensures Valid() && HasRoom(model) && key !in items && entries == old(entries)
      ensures MadeRoom(old(model), model)
      ensures maxItems <= 0 || |old(items)| < maxItems ==> model == old(model)
      ensures maxItems > 0 && |old(items)| >= maxItems ==>
        var Q := if old(model).ttlPairs != multiset{} then old(model).ttlPairs else old(model).limitPairs;
        exists p :: p in Q && GoesFrom(Q, p) && items == old(items) - {p.1.key}
    {
      hide Holds, HasRoom, Queues, Recorded;
      if maxItems > 0 && |items| >= maxItems {
        NeverInconsistent(model);
        ghost var p := Evict(key);
        assert p in OutQueue(old(model)) && NextOut(old(model), p);
      } else {
        RoomAlready(model);
      }
      MadeRoomMeans(old(model), model);
    }

    method Evict(key: string) returns (ghost p: (int, Entry<V>))
      requires Valid() && key !in items && maxItems > 0 && PairCount(model) > 0
      modifies `items, `entries, `model, ttlQueue, limitQueue
      ensures Valid() && HasRoom(model) && key !in items && entries == old(entries)
      ensures NextOut(old(model), p) && model == AfterEvict(old(model), p, old(model).ttlPairs != multiset{})
    {
      hide Holds, HasRoom, Queues, Recorded, AfterEvict;
      var r := Pop(ttlQueue, limitQueue, model.ttlPairs, model.limitPairs, ttlQueue);
      if r.Some? {
        EvictHolds(model, r.value, true);
        RemoveKey(r.value, true);
        p := r.value;
      } else {
        p := EvictOldest(key);
      }
    }

    /** Nothing expires: the oldest pair in the limit queue. */
    method EvictOldest(key: string) returns (ghost p: (int, Entry<V>))
      requires Valid() && key !in items && maxItems > 0 && model.ttlPairs == multiset{} && PairCount(model) > 0
      modifies `items, `entries, `model, limitQueue
      ensures Valid() && HasRoom(model) && key !in items && entries == old(entries)
      ensures NextOut(old(model), p) && model == AfterEvict(old(model), p, false)
    {
      hide Holds, HasRoom, Queues, Recorded, AfterEvict;
      var r := Pop(ttlQueue, limitQueue, model.ttlPairs, model.limitPairs, limitQueue);
      EvictHolds(model, r.value, false);
      RemoveKey(r.value, false);
      p := r.value;
    }

    method Insert(key: string, value: V, ttl: int, now: nat)
      requires Valid() && HasRoom(model) && key !in items && model.clock <= now
      modifies this, ttlQueue, limitQueue
      ensures Valid() && ttlQueue == old(ttlQueue) && limitQueue == old(limitQueue) && fresh(entries - old(entries))
      ensures key in items && model == AfterInsert(old(model), items[key], value, ttl, now) && items[key].key == key
      ensures items[key] !in old(model).contents
    {
      hide Holds, HasRoom, Queues, Recorded;
      var e := new Entry(key, value, Expiry(now, ttl));
      RecordedIs(entries, model.contents, e);
      RecordedNew(entries, model.contents, e);
      InsertHolds(model, e, value, ttl, now);
      Admit(e, value, ttl, now);
    }

    method Admit(e: Entry<V>, value: V, ttl: int, now: nat)
      requires Queues(ttlQueue, limitQueue, model.ttlPairs, model.limitPairs) && items == model.items
      requires maxItems == model.maxItems
      requires Recorded(entries + {e}, model.contents[e := Written(value, Expiry(now, ttl))])
      modifies `items, `entries, `model, ttlQueue, limitQueue
      ensures Mirror(model) && model == AfterInsert(old(model), e, value, ttl, now) && entries == old(entries) + {e}
      ensures items == old(items)[e.key := e]
    {
      hide Queues, Recorded;
      if ttl > 0 {
        Push(ttlQueue, limitQueue, model.ttlPairs, model.limitPairs, ttlQueue, Milli(now + ttl), e);
      } else if maxItems > 0 {
        Push(ttlQueue, limitQueue, model.ttlPairs, model.limitPairs, limitQueue, Milli(now), e);
      }
      ghost var b := AfterInsert(model, e, value, ttl, now);
      var more := items[e.key := e];
      Take(more, entries + {e}, b);
    }

    method Delete(key: string) returns (found: bool)
      requires Valid()
      modifies `items, `entries, `model
      ensures Valid() && (found <==> key in old(items)) && entries == old(entries)
      ensures found ==> old(items)[key] in old(model).contents && model == AfterDelete(old(model), key)
      ensures !found ==> model == old(model)
      ensures found ==>
        model.writes == old(model).writes - {key} && forall t: nat :: Lookup(model.writes, key, t) == None
      ensures Right(old(model)) ==> Right(model)
      ensures NoneOutlived(old(model)) ==> NoneOutlived(model)
      ensures Tidy(old(model)) && (found ==> old(model).contents[old(items)[key]].exp.None?) ==> Tidy(model)
    {
      hide Holds;
      found := key in items;
      if found {
        DeleteHolds(model, key);
        DeleteStays(model, key);
        ghost var b := AfterDelete(model, key);
        var left := items - {key};
        Take(left, entries, b);
      }
    }

    method Clear()
      requires Valid()
      modifies this
      ensures Valid() && fresh(ttlQueue) && fresh(limitQueue) && items == map[] && entries == old(entries)
      ensures model.writes == map[] && model.clock == old(model).clock
      ensures Right(model) && NoneOutlived(model)
      ensures model.overwrites == old(model).overwrites && model.deletes == old(model).deletes
    {
      hide Holds, Queues, Recorded;
      ClearHolds(model);
      ghost var b := Cleared(model);
      ttlQueue := new Heap(MinHeap);
      limitQueue := new Heap(MinHeap);
      NewQueues(ttlQueue, limitQueue);
      Take(map[], entries, b);
    }

    /**
     The sweep. An item goes by a pair that is due under its key; what it leaves still answers for the last
     writes, holds nothing that expired in an earlier millisecond, and no pair of one.
     */
    method Sweep(now: nat)
      requires Valid() && model.clock <= now
      modifies `items, `entries, `model, ttlQueue
      ensures Valid() && Swept(old(model), model, now) && Clean(model) && Stopped(model) && model.clock == now
      ensures entries == old(entries) && model.writes == old(model).writes
      ensures Right(old(model)) && Resolved(old(model), now) ==>
        (Right(model) <==> forall p :: p in old(model).ttlPairs ==> !Threatens(old(model), p, now))
      ensures Right(old(model)) && NoneOutlived(old(model)) ==> Right(model) && NoneOutlived(model)
      ensures Tidy(old(model)) && Whole(now) ==> Tidy(model)
    {
      hide Holds, Queues, Recorded, Swept, Clean, Stopped, Right, NoneOutlived, Tidy, Resolved, Threatens;
      ClockHolds(model, now);
      SweptNothing(model, now);
      model := model.(clock := now);
      var done := false;
      while !done
        invariant Mirror(model) && Holds(model) && (done ==> Clean(model) && Stopped(model))
        invariant Swept(old(model), model, now) && model.clock == now && entries == old(entries)
        decreases !done, |model.ttlPairs|
      {
        done := SweepStep(now, old(model));
      }
      SweepStays(old(model), model, now);
      SweptWrites(old(model), model, now);
    }

    /** One look at the earliest pair: stale, still to come, or due. */
    method SweepStep(now: nat, ghost before: Model<V>) returns (done: bool)
      requires Mirror(model) && Holds(model) && Swept(before, model, now) && model.clock == now
      modifies `items, `entries, `model, ttlQueue
      ensures entries == old(entries)
      ensures Mirror(model) && Swept(before, model, now) && model.clock == now
      ensures Holds(model)
      ensures if done then Clean(model) && Stopped(model) else |model.ttlPairs| < |old(model).ttlPairs|
    {
      hide Holds, Queues, Recorded, Clean, Swept, Stopped;
      var top := Peak(ttlQueue, limitQueue, model.ttlPairs, model.limitPairs);
      if top.None? {
        SweepEnds(model, top);
        return true;
      }
      var (t, v) := top.value;
      assert v in model.contents by { PairsAreKnown(model, top.value); }
      RecordedIs(entries, model.contents, v);
      if v.exp.Some? && t == Milli(v.exp.value) && v.exp.value > now {
        assert StopsAt(model, top.value);
        SweepEnds(model, top);
        return true;
      }
      SweptFurther(before, model, now, top.value);
      Discard(top.value, v.exp.None? || t != Milli(v.exp.value));
      done := false;
    }

    /** The earliest pair goes, alone if it is stale. */
    method Discard(p: (int, Entry<V>), stale: bool)
      requires Mirror(model) && ttlQueue.data != [] && p == ttlQueue.data[0]
      modifies `items, `entries, `model, ttlQueue
      ensures Mirror(model) && model == if stale then AfterStale(old(model), p) else AfterEvict(old(model), p, true)
      ensures entries == old(entries)
    {
      hide Queues, Recorded;
      var _ := Pop(ttlQueue, limitQueue, model.ttlPairs, model.limitPairs, ttlQueue);
      if stale {
        Take(items, entries, AfterStale(model, p));
      } else {
        RemoveKey(p, true);
      }
    }
  }

  /** What else may be asked of a bucket, and when. */
  datatype Call<V> =
    | SetCall(key: string, value: V, ttl: int, at: nat)
    | DeleteCall(key: string, at: nat)
    | SweepCall(at: nat)

  predicate Spares<V>(c: Call<V>, key: string) { c.SweepCall? || c.key != key }

  /**
   A key is set and other things happen, but nothing to that key; then it is asked for. A hit is the value set,
   and only within its time to live; a right bucket hits throughout that time.
   */
  method SetThenGet<V>(
    b: Bucket<V>, key: string, value: V, ttl: int, now: nat, calls: seq<Call<V>>, later: nat) returns (r: Option<V>)
    requires b.Valid() && b.model.clock <= now <= later
    requires forall c :: c in calls ==> Spares(c, key) && now <= c.at <= later
    requires forall i, j :: 0 <= i < j < |calls| ==> calls[i].at <= calls[j].at
    modifies b, b.ttlQueue, b.limitQueue, b.entries
    ensures b.Valid()
    ensures r.Some? ==> r == Some(value) && (ttl <= 0 || later < now + ttl)
    ensures Right(b.model) && (ttl <= 0 || later < now + ttl) ==> r == Some(value)
  {
    hide Holds, Queues, Recorded, Right, NoneOutlived, PassesNone, Tidy, Swept, Stopped, Clean, Resolved;
    b.Set(key, value, ttl, now);
    RunCalls(b, calls, key, later);
    r := b.Get(key, later);
  }

  method RunCalls<V>(b: Bucket<V>, calls: seq<Call<V>>, ghost key: string, ghost later: nat)
    requires b.Valid() && b.model.clock <= later && key in b.model.writes
    requires forall c :: c in calls ==> Spares(c, key) && b.model.clock <= c.at <= later
    requires forall i, j :: 0 <= i < j < |calls| ==> calls[i].at <= calls[j].at
    modifies b, b.ttlQueue, b.limitQueue, b.entries
    ensures b.Valid() && b.model.clock <= later
    ensures key in b.model.writes && b.model.writes[key] == old(b.model).writes[key]
    ensures Lookup(b.model.writes, key, later) == Lookup(old(b.model).writes, key, later)
  {
    hide Holds, Queues, Recorded;
    for i := 0 to |calls|
      invariant b.Valid() && b.ttlQueue == old(b.ttlQueue) && b.limitQueue == old(b.limitQueue)
      invariant fresh(b.entries - old(b.entries))
      invariant b.model.clock <= later && (i < |calls| ==> b.model.clock <= calls[i].at)
      invariant key in b.model.writes && b.model.writes[key] == old(b.model).writes[key]
      invariant Lookup(b.model.writes, key, later) == Lookup(old(b.model).writes, key, later)
    {
      Perform(b, calls[i], key, later);
    }
  }

  method Perform<V>(b: Bucket<V>, c: Call<V>, ghost key: string, ghost later: nat)
    requires b.Valid() && b.model.clock <= c.at && Spares(c, key)
    modifies b, b.ttlQueue, b.limitQueue, b.entries
    ensures b.Valid() && b.ttlQueue == old(b.ttlQueue) && b.limitQueue == old(b.limitQueue)
    ensures fresh(b.entries - old(b.entries)) && b.model.clock <= c.at
    ensures Lookup(b.model.writes, key, later) == Lookup(old(b.model).writes, key, later)
    ensures key in old(b.model).writes ==> key in b.model.writes && b.model.writes[key] == old(b.model).writes[key]
  {
    hide Holds, Queues, Recorded, Right, NoneOutlived, PassesNone, Tidy, Swept, Stopped, Clean, Resolved;
    match c
    case SetCall(k, value, ttl, at) => b.Set(k, value, ttl, at);
    case DeleteCall(k, at) => var _ := b.Delete(k);
    case SweepCall(at) => b.Sweep(at);
  }

  /** A key is set for a millisecond and deleted: its pair stays behind, and the bucket is right. */
  method SetAndDelete<V>(key: string, value: V) returns (b: Bucket<V>, ghost e: Entry<V>)
    ensures b.Valid() && fresh(b) && fresh(b.ttlQueue) && fresh(b.limitQueue) && fresh(b.entries)
    ensures b.maxItems == 0 && b.model.clock == 0 && key !in b.items && Right(b.model)
    ensures (1, e) in b.model.ttlPairs && Haunts(b.model.contents, (1, e), key)
    ensures b.model.contents[e].exp == Some(1_000_000)
  {
    hide Holds, Queues, Recorded, NoneOutlived, PassesNone, Tidy;
    b := new Bucket(0);
    b.Set(key, value, 1_000_000, 0);
    e := b.items[key];
    var _ := b.Delete(key);
  }

  /**
   The key is set again for ten. Two milliseconds in, a sweep takes the new item by the old one's pair: the
   bucket has nothing where the plain map has the second value.
   */
  method StalePairTakesNewItem<V>(key: string, first: V, second: V) returns (b: Bucket<V>, r: Option<V>)
    ensures b.Valid() && b.model.clock == 2_000_000 && b.maxItems == 0
    ensures r == None && Lookup(b.model.writes, key, 2_000_000) == Some(second)
  {
    hide Holds, Queues, Recorded, Swept, Stopped, Clean, Right, NoneOutlived, PassesNone, Tidy, Resolved;
    ghost var e;
    b, e := SetAndDelete(key, first);
    b.Set(key, second, 10_000_000, 0);
    ghost var m := b.model;
    assert Threatens(m, (1, e), 2_000_000);
    b.Sweep(2_000_000);
    ThreatIsLost(m, b.model, 2_000_000, (1, e));
    r := b.Get(key, 2_000_000);
  }
}
