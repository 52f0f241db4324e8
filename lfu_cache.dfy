/** The LFU cache class.  The two copies of `LFUCache` in the repository
    (the package's `lfu_cache/models.py` and the single-file
    `lfu_cache.py`) run the same algorithm; they differ only in the `limit`
    setter, which the package validates and the single file does not.  Both
    setters are modelled; everything else is shared. */
module Cache {
  import opened Wrappers
  import opened PrioritySequence
  import opened FrequencyIndex

  /** `LFUCacheException`, raised for a limit that is neither None nor an
      integer >= 0. */
  datatype CacheError = InvalidLimit

  /** What a caller may pass as a limit: None, an integer, or a value of
      some other type (such as a string). */
  datatype LimitArg = Unlimited | Integer(n: int) | NotAnInt

  /** One row of `retrieve()`: the `CacheEntry(key, value, access_count)`
      named tuple. */
  datatype CacheEntry<K, V> = CacheEntry(key: K, value: V, accessCount: nat)

  /** The limit check shared by the constructor and the validating setter:
      None means unbounded, an integer must be >= 0, anything else is a
      configuration error. */
  function ValidateLimit(arg: LimitArg): (r: Result<Option<nat>, CacheError>)
    ensures r.Failure? <==> arg.NotAnInt? || (arg.Integer? && arg.n < 0)
    ensures r.Success? ==> (r.value.None? <==> arg.Unlimited?)
    ensures r.Success? && r.value.Some? ==> arg == Integer(r.value.value)
  {
    match arg
    case Unlimited => Success(None)
    case Integer(n) => if n >= 0 then Success(Some(n)) else Failure(InvalidLimit)
    case NotAnInt => Failure(InvalidLimit)
  }

  /** A slice bound as Python clamps it to a length `n`; only non-negative
      bounds are modelled. */
  function SliceBound(b: Option<nat>, default: nat, n: nat): (x: nat)
    requires default <= n
    ensures x <= n
    ensures b.None? ==> x == default
    ensures b.Some? && b.value <= n ==> x == b.value
    ensures b.Some? && b.value > n ==> x == n
  {
    match b
    case None => default
    case Some(v) => if v <= n then v else n
  }

  /** The rows `retrieve` builds for the slots `lo` to `hi` of a queue,
      each slot's value looked up in the index. */
  function Rows<K, V>(q: seq<Slot<K>>, m: map<K, Entry<V>>, lo: nat, hi: nat): (r: seq<CacheEntry<K, V>>)
    requires lo <= hi <= |q|
    requires forall p :: 0 <= p < |q| ==> q[p].key in m
    ensures |r| == hi - lo
    ensures forall p :: 0 <= p < |r| ==>
              r[p] == CacheEntry(q[lo + p].key, m[q[lo + p].key].value, q[lo + p].count)
  {
    seq(hi - lo, p requires 0 <= p < hi - lo =>
          CacheEntry(q[lo + p].key, m[q[lo + p].key].value, q[lo + p].count))
  }

  /** The rows of a whole indexed queue hold exactly the keys of the index. */
  lemma RowsCoverIndex<K, V>(q: seq<Slot<K>>, m: map<K, Entry<V>>)
    requires Indexes(m, q)
    ensures (set p | 0 <= p < |q| :: Rows(q, m, 0, |q|)[p].key) == m.Keys
  {
    var r := Rows(q, m, 0, |q|);
    forall k | k in m ensures k in set p | 0 <= p < |q| :: r[p].key {
      assert r[m[k].slot].key == k;
    }
  }

  /** Rows of an ordered, indexed queue come highest count first, with
      distinct keys of the index and positive counts. */
  lemma RowsOrdered<K, V>(q: seq<Slot<K>>, m: map<K, Entry<V>>, lo: nat, hi: nat)
    requires Indexes(m, q) && Ordered(q) && lo <= hi <= |q|
    ensures var r := Rows(q, m, lo, hi);
            && (forall p :: 0 <= p < |r| ==> r[p].key in m && r[p].accessCount >= 1)
            && (forall a, b :: 0 <= a < b < |r| ==>
                  r[a].accessCount >= r[b].accessCount && r[a].key != r[b].key)
  {
    IndexedKeys(m, q);
  }

  /** The swap loop of `_increment_access_count`: the count at slot `i`
      goes up by one and the entry is swapped leftwards past every
      neighbour with a strictly smaller count, each displaced neighbour's
      index moving up by one.  The entry comes to rest at its landing slot
      `j`; its own index is not yet written. */
  method SwapLeft<K, V>(queue: seq<Slot<K>>, entries: map<K, Entry<V>>, i: nat)
      returns (queue': seq<Slot<K>>, entries': map<K, Entry<V>>, j: nat)
    requires Indexes(entries, queue) && i < |queue|
    ensures j == Landing(queue, i, queue[i].count + 1)
    ensures queue' == Moved(queue, i, j)
    ensures entries' == PartlyPromoted(entries, queue[i].key, i, j)
  {
    ghost var key, c := queue[i].key, queue[i].count + 1;
    queue' := queue[i := Bump(queue[i])];
    entries' := entries;
    MovedInPlace(queue, i);
    PromoteStart(entries, key, i);
    j := i;
    while j > 0 && queue'[j].count > queue'[j - 1].count
      invariant j <= i && queue' == Moved(queue, i, j)
      invariant forall p :: j <= p < i ==> queue[p].count < c
      invariant entries' == PartlyPromoted(entries, key, i, j)
    {
      MovedSwap(queue, i, j);
      MovedAt(queue, i, j, j - 1);
      PromoteStep(entries, queue, i, j);
      var nextKey := queue'[j - 1].key;
      entries' := entries'[nextKey := entries'[nextKey].(slot := j)];
      queue' := queue'[j := queue'[j - 1]][j - 1 := queue'[j]];
      j := j - 1;
    }
    LandingUnique(queue, i, c, j);
  }

  /** `_increment_access_count` on the queue and index it updates: after the
      swap loop the key's own index is written once, at its landing slot.
      The index stays exact, the values and the order are kept, and the
      queue is `Promoted`. */
  method PromoteEntry<K, V>(queue: seq<Slot<K>>, entries: map<K, Entry<V>>, key: K)
      returns (queue': seq<Slot<K>>, entries': map<K, Entry<V>>)
    requires Indexes(entries, queue) && key in entries
    ensures entries[key].slot < |queue| && queue' == Promoted(queue, entries[key].slot)
    ensures Indexes(entries', queue')
    ensures Ordered(queue) ==> Ordered(queue')
    ensures ValuesOf(entries') == ValuesOf(entries)
  {
    var i := entries[key].slot;
    var j;
    queue', entries', j := SwapLeft(queue, entries, i);
    PromoteDone(entries, queue, i, j);
    entries' := entries'[key := Entry(j, entries'[key].value)];
    PromotionKeepsIndex(entries, queue, i);
  }

  /** The deletion shared by `remove` and `_remove_by_id`, on the queue and
      index it updates: the slot is deleted from the queue, its key from the
      index, and every later entry's stored index is decremented to follow
      the shift. */
  method DeleteEntry<K, V>(queue: seq<Slot<K>>, entries: map<K, Entry<V>>, slot: nat)
      returns (queue': seq<Slot<K>>, entries': map<K, Entry<V>>)
    requires Indexes(entries, queue) && slot < |queue|
    ensures queue' == RemoveAt(queue, slot)
    ensures entries' == IndexAfterRemove(entries, queue[slot].key, slot)
  {
    var key := queue[slot].key;
    RemoveStart(entries, key, slot);
    entries' := entries - {key};
    queue' := queue[..slot] + queue[slot + 1..];
    var p := slot;
    while p < |queue'|
      invariant slot <= p <= |queue'| && queue' == RemoveAt(queue, slot)
      invariant entries' == PartlyRemoved(entries, key, slot, p)
    {
      RemoveStep(entries, queue, slot, p);
      var k := queue'[p].key;
      entries' := entries'[k := entries'[k].(slot := entries'[k].slot - 1)];
      p := p + 1;
    }
    RemoveDone(entries, queue, slot);
  }

  /** The truncation loop of the `limit` setter, on the queue and index it
      updates: the lowest-priority entry is popped, and its key deleted,
      until at most `n` entries are left. */
  method Truncate<K, V>(queue: seq<Slot<K>>, entries: map<K, Entry<V>>, n: nat)
      returns (queue': seq<Slot<K>>, entries': map<K, Entry<V>>)
    requires Indexes(entries, queue)
    ensures queue' == if |queue| > n then queue[..n] else queue
    ensures Indexes(entries', queue')
    ensures Ordered(queue) ==> Ordered(queue')
    ensures forall k :: k in entries' <==> k in entries && entries[k].slot < n
    ensures forall k :: k in entries' ==> entries'[k] == entries[k]
  {
    queue', entries' := queue, entries;
    var excess := |queue'| - n;
    while excess > 0
      invariant excess == |queue'| - n
      invariant |queue'| <= |queue| && queue' == queue[..|queue'|]
      invariant |queue'| == |queue| || |queue'| >= n
      invariant Indexes(entries', queue')
      invariant forall k :: k in entries' <==> k in entries && entries[k].slot < |queue'|
      invariant forall k :: k in entries' ==> entries'[k] == entries[k]
    {
      PopKeepsIndex(entries', queue');
      var item := queue'[|queue'| - 1];
      queue' := queue'[..|queue'| - 1];
      entries' := entries' - {item.key};
      excess := excess - 1;
    }
    if Ordered(queue) {
      PrefixOrdered(queue, |queue'|);
    }
  }

  class LFUCache<K(==), V> {
    /** `_limit`: None for unbounded. */
    var limit: Option<nat>
    /** `_cache_entries`: key -> [queue_id, value]. */
    var entries: map<K, Entry<V>>
    /** `_priority_queue`: [key, access_count], most used first. */
    var queue: seq<Slot<K>>
    /** `_hits`: successful `get`s. */
    var hits: nat
    /** `_misses`: stores by `add`. */
    var misses: nat

    /** The capacity bound. */
    ghost predicate WithinLimit()
      reads this
    {
      limit.Some? ==> |queue| <= limit.value
    }

    /** The invariant between public calls: the index and the queue index
        each other, the queue is ordered by count, and the limit holds. */
    ghost predicate Valid()
      reads this
    {
      Indexes(entries, queue) && Ordered(queue) && WithinLimit()
    }

    /** The stored values by key. */
    ghost function Values(): map<K, V>
      reads this
    {
      ValuesOf(entries)
    }

    /** `__init__` once the limit has been checked: an empty cache. */
    constructor (limit: Option<nat>)
      ensures Valid()
      ensures this.limit == limit && queue == [] && entries == map[]
      ensures hits == 0 && misses == 0
    {
      this.limit := limit;
      entries := map[];
      queue := [];
      hits := 0;
      misses := 0;
    }

    /** `__init__`: a limit that is not None or an integer >= 0 is refused
        before anything is built.  The limit defaults to 128. */
    static method Create(arg: LimitArg := Integer(128)) returns (r: Result<LFUCache<K, V>, CacheError>)
      ensures r.Failure? <==> ValidateLimit(arg).Failure?
      ensures r.Success? ==>
                && fresh(r.value) && r.value.Valid()
                && r.value.limit == ValidateLimit(arg).value
                && r.value.queue == [] && r.value.entries == map[]
                && r.value.hits == 0 && r.value.misses == 0
    {
      var checked := ValidateLimit(arg);
      if checked.Failure? {
        return Failure(checked.error);
      }
      var cache := new LFUCache(checked.value);
      return Success(cache);
    }

    /** `__len__`: the number of entries, which the index and the queue agree on. */
    function Len(): (n: nat)
      reads this
      requires Valid()
      ensures n == |entries|
    {
      IndexSize(entries, queue);
      |queue|
    }

    /** `has_cache`: the key is in the index exactly when some slot holds it. */
    function HasCache(key: K): (r: bool)
      reads this
      requires Valid()
      ensures r <==> exists p :: 0 <= p < |queue| && queue[p].key == key
    {
      key in entries
    }

    /** `retrieve(start, end)`: the entries of `_priority_queue[start:end]`,
        each with the value the index holds for its key; both bounds default
        to None, which gives the whole queue. */
    function Retrieve(start: Option<nat> := None, end: Option<nat> := None): (r: seq<CacheEntry<K, V>>)
      reads this
      requires Valid()
      ensures var lo, hi := SliceBound(start, 0, |queue|), SliceBound(end, |queue|, |queue|);
              && |r| == (if lo < hi then hi - lo else 0)
              && forall p :: 0 <= p < |r| ==>
                   r[p].key == queue[lo + p].key && r[p].accessCount == queue[lo + p].count
      ensures forall p :: 0 <= p < |r| ==>
                r[p].key in entries && r[p].value == entries[r[p].key].value
    {
      var lo, hi := SliceBound(start, 0, |queue|), SliceBound(end, |queue|, |queue|);
      if lo < hi then Rows(queue, entries, lo, hi) else []
    }

    /** What `retrieve` shows of the invariant: rows come highest count
        first, with positive counts and no key twice, and the whole view
        holds exactly the cached keys. */
    lemma RetrieveOrdered(start: Option<nat>, end: Option<nat>)
      requires Valid()
      ensures var r := Retrieve(start, end);
              && (forall p :: 0 <= p < |r| ==> r[p].accessCount >= 1)
              && (forall a, b :: 0 <= a < b < |r| ==>
                    r[a].accessCount >= r[b].accessCount && r[a].key != r[b].key)
              && (start.None? && end.None? ==> entries.Keys == set p | 0 <= p < |r| :: r[p].key)
    {
      var lo, hi := SliceBound(start, 0, |queue|), SliceBound(end, |queue|, |queue|);
      if lo < hi {
        RowsCoverIndex(queue, entries);
        RowsOrdered(queue, entries, lo, hi);
      } else {
        IndexSize(entries, queue);
      }
    }

    /** `clear`: both structures emptied; the limit and the hit and miss
        counters are kept. */
    method Clear()
      requires Valid()
      modifies this`queue, this`entries
      ensures Valid()
      ensures queue == [] && entries == map[]
    {
      entries := map[];
      queue := [];
    }

    /** `_increment_access_count`: the key's count goes up by one and the
        entry is swapped leftwards past every neighbour with a strictly
        smaller count, each displaced neighbour's index moving up by one;
        the key's own index is written once the entry has come to rest. */
    method IncrementAccessCount(key: K)
      requires Valid() && key in entries
      modifies this`queue, this`entries
      ensures Valid()
      ensures queue == Promoted(old(queue), old(entries[key].slot))
      ensures Values() == old(Values())
    {
      queue, entries := PromoteEntry(queue, entries, key);
      assert Indexes(entries, queue) && Ordered(queue) && WithinLimit();
    }

    /** The body shared by `remove` and `_remove_by_id`: the slot is deleted
        from the queue, its key from the index, and every later entry's
        stored index is decremented to follow the shift. */
    method DeleteSlot(slot: nat)
      requires Valid() && slot < |queue|
      modifies this`queue, this`entries
      ensures Valid()
      ensures queue == RemoveAt(old(queue), slot)
      ensures entries == IndexAfterRemove(old(entries), old(queue)[slot].key, slot)
      ensures Values() == old(Values()) - {old(queue)[slot].key}
    {
      RemoveKeepsIndex(entries, queue, slot);
      RemoveAtOrdered(queue, slot);
      RemoveKeepsValues(entries, queue[slot].key, slot);
      queue, entries := DeleteEntry(queue, entries, slot);
      assert Indexes(entries, queue) && Ordered(queue) && WithinLimit();
    }

    /** `_remove_by_id`: a slot outside the queue is refused with False;
        otherwise that slot is deleted. */
    method RemoveById(queueId: int) returns (removed: bool)
      requires Valid()
      modifies this`queue, this`entries
      ensures Valid()
      ensures removed == (0 <= queueId < |old(queue)|)
      ensures removed ==> && queue == RemoveAt(old(queue), queueId)
                          && Values() == old(Values()) - {old(queue)[queueId].key}
      ensures !removed ==> queue == old(queue) && entries == old(entries)
    {
      if !(|queue| > queueId >= 0) {
        return false;
      }
      DeleteSlot(queueId);
      return true;
    }

    /** `remove`: an absent key is refused with False; otherwise its slot is
        deleted, the later entries moving up one slot each. */
    method Remove(key: K) returns (removed: bool)
      requires Valid()
      modifies this`queue, this`entries
      ensures Valid()
      ensures removed == (key in old(entries))
      ensures removed ==> && queue == RemoveAt(old(queue), old(entries[key].slot))
                          && Values() == old(Values()) - {key}
                          && forall k :: k in entries ==>
                               entries[k].slot == if old(entries[k].slot) > old(entries[key].slot)
                                                  then old(entries[k].slot) - 1
                                                  else old(entries[k].slot)
      ensures !removed ==> queue == old(queue) && entries == old(entries)
    {
      if !HasCache(key) {
        return false;
      }
      DeleteSlot(entries[key].slot);
      return true;
    }

    /** The truncation loop of the `limit` setter: the lowest-priority entry
        is popped, and its key deleted, until at most `n` entries are left. */
    method TruncateTo(n: nat)
      requires Valid()
      modifies this`queue, this`entries
      ensures Valid()
      ensures queue == if |old(queue)| > n then old(queue)[..n] else old(queue)
      ensures forall k :: k in entries <==> k in old(entries) && old(entries[k].slot) < n
      ensures forall k :: k in entries ==> entries[k] == old(entries[k])
    {
      queue, entries := Truncate(queue, entries, n);
    }

    /** The `limit` setter of `lfu_cache/models.py`: a negative or non-integer
        limit is refused before anything changes; an integer limit drops the
        lowest-priority entries down to it; None lifts the bound. */
    method SetLimit(arg: LimitArg) returns (outcome: Outcome<CacheError>)
      requires Valid()
      modifies this`queue, this`entries, this`limit
      ensures Valid()
      ensures outcome.Fail? <==> ValidateLimit(arg).Failure?
      ensures outcome.Fail? ==> && limit == old(limit)
                                && queue == old(queue) && entries == old(entries)
      ensures outcome.Pass? ==> && limit == ValidateLimit(arg).value
                                && queue == (if limit.Some? && |old(queue)| > limit.value
                                             then old(queue)[..limit.value] else old(queue))
                                && forall k :: k in entries ==> entries[k] == old(entries[k])
    {
      var checked := ValidateLimit(arg);
      if checked.Failure? {
        return Fail(checked.error);
      }
      if checked.value.Some? {
        TruncateTo(checked.value.value);
      }
      limit := checked.value;
      return Pass;
    }

    /** The `limit` setter of `lfu_cache.py`, which does not validate: an
        integer limit drops the lowest-priority entries down to it; None
        lifts the bound. */
    method SetLimitUnchecked(newLimit: Option<nat>)
      requires Valid()
      modifies this`queue, this`entries, this`limit
      ensures Valid()
      ensures limit == newLimit
      ensures queue == (if newLimit.Some? && |old(queue)| > newLimit.value
                        then old(queue)[..newLimit.value] else old(queue))
      ensures forall k :: k in entries ==> entries[k] == old(entries[k])
    {
      if newLimit.Some? {
        TruncateTo(newLimit.value);
      }
      limit := newLimit;
    }

    /** `get`: an absent key gives `default` and changes nothing; a present
        key counts a hit, is promoted, and gives its stored value. */
    method Get(key: K, default: V) returns (value: V)
      requires Valid()
      modifies this`queue, this`entries, this`hits
      ensures Valid()
      ensures key !in old(entries) ==> && value == default && hits == old(hits)
                                       && queue == old(queue) && entries == old(entries)
      ensures key in old(entries) ==> && value == old(entries[key].value)
                                      && hits == old(hits) + 1
                                      && queue == Promoted(old(queue), old(entries[key].slot))
                                      && Values() == old(Values())
    {
      if !HasCache(key) {
        return default;
      }
      hits := hits + 1;
      assert key in Values();
      IncrementAccessCount(key);
      assert key in Values();
      value := entries[key].value;
    }

    /** The new-key branch of `add`: a full cache first evicts slot
        `limit - 1`, which the limit makes the last slot; the key is then
        appended with count 1 and indexed at the new tail. */
    method InsertNew(key: K, value: V)
      requires Valid() && key !in entries && limit != Some(0)
      modifies this`queue, this`entries
      ensures Valid()
      ensures if limit.Some? && |old(queue)| >= limit.value then
                && |old(queue)| == limit.value && |queue| == limit.value
                && queue == RemoveAt(old(queue), limit.value - 1) + [Slot(key, 1)]
                && Values() == (old(Values()) - {old(queue)[limit.value - 1].key})[key := value]
              else
                && queue == old(queue) + [Slot(key, 1)]
                && Values() == old(Values())[key := value]
    {
      assert key !in Values();
      if limit.Some? && |queue| >= limit.value {
        var _ := RemoveById(limit.value - 1);
        assert key !in Values();
      }
      AppendNew(key, value);
    }

    /** The append step of `add`: `[key, 1]` goes at the tail of the queue
        and the key is indexed at that slot, the old length. */
    method AppendNew(key: K, value: V)
      requires Indexes(entries, queue) && Ordered(queue) && key !in entries
      requires limit.Some? ==> |queue| < limit.value
      modifies this`queue, this`entries
      ensures Valid()
      ensures queue == old(queue) + [Slot(key, 1)]
      ensures Values() == old(Values())[key := value]
    {
      IndexSize(entries, queue);
      var queueLen := |entries|;
      AppendOrdered(queue, key);
      AppendKeepsIndex(entries, queue, key, value);
      ValuesOfStore(entries, key, Entry(queueLen, value));
      queue := queue + [Slot(key, 1)];
      entries := entries[key := Entry(queueLen, value)];
      assert Indexes(entries, queue) && Ordered(queue) && WithinLimit();
    }

    /** The update branch of `add`: the key is promoted as by an access,
        then its value is overwritten in place. */
    method UpdateExisting(key: K, value: V)
      requires Valid() && key in entries
      modifies this`queue, this`entries
      ensures Valid()
      ensures queue == Promoted(old(queue), old(entries[key].slot))
      ensures Values() == old(Values())[key := value]
    {
      assert key in Values();
      IncrementAccessCount(key);
      assert key in Values();
      StoreKeepsIndex(entries, queue, key, value);
      ValuesOfStore(entries, key, entries[key].(value := value));
      entries := entries[key := entries[key].(value := value)];
      assert Indexes(entries, queue) && Ordered(queue) && WithinLimit();
    }

    /** `add`: with limit 0 nothing is stored.  A new key, after evicting
        slot `limit - 1` if the cache is full, is appended with count 1.  An
        existing key is left alone unless `update`, in which case it is
        promoted and its value overwritten (`update` defaults to false).
        Every store counts a miss. */
    method Add(key: K, value: V, update: bool := false) returns (added: bool)
      requires Valid()
      modifies this`queue, this`entries, this`misses
      ensures Valid()
      ensures added == (old(limit) != Some(0) && (key !in old(entries) || update))
      ensures !added ==> && queue == old(queue) && entries == old(entries)
                         && misses == old(misses)
      ensures added ==> misses == old(misses) + 1
      ensures added && key !in old(entries) ==>
                if limit.Some? && |old(queue)| >= limit.value then
                  && |old(queue)| == limit.value && |queue| == limit.value
                  && queue == RemoveAt(old(queue), limit.value - 1) + [Slot(key, 1)]
                  && Values() == (old(Values()) - {old(queue)[limit.value - 1].key})[key := value]
                else
                  && queue == old(queue) + [Slot(key, 1)]
                  && Values() == old(Values())[key := value]
      ensures added && key in old(entries) ==>
                && queue == Promoted(old(queue), old(entries[key].slot))
                && Values() == old(Values())[key := value]
    {
      if limit == Some(0) {
        return false;
      }
      if !HasCache(key) {
        InsertNew(key, value);
        misses := misses + 1;
        return true;
      } else if update {
        UpdateExisting(key, value);
        misses := misses + 1;
        return true;
      }
      return false;
    }
  }
}
