/** The frequency index of the LFU cache (`_cache_entries`): a map from key
    to `[queue_id, value]`, where `queue_id` is the slot of the key in the
    priority sequence.  The one invariant the cache keeps on it is that it
    and the sequence index each other. */
module FrequencyIndex {
  import opened PrioritySequence

  /** The `[queue_id, value]` pair stored for a key. */
  datatype Entry<V> = Entry(slot: nat, value: V)

  /** Every key of the map points at the slot holding that key, and every
      slot's key is in the map pointing back at that slot. */
  ghost predicate Indexes<K, V>(m: map<K, Entry<V>>, q: seq<Slot<K>>)
  {
    && (forall k :: k in m ==> m[k].slot < |q| && q[m[k].slot].key == k)
    && (forall p :: 0 <= p < |q| ==> q[p].key in m && m[q[p].key].slot == p)
  }

  /** An index pins the sequence down to distinct keys, exactly the map's. */
  lemma IndexedKeys<K, V>(m: map<K, Entry<V>>, q: seq<Slot<K>>)
    requires Indexes(m, q)
    ensures DistinctKeys(q)
    ensures m.Keys == KeysOf(q)
  {
    forall k | k in m ensures k in KeysOf(q) {
      assert q[m[k].slot].key == k;
    }
  }

  /** The map and the sequence have the same size. */
  lemma {:induction false} IndexSize<K, V>(m: map<K, Entry<V>>, q: seq<Slot<K>>)
    requires Indexes(m, q)
    ensures |m| == |q|
  {
    if |q| > 0 {
      var last := q[|q| - 1].key;
      var q' := q[..|q| - 1];
      var m' := m - {last};
      forall k | k in m' ensures m'[k].slot < |q'| && q'[m'[k].slot].key == k {
        assert m[k].slot != |q| - 1;
      }
      IndexSize(m', q');
      assert m.Keys == m'.Keys + {last};
    }
  }

  /** The index once slot `i`, holding `key`, has been deleted: the key is
      gone and every later entry's slot is one less. */
  function IndexAfterRemove<K, V>(m: map<K, Entry<V>>, key: K, i: nat): (r: map<K, Entry<V>>)
    ensures r.Keys == m.Keys - {key}
    ensures forall k :: k in r ==> r[k].value == m[k].value
  {
    map k | k in m && k != key :: if m[k].slot > i then m[k].(slot := m[k].slot - 1) else m[k]
  }

  /** The index once `key` has been promoted from slot `i` to slot `j`: the
      key points at `j` and every entry it passed is one slot further on. */
  function IndexAfterPromote<K, V>(m: map<K, Entry<V>>, key: K, i: nat, j: nat): (r: map<K, Entry<V>>)
    ensures r.Keys == m.Keys
    ensures key in m ==> r[key] == m[key].(slot := j)
    ensures forall k :: k in r ==> r[k].value == m[k].value
  {
    map k | k in m :: if k == key then m[k].(slot := j)
                      else if j <= m[k].slot < i then m[k].(slot := m[k].slot + 1)
                      else m[k]
  }

  /** The index part-way through the promotion loop: the entries whose slot
      lies in `[j, i)` have been moved one slot on, nothing else has. */
  function PartlyPromoted<K, V>(m: map<K, Entry<V>>, key: K, i: nat, j: nat): map<K, Entry<V>>
  {
    map k | k in m :: if k != key && j <= m[k].slot < i then m[k].(slot := m[k].slot + 1) else m[k]
  }

  /** The promotion loop starts from the untouched index. */
  lemma PromoteStart<K, V>(m: map<K, Entry<V>>, key: K, i: nat)
    ensures PartlyPromoted(m, key, i, i) == m
  {
  }

  /** One swap of the promotion loop moves the neighbour at slot `j - 1`
      on to slot `j`. */
  lemma PromoteStep<K, V>(m: map<K, Entry<V>>, q: seq<Slot<K>>, i: nat, j: nat)
    requires Indexes(m, q) && 0 < j <= i < |q|
    ensures var k, m' := q[j - 1].key, PartlyPromoted(m, q[i].key, i, j);
            k in m' && m'[k := m'[k].(slot := j)] == PartlyPromoted(m, q[i].key, i, j - 1)
  {
    var k, m' := q[j - 1].key, PartlyPromoted(m, q[i].key, i, j);
    assert m[k].slot == j - 1 && m[q[i].key].slot == i;
  }

  /** Writing the promoted key's slot last completes the promotion. */
  lemma PromoteDone<K, V>(m: map<K, Entry<V>>, q: seq<Slot<K>>, i: nat, j: nat)
    requires Indexes(m, q) && j <= i < |q|
    ensures var key := q[i].key;
            PartlyPromoted(m, key, i, j)[key := Entry(j, m[key].value)] == IndexAfterPromote(m, key, i, j)
  {
    assert m[q[i].key].slot == i;
  }

  /** The index part-way through the loop of a deletion at slot `i`: `key`
      is gone and the entries whose slot lies in `(i, p]` have moved one slot
      down, nothing else has. */
  function PartlyRemoved<K, V>(m: map<K, Entry<V>>, key: K, i: nat, p: nat): map<K, Entry<V>>
  {
    map k | k in m && k != key :: if i < m[k].slot <= p then m[k].(slot := m[k].slot - 1) else m[k]
  }

  /** The deletion loop starts from the index without the deleted key. */
  lemma RemoveStart<K, V>(m: map<K, Entry<V>>, key: K, i: nat)
    ensures PartlyRemoved(m, key, i, i) == m - {key}
  {
  }

  /** One step of the deletion loop moves the entry at old slot `p + 1`
      down to slot `p`. */
  lemma RemoveStep<K, V>(m: map<K, Entry<V>>, q: seq<Slot<K>>, i: nat, p: nat)
    requires Indexes(m, q) && i <= p && p + 1 < |q|
    ensures var k, m' := q[p + 1].key, PartlyRemoved(m, q[i].key, i, p);
            k in m' && m'[k := m'[k].(slot := m'[k].slot - 1)] == PartlyRemoved(m, q[i].key, i, p + 1)
  {
    assert m[q[p + 1].key].slot == p + 1 && m[q[i].key].slot == i;
  }

  /** Once every later slot has been visited the deletion is complete. */
  lemma RemoveDone<K, V>(m: map<K, Entry<V>>, q: seq<Slot<K>>, i: nat)
    requires Indexes(m, q) && i < |q|
    ensures PartlyRemoved(m, q[i].key, i, |q| - 1) == IndexAfterRemove(m, q[i].key, i)
  {
  }

  /** The stored values by key, slots forgotten. */
  function ValuesOf<K, V>(m: map<K, Entry<V>>): map<K, V>
  {
    map k | k in m :: m[k].value
  }

  /** Overwriting a key's value leaves its slot, and so the index, alone. */
  lemma StoreKeepsIndex<K, V>(m: map<K, Entry<V>>, q: seq<Slot<K>>, key: K, value: V)
    requires Indexes(m, q) && key in m
    ensures Indexes(m[key := m[key].(value := value)], q)
  {
  }

  /** Storing one entry stores its value and keeps every other. */
  lemma ValuesOfStore<K, V>(m: map<K, Entry<V>>, key: K, e: Entry<V>)
    ensures ValuesOf(m[key := e]) == ValuesOf(m)[key := e.value]
  {
  }

  /** A promotion renumbers slots only: the same keys keep the same values. */
  lemma PromoteKeepsValues<K, V>(m: map<K, Entry<V>>, key: K, i: nat, j: nat)
    ensures ValuesOf(IndexAfterPromote(m, key, i, j)) == ValuesOf(m)
  {
  }

  /** A deletion drops the deleted key's value and keeps every other. */
  lemma RemoveKeepsValues<K, V>(m: map<K, Entry<V>>, key: K, i: nat)
    ensures ValuesOf(IndexAfterRemove(m, key, i)) == ValuesOf(m) - {key}
  {
  }

  /** Deleting a slot and decrementing the later slots keeps the index exact. */
  lemma RemoveKeepsIndex<K, V>(m: map<K, Entry<V>>, q: seq<Slot<K>>, i: nat)
    requires Indexes(m, q) && i < |q|
    ensures Indexes(IndexAfterRemove(m, q[i].key, i), RemoveAt(q, i))
  {
    var m', q' := IndexAfterRemove(m, q[i].key, i), RemoveAt(q, i);
    forall k | k in m' ensures m'[k].slot < |q'| && q'[m'[k].slot].key == k {
      assert m[k].slot != i;
    }
    forall p | 0 <= p < |q'| ensures q'[p].key in m' && m'[q'[p].key].slot == p {
      var o := if p < i then p else p + 1;
      assert q'[p] == q[o] && m[q[o].key].slot == o;
    }
  }

  /** Moving the entry at slot `i` to slot `j` and the passed entries' slots
      up by one keeps the index exact. */
  lemma MoveKeepsIndex<K, V>(m: map<K, Entry<V>>, q: seq<Slot<K>>, i: nat, j: nat)
    requires Indexes(m, q) && j <= i < |q|
    ensures Indexes(IndexAfterPromote(m, q[i].key, i, j), Moved(q, i, j))
  {
    var m', q' := IndexAfterPromote(m, q[i].key, i, j), Moved(q, i, j);
    forall k | k in m' ensures m'[k].slot < |q'| && q'[m'[k].slot].key == k {
      var o := m[k].slot;
      if k == q[i].key {
        MovedAt(q, i, j, j);
      } else if j <= o < i {
        MovedAt(q, i, j, o + 1);
      } else {
        MovedAt(q, i, j, o);
      }
    }
    forall p | 0 <= p < |q'| ensures q'[p].key in m' && m'[q'[p].key].slot == p {
      MovedAt(q, i, j, p);
      var o := if p < j || p > i then p else if p == j then i else p - 1;
      assert q'[p].key == q[o].key && m[q[o].key].slot == o;
    }
  }

  /** A whole promotion, as `_increment_access_count` performs it, keeps the
      index exact, the values as they were and the sequence ordered. */
  lemma PromotionKeepsIndex<K, V>(m: map<K, Entry<V>>, q: seq<Slot<K>>, i: nat)
    requires Indexes(m, q) && i < |q|
    ensures var m' := IndexAfterPromote(m, q[i].key, i, Landing(q, i, q[i].count + 1));
            && Indexes(m', Promoted(q, i))
            && ValuesOf(m') == ValuesOf(m)
            && (Ordered(q) ==> Ordered(Promoted(q, i)))
  {
    MoveKeepsIndex(m, q, i, Landing(q, i, q[i].count + 1));
    PromoteKeepsValues(m, q[i].key, i, Landing(q, i, q[i].count + 1));
    if Ordered(q) {
      PromotedOrdered(q, i);
    }
  }

  /** Popping the last slot and deleting its key keeps the index exact. */
  lemma PopKeepsIndex<K, V>(m: map<K, Entry<V>>, q: seq<Slot<K>>)
    requires Indexes(m, q) && 0 < |q|
    ensures Indexes(m - {q[|q| - 1].key}, q[..|q| - 1])
  {
    var m', q' := m - {q[|q| - 1].key}, q[..|q| - 1];
    forall k | k in m' ensures m'[k].slot < |q'| && q'[m'[k].slot].key == k {
      assert m[k].slot != |q| - 1;
    }
  }

  /** Appending a new key at the end and pointing it there keeps the index
      exact. */
  lemma AppendKeepsIndex<K, V>(m: map<K, Entry<V>>, q: seq<Slot<K>>, key: K, value: V)
    requires Indexes(m, q) && key !in m
    ensures Indexes(m[key := Entry(|q|, value)], q + [Slot(key, 1)])
  {
  }
}
