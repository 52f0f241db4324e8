/** The priority sequence of the LFU cache (`_priority_queue`): a list of
    (key, access count) slots, index 0 the most used and the last index the
    eviction candidate.  This module holds the pure specification of the
    in-place mutations the cache performs on it, and what they preserve. */
module PrioritySequence {

  /** One `[key, access_count]` pair of the queue. */
  datatype Slot<K> = Slot(key: K, count: nat)

  /** The access count raised by one. */
  function Bump<K>(e: Slot<K>): Slot<K>
  {
    e.(count := e.count + 1)
  }

  /** Non-increasing by count, every count positive. */
  ghost predicate Ordered<K>(s: seq<Slot<K>>)
  {
    && (forall p :: 0 <= p < |s| ==> s[p].count >= 1)
    && (forall a, b :: 0 <= a < b < |s| ==> s[a].count >= s[b].count)
  }

  /** No key occupies two slots. */
  ghost predicate DistinctKeys<K>(s: seq<Slot<K>>)
  {
    forall a, b :: 0 <= a < b < |s| ==> s[a].key != s[b].key
  }

  /** The keys held by the sequence. */
  function KeysOf<K>(s: seq<Slot<K>>): set<K>
  {
    set p | 0 <= p < |s| :: s[p].key
  }

  /** The slot `i` taken out, later slots shifted left by one. */
  function RemoveAt<K>(s: seq<Slot<K>>, i: nat): (t: seq<Slot<K>>)
    requires i < |s|
    ensures |t| == |s| - 1
    ensures forall p :: 0 <= p < i ==> t[p] == s[p]
    ensures forall p :: i <= p < |t| ==> t[p] == s[p + 1]
  {
    s[..i] + s[i + 1..]
  }

  /** Where an entry of count `c` standing at slot `i` comes to rest when it
      moves left past every neighbour with a strictly smaller count: every
      slot it passes holds a smaller count, and the slot it stops under
      (if any) holds an equal or greater one. */
  function Landing<K>(s: seq<Slot<K>>, i: nat, c: nat): (j: nat)
    requires i < |s|
    ensures j <= i
    ensures forall p :: j <= p < i ==> s[p].count < c
    ensures j == 0 || s[j - 1].count >= c
    decreases i
  {
    if i > 0 && s[i - 1].count < c then Landing(s, i - 1, c) else i
  }

  /** The landing slot is the only slot with those two properties: every
      slot passed holds a smaller count, and the one above does not. */
  lemma {:induction false} LandingUnique<K>(s: seq<Slot<K>>, i: nat, c: nat, j: nat)
    requires j <= i < |s|
    requires forall p :: j <= p < i ==> s[p].count < c
    requires j == 0 || s[j - 1].count >= c
    ensures Landing(s, i, c) == j
    decreases i
  {
    if j < i {
      LandingUnique(s, i - 1, c, j);
    }
  }

  /** The entry at slot `i` raised by one and moved to slot `j <= i`, the
      entries from `j` to `i - 1` each shifting one slot to the right. */
  function Moved<K>(s: seq<Slot<K>>, i: nat, j: nat): (t: seq<Slot<K>>)
    requires j <= i < |s|
    ensures |t| == |s|
    ensures t[j] == Bump(s[i])
    ensures t[..j] == s[..j] && t[j + 1..i + 1] == s[j..i] && t[i + 1..] == s[i + 1..]
  {
    seq(|s|, p requires 0 <= p < |s| =>
          if p < j then s[p]
          else if p == j then Bump(s[i])
          else if p <= i then s[p - 1]
          else s[p])
  }

  /** Slot by slot, what the moved sequence holds. */
  lemma MovedAt<K>(s: seq<Slot<K>>, i: nat, j: nat, p: nat)
    requires j <= i < |s| && p < |s|
    ensures Moved(s, i, j)[p] ==
              if p < j then s[p]
              else if p == j then Bump(s[i])
              else if p <= i then s[p - 1]
              else s[p]
  {
  }

  /** Before any swap, moving to its own slot only raises the count. */
  lemma MovedInPlace<K>(s: seq<Slot<K>>, i: nat)
    requires i < |s|
    ensures Moved(s, i, i) == s[i := Bump(s[i])]
  {
    forall p | 0 <= p < |s| ensures Moved(s, i, i)[p] == s[i := Bump(s[i])][p] {
      MovedAt(s, i, i, p);
    }
  }

  /** One swap of the raised entry with its left neighbour moves it one
      slot further left. */
  lemma MovedSwap<K>(s: seq<Slot<K>>, i: nat, j: nat)
    requires 0 < j <= i < |s|
    ensures var t := Moved(s, i, j);
            t[j := t[j - 1]][j - 1 := t[j]] == Moved(s, i, j - 1)
  {
    var t := Moved(s, i, j);
    var u := t[j := t[j - 1]][j - 1 := t[j]];
    forall p | 0 <= p < |s| ensures u[p] == Moved(s, i, j - 1)[p] {
      MovedAt(s, i, j, p);
      MovedAt(s, i, j, j - 1);
      MovedAt(s, i, j, j);
      MovedAt(s, i, j - 1, p);
    }
  }

  /** The sequence after the entry at slot `i` was accessed once more: its
      count is raised by one and it moves to its landing slot. */
  function Promoted<K>(s: seq<Slot<K>>, i: nat): (t: seq<Slot<K>>)
    requires i < |s|
    ensures |t| == |s|
    ensures var j := Landing(s, i, s[i].count + 1);
            && j <= i && t[j] == Bump(s[i])
            && t[..j] == s[..j] && t[j + 1..i + 1] == s[j..i] && t[i + 1..] == s[i + 1..]
  {
    Moved(s, i, Landing(s, i, s[i].count + 1))
  }

  /** Promotion keeps the sequence ordered: the entry is raised exactly to
      the slot below the first neighbour whose count is not smaller. */
  lemma PromotedOrdered<K>(s: seq<Slot<K>>, i: nat)
    requires i < |s| && Ordered(s)
    ensures Ordered(Promoted(s, i))
  {
    var c := s[i].count + 1;
    var j := Landing(s, i, c);
    var t := Moved(s, i, j);
    forall p | 0 <= p < |t|
      ensures t[p].count >= 1
    {
      MovedAt(s, i, j, p);
    }
    forall a, b | 0 <= a < b < |t|
      ensures t[a].count >= t[b].count
    {
      MovedAt(s, i, j, a);
      MovedAt(s, i, j, b);
      if a < j && b == j {
        assert s[a].count >= s[j - 1].count;
      } else if a == j && b > i {
        assert s[b].count <= s[i].count;
      }
    }
  }

  /** Promotion only changes the promoted entry: it sits at its landing slot
      with its count raised by one, and taking it out leaves the other
      entries in the order they had, with their counts. */
  lemma PromotedKeepsOthers<K>(s: seq<Slot<K>>, i: nat)
    requires i < |s|
    ensures var j := Landing(s, i, s[i].count + 1);
            && Promoted(s, i)[j] == Bump(s[i])
            && RemoveAt(Promoted(s, i), j) == RemoveAt(s, i)
  {
    var j := Landing(s, i, s[i].count + 1);
    var t := Moved(s, i, j);
    var u := RemoveAt(t, j);
    var v := RemoveAt(s, i);
    MovedAt(s, i, j, j);
    forall p | 0 <= p < |u|
      ensures u[p] == v[p]
    {
      MovedAt(s, i, j, if p < j then p else p + 1);
    }
  }

  /** Promotion keeps the set of keys and their distinctness. */
  lemma PromotedKeys<K>(s: seq<Slot<K>>, i: nat)
    requires i < |s|
    ensures KeysOf(Promoted(s, i)) == KeysOf(s)
    ensures DistinctKeys(s) ==> DistinctKeys(Promoted(s, i))
  {
    var j := Landing(s, i, s[i].count + 1);
    var t := Moved(s, i, j);
    forall k | k in KeysOf(s) ensures k in KeysOf(t) {
      var p :| 0 <= p < |s| && s[p].key == k;
      var q := if p < j || p > i then p else if p == i then j else p + 1;
      MovedAt(s, i, j, q);
    }
    forall k | k in KeysOf(t) ensures k in KeysOf(s) {
      var q :| 0 <= q < |t| && t[q].key == k;
      MovedAt(s, i, j, q);
    }
    if DistinctKeys(s) {
      forall a, b | 0 <= a < b < |t| ensures t[a].key != t[b].key {
        MovedAt(s, i, j, a);
        MovedAt(s, i, j, b);
      }
    }
  }

  /** An entry whose count no earlier slot exceeds goes to the front: the
      raised count beats every earlier one, so the promoted entry moves to
      slot 0 and the rest keep their order. */
  lemma PromotedToFront<K>(s: seq<Slot<K>>, i: nat)
    requires i < |s|
    requires forall p :: 0 <= p < i ==> s[p].count <= s[i].count
    ensures Promoted(s, i) == [Bump(s[i])] + s[..i] + s[i + 1..]
  {
    var j := Landing(s, i, s[i].count + 1);
    assert j == 0;
    var t, u := Moved(s, i, 0), [Bump(s[i])] + s[..i] + s[i + 1..];
    forall p | 0 <= p < |t| ensures t[p] == u[p] {
      MovedAt(s, i, 0, p);
    }
  }

  /** Promotion never passes an equal count: if the left neighbour already
      holds a count not below the raised one, only the count changes. */
  lemma PromotedStaysBelowEqual<K>(s: seq<Slot<K>>, i: nat)
    requires 0 < i < |s| && s[i - 1].count >= s[i].count + 1
    ensures Promoted(s, i) == s[i := Bump(s[i])]
  {
    assert Landing(s, i, s[i].count + 1) == i;
    var t := Moved(s, i, i);
    forall p | 0 <= p < |t| ensures t[p] == s[i := Bump(s[i])][p] {
      MovedAt(s, i, i, p);
    }
  }

  /** Taking a slot out keeps the sequence ordered and its keys distinct. */
  lemma RemoveAtOrdered<K>(s: seq<Slot<K>>, i: nat)
    requires i < |s| && Ordered(s)
    ensures Ordered(RemoveAt(s, i))
    ensures DistinctKeys(s) ==> DistinctKeys(RemoveAt(s, i))
  {
  }

  /** Eviction followed by insertion, as the cache does it when full: the
      last slot is dropped and the new key appended with count 1, so the
      length is kept, the survivors keep their slots and the order holds. */
  lemma EvictThenAppend<K>(s: seq<Slot<K>>, k: K)
    requires 0 < |s| && Ordered(s)
    ensures var t := RemoveAt(s, |s| - 1) + [Slot(k, 1)];
            && |t| == |s|
            && t[..|s| - 1] == s[..|s| - 1]
            && t[|s| - 1] == Slot(k, 1)
            && Ordered(t)
  {
    var t := RemoveAt(s, |s| - 1) + [Slot(k, 1)];
    assert t[..|s| - 1] == s[..|s| - 1];
  }

  /** Appending a new key with count 1 keeps the sequence ordered. */
  lemma AppendOrdered<K>(s: seq<Slot<K>>, k: K)
    requires Ordered(s)
    ensures Ordered(s + [Slot(k, 1)])
  {
  }

  /** A prefix of an ordered sequence is ordered. */
  lemma PrefixOrdered<K>(s: seq<Slot<K>>, n: nat)
    requires Ordered(s) && n <= |s|
    ensures Ordered(s[..n])
  {
  }
}
