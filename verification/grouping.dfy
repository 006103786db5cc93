/** The insertion-ordered map fold behind the extraction merge
    (`extractMatchInfoFromImages` in services/geminiService.ts): entries are visited in
    order; the first entry of a key creates a value, and every later entry
    with that key is merged into it; `Array.from(map.values())` lists the
    values in the order their keys were first inserted.

    The fold is stated over any entry and value type, with the key of each
    entry, the creation and the merge passed in, and is shown equal to the
    reference "group by key in first-seen order, then merge each group". */
module Grouping {
  import opened Seqs

  /** One entry of the map. */
  datatype Slot<V> = Slot(key: string, found: V)

  /** The position of `key` in the map, or -1. */
  function SlotIndex<V>(slots: seq<Slot<V>>, key: string): (i: int)
    ensures -1 <= i < |slots|
    ensures i >= 0 ==> slots[i].key == key
    ensures i == -1 <==> forall k | 0 <= k < |slots| :: slots[k].key != key
  {
    if |slots| == 0 then -1
    else if slots[|slots| - 1].key == key then |slots| - 1
    else SlotIndex(slots[..|slots| - 1], key)
  }

  /** One entry visited: `map.has(key) ? merge into map.get(key) : map.set(key, create(...))`. */
  function Step<E, V>(slots: seq<Slot<V>>, key: string, e: E, stamp: string,
                      create: (E, string) -> V, merge: (V, E) -> V): (r: seq<Slot<V>>)
    ensures |slots| <= |r| <= |slots| + 1
    ensures forall k {:trigger r[k]} | 0 <= k < |slots| && slots[k].key != key :: r[k] == slots[k]
    ensures SlotIndex(slots, key) >= 0 ==>
              |r| == |slots| && r[SlotIndex(slots, key)] == Slot(key, merge(slots[SlotIndex(slots, key)].found, e))
    ensures SlotIndex(slots, key) == -1 ==>
              |r| == |slots| + 1 && r[|slots|] == Slot(key, create(e, stamp))
  {
    var i := SlotIndex(slots, key);
    if i >= 0 then slots[i := Slot(key, merge(slots[i].found, e))]
    else slots + [Slot(key, create(e, stamp))]
  }

  /** The map after the first `n` entries; `keys[i]` is the key of
      `entries[i]` and `stamps[i]` the clock reading when it is visited. */
  function Collect<E, V>(entries: seq<E>, keys: seq<string>, stamps: seq<string>,
                         create: (E, string) -> V, merge: (V, E) -> V, n: nat): (r: seq<Slot<V>>)
    requires n <= |entries| == |keys| == |stamps|
    ensures |r| <= n
    ensures forall k1, k2 | 0 <= k1 < k2 < |r| :: r[k1].key != r[k2].key
  {
    if n == 0 then []
    else Step(Collect(entries, keys, stamps, create, merge, n - 1), keys[n - 1], entries[n - 1], stamps[n - 1], create, merge)
  }

  /** The values of the map, in insertion order. */
  function Values<V>(slots: seq<Slot<V>>): (r: seq<V>)
    ensures |r| == |slots|
    ensures forall i | 0 <= i < |slots| :: r[i] == slots[i].found
  {
    seq(|slots|, i requires 0 <= i < |slots| => slots[i].found)
  }

  /** The indices below `n` whose key is `key`, ascending. */
  function Positions(keys: seq<string>, key: string, n: nat): (r: seq<nat>)
    requires n <= |keys|
    ensures forall k | 0 <= k < |r| :: r[k] < n && keys[r[k]] == key
    ensures forall k1, k2 | 0 <= k1 < k2 < |r| :: r[k1] < r[k2]
  {
    if n == 0 then []
    else Positions(keys, key, n - 1) + (if keys[n - 1] == key then [n - 1] else [])
  }

  /** Every index below `n` holding `key` is among its positions. */
  lemma {:induction false} PositionsComplete(keys: seq<string>, key: string, n: nat, i: nat)
    requires i < n <= |keys| && keys[i] == key
    ensures i in Positions(keys, key, n)
  {
    if i < n - 1 {
      PositionsComplete(keys, key, n - 1, i);
    }
  }

  /** A key that does not occur has no positions. */
  lemma PositionsOfAbsent(keys: seq<string>, key: string, n: nat)
    requires n <= |keys| && key !in keys[..n]
    ensures Positions(keys, key, n) == []
  {
  }

  /** The entries at the indices `g` folded in order: the first creates the
      value and each later one is merged into it. */
  function FoldGroup<E, V>(entries: seq<E>, stamps: seq<string>,
                           create: (E, string) -> V, merge: (V, E) -> V, g: seq<nat>): V
    requires |entries| == |stamps| && |g| > 0
    requires forall k | 0 <= k < |g| :: g[k] < |entries|
    decreases |g|
  {
    if |g| == 1 then create(entries[g[0]], stamps[g[0]])
    else merge(FoldGroup(entries, stamps, create, merge, g[..|g| - 1]), entries[g[|g| - 1]])
  }

  /** `slots` is the grouped fold of the first `n` entries over the distinct
      keys `ks`. */
  ghost predicate GroupedUpTo<E, V>(slots: seq<Slot<V>>, ks: seq<string>, entries: seq<E>, keys: seq<string>,
                                    stamps: seq<string>, create: (E, string) -> V, merge: (V, E) -> V, n: nat)
    requires n <= |entries| == |keys| == |stamps|
  {
    && |slots| == |ks|
    && forall k | 0 <= k < |slots| ::
         && slots[k].key == ks[k]
         && |Positions(keys, ks[k], n)| > 0
         && slots[k].found == FoldGroup(entries, stamps, create, merge, Positions(keys, ks[k], n))
  }

  /** The fold builds exactly the grouped merge: one slot per distinct key
      in first-seen order, each holding the fold of the entries with that
      key in input order. */
  lemma {:induction false} CollectIsGrouped<E, V>(entries: seq<E>, keys: seq<string>, stamps: seq<string>,
                                                  create: (E, string) -> V, merge: (V, E) -> V, n: nat)
    requires n <= |entries| == |keys| == |stamps|
    ensures GroupedUpTo(Collect(entries, keys, stamps, create, merge, n), Distinct(keys[..n]),
                        entries, keys, stamps, create, merge, n)
  {
    if n > 0 {
      CollectIsGrouped(entries, keys, stamps, create, merge, n - 1);
      var key := keys[n - 1];
      var ks := Distinct(keys[..n - 1]);
      DistinctPrefixStep(keys, n);
      DistinctMembership(keys[..n - 1], key);
      if key in ks {
        MergeStep(entries, keys, stamps, create, merge, n, ks);
      } else {
        CreateStep(entries, keys, stamps, create, merge, n, ks);
      }
    }
  }

  /** The induction step when the key of entry `n - 1` was seen before. */
  lemma MergeStep<E, V>(entries: seq<E>, keys: seq<string>, stamps: seq<string>,
                        create: (E, string) -> V, merge: (V, E) -> V, n: nat, ks: seq<string>)
    requires 0 < n <= |entries| == |keys| == |stamps|
    requires GroupedUpTo(Collect(entries, keys, stamps, create, merge, n - 1), ks,
                         entries, keys, stamps, create, merge, n - 1)
    requires forall i, j | 0 <= i < j < |ks| :: ks[i] != ks[j]
    requires keys[n - 1] in ks
    ensures GroupedUpTo(Collect(entries, keys, stamps, create, merge, n), ks,
                        entries, keys, stamps, create, merge, n)
  {
    var prev := Collect(entries, keys, stamps, create, merge, n - 1);
    var key := keys[n - 1];
    var i := SlotIndex(prev, key);
    assert 0 <= i && ks[i] == key by {
      var j :| 0 <= j < |ks| && ks[j] == key;
      assert prev[j].key == key;
    }
    var slots := Collect(entries, keys, stamps, create, merge, n);
    var updated := merge(prev[i].found, entries[n - 1]);
    assert slots == prev[i := Slot(key, updated)];
    forall k | 0 <= k < |slots|
      ensures && slots[k].key == ks[k]
              && |Positions(keys, ks[k], n)| > 0
              && slots[k].found == FoldGroup(entries, stamps, create, merge, Positions(keys, ks[k], n))
    {
      if k == i {
        MergedSlot(entries, keys, stamps, create, merge, n, key, prev[i].found);
      } else {
        PositionsOfOther(keys, ks[k], n);
      }
    }
  }

  /** The positions below `n` of a key other than that of entry `n - 1`
      are its positions below `n - 1`. */
  lemma PositionsOfOther(keys: seq<string>, key: string, n: nat)
    requires 0 < n <= |keys| && keys[n - 1] != key
    ensures Positions(keys, key, n) == Positions(keys, key, n - 1)
  {
  }

  /** Merging entry `n - 1` into the fold of the earlier entries with its
      key gives the fold of all entries with its key. */
  lemma MergedSlot<E, V>(entries: seq<E>, keys: seq<string>, stamps: seq<string>,
                         create: (E, string) -> V, merge: (V, E) -> V, n: nat, key: string, v: V)
    requires 0 < n <= |entries| == |keys| == |stamps| && keys[n - 1] == key
    requires |Positions(keys, key, n - 1)| > 0
    requires v == FoldGroup(entries, stamps, create, merge, Positions(keys, key, n - 1))
    ensures |Positions(keys, key, n)| > 0
    ensures merge(v, entries[n - 1]) == FoldGroup(entries, stamps, create, merge, Positions(keys, key, n))
  {
    var g := Positions(keys, key, n - 1);
    assert Positions(keys, key, n) == g + [n - 1];
    assert (g + [n - 1])[..|g|] == g;
  }

  /** The induction step when entry `n - 1` brings a new key. */
  lemma CreateStep<E, V>(entries: seq<E>, keys: seq<string>, stamps: seq<string>,
                         create: (E, string) -> V, merge: (V, E) -> V, n: nat, ks: seq<string>)
    requires 0 < n <= |entries| == |keys| == |stamps|
    requires GroupedUpTo(Collect(entries, keys, stamps, create, merge, n - 1), ks,
                         entries, keys, stamps, create, merge, n - 1)
    requires keys[n - 1] !in ks && keys[n - 1] !in keys[..n - 1]
    ensures GroupedUpTo(Collect(entries, keys, stamps, create, merge, n), ks + [keys[n - 1]],
                        entries, keys, stamps, create, merge, n)
  {
    var prev := Collect(entries, keys, stamps, create, merge, n - 1);
    var key := keys[n - 1];
    assert SlotIndex(prev, key) == -1;
    var slots := Collect(entries, keys, stamps, create, merge, n);
    var ks' := ks + [key];
    var created := Slot(key, create(entries[n - 1], stamps[n - 1]));
    assert slots == prev + [created];
    forall k | 0 <= k < |slots|
      ensures && slots[k].key == ks'[k]
              && |Positions(keys, ks'[k], n)| > 0
              && slots[k].found == FoldGroup(entries, stamps, create, merge, Positions(keys, ks'[k], n))
    {
      if k < |ks| {
        assert slots[k] == prev[k] && ks'[k] == ks[k];
        PositionsOfOther(keys, ks[k], n);
      } else {
        assert slots[k] == created && ks'[k] == key;
        CreatedSlot(entries, keys, stamps, create, merge, n);
      }
    }
  }

  /** The first entry of a key is the whole group so far. */
  lemma CreatedSlot<E, V>(entries: seq<E>, keys: seq<string>, stamps: seq<string>,
                          create: (E, string) -> V, merge: (V, E) -> V, n: nat)
    requires 0 < n <= |entries| == |keys| == |stamps| && keys[n - 1] !in keys[..n - 1]
    ensures Positions(keys, keys[n - 1], n) == [n - 1]
    ensures create(entries[n - 1], stamps[n - 1]) == FoldGroup(entries, stamps, create, merge, [n - 1])
  {
    PositionsOfAbsent(keys, keys[n - 1], n - 1);
  }

  /** The whole fold: one value per distinct key, in first-seen order. */
  lemma GroupedValues<E, V>(entries: seq<E>, keys: seq<string>, stamps: seq<string>,
                            create: (E, string) -> V, merge: (V, E) -> V)
    requires |entries| == |keys| == |stamps|
    ensures var vs := Values(Collect(entries, keys, stamps, create, merge, |entries|));
      && |vs| == |Distinct(keys)|
      && forall k | 0 <= k < |vs| ::
           && |Positions(keys, Distinct(keys)[k], |keys|)| > 0
           && vs[k] == FoldGroup(entries, stamps, create, merge, Positions(keys, Distinct(keys)[k], |keys|))
  {
    CollectIsGrouped(entries, keys, stamps, create, merge, |entries|);
    assert keys[..|entries|] == keys;
  }
}
