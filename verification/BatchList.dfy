/** The open batches of a drain: one list of items per key, in the order the keys first came up
    (`batch_v5_data` of src/session/mod.rs). */
module BatchList {
  import opened Sequences

  datatype Batch<K, V> = Batch(key: K, items: seq<V>)

  /** Join the open batch of this key, or open one. */
  function Join<K(==), V>(batches: seq<Batch<K, V>>, key: K, items: seq<V>): seq<Batch<K, V>> {
    if batches == [] then [Batch(key, items)]
    else if batches[0].key == key then [Batch(key, batches[0].items + items)] + batches[1..]
    else [batches[0]] + Join(batches[1..], key, items)
  }

  /** What the open batches hold for one key. */
  function Waiting<K(==), V>(batches: seq<Batch<K, V>>, key: K): seq<V> {
    if batches == [] then []
    else (if batches[0].key == key then batches[0].items else []) + Waiting(batches[1..], key)
  }

  predicate Unique<K(==), V>(batches: seq<Batch<K, V>>) {
    forall i, j | 0 <= i < j < |batches| :: batches[i].key != batches[j].key
  }

  lemma {:induction false} WaitingAbsent<K, V>(batches: seq<Batch<K, V>>, key: K)
    requires forall b <- batches :: b.key != key
    ensures Waiting(batches, key) == []
  {
    if batches != [] { WaitingAbsent(batches[1..], key); }
  }

  /** Joining appends to what waits for that key, and to no other's. */
  lemma {:induction false} JoinAppends<K, V>(batches: seq<Batch<K, V>>, key: K, items: seq<V>, other: K)
    requires Unique(batches)
    ensures Waiting(Join(batches, key, items), other) == Waiting(batches, other) + if other == key then items else []
  {
    var joined := Join(batches, key, items);
    var more := if other == key then items else [];
    if batches == [] {
      assert joined[1..] == [];
      assert Waiting(joined[1..], other) == [];
    } else {
      var first := if batches[0].key == other then batches[0].items else [];
      if batches[0].key == key {
        assert joined[1..] == batches[1..];
        WaitingAbsent(batches[1..], key);
      } else {
        assert joined[1..] == Join(batches[1..], key, items);
        JoinAppends(batches[1..], key, items, other);
        Associative(first, Waiting(batches[1..], other), more);
      }
    }
  }

  lemma {:induction false} JoinKeepsUnique<K, V>(batches: seq<Batch<K, V>>, key: K, items: seq<V>)
    requires Unique(batches)
    ensures Unique(Join(batches, key, items))
    ensures forall b <- Join(batches, key, items) :: b.key == key || exists c | c in batches :: c.key == b.key
  {
    if batches == [] {
    } else if batches[0].key == key {
      assert forall b <- batches[1..] :: b in batches;
    } else {
      JoinKeepsUnique(batches[1..], key, items);
      assert batches[0] in batches && forall c <- batches[1..] :: c in batches;
    }
  }
}
