/** What a ring is for, stated without slots, turns or caches: a bounded queue whose entries are
    claimed in order, published in any order, and taken in claim order. */
module SpecQueue {
  datatype Queue<V> = Queue(cap: nat, entries: seq<V>, ready: seq<bool>, taken: nat)

  ghost predicate Claims<V>(a: Queue<V>, b: Queue<V>, v: V) {
    && |a.entries| - a.taken < a.cap
    && b == a.(entries := a.entries + [v], ready := a.ready + [false])
  }

  ghost predicate Publishes<V>(a: Queue<V>, b: Queue<V>, i: nat) {
    && a.taken <= i < |a.ready| && !a.ready[i]
    && b == a.(ready := a.ready[i := true])
  }

  ghost predicate Takes<V>(a: Queue<V>, b: Queue<V>) {
    && a.taken < |a.entries| && a.taken < |a.ready| && a.ready[a.taken]
    && b == a.(taken := a.taken + 1)
  }
}
