/** Runs of gets and puts in any order on the benchmark cache: what a hit returns, under every policy. */
module BenchRuns {
  import opened Sequences
  import opened BenchModel

  datatype Access = GetOf(key: string) | PutOf(key: string, value: string)

  function Do(b: Bench, a: Access): Bench {
    match a
    case GetOf(k) => Get(b, k).0
    case PutOf(k, v) => Put(b, k, v)
  }

  function DoAll(b: Bench, accesses: seq<Access>): Bench {
    if accesses == [] then b else Do(DoAll(b, accesses[..|accesses| - 1]), accesses[|accesses| - 1])
  }

  /** The value that the last put of key k gave. */
  function LastPut(accesses: seq<Access>, k: string): Option<string> {
    if accesses == [] then None
    else
      var a := accesses[|accesses| - 1];
      if a.PutOf? && a.key == k then Some(a.value) else LastPut(accesses[..|accesses| - 1], k)
  }

  function GetCount(accesses: seq<Access>): nat {
    if accesses == [] then 0
    else GetCount(accesses[..|accesses| - 1]) + if accesses[|accesses| - 1].GetOf? then 1 else 0
  }

  /** Every entry of b was in a with the same value. */
  ghost predicate FromOld(a: map<string, Item>, b: map<string, Item>) {
    forall k :: k in b ==> k in a && b[k].value == a[k].value
  }

  /** Eviction alters no value and adds no key, whatever bits it clears. */
  lemma EvictedKeepsValues(b: Bench)
    requires OrderOk(b)
    ensures FromOld(b.items, Evicted(b).items)
  {
    if b.policy.SIEVE? && b.sieve != [] {
      SieveEvictedExact(b);
    }
  }

  /** After a put the key has the new value, and every other key left has its old one. */
  lemma PutValue(b: Bench, k: string, v: string)
    requires Valid(b) && (b.policy.CLOCK? ==> k != "")
    ensures var c := Put(b, k, v);
            && k in c.items && c.items[k].value == v && Get(c, k).1 == Some(v)
            && FromOld(b.items, c.items - {k})
  {
    hide Evicted, OrderOk;
    ValidOrder(b);
    EvictedKeepsValues(b);
  }

  lemma ValidOrder(b: Bench)
    requires Valid(b)
    ensures OrderOk(b)
  {
  }

  ghost predicate PutsGiven(accesses: seq<Access>) {
    forall i :: 0 <= i < |accesses| && accesses[i].PutOf? ==> accesses[i].key != ""
  }

  /**
   * In every run, under every policy, each key held has the value of its last put; so a hit returns exactly that.
   * The size bound and the counters hold all along: each get is one hit or one miss.
   */
  lemma {:induction false} HitsReturnLastPut(capacity: nat, policy: Policy, accesses: seq<Access>)
    requires policy.CLOCK? ==> PutsGiven(accesses)
    ensures var b := DoAll(Empty(capacity, policy), accesses);
            && Valid(b) && b.policy == policy && b.capacity == capacity
            && |b.items| <= Max(capacity, 1) && b.hits + b.misses == GetCount(accesses)
            && forall k :: Get(b, k).1.Some? ==> Get(b, k).1 == LastPut(accesses, k)
  {
    hide Put, Valid, OrderOk, Touched;
    if accesses == [] {
      EmptyValid(capacity, policy);
    } else {
      var pre, a := accesses[..|accesses| - 1], accesses[|accesses| - 1];
      HitsReturnLastPut(capacity, policy, pre);
      var b := DoAll(Empty(capacity, policy), pre);
      forall k | k in b.items ensures LastPut(pre, k) == Some(b.items[k].value) {
        assert Get(b, k).1.Some?;
      }
      if a.PutOf? {
        PutKeeps(b, a.key, a.value);
        PutValue(b, a.key, a.value);
      } else {
        GetKeeps(b, a.key);
        GetValue(b, a.key);
      }
      Bounded(Do(b, a));
    }
  }

  lemma GetValue(b: Bench, k: string)
    ensures var c := Get(b, k).0;
            && FromOld(b.items, c.items) && c.policy == b.policy && c.capacity == b.capacity
            && c.hits + c.misses == b.hits + b.misses + 1
  {
  }

  lemma Bounded(b: Bench)
    requires Valid(b)
    ensures |b.items| <= Bound(b)
  {
  }

  /** Putting a value under a key that is held: the value, and the same trace that a hit leaves; nothing else. */
  lemma PutHeld(b: Bench, k: string, v: string)
    requires Valid(b) && k in b.items
    ensures var c := Put(b, k, v);
            && c.fifo == b.fifo && c.sieve == b.sieve && c.slots == b.slots && c.hand == b.hand && SameCounters(b, c)
            && (b.policy.LRU? ==> c.lru != [] && c.lru[0] == k && NoDup(c.lru) && Without(c.lru, k) == Without(b.lru, k))
            && c.items.Keys == b.items.Keys && (forall j :: j in b.items && j != k ==> c.items[j] == b.items[j])
            && c.items[k].value == v
            && (c.items[k].visited <==> b.policy.SIEVE? || b.items[k].visited)
            && (c.items[k].referenced <==> b.policy.CLOCK? || b.items[k].referenced)
  {
    if b.policy.LRU? {
      MoveToFrontProps(b.lru, k);
    }
  }

  /** A get that hits: one hit more, and the trace of the access; nothing else. */
  lemma GetHeld(b: Bench, k: string)
    requires Valid(b) && k in b.items
    ensures var (c, r) := Get(b, k);
            && r == Some(b.items[k].value) && c.hits == b.hits + 1 && c.misses == b.misses
            && c.fifo == b.fifo && c.sieve == b.sieve && c.slots == b.slots && c.hand == b.hand
            && (b.policy.LRU? ==> c.lru != [] && c.lru[0] == k && NoDup(c.lru) && Without(c.lru, k) == Without(b.lru, k))
            && c.items.Keys == b.items.Keys && (forall j :: j in b.items && j != k ==> c.items[j] == b.items[j])
            && c.items[k].value == b.items[k].value
            && (c.items[k].visited <==> b.policy.SIEVE? || b.items[k].visited)
            && (c.items[k].referenced <==> b.policy.CLOCK? || b.items[k].referenced)
  {
    if b.policy.LRU? {
      MoveToFrontProps(b.lru, k);
    }
  }

  /** A get that misses: one miss more and nothing else. */
  lemma GetAbsent(b: Bench, k: string)
    requires k !in b.items
    ensures Get(b, k) == (b.(misses := b.misses + 1, total := b.total + 1), None)
  {
  }
}
