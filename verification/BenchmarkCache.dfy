/** The benchmark cache on the heap, operation by operation. */
module BenchmarkCaches {
  import opened Sequences
  import opened BenchModel

  class BenchmarkCacheEntry {
    const key: string
    var value: string
    var visited: bool
    var referenceBit: bool

    constructor (k: string, v: string)
      ensures key == k && View() == Item(v, false, true)
    {
      key, value, visited, referenceBit := k, v, false, true;
    }

    ghost function View(): Item
      reads this
    {
      Item(value, visited, referenceBit)
    }
  }

  ghost function ItemViews(m: map<string, BenchmarkCacheEntry>): map<string, Item>
    reads m.Values
  {
    map k | k in m :: m[k].View()
  }

  lemma ViewsOf(m: map<string, BenchmarkCacheEntry>)
    ensures ItemViews(m).Keys == m.Keys && forall k :: k in m ==> ItemViews(m)[k] == m[k].View()
  {
  }

  lemma ItemViewsWithout(m: map<string, BenchmarkCacheEntry>, k: string)
    ensures ItemViews(m - {k}) == ItemViews(m) - {k}
    ensures (m - {k}).Values <= m.Values
  {
  }

  lemma ItemViewsWith(m: map<string, BenchmarkCacheEntry>, k: string, e: BenchmarkCacheEntry)
    ensures ItemViews(m[k := e]) == ItemViews(m)[k := e.View()]
    ensures m[k := e].Values <= m.Values + {e}
  {
  }

  /** After a change to the entry of k alone, the views differ at k alone. */
  lemma ItemChanged(before: map<string, Item>, m: map<string, BenchmarkCacheEntry>, k: string)
    requires k in m && before.Keys == m.Keys
    requires forall j :: j in m && j != k ==> m[j].View() == before[j]
    ensures ItemViews(m) == before[k := m[k].View()]
  {
  }

  lemma NextSlot(h: nat, n: nat)
    requires h < n
    ensures (h + 1) % n == Around(h, 1, n)
  {
    if h + 1 == n { assert n % n == 0; }
  }

  class BenchmarkCache {
    const maxCapacity: nat
    const policy: Policy
    var cacheMap: map<string, BenchmarkCacheEntry>
    var hitCount: nat
    var missCount: nat
    var totalRequests: nat
    var lruOrder: seq<string>
    var fifoQueue: seq<string>
    var sieveOrder: seq<string>
    var clockBuffer: seq<string>
    var clockHand: nat

    /** Entries are filed under their own keys, so no two keys share one. */
    ghost predicate Intact()
      reads this
    {
      forall k :: k in cacheMap ==> cacheMap[k].key == k
    }

    ghost function Model(): Bench
      reads this, cacheMap.Values
    {
      Bench(maxCapacity, policy, ItemViews(cacheMap), lruOrder, fifoQueue, sieveOrder, clockBuffer, clockHand,
            hitCount, missCount, totalRequests)
    }

    ghost predicate Valid()
      reads this, cacheMap.Values
    {
      Intact() && BenchModel.Valid(Model())
    }

    /** Record and map agree, and no more: CLOCK may hold the empty key. */
    ghost predicate Agrees()
      reads this, cacheMap.Values
    {
      Intact() && BenchModel.Agrees(Model())
    }

    constructor (capacity: nat, evictionPolicy: Policy)
      ensures Valid() && Model() == Empty(capacity, evictionPolicy)
    {
      maxCapacity, policy := capacity, evictionPolicy;
      cacheMap, hitCount, missCount, totalRequests := map[], 0, 0, 0;
      lruOrder, fifoQueue, sieveOrder, clockBuffer, clockHand := [], [], [], [], 0;
      new;
      assert ItemViews(cacheMap) == map[];
      EmptyValid(capacity, evictionPolicy);
    }

    lemma ValidAgrees()
      requires Valid()
      ensures Agrees()
    {
    }

    // ---- In-place changes to one entry ----

    method SetVisited(key: string, bit: bool)
      requires Intact() && key in cacheMap
      modifies cacheMap[key]
      ensures ItemViews(cacheMap) == old(ItemViews(cacheMap))[key := old(cacheMap[key].View()).(visited := bit)]
    {
      ghost var before := ItemViews(cacheMap);
      cacheMap[key].visited := bit;
      ItemChanged(before, cacheMap, key);
    }

    method SetReferenceBit(key: string, bit: bool)
      requires Intact() && key in cacheMap
      modifies cacheMap[key]
      ensures ItemViews(cacheMap) == old(ItemViews(cacheMap))[key := old(cacheMap[key].View()).(referenced := bit)]
    {
      ghost var before := ItemViews(cacheMap);
      cacheMap[key].referenceBit := bit;
      ItemChanged(before, cacheMap, key);
    }

    method SetValue(key: string, value: string)
      requires Intact() && key in cacheMap
      modifies cacheMap[key]
      ensures ItemViews(cacheMap) == old(ItemViews(cacheMap))[key := old(cacheMap[key].View()).(value := value)]
    {
      ghost var before := ItemViews(cacheMap);
      cacheMap[key].value := value;
      ItemChanged(before, cacheMap, key);
    }

    /** The trace an access leaves in the policy's own record. */
    method UpdatePolicy(key: string)
      requires Intact() && key in cacheMap
      modifies this`lruOrder, cacheMap[key]
      ensures Intact() && Model() == Touched(old(Model()), key)
    {
      match policy
      case LRU => lruOrder := [key] + Without(lruOrder, key);
      case FIFO =>
      case SIEVE => SetVisited(key, true);
      case CLOCK => SetReferenceBit(key, true);
    }

    // ---- Eviction ----

    method Erase(key: string)
      requires Intact()
      modifies this`cacheMap
      ensures Intact() && cacheMap == old(cacheMap) - {key} && cacheMap.Values <= old(cacheMap.Values)
      ensures ItemViews(cacheMap) == old(ItemViews(cacheMap)) - {key}
    {
      ItemViewsWithout(cacheMap, key);
      cacheMap := cacheMap - {key};
    }

    method EvictLru()
      requires Intact() && policy.LRU?
      modifies this`cacheMap, this`lruOrder
      ensures Intact() && cacheMap.Values <= old(cacheMap.Values)
      ensures Model() == Evicted(old(Model()))
    {
      if lruOrder != [] {
        var lruKey := lruOrder[|lruOrder| - 1];
        lruOrder := lruOrder[..|lruOrder| - 1];
        Erase(lruKey);
      }
    }

    method EvictFifo()
      requires Intact() && policy.FIFO?
      modifies this`cacheMap, this`fifoQueue
      ensures Intact() && cacheMap.Values <= old(cacheMap.Values)
      ensures Model() == Evicted(old(Model()))
    {
      if fifoQueue != [] {
        var fifoKey := fifoQueue[0];
        fifoQueue := fifoQueue[1..];
        Erase(fifoKey);
      }
    }

    /** Erases the key at position i from the list and from the map. */
    method EraseFromSieve(i: nat)
      requires Intact() && i < |sieveOrder|
      modifies this`cacheMap, this`sieveOrder
      ensures Intact() && cacheMap.Values <= old(cacheMap.Values)
      ensures Model() == old(Model().(sieve := sieveOrder[..i] + sieveOrder[i + 1..],
                                      items := ItemViews(cacheMap) - {sieveOrder[i]}))
    {
      var key := sieveOrder[i];
      sieveOrder := sieveOrder[..i] + sieveOrder[i + 1..];
      Erase(key);
    }

    /** The sweep from the front; it also drops keys that the map does not know. */
    method EvictSieve()
      requires Intact() && policy.SIEVE?
      modifies this`cacheMap, this`sieveOrder, cacheMap.Values
      ensures Intact() && cacheMap.Values <= old(cacheMap.Values)
      ensures Model() == Evicted(old(Model()))
    {
      hide SieveFrom, ItemViews;
      ghost var b := Model();
      SieveStep(sieveOrder, ItemViews(cacheMap), 0);
      if sieveOrder == [] {
        return;
      }
      var it := 0;
      while it < |sieveOrder|
        invariant it <= |sieveOrder| && Intact() && cacheMap == old(cacheMap)
        invariant Model() == b.(sieve := sieveOrder, items := ItemViews(cacheMap))
        invariant SieveFrom(sieveOrder, ItemViews(cacheMap), it) == SieveFrom(b.sieve, b.items, 0)
        decreases |sieveOrder| - it
      {
        var key := sieveOrder[it];
        SieveStep(sieveOrder, ItemViews(cacheMap), it);
        ViewsOf(cacheMap);
        if key in cacheMap {
          if !cacheMap[key].visited {
            EraseFromSieve(it);
            return;
          } else {
            SetVisited(key, false);
            it := it + 1;
          }
        } else {
          sieveOrder := sieveOrder[..it] + sieveOrder[it + 1..];
        }
      }
      SieveStep(sieveOrder, ItemViews(cacheMap), it);
      if sieveOrder != [] {
        assert sieveOrder[..0] + sieveOrder[1..] == sieveOrder[1..];
        EraseFromSieve(0);
      }
    }

    /** One probe of the sweep: evicts the key at the hand if its bit is clear, else clears the bit and moves on. */
    method Probe(ghost b: Bench, ghost d: nat) returns (done: bool)
      requires Intact() && Sweeping(b, d) && Model() == Swept(b, d)
      modifies this`cacheMap, this`clockBuffer, this`clockHand, cacheMap.Values
      ensures Intact() && cacheMap.Values <= old(cacheMap.Values) && |clockBuffer| == |old(clockBuffer)|
      ensures done ==> Model() == ClockEvicted(b) && d == Reach(b)
      ensures !done ==> cacheMap == old(cacheMap) && d < |b.slots| && Sweeping(b, d + 1) && Model() == Swept(b, d + 1)
    {
      hide Sweeping, Swept, ClockEvicted;
      SweepStep(b, d);
      var currentKey := clockBuffer[clockHand];
      assert currentKey in cacheMap;
      if currentKey in cacheMap {
        if !cacheMap[currentKey].referenceBit {
          Erase(currentKey);
          clockBuffer := clockBuffer[clockHand := ""];
          return true;
        } else {
          SetReferenceBit(currentKey, false);
        }
      }
      NextSlot(clockHand, |clockBuffer|);
      clockHand := (clockHand + 1) % |clockBuffer|;
      done := false;
    }

    /** The sweep from the hand; it ends within one probe more than there are slots. */
    method EvictClock() returns (ghost probes: nat)
      requires Intact() && policy.CLOCK? && SlotsAgree(Model())
      modifies this`cacheMap, this`clockBuffer, this`clockHand, cacheMap.Values
      ensures Intact() && cacheMap.Values <= old(cacheMap.Values)
      ensures Model() == Evicted(old(Model()))
      ensures old(clockBuffer) != [] ==> probes == Reach(old(Model())) + 1 <= |clockBuffer| + 1
    {
      hide Sweeping, Swept, SlotsAgree;
      ClockHand(Model());
      probes := 0;
      if clockBuffer == [] {
        return;
      }
      ghost var b := Model();
      SweepStarts(b);
      while true
        invariant Intact() && cacheMap == old(cacheMap) && b.hand < |b.slots| && probes <= |b.slots| == |clockBuffer|
        invariant Sweeping(b, probes) && Model() == Swept(b, probes)
        decreases |b.slots| - probes
      {
        var done := Probe(b, probes);
        probes := probes + 1;
        if done {
          return;
        }
      }
    }

    /** Makes room by the policy's rule. */
    method Evict()
      requires Agrees()
      modifies this`cacheMap, this`lruOrder, this`fifoQueue, this`sieveOrder, this`clockBuffer, this`clockHand,
               cacheMap.Values
      ensures Intact() && cacheMap.Values <= old(cacheMap.Values)
      ensures Model() == Evicted(old(Model()))
    {
      hide Evicted, Lists, SlotsAgree, OrderOk;
      match policy {
        case LRU => EvictLru();
        case FIFO => EvictFifo();
        case SIEVE => EvictSieve();
        case CLOCK => var probes := EvictClock();
      }
    }

    // ---- Insertion ----

    /** The first empty slot takes the key; with none, the buffer grows by one. */
    method AddClock(key: string)
      modifies this`clockBuffer
      ensures clockBuffer == SlotAdded(old(clockBuffer), key)
    {
      var foundSlot, i := false, 0;
      while i < |clockBuffer| && !foundSlot
        invariant i <= |clockBuffer|
        invariant !foundSlot ==> clockBuffer == old(clockBuffer) && forall j :: 0 <= j < i ==> clockBuffer[j] != ""
        invariant foundSlot ==> clockBuffer == SlotAdded(old(clockBuffer), key)
        decreases |clockBuffer| - i, !foundSlot
      {
        if clockBuffer[i] == "" {
          assert FirstEmpty(clockBuffer) == i;
          clockBuffer := clockBuffer[i := key];
          foundSlot := true;
        } else {
          i := i + 1;
        }
      }
      if !foundSlot {
        assert FirstEmpty(clockBuffer) == |clockBuffer|;
        clockBuffer := clockBuffer + [key];
      }
    }

    /** Files a new entry and records its key in the policy's own way. */
    method Insert(key: string, value: string)
      requires Intact()
      modifies this`cacheMap, this`lruOrder, this`fifoQueue, this`sieveOrder, this`clockBuffer
      ensures Intact() && key in cacheMap && fresh(cacheMap[key])
      ensures cacheMap.Values <= old(cacheMap.Values) + {cacheMap[key]}
      ensures Model() == Inserted(old(Model()), key, value)
    {
      hide ItemViews, SlotAdded;
      var entry := new BenchmarkCacheEntry(key, value);
      ItemViewsWith(cacheMap, key, entry);
      cacheMap := cacheMap[key := entry];
      match policy {
        case LRU => lruOrder := [key] + lruOrder;
        case FIFO => fifoQueue := fifoQueue + [key];
        case SIEVE => sieveOrder := sieveOrder + [key];
        case CLOCK => AddClock(key);
      }
    }

    // ---- The public operations ----

    method Get(key: string) returns (r: Option<string>)
      requires Valid()
      modifies this, cacheMap.Values
      ensures Valid() && cacheMap == old(cacheMap)
      ensures (Model(), r) == BenchModel.Get(old(Model()), key)
    {
      hide BenchModel.Valid, Touched, ItemViews, BenchModel.Get;
      GetKeeps(Model(), key);
      GetCases(Model(), key);
      ViewsOf(cacheMap);
      totalRequests := totalRequests + 1;
      if key in cacheMap {
        hitCount := hitCount + 1;
        r := Some(cacheMap[key].value);
        UpdatePolicy(key);
      } else {
        missCount := missCount + 1;
        r := None;
      }
    }

    /** A put of any key; the two records still agree afterwards except in one case, under CLOCK. */
    method Put(key: string, value: string)
      requires Agrees()
      modifies this, cacheMap.Values
      ensures Intact() && fresh(cacheMap.Values - old(cacheMap.Values))
      ensures Model() == BenchModel.Put(old(Model()), key, value)
      ensures Agrees() <==> !(policy.CLOCK? && key !in old(cacheMap) && "" in old(cacheMap) && |old(cacheMap)| < maxCapacity)
      ensures old(Valid()) && (policy.CLOCK? ==> key != "") ==> Valid()
    {
      hide BenchModel.Valid, BenchModel.Agrees, Touched, Evicted, Inserted, ItemViews, BenchModel.Put;
      PutCases(Model(), key, value);
      ghost var b := Model();
      PutAgreesExact(b, key, value);
      if BenchModel.Valid(b) && (policy.CLOCK? ==> key != "") { PutKeeps(b, key, value); }
      ViewsOf(cacheMap);
      assert |cacheMap| == |b.items| by { assert cacheMap.Keys == b.items.Keys; }
      if key in cacheMap {
        SetValue(key, value);
        UpdatePolicy(key);
        return;
      }
      if |cacheMap| >= maxCapacity {
        Evict();
      }
      Insert(key, value);
    }

    function GetHitRatio(): (r: real)
      requires Valid()
      reads this, cacheMap.Values
      ensures 0.0 <= r <= 1.0 && r * (totalRequests as real) == hitCount as real
      ensures totalRequests == 0 ==> r == 0.0
    {
      if totalRequests == 0 then 0.0
      else
        HitsOverTotal(hitCount, totalRequests);
        (hitCount as real) / (totalRequests as real)
    }
  }

  lemma HitsOverTotal(hits: nat, total: nat)
    requires hits <= total && total > 0
    ensures var r := (hits as real) / (total as real); 0.0 <= r <= 1.0 && r * (total as real) == hits as real
  {
  }

  lemma PutCases(b: Bench, k: string, v: string)
    ensures k in b.items ==>
              BenchModel.Put(b, k, v) == Touched(b.(items := b.items[k := b.items[k].(value := v)]), k)
    ensures k !in b.items ==>
              BenchModel.Put(b, k, v) == Inserted(if |b.items| >= b.capacity then Evicted(b) else b, k, v)
  {
    hide Touched, Evicted, Inserted;
  }

  lemma GetCases(b: Bench, k: string)
    ensures k in b.items ==>
              BenchModel.Get(b, k) == (Touched(b.(hits := b.hits + 1, total := b.total + 1), k), Some(b.items[k].value))
    ensures k !in b.items ==> BenchModel.Get(b, k) == (b.(misses := b.misses + 1, total := b.total + 1), None)
  {
    hide Touched;
  }

  /** What the SIEVE sweep does at position i. */
  lemma SieveStep(order: seq<string>, items: map<string, Item>, i: nat)
    requires i <= |order|
    ensures i == |order| ==> SieveFrom(order, items, i) == (order, items, false)
    ensures i < |order| && order[i] !in items ==>
              SieveFrom(order, items, i) == SieveFrom(order[..i] + order[i + 1..], items, i)
    ensures i < |order| && order[i] in items && !items[order[i]].visited ==>
              SieveFrom(order, items, i) == (order[..i] + order[i + 1..], items - {order[i]}, true)
    ensures i < |order| && order[i] in items && items[order[i]].visited ==>
              SieveFrom(order, items, i) == SieveFrom(order, items[order[i] := items[order[i]].(visited := false)], i + 1)
  {
  }

  lemma ClockHand(b: Bench)
    requires SlotsAgree(b)
    ensures if b.slots == [] then b.hand == 0 else b.hand < |b.slots|
  {
  }

  /** The state after d probes that all found a set bit. */
  ghost function Swept(b: Bench, d: nat): Bench
    requires b.hand < |b.slots| && d <= |b.slots|
  {
    b.(hand := Around(b.hand, d, |b.slots|), items := Cleared(b.items, Passed(b.slots, b.hand, d)))
  }

  /** The sweep from state b has made d probes and has not found its victim. */
  ghost predicate Sweeping(b: Bench, d: nat) {
    && SlotsAgree(b) && b.hand < |b.slots| && d <= |b.slots|
    && ClockDistance(b.slots, b.items, b.hand, d) == Reach(b)
  }

  lemma SweepStarts(b: Bench)
    requires SlotsAgree(b) && b.slots != []
    ensures b.hand < |b.slots| && Sweeping(b, 0) && Swept(b, 0) == b
  {
    assert Passed(b.slots, b.hand, 0) == {};
    assert Cleared(b.items, {}) == b.items;
  }

  /** Probe d finds the victim, or clears a bit and moves on; after a full turn every bit is clear. */
  lemma SweepStep(b: Bench, d: nat)
    requires Sweeping(b, d)
    ensures var s := Swept(b, d);
            && s.hand < |s.slots| == |b.slots| && s.slots[s.hand] in s.items
            && (!s.items[s.slots[s.hand]].referenced ==> d == Reach(b))
            && (!s.items[s.slots[s.hand]].referenced ==>
                  ClockEvicted(b) == s.(items := s.items - {s.slots[s.hand]}, slots := s.slots[s.hand := ""]))
            && (s.items[s.slots[s.hand]].referenced ==> d < |b.slots| && Sweeping(b, d + 1))
            && (s.items[s.slots[s.hand]].referenced ==> Swept(b, d + 1) == Advanced(s))
  {
    assert SlotAt(b.slots, b.hand, d) in Elems(b.slots);
    if d < |b.slots| {
      PassedStep(b, d);
      AroundStep(b.hand, d, |b.slots|);
    } else {
      assert SlotAt(b.slots, b.hand, 0) == SlotAt(b.slots, b.hand, d);
    }
  }

  /** The bit at the hand is cleared and the hand is one slot on. */
  ghost function Advanced(s: Bench): Bench
    requires s.hand < |s.slots| && s.slots[s.hand] in s.items
  {
    var k := s.slots[s.hand];
    s.(hand := Around(s.hand, 1, |s.slots|), items := s.items[k := s.items[k].(referenced := false)])
  }

  lemma AroundStep(h: nat, d: nat, n: nat)
    requires h < n && d < n
    ensures Around(h, d + 1, n) == Around(Around(h, d, n), 1, n)
  {
  }

  /** Slots hold different keys, so the slot that probe d reaches was not passed before. */
  lemma PassedStep(b: Bench, d: nat)
    requires SlotsAgree(b) && b.hand < |b.slots| && d < |b.slots|
    ensures SlotAt(b.slots, b.hand, d) !in Passed(b.slots, b.hand, d)
    ensures Passed(b.slots, b.hand, d + 1) == Passed(b.slots, b.hand, d) + {SlotAt(b.slots, b.hand, d)}
  {
    forall f | 0 <= f < d ensures SlotAt(b.slots, b.hand, f) != SlotAt(b.slots, b.hand, d) {
      assert Around(b.hand, f, |b.slots|) != Around(b.hand, d, |b.slots|);
    }
  }
}
