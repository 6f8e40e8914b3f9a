/** The benchmark cache as a value, under its four eviction policies. */
module BenchModel {
  import opened Sequences

  datatype Policy = LRU | FIFO | SIEVE | CLOCK

  datatype Item = Item(value: string, visited: bool, referenced: bool)

  datatype Bench = Bench(
    capacity: nat, policy: Policy, items: map<string, Item>,
    lru: seq<string>, fifo: seq<string>, sieve: seq<string>, slots: seq<string>, hand: nat,
    hits: nat, misses: nat, total: nat)

  function Empty(capacity: nat, policy: Policy): Bench {
    Bench(capacity, policy, map[], [], [], [], [], 0, 0, 0, 0)
  }

  // ---- Hits ----

  /** The trace an access leaves in the policy's own record. */
  function Touched(b: Bench, k: string): Bench
    requires k in b.items
  {
    match b.policy
    case LRU => b.(lru := MoveToFront(b.lru, k))
    case FIFO => b
    case SIEVE => b.(items := b.items[k := b.items[k].(visited := true)])
    case CLOCK => b.(items := b.items[k := b.items[k].(referenced := true)])
  }

  function Get(b: Bench, k: string): (Bench, Option<string>) {
    if k in b.items then
      (Touched(b.(hits := b.hits + 1, total := b.total + 1), k), Some(b.items[k].value))
    else
      (b.(misses := b.misses + 1, total := b.total + 1), None)
  }

  // ---- Eviction ----

  /** SIEVE from position i on: drop the first unvisited key, unmark the ones before it, unlist unknown keys. */
  function SieveFrom(order: seq<string>, items: map<string, Item>, i: nat): (seq<string>, map<string, Item>, bool)
    requires i <= |order|
    decreases |order| - i
  {
    if i == |order| then (order, items, false)
    else
      var k := order[i];
      if k !in items then SieveFrom(order[..i] + order[i + 1..], items, i)
      else if !items[k].visited then (order[..i] + order[i + 1..], items - {k}, true)
      else SieveFrom(order, items[k := items[k].(visited := false)], i + 1)
  }

  function SieveEvicted(b: Bench): Bench {
    var (order, items, found) := SieveFrom(b.sieve, b.items, 0);
    if found || order == [] then b.(sieve := order, items := items)
    else b.(sieve := order[1..], items := items - {order[0]})
  }

  predicate BitSet(items: map<string, Item>, k: string) { k in items && items[k].referenced }

  /** The place d steps after place h on a circle of n. */
  function Around(h: nat, d: nat, n: nat): (r: nat)
    requires h < n && d <= n
    ensures r < n
  {
    if h + d < n then h + d else h + d - n
  }

  /** The slot d places after the hand. */
  function SlotAt(slots: seq<string>, hand: nat, d: nat): string
    requires hand < |slots| && d <= |slots|
  {
    slots[Around(hand, d, |slots|)]
  }

  /** How far from the hand, at least d, the sweep finds a clear bit; once around if all are set. */
  function ClockDistance(slots: seq<string>, items: map<string, Item>, hand: nat, d: nat): (m: nat)
    requires hand < |slots| && d <= |slots|
    ensures d <= m <= |slots|
    decreases |slots| - d
  {
    if d == |slots| || !BitSet(items, SlotAt(slots, hand, d)) then d
    else ClockDistance(slots, items, hand, d + 1)
  }

  /** The keys of the first d slots from the hand on. */
  function Passed(slots: seq<string>, hand: nat, d: nat): set<string>
    requires hand < |slots| && d <= |slots|
  {
    set e | 0 <= e < d :: SlotAt(slots, hand, e)
  }

  function Cleared(items: map<string, Item>, ks: set<string>): map<string, Item> {
    map k | k in items :: if k in ks then items[k].(referenced := false) else items[k]
  }

  /** How far the sweep goes from the hand, and where it stops. */
  function Reach(b: Bench): (d: nat)
    requires b.hand < |b.slots|
    ensures d <= |b.slots|
  {
    ClockDistance(b.slots, b.items, b.hand, 0)
  }

  function Stop(b: Bench): (h: nat)
    requires b.hand < |b.slots|
    ensures h < |b.slots|
  {
    Around(b.hand, Reach(b), |b.slots|)
  }

  /** The sweep; an empty buffer is left alone, and a hand out of range does not occur. */
  function ClockEvicted(b: Bench): Bench {
    if b.hand >= |b.slots| then b
    else
      b.(items := Cleared(b.items, Passed(b.slots, b.hand, Reach(b))) - {b.slots[Stop(b)]},
         slots := b.slots[Stop(b) := ""], hand := Stop(b))
  }

  function Evicted(b: Bench): Bench {
    match b.policy
    case LRU =>
      if b.lru == [] then b
      else b.(lru := b.lru[..|b.lru| - 1], items := b.items - {b.lru[|b.lru| - 1]})
    case FIFO =>
      if b.fifo == [] then b
      else b.(fifo := b.fifo[1..], items := b.items - {b.fifo[0]})
    case SIEVE => SieveEvicted(b)
    case CLOCK => ClockEvicted(b)
  }

  // ---- Insertion ----

  /** The first empty slot, or the end. */
  function FirstEmpty(slots: seq<string>): (i: nat)
    ensures i <= |slots| && (i < |slots| ==> slots[i] == "") && forall j :: 0 <= j < i ==> slots[j] != ""
  {
    if slots == [] || slots[0] == "" then 0 else 1 + FirstEmpty(slots[1..])
  }

  function SlotAdded(slots: seq<string>, k: string): seq<string> {
    var i := FirstEmpty(slots);
    if i < |slots| then slots[i := k] else slots + [k]
  }

  function Inserted(b: Bench, k: string, v: string): Bench {
    var c := b.(items := b.items[k := Item(v, false, true)]);
    match b.policy
    case LRU => c.(lru := [k] + c.lru)
    case FIFO => c.(fifo := c.fifo + [k])
    case SIEVE => c.(sieve := c.sieve + [k])
    case CLOCK => c.(slots := SlotAdded(c.slots, k))
  }

  function Put(b: Bench, k: string, v: string): Bench {
    if k in b.items then Touched(b.(items := b.items[k := b.items[k].(value := v)]), k)
    else Inserted(if |b.items| >= b.capacity then Evicted(b) else b, k, v)
  }

  // ---- The driver: get, and on a miss put ----

  datatype Req = Req(key: string, value: string)

  function Request(b: Bench, r: Req): Bench {
    var (c, hit) := Get(b, r.key);
    if hit.Some? then c else Put(c, r.key, r.value)
  }

  function Run(b: Bench, reqs: seq<Req>): Bench {
    if reqs == [] then b else Request(Run(b, reqs[..|reqs| - 1]), reqs[|reqs| - 1])
  }

  // ---- Agreement of the records ----

  ghost predicate Lists(s: seq<string>, items: map<string, Item>) { NoDup(s) && Elems(s) == items.Keys }

  /** The slots list exactly the keys of the map, each once, and the hand is in range. */
  ghost predicate SlotsAgree(b: Bench) {
    Lists(b.slots, b.items) && if b.slots == [] then b.hand == 0 else b.hand < |b.slots|
  }

  /** The same, and no slot that holds a key looks empty. */
  ghost predicate ClockOk(b: Bench) { SlotsAgree(b) && "" !in b.items }

  /** The policy's own record lists exactly the keys of the map, each once. */
  ghost predicate OrderOk(b: Bench) {
    match b.policy
    case LRU => Lists(b.lru, b.items)
    case FIFO => Lists(b.fifo, b.items)
    case SIEVE => Lists(b.sieve, b.items)
    case CLOCK => ClockOk(b)
  }

  /** The records agree; for CLOCK the empty key may be among the keys. */
  ghost predicate Agrees(b: Bench) { if b.policy.CLOCK? then SlotsAgree(b) else OrderOk(b) }

  /** The honest bound: with capacity 0 the cache still holds one entry. */
  function Bound(b: Bench): nat { Max(b.capacity, 1) }

  ghost predicate Valid(b: Bench) {
    OrderOk(b) && |b.items| <= Bound(b) && b.hits + b.misses == b.total
  }

  lemma ValidClock(b: Bench)
    requires Valid(b) && b.policy.CLOCK?
    ensures ClockOk(b)
  {
  }

  lemma ListsSize(s: seq<string>, items: map<string, Item>)
    requires Lists(s, items)
    ensures |s| == |items|
  {
    CardElems(s);
    assert |items.Keys| == |items|;
  }

  lemma TouchedKeeps(b: Bench, k: string)
    requires OrderOk(b) && k in b.items
    ensures OrderOk(Touched(b, k)) && Touched(b, k).items.Keys == b.items.Keys
  {
    if b.policy.LRU? {
      MoveToFrontProps(b.lru, k);
    }
  }

  /** Losing one listed key from both records. */
  lemma ListsWithout(s: seq<string>, items: map<string, Item>, i: nat)
    requires Lists(s, items) && i < |s|
    ensures Lists(s[..i] + s[i + 1..], items - {s[i]})
  {
    WithoutAt(s, i);
    WithoutProps(s, s[i]);
  }

  // ---- SIEVE ----

  /** The first unvisited key from position i on, or the end. */
  function FirstUnvisited(order: seq<string>, items: map<string, Item>, i: nat): nat
    requires i <= |order|
    decreases |order| - i
  {
    if i == |order| || order[i] !in items || !items[order[i]].visited then i
    else FirstUnvisited(order, items, i + 1)
  }

  function Unvisited(items: map<string, Item>, ks: set<string>): map<string, Item> {
    map k | k in items :: if k in ks then items[k].(visited := false) else items[k]
  }

  /** In agreement with the map, the SIEVE sweep stops at the first unvisited key and unmarks exactly those before it. */
  lemma {:induction false} SieveFromExact(order: seq<string>, items: map<string, Item>, i: nat)
    requires Lists(order, items) && i <= |order|
    ensures i <= FirstUnvisited(order, items, i) <= |order|
    ensures SieveFrom(order, items, i) == SieveStop(order, items, i, FirstUnvisited(order, items, i))
    decreases |order| - i
  {
    assert i < |order| ==> order[i] in Elems(order);
    if i < |order| && items[order[i]].visited {
      var next := items[order[i] := items[order[i]].(visited := false)];
      assert Lists(order, next);
      SieveFromExact(order, next, i + 1);
      SieveUnaffected(order, items, next, i + 1);
      SieveStopStep(order, items, i, FirstUnvisited(order, items, i));
    } else {
      assert Between(order, i, i) == {} && Unvisited(items, {}) == items;
    }
  }

  function Between(order: seq<string>, i: nat, j: nat): set<string>
    requires i <= j <= |order|
  {
    set m | i <= m < j :: order[m]
  }

  /** The outcome of a sweep from i that stops at j. */
  function SieveStop(order: seq<string>, items: map<string, Item>, i: nat, j: nat): (seq<string>, map<string, Item>, bool)
    requires i <= j <= |order|
  {
    var marked := Unvisited(items, Between(order, i, j));
    if j < |order| then (order[..j] + order[j + 1..], marked - {order[j]}, true) else (order, marked, false)
  }

  lemma SieveStopStep(order: seq<string>, items: map<string, Item>, i: nat, j: nat)
    requires i < j <= |order| && order[i] in items
    ensures SieveStop(order, items[order[i] := items[order[i]].(visited := false)], i + 1, j)
         == SieveStop(order, items, i, j)
  {
    var next := items[order[i] := items[order[i]].(visited := false)];
    var a, b := Between(order, i, j), Between(order, i + 1, j);
    assert a == b + {order[i]};
    assert Unvisited(next, b) == Unvisited(items, a);
  }

  /** Unmarking an earlier key does not change where the sweep stops. */
  lemma {:induction false} SieveUnaffected(order: seq<string>, a: map<string, Item>, b: map<string, Item>, i: nat)
    requires i <= |order| && a.Keys == b.Keys && forall j :: i <= j < |order| && order[j] in a ==> a[order[j]] == b[order[j]]
    ensures FirstUnvisited(order, a, i) == FirstUnvisited(order, b, i)
    decreases |order| - i
  {
    if i < |order| && order[i] in a && a[order[i]].visited {
      SieveUnaffected(order, a, b, i + 1);
    }
  }

  /**
   * SIEVE evicts the first unvisited key and unmarks the visited ones before it; if all are visited it unmarks
   * them all and evicts the first. There is no hand: every eviction starts at the front.
   */
  lemma SieveEvictedExact(b: Bench)
    requires Lists(b.sieve, b.items) && b.sieve != []
    ensures var j := FirstUnvisited(b.sieve, b.items, 0);
            var at := if j < |b.sieve| then j else 0;
            && j <= |b.sieve|
            && (forall i :: 0 <= i < j ==> b.sieve[i] in b.items && b.items[b.sieve[i]].visited)
            && (j < |b.sieve| ==> b.sieve[j] in b.items && !b.items[b.sieve[j]].visited)
            && SieveEvicted(b).sieve == b.sieve[..at] + b.sieve[at + 1..]
            && SieveEvicted(b).items == Unvisited(b.items, Between(b.sieve, 0, j)) - {b.sieve[at]}
            && SieveEvicted(b) == b.(sieve := SieveEvicted(b).sieve, items := SieveEvicted(b).items)
  {
    SieveFromExact(b.sieve, b.items, 0);
    FirstUnvisitedExact(b.sieve, b.items, 0);
    assert b.sieve[..0] + b.sieve[1..] == b.sieve[1..];
  }

  lemma {:induction false} FirstUnvisitedExact(order: seq<string>, items: map<string, Item>, i: nat)
    requires Lists(order, items) && i <= |order|
    ensures var j := FirstUnvisited(order, items, i);
            && i <= j <= |order|
            && (forall m :: i <= m < j ==> order[m] in items && items[order[m]].visited)
            && (j < |order| ==> order[j] in items && !items[order[j]].visited)
    decreases |order| - i
  {
    assert forall m :: 0 <= m < |order| ==> order[m] in Elems(order);
    if i < |order| && items[order[i]].visited {
      FirstUnvisitedExact(order, items, i + 1);
    }
  }

  // ---- CLOCK ----

  /** The sweep stops at the first clear bit in circular order from the hand, or after one full turn. */
  lemma {:induction false} ClockDistanceExact(slots: seq<string>, items: map<string, Item>, hand: nat, d: nat)
    requires hand < |slots| && d <= |slots|
    ensures var m := ClockDistance(slots, items, hand, d);
            && (m < |slots| ==> !BitSet(items, SlotAt(slots, hand, m)))
            && forall e :: d <= e < m ==> BitSet(items, SlotAt(slots, hand, e))
    decreases |slots| - d
  {
    if d < |slots| && BitSet(items, SlotAt(slots, hand, d)) {
      ClockDistanceExact(slots, items, hand, d + 1);
    }
  }

  /**
   * CLOCK evicts the slot of the first clear bit in circular order from the hand, or the hand's own slot when
   * all bits are set. It clears exactly the bits it passed, and the hand stops at the slot it emptied.
   */
  lemma ClockEvictedExact(b: Bench)
    requires SlotsAgree(b) && b.slots != []
    ensures var c, d, victim := ClockEvicted(b), Reach(b), b.slots[Stop(b)];
            && (d == |b.slots| ==> victim == b.slots[b.hand])
            && (d < |b.slots| ==> victim == SlotAt(b.slots, b.hand, d) && victim in b.items && !b.items[victim].referenced)
            && (forall e :: 0 <= e < d ==> BitSet(b.items, SlotAt(b.slots, b.hand, e)))
            && c.hand == Stop(b) && c.slots == b.slots[Stop(b) := ""]
            && c.items.Keys == b.items.Keys - {victim}
            && (forall e :: 0 <= e < |b.slots| && SlotAt(b.slots, b.hand, e) != victim ==>
                  KeptItem(b, c, SlotAt(b.slots, b.hand, e), e < d))
  {
    hide ClockDistance, NoDup, Passed;
    ClockDistanceExact(b.slots, b.items, b.hand, 0);
    assert forall i :: 0 <= i < |b.slots| ==> b.slots[i] in Elems(b.slots);
    forall e | 0 <= e < |b.slots| && SlotAt(b.slots, b.hand, e) != b.slots[Stop(b)]
      ensures KeptItem(b, ClockEvicted(b), SlotAt(b.slots, b.hand, e), e < Reach(b))
    {
      SlotsApart(b, e);
    }
  }

  /** Key k is in both states; its bit is cleared or its item is as it was. */
  predicate KeptItem(b: Bench, c: Bench, k: string, cleared: bool) {
    k in b.items && k in c.items && c.items[k] == if cleared then b.items[k].(referenced := false) else b.items[k]
  }

  /** Slots hold different keys, so a slot was passed only by the step that reaches it. */
  lemma SlotsApart(b: Bench, e: nat)
    requires SlotsAgree(b) && b.slots != [] && e < |b.slots|
    ensures SlotAt(b.slots, b.hand, e) in Passed(b.slots, b.hand, Reach(b)) <==> e < Reach(b)
  {
    forall f | 0 <= f < |b.slots| && f != e ensures SlotAt(b.slots, b.hand, f) != SlotAt(b.slots, b.hand, e) {
      assert Around(b.hand, f, |b.slots|) != Around(b.hand, e, |b.slots|);
    }
  }

  // ---- Every request keeps the records in agreement ----

  lemma SweptKeys(b: Bench)
    requires SlotsAgree(b) && b.slots != []
    ensures ClockEvicted(b).items.Keys == b.items.Keys - {b.slots[Stop(b)]} && b.slots[Stop(b)] in b.items
  {
    assert b.slots[Stop(b)] in Elems(b.slots);
  }

  /** Eviction takes out exactly one key; under LRU, FIFO and SIEVE the records agree again at once. */
  lemma EvictedTakesOne(b: Bench)
    requires OrderOk(b) && b.items.Keys != {}
    ensures |Evicted(b).items| == |b.items| - 1 && Evicted(b).items.Keys <= b.items.Keys
    ensures !b.policy.CLOCK? ==> OrderOk(Evicted(b))
    ensures SameCounters(b, Evicted(b))
  {
    var v := Victim(b);
    OneLess(b.items, Evicted(b).items, v);
  }

  lemma OneLess(a: map<string, Item>, b: map<string, Item>, v: string)
    requires v in a && b.Keys == a.Keys - {v}
    ensures |b| == |a| - 1
  {
    assert |b.Keys| == |a.Keys| - 1;
  }

  lemma Victim(b: Bench) returns (v: string)
    requires OrderOk(b) && b.items.Keys != {}
    ensures v in b.items && Evicted(b).items.Keys == b.items.Keys - {v}
    ensures !b.policy.CLOCK? ==> OrderOk(Evicted(b))
    ensures SameCounters(b, Evicted(b))
  {
    match b.policy
    case LRU =>
      LastWithout(b.lru, b.items);
      v := b.lru[|b.lru| - 1];
    case FIFO =>
      FirstWithout(b.fifo, b.items);
      v := b.fifo[0];
    case SIEVE =>
      v := SieveVictim(b);
    case CLOCK =>
      NonEmptyList(b.slots, b.items);
      v := b.slots[Stop(b)];
      SweptKeys(b);
  }

  lemma LastWithout(s: seq<string>, items: map<string, Item>)
    requires Lists(s, items) && items.Keys != {}
    ensures s != [] && s[|s| - 1] in items && Lists(s[..|s| - 1], items - {s[|s| - 1]})
  {
    NonEmptyList(s, items);
    ListsWithout(s, items, |s| - 1);
    assert s[..|s| - 1] + s[|s|..] == s[..|s| - 1];
  }

  lemma FirstWithout(s: seq<string>, items: map<string, Item>)
    requires Lists(s, items) && items.Keys != {}
    ensures s != [] && s[0] in items && Lists(s[1..], items - {s[0]})
  {
    NonEmptyList(s, items);
    ListsWithout(s, items, 0);
    assert s[..0] + s[1..] == s[1..];
  }

  lemma SieveVictim(b: Bench) returns (v: string)
    requires Lists(b.sieve, b.items) && b.items.Keys != {}
    ensures v in b.items && SieveEvicted(b).items.Keys == b.items.Keys - {v}
    ensures Lists(SieveEvicted(b).sieve, SieveEvicted(b).items)
    ensures SieveEvicted(b) == b.(sieve := SieveEvicted(b).sieve, items := SieveEvicted(b).items)
  {
    NonEmptyList(b.sieve, b.items);
    SieveEvictedExact(b);
    var j := FirstUnvisited(b.sieve, b.items, 0);
    var at := if j < |b.sieve| then j else 0;
    v := b.sieve[at];
    ListsWithout(b.sieve, b.items, at);
  }

  predicate SameCounters(b: Bench, c: Bench) {
    c.hits == b.hits && c.misses == b.misses && c.total == b.total && c.capacity == b.capacity && c.policy == b.policy
  }

  lemma NonEmptyList(s: seq<string>, items: map<string, Item>)
    requires Lists(s, items) && items.Keys != {}
    ensures s != [] && s[0] in items && s[|s| - 1] in items
  {
    var k :| k in items.Keys;
    assert k in Elems(s);
    assert s[0] in Elems(s) && s[|s| - 1] in Elems(s);
  }

  // ---- Insertion ----

  /** Insertion of a new, non-empty key after what eviction leaves; the clock buffer may then hold an empty slot. */
  ghost predicate ReadyToInsert(b: Bench) {
    if !b.policy.CLOCK? then OrderOk(b)
    else
      && "" !in b.items && (if b.slots == [] then b.hand == 0 else b.hand < |b.slots|)
      && NoDup(b.slots) && Elems(b.slots) - {""} == b.items.Keys
  }

  lemma EvictedReady(b: Bench)
    requires OrderOk(b)
    ensures ReadyToInsert(Evicted(b)) && SameCounters(b, Evicted(b))
  {
    if b.items.Keys == {} {
      EvictedNothing(b);
    } else {
      EvictedTakesOne(b);
      if b.policy.CLOCK? {
        NonEmptyList(b.slots, b.items);
        SweptKeys(b);
        SlotEmptied(b.slots, b.items, Stop(b));
      }
    }
  }

  lemma EvictedNothing(b: Bench)
    requires OrderOk(b) && b.items.Keys == {}
    ensures Evicted(b) == b && ReadyToInsert(b)
  {
    EmptyLists(if b.policy.LRU? then b.lru else if b.policy.FIFO? then b.fifo else if b.policy.SIEVE? then b.sieve else b.slots);
  }

  lemma EmptyLists(s: seq<string>)
    ensures Elems(s) == {} ==> s == []
  {
    if s != [] { assert s[0] in Elems(s); }
  }

  lemma SlotEmptied(slots: seq<string>, items: map<string, Item>, h: nat)
    requires Lists(slots, items) && "" !in items && h < |slots|
    ensures NoDup(slots[h := ""]) && Elems(slots[h := ""]) - {""} == items.Keys - {slots[h]}
  {
    var t := slots[h := ""];
    assert forall i :: 0 <= i < |slots| ==> slots[i] in Elems(slots);
    forall k ensures k in Elems(t) - {""} <==> k in items.Keys - {slots[h]} {
      if k in items.Keys - {slots[h]} {
        var i :| 0 <= i < |slots| && slots[i] == k;
        assert t[i] == k;
      }
    }
  }

  lemma InsertedKeeps(b: Bench, k: string, v: string)
    requires ReadyToInsert(b) && k !in b.items && (b.policy.CLOCK? ==> k != "")
    ensures OrderOk(Inserted(b, k, v)) && SameCounters(b, Inserted(b, k, v))
    ensures Inserted(b, k, v).items.Keys == b.items.Keys + {k} && |Inserted(b, k, v).items| == |b.items| + 1
  {
    hide Lists, ClockOk, SlotsAgree;
    OneMore(b.items, k, Item(v, false, true));
    match b.policy
    case LRU => ListsWith([k], b.lru, b.items, k, v);
    case FIFO => ListsWith(b.fifo, [k], b.items, k, v);
    case SIEVE => ListsWith(b.sieve, [k], b.items, k, v);
    case CLOCK => SlotFilled(b, k, v);
  }

  lemma OneMore(items: map<string, Item>, k: string, i: Item)
    requires k !in items
    ensures items[k := i].Keys == items.Keys + {k} && |items[k := i]| == |items| + 1
  {
    assert |items[k := i].Keys| == |items.Keys| + 1;
  }

  lemma ListsWith(s: seq<string>, t: seq<string>, items: map<string, Item>, k: string, v: string)
    requires k !in items && ((t == [k] && Lists(s, items)) || (s == [k] && Lists(t, items)))
    ensures Lists(s + t, items[k := Item(v, false, true)])
  {
    ElemsConcat(s, t);
    assert forall i :: 0 <= i < |s| ==> s[i] in Elems(s);
    assert forall i :: 0 <= i < |t| ==> t[i] in Elems(t);
    assert Elems([k]) == {k};
  }

  lemma SlotFilled(b: Bench, k: string, v: string)
    requires b.policy.CLOCK? && ReadyToInsert(b) && k !in b.items && k != ""
    ensures ClockOk(Inserted(b, k, v))
  {
    var i := FirstEmpty(b.slots);
    var t := SlotAdded(b.slots, k);
    assert forall j :: 0 <= j < |b.slots| ==> b.slots[j] in Elems(b.slots);
    forall j | 0 <= j < |b.slots| && j != i ensures b.slots[j] != "" && b.slots[j] != k { }
    forall x ensures x in Elems(t) <==> x in b.items.Keys + {k} {
      if x == k {
        assert t[i] == k;
      } else if x in b.items {
        var j :| 0 <= j < |b.slots| && b.slots[j] == x;
        assert t[j] == x;
      }
    }
  }

  /** A put keeps the records in agreement and the size within max(capacity, 1). */
  lemma PutKeeps(b: Bench, k: string, v: string)
    requires Valid(b) && (b.policy.CLOCK? ==> k != "")
    ensures Valid(Put(b, k, v)) && SameCounters(b, Put(b, k, v)) && k in Put(b, k, v).items
  {
    if k in b.items {
      var c := b.(items := b.items[k := b.items[k].(value := v)]);
      assert c.items.Keys == b.items.Keys;
      assert OrderOk(c);
      TouchedKeeps(c, k);
      assert |Put(b, k, v).items.Keys| == |b.items.Keys|;
    } else if |b.items| >= b.capacity {
      EvictedReady(b);
      if b.items.Keys != {} { EvictedTakesOne(b); }
      NotInEvicted(b, k);
      InsertedKeeps(Evicted(b), k, v);
    } else {
      FullIsReady(b);
      InsertedKeeps(b, k, v);
    }
  }

  lemma NotInEvicted(b: Bench, k: string)
    requires OrderOk(b) && k !in b.items
    ensures k !in Evicted(b).items && (b.items.Keys == {} ==> |Evicted(b).items| == 0)
  {
    if b.items.Keys == {} {
      EvictedNothing(b);
      assert |b.items.Keys| == 0;
    } else {
      EvictedTakesOne(b);
    }
  }

  lemma FullIsReady(b: Bench)
    requires OrderOk(b)
    ensures ReadyToInsert(b)
  {
  }

  lemma GetKeeps(b: Bench, k: string)
    requires Valid(b)
    ensures Valid(Get(b, k).0) && Get(b, k).0.items.Keys == b.items.Keys
  {
    if k in b.items {
      var c := b.(hits := b.hits + 1, total := b.total + 1);
      assert OrderOk(c);
      TouchedKeeps(c, k);
      assert |Get(b, k).0.items.Keys| == |b.items.Keys|;
    }
  }

  lemma RequestKeeps(b: Bench, r: Req)
    requires Valid(b) && (b.policy.CLOCK? ==> r.key != "")
    ensures Valid(Request(b, r)) && r.key in Request(b, r).items
  {
    GetKeeps(b, r.key);
    if r.key !in b.items {
      PutKeeps(Get(b, r.key).0, r.key, r.value);
    }
  }

  lemma EmptyValid(capacity: nat, policy: Policy)
    ensures Valid(Empty(capacity, policy))
  {
    ElemsOfEmpty<string>([]);
  }

  ghost predicate KeysGiven(reqs: seq<Req>) { forall i :: 0 <= i < |reqs| ==> reqs[i].key != "" }

  /** After every run of requests with non-empty keys, the records agree and the size bound holds. */
  lemma {:induction false} RunKeeps(b: Bench, reqs: seq<Req>)
    requires Valid(b) && (b.policy.CLOCK? ==> KeysGiven(reqs))
    ensures Valid(Run(b, reqs)) && Run(b, reqs).capacity == b.capacity && Run(b, reqs).policy == b.policy
  {
    hide Valid, OrderOk;
    if reqs != [] {
      RunKeeps(b, reqs[..|reqs| - 1]);
      RequestKeeps(Run(b, reqs[..|reqs| - 1]), reqs[|reqs| - 1]);
      RequestShape(Run(b, reqs[..|reqs| - 1]), reqs[|reqs| - 1]);
    }
  }

  lemma RequestShape(b: Bench, r: Req)
    requires Valid(b)
    ensures Request(b, r).capacity == b.capacity && Request(b, r).policy == b.policy
  {
    GetKeeps(b, r.key);
    if r.key !in b.items { EvictedReady(Get(b, r.key).0); }
  }

  // ---- The empty key ----

  /** Writing key k at position h, where the key that was there is lost. */
  lemma ReplaceAt(s: seq<string>, h: nat, k: string)
    requires NoDup(s) && h < |s| && k !in s
    ensures NoDup(s[h := k]) && Elems(s[h := k]) == Elems(s) - {s[h]} + {k}
  {
    var t := s[h := k];
    forall x ensures x in Elems(t) <==> x in Elems(s) - {s[h]} + {k} {
      if x in s && x != s[h] {
        var i :| 0 <= i < |s| && s[i] == x;
        assert t[i] == x;
      }
      if x == k { assert t[h] == k; }
    }
  }

  lemma SwapAt(s: seq<string>, i: nat, h: nat)
    requires NoDup(s) && i < |s| && h < |s|
    ensures NoDup(s[i := s[h]][h := s[i]]) && Elems(s[i := s[h]][h := s[i]]) == Elems(s)
  {
    var t := s[i := s[h]][h := s[i]];
    forall x ensures x in Elems(t) <==> x in Elems(s) {
      if x in s {
        var m :| 0 <= m < |s| && s[m] == x;
        assert t[if m == i then h else if m == h then i else m] == x;
      }
    }
  }

  /** The first slot that looks empty, whether it is the emptied one or holds the empty key, takes the new key. */
  lemma FilledAfterSweep(slots: seq<string>, h: nat, k: string)
    requires NoDup(slots) && h < |slots| && k !in slots
    ensures NoDup(SlotAdded(slots[h := ""], k))
    ensures Elems(SlotAdded(slots[h := ""], k)) == Elems(slots) - {slots[h]} + {k}
  {
    var t := slots[h := ""];
    var i := FirstEmpty(t);
    assert t[h] == "";
    ReplaceAt(slots, h, k);
    var u := slots[h := k];
    SwapAt(u, i, h);
    assert SlotAdded(t, k) == u[i := u[h]][h := u[i]];
  }

  lemma ClockPutFull(b: Bench, k: string, v: string)
    requires b.policy.CLOCK? && SlotsAgree(b) && k !in b.items && |b.items| >= b.capacity
    ensures SlotsAgree(Put(b, k, v))
  {
    if b.slots == [] {
      ListsSize(b.slots, b.items);
      assert Elems([k]) == {k};
    } else {
      SweptKeys(b);
      assert k !in Elems(b.slots);
      FilledAfterSweep(b.slots, Stop(b), k);
    }
  }

  lemma ClockPutRoom(b: Bench, k: string, v: string)
    requires b.policy.CLOCK? && SlotsAgree(b) && k !in b.items && |b.items| < b.capacity
    ensures SlotsAgree(Put(b, k, v)) <==> "" !in b.items
  {
    var i, c := FirstEmpty(b.slots), Put(b, k, v);
    assert forall j :: 0 <= j < |b.slots| ==> b.slots[j] in Elems(b.slots);
    ListsSize(b.slots, b.items);
    OneMore(b.items, k, Item(v, false, true));
    if "" in b.items {
      assert "" in Elems(b.slots);
      assert |c.slots| == |b.slots| < |c.items|;
      if SlotsAgree(c) { ListsSize(c.slots, c.items); }
    } else {
      assert i == |b.slots|;
      ListsWith(b.slots, [k], b.items, k, v);
    }
  }

  /**
   * A put keeps record and map in agreement, except exactly when CLOCK holds the empty key and a new key comes in
   * while there is room: its slot is then taken for an empty one and overwritten, though the map still holds it.
   */
  lemma PutAgreesExact(b: Bench, k: string, v: string)
    requires Agrees(b)
    ensures Agrees(Put(b, k, v)) <==> !(b.policy.CLOCK? && k !in b.items && "" in b.items && |b.items| < b.capacity)
  {
    if k in b.items {
      var c := b.(items := b.items[k := b.items[k].(value := v)]);
      assert c.items.Keys == b.items.Keys;
      if !b.policy.CLOCK? { TouchedKeeps(c, k); }
    } else if b.policy.CLOCK? {
      if |b.items| >= b.capacity { ClockPutFull(b, k, v); } else { ClockPutRoom(b, k, v); }
    } else {
      OthersPutAgree(b, k, v);
    }
  }

  lemma OthersPutAgree(b: Bench, k: string, v: string)
    requires !b.policy.CLOCK? && OrderOk(b) && k !in b.items
    ensures OrderOk(Put(b, k, v))
  {
    hide OrderOk, Evicted, Inserted;
    if |b.items| >= b.capacity {
      EvictedReady(b);
      NotInEvicted(b, k);
      InsertedKeeps(Evicted(b), k, v);
    } else {
      FullIsReady(b);
      InsertedKeeps(b, k, v);
    }
  }

  /** Two puts into a CLOCK cache for two entries: the empty key, then another. The first one's slot is lost. */
  lemma EmptyKeyIsLost(k: string, v: string, w: string)
    requires k != ""
    ensures var c := Put(Put(Empty(2, CLOCK), "", v), k, w);
            c.slots == [k] && "" in c.items && k in c.items && !Agrees(c)
  {
    var b := Put(Empty(2, CLOCK), "", v);
    assert b.slots == [""] && b.items == map["" := Item(v, false, true)];
    assert |b.items.Keys| == 1;
    var c := Put(b, k, w);
    assert c.slots == [k];
    assert "" in c.items && "" !in Elems(c.slots);
  }

  /** A miss on a full clock buffer: the new key takes the very slot that the sweep emptied, and the hand stays there. */
  lemma ClockReplaces(b: Bench, r: Req)
    requires b.policy.CLOCK? && ClockOk(b) && b.slots != [] && |b.items| >= b.capacity
    requires r.key !in b.items && r.key != ""
    ensures var c := Request(b, r);
            && c.slots == b.slots[Stop(b) := r.key] && c.hand == Stop(b)
            && c.items == (Cleared(b.items, Passed(b.slots, b.hand, Reach(b))) - {b.slots[Stop(b)]})
                          [r.key := Item(r.value, false, true)]
  {
    var g := Get(b, r.key).0;
    assert Reach(g) == Reach(b) && Stop(g) == Stop(b);
    var t := b.slots[Stop(b) := ""];
    forall i | 0 <= i < |t| && i != Stop(b) ensures t[i] != "" {
      assert b.slots[i] in Elems(b.slots);
    }
    assert t[Stop(b)] == "";
    assert FirstEmpty(t) == Stop(b);
  }

  /** A miss while the clock buffer has room: the new key is appended, and the hand does not move. */
  lemma ClockAppends(b: Bench, r: Req)
    requires b.policy.CLOCK? && ClockOk(b) && (|b.items| < b.capacity || b.slots == []) && r.key !in b.items
    ensures var c := Request(b, r);
            && c.slots == b.slots + [r.key] && c.hand == b.hand
            && c.items == b.items[r.key := Item(r.value, false, true)]
  {
    forall i | 0 <= i < |b.slots| ensures b.slots[i] != "" {
      assert b.slots[i] in Elems(b.slots);
    }
    assert FirstEmpty(b.slots) == |b.slots|;
  }
}
