/** Runs in which every request misses: under all four policies the cache is a sliding window over the requests. */
module HitFree {
  import opened Sequences
  import opened BenchModel
  import opened Conservative

  /** Key k enters a window of at most size keys; the oldest key leaves when there is no room. */
  function Slide(w: seq<string>, k: string, size: nat): seq<string> {
    if |w| < size || w == [] then w + [k] else w[1..] + [k]
  }

  /** The last size requested keys, oldest first. */
  function Window(reqs: seq<Req>, size: nat): seq<string> {
    if reqs == [] then [] else Slide(Window(reqs[..|reqs| - 1], size), reqs[|reqs| - 1].key, size)
  }

  lemma {:induction false} WindowExact(reqs: seq<Req>, size: nat)
    requires size >= 1
    ensures var w := Window(reqs, size);
            && |w| == Min(|reqs|, size)
            && forall i :: 0 <= i < |w| ==> w[i] == reqs[|reqs| - |w| + i].key
  {
    if reqs != [] {
      WindowExact(reqs[..|reqs| - 1], size);
    }
  }

  function Reversed(s: seq<string>): (r: seq<string>)
    ensures |r| == |s|
  {
    if s == [] then [] else Reversed(s[1..]) + [s[0]]
  }

  lemma {:induction false} ReversedEnd(s: seq<string>, k: string)
    ensures Reversed(s + [k]) == [k] + Reversed(s)
  {
    if s == [] {
      assert s + [k] == [k];
    } else {
      TailOfConcat(s, [k]);
      ReversedEnd(s[1..], k);
    }
  }

  /** While the clock buffer fills up: slots in order of arrival, all bits set, the hand at the first slot. */
  ghost predicate Filling(b: Bench, w: seq<string>) {
    b.slots == w && b.hand == 0 && forall k :: k in b.items ==> b.items[k].referenced
  }

  /** Once it has evicted: slot age follows circular order from the hand, and only the hand's slot has its bit set. */
  ghost predicate Turning(b: Bench, w: seq<string>) {
    && |w| == |b.slots| == Bound(b) && b.hand < |b.slots|
    && (forall i {:trigger w[i]} :: 0 <= i < |w| ==> SlotAt(b.slots, b.hand, i + 1) == w[i])
    && forall k :: k in b.items ==> (b.items[k].referenced <==> k == b.slots[b.hand])
  }

  /** The policy's record is the window w, read in the policy's own way. */
  ghost predicate Reads(b: Bench, w: seq<string>) {
    match b.policy
    case LRU => b.lru == Reversed(w)
    case FIFO => b.fifo == w
    case SIEVE => b.sieve == w && forall k :: k in b.items ==> !b.items[k].visited
    case CLOCK => Filling(b, w) || Turning(b, w)
  }

  /** The cache holds exactly the keys of the window, in the order of their arrival. */
  ghost predicate Settled(b: Bench, w: seq<string>) {
    Valid(b) && Lists(w, b.items) && Reads(b, w)
  }

  // ---- One miss ----

  /** The keys held after a miss of k: the oldest key of the window is gone if there was no room. */
  ghost function SlidKeys(b: Bench, w: seq<string>, k: string): set<string> {
    if |w| < Bound(b) || w == [] then b.items.Keys + {k} else b.items.Keys - {w[0]} + {k}
  }

  lemma SlideLists(b: Bench, w: seq<string>, k: string, after: map<string, Item>)
    requires Lists(w, b.items) && k !in b.items && after.Keys == SlidKeys(b, w, k)
    ensures Lists(Slide(w, k, Bound(b)), after)
  {
    if |w| < Bound(b) || w == [] {
      ListsMore(w, b.items.Keys, k);
    } else {
      ListsWithout(w, b.items, 0);
      assert w[..0] + w[1..] == w[1..];
      assert k !in (b.items - {w[0]});
      ListsMore(w[1..], (b.items - {w[0]}).Keys, k);
    }
  }

  lemma ListsMore(w: seq<string>, keys: set<string>, k: string)
    requires NoDup(w) && Elems(w) == keys && k !in keys
    ensures NoDup(w + [k]) && Elems(w + [k]) == keys + {k}
  {
    ElemsConcat(w, [k]);
    assert Elems([k]) == {k};
    assert forall i :: 0 <= i < |w| ==> w[i] in Elems(w);
  }

  lemma RoomMiss(b: Bench, r: Req)
    requires Valid(b) && r.key !in b.items && |b.items| < Bound(b)
    ensures Request(b, r) == Inserted(Get(b, r.key).0, r.key, r.value)
  {
    if b.capacity == 0 {
      assert |b.items.Keys| == 0;
      EvictedNothing(Get(b, r.key).0);
    }
  }

  lemma FullMiss(b: Bench, r: Req)
    requires Valid(b) && r.key !in b.items && |b.items| >= Bound(b)
    ensures Request(b, r) == Inserted(Evicted(Get(b, r.key).0), r.key, r.value)
  {
  }

  lemma LruMiss(b: Bench, w: seq<string>, r: Req)
    requires b.policy.LRU? && Valid(b) && Lists(w, b.items) && b.lru == Reversed(w) && r.key !in b.items
    ensures Request(b, r).lru == Reversed(Slide(w, r.key, Bound(b)))
    ensures Request(b, r).items.Keys == SlidKeys(b, w, r.key)
  {
    ListsSize(w, b.items);
    if |w| < Bound(b) {
      RoomMiss(b, r);
      ReversedEnd(w, r.key);
    } else {
      FullMiss(b, r);
      ReversedEnd(w[1..], r.key);
    }
  }

  lemma FifoMisses(b: Bench, w: seq<string>, r: Req)
    requires b.policy.FIFO? && Valid(b) && b.fifo == w && r.key !in b.items
    ensures Request(b, r).fifo == Slide(w, r.key, Bound(b))
    ensures Request(b, r).items.Keys == SlidKeys(b, w, r.key)
  {
    ListsSize(w, b.items);
    if |w| < Bound(b) {
      RoomMiss(b, r);
    } else {
      FullMiss(b, r);
    }
  }

  lemma SieveMiss(b: Bench, w: seq<string>, r: Req)
    requires b.policy.SIEVE? && Valid(b) && Reads(b, w) && r.key !in b.items
    ensures Request(b, r).policy.SIEVE? && Reads(Request(b, r), Slide(w, r.key, Bound(b)))
    ensures Request(b, r).items.Keys == SlidKeys(b, w, r.key)
  {
    ListsSize(w, b.items);
    if |w| < Bound(b) {
      RoomMiss(b, r);
    } else {
      FullMiss(b, r);
      FirstInLine(Get(b, r.key).0);
    }
  }

  /** With no key visited, SIEVE evicts its first key and unmarks nothing. */
  lemma FirstInLine(b: Bench)
    requires Lists(b.sieve, b.items) && b.sieve != [] && forall k :: k in b.items ==> !b.items[k].visited
    ensures SieveEvicted(b) == b.(sieve := b.sieve[1..], items := b.items - {b.sieve[0]})
  {
    assert b.sieve[0] in Elems(b.sieve);
    assert b.sieve[..0] + b.sieve[1..] == b.sieve[1..];
  }

  lemma ClockFills(b: Bench, w: seq<string>, r: Req)
    requires b.policy.CLOCK? && Valid(b) && Filling(b, w) && |w| < Bound(b) && r.key !in b.items && r.key != ""
    ensures Filling(Request(b, r), w + [r.key]) && Request(b, r).items.Keys == b.items.Keys + {r.key}
  {
    ListsSize(w, b.items);
    ClockAppends(b, r);
  }

  /** The first eviction: all bits are set, so the sweep turns once around, clears them and stops where it began. */
  lemma ClockStartsTurning(b: Bench, w: seq<string>, r: Req)
    requires b.policy.CLOCK? && Valid(b) && Filling(b, w) && |w| >= Bound(b) && r.key !in b.items && r.key != ""
    ensures Turning(Request(b, r), w[1..] + [r.key])
    ensures Request(b, r).items.Keys == b.items.Keys - {w[0]} + {r.key}
  {
    hide Valid, Request;
    ValidClock(b);
    ListsSize(w, b.items);
    assert w[0] in Elems(w);
    SizeBound(b);
    TurnsAround(b);
    ClockReplaces(b, r);
    RequestShape(b, r);
    TurnedOnce(b, Request(b, r), w, r);
  }

  /** With all bits set the sweep from the first slot passes every key and comes back. */
  lemma TurnsAround(b: Bench)
    requires ClockOk(b) && b.slots != [] && b.hand == 0 && forall k :: k in b.items ==> b.items[k].referenced
    ensures Reach(b) == |b.slots| && Stop(b) == 0 && b.items.Keys <= Passed(b.slots, 0, |b.slots|)
  {
    ClockDistanceExact(b.slots, b.items, 0, 0);
    forall d: nat | d < |b.slots| ensures SlotAt(b.slots, 0, d) == b.slots[d] && BitSet(b.items, b.slots[d]) {
      assert b.slots[d] in Elems(b.slots);
    }
    forall k | k in b.items ensures k in Passed(b.slots, 0, |b.slots|) {
      assert k in Elems(b.slots);
      var d :| 0 <= d < |b.slots| && b.slots[d] == k;
      assert SlotAt(b.slots, 0, d) == k;
    }
  }

  lemma TurnedOnce(b: Bench, c: Bench, w: seq<string>, r: Req)
    requires b.slots == w != [] && |w| == Bound(c) && r.key !in b.items && w[0] in b.items
    requires c.slots == w[0 := r.key] && c.hand == 0 && b.items.Keys <= Passed(w, 0, |w|)
    requires c.items == (Cleared(b.items, Passed(w, 0, |w|)) - {w[0]})[r.key := Item(r.value, false, true)]
    ensures Turning(c, w[1..] + [r.key]) && c.items.Keys == b.items.Keys - {w[0]} + {r.key}
  {
    hide Passed;
    var v := w[1..] + [r.key];
    forall i | 0 <= i < |v| ensures SlotAt(c.slots, 0, i + 1) == v[i] {
      assert Around(0, i + 1, |w|) == if i + 1 < |w| then i + 1 else 0;
    }
  }

  /** Every later eviction: the sweep clears the hand's bit and stops one slot on, at the oldest key. */
  lemma ClockTurns(b: Bench, w: seq<string>, r: Req)
    requires b.policy.CLOCK? && Valid(b) && Turning(b, w) && r.key !in b.items && r.key != ""
    ensures Turning(Request(b, r), w[1..] + [r.key])
    ensures Request(b, r).items.Keys == b.items.Keys - {w[0]} + {r.key}
  {
    hide Valid, Request;
    ValidClock(b);
    ListsSize(b.slots, b.items);
    ReachesNext(b, w);
    ClockReplaces(b, r);
    RequestShape(b, r);
    var c, n := Request(b, r), |w|;
    forall j | 1 <= j < n ensures SlotAt(c.slots, c.hand, j) == w[j] {
      assert SlotAt(b.slots, b.hand, j + 1) == w[j];
      assert Around(c.hand, j, n) == Around(b.hand, j + 1, n) != c.hand;
    }
    assert SlotAt(c.slots, c.hand, n) == r.key;
    BitsAfterTurn(b, r);
  }

  lemma ReachesNext(b: Bench, w: seq<string>)
    requires ClockOk(b) && Turning(b, w)
    ensures Reach(b) == 1 && Stop(b) == Around(b.hand, 1, |b.slots|)
    ensures Passed(b.slots, b.hand, 1) == {b.slots[b.hand]}
  {
    assert b.slots[b.hand] in Elems(b.slots);
    assert SlotAt(b.slots, b.hand, 0) == b.slots[b.hand];
    assert BitSet(b.items, b.slots[b.hand]);
    if |b.slots| > 1 {
      assert Around(b.hand, 1, |b.slots|) != b.hand;
      assert !BitSet(b.items, SlotAt(b.slots, b.hand, 1));
    }
    assert ClockDistance(b.slots, b.items, b.hand, 1) == 1;
  }

  lemma BitsAfterTurn(b: Bench, r: Req)
    requires ClockOk(b) && b.slots != [] && Request(b, r).slots == b.slots[Stop(b) := r.key] && Request(b, r).hand == Stop(b)
    requires forall k :: k in b.items ==> (b.items[k].referenced <==> k == b.slots[b.hand])
    requires Passed(b.slots, b.hand, Reach(b)) == {b.slots[b.hand]}
    requires Request(b, r).items == (Cleared(b.items, Passed(b.slots, b.hand, Reach(b))) - {b.slots[Stop(b)]})
                                    [r.key := Item(r.value, false, true)]
    ensures forall k :: k in Request(b, r).items ==>
              (Request(b, r).items[k].referenced <==> k == Request(b, r).slots[Request(b, r).hand])
  {
  }

  lemma ClockMiss(b: Bench, w: seq<string>, r: Req)
    requires b.policy.CLOCK? && Valid(b) && Lists(w, b.items) && Reads(b, w) && r.key !in b.items && r.key != ""
    ensures Request(b, r).policy.CLOCK? && Reads(Request(b, r), Slide(w, r.key, Bound(b)))
    ensures Request(b, r).items.Keys == SlidKeys(b, w, r.key)
  {
    hide Valid, Filling, Turning, Request;
    ListsSize(w, b.items);
    RequestShape(b, r);
    SizeBound(b);
    if Turning(b, w) {
      TurningSize(b, w);
      ClockTurns(b, w, r);
    } else if |w| < Bound(b) {
      ClockFills(b, w, r);
    } else {
      ClockStartsTurning(b, w, r);
    }
  }

  lemma SizeBound(b: Bench)
    requires Valid(b)
    ensures |b.items| <= Bound(b)
  {
  }

  lemma TurningSize(b: Bench, w: seq<string>)
    requires Turning(b, w)
    ensures |w| == Bound(b)
  {
  }

  /** A miss slides the window, whatever the policy. */
  lemma MissSlides(b: Bench, w: seq<string>, r: Req)
    requires Settled(b, w) && r.key !in b.items && (b.policy.CLOCK? ==> r.key != "")
    ensures Settled(Request(b, r), Slide(w, r.key, Bound(b)))
    ensures Request(b, r).policy == b.policy && Request(b, r).capacity == b.capacity
  {
    hide Valid, Filling, Turning, Request, Lists, Slide;
    RequestKeeps(b, r);
    RequestShape(b, r);
    match b.policy {
      case LRU => LruMiss(b, w, r);
      case FIFO => FifoMisses(b, w, r);
      case SIEVE => SieveMiss(b, w, r);
      case CLOCK => ClockMiss(b, w, r);
    }
    SlideLists(b, w, r.key, Request(b, r).items);
  }

  // ---- Whole runs ----

  /** The requests all miss when they are run from an empty cache. */
  predicate EveryMiss(capacity: nat, policy: Policy, reqs: seq<Req>) {
    Missed(Empty(capacity, policy), reqs) == AllKeys(reqs)
  }

  function AllKeys(reqs: seq<Req>): seq<string> {
    if reqs == [] then [] else AllKeys(reqs[..|reqs| - 1]) + [reqs[|reqs| - 1].key]
  }

  /** No key was requested among the max(capacity, 1) requests before it. */
  ghost predicate Spaced(reqs: seq<Req>, size: nat) {
    forall i, j :: 0 <= i < j < |reqs| && j - i <= size ==> reqs[i].key != reqs[j].key
  }

  lemma {:induction false} MissedLength(b: Bench, reqs: seq<Req>)
    ensures |Missed(b, reqs)| <= |AllKeys(reqs)| == |reqs|
  {
    if reqs != [] {
      MissedLength(b, reqs[..|reqs| - 1]);
    }
  }

  /** Every request of a longer run misses exactly when those before the last do and the last one does. */
  lemma EveryMissStep(capacity: nat, policy: Policy, reqs: seq<Req>)
    requires reqs != []
    ensures var pre := reqs[..|reqs| - 1];
            EveryMiss(capacity, policy, reqs) <==>
              EveryMiss(capacity, policy, pre) && reqs[|reqs| - 1].key !in Run(Empty(capacity, policy), pre).items
  {
    var pre, k := reqs[..|reqs| - 1], reqs[|reqs| - 1].key;
    var b := Empty(capacity, policy);
    MissedLength(b, pre);
    var last := if k in Run(b, pre).items then [] else [k];
    assert Missed(b, reqs) == Missed(b, pre) + last;
    if EveryMiss(capacity, policy, reqs) {
      assert |last| == 1;
      assert Missed(b, reqs)[..|pre|] == Missed(b, pre) && AllKeys(reqs)[..|pre|] == AllKeys(pre);
    }
  }

  lemma SpacedStep(reqs: seq<Req>, size: nat)
    requires reqs != [] && size >= 1
    ensures var pre := reqs[..|reqs| - 1];
            Spaced(reqs, size) <==> Spaced(pre, size) && reqs[|reqs| - 1].key !in Window(pre, size)
  {
    var pre, last := reqs[..|reqs| - 1], |reqs| - 1;
    var w := Window(pre, size);
    WindowExact(pre, size);
    if Spaced(reqs, size) {
      forall i | 0 <= i < |w| ensures w[i] != reqs[last].key {
        assert w[i] == reqs[last - |w| + i].key;
      }
    }
    if Spaced(pre, size) && reqs[last].key !in w {
      forall i | 0 <= i < last && last - i <= size ensures reqs[i].key != reqs[last].key {
        assert w[i - (last - |w|)] == reqs[i].key;
      }
      forall i, j | 0 <= i < j < last && j - i <= size ensures reqs[i].key != reqs[j].key {
        assert pre[i] == reqs[i] && pre[j] == reqs[j];
      }
    }
  }

  /**
   * Under each policy, every request of a run misses exactly when no key was requested among the max(capacity, 1)
   * requests before it. In such a run the cache is the window of the last max(capacity, 1) requested keys.
   */
  lemma {:induction false} EveryMissExact(capacity: nat, policy: Policy, reqs: seq<Req>)
    requires policy.CLOCK? ==> KeysGiven(reqs)
    ensures EveryMiss(capacity, policy, reqs) <==> Spaced(reqs, Max(capacity, 1))
    ensures Spaced(reqs, Max(capacity, 1)) ==>
              && Settled(Run(Empty(capacity, policy), reqs), Window(reqs, Max(capacity, 1)))
              && Run(Empty(capacity, policy), reqs).policy == policy
              && Run(Empty(capacity, policy), reqs).capacity == capacity
  {
    hide Settled, Valid, Spaced, EveryMiss, Request;
    var b, size := Empty(capacity, policy), Max(capacity, 1);
    if reqs == [] {
      NothingYet(capacity, policy);
    } else {
      var pre, r := reqs[..|reqs| - 1], reqs[|reqs| - 1];
      EveryMissExact(capacity, policy, pre);
      EveryMissStep(capacity, policy, reqs);
      SpacedStep(reqs, size);
      if Spaced(pre, size) {
        SettledKeys(Run(b, pre), Window(pre, size));
        if r.key !in Window(pre, size) {
          MissSlides(Run(b, pre), Window(pre, size), r);
        }
      }
    }
  }

  lemma NothingYet(capacity: nat, policy: Policy)
    ensures EveryMiss(capacity, policy, []) && Spaced([], Max(capacity, 1)) && Settled(Empty(capacity, policy), [])
  {
    EmptyValid(capacity, policy);
    ElemsOfEmpty<string>([]);
  }

  lemma SettledKeys(b: Bench, w: seq<string>)
    requires Settled(b, w)
    ensures b.items.Keys == Elems(w) && forall k :: k in b.items <==> k in w
  {
    assert forall k :: k in b.items <==> k in Elems(w);
  }

  lemma {:induction false} PrefixMisses(capacity: nat, policy: Policy, reqs: seq<Req>, i: nat)
    requires EveryMiss(capacity, policy, reqs) && i <= |reqs|
    ensures EveryMiss(capacity, policy, reqs[..i])
    decreases |reqs|
  {
    if i < |reqs| {
      EveryMissStep(capacity, policy, reqs);
      PrefixMisses(capacity, policy, reqs[..|reqs| - 1], i);
      assert reqs[..|reqs| - 1][..i] == reqs[..i];
    } else {
      assert reqs[..i] == reqs;
    }
  }

  /**
   * If every request of a run misses under one policy, then every request misses under every other, and before
   * each request they all hold the same keys.
   */
  lemma PoliciesAgree(capacity: nat, p: Policy, q: Policy, reqs: seq<Req>, i: nat)
    requires (p.CLOCK? || q.CLOCK? ==> KeysGiven(reqs)) && EveryMiss(capacity, p, reqs) && i <= |reqs|
    ensures EveryMiss(capacity, q, reqs)
    ensures Run(Empty(capacity, p), reqs[..i]).items.Keys == Run(Empty(capacity, q), reqs[..i]).items.Keys
  {
    hide Settled, Spaced, EveryMiss, Run, Missed;
    PrefixMisses(capacity, p, reqs, i);
    EveryMissExact(capacity, p, reqs);
    EveryMissExact(capacity, q, reqs);
    EveryMissExact(capacity, p, reqs[..i]);
    EveryMissExact(capacity, q, reqs[..i]);
    SettledKeys(Run(Empty(capacity, p), reqs[..i]), Window(reqs[..i], Max(capacity, 1)));
    SettledKeys(Run(Empty(capacity, q), reqs[..i]), Window(reqs[..i], Max(capacity, 1)));
  }

  /**
   * In such a run, each request evicts nothing while there is room, and then exactly the oldest key, the one
   * requested max(capacity, 1) requests before, under every policy.
   */
  lemma OldestIsEvicted(capacity: nat, policy: Policy, reqs: seq<Req>, i: nat)
    requires (policy.CLOCK? ==> KeysGiven(reqs)) && EveryMiss(capacity, policy, reqs) && i < |reqs|
    ensures var size, before, after := Max(capacity, 1), Run(Empty(capacity, policy), reqs[..i]).items.Keys,
                                       Run(Empty(capacity, policy), reqs[..i + 1]).items.Keys;
            && reqs[i].key !in before
            && (i < size ==> after == before + {reqs[i].key})
            && (i >= size ==> reqs[i - size].key in before && after == before - {reqs[i - size].key} + {reqs[i].key})
  {
    hide Settled, Spaced, EveryMiss, Run, Missed, NoDup, Elems;
    var size, pre, post := Max(capacity, 1), reqs[..i], reqs[..i + 1];
    PrefixMisses(capacity, policy, reqs, i);
    PrefixMisses(capacity, policy, reqs, i + 1);
    assert post[..|post| - 1] == pre;
    EveryMissStep(capacity, policy, post);
    EveryMissExact(capacity, policy, pre);
    EveryMissExact(capacity, policy, post);
    var b, c := Run(Empty(capacity, policy), pre), Run(Empty(capacity, policy), post);
    WindowExact(pre, size);
    SettledKeys(b, Window(pre, size));
    SettledKeys(c, Window(post, size));
    SettledLists(b, Window(pre, size));
    ListsSlid(Window(pre, size), reqs[i].key, size);
    assert Window(post, size) == Slide(Window(pre, size), reqs[i].key, size);
  }

  lemma SettledLists(b: Bench, w: seq<string>)
    requires Settled(b, w)
    ensures NoDup(w)
  {
  }

  lemma ListsSlid(w: seq<string>, k: string, size: nat)
    requires NoDup(w) && size >= 1
    ensures Elems(Slide(w, k, size)) == (if |w| < size then Elems(w) else Elems(w) - {w[0]}) + {k}
  {
    ElemsConcat(w, [k]);
    assert Elems([k]) == {k};
    if w != [] {
      ElemsConcat(w[1..], [k]);
      HeadAndTail(w);
      ElemsConcat([w[0]], w[1..]);
      assert Elems([w[0]]) == {w[0]};
      assert w[0] !in w[1..];
    }
  }
}
