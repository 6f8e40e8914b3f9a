/** Exactly when this CLOCK, whose hand stays on the slot it has filled, is conservative. */
module ClockConservative {
  import opened Sequences
  import opened BenchModel
  import opened Conservative
  import opened HitFree
  import opened Stretches

  /** The slots in circular order from the hand. */
  function Circle(b: Bench): seq<string>
    requires b.hand <= |b.slots|
  {
    b.slots[b.hand..] + b.slots[..b.hand]
  }

  /** While the buffer fills up the hand is at the first slot and every bit is set, as in every run. */
  ghost predicate Grown(b: Bench) {
    |b.items| < Bound(b) ==> b.hand == 0 && b.items.Keys <= Marked(b)
  }

  /** While there is room, or if no set bit comes after a clear one in circular order from the hand. */
  ghost predicate ClockCalm(b: Bench)
    requires ClockOk(b)
  {
    HandInRange(b);
    var w := Circle(b);
    |b.items| < Bound(b) || forall d, e :: 0 <= d < e < |w| && w[e] in Marked(b) ==> w[d] in Marked(b)
  }

  lemma HandInRange(b: Bench)
    requires ClockOk(b)
    ensures b.hand <= |b.slots| && (b.slots != [] ==> b.hand < |b.slots|)
  {
  }

  lemma CircleAt(b: Bench, d: nat)
    requires b.hand < |b.slots| && d < |b.slots|
    ensures |Circle(b)| == |b.slots| && Circle(b)[d] == SlotAt(b.slots, b.hand, d)
  {
  }

  lemma CircleKeys(b: Bench)
    requires ClockOk(b)
    ensures b.hand <= |b.slots|
    ensures |Circle(b)| == |b.slots| == |b.items| == |b.items.Keys|
    ensures NoDup(Circle(b)) && Elems(Circle(b)) == b.items.Keys
    ensures forall i :: 0 <= i < |Circle(b)| ==> Circle(b)[i] in b.items
  {
    hide NoDup, Elems;
    ListsSize(b.slots, b.items);
    Rotated(b.slots, b.hand);
    MembersOf(Circle(b));
    assert |b.items| == |b.items.Keys|;
  }

  lemma MembersOf(s: seq<string>)
    ensures forall i :: 0 <= i < |s| ==> s[i] in Elems(s)
  {
  }

  lemma Rotated(s: seq<string>, h: nat)
    requires NoDup(s) && h <= |s|
    ensures NoDup(s[h..] + s[..h]) && Elems(s[h..] + s[..h]) == Elems(s)
  {
    hide NoDup, Elems;
    var u, v := s[..h], s[h..];
    assert u + v == s;
    ElemsConcat(u, v);
    ElemsConcat(v, u);
    NoDupConcat(u, v);
    NoDupSwap(u, v);
  }

  lemma NoDupSwap(u: seq<string>, v: seq<string>)
    requires NoDup(u) && NoDup(v) && Elems(u) !! Elems(v)
    ensures NoDup(v + u)
  {
    assert forall i :: 0 <= i < |u| ==> u[i] in Elems(u);
    assert forall i :: 0 <= i < |v| ==> v[i] in Elems(v);
  }

  // ---- What a miss does to the circle and the bits ----

  /** With room, the new key joins at the end with its bit set. */
  lemma ClockJoins(b: Bench, r: Req)
    requires b.policy.CLOCK? && Valid(b) && Grown(b) && r.key !in b.items && r.key != "" && |b.items| < Bound(b)
    ensures var c := Request(b, r);
            && Valid(c) && c.policy == b.policy && c.capacity == b.capacity && c.hand == 0 && b.hand == 0
            && c.slots == b.slots + [r.key] && c.items.Keys == b.items.Keys + {r.key} && |c.items| == |b.items| + 1
            && Marked(c) == c.items.Keys
  {
    RequestKeeps(b, r);
    RequestShape(b, r);
    if b.capacity == 0 { ListsSize(b.slots, b.items); }
    ClockAppends(b, r);
    OneMore(b.items, r.key, Item(r.value, false, true));
  }

  /** The sweep in circular order: the bits before position j are set; the one at j is clear, if j is in the circle. */
  lemma FirstClear(b: Bench, j: nat)
    requires b.policy.CLOCK? && ClockOk(b) && b.slots != [] && j == Reach(b)
    ensures b.hand < |b.slots| == |Circle(b)| && j <= |b.slots|
    ensures forall d :: 0 <= d < j ==> Circle(b)[d] in Marked(b)
    ensures j < |b.slots| ==> Circle(b)[j] !in Marked(b)
    ensures Passed(b.slots, b.hand, j) == Elems(Circle(b)[..j])
    ensures b.slots[Stop(b)] == Circle(b)[if j < |b.slots| then j else 0]
  {
    ClockDistanceExact(b.slots, b.items, b.hand, 0);
    CircleAt(b, 0);
    forall d: nat | d < j ensures Circle(b)[d] in Marked(b) && Circle(b)[d] == SlotAt(b.slots, b.hand, d) {
      CircleAt(b, d);
      assert BitSet(b.items, SlotAt(b.slots, b.hand, d));
    }
    if j < |b.slots| { CircleAt(b, j); }
    PassedIsFront(b, j);
  }

  lemma PassedIsFront(b: Bench, j: nat)
    requires b.hand < |b.slots| && j <= |b.slots|
    ensures Passed(b.slots, b.hand, j) == Elems(Circle(b)[..j])
  {
    var w := Circle(b);
    forall d: nat | d < j ensures w[..j][d] == SlotAt(b.slots, b.hand, d) { CircleAt(b, d); }
    forall x ensures x in Passed(b.slots, b.hand, j) <==> x in Elems(w[..j]) {
      if x in w[..j] {
        var d :| 0 <= d < |w[..j]| && w[..j][d] == x;
        assert SlotAt(b.slots, b.hand, d) == x;
      }
      if e: nat :| e < j && SlotAt(b.slots, b.hand, e) == x { assert w[..j][e] == x; }
    }
  }

  /** The circle from the slot that the new key fills. */
  lemma CircleTurned(b: Bench, c: Bench, j: nat, k: string)
    requires b.hand < |b.slots| && j <= |b.slots|
    requires c.hand == Around(b.hand, j, |b.slots|) && c.slots == b.slots[c.hand := k]
    ensures Circle(c) == [k] + if j < |b.slots| then Circle(b)[j + 1..] + Circle(b)[..j] else Circle(b)[1..]
  {
    if j == |b.slots| {
      TurnWhole(b.slots, b.hand, k);
    } else if b.hand + j < |b.slots| {
      TurnAhead(b.slots, b.hand, j, k);
    } else {
      TurnRound(b.slots, b.hand, j, k);
    }
  }

  lemma TurnWhole(s: seq<string>, h: nat, k: string)
    requires h < |s|
    ensures s[h := k][h..] + s[h := k][..h] == [k] + (s[h..] + s[..h])[1..]
  {
    var t := s[h := k];
    assert t[h..] == [k] + s[h + 1..] && t[..h] == s[..h];
    TailOfConcat(s[h..], s[..h]);
  }

  lemma TurnAhead(s: seq<string>, h: nat, j: nat, k: string)
    requires h + j < |s|
    ensures var t, w, g := s[h + j := k], s[h..] + s[..h], h + j;
            t[g..] + t[..g] == [k] + (w[j + 1..] + w[..j])
  {
    var t, w, g := s[h + j := k], s[h..] + s[..h], h + j;
    assert t[g..] == [k] + s[g + 1..] && t[..g] == s[..h] + s[h..g];
    assert w[..j] == s[h..g] && w[j + 1..] == s[g + 1..] + s[..h];
  }

  lemma TurnRound(s: seq<string>, h: nat, j: nat, k: string)
    requires h < |s| <= h + j && j < |s|
    ensures var g := h + j - |s|;
            var t, w := s[g := k], s[h..] + s[..h];
            t[g..] + t[..g] == [k] + (w[j + 1..] + w[..j])
  {
    var g := h + j - |s|;
    var t, w := s[g := k], s[h..] + s[..h];
    assert t[g..] == [k] + s[g + 1..h] + s[h..] && t[..g] == s[..g];
    assert w[..j] == s[h..] + s[..g] && w[j + 1..] == s[g + 1..h];
  }

  /** When full, the first clear slot goes, or the hand's own; the bits before it are cleared, the new one is set. */
  lemma ClockMissFull(b: Bench, r: Req) returns (j: nat)
    requires b.policy.CLOCK? && Valid(b) && r.key !in b.items && r.key != "" && |b.items| >= Bound(b)
    ensures b.hand < |b.slots| && j <= |b.slots| == |Circle(b)| == |b.items|
    ensures forall d :: 0 <= d < j ==> Circle(b)[d] in Marked(b)
    ensures j < |b.slots| ==> Circle(b)[j] !in Marked(b)
    ensures var c, w := Request(b, r), Circle(b);
            && Valid(c) && c.policy == b.policy && c.capacity == b.capacity && |c.items| == |b.items|
            && c.hand < |c.slots|
            && c.items.Keys == b.items.Keys - {w[if j < |w| then j else 0]} + {r.key}
            && Circle(c) == [r.key] + (if j < |w| then w[j + 1..] + w[..j] else w[1..])
            && Marked(c) == {r.key} + if j < |w| then Marked(b) - Elems(w[..j]) else {}
  {
    hide Request, Valid, Reach, Passed, Circle, Elems, NoDup, Marked;
    RequestKeeps(b, r);
    RequestShape(b, r);
    FullClock(b);
    CircleKeys(b);
    j := Reach(b);
    FirstClear(b, j);
    ClockReplaces(b, r);
    var c := Request(b, r);
    CircleTurned(b, c, j, r.key);
    MarksAfterTurn(b, c, j, r);
    GoneAndNew(b.items, c.items, Circle(b)[if j < |b.slots| then j else 0], r.key);
  }

  lemma FullClock(b: Bench)
    requires b.policy.CLOCK? && Valid(b) && |b.items| >= Bound(b)
    ensures ClockOk(b) && b.slots != [] && b.hand < |b.slots| && |b.items| >= b.capacity
  {
    ListsSize(b.slots, b.items);
  }

  lemma GoneAndNew(before: map<string, Item>, after: map<string, Item>, gone: string, k: string)
    requires gone in before && k !in before && after.Keys == before.Keys - {gone} + {k}
    ensures |after| == |before|
  {
    assert |after.Keys| == |before.Keys| - 1 + 1;
  }

  lemma MarksAfterTurn(b: Bench, c: Bench, j: nat, r: Req)
    requires b.policy.CLOCK? && c.policy.CLOCK? && ClockOk(b) && b.slots != [] && r.key !in b.items
    requires b.hand < |b.slots| == |Circle(b)| && j <= |b.slots|
    requires forall d :: 0 <= d < j ==> Circle(b)[d] in Marked(b)
    requires j < |b.slots| ==> Circle(b)[j] !in Marked(b)
    requires var gone, passed := Circle(b)[if j < |b.slots| then j else 0], Elems(Circle(b)[..j]);
             c.items == (Cleared(b.items, passed) - {gone})[r.key := Item(r.value, false, true)]
    ensures var w := Circle(b);
            && c.items.Keys == b.items.Keys - {w[if j < |w| then j else 0]} + {r.key}
            && Marked(c) == {r.key} + if j < |w| then Marked(b) - Elems(w[..j]) else {}
  {
    hide NoDup;
    CircleKeys(b);
    if j == |b.slots| { assert Circle(b)[..j] == Circle(b); }
  }

  // ---- Not calm: a stretch that misses a key twice ----

  ghost predicate FullClockOk(b: Bench) { b.policy.CLOCK? && Valid(b) && |b.items| >= Bound(b) }

  /** With all bits set, one more new key throws out the key at the hand. */
  lemma ThrowHand(b: Bench, x: string) returns (r: Req)
    requires FullClockOk(b) && b.items.Keys <= Marked(b) && b.hand < |b.slots| && x == b.slots[b.hand]
    ensures x !in Run(b, [r]).items && |KeysOf([r])| == 1 && KeysGiven([r])
  {
    hide Valid, KeysOf, Request, Marked;
    var y := FreshKey(b.items.Keys);
    r := Req(y, "");
    FullClock(b);
    CircleKeys(b);
    var j := ClockMissFull(b, r);
    CircleAt(b, 0);
    assert j == |b.slots|;
    assert x in b.items by { CircleHead(b); }
    RunOne(b, r);
    KeysOfOne(r);
  }

  lemma CircleHead(b: Bench)
    requires ClockOk(b) && b.hand < |b.slots|
    ensures Circle(b)[0] == b.slots[b.hand] && b.slots[b.hand] in b.items
  {
    assert b.slots[b.hand] in Elems(b.slots);
  }

  /** The key at the hand, its bit set, can be thrown out by hits that set all other bits and one new key more. */
  lemma {:induction false} KillHand(b: Bench, x: string) returns (reqs: seq<Req>)
    requires FullClockOk(b) && b.hand < |b.slots| && x == b.slots[b.hand] && x in Marked(b)
    ensures x !in Run(b, reqs).items && KeysGiven(reqs)
    ensures |KeysOf(reqs)| <= |b.items.Keys - Marked(b)| + 1
    decreases |b.items.Keys - Marked(b)|
  {
    hide Valid, Run, KeysOf, Request, Marked;
    if b.items.Keys - Marked(b) != {} {
      var k :| k in b.items.Keys - Marked(b);
      var r := Req(k, "");
      FullClock(b);
      HitMarks(b, r);
      var c := Request(b, r);
      assert c.items.Keys - Marked(c) == (b.items.Keys - Marked(b)) - {k};
      var rest := KillHand(c, x);
      reqs := [r] + rest;
      RunFirst(b, r, rest);
      FirstKeys(r, rest);
    } else {
      forall k | k in b.items.Keys ensures k in Marked(b) {
        assert k !in b.items.Keys - Marked(b);
      }
      var r := ThrowHand(b, x);
      reqs := [r];
    }
  }

  /** After the first miss the new key is at the hand, and another key has its bit set. */
  lemma AfterMiss(b: Bench, r: Req)
    requires FullClockOk(b) && ClockOk(b) && !ClockCalm(b) && r.key !in b.items && r.key != ""
    ensures var c := Request(b, r);
            && FullClockOk(c) && c.hand < |c.slots| && c.slots[c.hand] == r.key && r.key in Marked(c)
            && |c.items.Keys - Marked(c)| + 2 <= Bound(b)
  {
    hide Valid, Request, Marked, Elems, NoDup, Circle;
    CircleKeys(b);
    var w := Circle(b);
    var d, e :| 0 <= d < e < |w| && w[e] in Marked(b) && w[d] !in Marked(b);
    var j := ClockMissFull(b, r);
    var c := Request(b, r);
    assert j <= d;
    BeyondFront(w, j, e);
    FullClock(c);
    CircleHead(c);
    KeySizes(b);
    KeySizes(c);
    assert w[e] in c.items.Keys && w[e] != r.key;
    FewerByTwo(c.items.Keys, Marked(c), w[e], r.key);
  }

  lemma KeySizes(b: Bench)
    requires b.policy.CLOCK? && Valid(b)
    ensures |b.items.Keys| == |b.items| <= Bound(b)
  {
  }

  lemma BeyondFront(w: seq<string>, j: nat, e: nat)
    requires NoDup(w) && j < e < |w|
    ensures w[e] !in Elems(w[..j]) && w[e] != w[j]
  {
  }

  lemma FewerByTwo(all: set<string>, marked: set<string>, u: string, v: string)
    requires u in all && v in all && u != v && u in marked && v in marked
    ensures |all - marked| + 2 <= |all|
  {
    assert |all - {u} - {v}| == |all| - 2;
    SubsetCard(all - marked, all - {u} - {v});
  }

  /** From a state that is not calm, some stretch of at most max(capacity, 1) keys misses a key twice. */
  lemma ClockTwice(b: Bench) returns (reqs: seq<Req>)
    requires b.policy.CLOCK? && Valid(b) && !ClockCalm(b)
    ensures |KeysOf(reqs)| <= Bound(b) && KeysGiven(reqs) && !NoDup(Missed(b, reqs))
  {
    hide Run, KeysOf, Request, Missed, NoDup, Marked, Elems;
    var x := FreshKey(b.items.Keys);
    var r := Req(x, "");
    AfterMiss(b, r);
    var middle := KillHand(Request(b, r), x);
    reqs := TwiceAround(b, r, middle);
  }

  // ---- Calm: no stretch misses a key twice ----

  ghost predicate ClockState(b: Bench, capacity: nat) {
    b.policy.CLOCK? && Valid(b) && b.capacity == capacity && b.hand <= |b.slots|
  }

  /**
   * No eviction in the stretch so far. The first i bits of the circle are set; after them only keys of the stretch
   * may have theirs set. Once something has been missed, or while there is room, all bits are set.
   */
  ghost predicate Before(b: Bench, keys: set<string>, olds: seq<string>, missed: seq<string>, i: nat)
    requires b.hand <= |b.slots|
  {
    var w := Circle(b);
    && w == olds + missed && Elems(missed) <= keys && i <= |w|
    && (forall d :: 0 <= d < i ==> w[d] in Marked(b))
    && (forall d :: i <= d < |w| && w[d] in Marked(b) ==> w[d] in keys)
    && (missed != [] || |b.items| < Bound(b) ==> i == |w|)
    && (|b.items| < Bound(b) ==> b.hand == 0)
  }

  /**
   * After an eviction in the stretch: from the hand on come the last missed key, olds that the sweep has not come to
   * yet, and keys of the stretch, the missed ones among them. Only keys of the stretch have their bits set.
   */
  ghost predicate Swept(b: Bench, keys: set<string>, m: string, olds: seq<string>, rest: seq<string>, missed: seq<string>)
    requires b.hand <= |b.slots|
  {
    && |b.items| >= Bound(b) && Circle(b) == [m] + olds + rest && m in keys && Elems(rest) <= keys
    && m in Marked(b) && Marked(b) <= keys && Elems(missed) <= {m} + Elems(rest) && NoDup(missed)
  }

  ghost predicate Stage(b: Bench, keys: set<string>, missed: seq<string>)
    requires b.hand <= |b.slots|
  {
    || (exists olds: seq<string>, i: nat :: Before(b, keys, olds, missed, i))
    || (exists m: string, olds: seq<string>, rest: seq<string> :: Swept(b, keys, m, olds, rest, missed))
  }

  lemma CalmStage(b: Bench, keys: set<string>)
    requires ClockState(b, b.capacity) && Grown(b) && ClockCalm(b)
    ensures Stage(b, keys, [])
  {
    hide Valid, Marked, Circle;
    ValidClock(b);
    CircleKeys(b);
    var w := Circle(b);
    ElemsOfEmpty<string>([]);
    assert w == w + [];
    var i := 0;
    while i < |w| && w[i] in Marked(b)
      invariant i <= |w| && forall d :: 0 <= d < i ==> w[d] in Marked(b)
    {
      i := i + 1;
    }
    assert Before(b, keys, w, [], i);
  }

  lemma StageHit(b: Bench, keys: set<string>, missed: seq<string>, r: Req)
    requires ClockState(b, b.capacity) && Stage(b, keys, missed) && r.key in keys && r.key in b.items
    ensures ClockState(Request(b, r), b.capacity) && Stage(Request(b, r), keys, missed)
  {
    hide Request, Valid, Marked, Elems, NoDup;
    HitMarks(b, r);
    var c := Request(b, r);
    assert Circle(c) == Circle(b);
    if olds, i :| Before(b, keys, olds, missed, i) {
      assert Before(c, keys, olds, missed, i);
    } else {
      var m, olds, rest :| Swept(b, keys, m, olds, rest, missed);
      assert Swept(c, keys, m, olds, rest, missed);
    }
  }

  /** With room all bits are set; the missed key joins at the end. */
  lemma JoinStage(b: Bench, keys: set<string>, olds: seq<string>, missed: seq<string>, i: nat, r: Req)
    requires ClockState(b, b.capacity) && Before(b, keys, olds, missed, i) && |b.items| < Bound(b)
    requires r.key in keys && r.key !in b.items && r.key != ""
    ensures ClockState(Request(b, r), b.capacity)
    ensures Before(Request(b, r), keys, olds, missed + [r.key], i + 1)
  {
    hide Request, Valid, Marked, Elems, NoDup;
    ValidClock(b);
    CircleKeys(b);
    AllInMarked(b, Circle(b));
    ClockJoins(b, r);
    var c := Request(b, r);
    assert Circle(b) == b.slots && Circle(c) == c.slots;
    Associative(olds, missed, [r.key]);
    ElemsOfMore(missed, r.key);
    ValidClock(c);
    CircleKeys(c);
  }

  lemma AllInMarked(b: Bench, w: seq<string>)
    requires Elems(w) == b.items.Keys && forall d :: 0 <= d < |w| ==> w[d] in Marked(b)
    ensures b.items.Keys <= Marked(b)
  {
    forall k | k in b.items.Keys ensures k in Marked(b) { assert k in Elems(w); }
  }

  lemma ElemsOfMore(s: seq<string>, k: string)
    ensures Elems(s + [k]) == Elems(s) + {k}
  {
    ElemsConcat(s, [k]);
    assert Elems([k]) == {k};
  }

  /** A full cache and a missed key of the stretch: some key in the circle is outside the stretch. */
  lemma OneOutside(b: Bench, keys: set<string>, k: string) returns (d: nat)
    requires b.policy.CLOCK? && Valid(b) && |keys| <= Bound(b) && k in keys && k !in b.items && |b.items| >= Bound(b)
    ensures b.hand <= |b.slots| && d < |Circle(b)| && Circle(b)[d] !in keys
  {
    ValidClock(b);
    CircleKeys(b);
    var w := Circle(b);
    if forall d :: 0 <= d < |w| ==> w[d] in keys {
      forall x | x in b.items ensures x in keys { assert x in Elems(w); }
      TooManyKeys(b, k, keys);
      assert false;
    }
    d :| 0 <= d < |w| && w[d] !in keys;
  }

  /** The first eviction of the stretch. */
  lemma FirstEviction(b: Bench, keys: set<string>, olds: seq<string>, missed: seq<string>, i: nat, r: Req)
    returns (after: seq<string>, rest: seq<string>)
    requires ClockState(b, b.capacity) && Before(b, keys, olds, missed, i) && |keys| <= Bound(b) && |b.items| >= Bound(b)
    requires r.key in keys && r.key !in b.items && r.key != ""
    ensures ClockState(Request(b, r), b.capacity)
    ensures Swept(Request(b, r), keys, r.key, after, rest, missed + [r.key])
  {
    hide Request, Valid, Marked, Elems, NoDup, Circle;
    ValidClock(b);
    CircleKeys(b);
    var w := Circle(b);
    var o := OneOutside(b, keys, r.key);
    var j := ClockMissFull(b, r);
    ElemsOfMore(missed, r.key);
    MissedApart(b, olds, missed, r.key);
    if j == |w| {
      InElems(missed);
      assert o < |olds|;
      after, rest := olds[1..], missed;
      TailOfConcat(olds, missed);
      Associative([r.key], after, rest);
    } else {
      assert missed == [] && i <= j;
      after, rest := w[j + 1..] + w[..j], [];
      NothingBehind([r.key] + after);
      LaterMarks(b, keys, i, j);
    }
  }

  lemma NothingBehind(s: seq<string>)
    ensures s + [] == s && Elems<string>([]) == {}
  {
  }

  lemma InElems(s: seq<string>)
    ensures forall x :: x in s <==> x in Elems(s)
  {
  }

  lemma MissedApart(b: Bench, olds: seq<string>, missed: seq<string>, k: string)
    requires ClockOk(b) && b.hand <= |b.slots| && Circle(b) == olds + missed && k !in b.items
    ensures NoDup(missed + [k])
  {
    CircleKeys(b);
    NoDupConcat(olds, missed);
    ElemsConcat(olds, missed);
    assert forall d :: 0 <= d < |missed| ==> missed[d] in Elems(missed);
  }

  lemma FrontMembers(w: seq<string>, j: nat)
    requires j <= |w|
    ensures forall d :: 0 <= d < j ==> w[d] in Elems(w[..j])
  {
    forall d | 0 <= d < j ensures w[d] in Elems(w[..j]) { assert w[..j][d] == w[d]; }
  }

  /** Marks beyond the part of the circle that the sweep has passed. */
  lemma LaterMarks(b: Bench, keys: set<string>, i: nat, j: nat)
    requires ClockOk(b) && b.policy.CLOCK? && b.hand <= |b.slots| && i <= j <= |Circle(b)|
    requires forall d :: i <= d < |Circle(b)| && Circle(b)[d] in Marked(b) ==> Circle(b)[d] in keys
    ensures Marked(b) - Elems(Circle(b)[..j]) <= keys
  {
    CircleKeys(b);
    var w := Circle(b);
    FrontMembers(w, j);
    forall k | k in Marked(b) - Elems(w[..j]) ensures k in keys {
      assert k in Elems(w);
      var d :| 0 <= d < |w| && w[d] == k;
      assert d >= j;
    }
  }

  /**
   * Every later eviction: a key outside the stretch is still ahead, its bit clear, so the sweep stops before it
   * comes to the keys of the stretch behind.
   */
  lemma LaterEviction(b: Bench, keys: set<string>, m: string, olds: seq<string>, rest: seq<string>, missed: seq<string>, r: Req)
    returns (ahead: seq<string>, behind: seq<string>)
    requires ClockState(b, b.capacity) && Swept(b, keys, m, olds, rest, missed) && |keys| <= Bound(b)
    requires r.key in keys && r.key !in b.items && r.key != ""
    ensures ClockState(Request(b, r), b.capacity)
    ensures Swept(Request(b, r), keys, r.key, ahead, behind, missed + [r.key])
  {
    hide Request, Valid, Marked, Elems, NoDup, Circle;
    ValidClock(b);
    CircleKeys(b);
    var w := Circle(b);
    var o := OneOutside(b, keys, r.key);
    var j := ClockMissFull(b, r);
    InElems(rest);
    InElems(missed);
    assert w[0] == m && 1 <= o <= |olds|;
    assert w[o] !in Marked(b) && 1 <= j <= o;
    var passed := [m] + olds[..j - 1];
    ahead, behind := olds[j..], rest + passed;
    CutCircle(m, olds, rest, j);
    Associative([r.key], ahead, behind);
    ElemsConcat(rest, passed);
    PassedInStretch(b, keys, w, j);
    ElemsOfMore(missed, r.key);
    MissedHeld(b, m, rest, missed, r.key);
    HeadIn(m, olds[..j - 1]);
  }

  /** The circle cut behind position j, which lies among the olds, and joined the other way round. */
  lemma CutCircle(m: string, olds: seq<string>, rest: seq<string>, j: nat)
    requires 1 <= j <= |olds|
    ensures var w := [m] + olds + rest;
            w[..j] == [m] + olds[..j - 1] && w[j + 1..] + w[..j] == olds[j..] + (rest + ([m] + olds[..j - 1]))
  {
    var w := [m] + olds + rest;
    assert w[..j] == [m] + olds[..j - 1];
    assert w[j + 1..] == olds[j..] + rest;
    Associative(olds[j..], rest, w[..j]);
  }

  lemma HeadIn(m: string, s: seq<string>)
    ensures m in Elems([m] + s)
  {
    assert ([m] + s)[0] == m;
  }

  lemma PassedInStretch(b: Bench, keys: set<string>, w: seq<string>, j: nat)
    requires j <= |w| && Marked(b) <= keys && forall d :: 0 <= d < j ==> w[d] in Marked(b)
    ensures Elems(w[..j]) <= keys
  {
    forall x | x in Elems(w[..j]) ensures x in keys {
      var d :| 0 <= d < j && w[..j][d] == x;
      assert w[d] in Marked(b);
    }
  }

  lemma MissedHeld(b: Bench, m: string, rest: seq<string>, missed: seq<string>, k: string)
    requires ClockOk(b) && b.hand <= |b.slots| && m in Circle(b) && forall x :: x in rest ==> x in Circle(b)
    requires Elems(missed) <= {m} + Elems(rest) && NoDup(missed) && k !in b.items
    ensures NoDup(missed + [k])
  {
    CircleKeys(b);
    forall x | x in Elems(missed) ensures x in b.items {
      assert x in Elems(Circle(b));
    }
    assert forall d :: 0 <= d < |missed| ==> missed[d] in Elems(missed);
  }

  lemma StageMiss(b: Bench, keys: set<string>, missed: seq<string>, r: Req)
    requires ClockState(b, b.capacity) && Stage(b, keys, missed) && |keys| <= Bound(b)
    requires r.key in keys && r.key !in b.items && r.key != ""
    ensures ClockState(Request(b, r), b.capacity) && Stage(Request(b, r), keys, missed + [r.key])
  {
    hide Request, Valid, Before, Swept;
    if olds, i :| Before(b, keys, olds, missed, i) {
      if |b.items| < Bound(b) {
        JoinStage(b, keys, olds, missed, i, r);
      } else {
        var after, rest := FirstEviction(b, keys, olds, missed, i, r);
      }
    } else {
      var m, olds, rest :| Swept(b, keys, m, olds, rest, missed);
      var ahead, behind := LaterEviction(b, keys, m, olds, rest, missed, r);
    }
  }

  lemma StageNoDup(b: Bench, keys: set<string>, missed: seq<string>)
    requires ClockState(b, b.capacity) && Stage(b, keys, missed)
    ensures NoDup(missed)
  {
    if olds, i :| Before(b, keys, olds, missed, i) {
      ValidClock(b);
      CircleKeys(b);
      NoDupConcat(olds, missed);
    }
  }

  lemma {:induction false} CalmStays(b: Bench, reqs: seq<Req>, keys: set<string>)
    requires ClockState(b, b.capacity) && Grown(b) && ClockCalm(b) && KeysGiven(reqs)
    requires KeysOf(reqs) <= keys && |keys| <= Bound(b)
    ensures ClockState(Run(b, reqs), b.capacity) && Stage(Run(b, reqs), keys, Missed(b, reqs))
  {
    hide Stage, Valid, KeysOf, Request;
    if reqs == [] {
      CalmStage(b, keys);
    } else {
      var pre, r := reqs[..|reqs| - 1], reqs[|reqs| - 1];
      FewerKeys(reqs, keys);
      CalmStays(b, pre, keys);
      var c := Run(b, pre);
      if r.key in c.items {
        StageHit(c, keys, Missed(b, pre), r);
        assert Missed(b, reqs) == Missed(b, pre);
      } else {
        StageMiss(c, keys, Missed(b, pre), r);
      }
    }
  }

  /**
   * From any state that has filled up in the way every run does, CLOCK is conservative if and only if the state is
   * calm: there is room, or no set bit comes after a clear one in circular order from the hand.
   */
  lemma ClockConservativeExact(b: Bench)
    requires b.policy.CLOCK? && Valid(b) && Grown(b)
    ensures ConservativeFrom(b) <==> ClockCalm(b)
  {
    hide KeysOf, Missed, Run, Stage, Grown;
    ValidClock(b);
    HandInRange(b);
    if ClockCalm(b) {
      forall reqs: seq<Req> | |KeysOf(reqs)| <= Bound(b) && KeysGiven(reqs) ensures NoDup(Missed(b, reqs)) {
        CalmStays(b, reqs, KeysOf(reqs));
        StageNoDup(Run(b, reqs), KeysOf(reqs), Missed(b, reqs));
      }
    } else {
      var reqs := ClockTwice(b);
      assert |KeysOf(reqs)| <= Bound(b) && KeysGiven(reqs) && !NoDup(Missed(b, reqs));
    }
  }

  /**
   * Requests for a, b, c, d and c lead CLOCK with capacity 3 to a state from which it is not conservative: d has its
   * bit set, b has not, c has.
   */
  lemma ClockIsNotConservative(a: string, b: string, c: string, d: string, v: string)
    requires a != b && a != c && b != c && d != a && d != b && d != c && a != "" && b != "" && c != "" && d != ""
    ensures var s := Run(Empty(3, CLOCK), [Req(a, v), Req(b, v), Req(c, v), Req(d, v), Req(c, v)]);
            s.policy.CLOCK? && Valid(s) && Grown(s) && !ClockCalm(s) && !ConservativeFrom(s)
  {
    hide Request, Run, Valid, Marked, ConservativeFrom, ClockOk;
    var s := Request(Request(Request(Empty(3, CLOCK), Req(a, v)), Req(b, v)), Req(c, v));
    ThreeFill(a, b, c, v);
    FourthReplaces(s, a, b, c, Req(d, v));
    var t := Request(s, Req(d, v));
    HitMarks(t, Req(c, v));
    var u := Request(t, Req(c, v));
    FiveRequests(Empty(3, CLOCK), Req(a, v), Req(b, v), Req(c, v), Req(d, v), Req(c, v));
    ValidClock(u);
    assert Circle(u) == [d, b, c] && Marked(u) == {d, c};
    assert Circle(u)[1] == b && Circle(u)[2] == c;
    ClockConservativeExact(u);
  }

  lemma ThreeFill(a: string, b: string, c: string, v: string)
    requires a != b && a != c && b != c && a != "" && b != "" && c != ""
    ensures var s := Request(Request(Request(Empty(3, CLOCK), Req(a, v)), Req(b, v)), Req(c, v));
            && s.policy.CLOCK? && Valid(s) && s.capacity == 3 && s.hand == 0 && s.slots == [a, b, c]
            && s.items.Keys == {a, b, c} == Marked(s) && |s.items| == 3
  {
    hide Request, Valid, Marked;
    EmptyValid(3, CLOCK);
    EmptyGrown(3);
    var s := Request(Empty(3, CLOCK), Req(a, v));
    ClockJoins(Empty(3, CLOCK), Req(a, v));
    var t := Request(s, Req(b, v));
    ClockJoins(s, Req(b, v));
    ClockJoins(t, Req(c, v));
  }

  lemma FourthReplaces(s: Bench, a: string, b: string, c: string, r: Req)
    requires s.policy.CLOCK? && Valid(s) && s.capacity == 3 && s.hand == 0 && s.slots == [a, b, c] && |s.items| == 3
    requires s.items.Keys == {a, b, c} == Marked(s) && r.key !in s.items && r.key != ""
    ensures var t := Request(s, r);
            && t.policy.CLOCK? && Valid(t) && t.capacity == 3 && t.hand < |t.slots| && |t.items| == 3
            && Circle(t) == [r.key, b, c] && Marked(t) == {r.key} && t.items.Keys == {a, b, c} - {a} + {r.key}
  {
    hide Request, Valid, Marked;
    var j := ClockMissFull(s, r);
    assert Circle(s) == [a, b, c];
    assert Circle(s)[0] == a && Circle(s)[1] == b && Circle(s)[2] == c;
    assert j == 3;
    assert Circle(s)[1..] == [b, c];
  }

  lemma FiveRequests(e: Bench, p: Req, q: Req, r: Req, s: Req, t: Req)
    ensures Run(e, [p, q, r, s, t]) == Request(Request(Request(Request(Request(e, p), q), r), s), t)
  {
    hide Request, Run;
    RunFirst(e, p, [q, r, s, t]);
    RunFirst(Request(e, p), q, [r, s, t]);
    RunFirst(Request(Request(e, p), q), r, [s, t]);
    RunFirst(Request(Request(Request(e, p), q), r), s, [t]);
    RunOne(Request(Request(Request(Request(e, p), q), r), s), t);
    assert [p] + [q, r, s, t] == [p, q, r, s, t] && [q] + [r, s, t] == [q, r, s, t];
    assert [r] + [s, t] == [r, s, t] && [s] + [t] == [s, t];
  }

  // ---- Every run grows in this way ----

  lemma GrownKept(b: Bench, r: Req)
    requires b.policy.CLOCK? && Valid(b) && Grown(b) && r.key != ""
    ensures Grown(Request(b, r))
  {
    hide Request, Valid, Marked;
    if r.key in b.items {
      HitMarks(b, r);
    } else if |b.items| < Bound(b) {
      ClockJoins(b, r);
    } else {
      var j := ClockMissFull(b, r);
    }
  }

  /** After every run from an empty cache: while there is room the hand is at the first slot and all bits are set. */
  lemma {:induction false} RunsGrow(capacity: nat, reqs: seq<Req>)
    requires KeysGiven(reqs)
    ensures var b := Run(Empty(capacity, CLOCK), reqs); b.policy.CLOCK? && Valid(b) && Grown(b)
  {
    hide Request, Valid, Grown;
    if reqs == [] {
      EmptyGrown(capacity);
    } else {
      var pre := reqs[..|reqs| - 1];
      RunsGrow(capacity, pre);
      GrownKept(Run(Empty(capacity, CLOCK), pre), reqs[|reqs| - 1]);
    }
    EmptyValid(capacity, CLOCK);
    RunKeeps(Empty(capacity, CLOCK), reqs);
  }

  lemma EmptyGrown(capacity: nat)
    ensures Grown(Empty(capacity, CLOCK))
  {
  }
}
