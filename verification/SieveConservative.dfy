/** Exactly when this SIEVE, which starts every sweep at the front, is conservative. */
module SieveConservative {
  import opened Sequences
  import opened BenchModel
  import opened Conservative
  import opened HitFree
  import opened Stretches

  /** While there is room no key is visited; once full no visited key stands after an unvisited one. */
  predicate SieveCalm(b: Bench)
    requires OrderOk(b) && b.policy.SIEVE?
  {
    InMap(b);
    if |b.items| < Bound(b) then forall i :: 0 <= i < |b.sieve| ==> !b.items[b.sieve[i]].visited
    else forall i, j :: 0 <= i < j < |b.sieve| && b.items[b.sieve[j]].visited ==> b.items[b.sieve[i]].visited
  }

  lemma InMap(b: Bench)
    requires OrderOk(b) && b.policy.SIEVE?
    ensures forall i :: 0 <= i < |b.sieve| ==> b.sieve[i] in b.items
  {
    assert forall i :: 0 <= i < |b.sieve| ==> b.sieve[i] in Elems(b.sieve);
  }

  // ---- What a miss does, in terms of marks ----

  /** With room, the new key joins at the end, unmarked. */
  lemma SieveJoins(b: Bench, r: Req)
    requires b.policy.SIEVE? && Valid(b) && r.key !in b.items && |b.items| < Bound(b)
    ensures var c := Request(b, r);
            && Valid(c) && c.policy == b.policy && c.capacity == b.capacity && c.sieve == b.sieve + [r.key]
            && c.items.Keys == b.items.Keys + {r.key} && |c.items| == |b.items| + 1 && Marked(c) == Marked(b)
  {
    RequestKeeps(b, r);
    RoomMiss(b, r);
    OneMore(b.items, r.key, Item(r.value, false, true));
  }

  /** When full, the first unmarked key goes, or the first of all; the marks before it go too. */
  lemma SieveReplaces(b: Bench, r: Req) returns (at: nat)
    requires b.policy.SIEVE? && Valid(b) && r.key !in b.items && |b.items| >= Bound(b)
    ensures at < |b.sieve| == |b.items|
    ensures (forall i :: 0 <= i < at ==> b.sieve[i] in Marked(b))
    ensures b.sieve[at] !in Marked(b) || (at == 0 && forall i :: 0 <= i < |b.sieve| ==> b.sieve[i] in Marked(b))
    ensures var c := Request(b, r);
            && Valid(c) && c.policy == b.policy && c.capacity == b.capacity
            && c.sieve == b.sieve[..at] + b.sieve[at + 1..] + [r.key]
            && c.items.Keys == b.items.Keys - {b.sieve[at]} + {r.key} && |c.items| == |b.items|
            && Marked(c) == if b.sieve[at] in Marked(b) then {} else Marked(b) - Elems(b.sieve[..at])
  {
    hide Request, Valid, Unvisited, Between, NoDup, Elems, SieveEvicted;
    RequestKeeps(b, r);
    RequestShape(b, r);
    NotEmpty(b);
    var j := FirstUnvisited(b.sieve, b.items, 0);
    at := if j < |b.sieve| then j else 0;
    SweptForm(b, r, j, at);
    MarksAfterSweep(b, j, at, Request(b, r).items, r.key);
    SizesAfter(b.items, Request(b, r).items, b.sieve[at], r.key);
  }

  lemma NotEmpty(b: Bench)
    requires b.policy.SIEVE? && Valid(b) && |b.items| >= Bound(b)
    ensures Lists(b.sieve, b.items) && |b.sieve| == |b.items| > 0
    ensures forall i :: 0 <= i < |b.sieve| ==> b.sieve[i] in b.items
  {
    ListsSize(b.sieve, b.items);
    assert forall i :: 0 <= i < |b.sieve| ==> b.sieve[i] in Elems(b.sieve);
  }

  lemma SweptForm(b: Bench, r: Req, j: nat, at: nat)
    requires b.policy.SIEVE? && Valid(b) && r.key !in b.items && |b.items| >= Bound(b) && b.sieve != []
    requires j == FirstUnvisited(b.sieve, b.items, 0) && at == if j < |b.sieve| then j else 0
    ensures j <= |b.sieve|
    ensures forall i :: 0 <= i < j ==> b.sieve[i] in b.items && b.items[b.sieve[i]].visited
    ensures j < |b.sieve| ==> b.sieve[j] in b.items && !b.items[b.sieve[j]].visited
    ensures var c, left := Request(b, r), Unvisited(b.items, Between(b.sieve, 0, j)) - {b.sieve[at]};
            c.sieve == b.sieve[..at] + b.sieve[at + 1..] + [r.key] && c.items == left[r.key := Item(r.value, false, true)]
  {
    hide Unvisited, Between, SieveEvicted, FirstUnvisited;
    FullMiss(b, r);
    SieveEvictedExact(Get(b, r.key).0);
  }

  lemma SizesAfter(before: map<string, Item>, after: map<string, Item>, gone: string, k: string)
    requires gone in before && k !in before && after.Keys == before.Keys - {gone} + {k}
    ensures |after| == |before|
  {
    assert |after.Keys| == |before.Keys| - 1 + 1;
  }

  lemma MarksAfterSweep(b: Bench, j: nat, at: nat, after: map<string, Item>, k: string)
    requires b.policy.SIEVE? && Lists(b.sieve, b.items) && j <= |b.sieve| && b.sieve != [] && k !in b.items
    requires at == if j < |b.sieve| then j else 0
    requires forall i :: 0 <= i < j ==> b.sieve[i] in b.items && b.items[b.sieve[i]].visited
    requires j < |b.sieve| ==> b.sieve[j] in b.items && !b.items[b.sieve[j]].visited
    requires var left := Unvisited(b.items, Between(b.sieve, 0, j)) - {b.sieve[at]};
             k in after && !after[k].visited && after == left[k := after[k]]
    ensures after.Keys == b.items.Keys - {b.sieve[at]} + {k}
    ensures (set x | x in after && after[x].visited)
         == if b.sieve[at] in Marked(b) then {} else Marked(b) - Elems(b.sieve[..at])
  {
    hide NoDup, Between, Elems;
    BetweenIsElems(b.sieve, j);
    InList(b.sieve);
    var passed, gone := Elems(b.sieve[..j]), b.sieve[at];
    if j == |b.sieve| { assert b.sieve[..j] == b.sieve; }
    forall x | x in after && x != k
      ensures x in b.items && x != gone && (after[x].visited <==> b.items[x].visited && x !in passed)
    {
    }
    assert b.sieve[at] in Marked(b) <==> j == |b.sieve|;
    assert j == |b.sieve| ==> passed == b.items.Keys;
    assert j < |b.sieve| ==> b.sieve[..at] == b.sieve[..j];
  }

  lemma InList(s: seq<string>)
    ensures forall i :: 0 <= i < |s| ==> s[i] in Elems(s)
  {
  }

  lemma BetweenIsElems(s: seq<string>, j: nat)
    requires j <= |s|
    ensures Between(s, 0, j) == Elems(s[..j])
  {
    forall x ensures x in Between(s, 0, j) <==> x in Elems(s[..j]) {
      if x in Elems(s[..j]) {
        var i :| 0 <= i < |s[..j]| && s[..j][i] == x;
        assert s[i] == x;
      }
      if i :| 0 <= i < j && s[i] == x { assert s[..j][i] == x; }
    }
  }

  // ---- Not calm: a stretch that misses a key twice ----

  /** The keys before position p that carry no mark. */
  ghost function Unmarked(b: Bench, p: nat): set<string>
    requires p <= |b.sieve|
  {
    Elems(b.sieve[..p]) - Marked(b)
  }

  lemma AtPlace(b: Bench, p: nat)
    requires b.policy.SIEVE? && Valid(b) && p < |b.sieve|
    ensures b.sieve[p] in b.items && b.sieve[p] !in Elems(b.sieve[..p])
    ensures forall k :: k in Elems(b.sieve[..p]) ==> k in b.items
    ensures forall i :: 0 <= i < p ==> b.sieve[i] in Elems(b.sieve[..p])
  {
    assert b.sieve[p] in Elems(b.sieve);
    forall k | k in Elems(b.sieve[..p]) ensures k in b.items {
      var i :| 0 <= i < p && b.sieve[..p][i] == k;
      assert b.sieve[i] in Elems(b.sieve);
    }
    forall i | 0 <= i < p ensures b.sieve[i] in Elems(b.sieve[..p]) { assert b.sieve[..p][i] == b.sieve[i]; }
  }

  /** Full, and all before position p marked: one more new key throws the unmarked one at p out. */
  lemma ThrowOut(b: Bench, p: nat) returns (r: Req)
    requires b.policy.SIEVE? && Valid(b) && p < |b.sieve| && b.sieve[p] !in Marked(b)
    requires |b.items| >= Bound(b) && Unmarked(b, p) == {}
    ensures b.sieve[p] !in Run(b, [r]).items && |KeysOf([r])| == 1
  {
    hide Valid, Marked, KeysOf, Request;
    AtPlace(b, p);
    var y := FreshKey(b.items.Keys);
    r := Req(y, "");
    var at := SieveReplaces(b, r);
    assert forall i :: 0 <= i < p ==> b.sieve[i] in Marked(b);
    assert at == p;
    RunOne(b, r);
    KeysOfOne(r);
  }

  /**
   * The unmarked key at position p can be thrown out by new keys that fill the cache, requests that mark the keys
   * before it, and one new key more.
   */
  lemma {:induction false} Kill(b: Bench, p: nat) returns (reqs: seq<Req>)
    requires b.policy.SIEVE? && Valid(b) && p < |b.sieve| && b.sieve[p] !in Marked(b) && |b.items| <= Bound(b)
    ensures b.sieve[p] !in Run(b, reqs).items
    ensures |KeysOf(reqs)| <= Bound(b) - |b.items| + |Unmarked(b, p)| + 1
    decreases Bound(b) - |b.items|, |Unmarked(b, p)|
  {
    hide Valid, Run, KeysOf, Request, Marked, Elems;
    AtPlace(b, p);
    if |b.items| < Bound(b) {
      var z := FreshKey(b.items.Keys);
      var r := Req(z, "");
      SieveJoins(b, r);
      var c := Request(b, r);
      assert c.sieve[p] == b.sieve[p] && c.sieve[..p] == b.sieve[..p];
      var rest := Kill(c, p);
      reqs := [r] + rest;
      RunFirst(b, r, rest);
      FirstKeys(r, rest);
    } else if Unmarked(b, p) != {} {
      var k :| k in Unmarked(b, p);
      var r := Req(k, "");
      HitMarks(b, r);
      var c := Request(b, r);
      assert Unmarked(c, p) == Unmarked(b, p) - {k};
      SizeBound(c);
      var rest := Kill(c, p);
      reqs := [r] + rest;
      RunFirst(b, r, rest);
      FirstKeys(r, rest);
    } else {
      var r := ThrowOut(b, p);
      reqs := [r];
    }
  }

  /** All but one or two keys of a set are no more than its size allows. */
  lemma FewerUnmarked(all: set<string>, marked: set<string>, v: string)
    requires v in all && v in marked
    ensures |all - marked| <= |all| - 1
  {
    SubsetCard(all - marked, all - {v});
  }

  /** From a state that is not calm, some stretch of at most max(capacity, 1) keys misses a key twice. */
  lemma SieveTwice(b: Bench) returns (reqs: seq<Req>)
    requires b.policy.SIEVE? && Valid(b) && !SieveCalm(b)
    ensures |KeysOf(reqs)| <= Bound(b) && !NoDup(Missed(b, reqs))
  {
    hide Valid, Run, KeysOf, Request, Missed, NoDup, ConservativeFrom;
    SizeBound(b);
    var x := FreshKey(b.items.Keys);
    var r := Req(x, "");
    var p := AfterFirstMiss(b, r);
    var c := Request(b, r);
    var middle := Kill(c, p);
    reqs := TwiceAround(b, r, middle);
  }

  /** After the first miss its key stands at p, and at least one key before it is marked. */
  lemma AfterFirstMiss(b: Bench, r: Req) returns (p: nat)
    requires b.policy.SIEVE? && Valid(b) && !SieveCalm(b) && r.key !in b.items
    ensures var c := Request(b, r);
            && c.policy.SIEVE? && Valid(c) && c.capacity == b.capacity && p < |c.sieve| && c.sieve[p] == r.key
            && c.sieve[p] !in Marked(c) && |c.items| <= Bound(c)
            && Bound(c) - |c.items| + |Unmarked(c, p)| + 2 <= Bound(b)
  {
    hide Request;
    ListsSize(b.sieve, b.items);
    InMap(b);
    CardElems(b.sieve);
    if |b.items| < Bound(b) {
      p := JoinCase(b, r);
    } else {
      p := ReplaceCase(b, r);
    }
  }

  lemma JoinCase(b: Bench, r: Req) returns (p: nat)
    requires b.policy.SIEVE? && Valid(b) && !SieveCalm(b) && r.key !in b.items && |b.items| < Bound(b)
    ensures var c := Request(b, r);
            && c.policy.SIEVE? && Valid(c) && c.capacity == b.capacity && p < |c.sieve| && c.sieve[p] == r.key
            && c.sieve[p] !in Marked(c) && |c.items| <= Bound(c)
            && Bound(c) - |c.items| + |Unmarked(c, p)| + 2 <= Bound(b)
  {
    hide Request, NoDup, Valid;
    ValidSieve(b);
    InMap(b);
    SieveJoins(b, r);
    var c := Request(b, r);
    p := |b.sieve|;
    assert c.sieve[..p] == b.sieve;
    var i :| 0 <= i < |b.sieve| && b.items[b.sieve[i]].visited;
    assert b.sieve[i] in Elems(b.sieve) && b.sieve[i] in Marked(b);
    FewerUnmarked(Elems(b.sieve), Marked(c), b.sieve[i]);
  }

  lemma ValidSieve(b: Bench)
    requires b.policy.SIEVE? && Valid(b)
    ensures OrderOk(b) && |b.sieve| == |b.items| == |Elems(b.sieve)| <= Bound(b) && NoDup(b.sieve)
  {
    ListsSize(b.sieve, b.items);
    CardElems(b.sieve);
  }

  lemma ReplaceCase(b: Bench, r: Req) returns (p: nat)
    requires b.policy.SIEVE? && Valid(b) && !SieveCalm(b) && r.key !in b.items && |b.items| >= Bound(b)
    ensures var c := Request(b, r);
            && c.policy.SIEVE? && Valid(c) && c.capacity == b.capacity && p < |c.sieve| && c.sieve[p] == r.key
            && c.sieve[p] !in Marked(c) && |c.items| <= Bound(c)
            && Bound(c) - |c.items| + |Unmarked(c, p)| + 2 <= Bound(b)
  {
    hide Request, Valid, Elems, NoDup, Marked;
    ValidSieve(b);
    var at := SieveReplaces(b, r);
    var c := Request(b, r);
    ValidSieve(c);
    p := |b.sieve| - 1;
    var left := b.sieve[..at] + b.sieve[at + 1..];
    assert c.sieve[..p] == left && c.sieve[p] == r.key;
    var i, j := OutOfOrder(b);
    assert at <= i;
    LeftBehind(b.sieve, at, j);
    NotMarkedBefore(b, r.key);
    CardAfter(c.sieve, p);
    FewerUnmarked(Elems(left), Marked(c), b.sieve[j]);
  }

  /** A marked key after an unmarked one. */
  lemma OutOfOrder(b: Bench) returns (i: nat, j: nat)
    requires b.policy.SIEVE? && OrderOk(b) && !SieveCalm(b) && |b.items| >= Bound(b)
    ensures i < j < |b.sieve| && b.sieve[j] in Marked(b) && b.sieve[i] !in Marked(b)
  {
    InMap(b);
    i, j :| 0 <= i < j < |b.sieve| && b.items[b.sieve[j]].visited && !b.items[b.sieve[i]].visited;
  }

  lemma LeftBehind(s: seq<string>, at: nat, j: nat)
    requires NoDup(s) && at < j < |s|
    ensures s[j] in Elems(s[..at] + s[at + 1..]) && s[j] !in Elems(s[..at])
  {
    assert (s[..at] + s[at + 1..])[j - 1] == s[j];
  }

  lemma NotMarkedBefore(b: Bench, k: string)
    requires k !in b.items
    ensures k !in Marked(b)
  {
  }

  lemma CardAfter(s: seq<string>, p: nat)
    requires NoDup(s) && p < |s|
    ensures |Elems(s[..p])| == p
  {
    CardElems(s[..p]);
  }

  // ---- Calm: no stretch misses a key twice ----

  /** b comes from a state of the given capacity, by requests of a stretch for the given keys. */
  ghost predicate SieveOk(b: Bench, capacity: nat) { b.policy.SIEVE? && Valid(b) && b.capacity == capacity }

  /** The keys missed stand at the end, behind keys from before; nothing outside the stretch is marked. */
  ghost predicate Behind(b: Bench, keys: set<string>, olds: seq<string>, missed: seq<string>) {
    b.sieve == olds + missed && Elems(missed) <= keys && Marked(b) <= keys
  }

  /** Full, nothing missed yet; the first i keys are marked, and after them only keys of the stretch may be. */
  ghost predicate Untouched(b: Bench, keys: set<string>, i: nat) {
    && |b.items| >= Bound(b) && i <= |b.sieve|
    && (forall j :: 0 <= j < i ==> b.sieve[j] in Marked(b))
    && (forall j :: i <= j < |b.sieve| && b.sieve[j] in Marked(b) ==> b.sieve[j] in keys)
  }

  ghost predicate Stage(b: Bench, keys: set<string>, missed: seq<string>) {
    || (exists olds :: Behind(b, keys, olds, missed))
    || (missed == [] && exists i: nat :: Untouched(b, keys, i))
  }

  lemma CalmStage(b: Bench, keys: set<string>)
    requires SieveOk(b, b.capacity) && SieveCalm(b)
    ensures Stage(b, keys, [])
  {
    InMap(b);
    if |b.items| < Bound(b) {
      forall k ensures k !in Marked(b) {
        assert k in b.items ==> k in Elems(b.sieve);
      }
      assert b.sieve == b.sieve + [];
      ElemsOfEmpty<string>([]);
      assert Behind(b, keys, b.sieve, []);
    } else {
      var i := FirstUnvisited(b.sieve, b.items, 0);
      FirstUnvisitedExact(b.sieve, b.items, 0);
      assert Untouched(b, keys, i);
    }
  }

  lemma StageHit(b: Bench, keys: set<string>, missed: seq<string>, r: Req)
    requires SieveOk(b, b.capacity) && Stage(b, keys, missed) && r.key in keys && r.key in b.items
    ensures SieveOk(Request(b, r), b.capacity) && Stage(Request(b, r), keys, missed)
  {
    hide Request, Valid, Marked, Elems;
    HitMarks(b, r);
    var c := Request(b, r);
    if olds :| Behind(b, keys, olds, missed) {
      assert Behind(c, keys, olds, missed);
    } else {
      var i: nat :| Untouched(b, keys, i);
      assert Untouched(c, keys, i);
    }
  }

  lemma StageMiss(b: Bench, keys: set<string>, missed: seq<string>, r: Req)
    requires SieveOk(b, b.capacity) && Stage(b, keys, missed) && |keys| <= Bound(b) && r.key in keys && r.key !in b.items
    ensures SieveOk(Request(b, r), b.capacity) && Stage(Request(b, r), keys, missed + [r.key])
  {
    hide Request, Valid, Marked, Elems;
    if olds :| Behind(b, keys, olds, missed) {
      ElemsMore(missed, r.key);
      if |b.items| < Bound(b) {
        SieveJoins(b, r);
        Associative(olds, missed, [r.key]);
        assert Behind(Request(b, r), keys, olds, missed + [r.key]);
      } else {
        var left := BehindMiss(b, keys, olds, missed, r);
        assert Behind(Request(b, r), keys, left, missed + [r.key]);
      }
    } else {
      var i: nat :| Untouched(b, keys, i);
      var left := FirstMiss(b, keys, i, r);
      assert [] + [r.key] == [r.key];
      assert Behind(Request(b, r), keys, left, [r.key]);
    }
  }

  lemma ElemsMore(s: seq<string>, k: string)
    ensures Elems(s + [k]) == Elems(s) + {k}
  {
    ElemsConcat(s, [k]);
    assert Elems([k]) == {k};
  }

  /** Some old key is outside the stretch, hence unmarked, so eviction does not reach the missed ones. */
  lemma BehindMiss(b: Bench, keys: set<string>, olds: seq<string>, missed: seq<string>, r: Req) returns (left: seq<string>)
    requires SieveOk(b, b.capacity) && Behind(b, keys, olds, missed) && |keys| <= Bound(b)
    requires r.key in keys && r.key !in b.items && |b.items| >= Bound(b)
    ensures SieveOk(Request(b, r), b.capacity) && Request(b, r).sieve == left + (missed + [r.key])
    ensures Marked(Request(b, r)) <= keys
  {
    hide Request, Valid, Marked;
    var o := OldOutside(b, keys, olds, missed, r.key);
    var at := SieveReplaces(b, r);
    assert b.sieve[o] !in Marked(b) && at <= o;
    left := olds[..at] + olds[at + 1..];
    assert b.sieve[..at] == olds[..at] && b.sieve[at + 1..] == olds[at + 1..] + missed;
  }

  lemma OldOutside(b: Bench, keys: set<string>, olds: seq<string>, missed: seq<string>, k: string) returns (o: nat)
    requires SieveOk(b, b.capacity) && Behind(b, keys, olds, missed) && |keys| <= Bound(b)
    requires k in keys && k !in b.items && |b.items| >= Bound(b)
    ensures o < |olds| && olds[o] !in keys
  {
    hide Marked;
    if forall i :: 0 <= i < |olds| ==> olds[i] in keys {
      forall x | x in b.items ensures x in keys {
        assert x in Elems(b.sieve);
        var i :| 0 <= i < |b.sieve| && b.sieve[i] == x;
        assert i >= |olds| ==> missed[i - |olds|] in Elems(missed);
      }
      TooManyKeys(b, k, keys);
      assert false;
    }
    o :| 0 <= o < |olds| && olds[o] !in keys;
  }

  /** The first miss: eviction clears the marks from before the stretch, whichever key goes. */
  lemma FirstMiss(b: Bench, keys: set<string>, i: nat, r: Req) returns (left: seq<string>)
    requires SieveOk(b, b.capacity) && Untouched(b, keys, i) && r.key in keys && r.key !in b.items
    ensures SieveOk(Request(b, r), b.capacity) && Behind(Request(b, r), keys, left, [r.key])
  {
    hide Request, Valid;
    var at := SieveReplaces(b, r);
    left := b.sieve[..at] + b.sieve[at + 1..];
    assert Elems([r.key]) == {r.key};
    assert at < i ==> b.sieve[at] in Marked(b);
    forall k | k in Marked(Request(b, r)) ensures k in keys {
      OldMark(b, at, i, k, keys);
    }
  }

  lemma OldMark(b: Bench, at: nat, i: nat, k: string, keys: set<string>)
    requires SieveOk(b, b.capacity) && Untouched(b, keys, i) && at < |b.sieve| && i <= at
    requires k in Marked(b) && k !in Elems(b.sieve[..at])
    ensures k in keys
  {
    AtPlace(b, at);
    assert k in Elems(b.sieve);
    var j :| 0 <= j < |b.sieve| && b.sieve[j] == k;
    assert j >= at;
  }

  lemma StageNoDup(b: Bench, keys: set<string>, missed: seq<string>)
    requires SieveOk(b, b.capacity) && Stage(b, keys, missed)
    ensures NoDup(missed)
  {
    if olds :| Behind(b, keys, olds, missed) {
      NoDupConcat(olds, missed);
    }
  }

  lemma {:induction false} CalmStays(b: Bench, reqs: seq<Req>, keys: set<string>)
    requires SieveOk(b, b.capacity) && SieveCalm(b) && KeysOf(reqs) <= keys && |keys| <= Bound(b)
    ensures SieveOk(Run(b, reqs), b.capacity) && Stage(Run(b, reqs), keys, Missed(b, reqs))
  {
    hide Stage, Valid, KeysOf, Request;
    if reqs == [] {
      CalmStage(b, keys);
    } else {
      var pre, r := reqs[..|reqs| - 1], reqs[|reqs| - 1];
      FewerKeys(reqs, keys);
      CalmStays(b, pre, keys);
      var c := Run(b, pre);
      if r.key in c.items {
        StageHit(c, keys, Missed(b, pre), r);
        assert Missed(b, reqs) == Missed(b, pre);
      } else {
        StageMiss(c, keys, Missed(b, pre), r);
      }
    }
  }

  /**
   * From any state, SIEVE is conservative if and only if the state is calm: with room no key is visited; when
   * full, no visited key stands after an unvisited one.
   */
  lemma SieveConservativeExact(b: Bench)
    requires b.policy.SIEVE? && Valid(b)
    ensures ConservativeFrom(b) <==> SieveCalm(b)
  {
    hide KeysOf, Missed, Run, Stage;
    if SieveCalm(b) {
      forall reqs: seq<Req> | |KeysOf(reqs)| <= Bound(b) ensures NoDup(Missed(b, reqs)) {
        CalmStays(b, reqs, KeysOf(reqs));
        StageNoDup(Run(b, reqs), KeysOf(reqs), Missed(b, reqs));
      }
    } else {
      var reqs := SieveTwice(b);
      assert |KeysOf(reqs)| <= Bound(b) && !NoDup(Missed(b, reqs));
    }
  }

  /** Two requests for one key lead SIEVE with capacity 2 to a state from which it is not conservative. */
  lemma SieveIsNotConservative(a: string, v: string)
    ensures var b := Run(Empty(2, SIEVE), [Req(a, v), Req(a, v)]);
            b.policy.SIEVE? && Valid(b) && !SieveCalm(b) && !ConservativeFrom(b)
  {
    hide Request, Run, Valid, Marked, ConservativeFrom;
    var e, r := Empty(2, SIEVE), Req(a, v);
    EmptyValid(2, SIEVE);
    RunOne(e, r);
    RunFirst(e, r, [r]);
    RunOne(Request(e, r), r);
    assert [r] + [r] == [r, r];
    SieveJoins(e, r);
    HitMarks(Request(e, r), r);
    var b := Request(Request(e, r), r);
    assert b.sieve == [a] && a in Marked(b);
    MarkedIsVisited(b, a);
    SieveConservativeExact(b);
  }

  lemma MarkedIsVisited(b: Bench, a: string)
    requires b.policy.SIEVE? && Valid(b) && b.sieve == [a] && a in Marked(b) && |b.items| < Bound(b)
    ensures !SieveCalm(b)
  {
    assert b.items[b.sieve[0]].visited;
  }
}
