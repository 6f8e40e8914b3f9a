/** Stretches of requests: how runs and misses compose, and what it means to be conservative from a state on. */
module Stretches {
  import opened Sequences
  import opened BenchModel
  import opened Conservative

  /**
   * From state b on, every stretch of requests for at most max(capacity, 1) distinct keys misses each key at most
   * once.
   */
  ghost predicate ConservativeFrom(b: Bench) {
    forall reqs: seq<Req> :: |KeysOf(reqs)| <= Bound(b) && (b.policy.CLOCK? ==> KeysGiven(reqs)) ==> NoDup(Missed(b, reqs))
  }

  lemma {:induction false} RunConcat(b: Bench, p: seq<Req>, q: seq<Req>)
    ensures Run(b, p + q) == Run(Run(b, p), q)
    ensures Missed(b, p + q) == Missed(b, p) + Missed(Run(b, p), q)
    decreases |q|
  {
    hide Request;
    if q == [] {
      assert p + q == p;
    } else {
      var pre, last := q[..|q| - 1], q[|q| - 1];
      RunConcat(b, p, pre);
      assert (p + q)[..|p + q| - 1] == p + pre && (p + q)[|p + q| - 1] == last;
    }
  }

  lemma RunOne(b: Bench, r: Req)
    ensures Run(b, [r]) == Request(b, r)
    ensures Missed(b, [r]) == if r.key in b.items then [] else [r.key]
  {
    hide Request;
    assert [r][..0] == [] && Run(b, []) == b && Missed(b, []) == [];
  }

  lemma RunFirst(b: Bench, r: Req, rest: seq<Req>)
    ensures Run(b, [r] + rest) == Run(Request(b, r), rest)
    ensures Missed(b, [r] + rest) == (if r.key in b.items then [] else [r.key]) + Missed(Request(b, r), rest)
  {
    hide Request, Run, Missed;
    RunOne(b, r);
    RunConcat(b, [r], rest);
  }

  lemma KeysOfConcat(p: seq<Req>, q: seq<Req>)
    ensures KeysOf(p + q) == KeysOf(p) + KeysOf(q)
  {
    forall x ensures x in KeysOf(p + q) <==> x in KeysOf(p) + KeysOf(q) {
      if i :| 0 <= i < |p| && p[i].key == x { assert (p + q)[i].key == x; }
      if i :| 0 <= i < |q| && q[i].key == x { assert (p + q)[|p| + i].key == x; }
    }
  }

  lemma KeysOfOne(r: Req)
    ensures KeysOf([r]) == {r.key}
  {
    assert [r][0].key == r.key;
  }

  lemma FirstKeys(r: Req, rest: seq<Req>)
    ensures |KeysOf([r] + rest)| <= 1 + |KeysOf(rest)|
    ensures r.key != "" && KeysGiven(rest) ==> KeysGiven([r] + rest)
  {
    hide KeysOf;
    KeysOfConcat([r], rest);
    KeysOfOne(r);
    assert |KeysOf([r] + rest)| <= |{r.key}| + |KeysOf(rest)| by { SubsetSum({r.key}, KeysOf(rest)); }
  }

  lemma SubsetSum(a: set<string>, b: set<string>)
    ensures |a + b| <= |a| + |b|
  {
    assert a + b == a + (b - a);
    SubsetCard(b - a, b);
  }

  /** r, a stretch that throws its key out, and r again: the key is missed twice. */
  lemma TwiceAround(b: Bench, r: Req, middle: seq<Req>) returns (reqs: seq<Req>)
    requires r.key !in b.items && r.key !in Run(Request(b, r), middle).items
    ensures !NoDup(Missed(b, reqs)) && |KeysOf(reqs)| <= 1 + |KeysOf(middle)|
    ensures r.key != "" && KeysGiven(middle) ==> KeysGiven(reqs)
  {
    hide Request, Run, Missed, KeysOf;
    reqs := [r] + middle + [r];
    RunFirst(b, r, middle);
    RunConcat(b, [r] + middle, [r]);
    RunOne(Run(b, [r] + middle), r);
    var m := Missed(b, reqs);
    assert m[0] == r.key && m[|m| - 1] == r.key && |m| >= 2;
    FirstKeys(r, middle);
    KeysOfConcat([r], middle);
    KeysOfConcat([r] + middle, [r]);
    KeysOfOne(r);
    assert KeysOf(reqs) == KeysOf([r] + middle);
  }

  // ---- Keys that nobody uses ----

  lemma {:induction false} LongerThanAll(s: set<string>) returns (n: nat)
    ensures forall k :: k in s ==> |k| < n
    decreases s
  {
    n := 1;
    if s != {} {
      var k :| k in s;
      var m := LongerThanAll(s - {k});
      n := Max(m, |k| + 1);
    }
  }

  lemma FreshKey(s: set<string>) returns (k: string)
    ensures k !in s && k != ""
  {
    var n := LongerThanAll(s);
    k := seq(n + 1, _ => 'k');
  }

  // ---- Marks ----

  /** The keys that SIEVE or CLOCK has marked as used. */
  ghost function Marked(b: Bench): set<string> {
    set k | k in b.items && if b.policy.CLOCK? then b.items[k].referenced else b.items[k].visited
  }

  /** A hit under SIEVE or CLOCK marks its key and changes no order and no other mark. */
  lemma HitMarks(b: Bench, r: Req)
    requires Valid(b) && (b.policy.SIEVE? || b.policy.CLOCK?) && r.key in b.items
    ensures var c := Request(b, r);
            && Valid(c) && c.policy == b.policy && c.capacity == b.capacity
            && c.sieve == b.sieve && c.slots == b.slots && c.hand == b.hand
            && c.items.Keys == b.items.Keys && |c.items| == |b.items| && Marked(c) == Marked(b) + {r.key}
  {
    GetKeeps(b, r.key);
    var c := Request(b, r);
    assert c.items.Keys == b.items.Keys;
    assert |c.items.Keys| == |b.items.Keys|;
  }

  /** A full cache that holds only keys of a stretch, and misses another key of it, serves too many keys. */
  lemma TooManyKeys(b: Bench, k: string, keys: set<string>)
    requires b.items.Keys <= keys && k in keys && k !in b.items && |b.items| >= Bound(b)
    ensures |keys| > Bound(b)
  {
    assert |b.items.Keys| == |b.items|;
    assert |b.items.Keys + {k}| == |b.items.Keys| + 1;
    SubsetCard(b.items.Keys + {k}, keys);
  }
}
