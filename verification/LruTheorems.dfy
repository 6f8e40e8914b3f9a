/** LRU over whole runs: what it holds, and that a larger cache does at least as well. */
module LruTheorems {
  import opened Sequences
  import opened BenchModel
  import opened BenchRuns

  /** The requested keys, each once, the most recently requested first. */
  function RecentFirst(reqs: seq<Req>): seq<string> {
    if reqs == [] then [] else MoveToFront(RecentFirst(reqs[..|reqs| - 1]), reqs[|reqs| - 1].key)
  }

  /** The index of the last request of key k, or -1. */
  function LastAt(reqs: seq<Req>, k: string): (i: int)
    ensures -1 <= i < |reqs|
    ensures i >= 0 ==> reqs[i].key == k
    ensures forall j :: i < j < |reqs| ==> reqs[j].key != k
  {
    if reqs == [] then -1
    else if reqs[|reqs| - 1].key == k then |reqs| - 1
    else LastAt(reqs[..|reqs| - 1], k)
  }

  /** The keys of s come in the order of their last requests, latest first. */
  ghost predicate ByLastRequest(reqs: seq<Req>, s: seq<string>) {
    forall i, j :: 0 <= i < j < |s| ==> LastAt(reqs, s[i]) > LastAt(reqs, s[j])
  }

  /** RecentFirst lists exactly the requested keys, in the order of their last requests, latest first. */
  lemma {:induction false} RecentFirstExact(reqs: seq<Req>)
    ensures NoDup(RecentFirst(reqs)) && ByLastRequest(reqs, RecentFirst(reqs))
    ensures forall k :: k in RecentFirst(reqs) <==> LastAt(reqs, k) >= 0
  {
    hide ByLastRequest;
    if reqs == [] {
      EmptyByLast();
    } else {
      var pre, k := reqs[..|reqs| - 1], reqs[|reqs| - 1].key;
      RecentFirstExact(pre);
      MoveToFrontProps(RecentFirst(pre), k);
      OneRequestMore(pre, reqs, RecentFirst(pre));
      forall x ensures x in RecentFirst(reqs) <==> LastAt(reqs, x) >= 0 {
        assert x in RecentFirst(reqs) <==> x in Elems(RecentFirst(reqs));
        assert x in RecentFirst(pre) <==> x in Elems(RecentFirst(pre));
      }
    }
  }

  lemma EmptyByLast()
    ensures ByLastRequest([], [])
  {
  }

  /** A request of k puts k in front and leaves the last requests of the others where they were. */
  lemma OneRequestMore(pre: seq<Req>, reqs: seq<Req>, s: seq<string>)
    requires reqs != [] && pre == reqs[..|reqs| - 1] && NoDup(s) && ByLastRequest(pre, s)
    ensures ByLastRequest(reqs, MoveToFront(s, reqs[|reqs| - 1].key))
  {
    var k := reqs[|reqs| - 1].key;
    var rest := Without(s, k);
    WithoutProps(s, k);
    forall j | 0 <= j < |rest| ensures LastAt(reqs, rest[j]) == LastAt(pre, rest[j]) < LastAt(reqs, k) {
      assert rest[j] in Elems(rest);
    }
    forall i, j | 0 <= i < j < |rest| ensures LastAt(pre, rest[i]) > LastAt(pre, rest[j]) {
      WithoutOrder(s, k, i, j);
    }
  }

  /** Taking a key out keeps the order of the others. */
  lemma WithoutOrder(s: seq<string>, k: string, i: nat, j: nat)
    requires NoDup(s) && i < j < |Without(s, k)|
    ensures exists a, b :: 0 <= a < b < |s| && s[a] == Without(s, k)[i] && s[b] == Without(s, k)[j]
  {
    hide Without, NoDup;
    if at :| 0 <= at < |s| && s[at] == k {
      WithoutAt(s, at);
      var a, b := if i < at then i else i + 1, if j < at then j else j + 1;
      assert 0 <= a < b < |s| && s[a] == Without(s, k)[i] && s[b] == Without(s, k)[j];
    } else {
      WithoutAbsent(s, k);
      assert 0 <= i < j < |s| && s[i] == Without(s, k)[i] && s[j] == Without(s, k)[j];
    }
  }

  function Take(s: seq<string>, n: nat): seq<string> { s[..Min(|s|, n)] }

  /** Requesting k: among the first n it moves up; otherwise it pushes the last of them out. */
  lemma TakeMoveToFront(s: seq<string>, k: string, n: nat)
    requires NoDup(s) && n >= 1
    ensures k in Take(s, n) ==> MoveToFront(Take(s, n), k) == Take(MoveToFront(s, k), n)
    ensures k !in Take(s, n) ==> [k] + Take(s, n - 1) == Take(MoveToFront(s, k), n)
  {
    hide Without;
    if i :| 0 <= i < |s| && s[i] == k {
      WithoutAt(s, i);
      if i < n {
        TakeMovesUp(s, i, n);
      } else {
        TakeDropsLast(s[..i], s[i + 1..], k, n);
        assert s[..i][..n - 1] == s[..n - 1];
      }
    } else {
      WithoutAbsent(s, k);
      TakeDropsLast(s, [], k, n);
      assert s + [] == s;
    }
  }

  lemma TakeMovesUp(s: seq<string>, i: nat, n: nat)
    requires NoDup(s) && i < |s| && i < n
    ensures s[i] in Take(s, n) && MoveToFront(Take(s, n), s[i]) == Take([s[i]] + (s[..i] + s[i + 1..]), n)
  {
    hide Without;
    var t := Take(s, n);
    WithoutAt(t, i);
    assert t[i] == s[i] && t[..i] == s[..i] && t[i + 1..] == s[i + 1..|t|];
  }

  lemma TakeDropsLast(a: seq<string>, b: seq<string>, k: string, n: nat)
    requires n >= 1 && (|a| >= n || b == [])
    ensures Take([k] + (a + b), n) == [k] + a[..Min(|a|, n - 1)]
  {
  }

  lemma LruStep(b: Bench, r: Req, recent: seq<string>)
    requires b.policy.LRU? && Valid(b) && NoDup(recent) && b.lru == Take(recent, Bound(b))
    ensures Request(b, r).lru == Take(MoveToFront(recent, r.key), Bound(b))
  {
    hide MoveToFront, Request, Valid, NoDup;
    LruSize(b, r.key);
    LruRequest(b, r);
    TakeMoveToFront(recent, r.key, Bound(b));
    if r.key !in b.items {
      LeftOfRecent(b, recent);
    }
  }

  /** What is left of the recency list when room has been made. */
  function LruLeft(b: Bench): seq<string> {
    if |b.items| >= b.capacity && b.lru != [] then b.lru[..|b.lru| - 1] else b.lru
  }

  lemma LeftOfRecent(b: Bench, recent: seq<string>)
    requires b.lru == Take(recent, Bound(b)) && |b.lru| == |b.items|
    ensures LruLeft(b) == Take(recent, Bound(b) - 1)
  {
  }

  lemma LruRequest(b: Bench, r: Req)
    requires b.policy.LRU?
    ensures Request(b, r).lru == if r.key in b.items then MoveToFront(b.lru, r.key) else [r.key] + LruLeft(b)
  {
    hide Without;
  }

  lemma LruSize(b: Bench, k: string)
    requires b.policy.LRU? && Valid(b)
    ensures |b.lru| == |b.items| <= Bound(b) && (k in b.items <==> k in b.lru)
  {
    ListsSize(b.lru, b.items);
    assert k in b.items <==> k in Elems(b.lru);
  }

  /** After any trace of get-else-put requests, LRU holds exactly the most recently requested distinct keys. */
  lemma {:induction false} LruHoldsMostRecent(capacity: nat, reqs: seq<Req>)
    ensures var b := Run(Empty(capacity, LRU), reqs);
            && b.lru == Take(RecentFirst(reqs), Max(capacity, 1))
            && b.items.Keys == Elems(b.lru)
            && Valid(b) && b.policy == LRU && b.capacity == capacity
  {
    EmptyValid(capacity, LRU);
    RunKeeps(Empty(capacity, LRU), reqs);
    if reqs != [] {
      var pre := reqs[..|reqs| - 1];
      LruHoldsMostRecent(capacity, pre);
      RecentFirstExact(pre);
      LruStep(Run(Empty(capacity, LRU), pre), reqs[|reqs| - 1], RecentFirst(pre));
    }
  }

  /** LRU inclusion: what a smaller cache holds after a trace, a larger one holds too. */
  lemma Inclusion(small: nat, large: nat, reqs: seq<Req>)
    requires small <= large
    ensures Run(Empty(small, LRU), reqs).items.Keys <= Run(Empty(large, LRU), reqs).items.Keys
  {
    LruHoldsMostRecent(small, reqs);
    LruHoldsMostRecent(large, reqs);
    var a, b := Run(Empty(small, LRU), reqs).lru, Run(Empty(large, LRU), reqs).lru;
    assert a == b[..|a|];
    forall k | k in Elems(a) ensures k in Elems(b) {
      var i :| 0 <= i < |a| && a[i] == k;
      assert b[i] == k;
    }
  }

  /** The number of hits on a trace never decreases as the capacity grows. */
  lemma {:induction false} HitsGrowWithCapacity(small: nat, large: nat, reqs: seq<Req>)
    requires small <= large
    ensures Run(Empty(small, LRU), reqs).hits <= Run(Empty(large, LRU), reqs).hits
  {
    if reqs != [] {
      var pre, r := reqs[..|reqs| - 1], reqs[|reqs| - 1];
      HitsGrowWithCapacity(small, large, pre);
      Inclusion(small, large, pre);
      LruHoldsMostRecent(small, pre);
      LruHoldsMostRecent(large, pre);
      CountRequest(Run(Empty(small, LRU), pre), r);
      CountRequest(Run(Empty(large, LRU), pre), r);
    }
  }

  /** A request is one hit or one miss, as its key is held or not. */
  lemma CountRequest(b: Bench, r: Req)
    requires Valid(b)
    ensures Request(b, r).hits == b.hits + (if r.key in b.items then 1 else 0)
    ensures Request(b, r).misses == b.misses + (if r.key in b.items then 0 else 1)
  {
    GetKeeps(b, r.key);
    if r.key !in b.items { EvictedReady(Get(b, r.key).0); }
  }

  // ---- Gets and puts in any order ----

  /** The accesses that use an entry: every put, and the gets that hit. */
  function Uses(b: Bench, accesses: seq<Access>): seq<Req> {
    if accesses == [] then []
    else
      var pre, a := accesses[..|accesses| - 1], accesses[|accesses| - 1];
      Uses(b, pre) + if a.PutOf? || a.key in DoAll(b, pre).items then [Req(a.key, "")] else []
  }

  lemma LruDo(b: Bench, a: Access)
    requires b.policy.LRU?
    ensures Do(b, a).lru == if a.key in b.items then MoveToFront(b.lru, a.key)
                            else if a.PutOf? then [a.key] + LruLeft(b) else b.lru
  {
    hide Without;
  }

  lemma LruDoStep(b: Bench, a: Access, recent: seq<string>)
    requires b.policy.LRU? && Valid(b) && NoDup(recent) && b.lru == Take(recent, Bound(b))
    ensures Do(b, a).lru
         == Take(if a.PutOf? || a.key in b.items then MoveToFront(recent, a.key) else recent, Bound(b))
  {
    hide MoveToFront, Do, Valid, NoDup;
    LruSize(b, a.key);
    LruDo(b, a);
    TakeMoveToFront(recent, a.key, Bound(b));
    LeftOfRecent(b, recent);
  }

  /**
   * After gets and puts in any order, LRU holds exactly the most recently used distinct keys, where a put uses its key
   * and a get uses it if it hits.
   */
  lemma {:induction false} LruHoldsMostRecentlyUsed(capacity: nat, accesses: seq<Access>)
    ensures var b := DoAll(Empty(capacity, LRU), accesses);
            && b.lru == Take(RecentFirst(Uses(Empty(capacity, LRU), accesses)), Max(capacity, 1))
            && b.items.Keys == Elems(b.lru)
  {
    hide Do, RecentFirst, Take;
    HitsReturnLastPut(capacity, LRU, accesses);
    LruLists(DoAll(Empty(capacity, LRU), accesses));
    if accesses == [] {
      NothingTaken(capacity);
    } else {
      var pre, a := accesses[..|accesses| - 1], accesses[|accesses| - 1];
      var e := Empty(capacity, LRU);
      HitsReturnLastPut(capacity, LRU, pre);
      LruHoldsMostRecentlyUsed(capacity, pre);
      RecentFirstExact(Uses(e, pre));
      LruDoStep(DoAll(e, pre), a, RecentFirst(Uses(e, pre)));
      RecentMore(Uses(e, pre), Req(a.key, ""));
    }
  }

  lemma LruLists(b: Bench)
    requires Valid(b) && b.policy.LRU?
    ensures b.items.Keys == Elems(b.lru)
  {
  }

  lemma NothingTaken(capacity: nat)
    ensures Take(RecentFirst([]), Max(capacity, 1)) == []
  {
  }

  lemma RecentMore(uses: seq<Req>, r: Req)
    ensures RecentFirst(uses + [r]) == MoveToFront(RecentFirst(uses), r.key) && uses + [] == uses
  {
    assert (uses + [r])[..|uses|] == uses;
  }
}
