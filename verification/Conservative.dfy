/**
 * How many misses a stretch of requests for few keys can cost: LRU and FIFO are conservative from every state. From
 * which states SIEVE and CLOCK are is in modules of their own.
 */
module Conservative {
  import opened Sequences
  import opened BenchModel
  import opened LruTheorems

  /** The keys that a stretch of requests misses, in order. */
  function Missed(b: Bench, reqs: seq<Req>): seq<string> {
    if reqs == [] then []
    else
      var pre, k := reqs[..|reqs| - 1], reqs[|reqs| - 1].key;
      Missed(b, pre) + (if k in Run(b, pre).items then [] else [k])
  }

  ghost function KeysOf(reqs: seq<Req>): set<string> { set i | 0 <= i < |reqs| :: reqs[i].key }

  /** The miss counter counts the missed keys. */
  lemma {:induction false} MissesCounted(b: Bench, reqs: seq<Req>)
    requires Valid(b) && (b.policy.CLOCK? ==> KeysGiven(reqs))
    ensures Run(b, reqs).misses == b.misses + |Missed(b, reqs)|
  {
    if reqs != [] {
      var pre := reqs[..|reqs| - 1];
      MissesCounted(b, pre);
      RunKeeps(b, pre);
      CountRequest(Run(b, pre), reqs[|reqs| - 1]);
    }
  }

  lemma OneElem(k: string)
    ensures Elems([k]) == {k}
  {
  }

  lemma KeysOfMore(reqs: seq<Req>)
    requires reqs != []
    ensures KeysOf(reqs) == KeysOf(reqs[..|reqs| - 1]) + {reqs[|reqs| - 1].key}
  {
    var pre := reqs[..|reqs| - 1];
    forall x ensures x in KeysOf(reqs) <==> x in KeysOf(pre) + {reqs[|reqs| - 1].key} {
      if x in KeysOf(reqs) {
        var i :| 0 <= i < |reqs| && reqs[i].key == x;
        if i < |pre| { assert pre[i].key == x; }
      }
      if x in KeysOf(pre) {
        var i :| 0 <= i < |pre| && pre[i].key == x;
        assert reqs[i].key == x;
      }
    }
  }

  lemma {:induction false} MissedAreRequested(b: Bench, reqs: seq<Req>)
    ensures Elems(Missed(b, reqs)) <= KeysOf(reqs)
  {
    hide Run, Elems, KeysOf;
    ElemsOfEmpty<string>([]);
    if reqs != [] {
      var pre, k := reqs[..|reqs| - 1], reqs[|reqs| - 1].key;
      MissedAreRequested(b, pre);
      OneElem(k);
      KeysOfMore(reqs);
      ElemsConcat(Missed(b, pre), if k in Run(b, pre).items then [] else [k]);
    }
  }

  // ---- FIFO ----

  /** t ends with s. */
  ghost predicate EndsWith(t: seq<string>, s: seq<string>) { |s| <= |t| && t[|t| - |s|..] == s }

  lemma FifoStep(b: Bench, r: Req, missed: seq<string>)
    requires b.policy.FIFO? && Valid(b) && EndsWith(b.fifo, missed)
    requires r.key !in b.items ==> |missed| < Bound(b)
    ensures EndsWith(Request(b, r).fifo, missed + if r.key in b.items then [] else [r.key])
  {
    ListsSize(b.fifo, b.items);
    if r.key in b.items {
      assert missed + [] == missed;
    } else {
      FifoMiss(b, r);
      var left := if |b.items| >= b.capacity && b.fifo != [] then b.fifo[1..] else b.fifo;
      EndsAfter(left, missed, r.key);
    }
  }

  lemma FifoMiss(b: Bench, r: Req)
    requires b.policy.FIFO? && r.key !in b.items
    ensures Request(b, r).fifo == (if |b.items| >= b.capacity && b.fifo != [] then b.fifo[1..] else b.fifo) + [r.key]
  {
  }

  lemma EndsAfter(t: seq<string>, s: seq<string>, k: string)
    requires EndsWith(t, s)
    ensures EndsWith(t + [k], s + [k])
  {
  }

  /** In a stretch with at most max(capacity, 1) distinct keys, what FIFO missed is still at the end of its queue. */
  lemma {:induction false} FifoKeepsMissed(b: Bench, reqs: seq<Req>, keys: set<string>)
    requires b.policy.FIFO? && Valid(b) && KeysOf(reqs) <= keys && |keys| <= Bound(b)
    ensures EndsWith(Run(b, reqs).fifo, Missed(b, reqs)) && NoDup(Missed(b, reqs))
  {
    RunKeeps(b, reqs);
    if reqs != [] {
      var pre, r := reqs[..|reqs| - 1], reqs[|reqs| - 1];
      FewerKeys(reqs, keys);
      FifoKeepsMissed(b, pre, keys);
      RunKeeps(b, pre);
      var c, m := Run(b, pre), Missed(b, pre);
      if r.key !in c.items {
        FreshMiss(b, pre, r.key, keys);
      }
      FifoStep(c, r, m);
    }
    SuffixNoDup(Run(b, reqs).fifo, Missed(b, reqs));
  }

  lemma FewerKeys(reqs: seq<Req>, keys: set<string>)
    requires reqs != [] && KeysOf(reqs) <= keys
    ensures KeysOf(reqs[..|reqs| - 1]) <= keys && reqs[|reqs| - 1].key in keys
  {
    assert reqs[|reqs| - 1].key in KeysOf(reqs);
    forall k | k in KeysOf(reqs[..|reqs| - 1]) ensures k in keys {
      var i :| 0 <= i < |reqs| - 1 && reqs[..|reqs| - 1][i].key == k;
      assert reqs[i].key == k;
      assert k in KeysOf(reqs);
    }
  }

  /** A key that is missed and was not missed before leaves room for one more among few keys. */
  lemma FreshMiss(b: Bench, pre: seq<Req>, k: string, keys: set<string>)
    requires b.policy.FIFO? && Valid(Run(b, pre)) && Run(b, pre).policy.FIFO?
    requires EndsWith(Run(b, pre).fifo, Missed(b, pre)) && NoDup(Missed(b, pre))
    requires KeysOf(pre) <= keys && k in keys && k !in Run(b, pre).items
    ensures |Missed(b, pre)| < |keys|
  {
    hide Run, Missed, KeysOf;
    var c, m := Run(b, pre), Missed(b, pre);
    forall x | x in Elems(m) ensures x in c.items {
      var i :| 0 <= i < |m| && m[i] == x;
      assert c.fifo[|c.fifo| - |m| + i] == x;
      assert x in Elems(c.fifo);
    }
    MissedAreRequested(b, pre);
    NoDupWithin(m, keys - {k});
    SubsetCard(keys - {k}, keys);
  }

  lemma SuffixNoDup(t: seq<string>, s: seq<string>)
    requires EndsWith(t, s) && NoDup(t)
    ensures NoDup(s)
  {
    forall i, j | 0 <= i < j < |s| ensures s[i] != s[j] {
      assert t[|t| - |s| + i] == s[i] && t[|t| - |s| + j] == s[j];
    }
  }

  // ---- LRU ----

  lemma LruFrontStep(b: Bench, r: Req, front: seq<string>)
    requires b.policy.LRU? && Valid(b) && NoDup(front) && front <= b.lru
    requires r.key !in front ==> |front| < Bound(b)
    ensures MoveToFront(front, r.key) <= Request(b, r).lru
  {
    assert r.key in b.items <==> r.key in Elems(b.lru);
    if r.key in b.items {
      assert b.lru == front + b.lru[|front|..];
      WithoutFront(front, b.lru[|front|..], r.key);
    } else {
      LruMissKeepsFront(b, r, front);
    }
  }

  lemma LruMissKeepsFront(b: Bench, r: Req, front: seq<string>)
    requires b.policy.LRU? && Valid(b) && front <= b.lru && r.key !in b.items && |front| < Bound(b)
    ensures [r.key] + front <= Request(b, r).lru && MoveToFront(front, r.key) == [r.key] + front
  {
    hide Without, Request, Valid;
    LruSize(b, r.key);
    LruRequest(b, r);
    assert r.key !in front;
    WithoutAbsent(front, r.key);
    assert front <= LruLeft(b);
  }

  lemma {:induction false} WithoutFront(front: seq<string>, rest: seq<string>, k: string)
    ensures Without(front, k) <= Without(front + rest, k)
  {
    if front != [] {
      TailOfConcat(front, rest);
      WithoutFront(front[1..], rest, k);
    }
  }

  /** In a stretch with at most max(capacity, 1) distinct keys, the keys requested in it stay in front. */
  lemma {:induction false} LruKeepsRequested(b: Bench, reqs: seq<Req>, keys: set<string>)
    requires b.policy.LRU? && Valid(b) && KeysOf(reqs) <= keys && |keys| <= Bound(b)
    ensures RecentFirst(reqs) <= Run(b, reqs).lru && NoDup(Missed(b, reqs))
  {
    if reqs != [] {
      var pre, r := reqs[..|reqs| - 1], reqs[|reqs| - 1];
      FewerKeys(reqs, keys);
      LruKeepsRequested(b, pre, keys);
      RunKeeps(b, pre);
      RecentFirstExact(pre);
      if r.key !in RecentFirst(pre) { FewRecent(pre, r.key, keys); }
      LruFrontStep(Run(b, pre), r, RecentFirst(pre));
      if r.key !in Run(b, pre).items { MissedOnce(b, pre, r.key); }
    }
  }

  lemma RecentAreRequested(reqs: seq<Req>)
    ensures Elems(RecentFirst(reqs)) == KeysOf(reqs)
  {
    RecentFirstExact(reqs);
    forall k ensures k in Elems(RecentFirst(reqs)) <==> k in KeysOf(reqs) {
      if LastAt(reqs, k) >= 0 { assert reqs[LastAt(reqs, k)].key == k; }
    }
  }

  lemma FewRecent(pre: seq<Req>, k: string, keys: set<string>)
    requires KeysOf(pre) <= keys && k in keys && k !in RecentFirst(pre)
    ensures |RecentFirst(pre)| < |keys|
  {
    RecentFirstExact(pre);
    RecentAreRequested(pre);
    assert k !in Elems(RecentFirst(pre));
    NoDupWithin(RecentFirst(pre), keys - {k});
  }

  /** A key that LRU misses now was not requested, hence not missed, earlier in the stretch. */
  lemma MissedOnce(b: Bench, pre: seq<Req>, k: string)
    requires Valid(Run(b, pre)) && Run(b, pre).policy.LRU? && RecentFirst(pre) <= Run(b, pre).lru
    requires k !in Run(b, pre).items
    ensures k !in Missed(b, pre)
  {
    var c := Run(b, pre);
    MissedAreRequested(b, pre);
    RecentAreRequested(pre);
    forall x | x in Elems(Missed(b, pre)) ensures x in c.items {
      assert x in Elems(RecentFirst(pre));
      var i :| 0 <= i < |RecentFirst(pre)| && RecentFirst(pre)[i] == x;
      assert c.lru[i] == x;
      assert x in Elems(c.lru);
    }
  }

  // ---- The theorem ----

  /**
   * LRU and FIFO are conservative: from any state with its records in agreement, a stretch of get-else-put
   * requests for at most max(capacity, 1) distinct keys misses each key at most once.
   */
  lemma LruAndFifoAreConservative(b: Bench, reqs: seq<Req>)
    requires (b.policy.LRU? || b.policy.FIFO?) && Valid(b) && |KeysOf(reqs)| <= Bound(b)
    ensures NoDup(Missed(b, reqs))
    ensures Run(b, reqs).misses - b.misses <= |KeysOf(reqs)|
  {
    if b.policy.LRU? {
      LruKeepsRequested(b, reqs, KeysOf(reqs));
    } else {
      FifoKeepsMissed(b, reqs, KeysOf(reqs));
    }
    MissesCounted(b, reqs);
    MissedAreRequested(b, reqs);
    NoDupWithin(Missed(b, reqs), KeysOf(reqs));
  }

  // ---- What FIFO holds ----

  lemma FifoSlides(b: Bench, r: Req, missed: seq<string>)
    requires b.policy.FIFO? && Valid(b) && EndsWith(missed, b.fifo) && |b.fifo| == Min(|missed|, Bound(b))
    ensures var more := missed + if r.key in b.items then [] else [r.key];
            EndsWith(more, Request(b, r).fifo) && |Request(b, r).fifo| == Min(|more|, Bound(b))
  {
    hide Request, Elems;
    ListsSize(b.fifo, b.items);
    if r.key in b.items {
      FifoHit(b, r);
      assert missed + [] == missed;
    } else {
      FifoMiss(b, r);
    }
  }

  lemma FifoHit(b: Bench, r: Req)
    requires b.policy.FIFO? && r.key in b.items
    ensures Request(b, r).fifo == b.fifo
  {
  }

  /** After any get-else-put trace the FIFO queue is exactly the max(c, 1) keys inserted last, in order of insertion. */
  lemma {:induction false} FifoHoldsLastInserted(capacity: nat, reqs: seq<Req>)
    ensures var b, missed := Run(Empty(capacity, FIFO), reqs), Missed(Empty(capacity, FIFO), reqs);
            EndsWith(missed, b.fifo) && |b.fifo| == Min(|missed|, Max(capacity, 1)) && b.items.Keys == Elems(b.fifo)
  {
    hide Request, Elems, EndsWith;
    EmptyValid(capacity, FIFO);
    RunKeeps(Empty(capacity, FIFO), reqs);
    FifoLists(Run(Empty(capacity, FIFO), reqs));
    if reqs == [] {
      NothingQueued(capacity);
    } else {
      var pre := reqs[..|reqs| - 1];
      FifoHoldsLastInserted(capacity, pre);
      RunKeeps(Empty(capacity, FIFO), pre);
      FifoSlides(Run(Empty(capacity, FIFO), pre), reqs[|reqs| - 1], Missed(Empty(capacity, FIFO), pre));
    }
  }

  lemma FifoLists(b: Bench)
    requires Valid(b) && b.policy.FIFO?
    ensures b.items.Keys == Elems(b.fifo)
  {
  }

  lemma NothingQueued(capacity: nat)
    ensures EndsWith([], Empty(capacity, FIFO).fifo)
  {
  }
}
