/** The code of one worker of the benchmark server, run with no other thread in between. */
module BenchmarkServers {
  import opened Sequences
  import opened BenchModel
  import opened BenchServer
  import opened BenchmarkCaches

  class BenchmarkServer {
    const cache: BenchmarkCache
    var requestQueue: seq<ServerRequest>
    var running: bool

    /** CLOCK marks empty slots with the empty key, so no request may have it. */
    ghost predicate Given(r: ServerRequest) { cache.policy.CLOCK? ==> r.key != "" }

    ghost predicate Valid()
      reads this, cache, cache.cacheMap.Values
    {
      cache.Valid() && forall r :: r in requestQueue ==> Given(r)
    }

    constructor (capacity: nat, policy: Policy)
      ensures Valid() && fresh(cache) && cache.Model() == Empty(capacity, policy) && requestQueue == [] && !running
    {
      cache := new BenchmarkCache(capacity, policy);
      requestQueue, running := [], false;
    }

    method AddRequest(request: ServerRequest)
      requires Valid() && Given(request)
      modifies this`requestQueue
      ensures Valid() && requestQueue == old(requestQueue) + if running then [request] else []
    {
      if !running {
        return;
      }
      requestQueue := requestQueue + [request];
    }

    /** A GET and, on a miss, a put of the dummy content; a PUT; anything else is ignored. */
    method ProcessRequest(request: ServerRequest)
      requires cache.Valid() && Given(request)
      modifies cache, cache.cacheMap.Values
      ensures cache.Valid() && fresh(cache.cacheMap.Values - old(cache.cacheMap.Values))
      ensures cache.Model() == Serve(old(cache.Model()), request)
    {
      hide BenchmarkCache.Valid, BenchmarkCache.Agrees, BenchmarkCache.Model, Get, Put, Dummy, Serve;
      ServeCases(cache.Model(), request);
      cache.ValidAgrees();
      if request.operation == "GET" {
        var hit := cache.Get(request.key);
        if hit == None {
          cache.ValidAgrees();
          cache.Put(request.key, Dummy(request.key));
        }
      } else if request.operation == "PUT" {
        cache.Put(request.key, Dummy(request.key));
      }
    }

    /** The worker's loop, undisturbed, up to the point where it would wait: it serves the queue in order. */
    method ServeQueue()
      requires Valid()
      modifies this`requestQueue, cache, cache.cacheMap.Values
      ensures Valid() && requestQueue == []
      ensures fresh(cache.cacheMap.Values - old(cache.cacheMap.Values))
      ensures cache.Model() == ServeAll(old(cache.Model()), old(requestQueue))
    {
      hide BenchmarkCache.Valid, BenchmarkCache.Model, Serve, ServeAll;
      ghost var b, requests, served := cache.Model(), requestQueue, [];
      ServeNone(b);
      while requestQueue != []
        invariant requests == served + requestQueue && Valid()
        invariant fresh(cache.cacheMap.Values - old(cache.cacheMap.Values))
        invariant cache.Model() == ServeAll(b, served)
        decreases |requestQueue|
      {
        var request := requestQueue[0];
        HeadAndTail(requestQueue);
        Associative(served, [request], requestQueue[1..]);
        ServeMore(b, served, request);
        requestQueue := requestQueue[1..];
        ProcessRequest(request);
        served := served + [request];
      }
      assert served + [] == served;
    }
  }

  lemma ServeNone(b: Bench)
    ensures ServeAll(b, []) == b
  {
  }
}
