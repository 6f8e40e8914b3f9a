/**
 * The benchmark server as a step system: workers take requests from one queue, and the get and the put of a
 * request are separate critical sections, so steps of different workers interleave in every way.
 */
module BenchServer {
  import opened Sequences
  import opened BenchModel
  import opened BenchRuns
  import opened LruTheorems

  datatype ServerRequest = ServerRequest(key: string, operation: string)

  /** Where a worker is: before the test of its loop, past it, with a request taken, after a miss, or gone. */
  datatype Worker = Idle | Waiting | Holding(request: ServerRequest) | Missing(request: ServerRequest) | Exited

  /**
   * The shared state, with the requests whose callers have found the server running and not pushed yet, and a
   * record of what happened: requests added and finished, new entries made, entries evicted, PUT requests done,
   * and the key and value of every hit.
   */
  datatype Server = Server(
    cache: Bench, queue: seq<ServerRequest>, callers: multiset<ServerRequest>, workers: seq<Worker>, running: bool, shutdown: bool,
    added: seq<ServerRequest>, finished: seq<ServerRequest>, inserted: nat, evicted: nat, puts: nat,
    replies: seq<(string, string)>)

  datatype Event =
    | Start(threads: nat)
    | RequestShutdown
    | StopRunning
    | Ask(request: ServerRequest)
    | Push(request: ServerRequest)
    | Enter(worker: nat)
    | Wake(worker: nat)
    | Process(worker: nat)

  function Dummy(key: string): string { "cached_content_for_" + key }

  function Initial(capacity: nat, policy: Policy): Server {
    Server(Empty(capacity, policy), [], multiset{}, [], false, false, [], [], 0, 0, 0, [])
  }

  function Inserts(b: Bench, k: string): nat { if k in b.items then 0 else 1 }

  /** A put makes room first: an entry goes when the cache is full and not empty. */
  function Evicts(b: Bench, k: string): nat {
    if k !in b.items && |b.items| >= b.capacity && b.items != map[] then 1 else 0
  }

  /** Worker w is done with request r. */
  function Done(s: Server, w: nat, r: ServerRequest): Server
    requires w < |s.workers|
  {
    s.(workers := s.workers[w := Idle], finished := s.finished + [r])
  }

  /** The critical section of put, with the dummy value of the key. */
  function PutDummy(s: Server, k: string): Server {
    s.(cache := Put(s.cache, k, Dummy(k)), inserted := s.inserted + Inserts(s.cache, k),
       evicted := s.evicted + Evicts(s.cache, k))
  }

  /** The critical section of get. A miss leaves the worker with the put still to do. */
  function GetStep(s: Server, w: nat, r: ServerRequest): Server
    requires w < |s.workers|
  {
    var g := Get(s.cache, r.key);
    if g.1.Some? then Done(s, w, r).(cache := g.0, replies := s.replies + [(r.key, g.1.value)])
    else s.(cache := g.0, workers := s.workers[w := Missing(r)])
  }

  function ProcessStep(s: Server, w: nat): Server
    requires w < |s.workers|
  {
    match s.workers[w]
    case Holding(r) =>
      if r.operation == "GET" then GetStep(s, w, r)
      else if r.operation == "PUT" then var t := Done(PutDummy(s, r.key), w, r); t.(puts := s.puts + 1)
      else Done(s, w, r)
    case Missing(r) => Done(PutDummy(s, r.key), w, r)
    case _ => s
  }

  /** Past the loop's test a worker waits for a request or the shutdown; with neither it stays. */
  function WakeStep(s: Server, w: nat): Server
    requires w < |s.workers|
  {
    if !s.workers[w].Waiting? then s
    else if s.queue != [] then s.(queue := s.queue[1..], workers := s.workers[w := Holding(s.queue[0])])
    else if s.shutdown then s.(workers := s.workers[w := Exited])
    else s
  }

  function EnterStep(s: Server, w: nat): Server
    requires w < |s.workers|
  {
    if s.workers[w].Idle? then s.(workers := s.workers[w := if s.running then Waiting else Exited]) else s
  }

  /**
   * One step; an event whose moment has not come changes nothing. Adding takes two steps: the test that the server
   * runs is outside the lock, so a push may come after the stop. Stopping joins the workers before a new start.
   */
  function Step(s: Server, e: Event): Server {
    match e
    case Start(n) =>
      if s.running || exists w :: w in s.workers && w != Exited then s
      else s.(running := true, shutdown := false, workers := seq(n, _ => Idle))
    case RequestShutdown => s.(shutdown := true)
    case StopRunning => if s.shutdown then s.(running := false) else s
    case Ask(r) => if s.running then s.(callers := s.callers + multiset{r}) else s
    case Push(r) =>
      if r in s.callers then
        s.(callers := s.callers - multiset{r}, queue := s.queue + [r], added := s.added + [r])
      else s
    case Enter(w) => if w < |s.workers| then EnterStep(s, w) else s
    case Wake(w) => if w < |s.workers| then WakeStep(s, w) else s
    case Process(w) => if w < |s.workers| then ProcessStep(s, w) else s
  }

  function After(s: Server, events: seq<Event>): Server {
    if events == [] then s else Step(After(s, events[..|events| - 1]), events[|events| - 1])
  }

  // ---- What every step keeps ----

  function Held(w: Worker): multiset<ServerRequest> {
    if w.Holding? || w.Missing? then multiset{w.request} else multiset{}
  }

  /** The requests that workers have taken and not finished. */
  function InFlight(workers: seq<Worker>): multiset<ServerRequest> {
    if workers == [] then multiset{} else Held(workers[0]) + InFlight(workers[1..])
  }

  function Owes(w: Worker): nat { if w.Missing? then 1 else 0 }

  /** How many workers have missed and not put yet. */
  function Pending(workers: seq<Worker>): nat {
    if workers == [] then 0 else Owes(workers[0]) + Pending(workers[1..])
  }

  function Gets(reqs: seq<ServerRequest>): nat {
    if reqs == [] then 0 else Gets(reqs[..|reqs| - 1]) + if reqs[|reqs| - 1].operation == "GET" then 1 else 0
  }

  lemma {:induction false} WorkerMoves(workers: seq<Worker>, i: nat, w: Worker)
    requires i < |workers|
    ensures InFlight(workers[i := w]) + Held(workers[i]) == InFlight(workers) + Held(w)
    ensures Pending(workers[i := w]) + Owes(workers[i]) == Pending(workers) + Owes(w)
  {
    var next := workers[i := w];
    if i == 0 {
      assert next[1..] == workers[1..];
      Exchange(Held(w), InFlight(workers[1..]), Held(workers[0]));
    } else {
      WorkerMoves(workers[1..], i - 1, w);
      assert next[1..] == workers[1..][i - 1 := w];
      AddToBoth(Held(workers[0]), InFlight(next[1..]), Held(workers[i]), InFlight(workers[1..]), Held(w));
    }
  }

  lemma Exchange<T>(a: multiset<T>, b: multiset<T>, c: multiset<T>)
    ensures a + b + c == c + b + a
  {
  }

  lemma AddToBoth<T>(h: multiset<T>, a: multiset<T>, b: multiset<T>, c: multiset<T>, d: multiset<T>)
    requires a + b == c + d
    ensures h + a + b == h + c + d
  {
    assert h + a + b == h + (a + b) && h + c + d == h + (c + d);
  }

  lemma {:induction false} NoneTaken(workers: seq<Worker>)
    requires forall w :: w in workers ==> !w.Holding? && !w.Missing?
    ensures InFlight(workers) == multiset{} && Pending(workers) == 0
  {
    if workers != [] { NoneTaken(workers[1..]); }
  }

  // ---- The invariant ----

  /** Every request added is queued, in flight or finished, each as often as it was added. */
  ghost predicate NoneLost(s: Server) { Balance(s.added, s.queue, s.workers, s.finished) }

  ghost predicate Balance(
    added: seq<ServerRequest>, queue: seq<ServerRequest>, workers: seq<Worker>, finished: seq<ServerRequest>)
  {
    multiset(added) == multiset(queue) + InFlight(workers) + multiset(finished)
  }

  /** Entries made and entries evicted account for the size; each entry made answers a miss or a PUT. */
  ghost predicate Counted(s: Server) {
    && s.inserted == s.evicted + |s.cache.items|
    && s.inserted + Pending(s.workers) <= s.cache.misses + s.puts
    && s.cache.total == Gets(s.finished) + Pending(s.workers)
    && s.cache.hits == |s.replies|
    && s.puts + Gets(s.finished) <= |s.finished|
  }

  /** Every value held, and every value a hit has returned, is the dummy content of its key. */
  ghost predicate Genuine(s: Server) {
    && AllDummy(s.cache.items)
    && (forall i :: 0 <= i < |s.replies| ==> s.replies[i].1 == Dummy(s.replies[i].0))
  }

  /** For CLOCK, no request has the empty key, which marks empty slots. */
  ghost predicate Keyed(s: Server) {
    s.cache.policy.CLOCK? ==>
      && (forall r :: r in s.queue || r in s.callers ==> r.key != "")
      && (forall w :: w in s.workers && (w.Holding? || w.Missing?) ==> w.request.key != "")
  }

  /** Only a GET can be waiting for its put. */
  ghost predicate MissesAreGets(s: Server) {
    forall w :: w in s.workers && w.Missing? ==> w.request.operation == "GET"
  }

  ghost predicate Inv(s: Server) {
    BenchModel.Valid(s.cache) && NoneLost(s) && Counted(s) && Genuine(s) && Keyed(s) && MissesAreGets(s)
  }

  // ---- Where the requests are ----

  lemma BalanceAdd(a: seq<ServerRequest>, q: seq<ServerRequest>, ws: seq<Worker>, f: seq<ServerRequest>, r: ServerRequest)
    requires Balance(a, q, ws, f)
    ensures Balance(a + [r], q + [r], ws, f)
  {
  }

  lemma BalancePop(a: seq<ServerRequest>, q: seq<ServerRequest>, ws: seq<Worker>, f: seq<ServerRequest>, w: nat)
    requires Balance(a, q, ws, f) && q != [] && w < |ws| && Held(ws[w]) == multiset{}
    ensures Balance(a, q[1..], ws[w := Holding(q[0])], f)
  {
    WorkerMoves(ws, w, Holding(q[0]));
    HeadAndTail(q);
    var x, y := multiset{q[0]}, multiset(q[1..]);
    assert multiset(q) == x + y;
    assert InFlight(ws[w := Holding(q[0])]) == InFlight(ws) + x;
    assert x + y + InFlight(ws) == y + (InFlight(ws) + x);
  }

  lemma BalanceStay(a: seq<ServerRequest>, q: seq<ServerRequest>, ws: seq<Worker>, f: seq<ServerRequest>, w: nat, v: Worker)
    requires Balance(a, q, ws, f) && w < |ws| && Held(ws[w]) == Held(v)
    ensures Balance(a, q, ws[w := v], f)
  {
    WorkerMoves(ws, w, v);
    assert InFlight(ws[w := v]) == InFlight(ws) by { Cancel(InFlight(ws[w := v]), InFlight(ws), Held(v)); }
  }

  lemma Cancel<T>(a: multiset<T>, b: multiset<T>, c: multiset<T>)
    requires a + c == b + c
    ensures a == b
  {
    assert a == a + c - c && b == b + c - c;
  }

  lemma BalanceDone(a: seq<ServerRequest>, q: seq<ServerRequest>, ws: seq<Worker>, f: seq<ServerRequest>, w: nat, r: ServerRequest)
    requires Balance(a, q, ws, f) && w < |ws| && Held(ws[w]) == multiset{r}
    ensures Balance(a, q, ws[w := Idle], f + [r])
  {
    WorkerMoves(ws, w, Idle);
    assert multiset(f + [r]) == multiset(f) + multiset{r};
    var x := InFlight(ws[w := Idle]);
    assert x + multiset{r} == InFlight(ws);
  }

  // ---- What a put does to the sizes and values ----

  /** A put makes at most one entry and evicts at most one, as the guards of its branches say. */
  lemma PutCounts(b: Bench, k: string, v: string)
    requires BenchModel.Valid(b) && (b.policy.CLOCK? ==> k != "")
    ensures |Put(b, k, v).items| + Evicts(b, k) == |b.items| + Inserts(b, k)
    ensures Inserts(b, k) <= 1
  {
    hide Evicted, Inserted, Touched, OrderOk;
    OpenOrder(b);
    if k in b.items {
      var c := b.(items := b.items[k := b.items[k].(value := v)]);
      assert c.items.Keys == b.items.Keys;
      SameOrder(b, c);
      TouchedKeeps(c, k);
      assert |Put(b, k, v).items.Keys| == |b.items.Keys|;
    } else if |b.items| >= b.capacity {
      EvictedReady(b);
      NotInEvicted(b, k);
      if b.items == map[] {
        assert b.items.Keys == {};
        EvictedNothing(b);
      } else {
        assert b.items.Keys != {};
        EvictedTakesOne(b);
      }
      InsertedKeeps(Evicted(b), k, v);
    } else {
      FullIsReady(b);
      InsertedKeeps(b, k, v);
    }
  }

  lemma OpenOrder(b: Bench)
    requires BenchModel.Valid(b)
    ensures OrderOk(b)
  {
  }

  lemma SameOrder(b: Bench, c: Bench)
    requires OrderOk(b) && c == b.(items := c.items) && c.items.Keys == b.items.Keys
    ensures OrderOk(c)
  {
  }

  ghost predicate AllDummy(items: map<string, Item>) { forall k :: k in items ==> items[k].value == Dummy(k) }

  lemma PutValues(b: Bench, k: string)
    requires BenchModel.Valid(b) && AllDummy(b.items)
    ensures AllDummy(Put(b, k, Dummy(k)).items)
  {
    hide Evicted, Dummy, OrderOk;
    OpenOrder(b);
    EvictedKeepsValues(b);
  }

  lemma GetValues(b: Bench, k: string)
    requires AllDummy(b.items)
    ensures AllDummy(Get(b, k).0.items) && |Get(b, k).0.items| == |b.items|
    ensures Get(b, k).1.Some? ==> Get(b, k).1.value == Dummy(k)
  {
    hide Dummy;
    if k in b.items {
      assert Get(b, k).0.items.Keys == b.items.Keys;
      assert |Get(b, k).0.items.Keys| == |b.items.Keys|;
    }
  }

  // ---- Every step keeps the invariant ----

  lemma PutDummyKeeps(s: Server, k: string)
    requires BenchModel.Valid(s.cache) && AllDummy(s.cache.items) && s.inserted == s.evicted + |s.cache.items|
    requires s.cache.policy.CLOCK? ==> k != ""
    ensures var t := PutDummy(s, k);
            && BenchModel.Valid(t.cache) && AllDummy(t.cache.items) && t.inserted == t.evicted + |t.cache.items|
            && t.inserted <= s.inserted + 1 && SameCounters(s.cache, t.cache)
            && t == s.(cache := t.cache, inserted := t.inserted, evicted := t.evicted)
  {
    hide Put, BenchModel.Valid, AllDummy;
    PutKeeps(s.cache, k, Dummy(k));
    PutCounts(s.cache, k, Dummy(k));
    PutValues(s.cache, k);
  }

  lemma GetsMore(f: seq<ServerRequest>, r: ServerRequest)
    ensures Gets(f + [r]) == Gets(f) + if r.operation == "GET" then 1 else 0
  {
    assert (f + [r])[..|f|] == f;
  }

  /** Worker w changes to v; every other worker is as it was. */
  lemma WorkerSet(workers: seq<Worker>, w: nat, v: Worker)
    requires w < |workers|
    ensures forall x :: x in workers[w := v] ==> x in workers || x == v
    ensures workers[w] in workers
  {
  }

  lemma DoneKeeps(s: Server, w: nat, r: ServerRequest)
    requires w < |s.workers| && NoneLost(s) && Keyed(s) && MissesAreGets(s)
    requires s.workers[w] == Holding(r) || s.workers[w] == Missing(r)
    ensures var t := Done(s, w, r);
            && NoneLost(t) && Keyed(t) && MissesAreGets(t)
            && Pending(t.workers) + Owes(s.workers[w]) == Pending(s.workers)
            && Gets(t.finished) == Gets(s.finished) + if r.operation == "GET" then 1 else 0
  {
    hide InFlight, Pending, Balance, Gets;
    BalanceDone(s.added, s.queue, s.workers, s.finished, w, r);
    WorkerMoves(s.workers, w, Idle);
    WorkerSet(s.workers, w, Idle);
    GetsMore(s.finished, r);
  }

  /** The second critical section of a GET that missed. */
  lemma FillKeeps(s: Server, w: nat, r: ServerRequest)
    requires Inv(s) && w < |s.workers| && s.workers[w] == Missing(r)
    ensures Inv(Done(PutDummy(s, r.key), w, r))
  {
    hide BenchModel.Valid, AllDummy, InFlight, Pending, Balance, Gets, PutDummy;
    WorkerSet(s.workers, w, Idle);
    PutDummyKeeps(s, r.key);
    DoneKeeps(PutDummy(s, r.key), w, r);
  }

  lemma DirectPutKeeps(s: Server, w: nat, r: ServerRequest)
    requires Inv(s) && w < |s.workers| && s.workers[w] == Holding(r) && r.operation == "PUT"
    ensures Inv(ProcessStep(s, w))
  {
    hide BenchModel.Valid, AllDummy, InFlight, Pending, Balance, Gets, PutDummy;
    WorkerSet(s.workers, w, Idle);
    PutDummyKeeps(s, r.key);
    DoneKeeps(PutDummy(s, r.key), w, r);
  }

  lemma OtherKeeps(s: Server, w: nat, r: ServerRequest)
    requires Inv(s) && w < |s.workers| && s.workers[w] == Holding(r) && r.operation != "GET"
    ensures Inv(Done(s, w, r))
  {
    hide BenchModel.Valid, AllDummy, InFlight, Pending, Balance, Gets;
    DoneKeeps(s, w, r);
  }

  lemma GetCounts(b: Bench, k: string)
    ensures var g := Get(b, k);
            && g.0.total == b.total + 1 && g.0.policy == b.policy && g.0.capacity == b.capacity
            && (g.1.Some? ==> g.0.hits == b.hits + 1 && g.0.misses == b.misses)
            && (g.1.None? ==> g.0.hits == b.hits && g.0.misses == b.misses + 1)
  {
  }

  lemma GetStepKeeps(s: Server, w: nat, r: ServerRequest)
    requires Inv(s) && w < |s.workers| && s.workers[w] == Holding(r) && r.operation == "GET"
    ensures Inv(GetStep(s, w, r))
  {
    hide BenchModel.Valid, AllDummy, InFlight, Pending, Balance, Gets, Get, Dummy;
    GetKeeps(s.cache, r.key);
    GetCounts(s.cache, r.key);
    GetValues(s.cache, r.key);
    DoneKeeps(s, w, r);
    BalanceStay(s.added, s.queue, s.workers, s.finished, w, Missing(r));
    WorkerMoves(s.workers, w, Missing(r));
    WorkerSet(s.workers, w, Missing(r));
  }

  lemma ProcessKeeps(s: Server, w: nat)
    requires Inv(s) && w < |s.workers|
    ensures Inv(ProcessStep(s, w))
  {
    hide Inv, Done, PutDummy, GetStep;
    match s.workers[w]
    case Holding(r) =>
      if r.operation == "GET" {
        GetStepKeeps(s, w, r);
      } else if r.operation == "PUT" {
        DirectPutKeeps(s, w, r);
      } else {
        OtherKeeps(s, w, r);
      }
    case Missing(r) => FillKeeps(s, w, r);
    case _ =>
  }

  /** A worker that holds nothing before and after moves. */
  lemma MoveKeeps(s: Server, w: nat, v: Worker)
    requires Inv(s) && w < |s.workers| && Held(s.workers[w]) == Held(v) == multiset{}
    ensures Inv(s.(workers := s.workers[w := v]))
  {
    hide BenchModel.Valid, AllDummy, InFlight, Pending, Balance, Gets;
    BalanceStay(s.added, s.queue, s.workers, s.finished, w, v);
    WorkerMoves(s.workers, w, v);
    WorkerSet(s.workers, w, v);
  }

  lemma TakeKeeps(s: Server, w: nat)
    requires Inv(s) && w < |s.workers| && s.workers[w].Waiting? && s.queue != []
    ensures Inv(WakeStep(s, w))
  {
    hide BenchModel.Valid, AllDummy, InFlight, Pending, Balance, Gets;
    BalancePop(s.added, s.queue, s.workers, s.finished, w);
    WorkerMoves(s.workers, w, Holding(s.queue[0]));
    WorkerSet(s.workers, w, Holding(s.queue[0]));
  }

  lemma AskKeeps(s: Server, r: ServerRequest)
    requires Inv(s) && (s.cache.policy.CLOCK? ==> r.key != "")
    ensures Inv(Step(s, Ask(r)))
  {
    hide BenchModel.Valid, AllDummy, InFlight, Pending, Balance, Gets;
  }

  lemma PushKeeps(s: Server, r: ServerRequest)
    requires Inv(s)
    ensures Inv(Step(s, Push(r)))
  {
    hide BenchModel.Valid, AllDummy, InFlight, Pending, Balance, Gets;
    BalanceAdd(s.added, s.queue, s.workers, s.finished, r);
  }

  lemma StartKeeps(s: Server, n: nat)
    requires Inv(s) && forall w :: w in s.workers ==> w == Exited
    ensures Inv(s.(running := true, shutdown := false, workers := seq(n, _ => Idle)))
  {
    hide BenchModel.Valid, AllDummy, InFlight, Pending, Gets;
    NoneTaken(s.workers);
    NoneTaken(seq(n, _ => Idle));
  }

  lemma FlagsKeep(s: Server, running: bool, shutdown: bool)
    requires Inv(s)
    ensures Inv(s.(running := running, shutdown := shutdown))
  {
  }

  lemma EnterKeeps(s: Server, w: nat)
    requires Inv(s) && w < |s.workers|
    ensures Inv(EnterStep(s, w))
  {
    hide Inv;
    if s.workers[w].Idle? {
      MoveKeeps(s, w, if s.running then Waiting else Exited);
    }
  }

  lemma WakeKeeps(s: Server, w: nat)
    requires Inv(s) && w < |s.workers|
    ensures Inv(WakeStep(s, w))
  {
    hide Inv;
    if s.workers[w].Waiting? {
      if s.queue != [] {
        TakeKeeps(s, w);
      } else if s.shutdown {
        MoveKeeps(s, w, Exited);
      }
    }
  }

  lemma StepKeeps(s: Server, e: Event)
    requires Inv(s) && (s.cache.policy.CLOCK? && e.Ask? ==> e.request.key != "")
    ensures Inv(Step(s, e))
  {
    hide Inv, WakeStep, EnterStep, ProcessStep;
    match e {
      case Start(n) =>
        if !s.running && forall w :: w in s.workers ==> w == Exited { StartKeeps(s, n); }
      case RequestShutdown => FlagsKeep(s, s.running, true);
      case StopRunning => FlagsKeep(s, false, s.shutdown);
      case Ask(r) => AskKeeps(s, r);
      case Push(r) => PushKeeps(s, r);
      case Enter(w) => if w < |s.workers| { EnterKeeps(s, w); }
      case Wake(w) => if w < |s.workers| { WakeKeeps(s, w); }
      case Process(w) => if w < |s.workers| { ProcessKeeps(s, w); }
    }
  }

  ghost predicate KeysGivenIn(events: seq<Event>) {
    forall i :: 0 <= i < |events| && events[i].Ask? ==> events[i].request.key != ""
  }

  /** Every interleaving of any number of workers and callers keeps the invariant. */
  lemma {:induction false} EveryRun(capacity: nat, policy: Policy, events: seq<Event>)
    requires policy.CLOCK? ==> KeysGivenIn(events)
    ensures var s := After(Initial(capacity, policy), events);
            Inv(s) && s.cache.policy == policy && s.cache.capacity == capacity
  {
    hide Inv, Step;
    if events == [] {
      InitialInv(capacity, policy);
    } else {
      var pre := events[..|events| - 1];
      EveryRun(capacity, policy, pre);
      StepKeeps(After(Initial(capacity, policy), pre), events[|events| - 1]);
      StepShape(After(Initial(capacity, policy), pre), events[|events| - 1]);
    }
  }

  lemma InitialInv(capacity: nat, policy: Policy)
    ensures Inv(Initial(capacity, policy))
  {
    EmptyValid(capacity, policy);
  }

  lemma StepShape(s: Server, e: Event)
    requires Inv(s)
    ensures Step(s, e).cache.policy == s.cache.policy && Step(s, e).cache.capacity == s.cache.capacity
  {
    hide Put, Get;
    if e.Process? && e.worker < |s.workers| && (s.workers[e.worker].Holding? || s.workers[e.worker].Missing?) {
      var k := s.workers[e.worker].request.key;
      PutShape(s.cache, k);
      GetCounts(s.cache, k);
    }
  }

  lemma PutShape(b: Bench, k: string)
    requires BenchModel.Valid(b)
    ensures Put(b, k, Dummy(k)).policy == b.policy && Put(b, k, Dummy(k)).capacity == b.capacity
  {
    EvictedReady(b);
  }

  // ---- The theorems ----

  ghost predicate GetsOnly(events: seq<Event>) {
    forall i :: 0 <= i < |events| && events[i].Ask? ==> events[i].request.operation == "GET"
  }

  lemma {:induction false} AddedAreGets(s: Server, events: seq<Event>)
    requires GetsOnly(events) && forall r :: r in s.added || r in s.callers ==> r.operation == "GET"
    ensures forall r :: r in After(s, events).added || r in After(s, events).callers ==> r.operation == "GET"
  {
    if events != [] {
      var pre, e := events[..|events| - 1], events[|events| - 1];
      AddedAreGets(s, pre);
      AddedStep(After(s, pre), e);
    }
  }

  lemma AddedStep(s: Server, e: Event)
    ensures forall r :: r in Step(s, e).added || r in Step(s, e).callers ==> r in s.added || r in s.callers || e == Ask(r)
  {
    hide Put, Get;
  }

  lemma {:induction false} AllGets(reqs: seq<ServerRequest>)
    requires forall r :: r in reqs ==> r.operation == "GET"
    ensures Gets(reqs) == |reqs|
  {
    if reqs != [] {
      assert reqs[|reqs| - 1] in reqs;
      AllGets(reqs[..|reqs| - 1]);
    }
  }

  lemma DummyIs()
    ensures forall k :: Dummy(k) == "cached_content_for_" + k
  {
  }

  /**
   * In every interleaving: each request added is queued, in flight or finished; entries made less entries evicted
   * is the size, at most max(capacity, 1); with GET requests only, entries made never exceed misses, whatever
   * workers miss the same key; and every hit has returned the content of its key.
   */
  lemma Safety(capacity: nat, policy: Policy, events: seq<Event>)
    requires policy.CLOCK? ==> KeysGivenIn(events)
    ensures var s := After(Initial(capacity, policy), events);
            && multiset(s.added) == multiset(s.queue) + InFlight(s.workers) + multiset(s.finished)
            && s.inserted - s.evicted == |s.cache.items| <= Max(capacity, 1)
            && s.cache.hits + s.cache.misses == s.cache.total == Gets(s.finished) + Pending(s.workers)
            && |s.replies| == s.cache.hits
            && (forall i :: 0 <= i < |s.replies| ==> s.replies[i].1 == "cached_content_for_" + s.replies[i].0)
            && (GetsOnly(events) ==> s.inserted + Pending(s.workers) <= s.cache.misses)
  {
    hide InFlight, Pending, Gets, Dummy, Step;
    EveryRun(capacity, policy, events);
    DummyIs();
    var s := After(Initial(capacity, policy), events);
    if GetsOnly(events) {
      AddedAreGets(Initial(capacity, policy), events);
      forall r | r in s.finished ensures r.operation == "GET" {
        assert r in multiset(s.finished);
        assert r in multiset(s.added);
      }
      AllGets(s.finished);
    }
  }

  /** When no worker holds a request, what was added is queued or finished, and every GET counts as a hit or a miss. */
  lemma WhenQuiet(capacity: nat, policy: Policy, events: seq<Event>)
    requires policy.CLOCK? ==> KeysGivenIn(events)
    requires forall w :: w in After(Initial(capacity, policy), events).workers ==> !w.Holding? && !w.Missing?
    ensures var s := After(Initial(capacity, policy), events);
            && multiset(s.added) == multiset(s.queue) + multiset(s.finished)
            && s.cache.hits + s.cache.misses == Gets(s.finished)
  {
    hide InFlight, Pending, Gets, Dummy, Step;
    Safety(capacity, policy, events);
    NoneTaken(After(Initial(capacity, policy), events).workers);
  }

  /** Two workers that take the same absent key at once both miss; the entry is made once. */
  lemma BothMiss(s: Server, v: nat, w: nat, r: ServerRequest)
    requires Inv(s) && v < |s.workers| && w < |s.workers| && v != w && r.operation == "GET"
    requires s.workers[v] == s.workers[w] == Holding(r) && r.key !in s.cache.items
    ensures var t := Step(Step(Step(Step(s, Process(v)), Process(w)), Process(v)), Process(w));
            t.cache.misses == s.cache.misses + 2 && t.inserted == s.inserted + 1 && t.finished == s.finished + [r, r]
  {
    hide Put, Inv, Get, Step;
    var k := r.key;
    ValidAfterMisses(s, k);
    var t := BothGet(s, v, w, r);
    PutKeeps(t.cache, k, Dummy(k));
    BothPut(t, v, w, r);
    assert s.finished + [r] + [r] == s.finished + [r, r];
  }

  lemma BothGet(s: Server, v: nat, w: nat, r: ServerRequest) returns (t: Server)
    requires v < |s.workers| && w < |s.workers| && v != w && r.operation == "GET"
    requires s.workers[v] == s.workers[w] == Holding(r) && r.key !in s.cache.items
    ensures t == Step(Step(s, Process(v)), Process(w)) && |t.workers| == |s.workers|
    ensures t.workers[v] == t.workers[w] == Missing(r)
    ensures t.cache == Get(Get(s.cache, r.key).0, r.key).0 && t.cache.misses == s.cache.misses + 2
    ensures t.cache.items == s.cache.items && t.inserted == s.inserted && t.finished == s.finished
    ensures t.cache.policy == s.cache.policy
  {
    hide Get, PutDummy;
    GetMisses(s.cache, r.key);
    GetMisses(Get(s.cache, r.key).0, r.key);
    t := Step(Step(s, Process(v)), Process(w));
  }

  lemma BothPut(s: Server, v: nat, w: nat, r: ServerRequest)
    requires v < |s.workers| && w < |s.workers| && v != w && r.key !in s.cache.items
    requires s.workers[v] == s.workers[w] == Missing(r)
    requires r.key in Put(s.cache, r.key, Dummy(r.key)).items && SameCounters(s.cache, Put(s.cache, r.key, Dummy(r.key)))
    ensures var t := Step(Step(s, Process(v)), Process(w));
            t.cache.misses == s.cache.misses && t.inserted == s.inserted + 1 && t.finished == s.finished + [r] + [r]
  {
    hide Put, Get;
    HitPut(Put(s.cache, r.key, Dummy(r.key)), r.key, Dummy(r.key));
  }

  lemma HitPut(b: Bench, k: string, v: string)
    requires k in b.items
    ensures Put(b, k, v).misses == b.misses
  {
  }

  lemma GetMisses(b: Bench, k: string)
    requires k !in b.items
    ensures var g := Get(b, k); g.1 == None && g.0 == b.(misses := b.misses + 1, total := b.total + 1)
  {
  }

  lemma ValidAfterMisses(s: Server, k: string)
    requires Inv(s) && k !in s.cache.items && exists w :: w in s.workers && w.Holding? && w.request.key == k
    ensures BenchModel.Valid(Get(Get(s.cache, k).0, k).0) && (s.cache.policy.CLOCK? ==> k != "")
  {
    GetKeeps(s.cache, k);
    GetKeeps(Get(s.cache, k).0, k);
  }

  // ---- A single worker ----

  /** What one request does to the cache when nothing comes between its get and its put. */
  function Serve(b: Bench, r: ServerRequest): Bench {
    if r.operation == "GET" then Request(b, Req(r.key, Dummy(r.key)))
    else if r.operation == "PUT" then Put(b, r.key, Dummy(r.key))
    else b
  }

  function ServeAll(b: Bench, reqs: seq<ServerRequest>): Bench {
    if reqs == [] then b else Serve(ServeAll(b, reqs[..|reqs| - 1]), reqs[|reqs| - 1])
  }

  function HeldIn(workers: seq<Worker>): seq<ServerRequest> {
    if workers == [] then [] else HeldBy(workers[0])
  }

  function HeldBy(w: Worker): seq<ServerRequest> { if w.Holding? || w.Missing? then [w.request] else [] }

  /** With one worker: requests are served in the order they came, one whole request after the other. */
  ghost predicate InOrder(start: Bench, s: Server) {
    && |s.workers| <= 1
    && s.added == s.finished + HeldIn(s.workers) + s.queue
    && if s.workers != [] && s.workers[0].Missing? then
         HalfServed(ServeAll(start, s.finished), s.cache, s.workers[0].request)
       else s.cache == ServeAll(start, s.finished)
  }

  /** c is b after the get of a GET request that missed. */
  ghost predicate HalfServed(b: Bench, c: Bench, r: ServerRequest) {
    r.operation == "GET" && r.key !in b.items && c == Get(b, r.key).0
  }

  lemma ServeMore(start: Bench, reqs: seq<ServerRequest>, r: ServerRequest)
    ensures ServeAll(start, reqs + [r]) == Serve(ServeAll(start, reqs), r)
  {
    assert (reqs + [r])[..|reqs|] == reqs;
  }

  lemma ServeCases(b: Bench, r: ServerRequest)
    ensures r.operation == "GET" && Get(b, r.key).1.Some? ==> Serve(b, r) == Get(b, r.key).0
    ensures r.operation == "GET" && Get(b, r.key).1.None? ==>
              r.key !in b.items && Serve(b, r) == Put(Get(b, r.key).0, r.key, Dummy(r.key))
    ensures r.operation == "PUT" ==> Serve(b, r) == Put(b, r.key, Dummy(r.key))
    ensures r.operation != "GET" && r.operation != "PUT" ==> Serve(b, r) == b
    ensures HalfServed(b, Get(b, r.key).0, r) ==> Serve(b, r) == Put(Get(b, r.key).0, r.key, Dummy(r.key))
  {
    hide Put, Touched;
  }

  lemma ProcessInOrder(start: Bench, s: Server)
    requires InOrder(start, s) && s.workers != []
    ensures InOrder(start, ProcessStep(s, 0))
  {
    hide Serve, Put, Get, Dummy;
    var w := s.workers[0];
    if w.Holding? || w.Missing? {
      ServeMore(start, s.finished, w.request);
      ServeCases(ServeAll(start, s.finished), w.request);
      assert s.finished + [w.request] + s.queue == s.finished + [w.request] + [] + s.queue;
    }
  }

  lemma FreshWorker(before: seq<Worker>, after: seq<Worker>)
    requires |before| <= 1 && |after| == 1 && after[0] == Idle && forall w :: w in before ==> w == Exited
    ensures HeldIn(before) == HeldIn(after) == [] && !after[0].Missing? && (before != [] ==> !before[0].Missing?)
  {
    if before != [] { assert before[0] in before; }
  }

  lemma AskInOrder(start: Bench, s: Server, r: ServerRequest)
    requires InOrder(start, s)
    ensures InOrder(start, Step(s, Ask(r)))
  {
    hide ServeAll;
  }

  lemma PushInOrder(start: Bench, s: Server, r: ServerRequest)
    requires InOrder(start, s)
    ensures InOrder(start, Step(s, Push(r)))
  {
    hide ServeAll;
    Associative(s.finished + HeldIn(s.workers), s.queue, [r]);
  }

  lemma WakeInOrder(start: Bench, s: Server)
    requires InOrder(start, s) && s.workers != []
    ensures InOrder(start, WakeStep(s, 0))
  {
    hide ServeAll;
    if s.queue != [] {
      HeadAndTail(s.queue);
      Associative(s.finished, [s.queue[0]], s.queue[1..]);
      assert s.finished + [] == s.finished;
    }
  }

  lemma EnterInOrder(start: Bench, s: Server)
    requires InOrder(start, s) && s.workers != []
    ensures InOrder(start, EnterStep(s, 0))
  {
    hide ServeAll;
  }

  lemma StartInOrder(start: Bench, s: Server)
    requires InOrder(start, s)
    ensures InOrder(start, Step(s, Start(1)))
  {
    hide ServeAll;
    if !s.running && forall w :: w in s.workers ==> w == Exited {
      FreshWorker(s.workers, seq(1, _ => Idle));
    }
  }

  lemma FlagsInOrder(start: Bench, s: Server, running: bool, shutdown: bool)
    requires InOrder(start, s)
    ensures InOrder(start, s.(running := running, shutdown := shutdown)) && |s.workers| <= 1
  {
    hide ServeAll;
  }

  lemma StepInOrder(start: Bench, s: Server, e: Event)
    requires InOrder(start, s) && (e.Start? ==> e.threads == 1)
    ensures InOrder(start, Step(s, e))
  {
    hide InOrder, ProcessStep, WakeStep, EnterStep;
    FlagsInOrder(start, s, s.running, s.shutdown);
    match e {
      case Start(n) => StartInOrder(start, s);
      case RequestShutdown => FlagsInOrder(start, s, s.running, true);
      case StopRunning => FlagsInOrder(start, s, false, s.shutdown);
      case Ask(r) => AskInOrder(start, s, r);
      case Push(r) => PushInOrder(start, s, r);
      case Enter(w) => if w < |s.workers| { EnterInOrder(start, s); }
      case Wake(w) => if w < |s.workers| { WakeInOrder(start, s); }
      case Process(w) => if w < |s.workers| { ProcessInOrder(start, s); }
    }
  }

  /** With a single worker the server is sequential: whatever the timing, the cache is that of serving in order. */
  lemma {:induction false} OneWorkerIsSequential(capacity: nat, policy: Policy, events: seq<Event>)
    requires forall i :: 0 <= i < |events| && events[i].Start? ==> events[i].threads == 1
    ensures InOrder(Empty(capacity, policy), After(Initial(capacity, policy), events))
  {
    hide Step, InOrder;
    if events == [] {
      NothingServed(capacity, policy);
    } else {
      var pre := events[..|events| - 1];
      OneWorkerIsSequential(capacity, policy, pre);
      StepInOrder(Empty(capacity, policy), After(Initial(capacity, policy), pre), events[|events| - 1]);
    }
  }

  lemma NothingServed(capacity: nat, policy: Policy)
    ensures InOrder(Empty(capacity, policy), Initial(capacity, policy))
  {
  }

  /** The get-else-put requests that GET requests stand for. */
  function AsRequests(reqs: seq<ServerRequest>): seq<Req> {
    if reqs == [] then []
    else
      var r := reqs[|reqs| - 1];
      AsRequests(reqs[..|reqs| - 1]) + [Req(r.key, Dummy(r.key))]
  }

  /** Serving GET requests in order is the get-else-put run over their keys. */
  lemma {:induction false} GetsAreRequests(b: Bench, reqs: seq<ServerRequest>)
    requires forall r :: r in reqs ==> r.operation == "GET"
    ensures ServeAll(b, reqs) == Run(b, AsRequests(reqs))
  {
    hide Request;
    if reqs != [] {
      var pre, r := reqs[..|reqs| - 1], reqs[|reqs| - 1];
      assert r in reqs;
      GetsAreRequests(b, pre);
      var q := AsRequests(pre);
      assert (q + [Req(r.key, Dummy(r.key))])[..|q|] == q;
    }
  }

  /** One worker, LRU, GET requests only: between requests the cache holds the most recently served keys. */
  lemma OneWorkerLru(capacity: nat, events: seq<Event>)
    requires GetsOnly(events) && forall i :: 0 <= i < |events| && events[i].Start? ==> events[i].threads == 1
    ensures var s := After(Initial(capacity, LRU), events);
            (forall w :: w in s.workers ==> !w.Missing?) ==>
            s.cache.lru == Take(RecentFirst(AsRequests(s.finished)), Max(capacity, 1))
  {
    hide Step, Run, RecentFirst, AsRequests, ServeAll;
    var s := After(Initial(capacity, LRU), events);
    OneWorkerIsSequential(capacity, LRU, events);
    AddedAreGets(Initial(capacity, LRU), events);
    assert forall r :: r in s.finished ==> r in s.added;
    GetsAreRequests(Empty(capacity, LRU), s.finished);
    LruHoldsMostRecent(capacity, AsRequests(s.finished));
  }
}
