/**
 * What each operation of the store does, in terms of sizes, owners and recency alone: when it succeeds, which
 * entries go, what becomes of the others, and where its key stands afterwards.
 */
module Operations {
  import opened Sequences
  import opened FreeRuns
  import opened CacheModel
  import opened Eviction
  import opened OutOfSpace

  // ---- Allocation ----

  /** The front of an increasing sequence is below the rest. */
  lemma FrontIsBelow(a: seq<nat>, n: nat, p: nat, q: nat)
    requires Increasing(a) && n <= |a| && p in a[..n] && q in a && q !in a[..n]
    ensures p < q
  {
    var i :| 0 <= i < n && a[..n][i] == p;
    var j :| 0 <= j < |a| && a[j] == q;
    assert forall x :: 0 <= x < n ==> a[x] == a[..n][x] && a[..n][x] in a[..n];
    assert j >= n;
  }

  /** Allocation succeeds exactly for 1 to |free| pages; it takes that many, in order, and leaves none lower. */
  lemma AllocatesLowest(free: set<nat>, n: nat)
    ensures Allocate(free, n).Some? <==> 1 <= n <= |free|
    ensures Allocate(free, n).Some? ==>
              var ps := Allocate(free, n).value;
              && |ps| == n && Increasing(ps) && Elems(ps) <= free
              && forall p, q :: p in ps && q in free && q !in ps ==> p < q
  {
    if Allocate(free, n).Some? {
      AllocateTakes(free, n);
      var a := Ascending(free);
      hide Increasing, Ascending, Allocate, NoDup;
      forall p, q | p in a[..n] && q in free && q !in a[..n] ensures p < q {
        assert q in Elems(a);
        FrontIsBelow(a, n, p, q);
      }
    }
  }

  // ---- Who has to go ----

  /**
   * The keys that have to go for a client's n pages: other clients' keys, least recently used first, as few as
   * cover what is missing, or all of them if they cannot.
   */
  ghost function Leaving(s: State, n: int, client: string): seq<string> {
    var c := Candidates(s.entries, s.lru, client);
    c[..Shortest(s.entries, c, n - |s.free|)]
  }

  ghost predicate Falls(rank: map<string, int>, ks: seq<string>) {
    && (forall k :: k in ks ==> k in rank)
    && forall i, j :: 0 <= i < j < |ks| ==> rank[ks[i]] > rank[ks[j]]
  }

  ghost predicate Rises(rank: map<string, int>, ks: seq<string>) {
    && (forall k :: k in ks ==> k in rank)
    && forall i, j :: 0 <= i < j < |ks| ==> rank[ks[i]] < rank[ks[j]]
  }

  lemma FallsLast(rank: map<string, int>, ks: seq<string>)
    requires Falls(rank, ks) && ks != []
    ensures Falls(rank, ks[..|ks| - 1]) && ks[|ks| - 1] in rank
    ensures forall k :: k in ks[..|ks| - 1] ==> rank[k] > rank[ks[|ks| - 1]]
  {
    var n := |ks| - 1;
    forall k | k in ks[..n] ensures k in ks && rank[k] > rank[ks[n]] {
      var i :| 0 <= i < n && ks[..n][i] == k;
      assert ks[i] == k;
    }
  }

  lemma RisesWith(rank: map<string, int>, k: string, ks: seq<string>)
    requires Rises(rank, ks) && k in rank && forall x :: x in ks ==> rank[k] < rank[x]
    ensures Rises(rank, [k] + ks)
  {
  }

  /** Whatever the recency list falls by, the candidates rise by: the least recently used come first. */
  lemma {:induction false} CandidatesRise(entries: map<string, Entry>, ks: seq<string>, client: string, rank: map<string, int>)
    requires Falls(rank, ks)
    ensures Rises(rank, Candidates(entries, ks, client))
  {
    hide Falls, Rises;
    if ks == [] {
      NothingRises(rank);
    } else {
      var pre, k := ks[..|ks| - 1], ks[|ks| - 1];
      FallsLast(rank, ks);
      CandidatesRise(entries, pre, client, rank);
      CandidatesAgree(entries, entries, pre, client);
      if Evictable(entries, k, client) {
        RisesWith(rank, k, Candidates(entries, pre, client));
        CandidatesEnd(entries, ks, client);
      } else {
        assert Candidates(entries, ks, client) == Candidates(entries, pre, client);
      }
    }
  }

  lemma NothingRises(rank: map<string, int>)
    ensures Rises(rank, [])
  {
  }

  /** No key goes that should not: victims belong to other clients, and none goes when n pages are free. */
  lemma VictimsAreOthers(s: State, n: int, client: string)
    requires LruOk(s)
    ensures NoDup(Leaving(s, n, client)) && (n <= |s.free| ==> Leaving(s, n, client) == [])
    ensures forall k :: k in Leaving(s, n, client) ==> k in s.entries && s.entries[k].client != client
  {
    CandidateKeys(s, s.lru, client);
  }

  /** Looking for room removes exactly the victims and nothing else. */
  lemma FindRoomRemoves(s: State, n: nat, client: string)
    requires LruOk(s)
    ensures FindRoom(s, n, client).0 == RemoveAll(s, Leaving(s, n, client))
  {
    hide RemoveAll, Candidates;
    if n <= |s.free| {
      NothingRemoved(s);
    } else {
      EvictionExact(s, n, client);
    }
  }

  /** The keys in gone are gone; every other entry is as it was, but for key k; the others keep their order. */
  ghost predicate OnlyGone(s: State, t: State, gone: seq<string>, k: string) {
    && t.entries.Keys - {k} == s.entries.Keys - Elems(gone) - {k}
    && (forall j :: j in t.entries && j != k ==> j in s.entries && t.entries[j] == s.entries[j])
    && Without(t.lru, k) == Without(Keep(s.lru, Elems(gone)), k)
  }

  // ---- Add ----

  /**
   * Adding a new key succeeds exactly for a value that is not empty and fits in the free pages and those of other
   * clients. Exactly the victims go, on success as on failure. On success the key is stored in the least number of
   * pages that the value fits in, and stands first.
   */
  lemma AddKeyExact(s: State, pageSize: nat, k: string, v: string, client: string, now: int)
    requires pageSize > 0 && Inv(s) && k !in s.entries
    ensures var (t, r) := AddKey(s, pageSize, k, v, client, now);
            var n := PagesNeeded(v, pageSize);
            && (r == Success || r == NoSpace)
            && (r == Success <==> v != "" && Fits(v, |s.free| + |HeldByOthers(s, client)|, pageSize))
            && OnlyGone(s, t, Leaving(s, n, client), k) && (v == "" ==> t == s)
            && (k in t.entries <==> r == Success)
            && (r == Success ==>
                  && t.entries[k] == Entry(v, t.entries[k].pages, n, now, client) && |t.entries[k].pages| == n
                  && t.lru != [] && t.lru[0] == k)
  {
    hide Partition, RemoveAll, Leaving, HeldByOthers, Fits, Keep, Elems;
    var n := PagesNeeded(v, pageSize);
    PagesAreLeast(v, pageSize);
    AddExact(s, pageSize, k, v, client, now);
    FindRoomRemoves(s, n, client);
    GoneFrom(s, Leaving(s, n, client), k);
    var (t, found) := FindRoom(s, n, client);
    if found.Some? { WithoutFront(t.lru, k); }
  }

  lemma WithoutFront(ks: seq<string>, k: string)
    ensures Without(MoveToFront(ks, k), k) == Without(ks, k)
  {
  }

  lemma GoneFrom(s: State, gone: seq<string>, k: string)
    ensures OnlyGone(s, RemoveAll(s, gone), gone, k)
  {
    assert RemoveAll(s, gone).entries.Keys == s.entries.Keys - Elems(gone);
  }

  // ---- Update, get, delete ----

  /** Key k was used now: it stands first, once, the others in their old order; no page moved, no other entry changed. */
  ghost predicate Used(s: State, t: State, k: string, now: int) {
    && t.entries.Keys == s.entries.Keys && t.free == s.free && t.size == s.size
    && (forall j :: j in s.entries && j != k ==> t.entries[j] == s.entries[j])
    && k in t.entries && t.entries[k].access == now
    && NoDup(t.lru) && t.lru != [] && t.lru[0] == k && Without(t.lru, k) == Without(s.lru, k)
  }

  /** The same entry but for value and access time: owner, page count and every page of the chain are as before. */
  ghost predicate SameHolding(a: Entry, b: Entry) { b.client == a.client && b.total == a.total && b.pages == a.pages }

  lemma TouchIsUse(s: State, k: string, v: string, now: int)
    requires Inv(s) && k in s.entries
    ensures var t := Touch(s, k, v, now);
            Used(s, t, k, now) && t.entries[k].value == v && SameHolding(s.entries[k], t.entries[k])
  {
    MoveToFrontProps(s.lru, k);
    WithoutFront(s.lru, k);
  }

  /** A get succeeds exactly for the owner, returns the value, and uses the key without changing its entry otherwise. */
  lemma GetExact(s: State, k: string, client: string, now: int)
    requires Inv(s)
    ensures var (t, r, value) := GetKey(s, k, client, now);
            && (r == KeyNotFound <==> k !in s.entries)
            && (r == ClientMismatch <==> k in s.entries && s.entries[k].client != client)
            && (r == Success <==> k in s.entries && s.entries[k].client == client)
            && (r == Success ==>
                  && value == Some(s.entries[k].value) && Used(s, t, k, now)
                  && t.entries[k].value == s.entries[k].value && SameHolding(s.entries[k], t.entries[k]))
            && (r != Success ==> t == s && value == None)
  {
    hide Touch, Used;
    if k in s.entries && s.entries[k].client == client {
      TouchIsUse(s, k, s.entries[k].value, now);
    }
  }

  /** An update whose value fits in the pages held always succeeds, in place: the chain stays as it is. */
  lemma UpdateInPlaceExact(s: State, pageSize: nat, k: string, v: string, client: string, now: int)
    requires pageSize > 0 && Inv(s) && k in s.entries && s.entries[k].client == client
    requires Fits(v, s.entries[k].total, pageSize)
    ensures var (t, r) := UpdateKey(s, pageSize, k, v, client, now);
            && r == Success && Used(s, t, k, now)
            && t.entries[k].value == v && SameHolding(s.entries[k], t.entries[k])
  {
    hide Touch, Used, Grow;
    PagesAreLeast(v, pageSize);
    InvChain(s, k);
    TouchIsUse(s, k, v, now);
  }

  /**
   * An update whose value does not fit in the pages held succeeds exactly when it fits in the free pages, the key's
   * own and those of other clients. Exactly the victims go that the least number of pages asks for, once the key's
   * own are free again. On success the key has the new value, that number of pages and the access time, and stands
   * first; on failure it has its old value, page count and access time, and its place among the others.
   */
  lemma UpdateGrowingExact(s: State, pageSize: nat, k: string, v: string, client: string, now: int)
    requires pageSize > 0 && Inv(s) && k in s.entries && s.entries[k].client == client
    requires !Fits(v, s.entries[k].total, pageSize)
    ensures var (t, r) := UpdateKey(s, pageSize, k, v, client, now);
            var n, e := PagesNeeded(v, pageSize), s.entries[k];
            var gone := Leaving(s, n - e.total, client);
            && (r == Success || r == NoSpace)
            && (r == Success <==> Fits(v, |s.free| + e.total + |HeldByOthers(s, client)|, pageSize))
            && OnlyGone(s, t, gone, k) && k in t.entries && |t.entries[k].pages| == t.entries[k].total
            && (r == Success ==>
                  && t.entries[k] == Entry(v, t.entries[k].pages, n, now, client) && t.lru != [] && t.lru[0] == k)
            && (r == NoSpace ==>
                  && t.entries[k] == e.(pages := t.entries[k].pages) && t.lru == Keep(s.lru, Elems(gone)))
  {
    hide Partition, RemoveAll, HeldByOthers, Fits, Keep, Elems, Candidates, FindRoom;
    var n, u := PagesNeeded(v, pageSize), Release(s, s.entries[k].pages);
    PagesAreLeast(v, pageSize);
    GrowExact(s, n, k, v, client, now);
    GrowStages(s, n, k, client);
    FindRoomRemoves(u, n, client);
    SameVictims(s, u, k, n, client);
    GoneGrowing(s, u, Leaving(u, n, client), k);
    var (x, found) := FindRoom(u, n, client);
    WithoutFront(x.lru, k);
  }

  /** With the key's own pages free, fewer are missing; the candidates are the same. */
  lemma SameVictims(s: State, u: State, k: string, n: nat, client: string)
    requires Inv(s) && k in s.entries && u == Release(s, s.entries[k].pages)
    requires |u.free| == |s.free| + s.entries[k].total
    ensures Leaving(u, n, client) == Leaving(s, n - s.entries[k].total, client)
  {
    hide Candidates, Shortest, Inv, Elems;
  }

  lemma GoneGrowing(s: State, u: State, gone: seq<string>, k: string)
    requires u.entries == s.entries && u.lru == s.lru
    ensures OnlyGone(s, RemoveAll(u, gone), gone, k) && RemoveAll(u, gone).lru == Keep(s.lru, Elems(gone))
  {
    assert RemoveAll(u, gone).entries.Keys == s.entries.Keys - Elems(gone);
  }

  /** A delete succeeds exactly for the owner; exactly its key goes and exactly its pages are free. */
  lemma DeleteExact(s: State, k: string, client: string)
    requires Inv(s)
    ensures var (t, r) := DeleteKey(s, k, client);
            && (r == KeyNotFound <==> k !in s.entries)
            && (r == ClientMismatch <==> k in s.entries && s.entries[k].client != client)
            && (r == Success <==> k in s.entries && s.entries[k].client == client)
            && (r == Success ==>
                  && OnlyGone(s, t, [], k) && k !in t.entries && k !in t.lru
                  && t.free == s.free + Elems(s.entries[k].pages))
            && (r != Success ==> t == s)
  {
    if k in s.entries && s.entries[k].client == client {
      WithoutProps(s.lru, k);
      ElemsOfEmpty<string>([]);
      KeepAll(s.lru);
      var t := DeleteKey(s, k, client).0;
      assert k !in Elems(t.lru);
      WithoutAbsent(t.lru, k);
    }
  }

  /** Adding a key that is there, or updating one that is not or that another client holds, changes nothing at all. */
  lemma RefusedChangesNothing(s: State, pageSize: nat, k: string, v: string, client: string, now: int)
    requires pageSize > 0
    ensures k in s.entries <==> AddKey(s, pageSize, k, v, client, now).1 == KeyExists
    ensures k in s.entries ==> AddKey(s, pageSize, k, v, client, now).0 == s
    ensures k !in s.entries <==> UpdateKey(s, pageSize, k, v, client, now).1 == KeyNotFound
    ensures k in s.entries && s.entries[k].client != client <==> UpdateKey(s, pageSize, k, v, client, now).1 == ClientMismatch
    ensures !(k in s.entries && s.entries[k].client == client) ==> UpdateKey(s, pageSize, k, v, client, now).0 == s
  {
  }
}
