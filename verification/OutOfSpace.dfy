/** Exactly when adding and growing run out of space, and what a failure leaves behind. */
module OutOfSpace {
  import opened Sequences
  import opened FreeRuns
  import opened CacheModel
  import opened Eviction

  /** The keys that belong to a client. */
  ghost function OwnKeys(s: State, client: string): set<string> {
    set k | k in s.entries && s.entries[k].client == client
  }

  /** t is s without the entries of all other clients; their pages are free, the client's keys keep their order. */
  ghost predicate OthersEvicted(s: State, t: State, client: string) {
    && t.entries.Keys == OwnKeys(s, client)
    && (forall k :: k in t.entries ==> t.entries[k] == s.entries[k])
    && t.free == s.free + HeldByOthers(s, client)
    && t.lru == Keep(s.lru, s.entries.Keys - OwnKeys(s, client))
  }

  /**
   * Room for n >= 1 pages is found exactly when the free pages and those of other clients suffice; when they do
   * not, every other client's entry has been evicted in vain. s may be short of the requester's own pages.
   */
  lemma FindRoomExact(s: State, full: State, n: nat, client: string, hole: set<string>)
    requires Inv(full) && s.entries == full.entries && s.lru == full.lru
    requires Partition(s, s.entries.Keys - hole)
    requires forall k :: k in hole ==> !Evictable(s.entries, k, client)
    ensures var (t, found) := FindRoom(s, n, client);
            && (n == 0 ==> t == s && found == None)
            && (n > 0 ==> (found.None? <==> n > |s.free| + |HeldByOthers(full, client)|))
            && (n > 0 && found.None? ==> OthersEvicted(s, t, client))
  {
    hide Partition, RemoveAll, Keep, HeldByOthers, PagesIn;
    var c := Candidates(s.entries, s.lru, client);
    FindRoomKeeps(s, n, client, hole);
    EvictKeeps(s, n, client, hole);
    EvictionExact(s, n, client);
    CandidatesHold(full, client);
    if n > 0 && FindRoom(s, n, client).1.None? {
      var m := Shortest(s.entries, c, n - |s.free|);
      SumPrefix(s.entries, c, m);
      assert m == |c|;
      assert c[..m] == c;
      AllCandidatesGone(s, full, client);
    }
  }

  lemma AllCandidatesGone(s: State, full: State, client: string)
    requires Inv(full) && s.entries == full.entries && s.lru == full.lru
    ensures OthersEvicted(s, RemoveAll(s, Candidates(s.entries, s.lru, client)), client)
  {
    var c := Candidates(s.entries, s.lru, client);
    CandidateKeys(s, s.lru, client);
    CandidatesHold(full, client);
    assert forall k :: k in s.entries <==> k in Elems(s.lru);
    assert Elems(c) == s.entries.Keys - OwnKeys(s, client);
    assert HeldByOthers(s, client) == HeldByOthers(full, client);
  }

  /**
   * Adding a new key: it fails exactly when the value is empty or its pages exceed the free ones plus those of
   * other clients. A failure for want of pages has evicted every other client; an empty value changes nothing.
   */
  lemma AddExact(s: State, pageSize: nat, k: string, v: string, client: string, now: int)
    requires pageSize > 0 && Inv(s) && k !in s.entries
    ensures var n := PagesNeeded(v, pageSize);
            var (t, r) := AddKey(s, pageSize, k, v, client, now);
            && (r == NoSpace || r == Success)
            && (r == NoSpace <==> n == 0 || n > |s.free| + |HeldByOthers(s, client)|)
            && (r == NoSpace && n == 0 ==> t == s)
            && (r == NoSpace && n > 0 ==> OthersEvicted(s, t, client))
            && (r == Success ==>
                  && k in t.entries && t.entries[k].(pages := []) == Entry(v, [], n, now, client)
                  && |t.entries[k].pages| == n
                  && OwnKeys(t, client) == OwnKeys(s, client) + {k}
                  && forall m :: m in OwnKeys(s, client) ==> t.entries[m] == s.entries[m])
  {
    hide Inv, FindRoom, HeldByOthers, PagesNeeded, Allocate, OthersEvicted;
    var n := PagesNeeded(v, pageSize);
    FindRoomOfInv(s, n, client);
    var (t, found) := FindRoom(s, n, client);
    if found.Some? {
      AllocateTakes(t.free, n);
    }
  }

  /** The same facts about FindRoom where no pages are held back. */
  lemma FindRoomOfInv(s: State, n: nat, client: string)
    requires Inv(s)
    ensures var (t, found) := FindRoom(s, n, client);
            && (n == 0 ==> t == s && found == None)
            && (n > 0 ==> (found.None? <==> n > |s.free| + |HeldByOthers(s, client)|))
            && (n > 0 && found.None? ==> OthersEvicted(s, t, client))
            && found == Allocate(t.free, n)
            && OwnOnly(s, t, client)
  {
    hide Partition, HeldByOthers, Allocate, OthersEvicted, FindRoom;
    assert s.entries.Keys - {} == s.entries.Keys;
    FindRoomExact(s, s, n, client, {});
    FindRoomKeeps(s, n, client, {});
  }

  /**
   * Growing an entry: it fails exactly when the new number of pages exceeds the free ones plus the entry's own
   * plus those of other clients. After a failure the key has its old value, page count and access time, and a
   * chain of that many pages; after a success it has the new ones. No other entry of the client is touched.
   */
  lemma GrowExact(s: State, n: nat, k: string, v: string, client: string, now: int)
    requires Inv(s) && k in s.entries && s.entries[k].client == client && n > s.entries[k].total
    ensures var e := s.entries[k];
            var (t, r) := Grow(s, n, k, v, client, now);
            && (r == NoSpace || r == Success)
            && (r == NoSpace <==> n > |s.free| + e.total + |HeldByOthers(s, client)|)
            && Inv(t) && k in t.entries && |t.entries[k].pages| == t.entries[k].total
            && t.entries[k].(pages := []) == (if r == Success then Entry(v, [], n, now, client) else e.(pages := []))
            && (forall m :: m in OwnKeys(s, client) && m != k ==> m in t.entries && t.entries[m] == s.entries[m])
            && (r == NoSpace ==> t.entries.Keys == OwnKeys(s, client))
            && (r == NoSpace ==> t.lru == Keep(s.lru, s.entries.Keys - OwnKeys(s, client)))
  {
    hide Partition, LruOk, HeldByOthers, FindRoom, Keep, Elems;
    GrowKeeps(s, n, k, v, client, now);
    GrowStages(s, n, k, client);
    var u := Release(s, s.entries[k].pages);
    FindRoomExact(u, s, n, client, {k});
    FindRoomKeeps(u, n, client, {k});
    InvChain(Grow(s, n, k, v, client, now).0, k);
    var (t, found) := FindRoom(u, n, client);
    if found.Some? {
    } else {
      InvChain(s, k);
      RestoreKeeps(t, k);
    }
  }
}
