/**
 * The paged cache as a value: which pages are free, what each key holds, and the recency list. The functions
 * here are the specifications of the methods of class PagedCache; what they guarantee is proved about them
 * in this module and in Eviction, OutOfSpace and CacheRuns.
 */
module CacheModel {
  import opened Sequences
  import opened FreeRuns

  datatype Outcome = Success | KeyExists | KeyNotFound | NoSpace | ClientMismatch

  datatype Entry = Entry(value: string, pages: seq<nat>, total: nat, access: int, client: string)

  datatype State = State(size: nat, free: set<nat>, entries: map<string, Entry>, lru: seq<string>)

  function PagesNeeded(value: string, pageSize: nat): nat
    requires pageSize > 0
  {
    (|value| + pageSize - 1) / pageSize
  }

  /** The value fits in this many pages. */
  predicate Fits(value: string, pages: int, pageSize: nat) { |value| <= pages * pageSize }

  /** The page count of a value is the least that it fits in; so it is zero for the empty value alone. */
  lemma PagesAreLeast(value: string, pageSize: nat)
    requires pageSize > 0
    ensures Fits(value, PagesNeeded(value, pageSize), pageSize)
    ensures forall m: nat :: Fits(value, m, pageSize) <==> PagesNeeded(value, pageSize) <= m
    ensures PagesNeeded(value, pageSize) == 0 <==> value == ""
  {
    var n, x := PagesNeeded(value, pageSize), |value| + pageSize - 1;
    assert x == n * pageSize + x % pageSize;
    forall m: nat ensures Fits(value, m, pageSize) <==> n <= m {
      if n <= m { TimesMonotone(n, m, pageSize); } else { TimesMonotone(m, n - 1, pageSize); }
    }
    assert Fits(value, 0, pageSize) <==> value == "";
  }

  lemma TimesMonotone(a: int, b: int, p: nat)
    requires a <= b
    ensures a * p <= b * p
  {
    assert (b - a) * p >= 0;
  }

  ghost function AllPages(n: nat): set<nat> { Elems(Range(0, n)) }

  lemma AllPagesMember(n: nat)
    ensures forall p: nat :: p in AllPages(n) <==> p < n
  {
    forall p: nat ensures p in AllPages(n) <==> p < n {
      if p < n { assert Range(0, n)[p] == p; }
    }
  }

  // ---- Allocation and eviction ----

  /** The n lowest free pages, or None when n is zero or too many. */
  ghost function Allocate(free: set<nat>, n: nat): Option<seq<nat>> {
    if 0 < n <= |free| then Some(Ascending(free)[..n]) else None
  }

  ghost function Release(s: State, pages: seq<nat>): State { s.(free := s.free + Elems(pages)) }

  ghost function Forgotten(s: State, k: string, order: seq<string>): State {
    s.(entries := s.entries - {k}, lru := order)
  }

  /** Evicting the key at position i of the recency list. */
  ghost function Drop(s: State, i: nat): State
    requires i < |s.lru| && s.lru[i] in s.entries
  {
    Forgotten(Release(s, s.entries[s.lru[i]].pages), s.lru[i], s.lru[..i] + s.lru[i + 1..])
  }

  predicate Evictable(entries: map<string, Entry>, k: string, client: string) {
    k in entries && entries[k].client != client
  }

  /** Walks the recency list from position i towards the front; returns the pages still missing. */
  ghost function EvictFrom(s: State, i: nat, deficit: int, client: string): (State, int)
    requires i <= |s.lru|
    decreases i
  {
    if i == 0 || deficit <= 0 then (s, deficit)
    else
      var k := s.lru[i - 1];
      if Evictable(s.entries, k, client) then
        EvictFrom(Drop(s, i - 1), i - 1, deficit - s.entries[k].total, client)
      else
        EvictFrom(s, i - 1, deficit, client)
  }

  ghost function Evict(s: State, need: nat, client: string): (State, bool) {
    if |s.free| >= need then (s, true)
    else
      var (r, missing) := EvictFrom(s, |s.lru|, need - |s.free|, client);
      (r, missing <= 0)
  }

  // ---- The four operations ----

  ghost function Taken(s: State, pages: seq<nat>): State { s.(free := s.free - Elems(pages)) }

  ghost function Rewritten(s: State, k: string, e: Entry): State { s.(entries := s.entries[k := e]) }

  ghost function MovedUp(s: State, k: string): State { s.(lru := MoveToFront(s.lru, k)) }

  /** Key k takes its pages from the free ones. */
  ghost function Hand(s: State, k: string, e: Entry): State { Rewritten(Taken(s, e.pages), k, e) }

  /** The same, and key k becomes the most recently used. */
  ghost function Store(s: State, k: string, e: Entry): State { MovedUp(Hand(s, k, e), k) }

  /** Allocate; failing that evict and allocate again. The pages found are still free in the state returned. */
  ghost function FindRoom(s: State, n: nat, client: string): (State, Option<seq<nat>>) {
    if Allocate(s.free, n).Some? then (s, Allocate(s.free, n))
    else
      var (t, room) := Evict(s, n, client);
      (t, if room then Allocate(t.free, n) else None)
  }

  ghost function AddKey(s: State, pageSize: nat, k: string, v: string, client: string, now: int): (State, Outcome)
    requires pageSize > 0
  {
    if k in s.entries then (s, KeyExists)
    else
      var n := PagesNeeded(v, pageSize);
      match FindRoom(s, n, client)
      case (t, Some(ps)) => (Store(t, k, Entry(v, ps, n, now, client)), Success)
      case (t, None) => (t, NoSpace)
  }

  /** After a growing update found no room: the old number of pages is taken back, if it can be. */
  ghost function Restore(s: State, k: string): State
    requires k in s.entries
  {
    match Allocate(s.free, s.entries[k].total)
    case Some(ps) => Hand(s, k, s.entries[k].(pages := ps))
    case None => s
  }

  /** A growing update: the old pages go back first, then room is sought, and the old number is the fallback. */
  ghost function Grow(s: State, n: nat, k: string, v: string, client: string, now: int): (State, Outcome)
    requires k in s.entries && s.entries[k].client == client
  {
    var t := Release(s, s.entries[k].pages);
    OwnEntriesStay(t, n, client);
    match FindRoom(t, n, client)
    case (u, Some(ps)) => (Store(u, k, Entry(v, ps, n, now, client)), Success)
    case (u, None) => (Restore(u, k), NoSpace)
  }

  ghost function UpdateKey(s: State, pageSize: nat, k: string, v: string, client: string, now: int): (State, Outcome)
    requires pageSize > 0
  {
    if k !in s.entries then (s, KeyNotFound)
    else if s.entries[k].client != client then (s, ClientMismatch)
    else
      var n := PagesNeeded(v, pageSize);
      if n <= s.entries[k].total then (Touch(s, k, v, now), Success) else Grow(s, n, k, v, client, now)
  }

  /** New value and access time, same pages, most recently used. */
  ghost function Touch(s: State, k: string, v: string, now: int): State
    requires k in s.entries
  {
    MovedUp(Rewritten(s, k, s.entries[k].(value := v, access := now)), k)
  }

  ghost function GetKey(s: State, k: string, client: string, now: int): (State, Outcome, Option<string>) {
    if k !in s.entries then (s, KeyNotFound, None)
    else if s.entries[k].client != client then (s, ClientMismatch, None)
    else (Touch(s, k, s.entries[k].value, now), Success, Some(s.entries[k].value))
  }

  ghost function DeleteKey(s: State, k: string, client: string): (State, Outcome) {
    if k !in s.entries then (s, KeyNotFound)
    else if s.entries[k].client != client then (s, ClientMismatch)
    else (Forgotten(Release(s, s.entries[k].pages), k, Without(s.lru, k)), Success)
  }

  /** Eviction never touches an entry of the requesting client. */
  lemma {:induction false} OwnEntriesStayFrom(s: State, i: nat, deficit: int, client: string)
    requires i <= |s.lru|
    ensures var r := EvictFrom(s, i, deficit, client).0;
            && r.size == s.size
            && (forall k :: k in r.entries ==> k in s.entries && r.entries[k] == s.entries[k])
            && (forall k :: k in s.entries && s.entries[k].client == client ==> k in r.entries)
    decreases i
  {
    if i != 0 && deficit > 0 {
      var k := s.lru[i - 1];
      if Evictable(s.entries, k, client) {
        OwnEntriesStayFrom(Drop(s, i - 1), i - 1, deficit - s.entries[k].total, client);
      } else {
        OwnEntriesStayFrom(s, i - 1, deficit, client);
      }
    }
  }

  lemma OwnEntriesStay(s: State, need: nat, client: string)
    ensures var r := Evict(s, need, client).0;
            && r.size == s.size
            && (forall k :: k in r.entries ==> k in s.entries && r.entries[k] == s.entries[k])
            && (forall k :: k in s.entries && s.entries[k].client == client ==> k in r.entries)
  {
    if |s.free| < need {
      OwnEntriesStayFrom(s, |s.lru|, need - |s.free|, client);
    }
  }

  // ---- The invariant ----

  ghost predicate Owns(s: State, k: string, p: nat) { k in s.entries && p in s.entries[k].pages }

  /** The chain of key k: as long as its page count says, at least one page, no page twice, none of them free. */
  ghost predicate ChainOk(s: State, k: string)
    requires k in s.entries
  {
    var e := s.entries[k];
    && e.total == |e.pages| >= 1
    && NoDup(e.pages)
    && forall p :: p in e.pages ==> p < s.size && p !in s.free
  }

  /** The free pages and the chains of the keys in ks partition the pages 0..size. */
  ghost predicate Partition(s: State, ks: set<string>) {
    && ks <= s.entries.Keys
    && (forall p :: p in s.free ==> p < s.size)
    && (forall k :: k in ks ==> ChainOk(s, k))
    && (forall k, m, p :: k in ks && m in ks && Owns(s, k, p) && Owns(s, m, p) ==> k == m)
    && (forall p: nat :: p < s.size && p !in s.free ==> exists k :: k in ks && Owns(s, k, p))
  }

  /** The recency list holds exactly the keys, each once. */
  ghost predicate LruOk(s: State) { NoDup(s.lru) && Elems(s.lru) == s.entries.Keys }

  ghost predicate Inv(s: State) { LruOk(s) && Partition(s, s.entries.Keys) }

  lemma PartitionChain(s: State, ks: set<string>, k: string)
    requires Partition(s, ks) && k in ks
    ensures ChainOk(s, k)
  {
  }

  lemma InvChain(s: State, k: string)
    requires Inv(s) && k in s.entries
    ensures ChainOk(s, k)
  {
  }

  /** Returning the pages of one key leaves a partition among the others. */
  lemma ReleaseKeeps(s: State, ks: set<string>, k: string)
    requires Partition(s, ks) && k in ks
    ensures Partition(Release(s, s.entries[k].pages), ks - {k})
    ensures |Release(s, s.entries[k].pages).free| == |s.free| + s.entries[k].total
  {
    var ps := s.entries[k].pages;
    var t := Release(s, ps);
    CardElems(ps);
    assert s.free !! Elems(ps);
    forall m | m in ks - {k} ensures ChainOk(t, m) {
      assert ChainOk(s, m);
      forall p | p in t.entries[m].pages ensures p < t.size && p !in t.free {
        assert Owns(s, m, p);
        assert Owns(s, k, p) <==> p in ps;
      }
    }
    forall p: nat | p < t.size && p !in t.free ensures exists m :: m in ks - {k} && Owns(t, m, p) {
      var m :| m in ks && Owns(s, m, p);
      assert Owns(t, m, p);
    }
    forall m, q, p | m in ks - {k} && q in ks - {k} && Owns(t, m, p) && Owns(t, q, p) ensures m == q {
      assert Owns(s, m, p) && Owns(s, q, p);
    }
  }

  /** A successful allocation takes n distinct free pages. */
  lemma AllocateTakes(free: set<nat>, n: nat)
    requires Allocate(free, n).Some?
    ensures var ps := Allocate(free, n).value;
            |ps| == n && NoDup(ps) && Elems(ps) <= free && |free - Elems(ps)| == |free| - n
  {
    var a := Ascending(free);
    IncreasingNoDup(a);
    var ps := a[..n];
    CardElems(ps);
    assert Elems(ps) <= free by {
      forall p | p in ps ensures p in free { assert p in a; assert p in Elems(a); }
    }
  }

  /** Giving freshly allocated pages to a key outside the partition brings it in. */
  lemma AllocateKeeps(s: State, ks: set<string>, n: nat, k: string, e: Entry)
    requires Partition(s, ks) && k !in ks && Allocate(s.free, n).Some?
    requires e.pages == Allocate(s.free, n).value && e.total == n
    ensures Partition(Hand(s, k, e), ks + {k})
    ensures |Hand(s, k, e).free| == |s.free| - n
  {
    AllocateTakes(s.free, n);
    HandKeeps(s, ks, k, e);
  }

  lemma HandKeeps(s: State, ks: set<string>, k: string, e: Entry)
    requires Partition(s, ks) && k !in ks
    requires e.total == |e.pages| >= 1 && NoDup(e.pages) && Elems(e.pages) <= s.free
    ensures Partition(Hand(s, k, e), ks + {k})
  {
    var t := Hand(s, k, e);
    assert forall p :: p in e.pages ==> p in Elems(e.pages);
    forall m | m in ks + {k} ensures ChainOk(t, m) {
      if m != k { assert ChainOk(s, m); }
    }
    HandOwners(s, ks, k, e);
    forall p: nat | p < t.size && p !in t.free ensures exists m :: m in ks + {k} && Owns(t, m, p) {
      if p in s.free {
        assert Owns(t, k, p);
      } else {
        var m :| m in ks && Owns(s, m, p);
        assert Owns(t, m, p);
      }
    }
  }

  lemma HandOwners(s: State, ks: set<string>, k: string, e: Entry)
    requires Partition(s, ks) && k !in ks && Elems(e.pages) <= s.free
    ensures var t := Hand(s, k, e);
            forall m, q, p :: m in ks + {k} && q in ks + {k} && Owns(t, m, p) && Owns(t, q, p) ==> m == q
  {
    var t := Hand(s, k, e);
    forall m, p | m in ks && Owns(t, m, p) ensures Owns(s, m, p) && p !in e.pages {
      assert Owns(s, m, p) && ChainOk(s, m);
      assert p in e.pages ==> p in Elems(e.pages);
    }
  }

  /** Dropping a key of the partition keeps the partition of the rest and the recency list. */
  lemma DropKeeps(s: State, i: nat, ks: set<string>)
    requires LruOk(s) && i < |s.lru| && s.lru[i] in ks && Partition(s, ks)
    ensures LruOk(Drop(s, i)) && Partition(Drop(s, i), ks - {s.lru[i]})
    ensures |Drop(s, i).free| == |s.free| + s.entries[s.lru[i]].total
  {
    var k := s.lru[i];
    ReleaseKeeps(s, ks, k);
    WithoutProps(s.lru, k);
    WithoutAt(s.lru, i);
    assert Drop(s, i).entries.Keys == s.entries.Keys - {k};
    EntriesAway(Release(s, s.entries[k].pages), ks - {k}, Drop(s, i));
  }

  predicate SameChain(a: Entry, b: Entry) { a.pages == b.pages && a.total == b.total }

  /** A partition reads only the entries of its keys. */
  lemma EntriesAway(s: State, ks: set<string>, t: State)
    requires Partition(s, ks) && t.size == s.size && t.free == s.free
    requires forall k :: k in ks ==> k in t.entries && SameChain(s.entries[k], t.entries[k])
    ensures Partition(t, ks)
  {
    forall k | k in ks ensures ChainOk(t, k) { assert ChainOk(s, k); }
    forall p: nat | p < t.size && p !in t.free ensures exists m :: m in ks && Owns(t, m, p) {
      var m :| m in ks && Owns(s, m, p);
      assert Owns(t, m, p);
    }
    forall m, q, p | m in ks && q in ks && Owns(t, m, p) && Owns(t, q, p) ensures m == q {
      assert Owns(s, m, p) && Owns(s, q, p);
    }
  }

  lemma DropKeepsHole(s: State, i: nat, client: string, hole: set<string>)
    requires LruOk(s) && Partition(s, s.entries.Keys - hole) && i < |s.lru|
    requires Evictable(s.entries, s.lru[i], client)
    requires forall k :: k in hole ==> !Evictable(s.entries, k, client)
    ensures LruOk(Drop(s, i)) && Partition(Drop(s, i), Drop(s, i).entries.Keys - hole)
    ensures forall k :: k in hole ==> !Evictable(Drop(s, i).entries, k, client)
    ensures |Drop(s, i).free| == |s.free| + s.entries[s.lru[i]].total
  {
    hide Partition, LruOk;
    DropKeeps(s, i, s.entries.Keys - hole);
    assert Drop(s, i).entries.Keys - hole == s.entries.Keys - hole - {s.lru[i]};
  }

  lemma EvictStep(s: State, i: nat, deficit: int, client: string)
    requires 0 < i <= |s.lru| && deficit > 0
    ensures EvictFrom(s, i, deficit, client)
         == if Evictable(s.entries, s.lru[i - 1], client)
            then EvictFrom(Drop(s, i - 1), i - 1, deficit - s.entries[s.lru[i - 1]].total, client)
            else EvictFrom(s, i - 1, deficit, client)
  {
  }

  lemma EvictDone(s: State, i: nat, deficit: int, client: string)
    requires i <= |s.lru| && (i == 0 || deficit <= 0)
    ensures EvictFrom(s, i, deficit, client) == (s, deficit)
  {
  }

  /**
   * Eviction keeps the recency list and the partition, also while keys of the requester are left out, and
   * every page it claims to have freed is free afterwards.
   */
  lemma {:induction false} EvictFromKeeps(s: State, i: nat, deficit: int, client: string, hole: set<string>)
    requires LruOk(s) && Partition(s, s.entries.Keys - hole) && i <= |s.lru|
    requires forall k :: k in hole ==> !Evictable(s.entries, k, client)
    ensures var (r, missing) := EvictFrom(s, i, deficit, client);
            && LruOk(r) && Partition(r, r.entries.Keys - hole)
            && |r.free| + missing == |s.free| + deficit
    decreases i
  {
    hide Partition, LruOk, EvictFrom;
    if i == 0 || deficit <= 0 {
      EvictDone(s, i, deficit, client);
    } else {
      var k := s.lru[i - 1];
      EvictStep(s, i, deficit, client);
      if Evictable(s.entries, k, client) {
        DropKeepsHole(s, i - 1, client, hole);
        EvictFromKeeps(Drop(s, i - 1), i - 1, deficit - s.entries[k].total, client, hole);
      } else {
        EvictFromKeeps(s, i - 1, deficit, client, hole);
      }
    }
  }

  lemma {:induction false} EvictOnlyFrees(s: State, i: nat, deficit: int, client: string)
    requires i <= |s.lru|
    ensures s.free <= EvictFrom(s, i, deficit, client).0.free
    ensures |s.free| <= |EvictFrom(s, i, deficit, client).0.free|
    decreases i
  {
    if i != 0 && deficit > 0 {
      var k := s.lru[i - 1];
      if Evictable(s.entries, k, client) {
        EvictOnlyFrees(Drop(s, i - 1), i - 1, deficit - s.entries[k].total, client);
      } else {
        EvictOnlyFrees(s, i - 1, deficit, client);
      }
      SubsetCard(s.free, EvictFrom(s, i, deficit, client).0.free);
    }
  }

  lemma EvictKeeps(s: State, need: nat, client: string, hole: set<string>)
    requires LruOk(s) && Partition(s, s.entries.Keys - hole)
    requires forall k :: k in hole ==> !Evictable(s.entries, k, client)
    ensures var (r, room) := Evict(s, need, client);
            && LruOk(r) && Partition(r, r.entries.Keys - hole)
            && (room <==> |r.free| >= need) && |s.free| <= |r.free|
  {
    if |s.free| < need {
      EvictFromKeeps(s, |s.lru|, need - |s.free|, client, hole);
      EvictOnlyFrees(s, |s.lru|, need - |s.free|, client);
    }
  }

  // ---- Every operation keeps the invariant ----

  /** Storing freshly allocated pages under a key that holds none restores the invariant. */
  lemma StoreKeeps(s: State, k: string, e: Entry)
    requires LruOk(s) && Partition(s, s.entries.Keys - {k})
    requires Allocate(s.free, e.total) == Some(e.pages)
    ensures Inv(Store(s, k, e))
  {
    hide Partition, ChainOk, Allocate, MoveToFront, Elems;
    AllocateKeeps(s, s.entries.Keys - {k}, e.total, k, e);
    MoveToFrontProps(s.lru, k);
    var t := Store(s, k, e);
    assert s.entries.Keys - {k} + {k} == t.entries.Keys;
    EntriesAway(Hand(s, k, e), t.entries.Keys, t);
  }

  /**
   * Looking for room keeps the recency list and the partition; it comes back empty-handed only when even the
   * pages of all other clients do not help (or when no page was asked for).
   */
  lemma FindRoomKeeps(s: State, n: nat, client: string, hole: set<string>)
    requires LruOk(s) && Partition(s, s.entries.Keys - hole)
    requires forall k :: k in hole ==> !Evictable(s.entries, k, client)
    ensures var (t, found) := FindRoom(s, n, client);
            && LruOk(t) && Partition(t, t.entries.Keys - hole)
            && found == Allocate(t.free, n) && |s.free| <= |t.free|
    ensures OwnOnly(s, FindRoom(s, n, client).0, client)
  {
    EvictKeeps(s, n, client, hole);
    OwnEntriesStay(s, n, client);
  }

  /** Once eviction has reported room for at least one page, the allocation that follows succeeds. */
  lemma RoomSuffices(s: State, n: nat, client: string, hole: set<string>)
    requires LruOk(s) && Partition(s, s.entries.Keys - hole) && n >= 1
    requires forall k :: k in hole ==> !Evictable(s.entries, k, client)
    ensures var (t, room) := Evict(s, n, client);
            room ==> Allocate(t.free, n).Some?
  {
    hide Partition, LruOk, Evict;
    EvictKeeps(s, n, client, hole);
  }

  /** t keeps every entry of the client and adds or alters none. */
  ghost predicate OwnOnly(s: State, t: State, client: string) {
    && t.size == s.size
    && (forall k :: k in t.entries ==> k in s.entries && t.entries[k] == s.entries[k])
    && (forall k :: k in s.entries && s.entries[k].client == client ==> k in t.entries)
  }

  lemma AddKeeps(s: State, pageSize: nat, k: string, v: string, client: string, now: int)
    requires pageSize > 0 && Inv(s)
    ensures Inv(AddKey(s, pageSize, k, v, client, now).0)
  {
    hide LruOk, Partition, FindRoom;
    if k !in s.entries {
      var n := PagesNeeded(v, pageSize);
      assert s.entries.Keys - {} == s.entries.Keys;
      FindRoomKeeps(s, n, client, {});
      var (t, found) := FindRoom(s, n, client);
      assert t.entries.Keys - {} == t.entries.Keys == t.entries.Keys - {k};
      if found.Some? {
        StoreKeeps(t, k, Entry(v, found.value, n, now, client));
      }
    }
  }

  /** New value and access time on the same pages. */
  lemma TouchKeeps(s: State, k: string, v: string, now: int)
    requires Inv(s) && k in s.entries
    ensures Inv(Touch(s, k, v, now))
  {
    var t := Touch(s, k, v, now);
    MoveToFrontProps(s.lru, k);
    assert t.entries.Keys == s.entries.Keys;
    EntriesAway(s, s.entries.Keys, t);
  }

  lemma GetKeeps(s: State, k: string, client: string, now: int)
    requires Inv(s)
    ensures Inv(GetKey(s, k, client, now).0)
  {
    if k in s.entries && s.entries[k].client == client {
      TouchKeeps(s, k, s.entries[k].value, now);
    }
  }

  lemma DeleteKeeps(s: State, k: string, client: string)
    requires Inv(s)
    ensures Inv(DeleteKey(s, k, client).0)
  {
    if k in s.entries && s.entries[k].client == client {
      assert k in Elems(s.lru);
      var i :| 0 <= i < |s.lru| && s.lru[i] == k;
      WithoutAt(s.lru, i);
      DropKeeps(s, i, s.entries.Keys);
      assert Drop(s, i) == DeleteKey(s, k, client).0;
      assert s.entries.Keys - {k} == Drop(s, i).entries.Keys;
    }
  }

  /** Taking the old number of pages back succeeds whenever that many are free. */
  lemma RestoreKeeps(s: State, k: string)
    requires k in s.entries && LruOk(s) && Partition(s, s.entries.Keys - {k})
    requires 1 <= s.entries[k].total <= |s.free|
    ensures Inv(Restore(s, k))
    ensures Restore(s, k).entries.Keys == s.entries.Keys
    ensures forall m :: m in s.entries && m != k ==> Restore(s, k).entries[m] == s.entries[m]
    ensures Restore(s, k).entries[k].(pages := []) == s.entries[k].(pages := [])
  {
    hide Partition, ChainOk, Elems;
    var ps := Allocate(s.free, s.entries[k].total).value;
    AllocateKeeps(s, s.entries.Keys - {k}, s.entries[k].total, k, s.entries[k].(pages := ps));
    assert s.entries.Keys - {k} + {k} == s.entries.Keys == Restore(s, k).entries.Keys;
  }

  /**
   * The stages of a growing update: an allocation after eviction has reported room cannot fail, and what is left
   * after a failure always covers the old number of pages.
   */
  lemma GrowStages(s: State, n: nat, k: string, client: string)
    requires Inv(s) && k in s.entries && s.entries[k].client == client
    ensures var t := Release(s, s.entries[k].pages);
            && LruOk(t) && Partition(t, t.entries.Keys - {k}) && |t.free| == |s.free| + s.entries[k].total
    ensures var u := FindRoom(Release(s, s.entries[k].pages), n, client).0;
            && LruOk(u) && Partition(u, u.entries.Keys - {k})
            && k in u.entries && u.entries[k] == s.entries[k]
            && FindRoom(Release(s, s.entries[k].pages), n, client).1 == Allocate(u.free, n)
            && Allocate(u.free, s.entries[k].total).Some?
    ensures var e := Evict(Release(s, s.entries[k].pages), n, client);
            (n >= 1 && e.1) ==> Allocate(e.0.free, n).Some?
  {
    hide Partition;
    ReleaseKeeps(s, s.entries.Keys, k);
    PartitionChain(s, s.entries.Keys, k);
    FindRoomKeeps(Release(s, s.entries[k].pages), n, client, {k});
    if n >= 1 { RoomSuffices(Release(s, s.entries[k].pages), n, client, {k}); }
  }

  lemma GrowKeeps(s: State, n: nat, k: string, v: string, client: string, now: int)
    requires Inv(s) && k in s.entries && s.entries[k].client == client
    ensures Inv(Grow(s, n, k, v, client, now).0)
  {
    hide Partition, LruOk, Inv, FindRoom;
    GrowStages(s, n, k, client);
    InvChain(s, k);
    var (u, found) := FindRoom(Release(s, s.entries[k].pages), n, client);
    match found
    case Some(ps) => StoreKeeps(u, k, Entry(v, ps, n, now, client));
    case None => RestoreKeeps(u, k);
  }

  lemma UpdateKeeps(s: State, pageSize: nat, k: string, v: string, client: string, now: int)
    requires pageSize > 0 && Inv(s)
    ensures Inv(UpdateKey(s, pageSize, k, v, client, now).0)
  {
    if k in s.entries && s.entries[k].client == client {
      var n := PagesNeeded(v, pageSize);
      if n <= s.entries[k].total {
        TouchKeeps(s, k, v, now);
      } else {
        GrowKeeps(s, n, k, v, client, now);
      }
    }
  }
}
