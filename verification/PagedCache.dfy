/** The cache server's store: key map, recency list and, for the pages, an allocator. */
module PagedCaches {
  import opened Sequences
  import opened FreeRuns
  import opened CacheModel
  import opened PageAllocators

  class CacheEntry {
    const key: string
    const clientId: string
    var value: string
    var memoryBlocks: seq<nat>
    var totalPages: nat
    var lastAccess: int

    constructor (k: string, v: string, blocks: seq<nat>, count: nat, client: string, now: int)
      ensures key == k && View() == Entry(v, blocks, count, now, client)
    {
      key, clientId, value, memoryBlocks, totalPages, lastAccess := k, client, v, blocks, count, now;
    }

    ghost function View(): Entry
      reads this
    {
      Entry(value, memoryBlocks, totalPages, lastAccess, clientId)
    }
  }

  ghost function EntryViews(m: map<string, CacheEntry>): map<string, Entry>
    reads m.Values
  {
    map k | k in m :: m[k].View()
  }

  lemma EntryViewsOf(m: map<string, CacheEntry>)
    ensures EntryViews(m).Keys == m.Keys && forall k :: k in m ==> EntryViews(m)[k] == m[k].View()
  {
  }

  lemma EntryViewsWithout(m: map<string, CacheEntry>, k: string)
    ensures EntryViews(m - {k}) == EntryViews(m) - {k}
  {
  }

  lemma EntryViewsWith(m: map<string, CacheEntry>, k: string, e: CacheEntry)
    ensures EntryViews(m[k := e]) == EntryViews(m)[k := e.View()]
  {
  }

  /** m is what eviction on behalf of the client leaves of n: no new entries, and all of the client's own. */
  ghost predicate Survivors(m: map<string, CacheEntry>, n: map<string, CacheEntry>, client: string) {
    && m.Keys <= n.Keys && (forall k :: k in m ==> m[k] == n[k])
    && (forall k :: k in n && n[k].clientId == client ==> k in m)
  }

  lemma SurvivorValues(m: map<string, CacheEntry>, n: map<string, CacheEntry>, client: string)
    requires Survivors(m, n, client)
    ensures m.Values <= n.Values
  {
  }

  lemma OwnSurvives(m: map<string, CacheEntry>, n: map<string, CacheEntry>, client: string, k: string)
    requires Survivors(m, n, client) && k in n && n[k].clientId == client
    ensures k in m && m[k] == n[k]
  {
  }

  lemma AllSurvive(m: map<string, CacheEntry>, client: string)
    ensures Survivors(m, m, client)
  {
  }

  lemma SurvivorsCompose(m: map<string, CacheEntry>, n: map<string, CacheEntry>, o: map<string, CacheEntry>, client: string)
    requires Survivors(m, n, client) && Survivors(n, o, client)
    ensures Survivors(m, o, client)
  {
  }

  lemma ValuesWith(m: map<string, CacheEntry>, k: string, e: CacheEntry)
    ensures m[k := e].Values <= m.Values + {e}
  {
  }

  /** After a change to the entry of k alone, the views differ at k alone. */
  lemma EntryChanged(before: map<string, Entry>, m: map<string, CacheEntry>, k: string)
    requires k in m && before.Keys == m.Keys
    requires forall j :: j in m && j != k ==> m[j].View() == before[j]
    ensures EntryViews(m) == before[k := m[k].View()]
  {
  }

  /** Moved to the front, key k is there once, and the others are in their old order. */
  lemma FrontOnce(s: seq<string>, k: string)
    ensures NoDup(s) ==> NoDup([k] + Without(s, k)) && Without([k] + Without(s, k), k) == Without(s, k)
  {
    if NoDup(s) { MoveToFrontProps(s, k); }
  }

  class PagedCache {
    const pageSize: nat
    const allocator: PageAllocator
    var cacheMap: map<string, CacheEntry>
    var lruOrder: seq<string>

    /** The allocator is intact, shares no object with the rest, and entries are filed under their own keys. */
    ghost predicate Intact()
      reads this, allocator.Repr(), allocator, cacheMap.Values
    {
      && allocator.FreeValid() && this !in allocator.Repr()
      && forall k :: k in cacheMap ==> cacheMap[k].key == k && cacheMap[k] !in allocator.Repr()
    }

    ghost function Model(): State
      reads this, allocator.pageBitmap, cacheMap.Values
    {
      State(allocator.pageBitmap.Length, allocator.Free(), EntryViews(cacheMap), lruOrder)
    }

    lemma ModelFacts()
      ensures Model().entries.Keys == cacheMap.Keys && Model().lru == lruOrder && Model().free == allocator.Free()
      ensures forall k :: k in cacheMap ==> Model().entries[k] == cacheMap[k].View()
    {
    }

    // ---- Steps that the operations are made of ----

    /** Returns the pages of key k to the free list; its entry still names them. */
    method ReleaseEntry(k: string)
      requires Intact() && k in cacheMap && ChainOk(Model(), k)
      modifies allocator.Repr()
      ensures Intact() && fresh(allocator.Repr() - old(allocator.Repr()))
      ensures cacheMap == old(cacheMap) && lruOrder == old(lruOrder)
      ensures Model() == Release(old(Model()), old(cacheMap[k].memoryBlocks))
    {
      hide NoDup, Elems, PageAllocator.FreeValid, PageAllocator.Repr, PageAllocator.Free;
      assert Model().entries[k] == cacheMap[k].View();
      allocator.DeallocatePagesLinked(cacheMap[k].memoryBlocks);
    }

    /** Takes key k out of the map and puts a new recency list in place. */
    method Forget(k: string, newOrder: seq<string>)
      requires Intact()
      modifies this`cacheMap, this`lruOrder
      ensures Intact() && allocator.Repr() == old(allocator.Repr())
      ensures cacheMap == old(cacheMap) - {k} && lruOrder == newOrder
      ensures Model() == Forgotten(old(Model()), k, newOrder)
    {
      hide Elems, PageAllocator.FreeValid, PageAllocator.Repr, PageAllocator.Free;
      EntryViewsWithout(cacheMap, k);
      cacheMap := cacheMap - {k};
      lruOrder := newOrder;
    }

    /** Moves key to the front of the recency list. */
    method UpdateLru(key: string)
      requires Intact()
      modifies this`lruOrder
      ensures Intact() && allocator.Repr() == old(allocator.Repr())
      ensures Model() == MovedUp(old(Model()), key)
      ensures lruOrder != [] && lruOrder[0] == key
      ensures NoDup(old(lruOrder)) ==> NoDup(lruOrder) && Without(lruOrder, key) == Without(old(lruOrder), key)
    {
      hide Elems, PageAllocator.FreeValid, PageAllocator.Repr, PageAllocator.Free;
      FrontOnce(lruOrder, key);
      lruOrder := [key] + Without(lruOrder, key);
    }

    /** Files a new entry for key and makes the key the most recently used. */
    method InsertEntry(key: string, value: string, blocks: seq<nat>, count: nat, clientId: string, now: int)
      requires Intact()
      modifies this`cacheMap, this`lruOrder
      ensures Intact() && allocator.Repr() == old(allocator.Repr())
      ensures key in cacheMap && fresh(cacheMap[key]) && cacheMap.Values <= old(cacheMap.Values) + {cacheMap[key]}
      ensures Model() == MovedUp(Rewritten(old(Model()), key, Entry(value, blocks, count, now, clientId)), key)
    {
      hide Elems, PageAllocator.FreeValid, PageAllocator.Free;
      var e := new CacheEntry(key, value, blocks, count, clientId, now);
      EntryViewsWith(cacheMap, key, e);
      ValuesWith(cacheMap, key, e);
      cacheMap := cacheMap[key := e];
      lruOrder := [key] + Without(lruOrder, key);
    }

    /** Writes new field values into an entry, in place. */
    method RewriteEntry(e: CacheEntry, value: string, blocks: seq<nat>, count: nat, now: int)
      requires Intact() && e.key in cacheMap && cacheMap[e.key] == e
      modifies e
      ensures Intact() && allocator.Repr() == old(allocator.Repr())
      ensures Model() == Rewritten(old(Model()), e.key, Entry(value, blocks, count, now, e.clientId))
    {
      hide Elems, EntryViews, PageAllocator.FreeValid, PageAllocator.Repr, PageAllocator.Free;
      ghost var before := EntryViews(cacheMap);
      EntryViewsOf(cacheMap);
      e.value, e.memoryBlocks, e.totalPages, e.lastAccess := value, blocks, count, now;
      EntryChanged(before, cacheMap, e.key);
    }

    /** Allocation seen from the whole cache: only the set of free pages changes. */
    method AllocateFromFreeList(numPages: nat) returns (chain: seq<nat>)
      requires Intact()
      modifies allocator.Repr()
      ensures Intact() && fresh(allocator.Repr() - old(allocator.Repr()))
      ensures cacheMap == old(cacheMap) && lruOrder == old(lruOrder)
      ensures chain == [] ==> Allocate(old(Model()).free, numPages) == None && Model() == old(Model())
      ensures chain != [] ==> Allocate(old(Model()).free, numPages) == Some(chain) && Model() == Taken(old(Model()), chain)
    {
      hide Elems, Allocate, PageAllocator.FreeValid, PageAllocator.Repr, PageAllocator.Free;
      ElemsOfEmpty<nat>([]);
      chain := allocator.AllocatePagesLinked(numPages);
    }

    // ---- Eviction ----

    /** Evicts the key at position i of the recency list. */
    method EvictAt(i: nat)
      requires Intact() && i < |lruOrder| && lruOrder[i] in cacheMap
      requires ChainOk(Model(), lruOrder[i])
      modifies this`cacheMap, this`lruOrder, allocator.Repr()
      ensures Intact() && fresh(allocator.Repr() - old(allocator.Repr()))
      ensures cacheMap == old(cacheMap - {lruOrder[i]})
      ensures Model() == old(Drop(Model(), i))
    {
      hide ChainOk, Intact, Elems, Model, Release, Forgotten, PageAllocator.Repr;
      ModelFacts();
      ReleaseEntry(lruOrder[i]);
      Forget(lruOrder[i], lruOrder[..i] + lruOrder[i + 1..]);
    }

    /** What eviction needs and keeps: the pages are accounted for, but for keys of the requester in the hole. */
    ghost predicate Accounted(requestingClient: string, hole: set<string>)
      reads this, allocator.Repr(), allocator, cacheMap.Values
    {
      && Intact()
      && LruOk(Model()) && Partition(Model(), Model().entries.Keys - hole)
      && forall k :: k in hole ==> !Evictable(Model().entries, k, requestingClient)
    }

    /** One step of the walk: the key before position it is evicted if another client holds it. */
    method EvictionStep(it: nat, requestingClient: string, ghost hole: set<string>, ghost deficit: int)
      returns (entryPages: nat)
      requires Accounted(requestingClient, hole) && 0 < it <= |lruOrder| && deficit > 0
      modifies this`cacheMap, this`lruOrder, allocator.Repr()
      ensures Accounted(requestingClient, hole) && it <= |lruOrder| + 1 == |Model().lru| + 1
      ensures fresh(allocator.Repr() - old(allocator.Repr()))
      ensures Survivors(cacheMap, old(cacheMap), requestingClient)
      ensures EvictFrom(old(Model()), it, deficit, requestingClient)
           == EvictFrom(Model(), it - 1, deficit - entryPages, requestingClient)
    {
      hide Partition, Intact, Elems, EvictFrom, NoDup, PageAllocator.Repr;
      ModelFacts();
      var lruKey := lruOrder[it - 1];
      EvictStep(Model(), it, deficit, requestingClient);
      if lruKey in cacheMap && cacheMap[lruKey].clientId != requestingClient {
        PartitionChain(Model(), Model().entries.Keys - hole, lruKey);
        DropKeepsHole(Model(), it - 1, requestingClient, hole);
        entryPages := cacheMap[lruKey].totalPages;
        EvictAt(it - 1);
      } else {
        entryPages := 0;
      }
    }

    /** Evicts other clients' keys, least recently used first, until the pages needed are free. */
    method EvictLruIfNeeded(pagesNeeded: nat, requestingClient: string, ghost hole: set<string>) returns (room: bool)
      requires Accounted(requestingClient, hole)
      modifies this`cacheMap, this`lruOrder, allocator.Repr()
      ensures Accounted(requestingClient, hole) && fresh(allocator.Repr() - old(allocator.Repr()))
      ensures Survivors(cacheMap, old(cacheMap), requestingClient)
      ensures (Model(), room) == Evict(old(Model()), pagesNeeded, requestingClient)
    {
      hide Accounted, EvictFrom, Elems, Model, Survivors, Intact, PageAllocator.FreeValid;
      ModelFacts();
      AllocatorIntact(requestingClient, hole);
      AllSurvive(cacheMap, requestingClient);
      var freePages := allocator.GetFreePages();
      if freePages >= pagesNeeded {
        return true;
      }
      var pagesToFree := pagesNeeded - freePages;
      var pagesFreed := 0;
      var it: nat := |lruOrder|;
      while it > 0 && pagesFreed < pagesToFree
        invariant it <= |lruOrder| == |Model().lru| && Accounted(requestingClient, hole)
        invariant fresh(allocator.Repr() - old(allocator.Repr()))
        invariant Survivors(cacheMap, old(cacheMap), requestingClient)
        invariant EvictFrom(old(Model()), |old(lruOrder)|, pagesToFree, requestingClient)
               == EvictFrom(Model(), it, pagesToFree - pagesFreed, requestingClient)
        decreases it
      {
        ghost var before := cacheMap;
        var entryPages := EvictionStep(it, requestingClient, hole, pagesToFree - pagesFreed);
        SurvivorsCompose(cacheMap, before, old(cacheMap), requestingClient);
        pagesFreed := pagesFreed + entryPages;
        it := it - 1;
      }
      EvictDone(Model(), it, pagesToFree - pagesFreed, requestingClient);
      return pagesFreed >= pagesToFree;
    }

    lemma AllocatorIntact(client: string, hole: set<string>)
      requires Accounted(client, hole)
      ensures Intact() && allocator.FreeValid()
    {
    }

    /**
     * Allocate; failing that evict other clients' keys and allocate again. Without room eviction has reported none;
     * with room for at least one page the allocation has succeeded.
     */
    method AllocateOrEvict(numPages: nat, clientId: string, ghost hole: set<string>) returns (chain: seq<nat>, room: bool)
      requires Accounted(clientId, hole)
      modifies this`cacheMap, this`lruOrder, allocator.Repr()
      ensures Intact() && fresh(allocator.Repr() - old(allocator.Repr()))
      ensures Survivors(cacheMap, old(cacheMap), clientId)
      ensures var f := FindRoom(old(Model()), numPages, clientId);
              && f.1 == (if chain == [] then None else Some(chain))
              && Model() == if chain == [] then f.0 else Taken(f.0, chain)
      ensures !room ==> chain == []
      ensures room && numPages >= 1 ==> chain != []
    {
      hide Intact, Evict, Allocate, LruOk, Partition, Elems, Model, Taken;
      AllocatorIntact(clientId, hole);
      if numPages >= 1 {
        RoomSuffices(Model(), numPages, clientId, hole);
      }
      room := true;
      chain := AllocateFromFreeList(numPages);
      if chain == [] {
        room := EvictLruIfNeeded(numPages, clientId, hole);
        if room {
          chain := AllocateFromFreeList(numPages);
        }
      }
    }

    // ---- The public operations ----

    ghost predicate Valid()
      reads this, allocator.Repr(), allocator, cacheMap.Values
    {
      pageSize > 0 && Intact() && Inv(Model())
    }

    /** The objects an operation may write to. */
    ghost function Repr(): set<object>
      reads this, allocator
    {
      {this} + allocator.Repr() + cacheMap.Values
    }

    lemma OpenValid(client: string)
      requires Valid()
      ensures pageSize > 0 && Intact() && Inv(Model()) && Accounted(client, {})
      ensures Model().entries.Keys == cacheMap.Keys && Model().lru == lruOrder
      ensures forall k :: k in cacheMap ==> Model().entries[k] == cacheMap[k].View()
    {
      assert Model().entries.Keys - {} == Model().entries.Keys;
    }

    lemma CloseValid()
      requires pageSize > 0 && Intact() && Inv(Model())
      ensures Valid()
    {
    }

    /** All pages free, no keys. */
    constructor (totalPages: nat, pageSize: nat)
      requires totalPages > 0 && pageSize > 0
      ensures Valid() && fresh(Repr()) && this.pageSize == pageSize
      ensures Model() == State(totalPages, AllPages(totalPages), map[], [])
    {
      hide PageAllocator.FreeValid;
      this.pageSize := pageSize;
      allocator := new PageAllocator(totalPages);
      cacheMap, lruOrder := map[], [];
      new;
      AllPagesMember(totalPages);
    }

    method AddKey(key: string, value: string, clientId: string, now: int) returns (r: Outcome)
      requires Valid()
      modifies Repr()
      ensures Valid() && fresh(allocator.Repr() - old(allocator.Repr()))
      ensures fresh(cacheMap.Values - old(cacheMap.Values))
      ensures (Model(), r) == CacheModel.AddKey(old(Model()), pageSize, key, value, clientId, now)
    {
      hide Valid, Intact, Inv, Elems, Survivors, FindRoom, Accounted, PagesNeeded, Model, Taken, Rewritten, MovedUp,
           PageAllocator.Repr;
      OpenValid(clientId);
      AddKeeps(Model(), pageSize, key, value, clientId, now);
      if key in cacheMap {
        return KeyExists;
      }
      var pagesNeeded := PagesNeeded(value, pageSize);
      var chain, room := AllocateOrEvict(pagesNeeded, clientId, {});
      SurvivorValues(cacheMap, old(cacheMap), clientId);
      if !room {
        r := NoSpace;
      } else if chain == [] {
        r := NoSpace;
      } else {
        InsertEntry(key, value, chain, pagesNeeded, clientId, now);
        r := Success;
      }
      CloseValid();
    }

    /** The pages an entry holds already suffice: value and access time change, and the key moves up. */
    method TouchEntry(e: CacheEntry, value: string, now: int)
      requires Valid() && e.key in cacheMap && cacheMap[e.key] == e
      modifies e, this`lruOrder
      ensures Valid() && allocator.Repr() == old(allocator.Repr())
      ensures Model() == Touch(old(Model()), e.key, value, now)
    {
      hide Valid, Inv, Elems, Intact, Model, Rewritten, MovedUp, PageAllocator.Repr, Accounted;
      OpenValid(e.clientId);
      TouchKeeps(Model(), e.key, value, now);
      assert Model().entries[e.key] == e.View();
      RewriteEntry(e, value, e.memoryBlocks, e.totalPages, now);
      UpdateLru(e.key);
      CloseValid();
    }

    /** After a growing update found no room: take the old number of pages again and hang them into the entry. */
    method RestoreEntry(e: CacheEntry)
      requires Intact() && e.key in cacheMap && cacheMap[e.key] == e
      modifies e, allocator.Repr()
      ensures Intact() && fresh(allocator.Repr() - old(allocator.Repr()))
      ensures Model() == Restore(old(Model()), e.key)
    {
      hide Allocate, Elems, Model, Taken, Rewritten, PageAllocator.Repr, PageAllocator.FreeValid;
      ModelFacts();
      assert Model().entries[e.key] == e.View();
      var chain := AllocateFromFreeList(e.totalPages);
      if chain != [] {
        RewriteEntry(e, e.value, chain, e.totalPages, e.lastAccess);
      }
    }

    /**
     * The end of a growing update: the pages found are hung into the entry, or without room the old number is taken
     * again. That eviction reports room and the allocation still fails cannot happen.
     */
    method FinishGrow(e: CacheEntry, value: string, chain: seq<nat>, room: bool, newPages: nat, now: int)
      returns (r: Outcome)
      requires Intact() && e.key in cacheMap && cacheMap[e.key] == e && (room <==> chain != [])
      modifies e, this`lruOrder, allocator.Repr()
      ensures Intact() && fresh(allocator.Repr() - old(allocator.Repr()))
      ensures chain == [] ==> r == NoSpace && Model() == Restore(old(Model()), e.key)
      ensures var grown := Entry(value, chain, newPages, now, e.clientId);
              chain != [] ==> r == Success && Model() == MovedUp(Rewritten(old(Model()), e.key, grown), e.key)
    {
      hide Intact, Restore, Elems, Model, Rewritten, MovedUp, PageAllocator.Repr;
      if !room {
        RestoreEntry(e);
        r := NoSpace;
      } else if chain == [] {
        assert false;  // the source restores the old allocation here a second time
      } else {
        RewriteEntry(e, value, chain, newPages, now);
        UpdateLru(e.key);
        r := Success;
      }
    }

    /** The start of a growing update: the entry's pages go back first, then room for the new number is sought. */
    method Reallocate(e: CacheEntry, newPages: nat) returns (chain: seq<nat>, room: bool)
      requires newPages >= 1
      requires Intact() && Inv(Model()) && e.key in cacheMap && cacheMap[e.key] == e
      modifies this`cacheMap, this`lruOrder, allocator.Repr()
      ensures Intact() && fresh(allocator.Repr() - old(allocator.Repr()))
      ensures e.key in cacheMap && cacheMap[e.key] == e && cacheMap.Values <= old(cacheMap.Values)
      ensures room <==> chain != []
      ensures var f := FindRoom(Release(old(Model()), old(e.memoryBlocks)), newPages, e.clientId);
              && f.1 == (if chain == [] then None else Some(chain))
              && Model() == if chain == [] then f.0 else Taken(f.0, chain)
    {
      hide Intact, Inv, LruOk, Partition, Elems, ChainOk, FindRoom, Survivors, Model, Taken;
      ModelFacts();
      ghost var s := Model();
      assert s.entries[e.key] == e.View();
      InvChain(s, e.key);
      GrowStages(s, newPages, e.key, e.clientId);
      ReleaseEntry(e.key);
      chain, room := AllocateOrEvict(newPages, e.clientId, {e.key});
      OwnSurvives(cacheMap, old(cacheMap), e.clientId, e.key);
      SurvivorValues(cacheMap, old(cacheMap), e.clientId);
    }

    /** A growing update as a whole. */
    method GrowEntry(e: CacheEntry, value: string, newPages: nat, now: int) returns (r: Outcome)
      requires newPages >= 1
      requires Valid() && e.key in cacheMap && cacheMap[e.key] == e
      modifies Repr()
      ensures Valid() && fresh(allocator.Repr() - old(allocator.Repr())) && cacheMap.Values <= old(cacheMap.Values)
      ensures e.key in old(Model()).entries && e.clientId == old(Model()).entries[e.key].client
      ensures (Model(), r) == Grow(old(Model()), newPages, e.key, value, e.clientId, now)
    {
      hide Valid, Intact, Inv, Elems, FindRoom, Restore, Model, Taken, Rewritten, MovedUp, Release, Accounted;
      OpenValid(e.clientId);
      ghost var s := Model();
      assert s.entries[e.key] == e.View();
      GrowKeeps(s, newPages, e.key, value, e.clientId, now);
      var chain, room := Reallocate(e, newPages);
      r := FinishGrow(e, value, chain, room, newPages, now);
      CloseValid();
    }

    method UpdateKey(key: string, value: string, clientId: string, now: int) returns (r: Outcome)
      requires Valid()
      modifies Repr()
      ensures Valid() && fresh(allocator.Repr() - old(allocator.Repr())) && cacheMap.Values <= old(cacheMap.Values)
      ensures (Model(), r) == CacheModel.UpdateKey(old(Model()), pageSize, key, value, clientId, now)
    {
      hide Valid, Inv, Elems, Intact, PagesNeeded, Grow, Touch, Model, Accounted, PageAllocator.Repr;
      OpenValid(clientId);
      if key !in cacheMap {
        return KeyNotFound;
      }
      EntryKey(key);
      if cacheMap[key].clientId != clientId {
        return ClientMismatch;
      }
      var newPagesNeeded := PagesNeeded(value, pageSize);
      if newPagesNeeded <= cacheMap[key].totalPages {
        TouchEntry(cacheMap[key], value, now);
        r := Success;
      } else {
        r := GrowEntry(cacheMap[key], value, newPagesNeeded, now);
      }
    }

    lemma EntryKey(k: string)
      requires Intact() && k in cacheMap
      ensures cacheMap[k].key == k && Model().entries[k] == cacheMap[k].View()
    {
    }

    method GetKey(key: string, clientId: string, now: int) returns (r: Outcome, value: Option<string>)
      requires Valid()
      modifies Repr()
      ensures Valid() && allocator.Repr() == old(allocator.Repr()) && cacheMap == old(cacheMap)
      ensures (Model(), r, value) == CacheModel.GetKey(old(Model()), key, clientId, now)
    {
      hide Valid, Inv, Elems, Intact, Touch, Model, Accounted, PageAllocator.Repr;
      OpenValid(clientId);
      if key !in cacheMap {
        return KeyNotFound, None;
      }
      EntryKey(key);
      if cacheMap[key].clientId != clientId {
        return ClientMismatch, None;
      }
      value := Some(cacheMap[key].value);
      TouchEntry(cacheMap[key], cacheMap[key].value, now);
      r := Success;
    }

    method DeleteKey(key: string, clientId: string) returns (r: Outcome)
      requires Valid()
      modifies Repr()
      ensures Valid() && fresh(allocator.Repr() - old(allocator.Repr())) && cacheMap.Values <= old(cacheMap.Values)
      ensures (Model(), r) == CacheModel.DeleteKey(old(Model()), key, clientId)
    {
      hide Valid, Intact, Inv, Elems, ChainOk, Model, Release, Forgotten, Accounted, PageAllocator.Repr;
      OpenValid(clientId);
      DeleteKeeps(Model(), key, clientId);
      if key !in cacheMap {
        return KeyNotFound;
      }
      EntryKey(key);
      InvChain(Model(), key);
      if cacheMap[key].clientId != clientId {
        return ClientMismatch;
      }
      ReleaseEntry(key);
      Forget(key, Without(lruOrder, key));
      r := Success;
      CloseValid();
    }
  }
}
