/** Whole runs of the cache: what is true after any sequence of operations by any clients. */
module CacheRuns {
  import opened Sequences
  import opened FreeRuns
  import opened CacheModel
  import opened Eviction

  datatype Op =
    | Add(key: string, value: string, client: string, now: int)
    | Update(key: string, value: string, client: string, now: int)
    | Get(key: string, client: string, now: int)
    | Delete(key: string, client: string)

  datatype Reply = Reply(outcome: Outcome, value: Option<string>)

  ghost function Step(s: State, pageSize: nat, op: Op): (State, Reply)
    requires pageSize > 0
  {
    match op
    case Add(k, v, c, now) => var (t, r) := AddKey(s, pageSize, k, v, c, now); (t, Reply(r, None))
    case Update(k, v, c, now) => var (t, r) := UpdateKey(s, pageSize, k, v, c, now); (t, Reply(r, None))
    case Get(k, c, now) => var (t, r, v) := GetKey(s, k, c, now); (t, Reply(r, v))
    case Delete(k, c) => var (t, r) := DeleteKey(s, k, c); (t, Reply(r, None))
  }

  ghost function Empty(size: nat): State { State(size, AllPages(size), map[], []) }

  /** A run: an empty cache of a given size, and operations on it. */
  datatype Run = Run(size: nat, pageSize: nat, ops: seq<Op>) {
    ghost predicate Proper() { pageSize > 0 }

    /** The state before operation i (after the last one, for i == |ops|). */
    ghost function At(i: nat): State
      requires Proper() && i <= |ops|
    {
      if i == 0 then Empty(size) else Step(At(i - 1), pageSize, ops[i - 1]).0
    }

    ghost function ReplyTo(i: nat): Reply
      requires Proper() && i < |ops|
    {
      Step(At(i), pageSize, ops[i]).1
    }

    /** Operation i is a successful add or update of key k. */
    ghost predicate Writes(i: nat, k: string)
      requires Proper() && i < |ops|
    {
      (ops[i].Add? || ops[i].Update?) && ops[i].key == k && ReplyTo(i).outcome == Success
    }

    /**
     * Before operation i, the last successful write of key k was by this client with this value, and the key has
     * been there ever since: neither deleted nor evicted.
     */
    ghost predicate LatestWrite(i: nat, k: string, client: string, value: string)
      requires Proper() && i <= |ops|
    {
      exists j :: 0 <= j < i && WroteLast(j, i, k, client, value)
    }

    ghost predicate WroteLast(j: nat, i: nat, k: string, client: string, value: string)
      requires Proper() && j < i <= |ops|
    {
      && Writes(j, k) && ops[j].client == client && ops[j].value == value
      && forall m :: j < m < i ==> !Writes(m, k) && k in At(m).entries
    }
  }

  // ---- The invariant ----

  lemma EmptyInv(size: nat)
    ensures Inv(Empty(size))
  {
    AllPagesMember(size);
  }

  lemma StepKeepsInv(s: State, pageSize: nat, op: Op)
    requires pageSize > 0 && Inv(s)
    ensures Inv(Step(s, pageSize, op).0) && Step(s, pageSize, op).0.size == s.size
  {
    match op
    case Add(k, v, c, now) => AddKeeps(s, pageSize, k, v, c, now); OwnEntriesStay(s, PagesNeeded(v, pageSize), c);
    case Update(k, v, c, now) => UpdateKeeps(s, pageSize, k, v, c, now); UpdateSize(s, pageSize, k, v, c, now);
    case Get(k, c, now) => GetKeeps(s, k, c, now);
    case Delete(k, c) => DeleteKeeps(s, k, c);
  }

  lemma UpdateSize(s: State, pageSize: nat, k: string, v: string, c: string, now: int)
    requires pageSize > 0
    ensures UpdateKey(s, pageSize, k, v, c, now).0.size == s.size
  {
    if k in s.entries {
      OwnEntriesStay(Release(s, s.entries[k].pages), PagesNeeded(v, pageSize), c);
    }
  }

  /**
   * At every point of every run, each page is either free or in exactly one chain, never twice; chains are as
   * long as the page counts say; the recency list holds every key once; and free pages plus page counts make up
   * the memory.
   */
  lemma {:induction false} RunInv(r: Run, i: nat)
    requires r.Proper() && i <= |r.ops|
    ensures Inv(r.At(i))
    ensures |r.At(i).free| + SumPages(r.At(i).entries, r.At(i).lru) == r.size == r.At(i).size
  {
    hide Inv;
    if i == 0 {
      EmptyInv(r.size);
    } else {
      RunInv(r, i - 1);
      StepKeepsInv(r.At(i - 1), r.pageSize, r.ops[i - 1]);
    }
    Conservation(r.At(i));
  }

  // ---- What one operation can change ----

  ghost predicate SameData(a: Entry, b: Entry) { a.value == b.value && a.client == b.client }

  /** Every entry after the step is an old one with its data, or the one just written. */
  ghost predicate OnlyWrites(s: State, t: State, op: Op, r: Reply) {
    forall k :: k in t.entries ==>
      if (op.Add? || op.Update?) && op.key == k && r.outcome == Success
      then t.entries[k].value == op.value && t.entries[k].client == op.client
      else k in s.entries && SameData(s.entries[k], t.entries[k])
  }

  /** The client of the operation loses no entry, except by its own successful delete. */
  ghost predicate OwnKept(s: State, t: State, op: Op, r: Reply) {
    forall k :: k in s.entries && s.entries[k].client == op.client && !(op.Delete? && op.key == k) ==> k in t.entries
  }

  /** Each operation alters only the entry it names; eviction takes whole entries of other clients only. */
  lemma StepEffect(s: State, pageSize: nat, op: Op)
    requires pageSize > 0 && Inv(s)
    ensures var (t, r) := Step(s, pageSize, op);
            && OnlyWrites(s, t, op, r) && OwnKept(s, t, op, r)
            && ((op.Add? || op.Update?) && r.outcome == Success ==> op.key in t.entries)
            && (op.Delete? && r.outcome == Success ==> op.key !in t.entries)
            && (op.Get? && r.outcome == Success ==> op.key in s.entries && s.entries[op.key].client == op.client
                                                    && r.value == Some(s.entries[op.key].value))
  {
    match op
    case Add(k, v, c, now) => OwnEntriesStay(s, PagesNeeded(v, pageSize), c);
    case Update(k, v, c, now) => UpdateEffect(s, pageSize, k, v, c, now);
    case Get(k, c, now) =>
    case Delete(k, c) =>
  }

  lemma UpdateEffect(s: State, pageSize: nat, k: string, v: string, c: string, now: int)
    requires pageSize > 0
    ensures var (t, r) := UpdateKey(s, pageSize, k, v, c, now);
            && OnlyWrites(s, t, Update(k, v, c, now), Reply(r, None))
            && OwnKept(s, t, Update(k, v, c, now), Reply(r, None))
            && (r == Success ==> k in t.entries)
  {
    if k in s.entries {
      OwnEntriesStay(Release(s, s.entries[k].pages), PagesNeeded(v, pageSize), c);
    }
  }

  /** An operation on a key that another client holds changes nothing at all. */
  lemma ForeignKeyUntouched(s: State, pageSize: nat, op: Op)
    requires pageSize > 0 && op.key in s.entries && s.entries[op.key].client != op.client
    ensures Step(s, pageSize, op) == (s, Reply(if op.Add? then KeyExists else ClientMismatch, None))
  {
  }

  // ---- Gets return the latest write ----

  /** Across step i - 1, an entry is either just written or an old one with its data. */
  lemma EntryOrigin(r: Run, i: nat, k: string)
    requires r.Proper() && 0 < i <= |r.ops| && k in r.At(i).entries
    ensures var e := r.At(i).entries[k];
            if r.Writes(i - 1, k) then r.ops[i - 1].client == e.client && r.ops[i - 1].value == e.value
            else k in r.At(i - 1).entries && SameData(r.At(i - 1).entries[k], e)
  {
    hide Inv, Step;
    RunInv(r, i - 1);
    StepEffect(r.At(i - 1), r.pageSize, r.ops[i - 1]);
  }

  /** Every entry holds the value of the latest successful write of its key, by its client. */
  lemma {:induction false} EntriesAreLatestWrites(r: Run, i: nat, k: string)
    requires r.Proper() && i <= |r.ops| && k in r.At(i).entries
    ensures r.LatestWrite(i, k, r.At(i).entries[k].client, r.At(i).entries[k].value)
  {
    hide Inv, Step;
    var e := r.At(i).entries[k];
    EntryOrigin(r, i, k);
    hide Run.Writes;
    if r.Writes(i - 1, k) {
      assert r.WroteLast(i - 1, i, k, e.client, e.value);
    } else {
      EntriesAreLatestWrites(r, i - 1, k);
      var j :| 0 <= j < i - 1 && r.WroteLast(j, i - 1, k, e.client, e.value);
      assert r.WroteLast(j, i, k, e.client, e.value);
    }
  }

  /**
   * A get that succeeds returns the value of the latest successful add or update of its key in the run; that
   * write was made under the same client id, and the key has not been deleted or evicted since.
   */
  lemma GetReturnsLatestWrite(r: Run, i: nat)
    requires r.Proper() && i < |r.ops| && r.ops[i].Get? && r.ReplyTo(i).outcome == Success
    ensures r.ReplyTo(i).value.Some?
    ensures r.LatestWrite(i, r.ops[i].key, r.ops[i].client, r.ReplyTo(i).value.value)
  {
    RunInv(r, i);
    hide Inv;
    StepEffect(r.At(i), r.pageSize, r.ops[i]);
    EntriesAreLatestWrites(r, i, r.ops[i].key);
  }

  // ---- The two recency records agree ----

  /** The keys of ks are all present, and no key was accessed later than one before it. */
  ghost predicate ByAccess(entries: map<string, Entry>, ks: seq<string>) {
    && (forall k :: k in ks ==> k in entries)
    && (forall i, j :: 0 <= i < j < |ks| ==> entries[ks[i]].access >= entries[ks[j]].access)
  }

  /** Entries of ks keep their access times from a to b. */
  ghost predicate SameAccess(a: map<string, Entry>, b: map<string, Entry>, ks: seq<string>) {
    forall k :: k in ks ==> k in a && k in b && a[k].access == b[k].access
  }

  lemma {:induction false} KeepByAccess(entries: map<string, Entry>, ks: seq<string>, gone: set<string>)
    requires ByAccess(entries, ks)
    ensures ByAccess(entries, Keep(ks, gone))
  {
    if ks != [] {
      var rest := Keep(ks[1..], gone);
      KeepByAccess(entries, ks[1..], gone);
      KeepMember(ks[1..], gone);
      forall j | 0 <= j < |rest| ensures entries[ks[0]].access >= entries[rest[j]].access {
        assert rest[j] in ks[1..];
      }
    }
  }

  lemma {:induction false} WithoutWithin(ks: seq<string>, x: string)
    ensures forall k :: k in Without(ks, x) ==> k in ks
  {
    if ks != [] && ks[0] != x {
      WithoutWithin(ks[1..], x);
      HeadAndTail(ks);
    }
  }

  lemma WithoutByAccess(entries: map<string, Entry>, ks: seq<string>, x: string)
    requires ByAccess(entries, ks)
    ensures ByAccess(entries, Without(ks, x)) && forall k :: k in Without(ks, x) ==> k in ks
  {
    WithoutWithin(ks, x);
    WithoutDescends(entries, ks, x);
  }

  lemma {:induction false} WithoutDescends(entries: map<string, Entry>, ks: seq<string>, x: string)
    requires ByAccess(entries, ks)
    ensures ByAccess(entries, Without(ks, x))
  {
    if ks != [] && ks[0] != x {
      var rest := Without(ks[1..], x);
      WithoutWithin(ks[1..], x);
      TailByAccess(entries, ks);
      WithoutDescends(entries, ks[1..], x);
      HeadByAccess(entries, ks[0], rest);
    }
  }

  lemma TailByAccess(entries: map<string, Entry>, ks: seq<string>)
    requires ByAccess(entries, ks) && ks != []
    ensures ByAccess(entries, ks[1..]) && ks[0] in entries
    ensures forall k :: k in ks[1..] ==> entries[ks[0]].access >= entries[k].access
  {
    assert ks[0] in ks;
    forall k | k in ks[1..] ensures k in ks && entries[ks[0]].access >= entries[k].access {
      var i :| 0 <= i < |ks| - 1 && ks[1..][i] == k;
      assert ks[i + 1] == k;
    }
  }

  lemma HeadByAccess(entries: map<string, Entry>, x: string, rest: seq<string>)
    requires ByAccess(entries, rest) && x in entries
    requires forall k :: k in rest ==> entries[x].access >= entries[k].access
    ensures ByAccess(entries, [x] + rest)
  {
    assert forall j :: 0 <= j < |rest| ==> rest[j] in rest;
  }

  /** Accessing key k now puts it in front of the others in both records. */
  lemma FrontByAccess(before: map<string, Entry>, after: map<string, Entry>, ks: seq<string>, k: string)
    requires NoDup(ks) && ByAccess(before, ks)
    requires k in after && SameAccess(before, after, Without(ks, k))
    requires forall x :: x in ks ==> before[x].access <= after[k].access
    ensures ByAccess(after, MoveToFront(ks, k))
  {
    var rest := Without(ks, k);
    WithoutByAccess(before, ks, k);
    forall j | 0 <= j < |rest| ensures after[k].access >= after[rest[j]].access {
      assert rest[j] in rest;
    }
    forall i, j | 0 <= i < j < |rest| ensures after[rest[i]].access >= after[rest[j]].access {
      assert rest[i] in rest && rest[j] in rest;
    }
  }

  /** Every key listed in t was listed in s, with the same access time. */
  ghost predicate FromBefore(s: State, t: State) {
    forall k :: k in t.lru ==> k in s.lru && k in s.entries && k in t.entries && t.entries[k].access == s.entries[k].access
  }

  /** Looking for room drops keys from the recency list and moves none. */
  lemma FindRoomByAccess(s: State, n: nat, client: string)
    requires LruOk(s) && ByAccess(s.entries, s.lru)
    ensures var t := FindRoom(s, n, client).0;
            ByAccess(t.entries, t.lru) && FromBefore(s, t)
  {
    EvictionExact(s, n, client);
    OwnEntriesStay(s, n, client);
    var c := Candidates(s.entries, s.lru, client);
    var v := c[..Shortest(s.entries, c, n - |s.free|)];
    KeepByAccess(s.entries, s.lru, Elems(v));
    KeepMember(s.lru, Elems(v));
  }

  /** Every key listed in t was listed in s with the same access time, or was accessed now. */
  ghost predicate FromBeforeOrNow(s: State, t: State, now: int) {
    forall k :: k in t.lru ==>
      k in t.entries && (t.entries[k].access == now || (k in s.lru && k in s.entries && t.entries[k].access == s.entries[k].access))
  }

  ghost predicate NotAfter(s: State, now: int) { forall k :: k in s.lru ==> k in s.entries && s.entries[k].access <= now }

  /** Storing an entry accessed now. */
  lemma StoreByAccess(s: State, t: State, k: string, e: Entry)
    requires LruOk(t) && ByAccess(t.entries, t.lru) && FromBefore(s, t) && NotAfter(s, e.access)
    ensures var u := Store(t, k, e); ByAccess(u.entries, u.lru) && FromBeforeOrNow(s, u, e.access)
  {
    WithoutProps(t.lru, k);
    WithoutByAccess(t.entries, t.lru, k);
    assert k !in Elems(Without(t.lru, k));
    FrontByAccess(t.entries, t.entries[k := e], t.lru, k);
  }

  lemma AddByAccess(s: State, pageSize: nat, k: string, v: string, c: string, now: int)
    requires pageSize > 0 && Inv(s) && ByAccess(s.entries, s.lru) && NotAfter(s, now)
    ensures var t := AddKey(s, pageSize, k, v, c, now).0; ByAccess(t.entries, t.lru) && FromBeforeOrNow(s, t, now)
  {
    hide Partition, FindRoom;
    var n := PagesNeeded(v, pageSize);
    assert s.entries.Keys - {} == s.entries.Keys;
    FindRoomKeeps(s, n, c, {});
    FindRoomByAccess(s, n, c);
    var (t, found) := FindRoom(s, n, c);
    if found.Some? {
      StoreByAccess(s, t, k, Entry(v, found.value, n, now, c));
    }
  }

  lemma TouchByAccess(s: State, k: string, v: string, now: int)
    requires Inv(s) && k in s.entries && ByAccess(s.entries, s.lru) && NotAfter(s, now)
    ensures var t := Touch(s, k, v, now); ByAccess(t.entries, t.lru) && FromBeforeOrNow(s, t, now)
  {
    WithoutProps(s.lru, k);
    WithoutByAccess(s.entries, s.lru, k);
    assert k !in Elems(Without(s.lru, k));
    FrontByAccess(s.entries, Touch(s, k, v, now).entries, s.lru, k);
  }

  lemma GrowByAccess(s: State, n: nat, k: string, v: string, c: string, now: int)
    requires Inv(s) && k in s.entries && s.entries[k].client == c && ByAccess(s.entries, s.lru) && NotAfter(s, now)
    ensures var t := Grow(s, n, k, v, c, now).0; ByAccess(t.entries, t.lru) && FromBeforeOrNow(s, t, now)
  {
    hide Partition, FindRoom;
    GrowStages(s, n, k, c);
    var u := Release(s, s.entries[k].pages);
    FindRoomByAccess(u, n, c);
    var (t, found) := FindRoom(u, n, c);
    if found.Some? {
      StoreByAccess(s, t, k, Entry(v, found.value, n, now, c));
    }
  }

  lemma DeleteByAccess(s: State, k: string, c: string)
    requires Inv(s) && ByAccess(s.entries, s.lru)
    ensures var t := DeleteKey(s, k, c).0; ByAccess(t.entries, t.lru) && FromBefore(s, t)
  {
    hide Partition, Without;
    WithoutByAccess(s.entries, s.lru, k);
    WithoutProps(s.lru, k);
    assert forall x :: x in Without(s.lru, k) ==> x in Elems(Without(s.lru, k));
    assert forall x :: x in s.lru ==> x in Elems(s.lru);
  }

  lemma StepByAccess(s: State, pageSize: nat, op: Op)
    requires pageSize > 0 && Inv(s) && ByAccess(s.entries, s.lru) && (!op.Delete? ==> NotAfter(s, op.now))
    ensures var t := Step(s, pageSize, op).0;
            ByAccess(t.entries, t.lru) && if op.Delete? then FromBefore(s, t) else FromBeforeOrNow(s, t, op.now)
  {
    hide AddKey, Grow, DeleteKey, Touch, Inv, ByAccess;
    match op
    case Add(k, v, c, now) => AddByAccess(s, pageSize, k, v, c, now);
    case Update(k, v, c, now) =>
      if k in s.entries && s.entries[k].client == c {
        TouchByAccess(s, k, v, now);
        GrowByAccess(s, PagesNeeded(v, pageSize), k, v, c, now);
      }
    case Get(k, c, now) =>
      if k in s.entries { TouchByAccess(s, k, s.entries[k].value, now); }
    case Delete(k, c) => DeleteByAccess(s, k, c);
  }

  /** The clock never runs backwards over the run. */
  ghost predicate Monotone(ops: seq<Op>) {
    forall i, j :: 0 <= i < j < |ops| && !ops[i].Delete? && !ops[j].Delete? ==> ops[i].now <= ops[j].now
  }

  /**
   * Under a clock that never runs backwards, the recency list is at every point of every run sorted by last
   * access, latest first: the two records of recency always agree.
   */
  lemma {:induction false} RecencyRecordsAgree(r: Run, i: nat)
    requires r.Proper() && i <= |r.ops| && Monotone(r.ops)
    ensures ByAccess(r.At(i).entries, r.At(i).lru)
    ensures forall j :: i <= j < |r.ops| && !r.ops[j].Delete? ==> NotAfter(r.At(i), r.ops[j].now)
  {
    hide Inv, Step;
    if i > 0 {
      RecencyRecordsAgree(r, i - 1);
      RunInv(r, i - 1);
      StepByAccess(r.At(i - 1), r.pageSize, r.ops[i - 1]);
    }
  }
}
