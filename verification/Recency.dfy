/**
 * Recency over whole runs, by the operations themselves: the recency list orders the keys by their last successful
 * use, and eviction takes the least recently used of other clients' keys.
 */
module Recency {
  import opened Sequences
  import opened FreeRuns
  import opened CacheModel
  import opened Eviction
  import opened OutOfSpace
  import opened Operations
  import opened CacheRuns

  // ---- Values fit in their pages ----

  ghost predicate ValuesFit(s: State, pageSize: nat) {
    forall k :: k in s.entries ==> Fits(s.entries[k].value, s.entries[k].total, pageSize)
  }

  lemma StepFits(s: State, pageSize: nat, op: Op)
    requires pageSize > 0 && Inv(s) && ValuesFit(s, pageSize)
    ensures ValuesFit(Step(s, pageSize, op).0, pageSize)
  {
    hide Inv, Fits, OnlyGone, AddKey, UpdateKey, GetKey, DeleteKey, Leaving;
    match op
    case Add(k, v, c, now) =>
      RefusedChangesNothing(s, pageSize, k, v, c, now);
      PagesAreLeast(v, pageSize);
      if k !in s.entries { AddKeyExact(s, pageSize, k, v, c, now); OthersSame(s, AddKey(s, pageSize, k, v, c, now).0, Leaving(s, PagesNeeded(v, pageSize), c), k); }
    case Update(k, v, c, now) => UpdateFits(s, pageSize, k, v, c, now);
    case Get(k, c, now) => GetExact(s, k, c, now);
    case Delete(k, c) =>
      DeleteExact(s, k, c);
      if k in s.entries && s.entries[k].client == c { OthersSame(s, DeleteKey(s, k, c).0, [], k); }
  }

  lemma OthersSame(s: State, t: State, gone: seq<string>, k: string)
    requires OnlyGone(s, t, gone, k)
    ensures forall j :: j in t.entries && j != k ==> j in s.entries && t.entries[j] == s.entries[j]
  {
  }

  lemma UpdateFits(s: State, pageSize: nat, k: string, v: string, c: string, now: int)
    requires pageSize > 0 && Inv(s) && ValuesFit(s, pageSize)
    ensures ValuesFit(UpdateKey(s, pageSize, k, v, c, now).0, pageSize)
  {
    hide Inv, Fits, OnlyGone, UpdateKey, Leaving;
    RefusedChangesNothing(s, pageSize, k, v, c, now);
    PagesAreLeast(v, pageSize);
    if k in s.entries && s.entries[k].client == c {
      if Fits(v, s.entries[k].total, pageSize) {
        UpdateInPlaceExact(s, pageSize, k, v, c, now);
      } else {
        UpdateGrowingExact(s, pageSize, k, v, c, now);
        OthersSame(s, UpdateKey(s, pageSize, k, v, c, now).0, Leaving(s, PagesNeeded(v, pageSize) - s.entries[k].total, c), k);
      }
    }
  }

  /** At every point of every run each value fits in the pages of its entry. */
  lemma {:induction false} ValuesAlwaysFit(r: Run, i: nat)
    requires r.Proper() && i <= |r.ops|
    ensures ValuesFit(r.At(i), r.pageSize)
  {
    hide Inv, Step, ValuesFit;
    if i == 0 {
      NoValues(r.size, r.pageSize);
    } else {
      ValuesAlwaysFit(r, i - 1);
      RunInv(r, i - 1);
      StepFits(r.At(i - 1), r.pageSize, r.ops[i - 1]);
    }
  }

  lemma NoValues(size: nat, pageSize: nat)
    ensures ValuesFit(Empty(size), pageSize)
  {
  }

  // ---- What a step does to the recency list ----

  /** Whether the operation has used its key: a successful add, update or get. */
  predicate Uses(op: Op, reply: Reply) { !op.Delete? && reply.outcome == Success }

  /** t's list is s's without some keys, but for key k: in front if it was used now, else at its old place or gone. */
  ghost predicate Moves(s: State, t: State, k: string, gone: set<string>, used: bool) {
    && Without(t.lru, k) == Without(Keep(s.lru, gone), k)
    && (used ==> t.lru != [] && t.lru[0] == k)
    && (!used ==> t.lru == Keep(s.lru, gone) || t.lru == Without(s.lru, k))
  }

  lemma StepMoves(s: State, pageSize: nat, op: Op) returns (gone: set<string>)
    requires pageSize > 0 && Inv(s)
    ensures var (t, r) := Step(s, pageSize, op); Moves(s, t, op.key, gone, Uses(op, r))
  {
    hide Inv, Fits, AddKey, UpdateKey, GetKey, DeleteKey, Leaving, Keep, Elems, Without;
    gone := {};
    KeepAll(s.lru);
    match op
    case Add(k, v, c, now) =>
      RefusedChangesNothing(s, pageSize, k, v, c, now);
      if k !in s.entries {
        gone := Elems(Leaving(s, PagesNeeded(v, pageSize), c));
        AddKeyExact(s, pageSize, k, v, c, now);
        AddMoves(s, pageSize, k, v, c, now);
      }
    case Update(k, v, c, now) =>
      RefusedChangesNothing(s, pageSize, k, v, c, now);
      if k in s.entries && s.entries[k].client == c {
        if Fits(v, s.entries[k].total, pageSize) {
          UpdateInPlaceExact(s, pageSize, k, v, c, now);
        } else {
          gone := Elems(Leaving(s, PagesNeeded(v, pageSize) - s.entries[k].total, c));
          UpdateGrowingExact(s, pageSize, k, v, c, now);
        }
      }
    case Get(k, c, now) => GetExact(s, k, c, now);
    case Delete(k, c) => DeleteMoves(s, k, c);
  }

  /** A new key that finds no room is not in the list, before or after. */
  lemma AddMoves(s: State, pageSize: nat, k: string, v: string, c: string, now: int)
    requires pageSize > 0 && Inv(s) && k !in s.entries
    ensures var (t, r) := AddKey(s, pageSize, k, v, c, now);
            r != Success ==> t.lru == Keep(s.lru, Elems(Leaving(s, PagesNeeded(v, pageSize), c)))
  {
    hide RemoveAll, Leaving, Partition, Keep, Elems;
    FindRoomRemoves(s, PagesNeeded(v, pageSize), c);
    GoneGrowing(s, s, Leaving(s, PagesNeeded(v, pageSize), c), k);
  }

  lemma DeleteMoves(s: State, k: string, c: string)
    requires Inv(s)
    ensures var (t, r) := DeleteKey(s, k, c);
            Without(t.lru, k) == Without(Keep(s.lru, {}), k) && (t.lru == Keep(s.lru, {}) || t.lru == Without(s.lru, k))
  {
    KeepAll(s.lru);
    if k in s.entries && s.entries[k].client == c {
      WithoutProps(s.lru, k);
      assert k !in Elems(Without(s.lru, k));
      WithoutAbsent(Without(s.lru, k), k);
    }
  }

  // ---- Last uses ----

  /** The index of the last successful add, update or get of key k before operation i, or -1. */
  ghost function LastUse(r: Run, i: nat, k: string): (j: int)
    requires r.Proper() && i <= |r.ops|
    ensures -1 <= j < i
  {
    if i == 0 then -1 else if UsedAt(r, i - 1, k) then i - 1 else LastUse(r, i - 1, k)
  }

  /** Operation i is a successful add, update or get of key k. */
  ghost predicate UsedAt(r: Run, i: nat, k: string)
    requires r.Proper() && i < |r.ops|
  {
    r.ops[i].key == k && Uses(r.ops[i], r.ReplyTo(i))
  }

  /** The last use is a use, and none comes after it. */
  lemma {:induction false} LastUseExact(r: Run, i: nat, k: string)
    requires r.Proper() && i <= |r.ops|
    ensures LastUse(r, i, k) >= 0 ==> UsedAt(r, LastUse(r, i, k), k)
    ensures forall m :: LastUse(r, i, k) < m < i ==> !UsedAt(r, m, k)
  {
    hide UsedAt;
    if i > 0 && !UsedAt(r, i - 1, k) { LastUseExact(r, i - 1, k); }
  }

  /** Every key listed has been used, and the keys come in the order of their last uses, latest first. */
  ghost predicate ByLastUse(r: Run, i: nat, ks: seq<string>)
    requires r.Proper() && i <= |r.ops|
  {
    && (forall k :: k in ks ==> LastUse(r, i, k) >= 0)
    && forall a, b :: 0 <= a < b < |ks| ==> LastUse(r, i, ks[a]) > LastUse(r, i, ks[b])
  }

  lemma {:induction false} KeepByUse(r: Run, i: nat, ks: seq<string>, gone: set<string>)
    requires r.Proper() && i <= |r.ops| && ByLastUse(r, i, ks)
    ensures ByLastUse(r, i, Keep(ks, gone))
  {
    hide ByLastUse;
    if ks != [] {
      HeadByUse(r, i, ks);
      KeepByUse(r, i, ks[1..], gone);
      KeepMember(ks[1..], gone);
      if ks[0] in gone {
        assert Keep(ks, gone) == Keep(ks[1..], gone);
      } else {
        ConsByUse(r, i, ks[0], Keep(ks[1..], gone));
      }
    }
  }

  lemma {:induction false} WithoutByUse(r: Run, i: nat, ks: seq<string>, x: string)
    requires r.Proper() && i <= |r.ops| && ByLastUse(r, i, ks)
    ensures ByLastUse(r, i, Without(ks, x))
  {
    hide ByLastUse;
    if ks != [] {
      HeadByUse(r, i, ks);
      if ks[0] != x {
        WithoutByUse(r, i, ks[1..], x);
        WithoutWithin(ks[1..], x);
        ConsByUse(r, i, ks[0], Without(ks[1..], x));
      }
    }
  }

  lemma HeadByUse(r: Run, i: nat, ks: seq<string>)
    requires r.Proper() && i <= |r.ops| && ByLastUse(r, i, ks) && ks != []
    ensures ByLastUse(r, i, ks[1..]) && LastUse(r, i, ks[0]) >= 0
    ensures forall k :: k in ks[1..] ==> LastUse(r, i, ks[0]) > LastUse(r, i, k)
  {
    hide LastUse;
    assert ks[0] in ks;
    forall k | k in ks[1..] ensures k in ks && LastUse(r, i, ks[0]) > LastUse(r, i, k) {
      var a :| 0 <= a < |ks| - 1 && ks[1..][a] == k;
      assert ks[a + 1] == k;
    }
  }

  lemma ConsByUse(r: Run, i: nat, k: string, ks: seq<string>)
    requires r.Proper() && i <= |r.ops| && ByLastUse(r, i, ks) && LastUse(r, i, k) >= 0
    requires forall x :: x in ks ==> LastUse(r, i, k) > LastUse(r, i, x)
    ensures ByLastUse(r, i, [k] + ks)
  {
    hide LastUse, Run.Proper;
    var w := [k] + ks;
    forall x | x in w ensures LastUse(r, i, x) >= 0 {
      assert x == k || x in ks;
    }
    forall a, b | 0 <= a < b < |w| ensures LastUse(r, i, w[a]) > LastUse(r, i, w[b]) {
      assert w[b] == ks[b - 1] && ks[b - 1] in ks;
      if a > 0 { assert w[a] == ks[a - 1]; }
    }
  }

  /** A step on another key, or one that is no use, leaves last uses as they were. */
  lemma SameByUse(r: Run, i: nat, ks: seq<string>)
    requires r.Proper() && i < |r.ops| && ByLastUse(r, i, ks)
    requires Uses(r.ops[i], r.ReplyTo(i)) ==> r.ops[i].key !in ks
    ensures ByLastUse(r, i + 1, ks)
  {
    hide Step;
    forall k | k in ks ensures LastUse(r, i + 1, k) == LastUse(r, i, k) { }
    hide LastUse;
    assert forall a :: 0 <= a < |ks| ==> ks[a] in ks;
  }

  lemma FrontByUse(r: Run, i: nat, ks: seq<string>)
    requires r.Proper() && i < |r.ops| && NoDup(ks) && ks != []
    requires Uses(r.ops[i], r.ReplyTo(i)) && ks[0] == r.ops[i].key && ByLastUse(r, i, ks[1..])
    ensures ByLastUse(r, i + 1, ks)
  {
    hide Step;
    var k := ks[0];
    assert k !in ks[1..];
    SameByUse(r, i, ks[1..]);
    assert LastUse(r, i + 1, k) == i;
    forall x | x in ks[1..] ensures LastUse(r, i + 1, k) > LastUse(r, i + 1, x) {
      assert LastUse(r, i + 1, x) == LastUse(r, i, x);
    }
    ConsByUse(r, i + 1, k, ks[1..]);
    HeadAndTail(ks);
  }

  /** At every point of every run the recency list is sorted by the last successful uses of its keys. */
  lemma {:induction false} ListedByLastUse(r: Run, i: nat)
    requires r.Proper() && i <= |r.ops|
    ensures ByLastUse(r, i, r.At(i).lru)
  {
    hide Inv, Step, ByLastUse, LastUse, Without, Keep;
    if i == 0 {
      NothingUsed(r);
    } else {
      ListedByLastUse(r, i - 1);
      RunInv(r, i - 1);
      RunInv(r, i);
      NoDupListed(r.At(i));
      StepByUse(r, i - 1);
    }
  }

  lemma NothingUsed(r: Run)
    requires r.Proper()
    ensures ByLastUse(r, 0, r.At(0).lru)
  {
  }

  lemma NoDupListed(s: State)
    requires Inv(s)
    ensures NoDup(s.lru)
  {
  }

  lemma StepByUse(r: Run, i: nat)
    requires r.Proper() && i < |r.ops| && Inv(r.At(i)) && NoDup(r.At(i + 1).lru) && ByLastUse(r, i, r.At(i).lru)
    ensures ByLastUse(r, i + 1, r.At(i + 1).lru)
  {
    hide Inv, Step, ByLastUse, LastUse, Without, Keep;
    var s, t, k := r.At(i), r.At(i + 1), r.ops[i].key;
    var gone := StepMoves(s, r.pageSize, r.ops[i]);
    KeepByUse(r, i, s.lru, gone);
    if Uses(r.ops[i], r.ReplyTo(i)) {
      WithoutByUse(r, i, Keep(s.lru, gone), k);
      TailIsWithout(t.lru, k);
      FrontByUse(r, i, t.lru);
    } else {
      WithoutByUse(r, i, s.lru, k);
      SameByUse(r, i, t.lru);
    }
  }

  lemma TailIsWithout(ks: seq<string>, k: string)
    requires ks != [] && ks[0] == k
    ensures Without(ks, k) == ks[1..]
  {
  }

  // ---- Eviction by last use ----

  /** A step that is no delete makes a front part of the candidates go, and keeps every other entry but its key's. */
  lemma StepLeaving(s: State, pageSize: nat, op: Op) returns (m: nat)
    requires pageSize > 0 && Inv(s) && !op.Delete?
    ensures m <= |Candidates(s.entries, s.lru, op.client)|
    ensures var t := Step(s, pageSize, op).0;
            && t.entries.Keys - {op.key} == s.entries.Keys - Elems(Candidates(s.entries, s.lru, op.client)[..m]) - {op.key}
            && (op.key in s.entries && s.entries[op.key].client != op.client ==> t == s)
            && (op.key in s.entries ==> op.key in t.entries)
  {
    hide Inv, Fits, AddKey, UpdateKey, GetKey, Keep, Elems, Without, Candidates;
    ElemsOfEmpty<string>([]);
    m := 0;
    match op
    case Add(k, v, c, now) =>
      RefusedChangesNothing(s, pageSize, k, v, c, now);
      if k !in s.entries {
        m := Shortest(s.entries, Candidates(s.entries, s.lru, c), PagesNeeded(v, pageSize) - |s.free|);
        AddKeyExact(s, pageSize, k, v, c, now);
      }
    case Update(k, v, c, now) =>
      RefusedChangesNothing(s, pageSize, k, v, c, now);
      if k in s.entries && s.entries[k].client == c {
        if Fits(v, s.entries[k].total, pageSize) {
          UpdateInPlaceExact(s, pageSize, k, v, c, now);
        } else {
          m := Shortest(s.entries, Candidates(s.entries, s.lru, c), PagesNeeded(v, pageSize) - s.entries[k].total - |s.free|);
          UpdateGrowingExact(s, pageSize, k, v, c, now);
        }
      }
    case Get(k, c, now) => GetExact(s, k, c, now);
  }

  /**
   * Whenever an operation makes a key go that is not its own to delete, the key belongs to another client and was
   * last used before every key of other clients that stays.
   */
  lemma EvictsLeastRecentlyUsed(r: Run, i: nat, x: string, y: string)
    requires r.Proper() && i < |r.ops| && !r.ops[i].Delete? && x in r.At(i).entries && x !in r.At(i + 1).entries
    ensures r.At(i).entries[x].client != r.ops[i].client
    ensures y in r.At(i).entries && r.At(i).entries[y].client != r.ops[i].client && y in r.At(i + 1).entries ==>
              LastUse(r, i, x) < LastUse(r, i, y)
  {
    hide Inv, Step, LastUse, Candidates, Rises, Falls;
    var s, op := r.At(i), r.ops[i];
    RunInv(r, i);
    var m := StepLeaving(s, r.pageSize, op);
    var c := Candidates(s.entries, s.lru, op.client);
    CandidatesExact(s, op.client);
    assert r.At(i + 1) == Step(s, r.pageSize, op).0;
    assert x != op.key && x !in r.At(i + 1).entries.Keys - {op.key};
    assert x in Elems(c[..m]);
    assert x in c[..m];
    var a :| 0 <= a < m && c[..m][a] == x;
    assert c[a] in c;
    if y in s.entries && s.entries[y].client != op.client && y in r.At(i + 1).entries {
      var b :| 0 <= b < |c| && c[b] == y;
      StayedBehind(c, m, b);
      assert y != op.key && y in r.At(i + 1).entries.Keys - {op.key};
      assert b >= m;
      UsesRise(r, i, op.client, a, b);
    }
  }

  lemma StayedBehind(c: seq<string>, m: nat, b: nat)
    requires m <= |c| && b < |c|
    ensures b < m ==> c[b] in Elems(c[..m])
  {
    if b < m { assert c[..m][b] == c[b]; }
  }

  lemma CandidatesExact(s: State, client: string)
    requires Inv(s)
    ensures forall k :: k in Candidates(s.entries, s.lru, client) <==> k in s.entries && s.entries[k].client != client
  {
    CandidateKeys(s, s.lru, client);
    assert forall k :: k in s.entries <==> k in Elems(s.lru);
  }

  lemma UsesRise(r: Run, i: nat, client: string, a: nat, b: nat)
    requires r.Proper() && i <= |r.ops| && a < b < |Candidates(r.At(i).entries, r.At(i).lru, client)|
    ensures var c := Candidates(r.At(i).entries, r.At(i).lru, client); LastUse(r, i, c[a]) < LastUse(r, i, c[b])
  {
    hide Step, LastUse, Candidates, Run.At;
    var s := r.At(i);
    ListedByLastUse(r, i);
    var rank := map k | k in s.lru :: LastUse(r, i, k);
    assert forall x :: 0 <= x < |s.lru| ==> s.lru[x] in s.lru;
    assert Falls(rank, s.lru);
    CandidatesRise(s.entries, s.lru, client, rank);
    CandidatesAgree(s.entries, s.entries, s.lru, client);
    var c := Candidates(s.entries, s.lru, client);
    assert c[a] in c && c[b] in c;
  }
}
