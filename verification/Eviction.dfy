/**
 * Which entries eviction removes, and exactly when an operation runs out of space.
 */
module Eviction {
  import opened Sequences
  import opened FreeRuns
  import opened CacheModel

  /** The keys of ks that other clients hold, last one first (for the recency list: least recently used first). */
  function Candidates(entries: map<string, Entry>, ks: seq<string>, client: string): seq<string> {
    if ks == [] then []
    else
      var k := ks[|ks| - 1];
      (if Evictable(entries, k, client) then [k] else []) + Candidates(entries, ks[..|ks| - 1], client)
  }

  function PageCount(entries: map<string, Entry>, k: string): nat {
    if k in entries then entries[k].total else 0
  }

  function SumPages(entries: map<string, Entry>, ks: seq<string>): nat {
    if ks == [] then 0 else PageCount(entries, ks[0]) + SumPages(entries, ks[1..])
  }

  /** The pages of all keys in ks. */
  ghost function PagesIn(entries: map<string, Entry>, ks: seq<string>): set<nat> {
    if ks == [] then {}
    else (if ks[0] in entries then Elems(entries[ks[0]].pages) else {}) + PagesIn(entries, ks[1..])
  }

  /** The list without the keys in gone, order kept. */
  function Keep(ks: seq<string>, gone: set<string>): seq<string> {
    if ks == [] then [] else (if ks[0] in gone then [] else [ks[0]]) + Keep(ks[1..], gone)
  }

  /** How many keys from the front of ks cover the deficit (all of them if they cannot). */
  function Shortest(entries: map<string, Entry>, ks: seq<string>, deficit: int): (m: nat)
    ensures m <= |ks|
  {
    if ks == [] || deficit <= 0 then 0 else 1 + Shortest(entries, ks[1..], deficit - PageCount(entries, ks[0]))
  }

  /** Shortest is the least prefix length whose pages cover the deficit, or else the whole length. */
  lemma {:induction false} ShortestIsLeast(entries: map<string, Entry>, ks: seq<string>, deficit: int)
    ensures var m := Shortest(entries, ks, deficit);
            && (m == |ks| || SumPages(entries, ks[..m]) >= deficit)
            && forall j :: 0 <= j < m ==> SumPages(entries, ks[..j]) < deficit
  {
    var m := Shortest(entries, ks, deficit);
    if m > 0 {
      ShortestIsLeast(entries, ks[1..], deficit - PageCount(entries, ks[0]));
      forall j | 0 <= j <= m && j <= |ks|
        ensures j > 0 ==> SumPages(entries, ks[..j]) == PageCount(entries, ks[0]) + SumPages(entries, ks[1..][..j - 1])
      {
        if j > 0 { assert ks[..j][1..] == ks[1..][..j - 1]; }
      }
    }
  }

  lemma {:induction false} SumPrefix(entries: map<string, Entry>, ks: seq<string>, m: nat)
    requires m <= |ks|
    ensures SumPages(entries, ks[..m]) <= SumPages(entries, ks)
  {
    if m > 0 {
      SumPrefix(entries, ks[1..], m - 1);
      assert ks[..m][1..] == ks[1..][..m - 1];
    }
  }

  /** The sum over the shortest prefix reaches the deficit exactly when the sum over all of ks does. */
  lemma ShortestCovers(entries: map<string, Entry>, ks: seq<string>, deficit: int)
    ensures SumPages(entries, ks[..Shortest(entries, ks, deficit)]) >= deficit <==> SumPages(entries, ks) >= deficit
  {
    var m := Shortest(entries, ks, deficit);
    ShortestIsLeast(entries, ks, deficit);
    SumPrefix(entries, ks, m);
    assert ks[..|ks|] == ks;
  }

  // ---- These functions read only the entries of the keys in their list ----

  ghost predicate AgreeOn(a: map<string, Entry>, b: map<string, Entry>, ks: seq<string>) {
    forall k :: k in ks ==> (k in a <==> k in b) && (k in a ==> a[k] == b[k])
  }

  lemma {:induction false} CandidatesAgree(a: map<string, Entry>, b: map<string, Entry>, ks: seq<string>, client: string)
    requires AgreeOn(a, b, ks)
    ensures Candidates(a, ks, client) == Candidates(b, ks, client)
    ensures forall k :: k in Candidates(a, ks, client) ==> k in ks && Evictable(a, k, client)
  {
    if ks != [] {
      CandidatesAgree(a, b, ks[..|ks| - 1], client);
    }
  }

  lemma {:induction false} SumsAgree(a: map<string, Entry>, b: map<string, Entry>, ks: seq<string>)
    requires AgreeOn(a, b, ks)
    ensures SumPages(a, ks) == SumPages(b, ks) && PagesIn(a, ks) == PagesIn(b, ks)
    ensures forall d: int :: Shortest(a, ks, d) == Shortest(b, ks, d)
  {
    if ks != [] {
      SumsAgree(a, b, ks[1..]);
    }
  }

  lemma {:induction false} KeepConcat(a: seq<string>, b: seq<string>, gone: set<string>)
    ensures Keep(a + b, gone) == Keep(a, gone) + Keep(b, gone)
  {
    if a == [] {
      assert a + b == b;
    } else {
      KeepConcat(a[1..], b, gone);
      TailOfConcat(a, b);
    }
  }

  lemma {:induction false} KeepIgnores(ks: seq<string>, gone: set<string>, k: string)
    requires k !in ks
    ensures Keep(ks, gone + {k}) == Keep(ks, gone)
  {
    if ks != [] {
      KeepIgnores(ks[1..], gone, k);
    }
  }

  lemma {:induction false} KeepAll(ks: seq<string>)
    ensures Keep(ks, {}) == ks
  {
    if ks != [] {
      KeepAll(ks[1..]);
    }
  }

  lemma {:induction false} KeepMember(ks: seq<string>, gone: set<string>)
    ensures forall k :: k in Keep(ks, gone) <==> k in ks && k !in gone
  {
    if ks != [] {
      KeepMember(ks[1..], gone);
    }
  }

  // ---- Eviction removes exactly the shortest prefix of the candidates ----

  /** s after the given keys are gone: their pages are free, the others keep their places in the recency list. */
  ghost function RemoveAll(s: State, victims: seq<string>): State {
    State(s.size, s.free + PagesIn(s.entries, victims), s.entries - Elems(victims), Keep(s.lru, Elems(victims)))
  }

  lemma DropLruOk(s: State, i: nat)
    requires LruOk(s) && i < |s.lru|
    ensures LruOk(Drop(s, i))
  {
    WithoutProps(s.lru, s.lru[i]);
    WithoutAt(s.lru, i);
  }

  /** One victim k and then the rest, or k and the rest at once. */
  lemma RemoveStep(s: State, i: nat, rest: seq<string>)
    requires LruOk(s) && i < |s.lru| && s.lru[i] !in rest
    ensures RemoveAll(s, [s.lru[i]] + rest) == RemoveAll(Drop(s, i), rest)
  {
    hide Keep, PagesIn;
    assert s.lru[i] in Elems(s.lru);
    var k, t := s.lru[i], Drop(s, i);
    ElemsConcat([k], rest);
    assert Elems([k] + rest) == {k} + Elems(rest);
    KeepStep(s, i, Elems(rest));
    PagesInStep(s.entries, k, rest, t.entries);
    assert t.entries - Elems(rest) == s.entries - ({k} + Elems(rest));
  }

  lemma KeepStep(s: State, i: nat, gone: set<string>)
    requires LruOk(s) && i < |s.lru|
    ensures Keep(s.lru, {s.lru[i]} + gone) == Keep(s.lru[..i] + s.lru[i + 1..], gone)
  {
    var k, a, b := s.lru[i], s.lru[..i], s.lru[i + 1..];
    assert s.lru == a + [k] + b;
    KeepConcat(a + [k], b, gone + {k});
    KeepConcat(a, [k], gone + {k});
    KeepConcat(a, b, gone);
    KeepIgnores(a, gone, k);
    KeepIgnores(b, gone, k);
    assert gone + {k} == {k} + gone;
  }

  lemma PagesInStep(entries: map<string, Entry>, k: string, rest: seq<string>, fewer: map<string, Entry>)
    requires k in entries && k !in rest && fewer == entries - {k}
    ensures PagesIn(entries, [k] + rest) == Elems(entries[k].pages) + PagesIn(fewer, rest)
    ensures SumPages(entries, [k] + rest) == entries[k].total + SumPages(fewer, rest)
  {
    assert ([k] + rest)[1..] == rest;
    SumsAgree(entries, fewer, rest);
  }

  /** The keys that eviction removes when it walks from position i: the shortest covering prefix of the candidates. */
  ghost function Victims(s: State, i: nat, deficit: int, client: string): seq<string>
    requires i <= |s.lru|
  {
    var c := Candidates(s.entries, s.lru[..i], client);
    c[..Shortest(s.entries, c, deficit)]
  }

  lemma CandidatesEnd(entries: map<string, Entry>, ks: seq<string>, client: string)
    requires ks != [] && Evictable(entries, ks[|ks| - 1], client)
    ensures Candidates(entries, ks, client) == [ks[|ks| - 1]] + Candidates(entries, ks[..|ks| - 1], client)
  {
  }

  /** The victims of s are k followed by the victims of the state after k is dropped. */
  lemma VictimStep(s: State, i: nat, deficit: int, client: string)
    requires LruOk(s) && 0 < i <= |s.lru| && deficit > 0 && Evictable(s.entries, s.lru[i - 1], client)
    ensures var k, t := s.lru[i - 1], Drop(s, i - 1);
            var rest := Victims(t, i - 1, deficit - s.entries[k].total, client);
            k !in rest && Victims(s, i, deficit, client) == [k] + rest
  {
    hide Elems, Shortest, Candidates;
    var k, t, pre := s.lru[i - 1], Drop(s, i - 1), s.lru[..i - 1];
    assert k !in pre && t.lru[..i - 1] == pre && s.lru[..i][..i - 1] == pre && s.lru[..i][i - 1] == k;
    CandidatesAgree(s.entries, t.entries, pre, client);
    var d := Candidates(t.entries, pre, client);
    CandidatesEnd(s.entries, s.lru[..i], client);
    assert Candidates(s.entries, s.lru[..i], client) == [k] + d;
    PrefixStep(s.entries, t.entries, k, d, deficit);
  }

  lemma PrefixStep(entries: map<string, Entry>, fewer: map<string, Entry>, k: string, d: seq<string>, deficit: int)
    requires k in entries && fewer == entries - {k} && k !in d && deficit > 0
    ensures ([k] + d)[..Shortest(entries, [k] + d, deficit)]
         == [k] + d[..Shortest(fewer, d, deficit - entries[k].total)]
  {
    assert ([k] + d)[1..] == d;
    SumsAgree(entries, fewer, d);
  }

  /** A key of the requester, or one that is gone, is passed over. */
  lemma VictimSkip(s: State, i: nat, deficit: int, client: string)
    requires 0 < i <= |s.lru| && !Evictable(s.entries, s.lru[i - 1], client)
    ensures Victims(s, i, deficit, client) == Victims(s, i - 1, deficit, client)
  {
    assert s.lru[..i][..i - 1] == s.lru[..i - 1];
    assert Candidates(s.entries, s.lru[..i], client) == Candidates(s.entries, s.lru[..i - 1], client);
  }

  lemma NothingRemoved(s: State)
    ensures RemoveAll(s, []) == s
  {
    KeepAll(s.lru);
    ElemsOfEmpty<string>([]);
    assert s.entries - {} == s.entries;
    assert PagesIn(s.entries, []) == {};
  }

  /** The walk of eviction removes exactly the victims, and reports the pages still missing. */
  lemma {:induction false} EvictFromExact(s: State, i: nat, deficit: int, client: string)
    requires LruOk(s) && i <= |s.lru|
    ensures EvictFrom(s, i, deficit, client).0 == RemoveAll(s, Victims(s, i, deficit, client))
    ensures EvictFrom(s, i, deficit, client).1 == deficit - SumPages(s.entries, Victims(s, i, deficit, client))
    decreases i
  {
    hide LruOk, RemoveAll;
    if i == 0 || deficit <= 0 {
      NothingRemoved(s);
      assert Victims(s, i, deficit, client) == [];
    } else {
      var k := s.lru[i - 1];
      hide Victims;
      if Evictable(s.entries, k, client) {
        var t, left := Drop(s, i - 1), deficit - s.entries[k].total;
        VictimStep(s, i, deficit, client);
        DropLruOk(s, i - 1);
        RemoveStep(s, i - 1, Victims(t, i - 1, left, client));
        PagesInStep(s.entries, k, Victims(t, i - 1, left, client), t.entries);
        EvictFromExact(t, i - 1, left, client);
      } else {
        VictimSkip(s, i, deficit, client);
        EvictFromExact(s, i - 1, deficit, client);
      }
    }
  }

  /**
   * Eviction removes exactly the shortest prefix, in least-recently-used order among other clients' keys, whose
   * pages cover what is missing, or all of those keys when that is impossible. It reports room exactly when the
   * pages of all of them would do. The survivors keep their places.
   */
  lemma EvictionExact(s: State, need: nat, client: string)
    requires LruOk(s)
    ensures var c, deficit := Candidates(s.entries, s.lru, client), need - |s.free|;
            var m := Shortest(s.entries, c, deficit);
            && Evict(s, need, client).0 == RemoveAll(s, c[..m])
            && (m == |c| || SumPages(s.entries, c[..m]) >= deficit)
            && (forall j :: 0 <= j < m ==> SumPages(s.entries, c[..j]) < deficit)
            && (Evict(s, need, client).1 <==> |s.free| + SumPages(s.entries, c) >= need)
  {
    hide RemoveAll;
    var c, deficit := Candidates(s.entries, s.lru, client), need - |s.free|;
    assert s.lru[..|s.lru|] == s.lru;
    ShortestIsLeast(s.entries, c, deficit);
    ShortestCovers(s.entries, c, deficit);
    if deficit <= 0 {
      NothingRemoved(s);
      assert c[..0] == [];
    } else {
      EvictFromExact(s, |s.lru|, deficit, client);
    }
  }

  // ---- Page totals are sizes of page sets ----

  /** The pages that entries of other clients hold. */
  ghost function HeldByOthers(s: State, client: string): set<nat> {
    set k, p | k in s.entries && s.entries[k].client != client && p in s.entries[k].pages :: p
  }

  ghost predicate AreKeys(s: State, ks: seq<string>) { NoDup(ks) && Elems(ks) <= s.entries.Keys }

  lemma {:induction false} PagesInMember(entries: map<string, Entry>, ks: seq<string>)
    ensures forall p :: p in PagesIn(entries, ks) <==> exists k :: k in ks && k in entries && p in entries[k].pages
  {
    if ks != [] {
      PagesInMember(entries, ks[1..]);
      forall p ensures p in PagesIn(entries, ks) <==> exists k :: k in ks && k in entries && p in entries[k].pages {
        if k :| k in ks && k in entries && p in entries[k].pages {
          assert k == ks[0] || k in ks[1..];
        }
        if p in PagesIn(entries, ks[1..]) {
          var k :| k in ks[1..] && k in entries && p in entries[k].pages;
          assert k in ks;
        }
      }
    }
  }

  /** Chains of different keys share no page, so page counts add up to sizes. */
  lemma {:induction false} SumIsSize(s: State, ks: seq<string>)
    requires Inv(s) && AreKeys(s, ks)
    ensures |PagesIn(s.entries, ks)| == SumPages(s.entries, ks)
  {
    if ks != [] {
      var k, rest := ks[0], ks[1..];
      assert k in Elems(ks) && k !in rest;
      assert AreKeys(s, rest) by {
        forall x | x in Elems(rest) ensures x in s.entries { assert x in Elems(ks); }
      }
      SumIsSize(s, rest);
      PagesInMember(s.entries, rest);
      InvChain(s, k);
      CardElems(s.entries[k].pages);
      forall p | p in Elems(s.entries[k].pages) && p in PagesIn(s.entries, rest) ensures false {
        var m :| m in rest && m in s.entries && p in s.entries[m].pages;
        assert Owns(s, k, p) && Owns(s, m, p);
      }
    }
  }

  lemma {:induction false} CandidateKeys(s: State, ks: seq<string>, client: string)
    requires NoDup(ks)
    ensures var c := Candidates(s.entries, ks, client);
            NoDup(c) && forall k :: k in c <==> k in ks && Evictable(s.entries, k, client)
  {
    if ks != [] {
      var pre, k := ks[..|ks| - 1], ks[|ks| - 1];
      CandidateKeys(s, pre, client);
      assert ks == pre + [k] && k !in pre;
      var c, d := Candidates(s.entries, ks, client), Candidates(s.entries, pre, client);
      hide Candidates;
      if Evictable(s.entries, k, client) {
        assert c == [k] + d;
        assert k !in d;
        assert NoDup(c);
      } else {
        assert c == d;
      }
    }
  }

  /** The candidates hold exactly the pages of other clients. */
  lemma CandidatesHold(s: State, client: string)
    requires Inv(s)
    ensures PagesIn(s.entries, Candidates(s.entries, s.lru, client)) == HeldByOthers(s, client)
    ensures SumPages(s.entries, Candidates(s.entries, s.lru, client)) == |HeldByOthers(s, client)|
  {
    var c := Candidates(s.entries, s.lru, client);
    CandidateKeys(s, s.lru, client);
    PagesInMember(s.entries, c);
    assert forall k :: k in s.entries <==> k in Elems(s.lru);
    assert AreKeys(s, c);
    SumIsSize(s, c);
  }

  /** Conservation: free pages and the page counts of all entries add up to the whole memory. */
  lemma Conservation(s: State)
    requires Inv(s)
    ensures |s.free| + SumPages(s.entries, s.lru) == s.size
  {
    var used := PagesIn(s.entries, s.lru);
    SumIsSize(s, s.lru);
    PagesInMember(s.entries, s.lru);
    assert forall k :: k in s.entries <==> k in Elems(s.lru);
    AllPagesMember(s.size);
    forall p ensures p in AllPages(s.size) <==> p in s.free + used {
      if p in used {
        var k :| k in s.lru && k in s.entries && p in s.entries[k].pages;
        InvChain(s, k);
      }
      if p in AllPages(s.size) && p !in s.free {
        var k :| k in s.entries && Owns(s, k, p);
        assert k in s.lru;
      }
    }
    forall p | p in used ensures p !in s.free {
      var k :| k in s.lru && k in s.entries && p in s.entries[k].pages;
      InvChain(s, k);
    }
    assert AllPages(s.size) == s.free + used;
    IncreasingNoDup(Range(0, s.size));
    CardElems(Range(0, s.size));
  }
}
