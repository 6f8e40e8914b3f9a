/** What block counts, block lengths and in-place splitting mean for the set of free pages. */
module RunStatistics {
  import opened Sequences
  import opened FreeRuns

  /** The n pages from lo on are free. */
  ghost predicate RunFree(free: set<nat>, lo: nat, n: nat) { forall p :: lo <= p < lo + n ==> p in free }

  /** The pages where a maximal run of free pages starts. */
  ghost function RunStarts(free: set<nat>): set<nat> { set p | p in free && StartsRun(free, p) }

  ghost predicate StartsRun(free: set<nat>, p: nat) { p == 0 || p - 1 !in free }

  ghost function Starts(bs: seq<Block>): seq<nat> { seq(|bs|, i requires 0 <= i < |bs| => bs[i].start) }

  ghost function Ends(bs: seq<Block>): seq<nat> { seq(|bs|, i requires 0 <= i < |bs| => bs[i].End()) }

  /** The number of blocks is the number of maximal runs. */
  lemma BlocksAreRuns(bs: seq<Block>, free: set<nat>)
    requires FreeListOf(bs, free)
    ensures |bs| == |RunStarts(free)|
  {
    var st := Starts(bs);
    forall i, j | 0 <= i < j < |st| ensures st[i] != st[j] {
      assert bs[i].End() < bs[j].start;
    }
    forall p ensures p in Elems(st) <==> p in RunStarts(free) {
      if p in Elems(st) {
        var i :| 0 <= i < |st| && st[i] == p;
        BlocksAreMaximalRuns(bs, free, i);
        assert bs[i].start <= p < bs[i].End();
      }
      if p in RunStarts(free) {
        FlatMember(bs, p);
        var i :| 0 <= i < |bs| && InBlock(bs[i], p);
        BlocksAreMaximalRuns(bs, free, i);
        assert p == bs[i].start || p - 1 in free;
        assert st[i] == p;
      }
    }
    assert Elems(st) == RunStarts(free);
    CardElems(st);
  }

  /** Between two blocks lies a used page, so there are at most as many blocks as used pages, plus one. */
  lemma FewBlocks(bs: seq<Block>, free: set<nat>, size: nat)
    requires FreeListOf(bs, free) && forall p :: p in free ==> p < size
    ensures |bs| <= size - |free| + 1
  {
    hide Elems, Flat;
    var all := Range(0, size);
    IncreasingNoDup(all);
    CardElems(all);
    forall p | p in free ensures p in Elems(all) { RangeMember(size, p); }
    var used := Elems(all) - free;
    assert |used| + |free| == |used + free| && used + free == Elems(all);
    if |bs| > 0 {
      EndsAreUsed(bs, free, size);
      NoDupWithin(Ends(bs[..|bs| - 1]), used);
    }
  }

  lemma RangeMember(size: nat, p: nat)
    ensures p in Elems(Range(0, size)) <==> p < size
  {
    if p < size { assert Range(0, size)[p] == p; }
  }

  /** The page after each block but the last is in use. */
  lemma EndsAreUsed(bs: seq<Block>, free: set<nat>, size: nat)
    requires FreeListOf(bs, free) && bs != [] && forall p :: p in free ==> p < size
    ensures var en := Ends(bs[..|bs| - 1]); NoDup(en) && Elems(en) <= Elems(Range(0, size)) - free
  {
    var en := Ends(bs[..|bs| - 1]);
    forall i, j | 0 <= i < j < |en| ensures en[i] != en[j] {
      assert bs[i].End() < bs[j].start <= bs[j].End();
    }
    forall p | p in Elems(en) ensures p in Elems(Range(0, size)) && p !in free {
      var i :| 0 <= i < |en| && en[i] == p;
      BlocksAreMaximalRuns(bs, free, i);
      BlocksAreMaximalRuns(bs, free, i + 1);
      assert bs[i + 1].start in free;
      RangeMember(size, p);
    }
  }

  ghost function TotalLength(bs: seq<Block>): nat {
    if bs == [] then 0 else bs[0].len + TotalLength(bs[1..])
  }

  lemma EmptyTotal()
    ensures TotalLength([]) == 0
  {
  }

  lemma {:induction false} FlatLength(bs: seq<Block>)
    ensures |Flat(bs)| == TotalLength(bs)
  {
    if bs != [] {
      FlatLength(bs[1..]);
    }
  }

  lemma TotalIsSize(bs: seq<Block>, free: set<nat>)
    requires FreeListOf(bs, free)
    ensures TotalLength(bs) == |free|
  {
    FlatLength(bs);
    FlatIsAscending(bs, free);
  }

  /** One block among several is shorter than all of them together. */
  lemma {:induction false} OneOfMany(bs: seq<Block>, i: nat)
    requires i < |bs| && forall j :: 0 <= j < |bs| ==> bs[j].len >= 1
    ensures TotalLength(bs) >= bs[i].len + |bs| - 1
  {
    if i > 0 {
      OneOfMany(bs[1..], i - 1);
    } else if |bs| > 1 {
      OneOfMany(bs[1..], 0);
    }
  }

  /** The longest block is the longest run of free pages. */
  lemma LongestRun(bs: seq<Block>, free: set<nat>, largest: nat)
    requires FreeListOf(bs, free) && bs != []
    requires (exists i :: 0 <= i < |bs| && bs[i].len == largest) && forall i :: 0 <= i < |bs| ==> bs[i].len <= largest
    ensures exists lo: nat :: RunFree(free, lo, largest)
    ensures forall lo: nat, n: nat :: RunFree(free, lo, n) ==> n <= largest
  {
    var i :| 0 <= i < |bs| && bs[i].len == largest;
    BlocksAreMaximalRuns(bs, free, i);
    assert RunFree(free, bs[i].start, largest);
    forall lo: nat, n: nat | RunFree(free, lo, n) ensures n <= largest {
      if n > 0 {
        var j := RunInOneBlock(bs, free, lo, lo + n);
        assert bs[j].len <= largest;
      }
    }
  }

  /** The first block of length at least n >= 1 starts at the lowest run of n free pages; without one there is none. */
  lemma FirstFit(bs: seq<Block>, free: set<nat>, n: nat, at: nat)
    requires FreeListOf(bs, free) && n >= 1 && at <= |bs|
    requires forall i :: 0 <= i < at ==> bs[i].len < n
    requires at < |bs| ==> bs[at].len >= n
    ensures at < |bs| ==> RunFree(free, bs[at].start, n)
    ensures forall lo: nat :: RunFree(free, lo, n) ==> at < |bs| && bs[at].start <= lo
  {
    if at < |bs| {
      BlocksAreMaximalRuns(bs, free, at);
    }
    forall lo: nat | RunFree(free, lo, n) ensures at < |bs| && bs[at].start <= lo {
      var j := RunInOneBlock(bs, free, lo, lo + n);
      assert j >= at;
      assert j > at ==> bs[at].End() < bs[j].start;
    }
  }

  // ---- Cutting a range out of the list ----

  /** What is left of block b when the n pages from lo are cut out of it. */
  function Remains(b: Block, lo: nat, n: nat): seq<Block>
    requires b.start <= lo && lo + n <= b.End()
  {
    (if lo > b.start then [Block(b.start, lo - b.start)] else [])
    + (if b.End() > lo + n then [Block(lo + n, b.End() - (lo + n))] else [])
  }

  predicate Encloses(b: Block, lo: nat, n: nat) { b.start <= lo && lo + n <= b.End() }

  /** The list after the first block that encloses the range is cut; unchanged if there is none. */
  function CutOut(bs: seq<Block>, lo: nat, n: nat): seq<Block> {
    if bs == [] then []
    else if Encloses(bs[0], lo, n) then Remains(bs[0], lo, n) + bs[1..]
    else [bs[0]] + CutOut(bs[1..], lo, n)
  }

  /** Cutting at a known place. */
  lemma {:induction false} CutOutAt(bs: seq<Block>, lo: nat, n: nat, at: nat)
    requires at <= |bs| && forall i :: 0 <= i < at ==> !Encloses(bs[i], lo, n)
    ensures at == |bs| ==> CutOut(bs, lo, n) == bs
    ensures at < |bs| && Encloses(bs[at], lo, n) ==>
              CutOut(bs, lo, n) == bs[..at] + Remains(bs[at], lo, n) + bs[at + 1..]
  {
    if bs == [] {
    } else if at == 0 {
      assert bs[..0] == [];
    } else {
      CutOutAt(bs[1..], lo, n, at - 1);
      if at < |bs| {
        assert bs[..at] == [bs[0]] + bs[1..][..at - 1];
      }
    }
  }

  ghost function Cut(lo: nat, n: nat): set<nat> { Elems(Range(lo, lo + n)) }

  lemma CutMember(lo: nat, n: nat)
    ensures forall p: nat :: p in Cut(lo, n) <==> lo <= p < lo + n
  {
    forall p: nat ensures p in Cut(lo, n) <==> lo <= p < lo + n {
      if lo <= p < lo + n { assert Range(lo, lo + n)[p - lo] == p; }
    }
  }

  /** Cutting a wholly free, non-empty range out of the normal form gives the normal form of what is left. */
  lemma CutKeepsNormalForm(bs: seq<Block>, free: set<nat>, lo: nat, n: nat)
    requires FreeListOf(bs, free) && n >= 1 && RunFree(free, lo, n)
    ensures FreeListOf(CutOut(bs, lo, n), free - Cut(lo, n))
  {
    var at := RunInOneBlock(bs, free, lo, lo + n);
    forall i | 0 <= i < at ensures !Encloses(bs[i], lo, n) {
      assert bs[i].End() < bs[at].start;
    }
    CutOutAt(bs, lo, n, at);
    CutCanonical(bs, lo, n, at);
    CutPages(bs, free, lo, n, at);
  }

  lemma CutCanonical(bs: seq<Block>, lo: nat, n: nat, at: nat)
    requires Canonical(bs) && at < |bs| && n >= 1 && Encloses(bs[at], lo, n)
    ensures Canonical(bs[..at] + Remains(bs[at], lo, n) + bs[at + 1..])
  {
    var mid := Remains(bs[at], lo, n);
    assert forall i :: 0 <= i < |mid| ==> bs[at].start <= mid[i].start && mid[i].End() <= bs[at].End();
    assert Canonical(mid);
    CanonicalJoin(bs[..at], mid, bs[at + 1..]);
  }

  lemma CanonicalJoin(a: seq<Block>, b: seq<Block>, c: seq<Block>)
    requires Canonical(a) && Canonical(b) && Canonical(c)
    requires forall i, j :: 0 <= i < |a| && 0 <= j < |b| ==> a[i].End() < b[j].start
    requires forall i, j :: 0 <= i < |a| && 0 <= j < |c| ==> a[i].End() < c[j].start
    requires forall i, j :: 0 <= i < |b| && 0 <= j < |c| ==> b[i].End() < c[j].start
    ensures Canonical(a + b + c)
  {
  }

  lemma CutPages(bs: seq<Block>, free: set<nat>, lo: nat, n: nat, at: nat)
    requires FreeListOf(bs, free) && at < |bs| && Encloses(bs[at], lo, n)
    ensures Elems(Flat(bs[..at] + Remains(bs[at], lo, n) + bs[at + 1..])) == free - Cut(lo, n)
  {
    var a, c, b := bs[..at], bs[at + 1..], bs[at];
    var mid := Remains(b, lo, n);
    assert bs == a + [b] + c;
    assert forall i :: 0 <= i < |a| ==> a[i].End() < b.start;
    assert forall i :: 0 <= i < |c| ==> b.End() < c[i].start;
    CutMember(lo, n);
    forall p: nat ensures p in Flat(a + mid + c) <==> p in free && !(lo <= p < lo + n) {
      FlatTripleMember(a, mid, c, p);
      FlatTripleMember(a, [b], c, p);
      FlatMember(mid, p);
      FlatMember([b], p);
      FlatMember(a, p);
      FlatMember(c, p);
      RemainsMember(b, lo, n, p);
      assert p in Flat(bs) <==> p in free;
      assert InBlock(b, p) <==> exists i :: 0 <= i < 1 && InBlock([b][i], p) by { assert [b][0] == b; }
    }
  }

  lemma FlatTripleMember(a: seq<Block>, b: seq<Block>, c: seq<Block>, p: nat)
    ensures p in Flat(a + b + c) <==> p in Flat(a) || p in Flat(b) || p in Flat(c)
  {
    hide Flat;
    FlatTriple(a, b, c);
  }

  lemma RemainsMember(b: Block, lo: nat, n: nat, p: nat)
    requires Encloses(b, lo, n)
    ensures (exists i :: 0 <= i < |Remains(b, lo, n)| && InBlock(Remains(b, lo, n)[i], p))
       <==> InBlock(b, p) && !(lo <= p < lo + n)
  {
    var r := Remains(b, lo, n);
    if b.start <= p < lo { assert InBlock(r[0], p); }
    if lo + n <= p < b.End() { assert InBlock(r[|r| - 1], p); }
  }

  /** Cutting a non-empty range keeps the normal form exactly when the range was wholly free or wholly in use. */
  lemma CutExact(bs: seq<Block>, free: set<nat>, lo: nat, n: nat)
    requires FreeListOf(bs, free) && n >= 1
    ensures FreeListOf(CutOut(bs, lo, n), free - Cut(lo, n)) <==> (RunFree(free, lo, n) || free !! Cut(lo, n))
  {
    if RunFree(free, lo, n) {
      CutKeepsNormalForm(bs, free, lo, n);
    } else {
      forall i | 0 <= i < |bs| ensures !Encloses(bs[i], lo, n) {
        BlocksAreMaximalRuns(bs, free, i);
      }
      CutOutAt(bs, lo, n, |bs|);
      assert CutOut(bs, lo, n) == bs;
    }
  }

  /** Cutting an empty range splits a block in two touching ones when it falls strictly inside; else nothing changes. */
  lemma EmptyCutExact(bs: seq<Block>, free: set<nat>, lo: nat)
    requires FreeListOf(bs, free)
    ensures FreeListOf(CutOut(bs, lo, 0), free) <==> !(lo > 0 && lo - 1 in free && lo in free)
  {
    hide FreeListOf, CutOut, Encloses;
    if lo > 0 && lo - 1 in free && lo in free {
      EmptyCutInside(bs, free, lo);
    } else {
      var at := FirstEnclosing(bs, lo, 0, 0);
      EmptyCutAtEdge(bs, free, lo, at);
    }
  }

  /** The first block from position i on that encloses the range, or the end of the list. */
  function FirstEnclosing(bs: seq<Block>, lo: nat, n: nat, i: nat): (at: nat)
    requires i <= |bs|
    ensures i <= at <= |bs| && (at < |bs| ==> Encloses(bs[at], lo, n))
    ensures forall j :: i <= j < at ==> !Encloses(bs[j], lo, n)
    decreases |bs| - i
  {
    if i == |bs| || Encloses(bs[i], lo, n) then i else FirstEnclosing(bs, lo, n, i + 1)
  }

  lemma EmptyCutInside(bs: seq<Block>, free: set<nat>, lo: nat)
    requires FreeListOf(bs, free) && lo > 0 && lo - 1 in free && lo in free
    ensures !FreeListOf(CutOut(bs, lo, 0), free)
  {
    hide Elems, Flat, CutOut;
    var at := RunInOneBlock(bs, free, lo - 1, lo + 1);
    forall i | 0 <= i < at ensures !Encloses(bs[i], lo, 0) {
      assert bs[i].End() < bs[at].start;
    }
    CutOutAt(bs, lo, 0, at);
    var t := CutOut(bs, lo, 0);
    assert t[at] == Block(bs[at].start, lo - bs[at].start) && t[at + 1].start == lo;
  }

  lemma EmptyCutAtEdge(bs: seq<Block>, free: set<nat>, lo: nat, at: nat)
    requires FreeListOf(bs, free) && !(lo > 0 && lo - 1 in free && lo in free)
    requires at <= |bs| && (at < |bs| ==> Encloses(bs[at], lo, 0)) && forall i :: 0 <= i < at ==> !Encloses(bs[i], lo, 0)
    ensures CutOut(bs, lo, 0) == bs
  {
    hide Elems, Flat, CutOut;
    CutOutAt(bs, lo, 0, at);
    if at < |bs| {
      BlocksAreMaximalRuns(bs, free, at);
      assert lo == bs[at].start || lo == bs[at].End();
      assert Remains(bs[at], lo, 0) == [bs[at]];
      assert bs == bs[..at] + [bs[at]] + bs[at + 1..];
    }
  }

  lemma AbsentRange(bs: seq<Block>, free: set<nat>, lo: nat, n: nat)
    requires FreeListOf(bs, free) && free !! Cut(lo, n)
    ensures forall p :: lo <= p < lo + n ==> p !in Flat(bs)
  {
    CutMember(lo, n);
    forall p | lo <= p < lo + n ensures p !in Flat(bs) { assert p in Cut(lo, n); }
  }

  lemma {:induction false} TotalConcat(a: seq<Block>, b: seq<Block>)
    ensures TotalLength(a + b) == TotalLength(a) + TotalLength(b)
  {
    if a == [] {
      assert a + b == b;
    } else {
      TotalConcat(a[1..], b);
      TailOfConcat(a, b);
    }
  }

  lemma {:induction false} CoalescedTotal(bs: seq<Block>)
    ensures TotalLength(Coalesced(bs)) == TotalLength(bs)
    decreases |bs|
  {
    if |bs| >= 2 {
      assert bs[1..][0] == bs[1] && bs[1..][1..] == bs[2..];
      if bs[0].End() == bs[1].start {
        var next := [Merged(bs[0], bs[1])] + bs[2..];
        assert next[1..] == bs[2..];
        CoalescedTotal(next);
      } else {
        CoalescedTotal(bs[1..]);
      }
    }
  }

  lemma SplicedTotal(bs: seq<Block>, i: nat, b: Block)
    requires i <= |bs|
    ensures TotalLength(bs[..i] + [b] + bs[i..]) == TotalLength(bs) + b.len
  {
    TotalConcat(bs[..i] + [b], bs[i..]);
    TotalConcat(bs[..i], [b]);
    TotalConcat(bs[..i], bs[i..]);
    assert bs[..i] + bs[i..] == bs;
    assert TotalLength([b]) == b.len + TotalLength([]);
  }

  /** lo is the page just after a free run, or it starts a free run that is not the first. */
  ghost predicate AtARun(free: set<nat>, lo: nat) {
    && lo > 0
    && if lo - 1 in free then lo !in free else lo in free && exists p :: p in free && p < lo
  }

  /** Returning no pages leaves the normal form exactly at the end of a free run, or at the start of a later one. */
  lemma EmptyReturnExact(bs: seq<Block>, free: set<nat>, at: nat, lo: nat)
    requires FreeListOf(bs, free) && PlaceOf(bs, at, lo)
    ensures FreeListOf(Coalesced(bs[..at] + [Block(lo, 0)] + bs[at..]), free) <==> AtARun(free, lo)
  {
    hide Flat, Elems, Coalesced;
    EmptyBlock(bs, at, lo);
    if at > 0 && bs[at - 1].End() == lo {
      BlocksAreMaximalRuns(bs, free, at - 1);
      assert bs[at - 1].start <= lo - 1 < bs[at - 1].End();
    } else if at < |bs| && bs[at].start == lo {
      BlocksAreMaximalRuns(bs, free, at);
      BlocksAreMaximalRuns(bs, free, 0);
      assert bs[0].len >= 1 && bs[at].len >= 1 && bs[0].End() < bs[at].start;
      assert bs[0].start in free && bs[0].start < lo && lo in free;
    } else if AtARun(free, lo) {
      TouchesAtARun(bs, free, at, lo);
      assert false;
    }
  }

  lemma TouchesAtARun(bs: seq<Block>, free: set<nat>, at: nat, lo: nat)
    requires FreeListOf(bs, free) && PlaceOf(bs, at, lo) && AtARun(free, lo)
    ensures (at > 0 && bs[at - 1].End() == lo) || (at < |bs| && bs[at].start == lo)
  {
    hide Flat, Elems;
    if lo - 1 in free {
      var i := RunInOneBlock(bs, free, lo - 1, lo);
      BlocksAreMaximalRuns(bs, free, i);
      assert bs[i].End() == lo;
    } else {
      var i := RunInOneBlock(bs, free, lo, lo + 1);
      BlocksAreMaximalRuns(bs, free, i);
      assert bs[i].start == lo;
      var p :| p in free && p < lo;
      var j := RunInOneBlock(bs, free, p, p + 1);
      assert bs[j].start < lo;
    }
  }

  /** A list that lists some page twice is too long to be the normal form. */
  lemma OverlapShows(bs: seq<Block>, free: set<nat>, cs: seq<Block>, lo: nat, n: nat)
    requires FreeListOf(bs, free) && FreeListOf(cs, free + Cut(lo, n)) && TotalLength(cs) == TotalLength(bs) + n
    ensures free !! Cut(lo, n)
  {
    TotalIsSize(bs, free);
    TotalIsSize(cs, free + Cut(lo, n));
    IncreasingNoDup(Range(lo, lo + n));
    CardElems(Range(lo, lo + n));
    var c := Cut(lo, n);
    assert free + c == (free - c) + c && free == (free - c) + (free * c);
  }

  /** Returning a non-empty range leaves the normal form exactly when the whole range was in use. */
  lemma ReturnExact(bs: seq<Block>, free: set<nat>, at: nat, lo: nat, n: nat)
    requires FreeListOf(bs, free) && PlaceOf(bs, at, lo) && n >= 1
    ensures FreeListOf(Coalesced(bs[..at] + [Block(lo, n)] + bs[at..]), free + Cut(lo, n)) <==> free !! Cut(lo, n)
  {
    hide Flat, Sorted, Canonical, Elems, TotalLength, Coalesced;
    var longer := bs[..at] + [Block(lo, n)] + bs[at..];
    if free !! Cut(lo, n) {
      CanonicalIsSorted(bs);
      AbsentRange(bs, free, lo, n);
      SpliceIn(bs, at, Block(lo, n));
      CoalescedSorted(longer);
    }
    SplicedTotal(bs, at, Block(lo, n));
    CoalescedTotal(longer);
    if FreeListOf(Coalesced(longer), free + Cut(lo, n)) {
      OverlapShows(bs, free, Coalesced(longer), lo, n);
    }
  }

  lemma TotalStep(bs: seq<Block>, i: nat)
    requires i < |bs|
    ensures TotalLength(bs[..i + 1]) == TotalLength(bs[..i]) + bs[i].len
  {
    assert bs[..i + 1] == bs[..i] + [bs[i]];
    TotalConcat(bs[..i], [bs[i]]);
    assert TotalLength([bs[i]]) == bs[i].len + TotalLength([]);
  }

  /** Block count and longest block, read off the free list, say what they should about the free pages. */
  lemma StatsMeaning(bs: seq<Block>, free: set<nat>, size: nat, largest: nat)
    requires FreeListOf(bs, free) && forall p :: p in free ==> p < size
    requires bs == [] ==> largest == 0
    requires bs != [] ==> exists i :: 0 <= i < |bs| && bs[i].len == largest
    requires forall i :: 0 <= i < |bs| ==> bs[i].len <= largest
    ensures |bs| == |RunStarts(free)| <= size - |free| + 1
    ensures TotalLength(bs) == |free| && (bs == [] <==> free == {})
    ensures free != {} ==> exists lo: nat :: RunFree(free, lo, largest)
    ensures forall lo: nat, n: nat :: RunFree(free, lo, n) ==> n <= largest
    ensures free != {} ==> 1 <= largest <= |free| && (largest == |free| <==> |bs| == 1)
  {
    BlocksAreRuns(bs, free);
    FewBlocks(bs, free, size);
    TotalIsSize(bs, free);
    if bs == [] {
      assert Flat(bs) == [];
      forall lo: nat, n: nat | n > 0 ensures !RunFree(free, lo, n) {
        assert lo !in free;
      }
    } else {
      LongestRun(bs, free, largest);
      var i :| 0 <= i < |bs| && bs[i].len == largest;
      OneOfMany(bs, i);
      assert |bs| == 1 ==> TotalLength(bs) == bs[0].len + TotalLength(bs[1..]);
    }
  }

  /** The share of free pages outside the longest block, as a percentage. */
  function Ratio(largest: nat, total: nat): real
    requires total > 0
  {
    (1.0 - (largest as real) / (total as real)) * 100.0
  }

  lemma Quotient(l: real, t: real)
    requires 0.0 < l <= t
    ensures 0.0 < l / t <= 1.0 && (l / t == 1.0 <==> l == t)
  {
    assert l / t * t == l;
    Scaled(0.0, l / t, t);
    Scaled(1.0, l / t, t);
  }

  lemma Scaled(a: real, b: real, t: real)
    requires t > 0.0
    ensures a < b <==> a * t < b * t
  {
    if a < b {
      assert (b - a) * t > 0.0;
    } else {
      assert (a - b) * t >= 0.0;
    }
  }

  lemma RatioFacts(largest: nat, total: nat)
    requires 1 <= largest <= total
    ensures 0.0 <= Ratio(largest, total) < 100.0
    ensures Ratio(largest, total) == 0.0 <==> largest == total
    ensures Ratio(largest, total) * (total as real) == ((total - largest) * 100) as real
  {
    var l, t := largest as real, total as real;
    var q := l / t;
    assert q * t == l;
    assert (1.0 - q) * t == t - l;
    Quotient(l, t);
    assert Ratio(largest, total) * t == (1.0 - q) * t * 100.0;
  }
}
