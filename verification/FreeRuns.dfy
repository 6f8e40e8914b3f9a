/**
 * The free list as a value: a sequence of (start, length) blocks. The theory says when such a list is the
 * normal form of a set of free pages, that the normal form is unique, and that reading it block by block
 * enumerates the free pages in increasing order.
 */
module FreeRuns {
  import opened Sequences

  datatype Block = Block(start: nat, len: nat) {
    function End(): nat { start + len }
  }

  function Range(lo: nat, hi: nat): (r: seq<nat>)
    requires lo <= hi
    ensures |r| == hi - lo && forall i :: 0 <= i < |r| ==> r[i] == lo + i
  {
    seq(hi - lo, i requires 0 <= i => lo + i)
  }

  lemma RangeGrows(lo: nat, hi: nat)
    requires lo <= hi
    ensures Range(lo, hi + 1) == Range(lo, hi) + [hi]
    ensures Elems(Range(lo, hi + 1)) == Elems(Range(lo, hi)) + {hi}
  {
    assert Range(lo, hi + 1) == Range(lo, hi) + [hi];
    ElemsConcat(Range(lo, hi), [hi]);
  }

  ghost predicate Increasing(s: seq<nat>) {
    forall i, j :: 0 <= i < j < |s| ==> s[i] < s[j]
  }

  /** The pages of a list of blocks, block by block. */
  ghost function Flat(bs: seq<Block>): seq<nat> {
    if bs == [] then [] else Range(bs[0].start, bs[0].End()) + Flat(bs[1..])
  }

  /** Sorted, disjoint and non-empty, but neighbours may touch (the list while pages are being returned). */
  ghost predicate Sorted(bs: seq<Block>) {
    && (forall i :: 0 <= i < |bs| ==> bs[i].len >= 1)
    && (forall i, j :: 0 <= i < j < |bs| ==> bs[i].End() <= bs[j].start)
  }

  /** Sorted, disjoint, non-empty and non-adjacent: the normal form. */
  ghost predicate Canonical(bs: seq<Block>) {
    && (forall i :: 0 <= i < |bs| ==> bs[i].len >= 1)
    && (forall i, j :: 0 <= i < j < |bs| ==> bs[i].End() < bs[j].start)
  }

  /** bs is the normal form of the set of free pages. */
  ghost predicate FreeListOf(bs: seq<Block>, free: set<nat>) {
    Canonical(bs) && Elems(Flat(bs)) == free
  }

  ghost predicate InBlock(b: Block, p: nat) { b.start <= p < b.End() }

  lemma ConsFlat(b: Block, bs: seq<Block>)
    ensures Flat([b] + bs) == Range(b.start, b.End()) + Flat(bs)
  {
    assert ([b] + bs)[1..] == bs;
  }

  lemma {:induction false} FlatConcat(a: seq<Block>, b: seq<Block>)
    ensures Flat(a + b) == Flat(a) + Flat(b)
  {
    if a == [] {
      assert a + b == b;
    } else {
      FlatConcat(a[1..], b);
      TailOfConcat(a, b);
      Associative(Range(a[0].start, a[0].End()), Flat(a[1..]), Flat(b));
    }
  }

  lemma FlatSingle(b: Block)
    ensures Flat([b]) == Range(b.start, b.End())
  {
    assert Flat([b]) == Range(b.start, b.End()) + Flat([]);
  }

  lemma {:induction false} FlatMember(bs: seq<Block>, p: nat)
    ensures p in Flat(bs) <==> exists i :: 0 <= i < |bs| && InBlock(bs[i], p)
  {
    if bs != [] {
      var r := Range(bs[0].start, bs[0].End());
      FlatMember(bs[1..], p);
      if InBlock(bs[0], p) {
        assert r[p - bs[0].start] == p;
      }
      if i :| 0 <= i < |bs| && InBlock(bs[i], p) {
        if i > 0 { assert InBlock(bs[1..][i - 1], p); }
      }
      if p in Flat(bs[1..]) {
        var i :| 0 <= i < |bs[1..]| && InBlock(bs[1..][i], p);
        assert InBlock(bs[i + 1], p);
      }
    }
  }

  lemma {:induction false} FlatIncreasing(bs: seq<Block>)
    requires Sorted(bs)
    ensures Increasing(Flat(bs))
  {
    if bs != [] {
      FlatIncreasing(bs[1..]);
      var r, t := Range(bs[0].start, bs[0].End()), Flat(bs[1..]);
      forall j | 0 <= j < |t| ensures bs[0].End() <= t[j] {
        FlatMember(bs[1..], t[j]);
      }
    }
  }

  lemma IncreasingNoDup(s: seq<nat>)
    requires Increasing(s)
    ensures NoDup(s)
  {
  }

  lemma TailElems(s: seq<nat>)
    requires Increasing(s) && s != []
    ensures Elems(s[1..]) == Elems(s) - {s[0]}
  {
    assert s == [s[0]] + s[1..];
    ElemsConcat([s[0]], s[1..]);
    assert s[0] !in s[1..];
  }

  /** An increasing sequence is determined by its elements. */
  lemma {:induction false} IncreasingUnique(s: seq<nat>, t: seq<nat>)
    requires Increasing(s) && Increasing(t) && Elems(s) == Elems(t)
    ensures s == t
  {
    IncreasingNoDup(s);
    IncreasingNoDup(t);
    CardElems(s);
    CardElems(t);
    if s != [] {
      assert s[0] in Elems(t) && t[0] in Elems(s);
      assert s[0] == t[0];
      TailElems(s);
      TailElems(t);
      IncreasingUnique(s[1..], t[1..]);
    }
  }

  /** The normal form is unique: one free list per set of free pages. */
  lemma {:induction false} CanonicalUnique(a: seq<Block>, b: seq<Block>)
    requires Canonical(a) && Canonical(b) && Elems(Flat(a)) == Elems(Flat(b))
    ensures a == b
  {
    FlatIncreasing(a);
    FlatIncreasing(b);
    IncreasingUnique(Flat(a), Flat(b));
    SameFlat(a, b);
  }

  /** Pages taken and given back leave the identical list, whatever lists were passed through on the way. */
  lemma ReturningRestores(before: seq<Block>, free: set<nat>, taken: set<nat>, after: seq<Block>)
    requires FreeListOf(before, free) && taken <= free && FreeListOf(after, free - taken + taken)
    ensures after == before
  {
    CanonicalUnique(before, after);
  }

  lemma {:induction false} SameFlat(a: seq<Block>, b: seq<Block>)
    requires Canonical(a) && Canonical(b) && Flat(a) == Flat(b)
    ensures a == b
  {
    if a == [] || b == [] {
    } else {
      assert a[0].start == Flat(a)[0] == Flat(b)[0] == b[0].start;
      FirstRun(a);
      FirstRun(b);
      assert a[0].len == b[0].len;
      assert Flat(a[1..]) == Flat(a)[a[0].len..] == Flat(b)[b[0].len..] == Flat(b[1..]);
      SameFlat(a[1..], b[1..]);
    }
  }

  /** The first block is as long as the pages at the front stay consecutive. */
  lemma FirstRun(a: seq<Block>)
    requires Canonical(a) && a != []
    ensures forall i :: 0 <= i < a[0].len ==> i < |Flat(a)| && Flat(a)[i] == a[0].start + i
    ensures a[0].len < |Flat(a)| ==> Flat(a)[a[0].len] > a[0].End()
  {
    if a[0].len < |Flat(a)| {
      assert Flat(a[1..]) != [];
      assert Flat(a)[a[0].len] == Flat(a[1..])[0] == a[1].start;
    }
  }

  /** Every block of the normal form is a maximal run of free pages. */
  lemma BlocksAreMaximalRuns(bs: seq<Block>, free: set<nat>, i: nat)
    requires FreeListOf(bs, free) && i < |bs|
    ensures forall p :: bs[i].start <= p < bs[i].End() ==> p in free
    ensures bs[i].End() !in free
    ensures bs[i].start > 0 ==> bs[i].start - 1 !in free
  {
    forall p | bs[i].start <= p < bs[i].End() ensures p in free {
      assert InBlock(bs[i], p);
      FlatMember(bs, p);
    }
    FlatMember(bs, bs[i].End());
    if bs[i].start > 0 { FlatMember(bs, bs[i].start - 1); }
  }

  /** Any run of free pages lies inside one block of the normal form. */
  lemma {:induction false} RunInOneBlock(bs: seq<Block>, free: set<nat>, lo: nat, hi: nat) returns (i: nat)
    requires FreeListOf(bs, free) && lo < hi
    requires forall p :: lo <= p < hi ==> p in free
    ensures i < |bs| && bs[i].start <= lo && hi <= bs[i].End()
    decreases hi - lo
  {
    if hi == lo + 1 {
      FlatMember(bs, lo);
      assert lo in free;
      i :| 0 <= i < |bs| && InBlock(bs[i], lo);
    } else {
      i := RunInOneBlock(bs, free, lo, hi - 1);
      if bs[i].End() == hi - 1 {
        BlocksAreMaximalRuns(bs, free, i);
        assert false;
      }
    }
  }

  lemma {:induction false} LeastExists(s: set<nat>, y: nat)
    requires y in s
    ensures exists m :: m in s && forall x :: x in s ==> m <= x
    decreases y
  {
    if x :| x in s && x < y {
      LeastExists(s, x);
    }
  }

  ghost function Least(s: set<nat>): (m: nat)
    requires s != {}
    ensures m in s && forall x :: x in s ==> m <= x
  {
    var y :| y in s;
    LeastExists(s, y);
    var m :| m in s && forall x :: x in s ==> m <= x;
    m
  }

  lemma ConsAscending(m: nat, rest: seq<nat>)
    requires Increasing(rest) && forall x :: x in Elems(rest) ==> m < x
    ensures Increasing([m] + rest) && Elems([m] + rest) == {m} + Elems(rest)
  {
    ElemsConcat([m], rest);
    assert forall j :: 0 <= j < |rest| ==> rest[j] in Elems(rest);
  }

  /** A set of pages as an increasing sequence. */
  ghost function Ascending(s: set<nat>): (r: seq<nat>)
    ensures |r| == |s| && Increasing(r) && Elems(r) == s
  {
    if s == {} then []
    else
      var m := Least(s);
      var rest := Ascending(s - {m});
      ConsAscending(m, rest);
      [m] + rest
  }

  /** Reading the normal form block by block enumerates the free pages in increasing order. */
  lemma FlatIsAscending(bs: seq<Block>, free: set<nat>)
    requires FreeListOf(bs, free)
    ensures Flat(bs) == Ascending(free)
  {
    FlatIncreasing(bs);
    IncreasingUnique(Flat(bs), Ascending(free));
  }

  lemma EmptyIsCanonical()
    ensures Canonical([]) && Sorted([]) && Flat([]) == []
  {
  }

  lemma CanonicalIsSorted(bs: seq<Block>)
    requires Canonical(bs)
    ensures Sorted(bs)
  {
  }

  /** The list after the first t pages of its first block are taken. */
  function AfterTaking(bs: seq<Block>, t: nat): seq<Block>
    requires bs != [] && t <= bs[0].len
  {
    if t == bs[0].len then bs[1..] else [Block(bs[0].start + t, bs[0].len - t)] + bs[1..]
  }

  lemma TailCanonical(bs: seq<Block>)
    requires Canonical(bs) && bs != []
    ensures Canonical(bs[1..])
  {
  }

  lemma TakingSplits(bs: seq<Block>, t: nat)
    requires Canonical(bs) && bs != [] && t <= bs[0].len
    ensures Canonical(AfterTaking(bs, t))
    ensures Flat(bs) == Range(bs[0].start, bs[0].start + t) + Flat(AfterTaking(bs, t))
  {
    hide Flat, Canonical;
    TailCanonical(bs);
    ConsFlat(bs[0], bs[1..]);
    HeadAndTail(bs);
    if t < bs[0].len {
      var rest := Block(bs[0].start + t, bs[0].len - t);
      ConsCanonical(rest, bs[1..], bs);
      SplitBlock(bs[0], rest, bs[1..]);
    }
  }

  lemma TakingLeaves(bs: seq<Block>, free: set<nat>, t: nat)
    requires FreeListOf(bs, free) && bs != [] && t <= bs[0].len
    ensures FreeListOf(AfterTaking(bs, t), free - Elems(Range(bs[0].start, bs[0].start + t)))
    ensures Flat(bs) == Range(bs[0].start, bs[0].start + t) + Flat(AfterTaking(bs, t))
    ensures Elems(Range(bs[0].start, bs[0].start + t)) <= free
  {
    hide Flat, Canonical;
    TakingSplits(bs, t);
    FlatIsAscending(bs, free);
    IncreasingNoDup(Flat(bs));
    var taken, rest := Range(bs[0].start, bs[0].start + t), Flat(AfterTaking(bs, t));
    NoDupConcat(taken, rest);
    ElemsConcat(taken, rest);
  }

  /** Pages taken from the front of the normal form are the lowest ones. */
  lemma TakenAreLowest(bs: seq<Block>, free: set<nat>, got: seq<nat>, rest: seq<Block>)
    requires FreeListOf(bs, free) && Flat(bs) == got + Flat(rest)
    ensures |got| <= |free| && got == Ascending(free)[..|got|] && NoDup(got) && Elems(got) <= free
    ensures rest == [] ==> |got| == |free|
  {
    FlatIsAscending(bs, free);
    IncreasingNoDup(Flat(bs));
    NoDupConcat(got, Flat(rest));
    ElemsConcat(got, Flat(rest));
  }

  lemma SplitBlock(b: Block, rest: Block, tail: seq<Block>)
    requires b.start <= rest.start && rest.End() == b.End()
    ensures Flat([b] + tail) == Range(b.start, rest.start) + Flat([rest] + tail)
  {
    hide Flat;
    ConsFlat(b, tail);
    ConsFlat(rest, tail);
    assert Range(b.start, b.End()) == Range(b.start, rest.start) + Range(rest.start, rest.End());
  }

  lemma FirstNonEmpty(bs: seq<Block>)
    requires Canonical(bs)
    ensures bs != [] ==> bs[0].len >= 1
  {
  }

  lemma ConsCanonical(b: Block, bs: seq<Block>, whole: seq<Block>)
    requires Canonical(whole) && whole != [] && bs == whole[1..] && b.len >= 1 && b.End() == whole[0].End()
    ensures Canonical([b] + bs)
  {
  }

  // ---- The two list surgeries of deallocation ----

  /** Splicing a block of absent pages in at its sorted place. */
  lemma SpliceIn(bs: seq<Block>, i: nat, b: Block)
    requires Sorted(bs) && i <= |bs| && b.len >= 1
    requires i > 0 ==> bs[i - 1].start <= b.start
    requires i < |bs| ==> b.start <= bs[i].start
    requires forall p :: b.start <= p < b.End() ==> p !in Flat(bs)
    ensures Sorted(bs[..i] + [b] + bs[i..])
    ensures Elems(Flat(bs[..i] + [b] + bs[i..])) == Elems(Flat(bs)) + Elems(Range(b.start, b.End()))
  {
    hide *;
    AllDisjoint(bs, b);
    SpliceSorted(bs, i, b);
    SplicedPages(bs[..i], b, bs[i..]);
    assert bs[..i] + bs[i..] == bs;
  }

  lemma AllDisjoint(bs: seq<Block>, b: Block)
    requires Sorted(bs) && b.len >= 1
    requires forall p :: b.start <= p < b.End() ==> p !in Flat(bs)
    ensures forall j :: 0 <= j < |bs| ==> bs[j].End() <= b.start || b.End() <= bs[j].start
  {
    forall j | 0 <= j < |bs| ensures bs[j].End() <= b.start || b.End() <= bs[j].start {
      DisjointBlocks(bs, j, b);
    }
  }

  lemma SpliceSorted(bs: seq<Block>, i: nat, b: Block)
    requires Sorted(bs) && i <= |bs| && b.len >= 1
    requires i > 0 ==> bs[i - 1].start <= b.start
    requires i < |bs| ==> b.start <= bs[i].start
    requires forall j :: 0 <= j < |bs| ==> bs[j].End() <= b.start || b.End() <= bs[j].start
    ensures Sorted(bs[..i] + [b] + bs[i..])
  {
    assert forall j :: 0 <= j < i - 1 ==> bs[j].End() <= bs[i - 1].start;
    SplicedSorted(bs[..i], b, bs[i..]);
  }

  lemma SplicedSorted(pre: seq<Block>, b: Block, post: seq<Block>)
    requires Sorted(pre) && Sorted(post) && b.len >= 1
    requires forall j :: 0 <= j < |pre| ==> pre[j].End() <= b.start
    requires forall j :: 0 <= j < |post| ==> b.End() <= post[j].start
    ensures Sorted(pre + [b] + post)
  {
  }

  lemma DisjointBlocks(bs: seq<Block>, j: nat, b: Block)
    requires j < |bs| && bs[j].len >= 1 && b.len >= 1
    requires forall p :: b.start <= p < b.End() ==> p !in Flat(bs)
    ensures bs[j].End() <= b.start || b.End() <= bs[j].start
  {
    var p := Max(bs[j].start, b.start);
    if p < bs[j].End() && p < b.End() {
      assert InBlock(bs[j], p) && InBlock(b, p);
      FlatMember(bs, p);
    }
  }

  lemma SplicedPages(pre: seq<Block>, b: Block, post: seq<Block>)
    ensures Elems(Flat(pre + [b] + post)) == Elems(Flat(pre + post)) + Elems(Range(b.start, b.End()))
  {
    FlatTriple(pre, [b], post);
    FlatConcat(pre, post);
    FlatSingle(b);
    ElemsConcat(Flat(pre) + Range(b.start, b.End()), Flat(post));
    ElemsConcat(Flat(pre), Range(b.start, b.End()));
    ElemsConcat(Flat(pre), Flat(post));
  }

  function Merged(x: Block, y: Block): Block { Block(x.start, x.len + y.len) }

  /** Merging two touching neighbours changes no page. */
  lemma MergeTouching(bs: seq<Block>, i: nat)
    requires Sorted(bs) && i + 1 < |bs| && bs[i].End() == bs[i + 1].start
    ensures Sorted(bs[..i] + [Merged(bs[i], bs[i + 1])] + bs[i + 2..])
    ensures Flat(bs[..i] + [Merged(bs[i], bs[i + 1])] + bs[i + 2..]) == Flat(bs)
  {
    hide Flat, Sorted;
    MergedSorted(bs, i);
    MergedFlat(bs[..i], bs[i], bs[i + 1], bs[i + 2..]);
    assert bs == bs[..i] + [bs[i], bs[i + 1]] + bs[i + 2..];
  }

  lemma MergedSorted(bs: seq<Block>, i: nat)
    requires Sorted(bs) && i + 1 < |bs| && bs[i].End() == bs[i + 1].start
    ensures Sorted(bs[..i] + [Merged(bs[i], bs[i + 1])] + bs[i + 2..])
  {
    SplicedSorted(bs[..i], Merged(bs[i], bs[i + 1]), bs[i + 2..]);
  }

  lemma MergedFlat(pre: seq<Block>, x: Block, y: Block, post: seq<Block>)
    requires x.End() == y.start
    ensures Flat(pre + [Merged(x, y)] + post) == Flat(pre + [x, y] + post)
  {
    FlatTriple(pre, [Merged(x, y)], post);
    FlatTriple(pre, [x, y], post);
    MergedPair(x, y);
  }

  lemma MergedPair(x: Block, y: Block)
    requires x.End() == y.start
    ensures Flat([Merged(x, y)]) == Flat([x, y])
  {
    var xy := [x, y];
    assert xy[1..] == [y];
    FlatSingle(y);
    FlatSingle(Merged(x, y));
    assert Range(x.start, y.End()) == Range(x.start, x.End()) + Range(y.start, y.End());
  }

  lemma FlatTriple(a: seq<Block>, b: seq<Block>, c: seq<Block>)
    ensures Flat(a + b + c) == Flat(a) + Flat(b) + Flat(c)
  {
    FlatConcat(a + b, c);
    FlatConcat(a, b);
  }

  /** A sorted list without touching neighbours is the normal form. */
  lemma GapsMakeCanonical(bs: seq<Block>)
    requires Sorted(bs) && forall i :: 0 <= i < |bs| - 1 ==> bs[i].End() != bs[i + 1].start
    ensures Canonical(bs)
  {
    forall i, j | 0 <= i < j < |bs| ensures bs[i].End() < bs[j].start {
      assert bs[i + 1].start <= bs[j].start by { if i + 1 < j { assert bs[i + 1].End() <= bs[j].start; } }
    }
  }

  // ---- Where a block goes ----

  /**
   * The place that insertion finds for a start page: before the first block only if it starts earlier, else after
   * the first block and after every block that starts before it.
   */
  ghost predicate PlaceOf(bs: seq<Block>, at: nat, start: nat) {
    && at <= |bs| && (at == 0 <==> bs == [] || start < bs[0].start)
    && (at > 1 ==> bs[at - 1].start < start)
    && (at < |bs| ==> start <= bs[at].start)
  }

  // ---- Coalescing, in list order ----

  /** The list after each block has swallowed, from the front on, the successors that touch it. */
  function Coalesced(bs: seq<Block>): seq<Block>
    decreases |bs|
  {
    if |bs| < 2 then bs
    else if bs[0].End() == bs[1].start then Coalesced([Merged(bs[0], bs[1])] + bs[2..])
    else [bs[0]] + Coalesced(bs[1..])
  }

  /** One step of the walk at position at: a merge, or on to the next block. */
  lemma CoalescedStep(bs: seq<Block>, at: nat)
    requires at + 1 < |bs|
    ensures bs[at].End() == bs[at + 1].start ==>
              var next := bs[..at] + [Merged(bs[at], bs[at + 1])] + bs[at + 2..];
              next[..at] == bs[..at] && Coalesced(next[at..]) == Coalesced(bs[at..])
    ensures bs[at].End() != bs[at + 1].start ==>
              bs[..at] + Coalesced(bs[at..]) == bs[..at + 1] + Coalesced(bs[at + 1..])
  {
    var t := bs[at..];
    assert t[0] == bs[at] && t[1] == bs[at + 1] && t[1..] == bs[at + 1..] && t[2..] == bs[at + 2..];
    if bs[at].End() == bs[at + 1].start {
      var next := bs[..at] + [Merged(bs[at], bs[at + 1])] + bs[at + 2..];
      assert next[at..] == [Merged(bs[at], bs[at + 1])] + bs[at + 2..];
    } else {
      assert bs[..at + 1] == bs[..at] + [bs[at]];
    }
  }

  /** Coalescing a sorted list gives the normal form of the same pages. */
  lemma {:induction false} CoalescedSorted(bs: seq<Block>)
    requires Sorted(bs)
    ensures Canonical(Coalesced(bs)) && Flat(Coalesced(bs)) == Flat(bs)
    ensures bs != [] ==> Coalesced(bs) != [] && Coalesced(bs)[0].start == bs[0].start
    decreases |bs|
  {
    hide Flat;
    if |bs| >= 2 {
      HeadAndTail(bs);
      if bs[0].End() == bs[1].start {
        MergeTouching(bs, 0);
        assert bs[..0] + [Merged(bs[0], bs[1])] + bs[2..] == [Merged(bs[0], bs[1])] + bs[2..];
        CoalescedSorted([Merged(bs[0], bs[1])] + bs[2..]);
      } else {
        CoalescedSorted(bs[1..]);
        ConsFlat(bs[0], bs[1..]);
        ConsFlat(bs[0], Coalesced(bs[1..]));
      }
    }
  }

  /** Without touching neighbours there is nothing to do. */
  lemma {:induction false} NothingToMerge(bs: seq<Block>)
    requires forall i :: 0 <= i < |bs| - 1 ==> bs[i].End() != bs[i + 1].start
    ensures Coalesced(bs) == bs
    decreases |bs|
  {
    if |bs| >= 2 {
      forall i | 0 <= i < |bs[1..]| - 1 ensures bs[1..][i].End() != bs[1..][i + 1].start {
        assert bs[i + 1].End() != bs[i + 2].start;
      }
      NothingToMerge(bs[1..]);
      HeadAndTail(bs);
    }
  }

  /** An empty block vanishes next to a block it touches; elsewhere it stays, and the list is no normal form. */
  lemma {:induction false} EmptyBlock(bs: seq<Block>, at: nat, lo: nat)
    requires Canonical(bs) && at <= |bs|
    ensures var touching := (at > 0 && bs[at - 1].End() == lo) || (at < |bs| && bs[at].start == lo);
            var all := bs[..at] + [Block(lo, 0)] + bs[at..];
            if touching then Coalesced(all) == bs else Coalesced(all) == all && !Canonical(all)
  {
    var z := Block(lo, 0);
    var all := bs[..at] + [z] + bs[at..];
    if (at > 0 && bs[at - 1].End() == lo) || (at < |bs| && bs[at].start == lo) {
      EmptyBlockVanishes(bs, at, lo);
    } else {
      assert all[at] == z;
      NothingToMerge(all);
    }
  }

  lemma MergeFirst(x: Block, y: Block, rest: seq<Block>)
    requires x.End() == y.start
    ensures Coalesced([x, y] + rest) == Coalesced([Merged(x, y)] + rest)
  {
    assert ([x, y] + rest)[2..] == rest;
  }

  lemma SkipFirst(x: Block, rest: seq<Block>)
    requires rest != [] && x.End() != rest[0].start
    ensures Coalesced([x] + rest) == [x] + Coalesced(rest)
  {
    assert ([x] + rest)[1..] == rest;
  }

  lemma CanonicalStays(bs: seq<Block>)
    requires Canonical(bs)
    ensures Coalesced(bs) == bs
  {
    NothingToMerge(bs);
  }

  lemma VanishesInFront(bs: seq<Block>)
    requires Canonical(bs) && bs != []
    ensures Coalesced([Block(bs[0].start, 0)] + bs) == bs
  {
    hide Coalesced, Canonical;
    var z := Block(bs[0].start, 0);
    CanonicalStays(bs);
    HeadAndTail(bs);
    Associative([z], [bs[0]], bs[1..]);
    assert [z] + [bs[0]] == [z, bs[0]] && Merged(z, bs[0]) == bs[0];
    MergeFirst(z, bs[0], bs[1..]);
  }

  lemma VanishesAfterFirst(bs: seq<Block>)
    requires Canonical(bs) && bs != []
    ensures Coalesced([bs[0], Block(bs[0].End(), 0)] + bs[1..]) == bs
  {
    hide Coalesced, Canonical;
    var z := Block(bs[0].End(), 0);
    CanonicalStays(bs);
    HeadAndTail(bs);
    assert Merged(bs[0], z) == bs[0];
    MergeFirst(bs[0], z, bs[1..]);
  }

  lemma {:induction false} EmptyBlockVanishes(bs: seq<Block>, at: nat, lo: nat)
    requires Canonical(bs) && at <= |bs|
    requires (at > 0 && bs[at - 1].End() == lo) || (at < |bs| && bs[at].start == lo)
    ensures Coalesced(bs[..at] + [Block(lo, 0)] + bs[at..]) == bs
    decreases |bs|
  {
    hide Coalesced;
    var z, t := Block(lo, 0), bs[1..];
    if at == 0 {
      VanishesInFront(bs);
      assert bs[..0] + [z] + bs[0..] == [z] + bs;
    } else if at == 1 && bs[0].End() == lo {
      VanishesAfterFirst(bs);
      assert bs[..1] + [z] == [bs[0], z];
    } else {
      InsideTail(bs, at, z);
      SkipFirst(bs[0], t[..at - 1] + [z] + t[at - 1..]);
      TailCanonical(bs);
      EmptyBlockVanishes(t, at - 1, lo);
      HeadAndTail(bs);
    }
  }

  lemma InsideTail(bs: seq<Block>, at: nat, z: Block)
    requires 0 < at <= |bs|
    ensures var rest := bs[1..][..at - 1] + [z] + bs[1..][at - 1..];
            && bs[..at] + [z] + bs[at..] == [bs[0]] + rest
            && rest[0] == if at == 1 then z else bs[1]
  {
  }
}
