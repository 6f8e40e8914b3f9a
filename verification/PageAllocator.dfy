/** The page allocator on the heap: the page bitmap and the linked, sorted list of free blocks. */
module PageAllocators {
  import opened Sequences
  import opened FreeRuns
  import opened CacheModel
  import opened RunStatistics

  class FreeBlock {
    var startPage: nat
    var numPages: nat
    var next: FreeBlock?

    constructor (start: nat, count: nat)
      ensures startPage == start && numPages == count && next == null
    {
      startPage := start;
      numPages := count;
      next := null;
    }

    ghost function View(): Block
      reads this
    {
      Block(startPage, numPages)
    }
  }

  ghost function FreeAt(nodes: seq<FreeBlock>, i: nat): FreeBlock? {
    if i < |nodes| then nodes[i] else null
  }

  /** nodes is the free list that starts at head. */
  ghost predicate IsFreeList(head: FreeBlock?, nodes: seq<FreeBlock>)
    reads set n | n in nodes
  {
    && head == FreeAt(nodes, 0)
    && (forall i {:trigger nodes[i].next} :: 0 <= i < |nodes| ==> nodes[i].next == FreeAt(nodes, i + 1))
    && Distinct(nodes)
  }

  ghost function Views(nodes: seq<FreeBlock>): seq<Block>
    reads set n | n in nodes
  {
    seq(|nodes|, i requires 0 <= i < |nodes| reads nodes => nodes[i].View())
  }

  lemma ViewsAt(nodes: seq<FreeBlock>)
    ensures |Views(nodes)| == |nodes| && forall i :: 0 <= i < |nodes| ==> Views(nodes)[i] == nodes[i].View()
  {
  }

  ghost predicate Distinct(nodes: seq<FreeBlock>) {
    forall i, j :: 0 <= i < j < |nodes| ==> nodes[i] != nodes[j]
  }

  lemma WithAt(nodes: seq<FreeBlock>, at: nat, n: FreeBlock, i: nat)
    requires at <= |nodes|
    ensures var now := nodes[..at] + [n] + nodes[at..];
            && FreeAt(now, i) == (if i < at then FreeAt(nodes, i) else if i == at then n else FreeAt(nodes, i - 1))
            && (i < |now| ==> FreeAt(now, i) == now[i])
  {
  }

  lemma WithDistinct(nodes: seq<FreeBlock>, at: nat, n: FreeBlock)
    requires at <= |nodes| && Distinct(nodes) && n !in nodes
    ensures Distinct(nodes[..at] + [n] + nodes[at..])
  {
  }

  /** Node n, linked in between positions at - 1 and at, makes a longer list. */
  lemma LinkedIn(head: FreeBlock?, nodes: seq<FreeBlock>, at: nat, n: FreeBlock)
    requires at <= |nodes| && Distinct(nodes) && n !in nodes
    requires forall i :: 0 <= i < |nodes| && i != at - 1 ==> nodes[i].next == FreeAt(nodes, i + 1)
    requires at > 0 ==> nodes[at - 1].next == n
    requires n.next == FreeAt(nodes, at)
    requires head == if at == 0 then n else nodes[0]
    ensures IsFreeList(head, nodes[..at] + [n] + nodes[at..])
    ensures Views(nodes[..at] + [n] + nodes[at..]) == Views(nodes)[..at] + [n.View()] + Views(nodes)[at..]
  {
    hide Views, FreeAt;
    var now := nodes[..at] + [n] + nodes[at..];
    WithDistinct(nodes, at, n);
    WithAt(nodes, at, n, 0);
    forall i | 0 <= i < |now| ensures now[i].next == FreeAt(now, i + 1) {
      WithAt(nodes, at, n, i);
      WithAt(nodes, at, n, i + 1);
    }
    ViewsAt(nodes);
    ViewsAt(now);
  }

  lemma WithoutNode(nodes: seq<FreeBlock>, at: nat, i: nat)
    requires at < |nodes|
    ensures var now := nodes[..at] + nodes[at + 1..];
            && FreeAt(now, i) == (if i < at then FreeAt(nodes, i) else FreeAt(nodes, i + 1))
            && (i < |now| ==> FreeAt(now, i) == now[i])
    ensures FreeAt(nodes, 0) == nodes[0]
  {
  }

  lemma WithoutDistinct(nodes: seq<FreeBlock>, at: nat)
    requires at < |nodes| && Distinct(nodes)
    ensures Distinct(nodes[..at] + nodes[at + 1..])
  {
  }

  /** Bypassing the node after position at makes a shorter list. */
  lemma LinkedOut(head: FreeBlock?, nodes: seq<FreeBlock>, at: nat)
    requires at + 1 < |nodes| && Distinct(nodes) && head == nodes[0]
    requires forall i :: 0 <= i < |nodes| && i != at ==> nodes[i].next == FreeAt(nodes, i + 1)
    requires nodes[at].next == FreeAt(nodes, at + 2)
    ensures IsFreeList(head, nodes[..at + 1] + nodes[at + 2..])
    ensures Views(nodes[..at + 1] + nodes[at + 2..]) == Views(nodes)[..at] + [nodes[at].View()] + Views(nodes)[at + 2..]
  {
    hide Views, FreeAt;
    var now := nodes[..at + 1] + nodes[at + 2..];
    WithoutDistinct(nodes, at + 1);
    WithoutNode(nodes, at + 1, 0);
    forall i | 0 <= i < |now| ensures now[i].next == FreeAt(now, i + 1) {
      WithoutNode(nodes, at + 1, i);
      WithoutNode(nodes, at + 1, i + 1);
    }
    ViewsAt(nodes);
    ViewsAt(now);
  }

  /** All links but the one into position at, and those of the node there, are as they were. */
  ghost predicate LinkedAround(nodes: seq<FreeBlock>, at: nat)
    reads set n | n in nodes
  {
    forall i :: 0 <= i < |nodes| && i != at - 1 && i != at ==> nodes[i].next == FreeAt(nodes, i + 1)
  }

  /** The node at position at is taken out. */
  lemma LinkedGone(head: FreeBlock?, nodes: seq<FreeBlock>, at: nat)
    requires at < |nodes| && Distinct(nodes) && LinkedAround(nodes, at)
    requires at > 0 ==> nodes[at - 1].next == FreeAt(nodes, at + 1)
    requires head == if at > 0 then nodes[0] else FreeAt(nodes, 1)
    ensures IsFreeList(head, nodes[..at] + nodes[at + 1..])
    ensures Views(nodes[..at] + nodes[at + 1..]) == Views(nodes)[..at] + Views(nodes)[at + 1..]
  {
    hide Views, FreeAt;
    var now := nodes[..at] + nodes[at + 1..];
    WithoutDistinct(nodes, at);
    WithoutNode(nodes, at, 0);
    forall i | 0 <= i < |now| ensures now[i].next == FreeAt(now, i + 1) {
      WithoutNode(nodes, at, i);
      WithoutNode(nodes, at, i + 1);
    }
    ViewsAt(nodes);
    ViewsAt(now);
  }

  /** The node at position at is exchanged for n. */
  lemma LinkedSwapped(head: FreeBlock?, nodes: seq<FreeBlock>, at: nat, n: FreeBlock)
    requires at < |nodes| && Distinct(nodes) && LinkedAround(nodes, at) && n !in nodes
    requires at > 0 ==> nodes[at - 1].next == n
    requires n.next == FreeAt(nodes, at + 1)
    requires head == if at > 0 then nodes[0] else n
    ensures IsFreeList(head, nodes[at := n])
    ensures Views(nodes[at := n]) == Views(nodes)[..at] + [n.View()] + Views(nodes)[at + 1..]
  {
    hide Views;
    var now := nodes[at := n];
    forall i | 0 <= i < |now| ensures now[i].next == FreeAt(now, i + 1) {
      assert i != at - 1 && i != at ==> nodes[i].next == FreeAt(nodes, i + 1);
    }
    ViewsAt(nodes);
    ViewsAt(now);
  }

  lemma NoneToCoalesce(bs: seq<Block>, at: nat)
    requires at <= |bs| <= at + 1
    ensures bs[..at] + Coalesced(bs[at..]) == bs
  {
  }

  /** The pages whose bit is clear. */
  ghost function ClearBits(bits: seq<bool>): set<nat> { set p: nat | p < |bits| && !bits[p] }

  lemma ClearBitsAfter(bits: seq<bool>, p: nat, b: bool)
    requires p < |bits|
    ensures ClearBits(bits[p := b]) == if b then ClearBits(bits) - {p} else ClearBits(bits) + {p}
  {
  }

  lemma CountStep(bits: seq<bool>, b: bool)
    ensures |ClearBits(bits + [b])| == |ClearBits(bits)| + if b then 0 else 1
  {
    assert ClearBits(bits + [b]) == ClearBits(bits) + if b then {} else {|bits|};
  }

  lemma FreeInRange(bits: seq<bool>)
    ensures forall p :: p in ClearBits(bits) ==> p < |bits|
  {
  }

  /** Taken pages lie in the bitmap and their bits are set. */
  lemma AreTaken(bits: seq<bool>, before: set<nat>, got: seq<nat>)
    requires Elems(got) <= before && ClearBits(bits) == before - Elems(got)
    requires forall p :: p in before ==> p < |bits|
    ensures forall p :: p in got ==> p < |bits| && p !in ClearBits(bits)
  {
    forall p | p in got ensures p < |bits| && p !in ClearBits(bits) {
      assert p in Elems(got);
    }
  }

  lemma WithinBitmap(bits: seq<bool>, lo: nat, hi: nat)
    requires lo <= hi && Elems(Range(lo, hi)) <= ClearBits(bits)
    ensures lo < hi ==> hi <= |bits|
  {
    if lo < hi {
      assert Range(lo, hi)[hi - 1 - lo] == hi - 1;
      assert hi - 1 in Elems(Range(lo, hi));
    }
  }

  class PageAllocator {
    const pageBitmap: array<bool>
    var freeListHead: FreeBlock?
    ghost var freeNodes: seq<FreeBlock>
    ghost var freeRepr: set<FreeBlock>

    ghost function Free(): set<nat>
      reads pageBitmap
    {
      ClearBits(pageBitmap[..])
    }

    /** The free list is well linked, and all its nodes are in the footprint. */
    ghost predicate Linked()
      reads this`freeListHead, this`freeNodes, this`freeRepr, freeRepr
    {
      (forall i :: 0 <= i < |freeNodes| ==> freeNodes[i] in freeRepr) && IsFreeList(freeListHead, freeNodes)
    }

    /** The free list is well linked, in normal form, and agrees with the bitmap. */
    ghost predicate FreeValid()
      reads this`freeListHead, this`freeNodes, this`freeRepr, pageBitmap, freeRepr
    {
      Linked() && FreeListOf(Views(freeNodes), Free())
    }

    ghost predicate ListSorted()
      reads this`freeListHead, this`freeNodes, this`freeRepr, freeRepr
    {
      Linked() && Sorted(Views(freeNodes))
    }

    /** The objects the allocator may write to. */
    ghost function Repr(): set<object>
      reads this`freeRepr
    {
      {this, pageBitmap} + freeRepr
    }

    /** All pages free, in one block. */
    constructor (totalPages: nat)
      requires totalPages > 0
      ensures FreeValid() && fresh(Repr())
      ensures pageBitmap.Length == totalPages && Free() == AllPages(totalPages)
    {
      var bitmap := new bool[totalPages](_ => false);
      var block := new FreeBlock(0, totalPages);
      pageBitmap, freeListHead, freeNodes, freeRepr := bitmap, block, [block], {block};
      new;
      FlatSingle(Block(0, totalPages));
      assert Views(freeNodes) == [Block(0, totalPages)];
      AllPagesMember(totalPages);
      assert Free() == AllPages(totalPages);
    }

    // ---- Free list ----

    /** The walk of AddToFreeList: the last block that starts before startPage, or else the first block. */
    method LastBlockBefore(startPage: nat) returns (current: FreeBlock, ghost at: nat)
      requires Linked() && freeNodes != [] && freeNodes[0].startPage <= startPage
      ensures at < |freeNodes| && current == freeNodes[at] && current.startPage <= startPage
      ensures at > 0 ==> current.startPage < startPage
      ensures at + 1 < |freeNodes| ==> startPage <= freeNodes[at + 1].startPage
    {
      current, at := freeListHead, 0;
      while current.next != null && current.next.startPage < startPage
        invariant at < |freeNodes| && current == freeNodes[at] && current.startPage <= startPage
        invariant at > 0 ==> current.startPage < startPage
        decreases |freeNodes| - at
      {
        current := current.next;
        at := at + 1;
      }
    }

    /** A new block follows the one at position at. */
    method InsertAfter(last: FreeBlock, ghost at: nat, start: nat, count: nat)
      requires Linked() && at < |freeNodes| && last == freeNodes[at]
      modifies this`freeNodes, this`freeRepr, freeRepr
      ensures Linked() && fresh(freeRepr - old(freeRepr))
      ensures var bs := old(Views(freeNodes)); Views(freeNodes) == bs[..at + 1] + [Block(start, count)] + bs[at + 1..]
    {
      hide Views;
      ghost var bs := Views(freeNodes);
      ViewsAt(freeNodes);
      var block := new FreeBlock(start, count);
      block.next := last.next;
      last.next := block;
      ViewsAt(freeNodes);
      assert Views(freeNodes) == bs;
      LinkedIn(freeListHead, freeNodes, at + 1, block);
      freeNodes := freeNodes[..at + 1] + [block] + freeNodes[at + 1..];
      freeRepr := freeRepr + {block};
    }

    /** Links a new block in as the first one. */
    method InsertFirst(start: nat, count: nat)
      requires Linked()
      modifies this`freeListHead, this`freeNodes, this`freeRepr
      ensures Linked() && fresh(freeRepr - old(freeRepr))
      ensures Views(freeNodes) == [Block(start, count)] + old(Views(freeNodes))
    {
      hide Views;
      var block := new FreeBlock(start, count);
      block.next := freeListHead;
      freeListHead := block;
      LinkedIn(freeListHead, freeNodes, 0, block);
      assert freeNodes[..0] + [block] + freeNodes[0..] == [block] + freeNodes;
      ViewsAt(freeNodes);
      ViewsAt([block] + freeNodes);
      freeNodes := [block] + freeNodes;
      freeRepr := freeRepr + {block};
    }

    /** Links a new block in after every block that starts before it; nothing else on the list changes. */
    method AddToFreeList(startPage: nat, numPages: nat) returns (ghost at: nat)
      requires Linked()
      modifies this`freeListHead, this`freeNodes, this`freeRepr, freeRepr
      ensures Linked() && fresh(freeRepr - old(freeRepr))
      ensures var bs := old(Views(freeNodes));
              PlaceOf(bs, at, startPage) && Views(freeNodes) == bs[..at] + [Block(startPage, numPages)] + bs[at..]
    {
      hide Views;
      ghost var bs := Views(freeNodes);
      ViewsAt(freeNodes);
      at := 0;
      if freeListHead == null || startPage < freeListHead.startPage {
        InsertFirst(startPage, numPages);
        assert bs[..0] == [] && bs[0..] == bs;
      } else {
        var current, i := LastBlockBefore(startPage);
        at := i + 1;
        InsertAfter(current, i, startPage, numPages);
      }
    }

    /** The merging step: the block at position at swallows its successor. */
    method MergeWithNext(current: FreeBlock, ghost at: nat)
      requires Linked() && at + 1 < |freeNodes| && current == freeNodes[at]
      modifies this`freeNodes, current
      ensures Linked() && at < |freeNodes| == old(|freeNodes|) - 1
      ensures freeNodes == old(freeNodes[..at + 1] + freeNodes[at + 2..])
      ensures var bs := old(Views(freeNodes));
              Views(freeNodes) == bs[..at] + [Merged(bs[at], bs[at + 1])] + bs[at + 2..]
    {
      ghost var bs := Views(freeNodes);
      current.numPages := current.numPages + current.next.numPages;
      current.next := current.next.next;
      assert Views(freeNodes) == bs[at := Merged(bs[at], bs[at + 1])];
      LinkedOut(freeListHead, freeNodes, at);
      freeNodes := freeNodes[..at + 1] + freeNodes[at + 2..];
    }

    /** Merges each block with the successors that touch it, from the front on. */
    method CoalesceFreeBlocks()
      requires Linked()
      modifies this`freeNodes, this`freeRepr, freeRepr
      ensures Linked() && freeRepr == old(freeRepr)
      ensures Views(freeNodes) == Coalesced(old(Views(freeNodes)))
    {
      hide Views, Coalesced;
      ViewsAt(freeNodes);
      if freeListHead == null {
        NoneToCoalesce(Views(freeNodes), 0);
        return;
      }
      var current := freeListHead;
      ghost var at, bs := 0, Views(freeNodes);
      assert bs[..0] == [] && bs[0..] == bs;
      while current != null && current.next != null
        invariant Linked() && 0 <= at < |freeNodes| == |Views(freeNodes)| && current == freeNodes[at]
        invariant Coalesced(bs) == Views(freeNodes)[..at] + Coalesced(Views(freeNodes)[at..])
        invariant freeRepr == old(freeRepr)
        decreases |freeNodes| - at
      {
        ViewsAt(freeNodes);
        CoalescedStep(Views(freeNodes), at);
        assert freeNodes[at] in freeNodes && freeNodes[at + 1] in freeNodes;
        if current.startPage + current.numPages == current.next.startPage {
          MergeWithNext(current, at);
          ViewsAt(freeNodes);
        } else {
          current := current.next;
          at := at + 1;
        }
      }
      NoneToCoalesce(Views(freeNodes), at);
    }

    // ---- Deallocation ----

    /** The list is sorted and holds exactly the pages whose bit is clear. */
    ghost predicate ListAgrees()
      reads this`freeListHead, this`freeNodes, this`freeRepr, pageBitmap, freeRepr
    {
      ListSorted() && Elems(Flat(Views(freeNodes))) == Free()
    }

    /** One step of deallocation: page p is marked free and linked in as a block of its own. */
    method ReturnPage(p: nat)
      requires ListAgrees() && p < pageBitmap.Length && p !in Free()
      modifies this`freeListHead, this`freeNodes, this`freeRepr, freeRepr, pageBitmap
      ensures ListAgrees() && Free() == old(Free()) + {p}
      ensures fresh(freeRepr - old(freeRepr))
    {
      hide Flat, Sorted;
      ghost var bs := Views(freeNodes);
      ClearBitsAfter(pageBitmap[..], p, false);
      pageBitmap[p] := false;
      assert pageBitmap[..] == old(pageBitmap[..])[p := false];
      ghost var at := AddToFreeList(p, 1);
      assert p !in Elems(Flat(bs));
      SpliceIn(bs, at, Block(p, 1));
      assert Range(p, p + 1) == [p];
    }

    /** Returns a chain of pages: each is inserted on its own, then neighbours are merged. */
    method DeallocatePagesLinked(blocks: seq<nat>)
      requires FreeValid() && NoDup(blocks)
      requires forall p :: p in blocks ==> p < pageBitmap.Length && p !in Free()
      modifies Repr()
      ensures FreeValid() && Free() == old(Free()) + Elems(blocks)
      ensures fresh(Repr() - old(Repr()))
    {
      hide Flat, Sorted, Canonical, ClearBits;
      CanonicalIsSorted(Views(freeNodes));
      for i := 0 to |blocks|
        invariant ListAgrees() && Free() == old(Free()) + Elems(blocks[..i])
        invariant fresh(freeRepr - old(freeRepr))
      {
        assert blocks[..i + 1] == blocks[..i] + [blocks[i]];
        ElemsConcat(blocks[..i], [blocks[i]]);
        assert blocks[i] in blocks && blocks[i] !in blocks[..i];
        ReturnPage(blocks[i]);
      }
      assert blocks[..|blocks|] == blocks;
      CoalescedSorted(Views(freeNodes));
      CoalesceFreeBlocks();
    }

    // ---- Allocation ----

    /** The inner loop of allocation: count consecutive pages join the chain and their bits are set. */
    method AppendPages(first: nat, count: nat, chain: seq<nat>) returns (longer: seq<nat>)
      requires first + count <= pageBitmap.Length
      modifies pageBitmap
      ensures longer == chain + Range(first, first + count)
      ensures Free() == old(Free()) - Elems(Range(first, first + count))
    {
      hide ClearBits, Elems;
      longer := chain;
      ElemsOfEmpty(Range(first, first));
      for i := 0 to count
        invariant longer == chain + Range(first, first + i)
        invariant Free() == old(Free()) - Elems(Range(first, first + i))
      {
        longer := longer + [first + i];
        ghost var bits := pageBitmap[..];
        ClearBitsAfter(bits, first + i, true);
        pageBitmap[first + i] := true;
        assert pageBitmap[..] == bits[first + i := true];
        RangeGrows(first, first + i);
      }
    }

    /** The rest of one allocation round: the taken pages leave the first block, or the block leaves the list. */
    method UpdateFreeBlock(prev: FreeBlock?, current: FreeBlock, pagesToTake: nat)
      returns (prev': FreeBlock?, current': FreeBlock?)
      requires Linked() && current == freeListHead && prev == null
      requires pagesToTake <= current.numPages
      modifies this`freeListHead, this`freeNodes, current
      ensures Linked() && freeRepr == old(freeRepr)
      ensures Views(freeNodes) == AfterTaking(old(Views(freeNodes)), pagesToTake)
      ensures pagesToTake == old(current.numPages) ==> prev' == null && current' == freeListHead
    {
      ghost var rest := freeNodes[1..];
      assert current.next == FreeAt(rest, 0);
      assert Views(rest) == Views(freeNodes)[1..];
      if pagesToTake == current.numPages {
        if prev != null {
          assert false;  // only the last round leaves a block behind, so the unlinked block is always the head
        } else {
          freeListHead := current.next;
        }
        prev', current' := prev, current.next;
        freeNodes := rest;
      } else {
        current.startPage := current.startPage + pagesToTake;
        current.numPages := current.numPages - pagesToTake;
        prev', current' := current, current.next;
        assert freeNodes == [current] + rest;
      }
    }

    /** One round of allocation: pages are taken from the first free block. */
    method AllocationRound(prev: FreeBlock?, current: FreeBlock, pagesToTake: nat, chain: seq<nat>)
      returns (prev': FreeBlock?, current': FreeBlock?, longer: seq<nat>)
      requires FreeValid() && current == freeListHead && prev == null && 1 <= pagesToTake <= current.numPages
      modifies this`freeListHead, this`freeNodes, current, pageBitmap
      ensures FreeValid() && freeRepr == old(freeRepr)
      ensures pagesToTake == old(current.numPages) ==> prev' == null && current' == freeListHead
      ensures longer == chain + old(Range(current.startPage, current.startPage + pagesToTake))
      ensures longer + Flat(Views(freeNodes)) == chain + old(Flat(Views(freeNodes)))
      ensures Free() == old(Free() - Elems(Range(current.startPage, current.startPage + pagesToTake)))
    {
      hide Flat, Sorted, Canonical, ClearBits, Elems;
      ghost var bs := Views(freeNodes);
      var first := current.startPage;
      TakingLeaves(bs, Free(), pagesToTake);
      WithinBitmap(pageBitmap[..], first, first + pagesToTake);
      longer := AppendPages(first, pagesToTake, chain);
      prev', current' := UpdateFreeBlock(prev, current, pagesToTake);
    }

    /** The loop of allocation: rounds until enough pages are taken or the free list is used up. */
    method TakePages(numPages: nat) returns (pagesAllocated: nat, chain: seq<nat>)
      requires FreeValid()
      modifies this`freeListHead, this`freeNodes, freeRepr, pageBitmap
      ensures FreeValid() && freeRepr == old(freeRepr)
      ensures pagesAllocated == |chain| <= numPages && (|chain| < numPages ==> freeNodes == [])
      ensures old(Flat(Views(freeNodes))) == chain + Flat(Views(freeNodes))
      ensures Free() == old(Free()) - Elems(chain)
    {
      hide Flat, Sorted, Canonical, ClearBits;
      chain := [];
      pagesAllocated := 0;
      var prev: FreeBlock? := null;
      var current := freeListHead;
      while current != null && pagesAllocated < numPages
        invariant FreeValid() && freeRepr == old(freeRepr)
        invariant pagesAllocated == |chain| <= numPages
        invariant pagesAllocated < numPages ==> prev == null && current == freeListHead
        invariant old(Flat(Views(freeNodes))) == chain + Flat(Views(freeNodes))
        invariant Free() == old(Free()) - Elems(chain)
        decreases numPages - pagesAllocated
      {
        FirstNonEmpty(Views(freeNodes));
        var pagesToTake := Min(current.numPages, numPages - pagesAllocated);
        ElemsConcat(chain, Range(current.startPage, current.startPage + pagesToTake));
        prev, current, chain := AllocationRound(prev, current, pagesToTake, chain);
        pagesAllocated := pagesAllocated + pagesToTake;
      }
    }

    /** Undoes an allocation that came up short: the very same list of blocks is back. */
    method RollBack(chain: seq<nat>, ghost bs: seq<Block>, ghost free: set<nat>)
      requires FreeValid() && NoDup(chain) && Elems(chain) <= free && Free() == free - Elems(chain)
      requires FreeListOf(bs, free) && forall p :: p in free ==> p < pageBitmap.Length
      modifies Repr()
      ensures FreeValid() && fresh(Repr() - old(Repr()))
      ensures Free() == free && Views(freeNodes) == bs
    {
      hide Flat, Sorted, Canonical, ClearBits;
      if chain != [] {
        AreTaken(pageBitmap[..], free, chain);
        DeallocatePagesLinked(chain);
      }
      CanonicalUnique(bs, Views(freeNodes));
    }

    /**
     * Takes the numPages lowest free pages; when there are too few, or none are asked for, nothing changes and
     * the chain is empty.
     */
    method AllocatePagesLinked(numPages: nat) returns (chain: seq<nat>)
      requires FreeValid()
      modifies Repr()
      ensures FreeValid() && fresh(Repr() - old(Repr()))
      ensures Allocate(old(Free()), numPages) == if chain == [] then None else Some(chain)
      ensures Free() == old(Free()) - Elems(chain)
      ensures chain == [] ==> Views(freeNodes) == old(Views(freeNodes))
    {
      hide Flat, Sorted, Canonical, ClearBits, Ascending, Elems;
      chain := [];
      ElemsOfEmpty(chain);
      if numPages == 0 {
        return;
      }
      ghost var bs, free := Views(freeNodes), Free();
      FreeInRange(pageBitmap[..]);
      var pagesAllocated;
      pagesAllocated, chain := TakePages(numPages);
      TakenAreLowest(bs, free, chain, Views(freeNodes));
      if pagesAllocated < numPages {
        RollBack(chain, bs, free);
        chain := [];
      }
    }

    /** The number of free pages, counted off the bitmap. */
    method GetFreePages() returns (count: nat)
      ensures count == |Free()|
    {
      count := 0;
      for i := 0 to pageBitmap.Length
        invariant count == |ClearBits(pageBitmap[..i])|
      {
        CountStep(pageBitmap[..i], pageBitmap[i]);
        assert pageBitmap[..i + 1] == pageBitmap[..i] + [pageBitmap[i]];
        if !pageBitmap[i] {
          count := count + 1;
        }
      }
      assert pageBitmap[..pageBitmap.Length] == pageBitmap[..];
    }

    // ---- Contiguous allocation, kept for compatibility, and statistics ----

    /** The first block that is long enough, if there is one. */
    method FindContiguousPages(numPages: nat) returns (found: bool, startPage: nat)
      requires FreeValid()
      ensures numPages >= 1 ==> (found <==> exists lo: nat :: RunFree(Free(), lo, numPages))
      ensures numPages >= 1 && found ==> RunFree(Free(), startPage, numPages)
      ensures numPages >= 1 && found ==> forall lo: nat :: RunFree(Free(), lo, numPages) ==> startPage <= lo
      ensures numPages == 0 ==> (found <==> Free() != {})
    {
      var current := freeListHead;
      ghost var at := 0;
      ghost var bs := Views(freeNodes);
      startPage := 0;
      found := false;
      while current != null
        invariant at <= |bs| && current == FreeAt(freeNodes, at)
        invariant forall i :: 0 <= i < at ==> bs[i].len < numPages
        decreases |bs| - at
      {
        if current.numPages >= numPages {
          if numPages >= 1 {
            FirstFit(bs, Free(), numPages, at);
          } else {
            BlocksAreMaximalRuns(bs, Free(), at);
            assert bs[at].start in Free();
          }
          return true, current.startPage;
        }
        current := current.next;
        at := at + 1;
      }
      if numPages >= 1 {
        FirstFit(bs, Free(), numPages, at);
      }
    }

    /** Sets or clears the bits of a range of pages. */
    method MarkRange(startPage: nat, numPages: nat, used: bool)
      requires startPage + numPages <= pageBitmap.Length
      modifies pageBitmap
      ensures Free() == if used then old(Free()) - Cut(startPage, numPages) else old(Free()) + Cut(startPage, numPages)
    {
      hide ClearBits, Elems;
      ElemsOfEmpty(Range(startPage, startPage));
      for i := startPage to startPage + numPages
        invariant Free() == if used then old(Free()) - Elems(Range(startPage, i))
                                    else old(Free()) + Elems(Range(startPage, i))
      {
        ghost var bits := pageBitmap[..];
        ClearBitsAfter(bits, i, used);
        pageBitmap[i] := used;
        assert pageBitmap[..] == bits[i := used];
        RangeGrows(startPage, i);
      }
    }

    /** The link into the list after prev (or its head) goes to block instead. */
    method LinkFrom(prev: FreeBlock?, block: FreeBlock?)
      modifies this`freeListHead, (if prev == null then {} else {prev})`next
      ensures if prev == null then freeListHead == block else prev.next == block && freeListHead == old(freeListHead)
    {
      if prev != null {
        prev.next := block;
      } else {
        freeListHead := block;
      }
    }

    /** A new block takes the place of the one at position at. */
    method ReplaceBlock(prev: FreeBlock?, current: FreeBlock, ghost at: nat, start: nat, count: nat)
      returns (block: FreeBlock)
      requires Linked() && at < |freeNodes| && current == freeNodes[at]
      requires prev == if at == 0 then null else freeNodes[at - 1]
      modifies this`freeListHead, this`freeNodes, this`freeRepr, freeRepr
      ensures Linked() && fresh(freeRepr - old(freeRepr)) && at < |freeNodes| && block == freeNodes[at]
      ensures var bs := old(Views(freeNodes)); Views(freeNodes) == bs[..at] + [Block(start, count)] + bs[at + 1..]
    {
      ghost var bs := Views(freeNodes);
      block := new FreeBlock(start, count);
      block.next := current.next;
      LinkFrom(prev, block);
      assert Views(freeNodes) == bs;
      LinkedSwapped(freeListHead, freeNodes, at, block);
      freeNodes := freeNodes[at := block];
      freeRepr := freeRepr + {block};
    }

    /** The block at position at leaves the list. */
    method RemoveBlock(prev: FreeBlock?, current: FreeBlock, ghost at: nat)
      requires Linked() && at < |freeNodes| && current == freeNodes[at]
      requires prev == if at == 0 then null else freeNodes[at - 1]
      modifies this`freeListHead, this`freeNodes, freeRepr
      ensures Linked()
      ensures var bs := old(Views(freeNodes)); Views(freeNodes) == bs[..at] + bs[at + 1..]
    {
      ghost var bs := Views(freeNodes);
      LinkFrom(prev, current.next);
      assert Views(freeNodes) == bs;
      LinkedGone(freeListHead, freeNodes, at);
      freeNodes := freeNodes[..at] + freeNodes[at + 1..];
    }

    /** Cuts the block at position at: what lies before and after the range takes its place. */
    method SplitBlockAt(prev: FreeBlock?, current: FreeBlock, ghost at: nat, startPage: nat, numPages: nat)
      requires Linked() && at < |freeNodes| && current == freeNodes[at]
      requires prev == if at == 0 then null else freeNodes[at - 1]
      requires Encloses(current.View(), startPage, numPages)
      modifies this`freeListHead, this`freeNodes, this`freeRepr, freeRepr
      ensures Linked() && fresh(freeRepr - old(freeRepr))
      ensures var bs := old(Views(freeNodes));
              Views(freeNodes) == bs[..at] + Remains(bs[at], startPage, numPages) + bs[at + 1..]
    {
      ghost var bs := Views(freeNodes);
      var beforePages := startPage - current.startPage;
      var afterPages := current.startPage + current.numPages - (startPage + numPages);
      var before, after := current.startPage, startPage + numPages;
      assert Remains(bs[at], startPage, numPages)
          == (if beforePages > 0 then [Block(before, beforePages)] else [])
           + (if afterPages > 0 then [Block(after, afterPages)] else []);
      if beforePages > 0 {
        var beforeBlock := ReplaceBlock(prev, current, at, before, beforePages);
        if afterPages > 0 {
          InsertAfter(beforeBlock, at, after, afterPages);
        }
      } else if afterPages > 0 {
        var afterBlock := ReplaceBlock(prev, current, at, after, afterPages);
      } else {
        RemoveBlock(prev, current, at);
      }
    }

    /**
     * Marks a range as used and cuts it out of the first block that encloses it. For a non-empty range, list and
     * bitmap agree afterwards if and only if the range was wholly free or wholly in use.
     */
    method AllocatePages(startPage: nat, numPages: nat)
      requires FreeValid() && startPage + numPages <= pageBitmap.Length
      modifies Repr()
      ensures Linked() && fresh(Repr() - old(Repr()))
      ensures Free() == old(Free()) - Cut(startPage, numPages)
      ensures Views(freeNodes) == CutOut(old(Views(freeNodes)), startPage, numPages)
      ensures numPages >= 1 ==>
                (FreeValid() <==> RunFree(old(Free()), startPage, numPages) || old(Free()) !! Cut(startPage, numPages))
    {
      ghost var free := Free();
      MarkRange(startPage, numPages, true);
      var prev: FreeBlock? := null;
      var current := freeListHead;
      ghost var at := 0;
      ghost var bs := Views(freeNodes);
      while current != null && !(current.startPage <= startPage
                                 && startPage + numPages <= current.startPage + current.numPages)
        invariant at <= |bs| && current == FreeAt(freeNodes, at)
        invariant prev == if at == 0 then null else freeNodes[at - 1]
        invariant forall i :: 0 <= i < at ==> !Encloses(bs[i], startPage, numPages)
        decreases |bs| - at
      {
        prev := current;
        current := current.next;
        at := at + 1;
      }
      CutOutAt(bs, startPage, numPages, at);
      if current != null {
        SplitBlockAt(prev, current, at, startPage, numPages);
      }
      if numPages >= 1 {
        CutExact(bs, free, startPage, numPages);
      }
    }

    /**
     * Returns a range of pages as one block and merges it with its neighbours. List and bitmap agree again, for a
     * non-empty range, if and only if the whole range was in use; for an empty range, if and only if it stands at
     * the end of a free run or at the start of one that is not the first.
     */
    method DeallocatePages(startPage: nat, numPages: nat)
      requires FreeValid() && startPage + numPages <= pageBitmap.Length
      modifies Repr()
      ensures Linked() && fresh(Repr() - old(Repr()))
      ensures Free() == old(Free()) + Cut(startPage, numPages)
      ensures numPages >= 1 ==> (FreeValid() <==> old(Free()) !! Cut(startPage, numPages))
      ensures numPages == 0 ==> (FreeValid() <==> AtARun(old(Free()), startPage))
    {
      hide Flat, Sorted, Canonical, Elems, ClearBits, TotalLength, Coalesced;
      ghost var bs, free := Views(freeNodes), Free();
      MarkRange(startPage, numPages, false);
      ghost var at := AddToFreeList(startPage, numPages);
      ghost var longer := Views(freeNodes);
      CoalesceFreeBlocks();
      if numPages == 0 {
        assert Range(startPage, startPage) == [];
        ElemsOfEmpty(Range(startPage, startPage));
        EmptyReturnExact(bs, free, at, startPage);
      } else {
        ReturnExact(bs, free, at, startPage, numPages);
      }
    }

    // ---- What allocation followed by deallocation leaves ----

    /** Pages that were allocated and given back leave the identical free list. */
    method AllocateAndReturn(numPages: nat) returns (chain: seq<nat>)
      requires FreeValid()
      modifies Repr()
      ensures FreeValid() && fresh(Repr() - old(Repr()))
      ensures Free() == old(Free()) && Views(freeNodes) == old(Views(freeNodes))
      ensures chain != [] <==> 1 <= numPages <= |old(Free())|
    {
      hide Flat, Canonical, ClearBits, Ascending, Elems;
      ghost var bs, free := Views(freeNodes), Free();
      FreeInRange(pageBitmap[..]);
      if Allocate(free, numPages).Some? {
        AllocateTakes(free, numPages);
      }
      chain := AllocatePagesLinked(numPages);
      if chain != [] {
        AreTaken(pageBitmap[..], free, chain);
        DeallocatePagesLinked(chain);
        ReturningRestores(bs, free, Elems(chain), Views(freeNodes));
      }
    }

    /** A free range that was allocated and given back leaves the identical free list. */
    method AllocateAndReturnRange(startPage: nat, numPages: nat)
      requires FreeValid() && numPages >= 1 && RunFree(Free(), startPage, numPages)
      requires startPage + numPages <= pageBitmap.Length
      modifies Repr()
      ensures FreeValid() && fresh(Repr() - old(Repr()))
      ensures Free() == old(Free()) && Views(freeNodes) == old(Views(freeNodes))
    {
      hide Flat, Canonical, ClearBits, Elems;
      ghost var bs, free := Views(freeNodes), Free();
      CutMember(startPage, numPages);
      AllocatePages(startPage, numPages);
      DeallocatePages(startPage, numPages);
      ReturningRestores(bs, free, Cut(startPage, numPages), Views(freeNodes));
    }

    /** Block count, longest block, and the share of free pages outside the longest block, as a percentage. */
    method GetFragmentationStats() returns (count: nat, largest: nat, ratio: real)
      requires FreeValid()
      ensures count == |RunStarts(Free())| && count <= pageBitmap.Length - |Free()| + 1
      ensures Free() == {} ==> largest == 0
      ensures Free() != {} ==> exists lo: nat :: RunFree(Free(), lo, largest)
      ensures forall lo: nat, n: nat :: RunFree(Free(), lo, n) ==> n <= largest
      ensures 0.0 <= ratio < 100.0
      ensures ratio == 0.0 <==> count <= 1
      ensures Free() != {} ==> ratio * (|Free()| as real) == ((|Free()| - largest) * 100) as real
    {
      hide Flat, Canonical, RunFree, RunStarts, Elems, ClearBits, Ratio, TotalLength, Views;
      FreeInRange(pageBitmap[..]);
      ViewsAt(freeNodes);
      count, largest := 0, 0;
      var totalFreePages := 0;
      EmptyTotal();
      var current := freeListHead;
      ghost var bs := Views(freeNodes);
      while current != null
        invariant count <= |bs| && current == FreeAt(freeNodes, count)
        invariant forall i :: 0 <= i < count ==> bs[i].len <= largest
        invariant count > 0 ==> exists i :: 0 <= i < count && bs[i].len == largest
        invariant count == 0 ==> largest == 0
        invariant totalFreePages == TotalLength(bs[..count])
        decreases |bs| - count
      {
        TotalStep(bs, count);
        largest := Max(largest, current.numPages);
        totalFreePages := totalFreePages + current.numPages;
        count := count + 1;
        current := current.next;
      }
      assert bs[..count] == bs;
      StatsMeaning(bs, Free(), pageBitmap.Length, largest);
      if totalFreePages > 0 {
        ratio := Ratio(largest, totalFreePages);
        RatioFacts(largest, totalFreePages);
      } else {
        ratio := 0.0;
      }
    }
  }
}
