/** The buddy page-frame allocator of kernel/src/mm/pmm.c: a frame database, eleven free lists
    and the split and coalescing loops over them. */
module Pmm {
  import opened Base
  import opened Bits
  import opened BuddyBlocks

  /** The allocator's part of a frame record; record `i` describes frame `i`. */
  datatype Page = Page(inBuddy: bool, order: nat)

  /** One free list, first element first, with its counter. */
  datatype FreeArea = FreeArea(list: seq<nat>, nrFree: nat)

  /** `dlist_remove_entry`, on the list as a sequence. */
  function Without(s: seq<nat>, x: nat): seq<nat>
  {
    if s == [] then [] else if s[0] == x then s[1..] else [s[0]] + Without(s[1..], x)
  }

  lemma {:induction false} WithoutElements(s: seq<nat>, x: nat)
    requires NoDup(s) && x in s
    ensures NoDup(Without(s, x)) && |Without(s, x)| == |s| - 1
    ensures forall y :: y in Without(s, x) <==> y in s && y != x
  {
    if s[0] != x {
      WithoutElements(s[1..], x);
      var w := Without(s[1..], x);
      assert forall j :: 0 <= j < |w| ==> w[j] in w && w[j] in s[1..];
    }
  }

  // ----- the concrete state as an image of the set of free blocks -----

  ghost predicate ListsOrder(area: FreeArea, o: nat, free: set<Block>)
  {
    && NoDup(area.list) && area.nrFree == |area.list|
    && (forall p: nat :: p in area.list <==> Block(p, o) in free)
  }

  ghost predicate PagesMirror(pages: seq<Page>, free: set<Block>)
  {
    && AllOk(free, |pages|)
    && (forall p: nat :: p < |pages| && pages[p].inBuddy ==> Block(p, pages[p].order) in free)
    && (forall b :: b in free ==> b.pfn < |pages| && pages[b.pfn] == Page(true, b.order))
  }

  ghost predicate AreasMirror(areas: seq<FreeArea>, free: set<Block>)
  {
    && |areas| == MM_MAX_ORDER
    && (forall o: nat :: o < MM_MAX_ORDER ==> ListsOrder(areas[o], o, free))
  }

  /** The frame records, the lists and the counters describe exactly the blocks in `free`. */
  ghost predicate Mirrors(pages: seq<Page>, areas: seq<FreeArea>, nrFreePages: int, free: set<Block>)
  {
    PagesMirror(pages, free) && AreasMirror(areas, free) && nrFreePages == |Frames(free)|
  }

  lemma PagesAdd(pages: seq<Page>, free: set<Block>, b: Block)
    requires PagesMirror(pages, free) && b.Ok(|pages|) && forall x :: x in free ==> x.Disjoint(b)
    ensures b.pfn < |pages| && PagesMirror(pages[b.pfn := Page(true, b.order)], free + {b})
  {
    forall x | x in free ensures x.pfn != b.pfn { assert x.Disjoint(b); }
  }

  lemma PagesRemove(pages: seq<Page>, free: set<Block>, b: Block, order: nat)
    requires PagesMirror(pages, free) && PairwiseDisjoint(free) && b in free
    ensures PagesMirror(pages[b.pfn := Page(false, order)], free - {b})
  {
    forall x | x in free - {b} ensures x.pfn != b.pfn { assert x.Disjoint(b); }
  }

  lemma AreasAdd(areas: seq<FreeArea>, free: set<Block>, b: Block, list: seq<nat>)
    requires AreasMirror(areas, free) && b.order < MM_MAX_ORDER && b !in free
    requires list == [b.pfn] + areas[b.order].list || list == areas[b.order].list + [b.pfn]
    ensures AreasMirror(areas[b.order := FreeArea(list, areas[b.order].nrFree + 1)], free + {b})
  {
    var free' := free + {b};
    forall o: nat | o < MM_MAX_ORDER && o != b.order ensures ListsOrder(areas[o], o, free') {
      assert ListsOrder(areas[o], o, free);
    }
    var old' := areas[b.order].list;
    assert ListsOrder(areas[b.order], b.order, free);
    forall p: nat ensures p in list <==> Block(p, b.order) in free' { }
    assert b.pfn !in old';
  }

  lemma AreasRemove(areas: seq<FreeArea>, free: set<Block>, b: Block, list: seq<nat>)
    requires AreasMirror(areas, free) && b.order < MM_MAX_ORDER && b in free
    requires NoDup(list) && |list| == |areas[b.order].list| - 1
    requires forall p :: p in list <==> p in areas[b.order].list && p != b.pfn
    ensures areas[b.order].nrFree >= 1
    ensures AreasMirror(areas[b.order := FreeArea(list, areas[b.order].nrFree - 1)], free - {b})
  {
    var free' := free - {b};
    assert ListsOrder(areas[b.order], b.order, free);
    forall o: nat | o < MM_MAX_ORDER && o != b.order ensures ListsOrder(areas[o], o, free') {
      assert ListsOrder(areas[o], o, free);
    }
    forall p: nat ensures p in list <==> Block(p, b.order) in free' { }
  }

  lemma SplitSet(w: set<nat>, u: set<nat>, v: set<nat>)
    requires w == u + v && u !! v
    ensures w - v == u && v <= w
  {
  }

  lemma RestDisjoint(free: set<Block>, b: Block)
    requires PairwiseDisjoint(free) && b in free
    ensures forall x :: x in free - {b} ==> x.Disjoint(b)
    ensures (free - {b}) + {b} == free
  {
  }

  lemma CountRemove(free: set<Block>, b: Block)
    requires PairwiseDisjoint(free) && b in free
    ensures |Frames(free)| == |Frames(free - {b})| + Pow2(b.order)
    ensures Frames(free - {b}) == Frames(free) - BlockFrames(b)
    ensures BlockFrames(b) <= Frames(free)
  {
    RestDisjoint(free, b);
    var rest := free - {b};
    FramesAdd(rest, b);
    SplitSet(Frames(rest + {b}), Frames(rest), BlockFrames(b));
  }

  lemma Consistent(pages: seq<Page>, free: set<Block>, b: Block)
    requires PagesMirror(pages, free) && Canonical(free, |pages|) && b in free
    ensures b.Ok(|pages|) && b.pfn < |pages| && pages[b.pfn] == Page(true, b.order)
    ensures PairwiseDisjoint(free)
  {
  }

  /** What the list of one order holds. */
  lemma AreaOf(areas: seq<FreeArea>, free: set<Block>, o: nat)
    requires AreasMirror(areas, free) && o < MM_MAX_ORDER
    ensures |areas| == MM_MAX_ORDER
    ensures areas[o].nrFree == |areas[o].list|
    ensures areas[o].nrFree == 0 ==> forall b :: b in free ==> b.order != o
    ensures areas[o].nrFree > 0 ==>
              var list, page := areas[o].list[1..], areas[o].list[0];
              && Block(page, o) in free && NoDup(list)
              && (forall p :: p in list <==> p in areas[o].list && p != page)
  {
    assert ListsOrder(areas[o], o, free);
    if areas[o].nrFree == 0 {
      forall b | b in free ensures b.order != o {
        assert b.order == o ==> Block(b.pfn, o) == b;
      }
    } else {
      assert areas[o].list[0] in areas[o].list;
    }
  }

  lemma ListedIn(areas: seq<FreeArea>, free: set<Block>, o: nat, p: nat)
    requires AreasMirror(areas, free) && o < MM_MAX_ORDER && Block(p, o) in free
    ensures NoDup(areas[o].list) && p in areas[o].list
  {
    assert ListsOrder(areas[o], o, free);
  }

  // ----- the order of a request -----

  ghost predicate LeastOrder(n: nat, o: nat)
  {
    n <= Pow2(o) && forall i: nat :: i < o ==> Pow2(i) < n
  }

  lemma TopOrder()
    ensures Pow2(MM_MAX_ORDER - 1) == 1024
  {
    assert Pow2(10) == 2 * Pow2(9) == 4 * Pow2(8) == 8 * Pow2(7) == 16 * Pow2(6);
    assert Pow2(6) == 2 * Pow2(5) == 4 * Pow2(4) == 8 * Pow2(3) == 16 * Pow2(2);
  }

  /** There is an aligned run of `Pow2(o)` frames, all free. */
  ghost predicate HasRun(free: set<Block>, o: nat)
  {
    exists p: nat :: Aligned(p, o) && FullyFree(free, Block(p, o))
  }

  lemma NoRun(free: set<Block>, limit: nat, o: nat)
    requires Canonical(free, limit) && o < MM_MAX_ORDER
    requires forall b :: b in free ==> b.order < o
    ensures !HasRun(free, o)
  {
    forall p: nat | Aligned(p, o) && FullyFree(free, Block(p, o)) ensures false {
      var c := RunInOneBlock(free, limit, Block(p, o));
    }
  }

  lemma SomeRun(free: set<Block>, limit: nat, b: Block, o: nat)
    requires Canonical(free, limit) && b in free && o <= b.order
    ensures HasRun(free, o)
  {
    AlignedDown(b.pfn, o, b.order);
    PowMono(o, b.order);
    FullyFreeBlock(free, b);
    forall f | Block(b.pfn, o).Has(f) ensures f in Frames(free) { assert b.Has(f); }
    assert FullyFree(free, Block(b.pfn, o));
  }

  // ----- the blocks handed out -----

  ghost predicate LiveOk(pages: seq<Page>, free: set<Block>, live: set<Block>, usable: set<nat>)
  {
    && AllOk(live, |pages|) && PairwiseDisjoint(live)
    && (forall b :: b in live ==> b.pfn < |pages| && pages[b.pfn] == Page(false, b.order))
    && Frames(free) !! Frames(live)
    && Frames(free) + Frames(live) == usable
  }

  /** Frame records outside `touched` are the same. */
  ghost predicate SameOutside(pages: seq<Page>, pages': seq<Page>, touched: set<nat>)
  {
    |pages| == |pages'| && forall p: nat :: p < |pages| && p !in touched ==> pages'[p] == pages[p]
  }

  lemma LiveHead(free: set<Block>, live: set<Block>, x: Block)
    requires x in live && Frames(free) !! Frames(live)
    ensures x.pfn !in Frames(free)
  {
    BlockInFrames(live, x);
    InOwnFrames(x);
  }

  lemma Handout(pages: seq<Page>, pages': seq<Page>, free: set<Block>, free': set<Block>, live: set<Block>,
                usable: set<nat>, b: Block)
    requires LiveOk(pages, free, live, usable) && b.Ok(|pages|)
    requires BlockFrames(b) <= Frames(free) && Frames(free') == Frames(free) - BlockFrames(b)
    requires SameOutside(pages, pages', Frames(free)) && b.pfn < |pages| && pages'[b.pfn] == Page(false, b.order)
    ensures b !in live && LiveOk(pages', free', live + {b}, usable)
  {
    hide Frames, BlockFrames, Aligned;
    InOwnFrames(b);
    FramesAddSets(live, b);
    forall x | x in live ensures x.Disjoint(b) && b.Disjoint(x) && x.pfn !in Frames(free) && x != b {
      BlockInFrames(live, x);
      DisjointFrames(x, b);
      LiveHead(free, live, x);
    }
    var fr, lv, bf := Frames(free), Frames(live), BlockFrames(b);
    assert (fr - bf) + (lv + bf) == fr + lv;
  }

  lemma TakeBack(pages: seq<Page>, pages': seq<Page>, free: set<Block>, free': set<Block>, live: set<Block>,
                 usable: set<nat>, b: Block)
    requires LiveOk(pages, free, live, usable) && b in live
    requires Frames(free') == Frames(free) + BlockFrames(b)
    requires SameOutside(pages, pages', Frames(free'))
    ensures LiveOk(pages', free', live - {b}, usable)
  {
    hide Frames, BlockFrames, Aligned;
    CountRemove(live, b);
    BlockInFrames(live, b);
    var live' := live - {b};
    var fr, lv, bf := Frames(free), Frames(live), BlockFrames(b);
    assert (fr + bf) + (lv - bf) == fr + lv;
    forall x | x in live' ensures x.pfn !in Frames(free') {
      LiveHead(free', live', x);
    }
  }

  lemma LiveBeside(free: set<Block>, live: set<Block>, b: Block)
    requires b in live && Frames(free) !! Frames(live)
    ensures Beside(free, b)
  {
    BlockInFrames(live, b);
    forall x | x in free ensures x.Disjoint(b) {
      BlockInFrames(free, x);
      DisjointFrames(x, b);
    }
  }

  lemma Taken(free: set<Block>, limit: nat, b: Block)
    requires Canonical(free, limit) && b in free
    ensures b.Ok(limit) && Beside(free - {b}, b)
    ensures Frames(free - {b}) == Frames(free) - BlockFrames(b) && BlockFrames(b) <= Frames(free)
  {
    RestDisjoint(free, b);
    CountRemove(free, b);
  }

  lemma OrderStamp(pages: seq<Page>, page: nat, o: nat, free: set<Block>)
    requires PagesMirror(pages, free) && page < |pages| && !pages[page].inBuddy
    ensures PagesMirror(pages[page := Page(false, o)], free)
  {
  }

  lemma NoBigBlock(free: set<Block>, limit: nat, o: nat)
    requires Canonical(free, limit) && o < MM_MAX_ORDER
    requires forall b :: b in free ==> !(o <= b.order < MM_MAX_ORDER)
    ensures !HasRun(free, o)
  {
    forall b | b in free ensures b.order < o { assert b.Ok(limit); }
    NoRun(free, limit, o);
  }

  // ----- the boot bitmap: a set bit marks a frame in use -----

  const BITS_PER_U64: nat := 64

  ghost predicate Clear(bitmap: seq<nat>, f: nat)
  {
    f / 64 < |bitmap| && !Bit(bitmap[f / 64], f % 64)
  }

  /** Bit `f % 64` of word `f / 64` is 0. */
  predicate ClearBit(bitmap: seq<nat>, f: nat) { f / 64 < |bitmap| && bitmap[f / 64] / Pow2(f % 64) % 2 == 0 }

  lemma ClearIs(bitmap: seq<nat>, f: nat)
    ensures Clear(bitmap, f) <==> ClearBit(bitmap, f)
  {
    if f / 64 < |bitmap| {
      BitIs(bitmap[f / 64], f % 64);
    }
  }

  lemma AllClear(bitmap: seq<nat>)
    ensures forall f: nat :: f in ClearBelow(bitmap, 64 * |bitmap|) <==> ClearBit(bitmap, f)
  {
    hide ClearBit, Bit, Pow2;
    forall f: nat ensures f in ClearBelow(bitmap, 64 * |bitmap|) <==> ClearBit(bitmap, f) {
      ClearIs(bitmap, f);
    }
  }

  ghost function ClearBelow(bitmap: seq<nat>, n: nat): (s: set<nat>)
    ensures forall f: nat :: f in s <==> f < n && Clear(bitmap, f)
  {
    if n == 0 then {} else ClearBelow(bitmap, n - 1) + (if Clear(bitmap, n - 1) then {n - 1} else {})
  }

  /** `ffs` of kernel/include/lib/kmath.h, from bit `p` on. */
  function Ffs(i: nat, p: nat): nat
    requires p <= 32
    decreases 32 - p
  {
    if p == 32 then 32 else if Bit(i, p) then p else Ffs(i, p + 1)
  }

  lemma FfsWord()
    ensures Ffs(BITS_PER_U64, 0) == 6
  {
    assert !Bit(64, 0) && !Bit(64, 1) && !Bit(64, 2) && !Bit(64, 3) && !Bit(64, 4) && !Bit(64, 5) && Bit(64, 6);
    assert Ffs(64, 6) == 6 && Ffs(64, 5) == 6 && Ffs(64, 4) == 6 && Ffs(64, 3) == 6 && Ffs(64, 2) == 6 && Ffs(64, 1) == 6;
  }

  lemma WordBlock(i: nat, limit: nat)
    requires 64 * i + 64 <= limit
    ensures Block(64 * i, 6).Ok(limit) && BlockFrames(Block(64 * i, 6)) == Span(64 * i, 64)
  {
    assert Pow2(6) == 64;
    assert Aligned(i, 0) && Aligned(2 * i, 1) && Aligned(4 * i, 2) && Aligned(8 * i, 3)
      && Aligned(16 * i, 4) && Aligned(32 * i, 5) && Aligned(64 * i, 6);
  }

  lemma BelowBeside(free: set<Block>, n: nat, b: Block)
    requires b.pfn >= n && forall f :: f in Frames(free) ==> f < n
    ensures Beside(free, b)
  {
    forall x | x in free ensures x.Disjoint(b) {
      BlockInFrames(free, x);
      assert x.End() - 1 in BlockFrames(x);
    }
  }

  lemma OneFrame(pfn: nat, limit: nat)
    requires pfn < limit
    ensures Block(pfn, 0).Ok(limit) && BlockFrames(Block(pfn, 0)) == {pfn}
  {
    assert Pow2(0) == 1;
  }

  lemma ClearInZeroWord(bitmap: seq<nat>, i: nat, f: nat)
    requires i < |bitmap| && bitmap[i] == 0 && 64 * i <= f < 64 * i + 64
    ensures Clear(bitmap, f)
  {
    ZeroBit(bitmap[i], f % 64);
    assert f / 64 == i;
  }

  lemma ClearStep(bitmap: seq<nat>, i: nat, bit: nat)
    requires i < |bitmap| && bit < 64
    ensures Clear(bitmap, 64 * i + bit) <==> !Bit(bitmap[i], bit)
    ensures ClearBelow(bitmap, 64 * i + bit + 1) ==
            ClearBelow(bitmap, 64 * i + bit) + (if Bit(bitmap[i], bit) then {} else {64 * i + bit})
  {
    assert (64 * i + bit) / 64 == i && (64 * i + bit) % 64 == bit;
  }

  ghost predicate Blank(pages: seq<Page>)
  {
    forall p :: 0 <= p < |pages| ==> pages[p] == Page(false, 0)
  }

  lemma EmptyCore(pages: seq<Page>, areas: seq<FreeArea>)
    requires Blank(pages)
    requires |areas| == MM_MAX_ORDER && forall o :: 0 <= o < |areas| ==> areas[o] == FreeArea([], 0)
    ensures Mirrors(pages, areas, 0, {})
    ensures Canonical({}, |pages|) && Frames({}) == {}
  {
  }

  lemma NothingLive(pages: seq<Page>, free: set<Block>)
    ensures LiveOk(pages, free, {}, Frames(free))
  {
    assert Frames({}) == {};
  }

  lemma WholeWordClear(bitmap: seq<nat>, i: nat)
    requires i < |bitmap| && bitmap[i] == 0
    ensures ClearBelow(bitmap, 64 * i + 64) == ClearBelow(bitmap, 64 * i) + Span(64 * i, 64)
  {
    hide Bit, Clear, ClearBelow;
    forall f: nat | 64 * i <= f < 64 * i + 64 ensures Clear(bitmap, f) {
      ClearInZeroWord(bitmap, i, f);
    }
  }

  lemma NoneBelow(bitmap: seq<nat>)
    ensures ClearBelow(bitmap, 0) == {}
  {
  }

  class Kmem {
    var pages: seq<Page>
    var areas: seq<FreeArea>
    var nrFreePages: int
    /** The blocks on the free lists and the blocks handed out. */
    ghost var free: set<Block>
    ghost var live: set<Block>
    /** The frames the boot bitmap gave to the allocator. */
    ghost var usable: set<nat>

    ghost predicate Core()
      reads this
    {
      Mirrors(pages, areas, nrFreePages, free) && Canonical(free, |pages|)
    }

    /** Free and handed-out blocks are aligned, disjoint and partition the usable frames; records,
        lists and counters agree with them; and no two buddies below the top order are both free. */
    ghost predicate Valid()
      reads this
    {
      Core() && LiveOk(pages, free, live, usable)
    }

    /** `_buddy_get_from_free_area` */
    method GetFromFreeArea(order: nat) returns (r: Option<nat>)
      requires Core() && order < MM_MAX_ORDER
      modifies this`pages, this`areas, this`nrFreePages, this`free
      ensures Core()
      ensures r.None? <==> forall b :: b in old(free) ==> b.order != order
      ensures r.None? ==> pages == old(pages) && areas == old(areas) && nrFreePages == old(nrFreePages) && free == old(free)
      ensures r.Some? ==>
                var b := Block(r.val, order);
                && b in old(free) && free == old(free) - {b} && r.val < |pages| == |old(pages)|
                && pages == old(pages)[r.val := Page(false, order)]
    {
      hide Frames, BlockFrames, Aligned, PagesMirror, AreasMirror, Canonical;
      AreaOf(areas, free, order);
      if areas[order].nrFree == 0 {
        return None;
      }
      var area := areas[order];
      var page := area.list[0];
      var list := area.list[1..];
      ghost var b := Block(page, order);
      Consistent(pages, free, b);
      PagesRemove(pages, free, b, order);
      AreasRemove(areas, free, b, list);
      CanonicalRemove(free, b, |pages|);
      CountRemove(free, b);
      pages := pages[page := pages[page].(inBuddy := false)];
      areas := areas[order := FreeArea(list, area.nrFree - 1)];
      nrFreePages := nrFreePages - Pow2(order);
      free := free - {b};
      return Some(page);
    }

    /** `_buddy_add_to_free_list`, with the counter update its caller makes. */
    method AddToFreeList(page: nat, order: nat, ghost b: Block)
      requires Core() && b == Block(page, order) && b.Ok(|pages|) && Beside(free, b)
      requires Canonical(free + {b}, |pages|)
      modifies this`pages, this`areas, this`nrFreePages, this`free
      ensures Core() && free == old(free) + {b}
      ensures page < |pages| == |old(pages)| && pages == old(pages)[page := Page(true, order)]
    {
      hide Frames, BlockFrames, Aligned, PagesMirror, AreasMirror, Canonical;
      PagesAdd(pages, free, b);
      AreaOf(areas, free, order);
      var area := areas[order];
      assert b !in free;
      AreasAdd(areas, free, b, area.list + [page]);
      FramesAdd(free, b);
      areas := areas[order := FreeArea(area.list + [page], area.nrFree + 1)];
      pages := pages[page := Page(true, order)];
      nrFreePages := nrFreePages + Pow2(order);
      free := free + {b};
    }

    /** `_buddy_split` */
    method Split(page: nat, low: nat, high: nat)
      requires Core() && low <= high && Block(page, high).Ok(|pages|) && Beside(free, Block(page, high))
      modifies this`pages, this`areas, this`nrFreePages, this`free
      ensures Core() && |pages| == |old(pages)|
      ensures Block(page, low).Ok(|pages|) && Beside(free, Block(page, low))
      ensures Frames(free) + BlockFrames(Block(page, low)) == old(Frames(free)) + BlockFrames(Block(page, high))
      ensures forall p :: 0 <= p < |pages| && p !in BlockFrames(Block(page, high)) - {page} ==> pages[p] == old(pages[p])
    {
      hide Frames, BlockFrames, Aligned, Mirrors, Canonical;
      var h := high;
      var size := Pow2(high);
      while h > low
        invariant low <= h <= high && size == Pow2(h)
        invariant Core() && |pages| == |old(pages)|
        invariant Block(page, h).Ok(|pages|) && Beside(free, Block(page, h))
        invariant Frames(free) + BlockFrames(Block(page, h)) == old(Frames(free)) + BlockFrames(Block(page, high))
        invariant BlockFrames(Block(page, h)) <= BlockFrames(Block(page, high))
        invariant forall p :: 0 <= p < |pages| && p !in BlockFrames(Block(page, high)) - {page} ==> pages[p] == old(pages[p])
      {
        h := h - 1;
        size := size / 2;
        ghost var up := Block(page + size, h);
        Halves(page, h, |pages|);
        SplitStep(free, page, h, up, |pages|);
        InOwnFrames(up);
        AddToFreeList(page + size, h, up);
      }
    }

    /** `_buddy_alloc_pages`. It fails exactly when no aligned run of the rounded-up size is free. */
    method Alloc(nrPages: nat) returns (r: Option<nat>, ghost order: nat)
      requires Valid()
      modifies this
      ensures Valid() && usable == old(usable) && |pages| == |old(pages)|
      ensures nrPages <= 1024 ==> order <= 10 && LeastOrder(nrPages, order)
      ensures r.None? <==> nrPages > 1024 || !HasRun(old(free), order)
      ensures r.None? ==> pages == old(pages) && areas == old(areas) && free == old(free) && live == old(live)
      ensures r.Some? ==>
                var b := Block(r.val, order);
                && b.Ok(|pages|) && b !in old(live) && live == old(live) + {b}
                && BlockFrames(b) <= old(Frames(free))
                && Frames(free) == old(Frames(free)) - BlockFrames(b)
                && pages[r.val].order == order
    {
      hide Frames, BlockFrames, Aligned, Canonical, PagesMirror, AreasMirror, LiveOk, Pow2, LeastOrder, HasRun;
      order := 0;
      TopOrder();
      if nrPages > Pow2(MM_MAX_ORDER - 1) {
        return None, 0;
      }
      var o := FindOrder(nrPages);
      order := o;
      var curr := o;
      while curr < MM_MAX_ORDER
        invariant o <= curr <= MM_MAX_ORDER
        invariant Valid() && usable == old(usable)
        invariant pages == old(pages) && areas == old(areas) && free == old(free) && live == old(live)
        invariant forall b :: b in free ==> !(o <= b.order < curr)
      {
        var page := GetFromFreeArea(curr);
        if page.Some? {
          ghost var taken, b := Block(page.val, curr), Block(page.val, o);
          Taken(old(free), |pages|, taken);
          InOwnFrames(taken);
          InOwnFrames(b);
          SomeRun(old(free), |pages|, taken, o);
          Split(page.val, o, curr);
          FramesAdd(free, b);
          SplitSet(old(Frames(free)), Frames(free), BlockFrames(b));
          OrderStamp(pages, page.val, o, free);
          pages := pages[page.val := pages[page.val].(order := o)];
          Handout(old(pages), pages, old(free), free, live, usable, b);
          live := live + {b};
          return page, o;
        }
        curr := curr + 1;
      }
      NoBigBlock(free, |pages|, o);
      return None, o;
    }

    /** The order loop of `_buddy_alloc_pages`. */
    method FindOrder(nrPages: nat) returns (order: nat)
      requires nrPages <= Pow2(MM_MAX_ORDER - 1)
      ensures order < MM_MAX_ORDER && LeastOrder(nrPages, order)
    {
      order := 0;
      for i := 0 to MM_MAX_ORDER
        invariant forall k: nat :: k < i ==> Pow2(k) < nrPages
      {
        if nrPages <= Pow2(i) {
          order := i;
          return;
        }
      }
    }

    /** `_buddy_page_is_buddy` */
    method PageIsBuddy(page: nat, buddy: nat, order: nat) returns (r: bool)
      requires Core() && Block(page, order).Ok(|pages|) && order < MM_MAX_ORDER - 1
      ensures r <==> Xor(page, buddy) == Pow2(order) && Block(buddy, order) in free
      ensures buddy == Xor(page, Pow2(order)) ==> buddy == BuddyOf(Block(page, order)) && Xor(page, buddy) == Pow2(order)
    {
      hide Frames, BlockFrames, Aligned, AreasMirror, Canonical, Xor, Pow2;
      XorTwice(page, order);
      XorPow2(page, order);
      if Xor(page, buddy) != Pow2(order) {
        return false;
      }
      if buddy >= |pages| {
        return false;
      }
      return pages[buddy].inBuddy && pages[buddy].order == order;
    }

    /** The coalescing loop of `_buddy_free_pages`, for a block whose frames are not free yet. */
    method Coalesce(first: nat, order: nat, ghost b: Block)
      requires Core() && b == Block(first, order) && b.Ok(|pages|) && Beside(free, b)
      modifies this`pages, this`areas, this`nrFreePages, this`free
      ensures Core() && Frames(free) == old(Frames(free)) + BlockFrames(b)
      ensures SameOutside(old(pages), pages, Frames(free))
    {
      hide Frames, BlockFrames, Aligned, PagesMirror, AreasMirror, Canonical, Xor, And, Pow2, Union;
      var page, newOrder := first, order;
      while newOrder < MM_MAX_ORDER - 1
        invariant newOrder < MM_MAX_ORDER && Core() && |pages| == |old(pages)|
        invariant Block(page, newOrder).Ok(|pages|) && Beside(free, Block(page, newOrder))
        invariant Frames(free) + BlockFrames(Block(page, newOrder)) == old(Frames(free)) + BlockFrames(b)
        invariant SameOutside(old(pages), pages, old(Frames(free)) + BlockFrames(b))
        decreases MM_MAX_ORDER - newOrder
      {
        ghost var c := Block(page, newOrder);
        XorPow2(page, newOrder);
        var buddy := Xor(page, Pow2(newOrder));
        var isBuddy := PageIsBuddy(page, buddy, newOrder);
        if !isBuddy {
          break;
        }
        ghost var d := Block(buddy, newOrder);
        Consistent(pages, free, d);
        MergeStep(free, c, d, |pages|);
        UnionHead(c);
        BlockInFrames(free, d);
        InOwnFrames(d);
        RemoveBuddy(buddy, newOrder, d);
        page := And(page, buddy);
        newOrder := newOrder + 1;
      }
      ghost var c := Block(page, newOrder);
      MergeDone(free, c, |pages|);
      InOwnFrames(c);
      PagesAdd(pages, free, c);
      AreaOf(areas, free, newOrder);
      var area := areas[newOrder];
      AreasAdd(areas, free, c, [page] + area.list);
      FramesAdd(free, c);
      pages := pages[page := Page(true, newOrder)];
      areas := areas[newOrder := FreeArea([page] + area.list, area.nrFree + 1)];
      nrFreePages := nrFreePages + Pow2(newOrder);
      free := free + {c};
    }

    /** Takes a free buddy off its list: the body of the coalescing loop. */
    method RemoveBuddy(buddy: nat, order: nat, ghost d: Block)
      requires Core() && d == Block(buddy, order) && d in free
      modifies this`pages, this`areas, this`nrFreePages, this`free
      ensures Core() && free == old(free) - {d}
      ensures SameOutside(old(pages), pages, {buddy})
    {
      hide Frames, BlockFrames, Aligned, PagesMirror, AreasMirror, Canonical, Pow2, Without;
      Consistent(pages, free, d);
      AreaOf(areas, free, order);
      ListedIn(areas, free, order, buddy);
      var area := areas[order];
      WithoutElements(area.list, buddy);
      PagesRemove(pages, free, d, 0);
      AreasRemove(areas, free, d, Without(area.list, buddy));
      CanonicalRemove(free, d, |pages|);
      CountRemove(free, d);
      areas := areas[order := FreeArea(Without(area.list, buddy), area.nrFree - 1)];
      pages := pages[buddy := Page(false, 0)];
      nrFreePages := nrFreePages - Pow2(order);
      free := free - {d};
    }

    /** `pmm_free_pages`: the order comes from the frame record. */
    method Free(pfn: nat, ghost b: Block)
      requires Valid() && b in live && b.pfn == pfn
      modifies this
      ensures Valid() && usable == old(usable) && |pages| == |old(pages)|
      ensures live == old(live) - {b}
      ensures Frames(free) == old(Frames(free)) + BlockFrames(b)
    {
      hide Frames, BlockFrames, Aligned, PagesMirror, AreasMirror, Canonical, Pow2;
      LiveBeside(free, live, b);
      Coalesce(pfn, pages[pfn].order, b);
      TakeBack(old(pages), pages, old(free), free, live, usable, b);
      live := live - {b};
    }

    /** `_pfn_database_init`: blank frame records. */
    constructor (nrPages: nat)
      ensures |pages| == nrPages && Blank(pages) && nrFreePages == 0
    {
      pages := seq(nrPages, _ => Page(false, 0));
      areas := [];
      nrFreePages := 0;
      free, live, usable := {}, {}, {};
    }

    /** `_buddy_init`: gives every frame with a clear bit to the allocator. */
    method BuddyInit(bitmap: seq<nat>)
      requires Blank(pages) && nrFreePages == 0
      requires forall f: nat :: Clear(bitmap, f) ==> f < |pages|
      modifies this
      ensures Valid() && |pages| == |old(pages)| && live == {}
      ensures usable == Frames(free) && forall f: nat :: f in usable <==> ClearBit(bitmap, f)
    {
      hide Frames, Mirrors, Canonical, Blank, Bit, Clear, ClearBelow, LiveOk, ClearBit;
      AllClear(bitmap);
      NoneBelow(bitmap);
      areas := seq(MM_MAX_ORDER, _ => FreeArea([], 0));
      free, live := {}, {};
      EmptyCore(pages, areas);
      for i := 0 to |bitmap|
        invariant Core() && |pages| == |old(pages)| && live == {}
        invariant Frames(free) == ClearBelow(bitmap, 64 * i)
      {
        InitWord(bitmap, i);
      }
      usable := Frames(free);
      NothingLive(pages, free);
    }

    method InitWord(bitmap: seq<nat>, i: nat)
      requires Core() && Frames(free) == ClearBelow(bitmap, 64 * i)
      requires i < |bitmap| && forall f: nat :: Clear(bitmap, f) ==> f < |pages|
      modifies this`pages, this`areas, this`nrFreePages, this`free
      ensures Core() && |pages| == |old(pages)| && Frames(free) == ClearBelow(bitmap, 64 * i + 64)
    {
      hide Frames, Mirrors, Canonical, Bit, Clear, ClearBelow;
      if bitmap[i] == 0 {
        FreeWord(bitmap, i);
      } else {
        FreeBits(bitmap, i);
      }
    }

    method FreeWord(ghost bitmap: seq<nat>, i: nat)
      requires Core() && Frames(free) == ClearBelow(bitmap, 64 * i)
      requires i < |bitmap| && bitmap[i] == 0 && forall f: nat :: Clear(bitmap, f) ==> f < |pages|
      modifies this`pages, this`areas, this`nrFreePages, this`free
      ensures Core() && |pages| == |old(pages)| && Frames(free) == ClearBelow(bitmap, 64 * i + 64)
    {
      hide Frames, BlockFrames, Aligned, PagesMirror, AreasMirror, Canonical, Pow2, Clear;
      WholeWordClear(bitmap, i);
      ghost var b := Block(64 * i, 6);
      assert 64 * i + 63 in ClearBelow(bitmap, 64 * i + 64);
      WordBlock(i, |pages|);
      BelowBeside(free, 64 * i, b);
      FfsWord();
      Coalesce(64 * i, Ffs(BITS_PER_U64, 0), b);
    }

    method FreeBits(bitmap: seq<nat>, i: nat)
      requires Core() && Frames(free) == ClearBelow(bitmap, 64 * i)
      requires i < |bitmap| && forall f: nat :: Clear(bitmap, f) ==> f < |pages|
      modifies this`pages, this`areas, this`nrFreePages, this`free
      ensures Core() && |pages| == |old(pages)| && Frames(free) == ClearBelow(bitmap, 64 * i + 64)
    {
      hide Frames, BlockFrames, Aligned, Mirrors, Canonical, Bit, Clear, ClearBelow, Pow2, Beside;
      for bit := 0 to 64
        invariant Core() && |pages| == |old(pages)|
        invariant Frames(free) == ClearBelow(bitmap, 64 * i + bit)
      {
        var pfn := 64 * i + bit;
        ClearStep(bitmap, i, bit);
        if !Bit(bitmap[i], bit) {
          ghost var b := Block(pfn, 0);
          OneFrame(pfn, |pages|);
          BelowBeside(free, pfn, b);
          Coalesce(pfn, 0, b);
        }
      }
    }

    /** Allocating and freeing the block again restores the same free blocks and counters. */
    method AllocThenFree(nrPages: nat) returns (r: Option<nat>)
      requires Valid()
      modifies this
      ensures Valid() && free == old(free) && live == old(live)
      ensures nrFreePages == old(nrFreePages)
    {
      hide Frames, BlockFrames, Aligned, PagesMirror, AreasMirror, Canonical, HasRun, LeastOrder;
      ghost var order;
      r, order := Alloc(nrPages);
      if r.Some? {
        Free(r.val, Block(r.val, order));
        assert Frames(free) == old(Frames(free));
        CanonicalUnique(free, old(free), |pages|);
        assert live == old(live);
      }
    }
  }

  ghost function Listed(s: seq<nat>): set<nat>
  {
    set p | p in s
  }

  lemma {:induction false} NoDupSize(s: seq<nat>)
    requires NoDup(s)
    ensures |Listed(s)| == |s|
  {
    if s != [] {
      var rest := s[1..];
      NoDupSize(rest);
      assert Listed(s) == Listed(rest) + {s[0]};
    }
  }

  /** Whatever splits and merges came before: two allocators over the same usable frames with the
      same frames handed out have the same free blocks, order by order, and the same counters. */
  lemma HistoryIndependent(a: Kmem, b: Kmem)
    requires a.Valid() && b.Valid() && |a.pages| == |b.pages|
    requires a.usable == b.usable && Frames(a.live) == Frames(b.live)
    ensures a.free == b.free && a.nrFreePages == b.nrFreePages
    ensures forall o: nat :: o < MM_MAX_ORDER ==>
              Listed(a.areas[o].list) == Listed(b.areas[o].list) && a.areas[o].nrFree == b.areas[o].nrFree
  {
    hide Frames, BlockFrames, Aligned, PagesMirror, Canonical;
    SplitSet(a.usable, Frames(a.free), Frames(a.live));
    SplitSet(b.usable, Frames(b.free), Frames(b.live));
    CanonicalUnique(a.free, b.free, |a.pages|);
    forall o: nat | o < MM_MAX_ORDER
      ensures Listed(a.areas[o].list) == Listed(b.areas[o].list) && a.areas[o].nrFree == b.areas[o].nrFree
    {
      assert ListsOrder(a.areas[o], o, a.free) && ListsOrder(b.areas[o], o, b.free);
      NoDupSize(a.areas[o].list);
      NoDupSize(b.areas[o].list);
      assert Listed(a.areas[o].list) == Listed(b.areas[o].list);
    }
  }
}
