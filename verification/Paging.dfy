/** The page-table manager of kernel/src/mm/ptm.c: tables are read and written through the recursive window only. */
module Paging {
  import opened Base
  import opened Bits
  import opened PagingAddr
  import opened PageWalk
  import opened PageRange

  class PageTables {
    const root: nat
    var mem: seq<Frame>
    var pool: seq<nat>
    ghost var own: map<nat, Node>

    ghost predicate Valid()
      reads this
    {
      Tree(mem, root, own) && Supply(mem, own, pool)
    }

    /** `ptm_recursive_init` on a root table that is otherwise empty. */
    constructor (frames: seq<Frame>, top: nat, supply: seq<nat>)
      requires top < |frames| && forall i | 0 <= i < 512 && i != REC :: !frames[top][i].present
      requires Supply(frames, map[top := Node(4, 0)], supply)
      ensures Valid() && root == top && pool == supply && own == map[top := Node(4, 0)]
      ensures mem == SetWord(frames, top, REC, Word(true, top, 0))
    {
      root, pool, own := top, supply, map[top := Node(4, 0)];
      mem := SetWord(frames, top, REC, Word(true, top, 0));
    }

    /** A root for a new address space: `ptm_recursive_init` on the directory that `mm_create` has filled. */
    constructor Child(frames: seq<Frame>, ghost kroot: nat, ghost kown: map<nat, Node>, dir: nat, supply: seq<nat>)
      requires ChildOf(frames, kroot, kown, dir) && Supply(frames, kown, supply) && dir !in supply
      ensures Valid() && root == dir && pool == supply && own == ChildOwn(kroot, kown, dir)
      ensures mem == SetWord(frames, dir, REC, Word(true, dir, 0)) && NoUser(mem, root)
    {
      root, pool, own := dir, supply, ChildOwn(kroot, kown, dir);
      mem := SetWord(frames, dir, REC, Word(true, dir, 0));
      new;
      ChildTree(frames, kroot, kown, dir);
      ChildEmpty(mem, dir);
    }

    // ----- the processor's accesses -----

    method Load(p: nat) returns (w: Word)
      requires p % 8 == 0 && Walk(mem, root, PageNo(p)).Some? && Walk(mem, root, PageNo(p)).val < |mem|
      ensures w == mem[Walk(mem, root, PageNo(p)).val][p % 4096 / 8]
    {
      w := mem[Walk(mem, root, PageNo(p)).val][p % 4096 / 8];
    }

    method Store(p: nat, w: Word)
      requires p % 8 == 0 && Walk(mem, root, PageNo(p)).Some? && Walk(mem, root, PageNo(p)).val < |mem|
      modifies `mem
      ensures mem == SetWord(old(mem), old(Walk(mem, root, PageNo(p))).val, p % 4096 / 8, w)
    {
      mem := SetWord(mem, Walk(mem, root, PageNo(p)).val, p % 4096 / 8, w);
    }

    method ClearPage(va: nat)
      requires Walk(mem, root, PageNo(va)).Some? && Walk(mem, root, PageNo(va)).val < |mem|
      modifies `mem
      ensures mem == old(mem)[old(Walk(mem, root, PageNo(va))).val := ZeroFrame()]
    {
      mem := mem[Walk(mem, root, PageNo(va)).val := ZeroFrame()];
    }

    /** Reading an entry through the window reads the word the walk itself consults. */
    method FetchEntry(p: nat, ghost k: nat, ghost q: nat) returns (w: Word)
      requires Tree(mem, root, own) && Reachable(mem, root, k, q) && p == Ptr(k, q)
      ensures w == Entry(mem, root, own, k, q)
      ensures Table(mem, root, k, q) == if w.present then Some(w.frame) else None
    {
      hide Walk, Ordinary, PageNo;
      OrdinaryUp(k, q);
      TableOwned(mem, root, own, k + 1, q / 512);
      EntryAt(mem, root, k, q) by { TreePrefix(mem, root, own, k, q); }
      w := Load(p);
    }

    method WriteEntry(p: nat, w: Word, ghost k: nat, ghost q: nat)
      requires Tree(mem, root, own) && Reachable(mem, root, k, q) && p == Ptr(k, q)
      modifies `mem
      ensures mem == Stored(old(mem), root, own, k, q, w)
    {
      hide Walk, Ordinary, PageNo;
      OrdinaryUp(k, q);
      TableOwned(mem, root, own, k + 1, q / 512);
      EntryAt(mem, root, k, q) by { TreePrefix(mem, root, own, k, q); }
      Store(p, w);
    }

    // ----- tables on demand -----

    /** Takes a frame, hangs it into the entry and clears it through its window page. */
    method LinkFrame(p: nat, flags: nat, ghost k: nat, ghost q: nat)
      requires Valid() && 1 <= k && Reachable(mem, root, k, q) && p == Ptr(k, q)
      requires Table(mem, root, k, q) == None && pool != []
      modifies `mem, `pool, `own
      ensures Valid() && SameOutside(old(mem), mem, root, k, q, q + 1)
      ensures Table(mem, root, k, q) == Some(old(pool)[0])
      ensures Grown(old(mem), old(own), old(pool), mem, own, pool, 1)
    {
      hide Tree, Reachable, SameOutside, Table, Walk;
      var pfn := pool[0];
      pool := pool[1..];
      ghost var w := Word(true, pfn, flags);
      Linked(mem, root, own, k, q, w);
      Attached(mem, root, own, k, q, w);
      TreePrefix(mem, root, own, k, q);
      WriteEntry(p, Word(true, pfn, flags), k, q);
      TableAt(mem, root, k, q);
      ClearPage(PteToPtr(p));
      own := own[pfn := Node(k, q)];
    }

    /** One turn of the allocation loops. */
    method AllocOne(p: nat, flags: nat, ghost k: nat, ghost q: nat) returns (ok: bool)
      requires Valid() && 1 <= k && Reachable(mem, root, k, q) && p == Ptr(k, q)
      modifies `mem, `pool, `own
      ensures Valid() && SameOutside(old(mem), mem, root, k, q, q + 1)
      ensures ok <==> old(Table(mem, root, k, q)).Some? || old(pool) != []
      ensures ok ==> Table(mem, root, k, q).Some?
      ensures Grown(old(mem), old(own), old(pool), mem, own, pool,
                    if ok && old(Table(mem, root, k, q)) == None then 1 else 0)
    {
      hide Tree, Ordinary, SameOutside, Table;
      SameOutsideRefl(mem, root, k, q, q + 1);
      var w := FetchEntry(p, k, q);
      ok := true;
      if !w.present {
        if pool == [] {
          return false;
        }
        LinkFrame(p, flags, k, q);
      }
    }

    /** The loop over the entries from `first` to `last` inclusive: every prefix in between gets a table. */
    method AllocRange(first: nat, last: nat, flags: nat, ghost k: nat, ghost lo: nat, ghost hi: nat)
      returns (ok: bool, ghost used: nat)
      requires Valid() && 1 <= k <= 3 && first == Ptr(k, lo) && last == Ptr(k, hi)
      requires AllReachable(mem, root, k, lo, hi)
      modifies `mem, `pool, `own
      ensures Valid() && SameOutside(old(mem), mem, root, k, lo, hi + 1)
      ensures ok <==> Missing(old(mem), root, k, lo, hi + 1) <= |old(pool)|
      ensures ok ==> AllPresent(mem, root, k, lo, hi + 1)
      ensures Grown(old(mem), old(own), old(pool), mem, own, pool, used)
      ensures ok ==> used == Missing(old(mem), root, k, lo, hi + 1)
    {
      hide Tree, Supply, Ordinary, SameOutside, Table, Grown, Window;
      ghost var q := lo;
      var p := first;
      SameOutsideRefl(mem, root, k, lo, lo);
      GrownRefl(mem, own, pool);
      ok, used := true, 0;
      while p <= last
        invariant lo <= q && (q == lo || q <= hi + 1) && p == Ptr(k, q)
        invariant Valid() && SameOutside(old(mem), mem, root, k, lo, q)
        invariant ok && used == Missing(old(mem), root, k, lo, q)
        invariant Grown(old(mem), old(own), old(pool), mem, own, pool, used)
        invariant AllPresent(mem, root, k, lo, q)
        decreases hi + 1 - q
      {
        ghost var m1, o1, s1 := mem, own, pool;
        StillReachable(old(mem), mem, root, k, lo, hi, q);
        ok := AllocOne(p, flags, k, q);
        RangeStep(old(mem), m1, mem, root, k, lo, hi, q, ok);
        ghost var one := if ok && Table(m1, root, k, q) == None then 1 else 0;
        GrownTrans(old(mem), old(own), old(pool), m1, o1, s1, mem, own, pool, used, one);
        GrownSize(old(mem), old(own), old(pool), m1, o1, s1, used);
        used := used + one;
        if !ok {
          SameOutsideMore(old(mem), mem, root, k, lo, q + 1, hi + 1);
          MissingMono(old(mem), root, k, lo, q + 1, hi + 1);
          return;
        }
        p := p + 8;
        q := q + 1;
      }
      GrownSize(old(mem), old(own), old(pool), mem, own, pool, used);
      RangeEnd(old(mem), mem, root, k, lo, hi, q);
    }

    /** `ptm_alloc_pml4es`: level-3 tables for the pages from `va` to `n % 2^20` pages on. */
    method AllocPml4es(va: nat, n: nat, flags: nat) returns (ok: bool, ghost used: nat)
      requires Valid() && TableSpan(va, n)
      modifies `mem, `pool, `own
      ensures Valid()
      ensures Alloced(old(mem), old(own), old(pool), mem, own, pool, root, 3, PageNo(va), TableEnd(va, n), ok, used)
    {
      hide Tree, Supply, SameOutside, Table, Grown, Window, PtrToPte, PtrToPde, PtrToPdpte, PtrToPml4e, PageNo, Missing, TableEnd;
      var end := (va + n * 4096 % 0x1_0000_0000) % TOP;
      PtrLevels(va);
      PtrLevels(end);
      TableEndPage(va, n);
      LoopOf(va, n);
      RangeReachable(mem, root, 3, PageNo(va), TableEnd(va, n));
      ok, used := AllocRange(PtrToPml4e(va), PtrToPml4e(end), flags, 3, At(3, PageNo(va)), At(3, TableEnd(va, n)));
    }

    /** `ptm_alloc_pdptes`: level-2 tables for the same pages. */
    method AllocPdptes(va: nat, n: nat, flags: nat) returns (ok: bool, ghost used: nat)
      requires Valid() && TableSpan(va, n) && Covered(mem, root, 3, PageNo(va), TableEnd(va, n))
      modifies `mem, `pool, `own
      ensures Valid()
      ensures Alloced(old(mem), old(own), old(pool), mem, own, pool, root, 2, PageNo(va), TableEnd(va, n), ok, used)
    {
      hide Tree, Supply, SameOutside, Table, Grown, Window, PtrToPte, PtrToPde, PtrToPdpte, PtrToPml4e, PageNo, Missing, TableEnd;
      var end := (va + n * 4096 % 0x1_0000_0000) % TOP;
      PtrLevels(va);
      PtrLevels(end);
      TableEndPage(va, n);
      LoopOf(va, n);
      RangeReachable(mem, root, 2, PageNo(va), TableEnd(va, n));
      ok, used := AllocRange(PtrToPdpte(va), PtrToPdpte(end), flags, 2, At(2, PageNo(va)), At(2, TableEnd(va, n)));
    }

    /** `ptm_alloc_pdes`: page tables for the same pages. */
    method AllocPdes(va: nat, n: nat, flags: nat) returns (ok: bool, ghost used: nat)
      requires Valid() && TableSpan(va, n) && Covered(mem, root, 2, PageNo(va), TableEnd(va, n))
      modifies `mem, `pool, `own
      ensures Valid()
      ensures Alloced(old(mem), old(own), old(pool), mem, own, pool, root, 1, PageNo(va), TableEnd(va, n), ok, used)
    {
      hide Tree, Supply, SameOutside, Table, Grown, Window, PtrToPte, PtrToPde, PtrToPdpte, PtrToPml4e, PageNo, Missing, TableEnd;
      var end := (va + n * 4096 % 0x1_0000_0000) % TOP;
      PtrLevels(va);
      PtrLevels(end);
      TableEndPage(va, n);
      LoopOf(va, n);
      RangeReachable(mem, root, 1, PageNo(va), TableEnd(va, n));
      ok, used := AllocRange(PtrToPde(va), PtrToPde(end), flags, 1, At(1, PageNo(va)), At(1, TableEnd(va, n)));
    }

    /** The three table loops of `ptm_map_pages`, one after the other. */
    method AllocTables(va: nat, n: nat, flags: nat) returns (ok: bool, ghost used: nat)
      requires Valid() && TableSpan(va, n)
      modifies `mem, `pool, `own
      ensures Valid() && SameLeaves(old(mem), mem, root)
      ensures ok <==> Needed(old(mem), root, PageNo(va), TableEnd(va, n)) <= |old(pool)|
      ensures ok ==> AllTabled(old(mem), mem, root, PageNo(va), TableEnd(va, n))
      ensures ok ==> used == Needed(old(mem), root, PageNo(va), TableEnd(va, n))
      ensures Grown(old(mem), old(own), old(pool), mem, own, pool, used)
    {
      hide Tree, Supply, Ordinary, Table, Window, PageNo, Missing, Grown, Covered, SameOutside, TableEnd, TableSpan, Tabled,
        SameLevel, SameLeaves;
      ghost var v, w := PageNo(va), TableEnd(va, n);
      ghost var m0, o0, p0 := mem, own, pool;
      LoopOf(va, n);
      ok, used := AllocPml4es(va, n, flags);
      ghost var m1, o1, p1 := mem, own, pool;
      CountAfter(m0, m1, root, 3, v, w);
      GrownSize(m0, o0, p0, m1, o1, p1, used);
      if !ok {
        return;
      }
      ghost var u2: nat, u1: nat;
      ok, u2 := AllocPdptes(va, n, flags);
      ghost var m2, o2, p2 := mem, own, pool;
      CountAfter(m1, m2, root, 2, v, w);
      LeavesTrans(m0, m1, m2, root);
      GrownTrans(m0, o0, p0, m1, o1, p1, m2, o2, p2, used, u2);
      GrownSize(m1, o1, p1, m2, o2, p2, u2);
      used := used + u2;
      if !ok {
        return;
      }
      ok, u1 := AllocPdes(va, n, flags);
      CountAfter(m2, mem, root, 1, v, w);
      LeavesTrans(m0, m2, mem, root);
      if ok {
        LevelsDone(m0, m1, m2, mem, root, v, w);
      }
      GrownTrans(m0, o0, p0, m2, o2, p2, mem, own, pool, used, u1);
      used := used + u1;
    }

    // ----- mapping and unmapping -----

    /** Whether an access to the entry of page `u` faults: its page table is missing. */
    method Faults(p: nat, ghost u: nat) returns (b: bool)
      requires Tree(mem, root, own) && Ordinary(0, u) && p == Ptr(0, u)
      ensures b <==> !HasTable(mem, root, u)
    {
      hide Walk, Table, PageNo, Step;
      EntryAt(mem, root, 0, u);
      b := Walk(mem, root, PageNo(p)).None?;
    }

    /** The entry loop of `ptm_map_pages`, over the pages of `[v, e)`. */
    method MapRange(first: nat, last: nat, pf: nat, flags: nat, ghost v: nat, ghost e: nat) returns (r: Outcome, ghost at: nat)
      requires Valid() && first == Ptr(0, v) && last == Ptr(0, e) && forall u | v <= u < e :: Ordinary(0, u)
      modifies `mem
      ensures Valid() && SamePages(old(mem), mem, root, v, e) && |mem| == |old(mem)|
      ensures r == Done <==> AllVacant(old(mem), root, v, e)
      ensures r == Done ==> Consecutive(mem, root, v, e, pf)
      ensures r != Done ==> MapStops(old(mem), root, v, e, at, r)
      ensures forall f | 0 <= f < |mem| && f !in own :: mem[f] == old(mem)[f]
    {
      hide Tree, Ordinary, SameOutside, SamePages, Table, Window, Walk, HasTable;
      at := v;
      var p, pfn := first, pf;
      SamePagesRefl(mem, root, v, v);
      while p < last
        invariant v <= at && (at == v || at <= e) && p == Ptr(0, at) && pfn == pf + (at - v)
        invariant Valid() && SamePages(old(mem), mem, root, v, at) && |mem| == |old(mem)|
        invariant AllVacant(old(mem), root, v, at) && Consecutive(mem, root, v, at, pf)
        invariant forall f | 0 <= f < |mem| && f !in own :: mem[f] == old(mem)[f]
        decreases e - at
      {
        ghost var m1 := mem;
        PageNow(old(mem), mem, root, v, at);
        var bad := Faults(p, at);
        if bad {
          SamePagesMore(old(mem), mem, root, v, at, e);
          assert !Vacant(old(mem), root, at);
          r := Fault;
          return;
        }
        var entry := FetchEntry(p, 0, at);
        if entry.present {
          SamePagesMore(old(mem), mem, root, v, at, e);
          assert !Vacant(old(mem), root, at);
          r := Panic;
          return;
        }
        StoreLeaf(mem, root, own, at, Word(true, pfn, flags));
        WriteEntry(p, Word(true, pfn, flags), 0, at);
        SamePagesStep(old(mem), m1, mem, root, v, at);
        MappedStep(m1, mem, root, v, at, pf);
        p, pfn := p + 8, pfn + 1;
        at := at + 1;
      }
      r := Done;
      RangeDone(old(mem), mem, root, v, at, e, pf);
    }

    /** `ptm_map_pages`, for any number of pages. The table loops reach `n % 2^20` pages on, the entry loop to the page
        `LeafEnd`. The call returns exactly if the frames last for the missing tables and every page of the entry loop is
        unmapped and has a page table, old or new; then these pages are translated to consecutive frames. Otherwise it
        panics, for want of frames or on the first page that is mapped, or faults on the first page without a table. All
        `n` pages get mapped exactly if the range ends below the last page and the call returns. No other page of the
        address space changes its translation, and no frame but tables changes its contents. */
    method MapPages(va: nat, pa: nat, n: nat, flags: nat) returns (r: Outcome, ghost at: nat)
      requires Valid() && MapSpan(va, n)
      modifies `mem, `pool, `own
      ensures Valid() && |mem| == |old(mem)|
      ensures forall u: nat | Ordinary(0, u) && !(PageNo(va) <= u < LeafEnd(va, n))
        :: Walk(mem, root, u) == Walk(old(mem), root, u)
      ensures r == Done <==> Mappable(old(mem), root, |old(pool)|, va, n)
      ensures r == Done ==> Consecutive(mem, root, PageNo(va), LeafEnd(va, n), pa / 4096)
      ensures r != Done ==> Refused(old(mem), root, |old(pool)|, va, n, at, r)
      ensures r == Done && WholeRange(old(mem), mem, root, PageNo(va), n, pa / 4096)
        <==> Mappable(old(mem), root, |old(pool)|, va, n) && (n == 0 || PageNo(va) + n < PAGES)
      ensures PageNo(va) + n == PAGES && n < 0x10_0000 ==> r == Done
      ensures PageNo(va) + n == PAGES ==> forall u: nat | Ordinary(0, u) :: Walk(mem, root, u) == Walk(old(mem), root, u)
      ensures r == Done ==> AllTabled(old(mem), mem, root, PageNo(va), TableEnd(va, n))
      ensures r == Done ==> |pool| == |old(pool)| - Needed(old(mem), root, PageNo(va), TableEnd(va, n))
      ensures Supplied(old(mem), old(own), old(pool), mem, own, pool)
    {
      hide Tree, Supply, Ordinary, SameOutside, SamePages, Table, Window, Walk, PageNo, Missing, Grown, TableEnd, LeafEnd, HasTable,
        PtrToPte, PtrToPde, PtrToPdpte, PtrToPml4e, Consecutive, SameLeaves, Tabled, SameLevel, Needed, WholeRange, Mappable, Refused,
        TableSpan, LeafSpan;
      ghost var v, e := PageNo(va), LeafEnd(va, n);
      var first, last := PtrToPte(va), PtrToPte((va + n * 4096) % TOP);
      PtrLevels(va);
      PtrLevels((va + n * 4096) % TOP);
      EndPage(va, n);
      LeavesOrdinary(va, n);
      ghost var used: nat, ok: bool;
      var got: bool;
      got, used := AllocTables(va, n, flags);
      ghost var m1, o1, p1 := mem, own, pool;
      GrownFacts(old(mem), old(own), old(pool), mem, own, pool, used);
      GrownSize(old(mem), old(own), old(pool), mem, own, pool, used);
      at := v;
      if got {
        r, at := MapRange(first, last, pa / 4096, flags, v, e);
        TabledStay(old(mem), m1, mem, root, v, e, TableEnd(va, n));
        MapResult(old(mem), m1, mem, root, |old(pool)|, va, n, pa / 4096, at, r);
      } else {
        r := Panic;
        SamePagesRefl(mem, root, v, e);
        NoFrames(old(mem), mem, root, |old(pool)|, va, n, pa / 4096, at);
      }
      PagesAfter(old(mem), m1, mem, root, v, e);
      LastPage(old(mem), root, |old(pool)|, va, n);
    }

    /** `ptm_unmap_pages`: the pages of the entry loop lose their translation and their frames are given back in order. On
        the first page that is not mapped it panics, or faults if that page has no page table. */
    method UnmapPages(va: nat, n: nat) returns (r: Outcome, freed: seq<nat>, ghost at: nat)
      requires Valid() && LeafSpan(va, n)
      modifies `mem
      ensures Valid() && |mem| == |old(mem)| && SamePages(old(mem), mem, root, PageNo(va), LeafEnd(va, n))
      ensures r == Done <==> AllMapped(old(mem), root, PageNo(va), LeafEnd(va, n))
      ensures r == Done ==> NoneMapped(mem, root, PageNo(va), LeafEnd(va, n))
      ensures r == Done ==> Held(old(mem), root, PageNo(va), LeafEnd(va, n), freed)
      ensures r != Done ==> UnmapStops(old(mem), root, PageNo(va), LeafEnd(va, n), at, r)
      ensures forall f | 0 <= f < |mem| && f !in own :: mem[f] == old(mem)[f]
    {
      hide Tree, Ordinary, SameOutside, SamePages, Table, Window, Walk, PageNo, HasTable, PtrToPte, PtrToPde, PtrToPdpte, PtrToPml4e,
        LeafEnd, LeafSpan;
      PtrLevels(va);
      PtrLevels((va + n * 4096) % TOP);
      EndPage(va, n);
      LeavesOrdinary(va, n);
      r, freed, at := UnmapRange(PtrToPte(va), PtrToPte((va + n * 4096) % TOP), PageNo(va), LeafEnd(va, n));
    }

    method UnmapRange(first: nat, last: nat, ghost v: nat, ghost e: nat) returns (r: Outcome, freed: seq<nat>, ghost at: nat)
      requires Valid() && first == Ptr(0, v) && last == Ptr(0, e) && forall u | v <= u < e :: Ordinary(0, u)
      modifies `mem
      ensures Valid() && SamePages(old(mem), mem, root, v, e) && |mem| == |old(mem)|
      ensures r == Done <==> AllMapped(old(mem), root, v, e)
      ensures r == Done ==> NoneMapped(mem, root, v, e) && Held(old(mem), root, v, e, freed)
      ensures r != Done ==> UnmapStops(old(mem), root, v, e, at, r)
      ensures forall f | 0 <= f < |mem| && f !in own :: mem[f] == old(mem)[f]
    {
      hide Tree, Ordinary, SameOutside, SamePages, Table, Window, Walk, HasTable;
      at := v;
      var p := first;
      SamePagesRefl(mem, root, v, v);
      freed := [];
      while p < last
        invariant v <= at && (at == v || at <= e) && p == Ptr(0, at)
        invariant Valid() && SamePages(old(mem), mem, root, v, at) && |mem| == |old(mem)|
        invariant NoneMapped(mem, root, v, at) && Held(old(mem), root, v, at, freed)
        invariant forall f | 0 <= f < |mem| && f !in own :: mem[f] == old(mem)[f]
        decreases e - at
      {
        ghost var m1 := mem;
        PageNow(old(mem), mem, root, v, at);
        OrdinaryPage(at);
        NoTableNoPage(mem, root, at);
        var bad := Faults(p, at);
        if bad {
          SamePagesMore(old(mem), mem, root, v, at, e);
          r := Fault;
          return;
        }
        var entry := FetchEntry(p, 0, at);
        if !entry.present {
          SamePagesMore(old(mem), mem, root, v, at, e);
          r := Panic;
          return;
        }
        StoreLeaf(mem, root, own, at, ZERO);
        freed := freed + [entry.frame];
        WriteEntry(p, ZERO, 0, at);
        SamePagesStep(old(mem), m1, mem, root, v, at);
        GoneStep(m1, mem, root, v, at);
        p := p + 8;
        at := at + 1;
      }
      r := Done;
      UnmapDone(old(mem), mem, root, v, at, e);
    }

    /** Mapping a range and unmapping it again restores every translation and gives back the mapped frames, and the
        unmapping always returns. */
    method MapThenUnmap(va: nat, pa: nat, n: nat, flags: nat) returns (r: Outcome, freed: seq<nat>)
      requires Valid() && MapSpan(va, n)
      modifies `mem, `pool, `own
      ensures Valid() && (r == Done <==> Mappable(old(mem), root, |old(pool)|, va, n))
      ensures r == Done ==> forall u: nat | Ordinary(0, u) :: Walk(mem, root, u) == Walk(old(mem), root, u)
      ensures r == Done ==> forall i | 0 <= i < |freed| :: freed[i] == pa / 4096 + i
    {
      hide Tree, Supply, Ordinary, Walk, PageNo, Table, TableSpan, LeafEnd, Mappable, WholeRange, Refused;
      ghost var at: nat;
      r, at := MapPages(va, pa, n, flags);
      freed := [];
      if r == Done {
        ghost var m1, v := mem, PageNo(va);
        r, freed, at := UnmapPages(va, n);
        assert r == Done;
        forall i | 0 <= i < |freed| ensures freed[i] == pa / 4096 + i {
          ghost var u := v + i;
          assert Walk(m1, root, u) == Some(pa / 4096 + (u - v));
        }
        BackAgain(old(mem), m1, mem, root, va, n, |old(pool)|);
      }
    }
  }
}
