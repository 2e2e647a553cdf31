/** Ranges of pages and the tables they need, for the loops of kernel/src/mm/ptm.c. */
module PageRange {
  import opened Base
  import opened Bits
  import opened PagingAddr
  import opened PageWalk

  /** The virtual address of the entry of `(k, q)`. */
  function Ptr(k: nat, q: nat): nat
    requires k <= 3
  {
    PTE_BASE + 8 * (Window(k) + q)
  }

  /** The four pointer maps give the entries of the four levels. */
  lemma PtrLevels(va: nat)
    ensures PageNo(va) < PAGES
    ensures PtrToPte(va) == Ptr(0, PageNo(va)) && PtrToPde(va) == Ptr(1, PageNo(va) / 512)
    ensures PtrToPdpte(va) == Ptr(2, PageNo(va) / 0x4_0000) && PtrToPml4e(va) == Ptr(3, PageNo(va) / 0x800_0000)
  {
    hide PtrToPte, PtrToPde, PtrToPdpte, PtrToPml4e, PageNo;
    PtrForms(va);
    FieldOf(va);
  }

  lemma ModMod(y: nat, a: nat, b: nat, ab: nat)
    requires a > 0 && b > 0 && ab == a * b
    ensures y % ab % a == y % a
  {
    var h, z := y / ab, y % ab;
    Split(y, ab);
    Split(z, a);
    Regroup(a, b, h, z / a);
    ModAdd(a, b * h + z / a, z % a);
  }

  lemma ModSum(x: nat, n: nat, m: nat)
    requires m > 0
    ensures (x % m + n) % m == (x + n) % m
  {
    var z := x % m + n;
    Split(x, m);
    Split(z, m);
    assert m * (x / m + z / m) == m * (x / m) + m * (z / m);
    ModAdd(m, x / m + z / m, z % m);
  }

  /** Where the entry loop ends: `n` pages on, around the 36 bits of a page number. */
  function LeafEnd(va: nat, n: nat): nat { (PageNo(va) + n) % PAGES }

  lemma EndPage(va: nat, n: nat)
    ensures PageNo((va + n * 4096) % TOP) == LeafEnd(va, n)
  {
    var x, w := va + n * 4096, va / 4096;
    ModAdd(4096, w + n, va % 4096);
    DivDiv(x, 4096, 0x10_0000_0000_0000, TOP);
    ModMod(w + n, PAGES, 0x1_0000, 0x10_0000_0000_0000);
    ModSum(w, n, PAGES);
  }

  /** Where the table loops end: they compute the byte count in 32 bits. */
  function TableEnd(va: nat, n: nat): nat { (PageNo(va) + n % 0x10_0000) % PAGES }

  lemma ByteCount(n: nat)
    ensures n * 4096 % 0x1_0000_0000 == n % 0x10_0000 * 4096
  {
    var m := n % 0x10_0000;
    Split(n, 0x10_0000);
    ModAdd(0x1_0000_0000, n / 0x10_0000, m * 4096);
  }

  lemma TableEndPage(va: nat, n: nat)
    ensures PageNo((va + n * 4096 % 0x1_0000_0000) % TOP) == TableEnd(va, n)
  {
    hide PageNo;
    ByteCount(n);
    EndPage(va, n % 0x10_0000);
  }

  /** The entry of `(k, q)` is the word its pointer translates to. */
  lemma EntryAt(mem: seq<Frame>, root: nat, k: nat, q: nat)
    requires SelfMapped(mem, root) && k <= 3 && Prefix(k, q)
    ensures var p := Ptr(k, q);
      p < TOP && p % 8 == 0 && p % 4096 / 8 == q % 512
      && Walk(mem, root, PageNo(p)) == Table(mem, root, k + 1, q / 512)
  {
    hide SelfMapped, Walk, Table, Step;
    var x := Window(k) + q;
    EntryPage(mem, root, k, q);
    PlaceOf(x, Ptr(k, q));
    WalkIsTable(mem, root, Up(x));
  }

  /** The page a table pointer stands for is the table its entry leads to. */
  lemma TableAt(mem: seq<Frame>, root: nat, k: nat, q: nat)
    requires SelfMapped(mem, root) && k <= 3 && Prefix(k, q)
    ensures Walk(mem, root, PageNo(PteToPtr(Ptr(k, q)))) == Table(mem, root, k, q)
  {
    hide SelfMapped, Walk, Table, Step, PteToPtr, PageAddr, PageNo;
    var x := Window(k) + q;
    WindowTable(mem, root, k, q);
    BackOf(x, Ptr(k, q));
    PageOfAddr(x);
    WalkIsTable(mem, root, x);
  }

  lemma TreePrefix(mem: seq<Frame>, root: nat, own: map<nat, Node>, k: nat, q: nat)
    requires Tree(mem, root, own) && Reachable(mem, root, k, q)
    ensures k <= 3 && Prefix(k, q) && SelfMapped(mem, root)
  {
  }

  /** How many prefixes in `[lo, hi)` have no table yet. */
  function Missing(mem: seq<Frame>, root: nat, k: nat, lo: nat, hi: nat): nat
    requires k <= 4
    decreases hi
  {
    if hi <= lo then 0 else Missing(mem, root, k, lo, hi - 1) + (if Table(mem, root, k, hi - 1) == None then 1 else 0)
  }

  lemma {:induction false} MissingMono(mem: seq<Frame>, root: nat, k: nat, lo: nat, q: nat, hi: nat)
    requires k <= 4 && q <= hi
    ensures Missing(mem, root, k, lo, q) <= Missing(mem, root, k, lo, hi)
    decreases hi
  {
    if q < hi {
      MissingMono(mem, root, k, lo, q, hi - 1);
    }
  }

  lemma {:induction false} MissingSame(mem: seq<Frame>, mem2: seq<Frame>, root: nat, k: nat, lo: nat, hi: nat)
    requires k <= 4 && (forall q | lo <= q < hi :: Table(mem2, root, k, q) == Table(mem, root, k, q))
    ensures Missing(mem2, root, k, lo, hi) == Missing(mem, root, k, lo, hi)
    decreases hi
  {
    if lo < hi {
      MissingSame(mem, mem2, root, k, lo, hi - 1);
    }
  }

  /** Memory, table frames and frame supply after `used` fresh frames became tables; nothing but tables changed. */
  ghost predicate Grown(mem: seq<Frame>, own: map<nat, Node>, pool: seq<nat>,
                        mem2: seq<Frame>, own2: map<nat, Node>, pool2: seq<nat>, used: nat)
  {
    && used <= |pool| && pool2 == pool[used..]
    && |mem2| == |mem| && own.Keys <= own2.Keys
    && (forall f | f in own2 && f !in own :: f in pool[..used])
    && (forall f | 0 <= f < |mem| && f !in own2 :: mem2[f] == mem[f])
  }

  lemma GrownTrans(mem: seq<Frame>, own: map<nat, Node>, pool: seq<nat>, mem1: seq<Frame>, own1: map<nat, Node>,
                   pool1: seq<nat>, mem2: seq<Frame>, own2: map<nat, Node>, pool2: seq<nat>, a: nat, b: nat)
    requires Grown(mem, own, pool, mem1, own1, pool1, a) && Grown(mem1, own1, pool1, mem2, own2, pool2, b)
    ensures Grown(mem, own, pool, mem2, own2, pool2, a + b)
  {
    assert pool[a..][b..] == pool[a + b..];
    assert pool[..a + b] == pool[..a] + pool[a..][..b];
  }

  lemma GrownSize(mem: seq<Frame>, own: map<nat, Node>, pool: seq<nat>,
                  mem2: seq<Frame>, own2: map<nat, Node>, pool2: seq<nat>, used: nat)
    requires Grown(mem, own, pool, mem2, own2, pool2, used)
    ensures |pool2| == |pool| - used
  {
  }

  lemma GrownRefl(mem: seq<Frame>, own: map<nat, Node>, pool: seq<nat>)
    ensures Grown(mem, own, pool, mem, own, pool, 0)
  {
  }

  /** Every prefix in `[lo, hi)` has its table. */
  ghost predicate AllPresent(mem: seq<Frame>, root: nat, k: nat, lo: nat, hi: nat)
    requires k <= 4
  {
    forall q | lo <= q < hi :: Table(mem, root, k, q).Some?
  }

  ghost predicate AllReachable(mem: seq<Frame>, root: nat, k: nat, lo: nat, hi: nat)
  {
    forall q | lo <= q <= hi :: Reachable(mem, root, k, q)
  }

  lemma StillReachable(mem: seq<Frame>, mem1: seq<Frame>, root: nat, k: nat, lo: nat, hi: nat, q: nat)
    requires k <= 3 && AllReachable(mem, root, k, lo, hi) && SameOutside(mem, mem1, root, k, lo, q) && lo <= q <= hi
    ensures Reachable(mem1, root, k, q) && Table(mem1, root, k, q) == Table(mem, root, k, q)
  {
    hide Table, Ordinary;
    assert Reachable(mem, root, k, q);
    OrdinaryUp(k, q);
  }

  /** One turn of the loop: the prefixes handled so far, their tables and the count. */
  lemma RangeStep(mem: seq<Frame>, mem1: seq<Frame>, mem2: seq<Frame>, root: nat,
                  k: nat, lo: nat, hi: nat, q: nat, ok: bool)
    requires k <= 3 && lo <= q
    requires SameOutside(mem, mem1, root, k, lo, q) && SameOutside(mem1, mem2, root, k, q, q + 1)
    requires AllPresent(mem1, root, k, lo, q) && (ok ==> Table(mem2, root, k, q).Some?)
    requires q <= hi && AllReachable(mem, root, k, lo, hi)
    ensures SameOutside(mem, mem2, root, k, lo, q + 1)
    ensures ok ==> AllPresent(mem2, root, k, lo, q + 1)
    ensures Missing(mem, root, k, lo, q + 1)
      == Missing(mem, root, k, lo, q) + (if Table(mem, root, k, q) == None then 1 else 0)
  {
    hide Table, Ordinary;
    forall r | lo <= r <= q ensures Ordinary(k, r) {
      assert Reachable(mem, root, k, r);
    }
    SameOutsideStep(mem, mem1, mem2, root, k, lo, q);
  }

  lemma SameOutsideMore(mem: seq<Frame>, mem2: seq<Frame>, root: nat, k: nat, lo: nat, q: nat, hi: nat)
    requires SameOutside(mem, mem2, root, k, lo, q) && q <= hi
    ensures SameOutside(mem, mem2, root, k, lo, hi)
  {
    hide Table, Ordinary;
  }

  /** The frames the page-frame allocator hands out next: distinct, and none of them a table. */
  ghost predicate Supply(mem: seq<Frame>, own: map<nat, Node>, pool: seq<nat>)
  {
    NoDup(pool) && forall i | 0 <= i < |pool| :: pool[i] < |mem| && pool[i] !in own
  }

  // ----- a range of pages, level by level -----

  /** The prefix of level `k` that page `v` lies under. */
  function At(k: nat, v: nat): nat
    requires k <= 3
  {
    if k == 0 then v else if k == 1 then v / 512 else if k == 2 then v / 0x4_0000 else v / 0x800_0000
  }

  predicate OffWindow(v: nat, w: nat)
  {
    v <= w < PAGES && (w < REC * 0x800_0000 || (REC + 1) * 0x800_0000 <= v)
  }

  /** A table loop from page `v` to page `w` runs off the recursive entry, or not at all. */
  predicate Loop(v: nat, w: nat)
  {
    v < PAGES && w < PAGES && if v <= w then OffWindow(v, w) else At(3, w) < At(3, v)
  }

  /** The table loops for `n` pages at `va` keep off the recursive entry. */
  predicate TableSpan(va: nat, n: nat)
  {
    va < TOP && (PageNo(va) <= TableEnd(va, n) ==> OffWindow(PageNo(va), TableEnd(va, n)))
  }

  /** So do the table loops and the entry loop. */
  predicate MapSpan(va: nat, n: nat) { TableSpan(va, n) && LeafSpan(va, n) }

  predicate LeafSpan(va: nat, n: nat)
  {
    va < TOP && (PageNo(va) < LeafEnd(va, n) ==> OffWindow(PageNo(va), LeafEnd(va, n) - 1))
  }

  lemma LoopOf(va: nat, n: nat)
    requires TableSpan(va, n)
    ensures Loop(PageNo(va), TableEnd(va, n))
  {
    hide PageNo;
    FieldOf(va);
    var v, m := PageNo(va), n % 0x10_0000;
    if v + m >= PAGES {
      assert (v + m) % PAGES == v + m - PAGES;
    }
  }

  lemma LoopBack(k: nat, v: nat, w: nat)
    requires 1 <= k <= 3 && At(3, w) < At(3, v)
    ensures At(k, w) < At(k, v)
  {
    if k == 1 {
      DivDiv(v, 512, 0x4_0000, 0x800_0000);
      DivDiv(w, 512, 0x4_0000, 0x800_0000);
    } else if k == 2 {
      DivDiv(v, 0x4_0000, 512, 0x800_0000);
      DivDiv(w, 0x4_0000, 512, 0x800_0000);
    }
  }

  /** Every page from `v` to `w` inclusive has its table of level `k`. */
  ghost predicate Covered(mem: seq<Frame>, root: nat, k: nat, v: nat, w: nat)
    requires k <= 3
  {
    AllPresent(mem, root, k, At(k, v), At(k, w) + 1)
  }

  lemma AtUp(k: nat, v: nat)
    requires k <= 2
    ensures At(k, v) / 512 == At(k + 1, v)
  {
    if k == 1 {
      DivDiv(v, 512, 512, 0x4_0000);
    } else if k == 2 {
      DivDiv(v, 0x4_0000, 512, 0x800_0000);
    }
  }

  lemma AtOrdinary(k: nat, v: nat, w: nat, q: nat)
    requires k <= 3 && OffWindow(v, w) && At(k, v) <= q <= At(k, w)
    ensures Ordinary(k, q)
  {
    if k == 1 {
      DivDiv(v, 512, 0x4_0000, 0x800_0000);
      DivDiv(w, 512, 0x4_0000, 0x800_0000);
    } else if k == 2 {
      DivDiv(v, 0x4_0000, 512, 0x800_0000);
      DivDiv(w, 0x4_0000, 512, 0x800_0000);
    }
  }

  lemma RangeReachable(mem: seq<Frame>, root: nat, k: nat, v: nat, w: nat)
    requires 1 <= k <= 3 && Loop(v, w) && (k < 3 ==> Covered(mem, root, k + 1, v, w))
    ensures AllReachable(mem, root, k, At(k, v), At(k, w))
  {
    hide OffWindow, Ordinary;
    if v > w {
      LoopBack(k, v, w);
    }
    forall q | At(k, v) <= q <= At(k, w) ensures Reachable(mem, root, k, q) {
      AtOrdinary(k, v, w, q);
      if k < 3 {
        AtUp(k, v);
        AtUp(k, w);
        assert At(k + 1, v) <= q / 512 <= At(k + 1, w);
      }
    }
  }

  /** What the three table loops promise: the missing tables of the level, no more, each from one fresh frame. */
  ghost predicate Alloced(mem: seq<Frame>, own: map<nat, Node>, pool: seq<nat>, mem2: seq<Frame>, own2: map<nat, Node>,
                          pool2: seq<nat>, root: nat, k: nat, v: nat, w: nat, ok: bool, used: nat)
  {
    && k <= 3 && SameOutside(mem, mem2, root, k, At(k, v), At(k, w) + 1)
    && (ok <==> NeededAt(mem, root, k, v, w) <= |pool|)
    && (ok ==> Covered(mem2, root, k, v, w) && used == NeededAt(mem, root, k, v, w))
    && Grown(mem, own, pool, mem2, own2, pool2, used)
  }

  /** The tables of all levels that the range from `v` to `w` still lacks. */
  function Needed(mem: seq<Frame>, root: nat, v: nat, w: nat): nat
  {
    NeededAt(mem, root, 3, v, w) + NeededAt(mem, root, 2, v, w) + NeededAt(mem, root, 1, v, w)
  }

  function NeededAt(mem: seq<Frame>, root: nat, k: nat, v: nat, w: nat): nat
    requires k <= 3
  {
    Missing(mem, root, k, At(k, v), At(k, w) + 1)
  }

  ghost predicate SameLeaves(mem: seq<Frame>, mem2: seq<Frame>, root: nat)
  {
    forall u: nat | Ordinary(0, u) :: Table(mem2, root, 0, u) == Table(mem, root, 0, u)
  }

  /** Allocating tables of level `k` moves no page and leaves the other levels alone. */
  lemma CountAfter(mem: seq<Frame>, mem2: seq<Frame>, root: nat, k: nat, v: nat, w: nat)
    requires 1 <= k <= 3 && Loop(v, w) && SameOutside(mem, mem2, root, k, At(k, v), At(k, w) + 1)
    ensures SameLeaves(mem, mem2, root)
    ensures forall j {:trigger NeededAt(mem2, root, j, v, w)} | 1 <= j <= 3 && j != k
      :: NeededAt(mem2, root, j, v, w) == NeededAt(mem, root, j, v, w)
  {
    hide Table, Ordinary, OffWindow;
    forall j | 1 <= j <= 3 && j != k ensures NeededAt(mem2, root, j, v, w) == NeededAt(mem, root, j, v, w) {
      if v > w {
        LoopBack(j, v, w);
      }
      forall q | At(j, v) <= q < At(j, w) + 1 ensures Table(mem2, root, j, q) == Table(mem, root, j, q) {
        AtOrdinary(j, v, w, q);
      }
      MissingSame(mem, mem2, root, j, At(j, v), At(j, w) + 1);
    }
  }

  /** The tables of level `k` are where they were. */
  ghost predicate SameLevel(mem: seq<Frame>, mem2: seq<Frame>, root: nat, k: nat)
  {
    1 <= k <= 3 && forall q: nat | Ordinary(k, q) :: Table(mem2, root, k, q) == Table(mem, root, k, q)
  }

  /** Which prefixes of level `k` have a table after the table loops: those of the loops' range, and those that had one. */
  ghost predicate Tabled(mem: seq<Frame>, mem2: seq<Frame>, root: nat, k: nat, v: nat, w: nat)
  {
    1 <= k <= 3 && forall q: nat | Ordinary(k, q)
      :: Table(mem2, root, k, q).Some? <==> At(k, v) <= q <= At(k, w) || Table(mem, root, k, q).Some?
  }

  ghost predicate AllTabled(mem: seq<Frame>, mem2: seq<Frame>, root: nat, v: nat, w: nat)
  {
    Tabled(mem, mem2, root, 1, v, w) && Tabled(mem, mem2, root, 2, v, w) && Tabled(mem, mem2, root, 3, v, w)
  }

  lemma LevelsAfter(mem: seq<Frame>, mem2: seq<Frame>, root: nat, k: nat, v: nat, w: nat, j: nat)
    requires 1 <= k <= 3 && 1 <= j <= 3 && j != k && SameOutside(mem, mem2, root, k, At(k, v), At(k, w) + 1)
    ensures SameLevel(mem, mem2, root, j)
  {
    hide Table, Ordinary;
  }

  /** A loop over level `k`, with other levels' loops before and after it. */
  lemma TabledBy(mem: seq<Frame>, mem1: seq<Frame>, mem2: seq<Frame>, root: nat, k: nat, v: nat, w: nat)
    requires 1 <= k <= 3 && SameLevel(mem, mem1, root, k) && SameOutside(mem1, mem2, root, k, At(k, v), At(k, w) + 1)
    requires Covered(mem2, root, k, v, w)
    ensures Tabled(mem, mem2, root, k, v, w)
  {
    hide Table, Ordinary;
  }

  lemma TabledThen(mem: seq<Frame>, mem1: seq<Frame>, mem2: seq<Frame>, root: nat, k: nat, v: nat, w: nat)
    requires Tabled(mem, mem1, root, k, v, w) && SameLevel(mem1, mem2, root, k)
    ensures Tabled(mem, mem2, root, k, v, w)
  {
    hide Table, Ordinary;
  }

  lemma LevelTrans(mem: seq<Frame>, mem1: seq<Frame>, mem2: seq<Frame>, root: nat, k: nat)
    requires SameLevel(mem, mem1, root, k) && SameLevel(mem1, mem2, root, k)
    ensures SameLevel(mem, mem2, root, k)
  {
    hide Table, Ordinary;
  }

  lemma LevelsDone(m0: seq<Frame>, m1: seq<Frame>, m2: seq<Frame>, m3: seq<Frame>, root: nat, v: nat, w: nat)
    requires SameOutside(m0, m1, root, 3, At(3, v), At(3, w) + 1) && Covered(m1, root, 3, v, w)
    requires SameOutside(m1, m2, root, 2, At(2, v), At(2, w) + 1) && Covered(m2, root, 2, v, w)
    requires SameOutside(m2, m3, root, 1, At(1, v), At(1, w) + 1) && Covered(m3, root, 1, v, w)
    ensures AllTabled(m0, m3, root, v, w)
  {
    hide Table, Ordinary, SameOutside, Covered, SameLevel, Tabled, At;
    LevelRefl(m0, root, 3);
    TabledBy(m0, m0, m1, root, 3, v, w);
    LevelsAfter(m1, m2, root, 2, v, w, 3);
    LevelsAfter(m2, m3, root, 1, v, w, 3);
    TabledThen(m0, m1, m2, root, 3, v, w);
    TabledThen(m0, m2, m3, root, 3, v, w);
    LevelsAfter(m0, m1, root, 3, v, w, 2);
    TabledBy(m0, m1, m2, root, 2, v, w);
    LevelsAfter(m2, m3, root, 1, v, w, 2);
    TabledThen(m0, m2, m3, root, 2, v, w);
    LevelsAfter(m0, m1, root, 3, v, w, 1);
    LevelsAfter(m1, m2, root, 2, v, w, 1);
    LevelTrans(m0, m1, m2, root, 1);
    TabledBy(m0, m2, m3, root, 1, v, w);
  }

  lemma LevelRefl(mem: seq<Frame>, root: nat, k: nat)
    requires 1 <= k <= 3
    ensures SameLevel(mem, mem, root, k)
  {
  }

  /** The frames that became tables came from the supply, and no other frame changed. */
  ghost predicate Supplied(mem: seq<Frame>, own: map<nat, Node>, pool: seq<nat>,
                           mem2: seq<Frame>, own2: map<nat, Node>, pool2: seq<nat>)
  {
    && |mem2| == |mem| && |pool2| <= |pool| && pool2 == pool[|pool| - |pool2|..]
    && own2.Keys >= own.Keys && (forall f | f in own2 && f !in own :: f in pool)
    && (forall f | 0 <= f < |mem2| && f !in own2 :: mem2[f] == mem[f])
  }

  lemma GrownFacts(mem: seq<Frame>, own: map<nat, Node>, pool: seq<nat>,
                   mem2: seq<Frame>, own2: map<nat, Node>, pool2: seq<nat>, used: nat)
    requires Grown(mem, own, pool, mem2, own2, pool2, used)
    ensures Supplied(mem, own, pool, mem2, own2, pool2)
  {
  }

  // ----- the entry loops -----

  /** How a call ends: it returns, it panics, or the processor faults on a missing page table. */
  datatype Outcome = Done | Panic | Fault

  ghost predicate HasTable(mem: seq<Frame>, root: nat, u: nat) { Table(mem, root, 1, u / 512).Some? }

  /** The entry loop can fill the entry of page `u`. */
  ghost predicate Vacant(mem: seq<Frame>, root: nat, u: nat) { HasTable(mem, root, u) && Walk(mem, root, u) == None }

  ghost predicate AllVacant(mem: seq<Frame>, root: nat, v: nat, e: nat) { forall u | v <= u < e :: Vacant(mem, root, u) }

  /** The mapping loop over `[v, e)` stops at page `u`, on a missing table or on a page that is mapped. */
  ghost predicate MapStops(mem: seq<Frame>, root: nat, v: nat, e: nat, u: nat, r: Outcome)
  {
    && v <= u < e && AllVacant(mem, root, v, u)
    && if r == Fault then !HasTable(mem, root, u) else r == Panic && HasTable(mem, root, u) && Walk(mem, root, u).Some?
  }

  ghost predicate AllMapped(mem: seq<Frame>, root: nat, v: nat, e: nat) { forall u | v <= u < e :: Walk(mem, root, u).Some? }

  /** The unmapping loop over `[v, e)` stops at page `u`, which is not mapped. */
  ghost predicate UnmapStops(mem: seq<Frame>, root: nat, v: nat, e: nat, u: nat, r: Outcome)
  {
    && v <= u < e && AllMapped(mem, root, v, u) && Walk(mem, root, u) == None
    && if r == Fault then !HasTable(mem, root, u) else r == Panic && HasTable(mem, root, u)
  }

  /** The pages from `v` on are translated to consecutive frames. */
  ghost predicate Consecutive(mem: seq<Frame>, root: nat, v: nat, e: nat, pf: nat)
  {
    forall u | v <= u < e :: Walk(mem, root, u) == Some(pf + (u - v))
  }

  ghost predicate NoneMapped(mem: seq<Frame>, root: nat, v: nat, e: nat) { forall u | v <= u < e :: Walk(mem, root, u) == None }

  /** The frames the pages of `[v, e)` are translated to, in order. */
  ghost predicate Held(mem: seq<Frame>, root: nat, v: nat, e: nat, frames: seq<nat>)
  {
    |frames| == (if v <= e then e - v else 0) && forall u | v <= u < e :: Walk(mem, root, u) == Some(frames[u - v])
  }

  /** Every page outside `[v, e)` is translated as before, and no table came or went. */
  ghost predicate SamePages(mem: seq<Frame>, mem2: seq<Frame>, root: nat, v: nat, e: nat)
  {
    && (forall u: nat | Ordinary(0, u) && !(v <= u < e) :: Walk(mem2, root, u) == Walk(mem, root, u))
    && SameLevel(mem, mem2, root, 1) && SameLevel(mem, mem2, root, 2) && SameLevel(mem, mem2, root, 3)
  }

  lemma TabledStay(mem: seq<Frame>, mem1: seq<Frame>, mem2: seq<Frame>, root: nat, v: nat, e: nat, w: nat)
    requires AllTabled(mem, mem1, root, v, w) && SamePages(mem1, mem2, root, v, e)
    ensures AllTabled(mem, mem2, root, v, w)
  {
    hide Table, Ordinary, Walk, Tabled, SameLevel;
    TabledThen(mem, mem1, mem2, root, 1, v, w);
    TabledThen(mem, mem1, mem2, root, 2, v, w);
    TabledThen(mem, mem1, mem2, root, 3, v, w);
  }

  lemma SamePagesRefl(mem: seq<Frame>, root: nat, v: nat, e: nat)
    ensures SamePages(mem, mem, root, v, e)
  {
  }

  lemma SamePagesMore(mem: seq<Frame>, mem2: seq<Frame>, root: nat, v: nat, u: nat, e: nat)
    requires SamePages(mem, mem2, root, v, u) && u <= e
    ensures SamePages(mem, mem2, root, v, e)
  {
    hide Walk, Table, Ordinary;
  }

  /** One store in the entry of page `u`. */
  lemma SamePagesStep(mem: seq<Frame>, mem1: seq<Frame>, mem2: seq<Frame>, root: nat, v: nat, u: nat)
    requires SamePages(mem, mem1, root, v, u) && v <= u && SameOutside(mem1, mem2, root, 0, u, u + 1)
    ensures SamePages(mem, mem2, root, v, u + 1) && SamePages(mem1, mem2, root, u, u + 1)
  {
    hide Walk, Table;
    forall x: nat | Ordinary(0, x) && x != u ensures Walk(mem2, root, x) == Walk(mem1, root, x) {
      WalkIsTable(mem1, root, x);
      WalkIsTable(mem2, root, x);
    }
  }

  /** What the entry loops see at page `u` is what was there at the start. */
  lemma PageNow(mem: seq<Frame>, mem1: seq<Frame>, root: nat, v: nat, u: nat)
    requires SamePages(mem, mem1, root, v, u) && Ordinary(0, u)
    ensures Walk(mem1, root, u) == Walk(mem, root, u) && (HasTable(mem1, root, u) <==> HasTable(mem, root, u))
    ensures Walk(mem1, root, u) == Table(mem1, root, 0, u) && (HasTable(mem1, root, u) ==> Reachable(mem1, root, 0, u))
  {
    hide Walk, Table;
    OrdinaryUp(0, u);
    WalkIsTable(mem1, root, u) by { OrdinaryPage(u); }
  }

  lemma OrdinaryPage(u: nat)
    requires Ordinary(0, u)
    ensures u < PAGES
  {
  }

  lemma MappedStep(mem: seq<Frame>, mem2: seq<Frame>, root: nat, v: nat, u: nat, pf: nat)
    requires v <= u && (forall x | v <= x <= u :: Ordinary(0, x)) && SamePages(mem, mem2, root, u, u + 1)
    requires Consecutive(mem, root, v, u, pf) && Table(mem2, root, 0, u) == Some(pf + (u - v))
    ensures Consecutive(mem2, root, v, u + 1, pf)
  {
    hide Walk, Table, Ordinary;
    WalkIsTable(mem2, root, u) by { OrdinaryPage(u); }
  }

  lemma GoneStep(mem: seq<Frame>, mem2: seq<Frame>, root: nat, v: nat, u: nat)
    requires v <= u && (forall x | v <= x <= u :: Ordinary(0, x)) && SamePages(mem, mem2, root, u, u + 1)
    requires NoneMapped(mem, root, v, u) && Table(mem2, root, 0, u) == None
    ensures NoneMapped(mem2, root, v, u + 1)
  {
    hide Walk, Table, Ordinary;
    WalkIsTable(mem2, root, u) by { OrdinaryPage(u); }
  }

  lemma LeavesOrdinary(va: nat, n: nat)
    requires LeafSpan(va, n)
    ensures forall u | PageNo(va) <= u < LeafEnd(va, n) :: Ordinary(0, u)
  {
    hide PageNo, Ordinary;
    forall u | PageNo(va) <= u < LeafEnd(va, n) ensures Ordinary(0, u) {
      AtOrdinary(0, PageNo(va), LeafEnd(va, n) - 1, u);
    }
  }

  /** A page of the mapping can be filled once the table loops are through. */
  ghost predicate Fillable(mem: seq<Frame>, root: nat, v: nat, w: nat, u: nat)
  {
    Walk(mem, root, u) == None && (HasTable(mem, root, u) || At(1, v) <= At(1, u) <= At(1, w))
  }

  /** The table loops change which pages are vacant only by the tables they add. */
  lemma VacantAfter(mem: seq<Frame>, mem1: seq<Frame>, root: nat, v: nat, w: nat, e: nat)
    requires SameLeaves(mem, mem1, root) && Tabled(mem, mem1, root, 1, v, w) && forall u | v <= u < e :: Ordinary(0, u)
    ensures forall u | v <= u < e :: Walk(mem1, root, u) == Walk(mem, root, u)
    ensures forall u | v <= u < e :: Vacant(mem1, root, u) <==> Fillable(mem, root, v, w, u)
    ensures forall u | v <= u < e :: HasTable(mem1, root, u) <==> HasTable(mem, root, u) || At(1, v) <= At(1, u) <= At(1, w)
  {
    hide Walk, Table, Ordinary;
    forall u | v <= u < e
      ensures Walk(mem1, root, u) == Walk(mem, root, u)
      ensures HasTable(mem1, root, u) <==> HasTable(mem, root, u) || At(1, v) <= At(1, u) <= At(1, w)
    {
      OrdinaryPage(u);
      WalkIsTable(mem, root, u);
      WalkIsTable(mem1, root, u);
      OrdinaryUp(0, u);
    }
  }

  lemma PagesAfter(mem: seq<Frame>, mem1: seq<Frame>, mem2: seq<Frame>, root: nat, v: nat, e: nat)
    requires SameLeaves(mem, mem1, root) && SamePages(mem1, mem2, root, v, e)
    ensures forall u: nat | Ordinary(0, u) && !(v <= u < e) :: Walk(mem2, root, u) == Walk(mem, root, u)
  {
    hide Walk, Table, Ordinary;
    forall u: nat | Ordinary(0, u) ensures Walk(mem1, root, u) == Walk(mem, root, u) {
      OrdinaryPage(u);
      WalkIsTable(mem, root, u);
      WalkIsTable(mem1, root, u);
    }
  }

  /** All `n` pages asked for were free and are now mapped. */
  ghost predicate WholeRange(mem: seq<Frame>, mem2: seq<Frame>, root: nat, v: nat, n: nat, pf: nat)
  {
    && v + n <= PAGES && (forall u | v <= u < v + n :: Walk(mem, root, u) == None)
    && (forall u | v <= u < v + n :: Walk(mem2, root, u) == Some(pf + (u - v)))
  }

  /** The call returns: the frames last for the missing tables, and the entry loop can fill every entry. */
  ghost predicate Mappable(mem: seq<Frame>, root: nat, frames: nat, va: nat, n: nat)
  {
    && Needed(mem, root, PageNo(va), TableEnd(va, n)) <= frames
    && forall u | PageNo(va) <= u < LeafEnd(va, n) :: Fillable(mem, root, PageNo(va), TableEnd(va, n), u)
  }

  /** Why it does not: frames run out, or page `at` is the first that cannot be filled. */
  ghost predicate Refused(mem: seq<Frame>, root: nat, frames: nat, va: nat, n: nat, at: nat, r: Outcome)
  {
    var v, w, e := PageNo(va), TableEnd(va, n), LeafEnd(va, n);
    if Needed(mem, root, v, w) > frames then r == Panic
    else
      && v <= at < e && (forall u | v <= u < at :: Fillable(mem, root, v, w, u))
      && (r == Fault <==> !HasTable(mem, root, at) && !(At(1, v) <= At(1, at) <= At(1, w)))
      && (r == Panic <==> Walk(mem, root, at).Some?)
  }

  lemma NoTableNoPage(mem: seq<Frame>, root: nat, u: nat)
    requires u < PAGES
    ensures !HasTable(mem, root, u) ==> Walk(mem, root, u) == None
  {
    hide Walk, Step;
    WalkIsTable(mem, root, u);
    NoneStep(mem, u % 512);
  }

  lemma RangeEnd(mem: seq<Frame>, mem2: seq<Frame>, root: nat, k: nat, lo: nat, hi: nat, q: nat)
    requires k <= 3 && lo <= q && (q == lo || q <= hi + 1) && q > hi
    requires SameOutside(mem, mem2, root, k, lo, q) && AllPresent(mem2, root, k, lo, q)
    ensures SameOutside(mem, mem2, root, k, lo, hi + 1) && AllPresent(mem2, root, k, lo, hi + 1)
    ensures Missing(mem, root, k, lo, hi + 1) == Missing(mem, root, k, lo, q)
  {
    hide Table, Ordinary;
  }

  lemma LeavesTrans(mem: seq<Frame>, mem1: seq<Frame>, mem2: seq<Frame>, root: nat)
    requires SameLeaves(mem, mem1, root) && SameLeaves(mem1, mem2, root)
    ensures SameLeaves(mem, mem2, root)
  {
    hide Table, Ordinary;
  }

  lemma RangeDone(mem: seq<Frame>, mem2: seq<Frame>, root: nat, v: nat, u: nat, e: nat, pf: nat)
    requires v <= u && (u == v || u <= e) && u >= e && SamePages(mem, mem2, root, v, u)
    requires AllVacant(mem, root, v, u) && Consecutive(mem2, root, v, u, pf)
    ensures SamePages(mem, mem2, root, v, e) && AllVacant(mem, root, v, e) && Consecutive(mem2, root, v, e, pf)
  {
    hide Walk, Table, Ordinary, Vacant;
  }

  lemma UnmapDone(mem: seq<Frame>, mem2: seq<Frame>, root: nat, v: nat, u: nat, e: nat)
    requires v <= u && (u == v || u <= e) && u >= e && SamePages(mem, mem2, root, v, u)
    requires NoneMapped(mem2, root, v, u)
    ensures SamePages(mem, mem2, root, v, e) && NoneMapped(mem2, root, v, e)
  {
    hide Walk, Table, Ordinary;
  }

  /** The outcome of a mapping whose tables are all there. */
  lemma MapResult(mem: seq<Frame>, mem1: seq<Frame>, mem2: seq<Frame>, root: nat, frames: nat, va: nat, n: nat,
                  pf: nat, at: nat, r: Outcome)
    requires SameLeaves(mem, mem1, root) && Tabled(mem, mem1, root, 1, PageNo(va), TableEnd(va, n))
    requires Needed(mem, root, PageNo(va), TableEnd(va, n)) <= frames && MapSpan(va, n)
    requires r == Done <==> AllVacant(mem1, root, PageNo(va), LeafEnd(va, n))
    requires r == Done ==> Consecutive(mem2, root, PageNo(va), LeafEnd(va, n), pf)
    requires r != Done ==> MapStops(mem1, root, PageNo(va), LeafEnd(va, n), at, r)
    requires SamePages(mem1, mem2, root, PageNo(va), LeafEnd(va, n))
    ensures r == Done <==> Mappable(mem, root, frames, va, n)
    ensures r != Done ==> Refused(mem, root, frames, va, n, at, r)
    ensures r == Done && WholeRange(mem, mem2, root, PageNo(va), n, pf)
      <==> Mappable(mem, root, frames, va, n) && (n == 0 || PageNo(va) + n < PAGES)
  {
    hide Walk, Table, Ordinary, PageNo, Needed, Tabled, SameLeaves, LeafSpan, TableSpan, TableEnd, LeafEnd, HasTable, At, SamePages,
      Fillable, WholeRange, Consecutive;
    var v, w, e := PageNo(va), TableEnd(va, n), LeafEnd(va, n);
    LeavesOrdinary(va, n);
    StartOrdinary(va, n);
    VacantAfter(mem, mem1, root, v, w, e);
    assert r == Done <==> Mappable(mem, root, frames, va, n);
    if r == Done {
      forall u | v <= u < e ensures Walk(mem, root, u) == None {
        assert Vacant(mem1, root, u);
      }
      WholeMeans(mem, mem1, mem2, root, va, n, pf);
    } else {
      OrdinaryPage(at);
      NoTableNoPage(mem1, root, at);
      assert forall u | v <= u < at :: Vacant(mem1, root, u);
    }
  }

  lemma WholeMeans(mem: seq<Frame>, mem1: seq<Frame>, mem2: seq<Frame>, root: nat, va: nat, n: nat, pf: nat)
    requires SameLeaves(mem, mem1, root) && SamePages(mem1, mem2, root, PageNo(va), LeafEnd(va, n))
    requires Consecutive(mem2, root, PageNo(va), LeafEnd(va, n), pf)
    requires forall u | PageNo(va) <= u < LeafEnd(va, n) :: Walk(mem, root, u) == None
    requires Ordinary(0, PageNo(va))
    ensures WholeRange(mem, mem2, root, PageNo(va), n, pf) <==> n == 0 || PageNo(va) + n < PAGES
  {
    hide Walk, Table, Ordinary, PageNo;
    FieldOf(va);
    var v := PageNo(va);
    if v + n == PAGES && n > 0 {
      assert LeafEnd(va, n) == 0;
      PagesAfter(mem, mem1, mem2, root, v, 0);
      assert Walk(mem2, root, v) == Walk(mem, root, v);
    }
  }

  lemma StartOrdinary(va: nat, n: nat)
    requires TableSpan(va, n)
    ensures Ordinary(0, PageNo(va))
  {
    hide PageNo;
    LoopOf(va, n);
    var v, m := PageNo(va), n % 0x10_0000;
    if v <= TableEnd(va, n) {
      AtOrdinary(0, v, TableEnd(va, n), v);
    } else {
      assert v + m >= PAGES;
    }
  }

  lemma NoFrames(mem: seq<Frame>, mem2: seq<Frame>, root: nat, frames: nat, va: nat, n: nat, pf: nat, at: nat)
    requires Needed(mem, root, PageNo(va), TableEnd(va, n)) > frames
    ensures !Mappable(mem, root, frames, va, n) && Refused(mem, root, frames, va, n, at, Panic)
  {
  }

  lemma BackAgain(mem: seq<Frame>, mem1: seq<Frame>, mem2: seq<Frame>, root: nat, va: nat, n: nat, frames: nat)
    requires Mappable(mem, root, frames, va, n) && NoneMapped(mem2, root, PageNo(va), LeafEnd(va, n))
    requires forall u: nat | Ordinary(0, u) && !(PageNo(va) <= u < LeafEnd(va, n)) :: Walk(mem1, root, u) == Walk(mem, root, u)
    requires SamePages(mem1, mem2, root, PageNo(va), LeafEnd(va, n))
    ensures forall u: nat | Ordinary(0, u) :: Walk(mem2, root, u) == Walk(mem, root, u)
  {
    hide Walk, Table, Ordinary, PageNo, LeafEnd, Needed;
    forall u: nat | Ordinary(0, u) ensures Walk(mem2, root, u) == Walk(mem, root, u) {
      if PageNo(va) <= u < LeafEnd(va, n) {
        assert Fillable(mem, root, PageNo(va), TableEnd(va, n), u);
      }
    }
  }

  /** A mapping that ends with the last page: the entry loop does not run, nor do short table loops. */
  lemma LastPage(mem: seq<Frame>, root: nat, frames: nat, va: nat, n: nat)
    requires TableSpan(va, n)
    ensures PageNo(va) + n == PAGES
      ==> LeafEnd(va, n) == 0 && (n < 0x10_0000 ==> Mappable(mem, root, frames, va, n))
  {
    hide PageNo, Table;
    var v := PageNo(va);
    if v + n == PAGES && n < 0x10_0000 {
      FieldOf(va);
      LoopOf(va, n);
      LoopBack(1, v, 0);
      LoopBack(2, v, 0);
      NothingMissing(mem, root, v, 0);
    }
  }

  lemma NothingMissing(mem: seq<Frame>, root: nat, v: nat, w: nat)
    requires forall k | 1 <= k <= 3 :: At(k, w) < At(k, v)
    ensures Needed(mem, root, v, w) == 0
  {
    assert At(1, w) < At(1, v) && At(2, w) < At(2, v) && At(3, w) < At(3, v);
  }

  /** Below 2^20 pages and below the last page the table loops cover the entry loop: the call cannot fault, and it returns
      exactly if every page is unmapped and the frames last. */
  lemma ShortRange(mem: seq<Frame>, root: nat, frames: nat, va: nat, n: nat)
    requires n < 0x10_0000 && PageNo(va) + n < PAGES
    ensures TableEnd(va, n) == LeafEnd(va, n) == PageNo(va) + n
    ensures Mappable(mem, root, frames, va, n)
      <==> (Needed(mem, root, PageNo(va), PageNo(va) + n) <= frames && NoneMapped(mem, root, PageNo(va), PageNo(va) + n))
    ensures forall at :: !Refused(mem, root, frames, va, n, at, Fault)
  {
    hide PageNo, Walk, Table, Needed, HasTable;
    var v := PageNo(va);
    forall u | v <= u <= v + n ensures At(1, v) <= At(1, u) <= At(1, v + n) {
    }
    forall u | v <= u < v + n ensures Fillable(mem, root, v, v + n, u) <==> Walk(mem, root, u) == None {
      assert At(1, v) <= At(1, u) <= At(1, v + n);
    }
  }

  lemma BootEnd(va: nat, n: nat)
    requires n == 0x800_0000 || n == 0x1000_0000
    ensures TableEnd(va, n) == PageNo(va)
  {
    hide PageNo;
    FieldOf(va);
  }

  /** From 2^20 pages on the table loops fall short. The two ranges the kernel prepares at start-up, of 2^27 and 2^28 pages,
      get one level-2 table at most, that of their first page, in place of 2^9 and 2^10. */
  lemma BootRanges(mem: seq<Frame>, own: map<nat, Node>, pool: seq<nat>, mem2: seq<Frame>, own2: map<nat, Node>, pool2: seq<nat>,
                   root: nat, va: nat, n: nat, ok: bool, used: nat)
    requires n == 0x800_0000 || n == 0x1000_0000
    requires Alloced(mem, own, pool, mem2, own2, pool2, root, 2, PageNo(va), TableEnd(va, n), ok, used)
    ensures forall q: nat | Ordinary(2, q) && q != At(2, PageNo(va)) :: Table(mem2, root, 2, q) == Table(mem, root, 2, q)
    ensures ok ==> used <= 1
  {
    hide PageNo, Grown, Covered, TableEnd, Table, Ordinary, At;
    BootEnd(va, n);
    var p := At(2, PageNo(va));
    assert NeededAt(mem, root, 2, PageNo(va), PageNo(va)) == Missing(mem, root, 2, p, p + 1) <= 1 + Missing(mem, root, 2, p, p);
  }

  /** A long range over an address space without tables behind its first 2^20 pages does fault. */
  lemma LongRangeFaults(mem: seq<Frame>, root: nat, frames: nat, va: nat, n: nat, u: nat)
    requires PageNo(va) + n < PAGES && PageNo(va) <= u < PageNo(va) + n && !HasTable(mem, root, u)
    requires PageNo(va) + n % 0x10_0000 < PAGES && u / 512 > (PageNo(va) + n % 0x10_0000) / 512
    ensures !Mappable(mem, root, frames, va, n)
  {
    hide PageNo, Walk, Table, Needed, HasTable;
    assert !Fillable(mem, root, PageNo(va), TableEnd(va, n), u);
  }

  // ----- a new address space -----

  /** Frame `dir`, so far no table, holds the upper half of the kernel's root and nothing else. */
  ghost predicate ChildOf(mem: seq<Frame>, kroot: nat, kown: map<nat, Node>, dir: nat)
  {
    && Tree(mem, kroot, kown) && dir < |mem| && dir !in kown
    && forall i | 0 <= i < 512 :: mem[dir][i] == if i < 256 then ZERO else mem[kroot][i]
  }

  /** The tables of the new address space: its own root, and the kernel's tables below the kernel's root. */
  ghost function ChildOwn(kroot: nat, kown: map<nat, Node>, dir: nat): map<nat, Node>
  {
    (map f | f in kown && f != kroot :: kown[f])[dir := Node(4, 0)]
  }

  lemma ChildTree(mem: seq<Frame>, kroot: nat, kown: map<nat, Node>, dir: nat)
    requires ChildOf(mem, kroot, kown, dir)
    ensures Tree(SetWord(mem, dir, REC, Word(true, dir, 0)), dir, ChildOwn(kroot, kown, dir))
  {
    hide Child;
    var mem2, own := SetWord(mem, dir, REC, Word(true, dir, 0)), ChildOwn(kroot, kown, dir);
    forall f, i | f in own && 0 <= i < 512 ensures Child(mem2, dir, own, f, i) {
      if f == dir {
        assert Child(mem, kroot, kown, kroot, i);
        RootChild(mem, mem2, kroot, kown, dir, own, i);
      } else {
        assert Child(mem, kroot, kown, f, i);
        LowerChild(mem, mem2, kroot, kown, dir, own, f, i);
      }
    }
  }

  lemma RootChild(mem: seq<Frame>, mem2: seq<Frame>, kroot: nat, kown: map<nat, Node>, dir: nat, own: map<nat, Node>, i: nat)
    requires ChildOf(mem, kroot, kown, dir) && own == ChildOwn(kroot, kown, dir) && i < 512
    requires mem2 == SetWord(mem, dir, REC, Word(true, dir, 0)) && Child(mem, kroot, kown, kroot, i)
    ensures Child(mem2, dir, own, dir, i)
  {
  }

  lemma LowerChild(mem: seq<Frame>, mem2: seq<Frame>, kroot: nat, kown: map<nat, Node>, dir: nat, own: map<nat, Node>, f: nat, i: nat)
    requires ChildOf(mem, kroot, kown, dir) && own == ChildOwn(kroot, kown, dir) && f in kown && f != kroot && i < 512
    requires mem2 == SetWord(mem, dir, REC, Word(true, dir, 0)) && Child(mem, kroot, kown, f, i)
    ensures Child(mem2, dir, own, f, i)
  {
  }

  /** How many prefixes of level `k` lie in the lower half. */
  function Half(k: nat): nat
    requires k <= 3
  {
    256 * Width(k)
  }

  /** The lower half has no table and no page. */
  ghost predicate NoUser(mem: seq<Frame>, root: nat)
  {
    forall k, q | 0 <= k <= 3 && 0 <= q < Half(k) :: Table(mem, root, k, q) == None
  }

  lemma ChildEmpty(mem: seq<Frame>, root: nat)
    requires root < |mem| && forall i | 0 <= i < 256 :: !mem[root][i].present
    ensures NoUser(mem, root)
  {
    forall k, q | 0 <= k <= 3 && 0 <= q < Half(k) ensures Table(mem, root, k, q) == None {
      NoneBelow(mem, root, k, q);
    }
  }

  lemma {:induction false} NoneBelow(mem: seq<Frame>, root: nat, k: nat, q: nat)
    requires root < |mem| && (forall i | 0 <= i < 256 :: !mem[root][i].present) && k <= 3 && q < Half(k)
    ensures Table(mem, root, k, q) == None
    decreases 3 - k
  {
    if k < 3 {
      NoneBelow(mem, root, k + 1, q / 512);
    }
  }
}
