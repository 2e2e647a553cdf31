/** The slab allocator's operations on shared memory. */
module SlabHeap {
  import opened Base
  import opened Bits
  import opened SlabModel

  /** `slab_size_list`: object size and pages per slab. */
  const SIZES: seq<(nat, nat)> :=
    [(8, 1), (16, 1), (32, 1), (64, 1), (128, 2), (256, 2), (512, 2), (1024, 4), (2048, 4), (4096, 4), (8192, 4)]

  predicate Fits(z: nat, pages: nat) { z >= 8 && HEADER + z <= pages * PAGE }

  /** Every size class has room for an object in a slab. */
  lemma SizesFit()
    ensures forall i | 0 <= i < |SIZES| :: Fits(SIZES[i].0, SIZES[i].1)
  {
  }

  /** The class that serves a request: there is one exactly for up to 8192 bytes, it is the least power of two from 8 on
      that is large enough, and its slabs have one, two or four pages. */
  lemma ClassFor(size: nat, i: nat)
    requires i <= |SIZES| && (i < |SIZES| ==> size <= SIZES[i].0) && forall d | 0 <= d < i :: SIZES[d].0 < size
    ensures i < |SIZES| <==> size <= 8192
    ensures i < |SIZES| ==> SIZES[i] == (8 * Pow2(i), if i < 4 then 1 else if i < 7 then 2 else 4)
  {
    assert Pow2(1) == 2 * Pow2(0) == 2 && Pow2(2) == 4 && Pow2(3) == 8 && Pow2(4) == 16 && Pow2(5) == 32;
    assert Pow2(6) == 64 && Pow2(7) == 128 && Pow2(8) == 256 && Pow2(9) == 512 && Pow2(10) == 1024;
    assert |SIZES| == 11 && (i == 11 ==> SIZES[10].0 < size);
    assert SIZES[10] == (8192, 4);
  }

  /** `vmm_alloc_pages` hands out whole pages that no slab occupies. */
  ghost predicate Region(cs: seq<Cache>, start: nat, pages: nat)
  {
    start > 0 && start % PAGE == 0 && Vacant(cs, Slab(start, pages * PAGE, 0, 0))
  }

  /** The pointer lies in no slab's range. */
  ghost predicate Foreign(cs: seq<Cache>, p: nat)
  {
    forall c, i | 0 <= c < |cs| && 0 <= i < |cs[c].slabs| :: !InRange(cs[c].slabs[i], p)
  }

  /** The lists of objects that are out, before and after `p` of the slab at `k` went out. */
  ghost predicate HandedOut(held: map<nat, seq<nat>>, held2: map<nat, seq<nat>>, k: nat, p: nat)
  {
    forall x: nat :: At(held2, x) == At(held, x) + (if x == k then [p] else [])
  }

  /** The lists before and after `p` came back to the slab at `k`, where it stood at position `n`. */
  ghost predicate CameBack(held: map<nat, seq<nat>>, held2: map<nat, seq<nat>>, k: nat, n: nat, p: nat)
  {
    && n < |At(held, k)| && At(held, k)[n] == p
    && forall x: nat :: At(held2, x) == if x == k then Without(At(held, k), n) else At(held, x)
  }

  /** `p` is an object, and out, of the slab at `k` of cache `c`. */
  ghost predicate LiveAt(cs: seq<Cache>, held: map<nat, seq<nat>>, c: nat, k: nat, p: nat)
  {
    exists i: nat :: Live(cs, held, c, i, p) && cs[c].slabs[i].start == k
  }

  lemma {:induction false} SomeFree(a: seq<Slab>)
    requires forall i | 0 <= i < |a| :: a[i].freeObjects == 0
    ensures SumFree(a) == 0
  {
    if a != [] {
      SomeFree(a[1..]);
    }
  }

  /** The objects that are out of the slabs of a cache. */
  function SumHeld(a: seq<Slab>, held: map<nat, seq<nat>>): nat
  {
    if a == [] then 0 else |At(held, a[0].start)| + SumHeld(a[1..], held)
  }

  /** Nothing is lost: in every cache the free objects and those that are out make up the total. */
  lemma Conserved(cs: seq<Cache>, mem: Memory, free: map<nat, seq<nat>>, held: map<nat, seq<nat>>, c: nat)
    requires HeapOk(cs, mem, free, held) && c < |cs|
    ensures cs[c].freeObjects + SumHeld(cs[c].slabs, held) == cs[c].totalObjects
  {
    assert Counted(cs[c]) && SlabsOk(cs[c], mem, free, held);
    ConservedSlabs(cs[c].slabs, cs[c].objSize, mem, free, held);
  }

  lemma {:induction false} ConservedSlabs(a: seq<Slab>, z: nat, mem: Memory, free: map<nat, seq<nat>>, held: map<nat, seq<nat>>)
    requires z > 0 && forall i | 0 <= i < |a| :: SlabOk(a[i], z, mem, At(free, a[i].start), At(held, a[i].start))
    ensures SumFree(a) + SumHeld(a, held) == SumCount(a, z)
  {
    if a != [] {
      assert SlabOk(a[0], z, mem, At(free, a[0].start), At(held, a[0].start));
      ConservedSlabs(a[1..], z, mem, free, held);
    }
  }

  /** What may be passed to `slab_free`: object number `n` of those that are out of slab `j` of cache `d`, or, with
      `d` past the last cache, a pointer that lies in no slab's range. */
  ghost predicate Pointer(cs: seq<Cache>, held: map<nat, seq<nat>>, p: nat, d: nat, j: nat, n: nat)
  {
    if d < |cs| then Has(cs, d, j) && n < |At(held, cs[d].slabs[j].start)| && At(held, cs[d].slabs[j].start)[n] == p
    else d == |cs| && Foreign(cs, p)
  }

  /** The range test hits the object's own slab and no other. */
  lemma RangeHit(cs: seq<Cache>, mem: Memory, free: map<nat, seq<nat>>, held: map<nat, seq<nat>>, c: nat, i: nat,
                 p: nat, d: nat, j: nat, n: nat)
    requires HeapOk(cs, mem, free, held) && Has(cs, c, i) && Pointer(cs, held, p, d, j, n)
    ensures InRange(cs[c].slabs[i], p) <==> (c, i) == (d, j)
  {
    hide HeapOk, IsObj, SlabOk, InRange, Count;
    if d < |cs| {
      SlabShape(cs, mem, free, held, c, i);
      SlabShape(cs, mem, free, held, d, j);
      var b := cs[d].slabs[j];
      HeldIsObj(b, cs[d].objSize, mem, At(free, b.start), At(held, b.start), n);
      if (c, i) != (d, j) {
        SlabsApart(cs, mem, free, held, d, j, c, i);
      }
      RangeIsOwn(b, cs[d].objSize, p, cs[c].slabs[i]);
    }
  }

  lemma HeldIsObj(sl: Slab, z: nat, mem: Memory, free: seq<nat>, held: seq<nat>, n: nat)
    requires SlabOk(sl, z, mem, free, held) && n < |held|
    ensures IsObj(sl, z, held[n]) && |free| == sl.freeObjects
  {
    assert held[n] in free + held;
  }

  lemma WriteInside(cs: seq<Cache>, mem: Memory, free: map<nat, seq<nat>>, held: map<nat, seq<nat>>,
                    c: nat, i: nat, p: nat, a: nat, v: nat)
    requires HeapOk(cs, mem, free, held) && Live(cs, held, c, i, p) && p <= a && a + 8 <= p + cs[c].objSize
    ensures HeapOk(cs, mem[a := v], free, held)
  {
    hide SlabOk, Counted, Spread, Strangers;
    forall d | 0 <= d < |cs| ensures SlabsOk(cs[d], mem[a := v], free, held) {
      forall j | 0 <= j < |cs[d].slabs|
        ensures cs[d].slabs[j].size == cs[d].nrPages * PAGE
        ensures SlabOk(cs[d].slabs[j], cs[d].objSize, mem[a := v], At(free, cs[d].slabs[j].start), At(held, cs[d].slabs[j].start))
      {
        SlabShape(cs, mem, free, held, d, j);
        var q := At(free, cs[d].slabs[j].start);
        forall x | x in q ensures x != a {
          LiveApart(cs, mem, free, held, c, i, p, d, j, x);
        }
        SlabFrame(cs[d].slabs[j], cs[d].objSize, mem, mem[a := v], q, At(held, cs[d].slabs[j].start));
      }
    }
  }

  lemma FitsCache(cs: seq<Cache>, mem: Memory, free: map<nat, seq<nat>>, held: map<nat, seq<nat>>, c: nat)
    requires HeapOk(cs, mem, free, held) && c < |cs|
    ensures Fits(cs[c].objSize, cs[c].nrPages)
  {
    assert Counted(cs[c]);
  }

  lemma SlabFree(sl: Slab, z: nat, mem: Memory, free: seq<nat>, held: seq<nat>)
    requires SlabOk(sl, z, mem, free, held)
    ensures |free| == sl.freeObjects
  {
  }

  lemma FreeSize(sl: Slab, z: nat, mem: Memory, free: seq<nat>, held: seq<nat>)
    requires SlabOk(sl, z, mem, free, held) && sl.freeObjects > 0
    ensures |free| == sl.freeObjects && free[0] in free
  {
  }

  lemma SameRegion(cs: seq<Cache>, sl: Slab, pages: nat)
    requires Region(cs, sl.start, pages) && sl.size == pages * PAGE
    ensures Vacant(cs, sl)
  {
    forall c, i | 0 <= c < |cs| && 0 <= i < |cs[c].slabs| ensures Apart(sl, cs[c].slabs[i]) {
      assert Apart(Slab(sl.start, pages * PAGE, 0, 0), cs[c].slabs[i]);
    }
  }

  /** An object taken off a free list was not out, neither before nor after the cache grew. */
  lemma FreshObject(cs0: seq<Cache>, h0: map<nat, seq<nat>>, cs: seq<Cache>, mem: Memory, free: map<nat, seq<nat>>,
                    held: map<nat, seq<nat>>, c: nat, i: nat, p: nat, grew: bool, sl: Slab)
    requires HeapOk(cs, mem, free, held) && Has(cs, c, i) && p in At(free, cs[c].slabs[i].start)
    requires !grew ==> cs == cs0 && held == h0
    requires grew ==> c < |cs0| && held == h0[sl.start := []] && cs == cs0[c := Grown(cs0[c], sl, sl.freeObjects)]
    ensures p != 0 && forall d: nat, j: nat :: !Live(cs0, h0, d, j, p)
  {
    hide HeapOk, Counted;
    NotLiveNow(cs, mem, free, held, c, i, p);
    forall d: nat, j: nat ensures !Live(cs0, h0, d, j, p) {
      if grew && Live(cs0, h0, d, j, p) {
        Carried(cs0, h0, cs, mem, free, held, c, sl, d, j, p);
      }
    }
  }

  lemma Carried(cs0: seq<Cache>, h0: map<nat, seq<nat>>, cs: seq<Cache>, mem: Memory, free: map<nat, seq<nat>>,
                held: map<nat, seq<nat>>, c: nat, sl: Slab, d: nat, j: nat, p: nat)
    requires HeapOk(cs, mem, free, held) && Live(cs0, h0, d, j, p)
    requires c < |cs0| && held == h0[sl.start := []] && cs == cs0[c := Grown(cs0[c], sl, sl.freeObjects)]
    ensures Live(cs, held, d, if d == c then j + 1 else j, p)
  {
    hide HeapOk, Counted;
    var j2 := if d == c then j + 1 else j;
    assert cs[d].slabs[j2] == cs0[d].slabs[j];
    assert cs[c].slabs[0] == sl;
    SlabsApart(cs, mem, free, held, c, 0, d, j2);
  }

  lemma NotLiveNow(cs: seq<Cache>, mem: Memory, free: map<nat, seq<nat>>, held: map<nat, seq<nat>>, c: nat, i: nat, p: nat)
    requires HeapOk(cs, mem, free, held) && Has(cs, c, i) && p in At(free, cs[c].slabs[i].start)
    ensures p != 0 && forall d: nat, j: nat :: !Live(cs, held, d, j, p)
  {
    hide HeapOk, IsObj, Chain, NoDup, Count;
    SlabShape(cs, mem, free, held, c, i);
    var sl := cs[c].slabs[i];
    assert p in At(free, sl.start) + At(held, sl.start);
    ObjInside(sl, cs[c].objSize, p);
    forall d: nat, j: nat ensures !Live(cs, held, d, j, p) {
      if Live(cs, held, d, j, p) {
        SlabShape(cs, mem, free, held, d, j);
        LiveApart(cs, mem, free, held, d, j, p, c, i, p);
      }
    }
  }

  lemma NewShape(sl: Slab, z: nat, pages: nat)
    requires sl.start > 0 && sl.start % PAGE == 0 && sl.size == pages * PAGE && Fits(z, pages)
    ensures Shape(sl, z)
  {
  }

  /** `memset` to zero of `n` bytes at `lo`. */
  function Zeroed(mem: Memory, lo: nat, n: nat): (r: Memory)
    ensures forall a: nat :: a in r <==> a in mem || lo <= a < lo + n
    ensures forall a | a in r :: r[a] == if lo <= a < lo + n then 0 else mem[a]
  {
    if n == 0 then mem else Zeroed(mem, lo, n - 1)[lo + n - 1 := 0]
  }

  predicate HalfAt(mem: Memory, sl: Slab, z: nat, i: nat, j: nat)
  {
    Obj(sl, z, j) in mem && mem[Obj(sl, z, j)] == if j + 1 < i then Obj(sl, z, j + 1) else 0
  }

  /** The first `i` objects are threaded, and the words of the others are null. */
  predicate Half(mem: Memory, sl: Slab, z: nat, i: nat)
    requires z > 0
  {
    forall j | 0 <= j < Count(sl, z) :: HalfAt(mem, sl, z, i, j)
  }

  lemma HalfStart(mem: Memory, sl: Slab, z: nat)
    requires Shape(sl, z) && forall a | sl.start <= a < sl.start + sl.size :: a in mem && mem[a] == 0
    ensures Half(mem, sl, z, 1)
  {
    forall j | 0 <= j < Count(sl, z) ensures HalfAt(mem, sl, z, 1, j) {
      assert IsObj(sl, z, Obj(sl, z, j));
      ObjInside(sl, z, Obj(sl, z, j));
    }
  }

  lemma HalfStep(mem: Memory, sl: Slab, z: nat, i: nat)
    requires Shape(sl, z) && 1 <= i < Count(sl, z) && Half(mem, sl, z, i)
    ensures Half(mem[Obj(sl, z, i - 1) := Obj(sl, z, i)], sl, z, i + 1)
    ensures Obj(sl, z, i - 1) in mem && sl.start <= Obj(sl, z, i - 1) < sl.start + sl.size
  {
    var mem2, i2 := mem[Obj(sl, z, i - 1) := Obj(sl, z, i)], i + 1;
    assert HalfAt(mem, sl, z, i, i - 1);
    assert IsObj(sl, z, Obj(sl, z, i - 1));
    ObjInside(sl, z, Obj(sl, z, i - 1));
    forall j | 0 <= j < Count(sl, z) ensures HalfAt(mem2, sl, z, i2, j) {
      assert HalfAt(mem, sl, z, i, j);
      if j < i - 1 {
        MulGap(j, i - 1, z);
      } else if j > i - 1 {
        MulGap(i - 1, j, z);
      }
    }
  }

  lemma HalfDone(mem: Memory, sl: Slab, z: nat)
    requires z > 0 && Half(mem, sl, z, Count(sl, z))
    ensures Threaded(mem, sl, z)
  {
    forall j | 0 <= j < Count(sl, z) ensures Link(mem, sl, z, j) {
      assert HalfAt(mem, sl, z, Count(sl, z), j);
    }
  }

  class Heap {
    var caches: seq<Cache>
    var mem: Memory
    ghost var free: map<nat, seq<nat>>
    ghost var held: map<nat, seq<nat>>

    ghost predicate Valid()
      reads this
    {
      HeapOk(caches, mem, free, held)
    }

    /** The caches of `slab_init`, before they grow for the first time. */
    constructor (sizes: seq<(nat, nat)>)
      requires forall i | 0 <= i < |sizes| :: Fits(sizes[i].0, sizes[i].1)
      ensures Valid() && |caches| == |sizes|
      ensures forall i | 0 <= i < |sizes| :: caches[i] == Cache(sizes[i].0, sizes[i].1, [], 0, 0)
    {
      caches := seq(|sizes|, i requires 0 <= i < |sizes| => Cache(sizes[i].0, sizes[i].1, [], 0, 0));
      mem, free, held := map[], map[], map[];
    }

    /** `slab_create` on the pages at `start`: the objects are threaded in address order. */
    method SlabCreate(start: nat, pages: nat, z: nat) returns (sl: Slab)
      requires start > 0 && start % PAGE == 0 && Fits(z, pages)
      modifies `mem
      ensures sl.start == start && sl.size == pages * PAGE && SlabOk(sl, z, mem, Objs(sl, z), []) && Count(sl, z) > 0
      ensures forall a | a in old(mem) && !(start <= a < start + sl.size) :: a in mem && mem[a] == old(mem)[a]
    {
      hide Half, Threaded, SlabOk, Shape;
      var bytes := pages * PAGE;
      mem := Zeroed(mem, start, bytes);
      var count := (bytes - HEADER) / z;
      sl := Slab(start, bytes, count, start + HEADER);
      ghost var m0 := mem;
      var first := start + HEADER;
      var curr := first;
      var i := 1;
      NewShape(sl, z, pages);
      FitsOne(bytes - HEADER, z);
      HalfStart(mem, sl, z);
      while i < count
        invariant 1 <= i <= count && curr == Obj(sl, z, i - 1) && mem.Keys == m0.Keys
        invariant Half(mem, sl, z, i)
        invariant forall a | a in m0 && !(start <= a < start + bytes) :: mem[a] == m0[a]
      {
        var entry := first + i * z;
        HalfStep(mem, sl, z, i);
        mem := mem[curr := entry];
        curr := entry;
        i := i + 1;
      }
      HalfDone(mem, sl, z);
      NewSlab(mem, sl, z);
    }

    /** `slab_cache_growth`: the new slab is the first of the list. */
    method Growth(c: nat, start: nat) returns (sl: Slab)
      requires Valid() && c < |caches| && Region(caches, start, caches[c].nrPages)
      modifies `caches, `mem, `free, `held
      ensures Valid() && held == old(held)[start := []]
      ensures sl.start == start && sl.freeObjects > 0
      ensures caches == old(caches)[c := Grown(old(caches)[c], sl, sl.freeObjects)]
    {
      hide HeapOk, SlabOk, Count, Counted;
      FitsCache(caches, mem, free, held, c);
      ghost var cs, m0 := caches, mem;
      sl := SlabCreate(start, caches[c].nrPages, caches[c].objSize);
      ghost var fl := Objs(sl, caches[c].objSize);
      SlabFree(sl, caches[c].objSize, mem, fl, []);
      SameRegion(caches, sl, caches[c].nrPages);
      HeapGrow(caches, m0, free, held, c, sl, mem, fl);
      var k := caches[c];
      caches := caches[c := k.(slabs := [sl] + k.slabs, freeObjects := k.freeObjects + sl.freeObjects,
                               totalObjects := k.totalObjects + sl.freeObjects)];
      free, held := free[start := fl], held[start := []];
    }

    /** `slab_cache_alloc`. A request that fits the size class is always met: if nothing is free the cache grows, and
        the search then finds an object. The object was not out before, and no other list of objects changes. */
    method CacheAlloc(c: nat, size: nat, start: nat) returns (p: nat, ghost k: nat)
      requires Valid() && c < |caches| && Region(caches, start, caches[c].nrPages)
      modifies `caches, `mem, `free, `held
      ensures Valid() && |caches| == |old(caches)| && caches[c].objSize == old(caches)[c].objSize
      ensures forall d | 0 <= d < |caches| && d != c :: caches[d] == old(caches)[d]
      ensures size > old(caches)[c].objSize ==> p == 0 && caches == old(caches) && mem == old(mem) && held == old(held)
      ensures size <= old(caches)[c].objSize ==> p != 0 && LiveAt(caches, held, c, k, p)
      ensures size <= old(caches)[c].objSize
        ==> HandedOut(if old(caches)[c].freeObjects == 0 then old(held)[start := []] else old(held), held, k, p)
      ensures size <= old(caches)[c].objSize ==> forall d: nat, j: nat :: !Live(old(caches), old(held), d, j, p)
    {
      hide HeapOk, Counted;
      p, k := 0, 0;
      if caches[c].objSize < size {
        return;
      }
      ghost var cs0, h0 := caches, held;
      ghost var grew := caches[c].freeObjects == 0;
      ghost var sl := Slab(start, 0, 0, 0);
      if caches[c].freeObjects == 0 {
        sl := Growth(c, start);
      }
      ghost var cs1, m1, f1, h1 := caches, mem, free, held;
      var i := FindSlab(c);
      p := Take(c, i);
      k := caches[c].slabs[i].start;
      FreshObject(cs0, h0, cs1, m1, f1, h1, c, i, p, grew, sl);
      assert Live(caches, held, c, i, p);
    }

    /** The search loop of `slab_cache_alloc`. */
    method FindSlab(c: nat) returns (i: nat)
      requires Valid() && c < |caches| && caches[c].freeObjects > 0
      ensures i < |caches[c].slabs| && caches[c].slabs[i].freeObjects > 0
      ensures forall j | 0 <= j < i :: caches[c].slabs[j].freeObjects == 0
    {
      assert Counted(caches[c]);
      i := 0;
      while i < |caches[c].slabs|
        invariant i <= |caches[c].slabs| && forall j | 0 <= j < i :: caches[c].slabs[j].freeObjects == 0
      {
        if caches[c].slabs[i].freeObjects > 0 {
          return;
        }
        i := i + 1;
      }
      SomeFree(caches[c].slabs);
    }

    /** Takes the first object off a slab's list. */
    method Take(c: nat, i: nat) returns (p: nat)
      requires Valid() && Has(caches, c, i) && caches[c].slabs[i].freeObjects > 0
      modifies `caches, `mem, `free, `held
      ensures Valid() && p == old(caches)[c].slabs[i].freeList && p in old(At(free, caches[c].slabs[i].start))
      ensures held == old(held)[old(caches)[c].slabs[i].start := old(At(held, caches[c].slabs[i].start)) + [p]]
      ensures |caches| == |old(caches)| && forall d | 0 <= d < |caches| && d != c :: caches[d] == old(caches)[d]
      ensures caches[c].objSize == old(caches)[c].objSize && Has(caches, c, i)
        && caches[c].slabs[i].start == old(caches)[c].slabs[i].start
    {
      hide HeapOk, IsObj, SlabOk, Chain, NoDup, Count;
      ghost var sl0 := caches[c].slabs[i];
      ghost var fl, hl := At(free, sl0.start), At(held, sl0.start);
      SlabShape(caches, mem, free, held, c, i);
      PopOk(sl0, caches[c].objSize, mem, fl, hl);
      var k := caches[c];
      var sl := k.slabs[i];
      p := sl.freeList;
      FreeSize(sl0, k.objSize, mem, fl, hl);
      HeapUpdate(caches, mem, free, held, c, i, p, 0, mem[p], fl[1..], hl + [p]);
      sl := sl.(freeList := mem[p]);
      sl := sl.(freeObjects := sl.freeObjects - 1);
      caches := caches[c := k.(slabs := k.slabs[i := sl], freeObjects := k.freeObjects - 1)];
      mem := mem[p := 0];
      free, held := free[sl.start := fl[1..]], held[sl.start := hl + [p]];
    }

    /** `slab_cache_free`. A live object is found in the cache it came from and in no other, and goes back to its own
        slab; a pointer in no slab's range is refused. */
    method CacheFree(c: nat, p: nat, ghost d: nat, ghost j: nat, ghost n: nat) returns (ok: bool)
      requires Valid() && c < |caches| && Pointer(caches, held, p, d, j, n)
      modifies `caches, `mem, `free, `held
      ensures Valid() && (ok <==> d == c)
      ensures ok ==> CameBack(old(held), held, old(caches)[c].slabs[j].start, n, p)
      ensures !ok ==> caches == old(caches) && mem == old(mem) && held == old(held) && free == old(free)
    {
      hide HeapOk, IsObj, SlabOk;
      var i := 0;
      ok := false;
      while i < |caches[c].slabs|
        invariant caches == old(caches) && mem == old(mem) && held == old(held) && free == old(free)
        invariant i <= |caches[c].slabs|
        invariant !ok && (d == c ==> i <= j)
      {
        RangeHit(caches, mem, free, held, c, i, p, d, j, n);
        if InRange(caches[c].slabs[i], p) {
          GiveBack(c, i, p, n);
          return true;
        }
        i := i + 1;
      }
    }

    /** Puts an object first on its slab's list. */
    method GiveBack(c: nat, i: nat, p: nat, ghost n: nat)
      requires Valid() && Has(caches, c, i) && n < |At(held, caches[c].slabs[i].start)| && At(held, caches[c].slabs[i].start)[n] == p
      modifies `caches, `mem, `free, `held
      ensures Valid() && CameBack(old(held), held, old(caches)[c].slabs[i].start, n, p)
    {
      hide HeapOk, IsObj, SlabOk, Chain, NoDup, Count;
      ghost var sl0 := caches[c].slabs[i];
      ghost var fl, hl := At(free, sl0.start), At(held, sl0.start);
      SlabShape(caches, mem, free, held, c, i);
      PushOk(sl0, caches[c].objSize, mem, fl, hl, n);
      HeldIsObj(sl0, caches[c].objSize, mem, fl, hl, n);
      HeapUpdate(caches, mem, free, held, c, i, p, sl0.freeList, p, [p] + fl, Without(hl, n));
      var k := caches[c];
      var sl := k.slabs[i];
      mem := mem[p := sl.freeList];
      sl := sl.(freeList := p);
      sl := sl.(freeObjects := sl.freeObjects + 1);
      caches := caches[c := k.(slabs := k.slabs[i := sl], freeObjects := k.freeObjects + 1)];
      free, held := free[sl.start := [p] + fl], held[sl.start := Without(hl, n)];
    }

    /** `slab_alloc`: the first size class that is large enough serves the request. */
    method Alloc(size: nat, start: nat) returns (p: nat, ghost c: nat, ghost k: nat)
      requires Valid() && forall d | 0 <= d < |caches| :: Region(caches, start, caches[d].nrPages)
      modifies `caches, `mem, `free, `held
      ensures Valid() && |caches| == |old(caches)|
      ensures p == 0 <==> forall d | 0 <= d < |old(caches)| :: old(caches)[d].objSize < size
      ensures p == 0 ==> caches == old(caches) && mem == old(mem) && held == old(held)
      ensures p != 0 ==> LiveAt(caches, held, c, k, p) && c < |old(caches)| && size <= old(caches)[c].objSize
      ensures p != 0 ==> forall d | 0 <= d < c :: old(caches)[d].objSize < size
      ensures p != 0 ==> forall d | 0 <= d < |old(caches)| && d != c :: caches[d] == old(caches)[d]
      ensures p != 0 ==> forall d: nat, j: nat :: !Live(old(caches), old(held), d, j, p)
      ensures p != 0 ==> HandedOut(old(held), held, k, p) || HandedOut(old(held)[start := []], held, k, p)
    {
      hide HeapOk, HandedOut, Live, LiveAt, Region, Valid;
      p, c, k := 0, 0, 0;
      var i := FirstClass(size);
      if i < |caches| {
        c := i;
        p, k := CacheAlloc(i, size, start);
      }
    }

    /** The search loop of `slab_alloc`. */
    method FirstClass(size: nat) returns (i: nat)
      ensures i <= |caches| && (i < |caches| ==> size <= caches[i].objSize)
      ensures forall d | 0 <= d < i :: caches[d].objSize < size
    {
      i := 0;
      while i < |caches|
        invariant i <= |caches| && forall d | 0 <= d < i :: caches[d].objSize < size
      {
        if size <= caches[i].objSize {
          return;
        }
        i := i + 1;
      }
    }

    /** `slab_free`: every live object returns to the slab it came from, whatever the order of caches and slabs. */
    method Free(p: nat, ghost d: nat, ghost j: nat, ghost n: nat) returns (isSlab: bool)
      requires Valid() && Pointer(caches, held, p, d, j, n)
      modifies `caches, `mem, `free, `held
      ensures Valid() && (isSlab <==> d < |old(caches)|)
      ensures isSlab ==> CameBack(old(held), held, old(caches)[d].slabs[j].start, n, p)
      ensures !isSlab ==> caches == old(caches) && mem == old(mem) && held == old(held)
    {
      hide HeapOk, CameBack;
      isSlab := false;
      var i := 0;
      while i < |caches|
        invariant i <= |caches| && caches == old(caches) && mem == old(mem) && held == old(held) && free == old(free)
        invariant !isSlab && i <= d
      {
        isSlab := CacheFree(i, p, d, j, n);
        if isSlab {
          return;
        }
        i := i + 1;
      }
    }

    /** The owner of an object may write any word of it. */
    method UserWrite(p: nat, off: nat, v: nat, ghost c: nat, ghost i: nat)
      requires Valid() && Live(caches, held, c, i, p) && off + 8 <= caches[c].objSize
      modifies `mem
      ensures Valid() && mem == old(mem)[p + off := v]
    {
      hide HeapOk;
      WriteInside(caches, mem, free, held, c, i, p, p + off, v);
      mem := mem[p + off := v];
    }
  }
}
