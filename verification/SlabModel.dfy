/** Slabs of kernel/src/mm/vmm.c: a header, then equal objects, the free ones chained through their first word. */
module SlabModel {
  import opened Base
  import opened Bits

  const HEADER: nat := 40
  const PAGE: nat := 4096

  /** `s_mem` is always `start + HEADER`. */
  datatype Slab = Slab(start: nat, size: nat, freeObjects: nat, freeList: nat)

  datatype Cache = Cache(objSize: nat, nrPages: nat, slabs: seq<Slab>, freeObjects: nat, totalObjects: nat)

  /** The first word of every address. */
  type Memory = map<nat, nat>

  function First(sl: Slab): nat { sl.start + HEADER }

  function Count(sl: Slab, z: nat): nat
    requires z > 0
  {
    if sl.size < HEADER then 0 else (sl.size - HEADER) / z
  }

  function Obj(sl: Slab, z: nat, i: nat): nat { First(sl) + i * z }

  /** A slab holds as many objects as fit behind its header of 40 bytes, one right behind the other. */
  lemma CountFits(sl: Slab, z: nat)
    requires z > 0 && sl.size >= 40
    ensures Count(sl, z) * z <= sl.size - 40 < (Count(sl, z) + 1) * z
    ensures Obj(sl, z, 0) == sl.start + 40 && forall i: nat :: Obj(sl, z, i + 1) == Obj(sl, z, i) + z
  {
    var n := sl.size - 40;
    assert n == n / z * z + n % z;
    forall i: nat ensures Obj(sl, z, i + 1) == Obj(sl, z, i) + z {
      assert (i + 1) * z == i * z + z;
    }
  }

  /** `p` is one of the slab's objects. */
  ghost predicate IsObj(sl: Slab, z: nat, p: nat)
    requires z > 0
  {
    exists i: nat :: i < Count(sl, z) && p == Obj(sl, z, i)
  }

  /** Following the words from `head` visits `q` and ends with null. */
  predicate Chain(mem: Memory, head: nat, q: seq<nat>)
    decreases q
  {
    if q == [] then head == 0 else head == q[0] && head in mem && Chain(mem, mem[head], q[1..])
  }

  /** A whole number of pages, with room for an object behind the header. */
  predicate Shape(sl: Slab, z: nat)
  {
    sl.start > 0 && sl.start % PAGE == 0 && sl.size % PAGE == 0 && z >= 8 && HEADER + z <= sl.size
  }

  /** `free` is the free list and `held` the objects that are out. */
  ghost predicate SlabOk(sl: Slab, z: nat, mem: Memory, free: seq<nat>, held: seq<nat>)
  {
    && Shape(sl, z)
    && Chain(mem, sl.freeList, free) && |free| == sl.freeObjects && |free| + |held| == Count(sl, z)
    && NoDup(free + held) && (forall p | p in free + held :: IsObj(sl, z, p))
  }

  predicate Apart(a: Slab, b: Slab) { a.start + a.size <= b.start || b.start + b.size <= a.start }

  // ----- where objects lie -----

  lemma ObjInside(sl: Slab, z: nat, p: nat)
    requires Shape(sl, z) && IsObj(sl, z, p)
    ensures First(sl) <= p && p + z <= sl.start + sl.size
  {
    var i: nat :| i < Count(sl, z) && p == Obj(sl, z, i);
    MulGap(i, Count(sl, z), z);
    assert Count(sl, z) * z <= sl.size - HEADER;
  }

  /** Two objects of one slab do not overlap. */
  lemma ObjGap(sl: Slab, z: nat, p: nat, q: nat)
    requires Shape(sl, z) && IsObj(sl, z, p) && IsObj(sl, z, q) && p != q
    ensures p + z <= q || q + z <= p
  {
    var i: nat :| i < Count(sl, z) && p == Obj(sl, z, i);
    var j: nat :| j < Count(sl, z) && q == Obj(sl, z, j);
    if i < j {
      MulGap(i, j, z);
    } else if j < i {
      MulGap(j, i, z);
    }
  }

  /** Objects overlap neither each other nor a header, within a slab and across slabs. */
  lemma NoOverlap(a: Slab, za: nat, p: nat, b: Slab, zb: nat, q: nat)
    requires Shape(a, za) && IsObj(a, za, p) && Shape(b, zb) && IsObj(b, zb, q)
    requires (a == b && za == zb && p != q) || Apart(a, b)
    ensures p + za <= q || q + zb <= p
    ensures p >= b.start + HEADER || p + za <= b.start
  {
    ObjInside(a, za, p);
    ObjInside(b, zb, q);
    if a == b && za == zb && p != q {
      ObjGap(a, za, p, q);
    }
  }

  // ----- the range test of slab_cache_free -----

  /** `s_mem <= ptr < s_mem + size`: the test runs one header past the slab's last page. */
  predicate InRange(sl: Slab, p: nat) { First(sl) <= p < First(sl) + sl.size }

  /** Although it overshoots, the test holds of an object for its own slab only. */
  lemma RangeIsOwn(a: Slab, za: nat, p: nat, b: Slab)
    requires Shape(a, za) && IsObj(a, za, p) && (b == a || Apart(a, b)) && b.size >= HEADER
    ensures InRange(b, p) <==> b == a
  {
    ObjInside(a, za, p);
  }

  /** The overshoot is real: the first word behind the slab passes the test. */
  lemma RangeOvershoots(sl: Slab, z: nat)
    requires Shape(sl, z)
    ensures forall p | sl.start + sl.size <= p < sl.start + sl.size + HEADER :: InRange(sl, p)
  {
  }

  // ----- chains -----

  lemma {:induction false} ChainSame(mem: Memory, mem2: Memory, head: nat, q: seq<nat>)
    requires Chain(mem, head, q) && forall p | p in q && p in mem :: p in mem2 && mem2[p] == mem[p]
    ensures Chain(mem2, head, q)
    decreases q
  {
    if q != [] {
      assert q[0] in q;
      forall p | p in q[1..] && p in mem ensures p in mem2 && mem2[p] == mem[p] {
        assert p in q;
      }
      ChainSame(mem, mem2, mem[head], q[1..]);
    }
  }

  /** Memory of a slab's own pages is all that matters to it. */
  lemma SlabFrame(sl: Slab, z: nat, mem: Memory, mem2: Memory, free: seq<nat>, held: seq<nat>)
    requires SlabOk(sl, z, mem, free, held)
    requires forall p | p in free && p in mem :: p in mem2 && mem2[p] == mem[p]
    ensures SlabOk(sl, z, mem2, free, held)
  {
    ChainSame(mem, mem2, sl.freeList, free);
  }

  // ----- taking and giving back -----

  /** Moving one element of a list does not matter to its being free of duplicates. */
  lemma MoveOne(a: seq<nat>, x: nat, b: seq<nat>)
    ensures NoDup([x] + a + b) <==> NoDup(a + [x] + b)
    ensures NoDup([x] + a + b) ==> x !in a && x !in b
  {
    var s, t := [x] + a + b, a + [x] + b;
    if NoDup(s) {
      forall i, j | 0 <= i < j < |t| ensures t[i] != t[j] {
        assert t[i] == s[if i < |a| then i + 1 else if i == |a| then 0 else i];
        assert t[j] == s[if j < |a| then j + 1 else if j == |a| then 0 else j];
      }
      forall i | 0 <= i < |a| ensures a[i] != x {
        assert s[0] != s[i + 1];
      }
      forall i | 0 <= i < |b| ensures b[i] != x {
        assert s[0] != s[i + 1 + |a|];
      }
    }
    if NoDup(t) {
      forall i, j | 0 <= i < j < |s| ensures s[i] != s[j] {
        assert s[i] == t[if i == 0 then |a| else if i <= |a| then i - 1 else i];
        assert s[j] == t[if j == 0 then |a| else if j <= |a| then j - 1 else j];
      }
    }
  }

  lemma SameObjs(sl: Slab, sl2: Slab, z: nat)
    requires z > 0 && sl2.start == sl.start && sl2.size == sl.size
    ensures forall p | IsObj(sl, z, p) :: IsObj(sl2, z, p)
  {
    forall p | IsObj(sl, z, p) ensures IsObj(sl2, z, p) {
      var i: nat :| i < Count(sl, z) && p == Obj(sl, z, i);
      assert p == Obj(sl2, z, i);
    }
  }

  /** The slab's record after its free list changed. */
  function Relist(sl: Slab, head: nat, n: nat): Slab { sl.(freeList := head, freeObjects := n) }

  lemma RelistOk(sl: Slab, z: nat, mem: Memory, free: seq<nat>, held: seq<nat>,
                 mem2: Memory, head: nat, free2: seq<nat>, held2: seq<nat>)
    requires SlabOk(sl, z, mem, free, held) && Chain(mem2, head, free2) && NoDup(free2 + held2)
    requires |free2 + held2| == |free + held| && forall p | p in free2 + held2 :: p in free + held
    ensures SlabOk(Relist(sl, head, |free2|), z, mem2, free2, held2)
  {
    hide NoDup, IsObj, Chain;
    SameObjs(sl, Relist(sl, head, |free2|), z);
  }

  /** Taking the first free object. */
  lemma PopOk(sl: Slab, z: nat, mem: Memory, free: seq<nat>, held: seq<nat>)
    requires SlabOk(sl, z, mem, free, held) && sl.freeObjects > 0
    ensures var p := sl.freeList;
      p in mem && free[0] == p && p !in held && p !in free[1..] && IsObj(sl, z, p)
      && SlabOk(Relist(sl, mem[p], sl.freeObjects - 1), z, mem[p := 0], free[1..], held + [p])
  {
    hide NoDup, IsObj, Count;
    var p, f2 := sl.freeList, free[1..];
    assert free + held == [p] + (f2 + held) + [];
    MoveOne(f2 + held, p, []);
    assert (f2 + held) + [p] + [] == f2 + (held + [p]);
    assert p !in f2 && p !in held by {
      assert p !in f2 + held;
    }
    assert p in free + held;
    ChainSame(mem, mem[p := 0], mem[p], f2);
    RelistOk(sl, z, mem, free, held, mem[p := 0], mem[p], f2, held + [p]);
  }

  /** Giving back an object that is out. */
  lemma PushOk(sl: Slab, z: nat, mem: Memory, free: seq<nat>, held: seq<nat>, i: nat)
    requires SlabOk(sl, z, mem, free, held) && i < |held|
    ensures var p := held[i];
      p !in free && p !in Without(held, i)
      && SlabOk(Relist(sl, p, sl.freeObjects + 1), z, mem[p := sl.freeList], [p] + free, Without(held, i))
  {
    hide NoDup, IsObj, Count;
    var p, h2 := held[i], Without(held, i);
    var a, b := free + held[..i], held[i + 1..];
    assert free + held == a + [p] + b;
    MoveOne(a, p, b);
    assert [p] + a + b == ([p] + free) + h2;
    assert p !in a && p !in b;
    assert p !in free by { assert forall x | x in free :: x in a; }
    assert p !in held[..i] by { assert forall x | x in held[..i] :: x in a; }
    var m2 := mem[p := sl.freeList];
    ChainSame(mem, m2, sl.freeList, free);
    assert ([p] + free)[1..] == free;
    RelistOk(sl, z, mem, free, held, m2, p, [p] + free, h2);
  }

  function Without(q: seq<nat>, i: nat): seq<nat>
    requires i < |q|
  {
    q[..i] + q[i + 1..]
  }

  // ----- caches and the heap -----

  /** The list kept for a slab, by the slab's address. */
  function At(m: map<nat, seq<nat>>, k: nat): seq<nat> { if k in m then m[k] else [] }

  function SumFree(slabs: seq<Slab>): nat
  {
    if slabs == [] then 0 else slabs[0].freeObjects + SumFree(slabs[1..])
  }

  function SumCount(slabs: seq<Slab>, z: nat): nat
    requires z > 0
  {
    if slabs == [] then 0 else Count(slabs[0], z) + SumCount(slabs[1..], z)
  }

  ghost predicate SlabsOk(c: Cache, mem: Memory, free: map<nat, seq<nat>>, held: map<nat, seq<nat>>)
  {
    forall i | 0 <= i < |c.slabs| :: c.slabs[i].size == c.nrPages * PAGE
      && SlabOk(c.slabs[i], c.objSize, mem, At(free, c.slabs[i].start), At(held, c.slabs[i].start))
  }

  predicate Counted(c: Cache)
  {
    && c.objSize >= 8 && HEADER + c.objSize <= c.nrPages * PAGE
    && c.freeObjects == SumFree(c.slabs) && c.totalObjects == SumCount(c.slabs, c.objSize)
  }

  predicate Spread(a: seq<Slab>) { forall i, j | 0 <= i < j < |a| :: Apart(a[i], a[j]) }

  predicate Strangers(a: seq<Slab>, b: seq<Slab>) { forall i, j | 0 <= i < |a| && 0 <= j < |b| :: Apart(a[i], b[j]) }

  ghost predicate HeapOk(cs: seq<Cache>, mem: Memory, free: map<nat, seq<nat>>, held: map<nat, seq<nat>>)
  {
    && (forall c | 0 <= c < |cs| :: Counted(cs[c]) && Spread(cs[c].slabs) && SlabsOk(cs[c], mem, free, held))
    && (forall c, d | 0 <= c < d < |cs| :: Strangers(cs[c].slabs, cs[d].slabs))
  }

  predicate Has(cs: seq<Cache>, c: nat, i: nat) { c < |cs| && i < |cs[c].slabs| }

  /** Any two slabs of the heap are apart. */
  lemma SlabsApart(cs: seq<Cache>, mem: Memory, free: map<nat, seq<nat>>, held: map<nat, seq<nat>>, c: nat, i: nat, d: nat, j: nat)
    requires HeapOk(cs, mem, free, held) && Has(cs, c, i) && Has(cs, d, j) && (c, i) != (d, j)
    ensures Apart(cs[c].slabs[i], cs[d].slabs[j]) && cs[c].slabs[i].start != cs[d].slabs[j].start
  {
    hide SlabOk, Counted;
    SlabShape(cs, mem, free, held, c, i);
    SlabShape(cs, mem, free, held, d, j);
    if c < d {
      assert Strangers(cs[c].slabs, cs[d].slabs);
    } else if d < c {
      assert Strangers(cs[d].slabs, cs[c].slabs);
    } else if i < j {
      assert Spread(cs[c].slabs);
    } else {
      assert Spread(cs[c].slabs);
    }
  }

  lemma SlabShape(cs: seq<Cache>, mem: Memory, free: map<nat, seq<nat>>, held: map<nat, seq<nat>>, c: nat, i: nat)
    requires HeapOk(cs, mem, free, held) && Has(cs, c, i)
    ensures var sl := cs[c].slabs[i];
      Shape(sl, cs[c].objSize) && SlabOk(sl, cs[c].objSize, mem, At(free, sl.start), At(held, sl.start))
      && sl.size == cs[c].nrPages * PAGE && sl.size >= HEADER + 8
  {
    assert SlabsOk(cs[c], mem, free, held);
  }

  /** `p` is an object of slab `i` of cache `c` that is out. */
  predicate Live(cs: seq<Cache>, held: map<nat, seq<nat>>, c: nat, i: nat, p: nat)
  {
    Has(cs, c, i) && p in At(held, cs[c].slabs[i].start)
  }

  /** Objects that are out overlap neither each other, nor a free object, nor a header, whatever slab they are from. */
  lemma LiveApart(cs: seq<Cache>, mem: Memory, free: map<nat, seq<nat>>, held: map<nat, seq<nat>>,
                  c: nat, i: nat, p: nat, d: nat, j: nat, q: nat)
    requires HeapOk(cs, mem, free, held) && Live(cs, held, c, i, p) && Has(cs, d, j)
    requires (q in At(held, cs[d].slabs[j].start) && (c, i, p) != (d, j, q)) || q in At(free, cs[d].slabs[j].start)
    ensures p + cs[c].objSize <= q || q + cs[d].objSize <= p
    ensures p >= cs[d].slabs[j].start + HEADER || p + cs[c].objSize <= cs[d].slabs[j].start
  {
    hide HeapOk, NoDup, Chain, Count, IsObj;
    SlabShape(cs, mem, free, held, c, i);
    SlabShape(cs, mem, free, held, d, j);
    var a, b := cs[c].slabs[i], cs[d].slabs[j];
    assert p in At(free, a.start) + At(held, a.start);
    assert q in At(free, b.start) + At(held, b.start);
    if (c, i) != (d, j) {
      SlabsApart(cs, mem, free, held, c, i, d, j);
    } else if q in At(free, b.start) {
      FreeNotHeld(At(free, a.start), At(held, a.start), p);
    }
    NoOverlap(a, cs[c].objSize, p, b, cs[d].objSize, q);
  }

  lemma FreeNotHeld(free: seq<nat>, held: seq<nat>, p: nat)
    requires NoDup(free + held) && p in held
    ensures p !in free
  {
    var k :| 0 <= k < |held| && held[k] == p;
    forall i | 0 <= i < |free| ensures free[i] != p {
      assert (free + held)[i] != (free + held)[|free| + k];
    }
  }

  // ----- one slab changes -----

  lemma {:induction false} SumFreeUpdate(a: seq<Slab>, i: nat, sl: Slab)
    requires i < |a|
    ensures SumFree(a[i := sl]) + a[i].freeObjects == SumFree(a) + sl.freeObjects
  {
    if i == 0 {
      assert a[0 := sl][1..] == a[1..];
    } else {
      SumFreeUpdate(a[1..], i - 1, sl);
      assert a[i := sl][1..] == a[1..][i - 1 := sl];
    }
  }

  lemma {:induction false} SumCountUpdate(a: seq<Slab>, z: nat, i: nat, sl: Slab)
    requires i < |a| && z > 0 && sl.size == a[i].size
    ensures SumCount(a[i := sl], z) == SumCount(a, z)
  {
    if i == 0 {
      assert a[0 := sl][1..] == a[1..];
    } else {
      SumCountUpdate(a[1..], z, i - 1, sl);
      assert a[i := sl][1..] == a[1..][i - 1 := sl];
    }
  }

  /** The cache after one of its slabs changed its free list. */
  function WithSlab(c: Cache, i: nat, sl: Slab): Cache
    requires i < |c.slabs| && c.freeObjects + sl.freeObjects >= c.slabs[i].freeObjects
  {
    c.(slabs := c.slabs[i := sl], freeObjects := c.freeObjects + sl.freeObjects - c.slabs[i].freeObjects)
  }

  /** A change of one slab's free list, and of one word inside it, keeps the whole heap in order. */
  lemma HeapUpdate(cs: seq<Cache>, mem: Memory, free: map<nat, seq<nat>>, held: map<nat, seq<nat>>,
                   c: nat, i: nat, p: nat, v: nat, head: nat, f2: seq<nat>, h2: seq<nat>)
    requires HeapOk(cs, mem, free, held) && Has(cs, c, i) && IsObj(cs[c].slabs[i], cs[c].objSize, p)
    requires SlabOk(Relist(cs[c].slabs[i], head, |f2|), cs[c].objSize, mem[p := v], f2, h2)
    ensures var sl := Relist(cs[c].slabs[i], head, |f2|);
      cs[c].freeObjects + |f2| >= cs[c].slabs[i].freeObjects
      && HeapOk(cs[c := WithSlab(cs[c], i, sl)], mem[p := v], free[sl.start := f2], held[sl.start := h2])
  {
    hide HeapOk, SlabOk, IsObj, Shape, Chain, NoDup, Count, Apart;
    var sl := Relist(cs[c].slabs[i], head, |f2|);
    CacheUpdate(cs, mem, free, held, c, i, sl);
    var cs2 := cs[c := WithSlab(cs[c], i, sl)];
    forall d | 0 <= d < |cs2|
      ensures Counted(cs2[d]) && Spread(cs2[d].slabs) && SlabsOk(cs2[d], mem[p := v], free[sl.start := f2], held[sl.start := h2])
    {
      CacheKept(cs, mem, free, held, c, i, p, v, sl, f2, h2, d);
    }
    forall d, e | 0 <= d < e < |cs2| ensures Strangers(cs2[d].slabs, cs2[e].slabs) {
      StrangersKept(cs, mem, free, held, c, i, sl, d, e);
    }
    HeapIntro(cs2, mem[p := v], free[sl.start := f2], held[sl.start := h2]);
  }

  lemma HeapIntro(cs: seq<Cache>, mem: Memory, free: map<nat, seq<nat>>, held: map<nat, seq<nat>>)
    requires forall c | 0 <= c < |cs| :: Counted(cs[c]) && Spread(cs[c].slabs) && SlabsOk(cs[c], mem, free, held)
    requires forall c, d | 0 <= c < d < |cs| :: Strangers(cs[c].slabs, cs[d].slabs)
    ensures HeapOk(cs, mem, free, held)
  {
  }

  lemma CacheUpdate(cs: seq<Cache>, mem: Memory, free: map<nat, seq<nat>>, held: map<nat, seq<nat>>, c: nat, i: nat, sl: Slab)
    requires HeapOk(cs, mem, free, held) && Has(cs, c, i) && sl.start == cs[c].slabs[i].start && sl.size == cs[c].slabs[i].size
    ensures cs[c].freeObjects + sl.freeObjects >= cs[c].slabs[i].freeObjects
    ensures Counted(WithSlab(cs[c], i, sl)) && Spread(WithSlab(cs[c], i, sl).slabs)
  {
    hide SlabsOk, Strangers;
    assert Counted(cs[c]) && Spread(cs[c].slabs);
    SumFreeUpdate(cs[c].slabs, i, sl);
    SumCountUpdate(cs[c].slabs, cs[c].objSize, i, sl);
    var a, a2 := cs[c].slabs, cs[c].slabs[i := sl];
    forall x, y | 0 <= x < y < |a2| ensures Apart(a2[x], a2[y]) {
      assert Apart(a[x], a[y]);
    }
  }

  lemma StrangersKept(cs: seq<Cache>, mem: Memory, free: map<nat, seq<nat>>, held: map<nat, seq<nat>>,
                      c: nat, i: nat, sl: Slab, d: nat, e: nat)
    requires HeapOk(cs, mem, free, held) && Has(cs, c, i) && sl.start == cs[c].slabs[i].start && sl.size == cs[c].slabs[i].size
    requires d < e < |cs| && cs[c].freeObjects + sl.freeObjects >= cs[c].slabs[i].freeObjects
    ensures var cs2 := cs[c := WithSlab(cs[c], i, sl)]; Strangers(cs2[d].slabs, cs2[e].slabs)
  {
    hide SlabsOk, Counted, Spread;
    var cs2 := cs[c := WithSlab(cs[c], i, sl)];
    assert Strangers(cs[d].slabs, cs[e].slabs);
    forall x, y | 0 <= x < |cs2[d].slabs| && 0 <= y < |cs2[e].slabs| ensures Apart(cs2[d].slabs[x], cs2[e].slabs[y]) {
      assert Apart(cs[d].slabs[x], cs[e].slabs[y]);
    }
  }

  lemma CacheKept(cs: seq<Cache>, mem: Memory, free: map<nat, seq<nat>>, held: map<nat, seq<nat>>,
                  c: nat, i: nat, p: nat, v: nat, sl: Slab, f2: seq<nat>, h2: seq<nat>, d: nat)
    requires HeapOk(cs, mem, free, held) && Has(cs, c, i) && d < |cs|
    requires IsObj(cs[c].slabs[i], cs[c].objSize, p) && sl.start == cs[c].slabs[i].start && sl.size == cs[c].slabs[i].size
    requires SlabOk(sl, cs[c].objSize, mem[p := v], f2, h2)
    requires cs[c].freeObjects + sl.freeObjects >= cs[c].slabs[i].freeObjects
    requires Counted(WithSlab(cs[c], i, sl)) && Spread(WithSlab(cs[c], i, sl).slabs)
    ensures var cs2 := cs[c := WithSlab(cs[c], i, sl)];
      Counted(cs2[d]) && Spread(cs2[d].slabs) && SlabsOk(cs2[d], mem[p := v], free[sl.start := f2], held[sl.start := h2])
  {
    hide SlabOk, IsObj, Shape, Counted, Spread, Strangers;
    var cs2, free2, held2 := cs[c := WithSlab(cs[c], i, sl)], free[sl.start := f2], held[sl.start := h2];
    assert Counted(cs[d]) && Spread(cs[d].slabs) && SlabsOk(cs[c], mem, free, held);
    forall j | 0 <= j < |cs2[d].slabs|
      ensures cs2[d].slabs[j].size == cs2[d].nrPages * PAGE
      ensures SlabOk(cs2[d].slabs[j], cs2[d].objSize, mem[p := v], At(free2, cs2[d].slabs[j].start), At(held2, cs2[d].slabs[j].start))
    {
      SlabShape(cs, mem, free, held, d, j);
      if (d, j) != (c, i) {
        SlabsApart(cs, mem, free, held, c, i, d, j);
        SlabShape(cs, mem, free, held, c, i);
        OtherSlab(cs[c].slabs[i], cs[c].objSize, p, cs[d].slabs[j], cs[d].objSize, mem, v,
          At(free, cs[d].slabs[j].start), At(held, cs[d].slabs[j].start));
      }
    }
  }

  /** A word inside one slab's object is nothing to another slab. */
  lemma OtherSlab(a: Slab, za: nat, p: nat, b: Slab, zb: nat, mem: Memory, v: nat, free: seq<nat>, held: seq<nat>)
    requires Shape(a, za) && IsObj(a, za, p) && Apart(a, b) && SlabOk(b, zb, mem, free, held)
    ensures SlabOk(b, zb, mem[p := v], free, held)
  {
    hide IsObj, Chain, NoDup;
    ObjInside(a, za, p);
    forall x | x in free ensures x != p {
      assert x in free + held;
      ObjInside(b, zb, x);
    }
    SlabFrame(b, zb, mem, mem[p := v], free, held);
  }

  // ----- a new slab -----

  /** All objects of a slab, in address order. */
  function Objs(sl: Slab, z: nat): (q: seq<nat>)
    requires z > 0
    ensures |q| == Count(sl, z)
  {
    seq(Count(sl, z), i requires 0 <= i => Obj(sl, z, i))
  }

  /** Every object's first word leads to the next object, the last one's to null. */
  predicate Threaded(mem: Memory, sl: Slab, z: nat)
    requires z > 0
  {
    forall i | 0 <= i < Count(sl, z) :: Link(mem, sl, z, i)
  }

  predicate Link(mem: Memory, sl: Slab, z: nat, i: nat)
    requires z > 0
  {
    Obj(sl, z, i) in mem && mem[Obj(sl, z, i)] == if i + 1 < Count(sl, z) then Obj(sl, z, i + 1) else 0
  }

  lemma {:induction false} ThreadedChain(mem: Memory, sl: Slab, z: nat, i: nat)
    requires z > 0 && Threaded(mem, sl, z) && i < Count(sl, z)
    ensures Chain(mem, Obj(sl, z, i), Objs(sl, z)[i..])
    decreases Count(sl, z) - i
  {
    hide Obj;
    var q := Objs(sl, z);
    assert Link(mem, sl, z, i);
    assert q[i..][0] == Obj(sl, z, i) && q[i..][1..] == q[i + 1..];
    if i + 1 < Count(sl, z) {
      ThreadedChain(mem, sl, z, i + 1);
    } else {
      assert q[i + 1..] == [] && Chain(mem, 0, q[i + 1..]);
    }
  }

  lemma NewSlab(mem: Memory, sl: Slab, z: nat)
    requires Shape(sl, z) && Threaded(mem, sl, z) && sl.freeList == First(sl) && sl.freeObjects == Count(sl, z)
    ensures SlabOk(sl, z, mem, Objs(sl, z), []) && Count(sl, z) > 0
  {
    var q := Objs(sl, z);
    assert Count(sl, z) > 0 by { FitsOne(sl.size - HEADER, z); }
    ThreadedChain(mem, sl, z, 0);
    assert q[0..] == q && q + [] == q;
    forall i, j | 0 <= i < j < |q| ensures q[i] != q[j] {
      MulGap(i, j, z);
    }
    forall p | p in q ensures IsObj(sl, z, p) {
      var i :| 0 <= i < |q| && q[i] == p;
      assert p == Obj(sl, z, i);
    }
  }

  lemma FitsOne(n: nat, z: nat)
    requires 0 < z <= n
    ensures n / z > 0
  {
    assert n == z * (n / z) + n % z;
  }

  /** The region touches no slab of the heap. */
  ghost predicate Vacant(cs: seq<Cache>, sl: Slab)
  {
    forall c, i | 0 <= c < |cs| && 0 <= i < |cs[c].slabs| :: Apart(sl, cs[c].slabs[i])
  }

  function Grown(c: Cache, sl: Slab, n: nat): Cache
  {
    c.(slabs := [sl] + c.slabs, freeObjects := c.freeObjects + n, totalObjects := c.totalObjects + n)
  }

  lemma HeapGrow(cs: seq<Cache>, mem: Memory, free: map<nat, seq<nat>>, held: map<nat, seq<nat>>,
                 c: nat, sl: Slab, mem2: Memory, fl: seq<nat>)
    requires HeapOk(cs, mem, free, held) && c < |cs| && Vacant(cs, sl) && sl.size == cs[c].nrPages * PAGE
    requires SlabOk(sl, cs[c].objSize, mem2, fl, []) && |fl| == Count(sl, cs[c].objSize)
    requires forall a | a in mem && !(sl.start <= a < sl.start + sl.size) :: a in mem2 && mem2[a] == mem[a]
    ensures HeapOk(cs[c := Grown(cs[c], sl, |fl|)], mem2, free[sl.start := fl], held[sl.start := []])
  {
    hide SlabOk, Apart, Shape, Count;
    var cs2 := cs[c := Grown(cs[c], sl, |fl|)];
    forall d | 0 <= d < |cs2|
      ensures Counted(cs2[d]) && Spread(cs2[d].slabs) && SlabsOk(cs2[d], mem2, free[sl.start := fl], held[sl.start := []])
    {
      GrowCounted(cs, mem, free, held, c, sl, mem2, fl);
      GrowSlabs(cs, mem, free, held, c, sl, mem2, fl, d);
      assert Counted(cs[d]) && Spread(cs[d].slabs);
    }
    forall d, e | 0 <= d < e < |cs2| ensures Strangers(cs2[d].slabs, cs2[e].slabs) {
      GrowStrangers(cs, mem, free, held, c, sl, |fl|, d, e);
    }
    HeapIntro(cs2, mem2, free[sl.start := fl], held[sl.start := []]);
  }

  lemma GrowCounted(cs: seq<Cache>, mem: Memory, free: map<nat, seq<nat>>, held: map<nat, seq<nat>>,
                    c: nat, sl: Slab, mem2: Memory, fl: seq<nat>)
    requires HeapOk(cs, mem, free, held) && c < |cs| && Vacant(cs, sl)
    requires SlabOk(sl, cs[c].objSize, mem2, fl, []) && |fl| == Count(sl, cs[c].objSize)
    ensures Counted(Grown(cs[c], sl, |fl|)) && Spread(Grown(cs[c], sl, |fl|).slabs)
  {
    hide Apart, Count, SlabsOk;
    assert Counted(cs[c]) && Spread(cs[c].slabs);
    assert ([sl] + cs[c].slabs)[1..] == cs[c].slabs;
  }

  lemma GrowStrangers(cs: seq<Cache>, mem: Memory, free: map<nat, seq<nat>>, held: map<nat, seq<nat>>,
                      c: nat, sl: Slab, n: nat, d: nat, e: nat)
    requires HeapOk(cs, mem, free, held) && c < |cs| && Vacant(cs, sl) && d < e < |cs|
    ensures var cs2 := cs[c := Grown(cs[c], sl, n)]; Strangers(cs2[d].slabs, cs2[e].slabs)
  {
    hide SlabsOk, Counted, Spread;
    var cs2 := cs[c := Grown(cs[c], sl, n)];
    assert Strangers(cs[d].slabs, cs[e].slabs);
    forall x, y | 0 <= x < |cs2[d].slabs| && 0 <= y < |cs2[e].slabs| ensures Apart(cs2[d].slabs[x], cs2[e].slabs[y]) {
      if d == c && x == 0 {
        assert Apart(sl, cs[e].slabs[y]);
      } else if e == c && y == 0 {
        assert Apart(sl, cs[d].slabs[x]);
      }
    }
  }

  lemma GrowSlabs(cs: seq<Cache>, mem: Memory, free: map<nat, seq<nat>>, held: map<nat, seq<nat>>,
                  c: nat, sl: Slab, mem2: Memory, fl: seq<nat>, d: nat)
    requires HeapOk(cs, mem, free, held) && c < |cs| && d < |cs| && Vacant(cs, sl) && sl.size == cs[c].nrPages * PAGE
    requires SlabOk(sl, cs[c].objSize, mem2, fl, [])
    requires forall a | a in mem && !(sl.start <= a < sl.start + sl.size) :: a in mem2 && mem2[a] == mem[a]
    ensures SlabsOk(cs[c := Grown(cs[c], sl, |fl|)][d], mem2, free[sl.start := fl], held[sl.start := []])
  {
    hide SlabOk, Shape, Counted, Spread, Strangers;
    var k := cs[c := Grown(cs[c], sl, |fl|)][d];
    var free2, held2 := free[sl.start := fl], held[sl.start := []];
    forall j | 0 <= j < |k.slabs|
      ensures k.slabs[j].size == k.nrPages * PAGE
      ensures SlabOk(k.slabs[j], k.objSize, mem2, At(free2, k.slabs[j].start), At(held2, k.slabs[j].start))
    {
      if !(d == c && j == 0) {
        var i := if d == c then j - 1 else j;
        assert k.slabs[j] == cs[d].slabs[i];
        SlabShape(cs, mem, free, held, d, i);
        BesideNew(sl, cs[c].objSize, fl, cs[d].slabs[i], cs[d].objSize, mem, mem2,
          At(free, cs[d].slabs[i].start), At(held, cs[d].slabs[i].start));
      }
    }
  }

  lemma BesideNew(sl: Slab, z: nat, fl: seq<nat>, b: Slab, zb: nat, mem: Memory, mem2: Memory, free: seq<nat>, held: seq<nat>)
    requires Apart(sl, b) && SlabOk(sl, z, mem2, fl, []) && SlabOk(b, zb, mem, free, held)
    requires forall a | a in mem && !(sl.start <= a < sl.start + sl.size) :: a in mem2 && mem2[a] == mem[a]
    ensures SlabOk(b, zb, mem2, free, held) && b.start != sl.start
  {
    hide IsObj, Chain, NoDup;
    forall x | x in free && x in mem ensures x in mem2 && mem2[x] == mem[x] {
      assert x in free + held;
      ObjInside(b, zb, x);
    }
    SlabFrame(b, zb, mem, mem2, free, held);
  }
}
