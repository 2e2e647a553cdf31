/** Copying an address space page by page: `mm_copy` of kernel/src/mm/vmalloc.c, on page tables. */
module MmCopy {
  import opened Base
  import opened PagingAddr
  import opened PageWalk
  import opened PageRange
  import opened Paging
  import opened VmArea
  import opened CopyCount

  /** The bytes of a frame. */
  type Page = p: seq<bv8> | |p| == PAGE witness seq(PAGE, i => 0)

  predicate InArea(a: Area, v: nat) { a.start / PAGE <= v < a.end / PAGE }

  /** Page `v` belongs to one of the areas. */
  ghost predicate Belongs(s: seq<Area>, v: nat) { exists i :: 0 <= i < |s| && InArea(s[i], v) }

  predicate Aligned(a: Area, lo: nat) { a.start % PAGE == 0 && a.end % PAGE == 0 && a.end < a.start + lo }

  predicate Injective(t: map<nat, nat>) { forall v, w | v in t && w in t && v != w :: t[v] != t[w] }

  /** An address space: exactly the pages of the areas are mapped, each to its own frame. The window lies in the lower
      half above page 0, and `vmalloc` has kept every area smaller than the start of the window. */
  ghost predicate SpaceOk(s: seq<Area>, lo: nat, hi: nat, t: map<nat, nat>)
  {
    && 0 < lo < hi < USER * PAGE && Ordered(s, lo, hi) && (forall i | 0 <= i < |s| :: Aligned(s[i], lo))
    && (forall v: nat :: v in t <==> Belongs(s, v))
    && Injective(t)
  }

  /** `t` is what the page tables translate the lower half to. */
  ghost predicate Mirrors(mem: seq<Frame>, root: nat, t: map<nat, nat>)
  {
    && (forall v | v in t :: v < USER)
    && forall v: nat | v < USER :: Walk(mem, root, v) == if v in t then Some(t[v]) else None
  }

  /** The supply of frames: distinct, real, and none of them in use by the address space. */
  predicate Stock(frames: map<nat, Page>, pool: seq<nat>, t: map<nat, nat>)
  {
    && NoDup(pool) && (forall f | f in pool :: f in frames)
    && (forall v | v in t :: t[v] in frames && t[v] !in pool)
  }

  /** Every page of `n` is backed by a frame of its own from `pool` and holds the same bytes as in `p`. */
  ghost predicate CopyOf(p: map<nat, nat>, n: map<nat, nat>, frames: map<nat, Page>, pool: seq<nat>)
  {
    && Injective(n)
    && (forall v | v in n :: v in p && n[v] in pool && n[v] in frames && p[v] in frames && frames[n[v]] == frames[p[v]])
  }

  // ----- mapping -----

  /** Table `t2` after the pages `[v, u)` were mapped to frames of `pool`, each to another one. */
  ghost predicate Mapped(t: map<nat, nat>, t2: map<nat, nat>, v: nat, u: nat, pool: seq<nat>)
  {
    && (forall w: nat :: w in t2 <==> w in t || v <= w < u)
    && (forall w | w in t :: t2[w] == t[w])
    && (forall w | w in t2 && w !in t :: t2[w] in pool)
    && (forall w, x | w in t2 && x in t2 && w !in t && x !in t && w != x :: t2[w] != t2[x])
  }

  lemma MappedNone(t: map<nat, nat>, v: nat, pool: seq<nat>)
    ensures Mapped(t, t, v, v, pool)
  {
  }

  lemma MappedMore(t: map<nat, nat>, t1: map<nat, nat>, v: nat, u: nat, p0: seq<nat>, k: nat, m: nat)
    requires k < m <= |p0| && Mapped(t, t1, v, u, p0[..k]) && v <= u && u !in t && NoDup(p0)
    ensures Mapped(t, t1[u := p0[k]], v, u + 1, p0[..m])
  {
    var t2 := t1[u := p0[k]];
    assert p0[..m][k] == p0[k];
    forall w | w in t1 && w !in t ensures t1[w] in p0[..m] && t1[w] != p0[k] {
      var i :| 0 <= i < k && p0[..k][i] == t1[w];
      assert p0[..m][i] == t1[w] && p0[i] == t1[w];
    }
  }

  lemma MirrorsMore(mem: seq<Frame>, mem2: seq<Frame>, root: nat, t: map<nat, nat>, v: nat, f: nat)
    requires Mirrors(mem, root, t) && v < USER && Walk(mem2, root, v) == Some(f)
    requires forall u: nat | Ordinary(0, u) && u != v :: Walk(mem2, root, u) == Walk(mem, root, u)
    ensures Mirrors(mem2, root, t[v := f])
  {
    hide Walk, Ordinary;
    forall u: nat | u < USER ensures Walk(mem2, root, u) == if u in t[v := f] then Some(t[v := f][u]) else None {
      UserOrdinary(0, u);
    }
  }

  /** Mapping one user page: the ranges of the call, and what it needs. */
  lemma OnePage(mem: seq<Frame>, root: nat, frames: nat, v: nat, edge: Option<nat>)
    requires v + 1 < USER && Walk(mem, root, v) == None && EdgeAt(mem, root, edge) && (edge.Some? ==> edge.val <= v)
    ensures PageNo(v * PAGE) == v && TableEnd(v * PAGE, 1) == LeafEnd(v * PAGE, 1) == v + 1 && MapSpan(v * PAGE, 1)
    ensures Mappable(mem, root, frames, v * PAGE, 1) <==> Tabs(edge, v, v + 1) <= frames
    ensures Needed(mem, root, v, v + 1) == Tabs(edge, v, v + 1)
  {
    hide Walk, Table, EdgeAt, Tabs, Needed, Mappable, At;
    ModAdd(4096, v, 0);
    ModAdd(PAGES, 0, v);
    ModAdd(PAGES, 0, v + 1);
    ShortRange(mem, root, frames, v * PAGE, 1);
    NeededIs(mem, root, edge, v);
  }

  lemma SuffixSupply(mem: seq<Frame>, own: map<nat, Node>, pool: seq<nat>)
    requires PageRange.Supply(mem, own, pool) && pool != []
    ensures PageRange.Supply(mem, own, pool[1..])
  {
  }

  lemma UserPage(mem: seq<Frame>, root: nat, t: map<nat, nat>, v: nat)
    requires Mirrors(mem, root, t) && v < USER && v !in t
    ensures Walk(mem, root, v) == None
  {
  }

  lemma MappedOne(mem: seq<Frame>, mem2: seq<Frame>, root: nat, t: map<nat, nat>, v: nat, f: nat)
    requires Mirrors(mem, root, t) && v < USER && PageNo(v * PAGE) == v && LeafEnd(v * PAGE, 1) == v + 1
    requires Consecutive(mem2, root, v, v + 1, f * PAGE / 4096)
    requires forall u: nat | Ordinary(0, u) && !(v <= u < v + 1) :: Walk(mem2, root, u) == Walk(mem, root, u)
    ensures Mirrors(mem2, root, t[v := f])
  {
    hide Walk, Ordinary, Mirrors, PageNo, LeafEnd;
    ModAdd(4096, f, 0);
    MirrorsMore(mem, mem2, root, t, v, f);
  }

  lemma PoolLeft(m0: seq<Frame>, p1: seq<nat>, pt: PageTables, own: map<nat, Node>)
    requires Supplied(m0, own, p1, pt.mem, pt.own, pt.pool)
    ensures |pt.pool| <= |p1| && pt.pool == p1[|p1| - |pt.pool|..]
  {
  }

  lemma ValidPool(pt: PageTables)
    requires pt.Valid()
    ensures NoDup(pt.pool)
  {
  }

  lemma FramesNone(edge: Option<nat>, v: nat)
    ensures RangeFrames(edge, v, v) == 0
  {
  }

  lemma NewPage(t: map<nat, nat>, t1: map<nat, nat>, first: nat, v: nat, q: seq<nat>, a: Area)
    requires Mapped(t, t1, first, v, q) && InArea(a, v) && first == a.start / PAGE && forall w | w in t :: !InArea(a, w)
    ensures v !in t1 && v !in t
  {
  }

  /** The area's pages were mapped to frames among the first `k` of the supply. */
  ghost predicate MappedArea(t: map<nat, nat>, t2: map<nat, nat>, a: Area, pool: seq<nat>, k: nat)
  {
    k <= |pool| && Mapped(t, t2, a.start / PAGE, a.end / PAGE, pool[..k])
  }

  lemma MirrorAt(mem: seq<Frame>, root: nat, t: map<nat, nat>, v: nat)
    requires Mirrors(mem, root, t) && v in t
    ensures Walk(mem, root, v) == Some(t[v])
  {
  }

  /** The bytes of area `a` were copied, and no frame but those of the copy changed. */
  ghost predicate Moved(a: Area, pt: map<nat, nat>, t2: map<nat, nat>, fr1: map<nat, Page>, fr2: map<nat, Page>)
  {
    && fr2.Keys == fr1.Keys
    && (forall v: nat | InArea(a, v) :: v in pt && v in t2 && pt[v] in fr1 && t2[v] in fr2 && fr2[t2[v]] == fr1[pt[v]])
    && (forall f | f in fr2 && (forall v | v in t2 && InArea(a, v) :: t2[v] != f) :: fr2[f] == fr1[f])
  }

  /** The bytes of the pages of `a` below page `w` were copied. */
  ghost predicate MovedTo(a: Area, pt: map<nat, nat>, t2: map<nat, nat>, fr1: map<nat, Page>, fr2: map<nat, Page>, w: nat)
  {
    && fr2.Keys == fr1.Keys
    && (forall v: nat | InArea(a, v) && v < w
         :: v in pt && v in t2 && pt[v] in fr1 && t2[v] in fr2 && fr2[t2[v]] == fr1[pt[v]])
    && (forall f | f in fr2 && (forall v | v in t2 && InArea(a, v) :: t2[v] != f) :: fr2[f] == fr1[f])
  }

  lemma MovedStart(a: Area, pt: map<nat, nat>, nt: map<nat, nat>, f0: map<nat, Page>)
    ensures MovedTo(a, pt, nt, f0, f0, a.start / PAGE)
  {
  }

  lemma InPage(a: Area, v: nat)
    requires a.start % PAGE == 0 && a.end % PAGE == 0 && a.start <= v * PAGE < a.end
    ensures InArea(a, v) && a.end - v * PAGE >= PAGE
  {
  }

  lemma MovedStep(a: Area, pt: map<nat, nat>, nt: map<nat, nat>, f0: map<nat, Page>, fr: map<nat, Page>, v: nat)
    requires MovedTo(a, pt, nt, f0, fr, v) && InArea(a, v) && v in pt && v in nt && pt[v] in f0 && nt[v] in f0
    requires Injective(nt) && forall x, w | x in nt && w in pt :: nt[x] != pt[w]
    ensures pt[v] in fr && nt[v] in fr && MovedTo(a, pt, nt, f0, fr[nt[v] := fr[pt[v]]], v + 1)
    ensures fr[pt[v]][..PAGE] + fr[nt[v]][PAGE..] == fr[pt[v]]
  {
    hide InArea;
    assert fr[pt[v]] == f0[pt[v]];
  }

  lemma MovedDone(a: Area, pt: map<nat, nat>, nt: map<nat, nat>, f0: map<nat, Page>, fr: map<nat, Page>, w: nat)
    requires MovedTo(a, pt, nt, f0, fr, w) && w * PAGE >= a.end
    ensures Moved(a, pt, nt, f0, fr)
  {
    assert forall v: nat | InArea(a, v) :: v < w;
  }

  // ----- a new address space -----

  lemma RootIn(mem: seq<Frame>, root: nat, own: map<nat, Node>)
    requires Tree(mem, root, own)
    ensures root < |mem|
  {
  }

  lemma NewDirectory(kmem: seq<Frame>, kroot: nat, kown: map<nat, Node>, dir: nat, d: Frame, pool: seq<nat>)
    requires Tree(kmem, kroot, kown) && PageRange.Supply(kmem, kown, pool) && pool != [] && dir == pool[0] && kroot < |kmem|
    requires forall i | 0 <= i < 512 :: d[i] == if i < 256 then ZERO else kmem[kroot][i]
    ensures dir < |kmem| && ChildOf(kmem[dir := d], kroot, kown, dir)
    ensures PageRange.Supply(kmem[dir := d], kown, pool[1..]) && dir !in pool[1..]
  {
    hide Child;
    var mem := kmem[dir := d];
    forall f, i | f in kown && 0 <= i < 512 ensures Child(mem, kroot, kown, f, i) {
      assert Child(kmem, kroot, kown, f, i);
      ChildSame(kmem, mem, kroot, kown, f, i);
    }
  }

  lemma NoPages(mem: seq<Frame>, root: nat)
    requires NoUser(mem, root)
    ensures Mirrors(mem, root, map[])
  {
    hide Walk, Table;
    forall v: nat | v < USER ensures Walk(mem, root, v) == None {
      WalkIsTable(mem, root, v);
    }
  }

  // ----- the copy, area by area -----

  /** The state of the copy after the first `i` areas. */
  ghost predicate Copying(s: seq<Area>, i: nat, pt: map<nat, nat>, nt: map<nat, nat>,
                          f0: map<nat, Page>, p0: seq<nat>, frames: map<nat, Page>, pool: seq<nat>)
  {
    && i <= |s| && ListFrames(s[..i]) <= |p0| && pool == p0[ListFrames(s[..i])..]
    && (forall v: nat :: v in nt <==> Belongs(s[..i], v))
    && CopyOf(pt, nt, frames, p0[..ListFrames(s[..i])])
    && frames.Keys == f0.Keys && (forall f | f in frames && f !in p0 :: frames[f] == f0[f])
  }

  /** With area `i` mapped too, every page of the copy has a frame of its own from the supply used so far. */
  ghost predicate Backed(s: seq<Area>, i: nat, pt: map<nat, nat>, t2: map<nat, nat>, p0: seq<nat>, frames: map<nat, Page>)
  {
    && i < |s| && ListFrames(s[..i + 1]) <= |p0|
    && (forall v | v in t2 :: t2[v] in p0[..ListFrames(s[..i + 1])] && t2[v] in p0)
    && (forall v: nat | InArea(s[i], v) :: v in pt && v in t2 && pt[v] in frames && t2[v] in frames)
    && Injective(t2) && (forall v, w | v in t2 && w in pt :: t2[v] != pt[w])
    && (forall v: nat :: v in t2 <==> Belongs(s[..i + 1], v))
  }

  lemma Bounds(s: seq<Area>, lo: nat, hi: nat, pt: map<nat, nat>)
    requires SpaceOk(s, lo, hi, pt)
    ensures 0 < lo < hi < WORD
  {
  }

  lemma StockRest(frames: map<nat, Page>, pool: seq<nat>, t: map<nat, nat>)
    requires Stock(frames, pool, t) && pool != []
    ensures Stock(frames, pool[1..], t) && forall f | f in pool[1..] :: f in pool
  {
  }

  lemma CopyStart(s: seq<Area>, pt: map<nat, nat>, f0: map<nat, Page>, p0: seq<nat>)
    ensures Copying(s, 0, pt, map[], f0, p0, f0, p0) && ListEdge(s[..0]) == None && s[..0] == []
  {
    assert s[..0] == [] && p0[0..] == p0;
  }

  /** The next area can be reserved and is not mapped yet. */
  lemma NextArea(s: seq<Area>, lo: nat, hi: nat, pt: map<nat, nat>, i: nat, nt: map<nat, nat>,
                 f0: map<nat, Page>, p0: seq<nat>, frames: map<nat, Page>, pool: seq<nat>)
    requires SpaceOk(s, lo, hi, pt) && i < |s| && Copying(s, i, pt, nt, f0, p0, frames, pool)
    ensures lo <= s[i].start < s[i].end < hi && s[i].start % PAGE == 0 && s[i].end % PAGE == 0
    ensures s[i].end - s[i].start < lo && s[i].start < WORD && s[i].end / PAGE < USER
    ensures ListEdge(s[..i]).Some? ==> ListEdge(s[..i]).val <= s[i].start / PAGE
    ensures forall v | v in nt :: !InArea(s[i], v)
  {
    hide CopyOf, Injective, Aligned, Inside, InArea, ListFrames;
    assert Inside(s[i], lo, hi) && Aligned(s[i], lo);
    AreaSize(s[i], lo, hi);
    if i > 0 {
      assert s[i - 1].end <= s[i].start;
      DivMono(s[i - 1].end, s[i].start);
    }
    forall v | v in nt ensures !InArea(s[i], v) {
      var j :| 0 <= j < |s[..i]| && InArea(s[..i][j], v);
      PagesApart(s[j], s[i], v);
    }
  }

  lemma DivMono(a: nat, b: nat)
    requires a <= b
    ensures a / PAGE <= b / PAGE
  {
  }

  lemma AreaSize(a: Area, lo: nat, hi: nat)
    requires Inside(a, lo, hi) && Aligned(a, lo) && hi < USER * PAGE && 0 < lo
    ensures lo <= a.start < a.end < hi && a.start % PAGE == 0 && a.end % PAGE == 0
    ensures a.end - a.start < lo && a.start < WORD && a.end / PAGE < USER
  {
  }

  lemma PagesApart(a: Area, b: Area, v: nat)
    requires a.end <= b.start && InArea(a, v)
    ensures !InArea(b, v)
  {
  }

  /** `vmalloc` at the parent's address puts the same area at the end of the list. */
  lemma Reserved(s: seq<Area>, lo: nat, hi: nat, pt: map<nat, nat>, i: nat, r: Option<Area>, t: seq<Area>)
    requires SpaceOk(s, lo, hi, pt) && i < |s|
    requires var n := s[i].end - s[i].start;
      n > 0 && FixedDone(s[..i], lo, hi, s[i].start, (s[i].start + RoundUp(n) % WORD) % WORD, s[i].flags, r, t)
    ensures t == s[..i + 1] && Ordered(t, lo, hi)
  {
    hide FixedDone, RoundUp, Aligned, Inside, Ordered, Tail, Belongs;
    var a := s[i];
    SpaceArea(s, lo, hi, pt, i);
    EndIs(a, lo, hi);
    PrefixOrdered(s, lo, hi, i);
    FixedAt(s[..i], lo, hi, a.start, a.end, a.flags, r, t);
    assert s[..i + 1] == s[..i] + [a];
  }

  lemma SpaceArea(s: seq<Area>, lo: nat, hi: nat, pt: map<nat, nat>, i: nat)
    requires SpaceOk(s, lo, hi, pt) && i < |s|
    ensures Inside(s[i], lo, hi) && Aligned(s[i], lo) && Ordered(s, lo, hi) && hi < USER * PAGE && 0 < lo
  {
    assert Inside(s[i], lo, hi) && Aligned(s[i], lo);
  }

  lemma EndIs(a: Area, lo: nat, hi: nat)
    requires Inside(a, lo, hi) && Aligned(a, lo) && hi < USER * PAGE && 0 < lo
    ensures (a.start + RoundUp(a.end - a.start) % WORD) % WORD == a.end && a.start < a.end < hi
  {
    assert (a.end - a.start) % PAGE == 0;
  }

  lemma PrefixOrdered(s: seq<Area>, lo: nat, hi: nat, i: nat)
    requires Ordered(s, lo, hi) && i < |s|
    ensures Ordered(s[..i], lo, hi) && s[i].start >= Tail(s[..i], lo)
  {
    forall j | 0 <= j < i ensures Inside(s[..i][j], lo, hi) {
      assert Inside(s[j], lo, hi);
    }
    assert Inside(s[i], lo, hi);
  }

  lemma FixedAt(s: seq<Area>, lo: nat, hi: nat, a: nat, b: nat, flags: nat, r: Option<Area>, t: seq<Area>)
    requires FixedDone(s, lo, hi, a, b, flags, r, t) && Ordered(s, lo, hi) && Tail(s, lo) <= a < b < hi
    ensures t == s + [Area(a, b, flags)] && Ordered(t, lo, hi)
  {
    hide Ordered, Disjoint, Tail;
  }

  lemma OutOfFrames(s: seq<Area>, i: nat, pt: map<nat, nat>, f0: map<nat, Page>, p0: seq<nat>,
                    frames: map<nat, Page>, pool: seq<nat>, t1: map<nat, nat>)
    requires Copying(s, i, pt, t1, f0, p0, frames, pool) && i < |s| && AreaFrames(s[..i], s[i]) > |pool|
    ensures ListFrames(s) > |p0| && frames.Keys == f0.Keys && forall f | f in frames && f !in p0 :: frames[f] == f0[f]
  {
    hide AreaFrames, CopyOf, Belongs;
    ListStep(s, i);
    ListMono(s, i + 1, |s|);
    assert s[..|s|] == s;
  }

  /** Mapping the area keeps the tables injective and apart. */
  lemma MapStep(s: seq<Area>, lo: nat, hi: nat, pt: map<nat, nat>, i: nat, t1: map<nat, nat>, t2: map<nat, nat>,
                f0: map<nat, Page>, p0: seq<nat>, frames: map<nat, Page>, pool: seq<nat>)
    requires SpaceOk(s, lo, hi, pt) && Stock(f0, p0, pt) && i < |s| && Copying(s, i, pt, t1, f0, p0, frames, pool)
    requires MappedArea(t1, t2, s[i], pool, AreaFrames(s[..i], s[i]))
    ensures Backed(s, i, pt, t2, p0, frames)
    ensures forall v: nat | InArea(s[i], v) :: v in pt && v in t2 && pt[v] in frames && t2[v] in frames
    ensures Injective(t2) && forall v, w | v in t2 && w in pt :: t2[v] != pt[w]
  {
    hide Ordered, SpaceOk, AreaFrames, ListFrames, Mapped, Belongs, InArea, Injective, NoDup;
    ListStep(s, i);
    var u, c := ListFrames(s[..i]), AreaFrames(s[..i], s[i]);
    NewBacked(s[i], t1, t2, p0, u, c) by { CopyParts(pt, t1, frames, p0[..u]); StockNoDup(f0, p0, pt); }
    BelongsStep(s, i);
    BelongsIn(s, lo, hi, pt, i);
    CopyParts(pt, t1, frames, p0[..u]);
    MappedPages(s[i], t1, t2, pool, c);
  }

  lemma StockNoDup(f0: map<nat, Page>, p0: seq<nat>, pt: map<nat, nat>)
    requires Stock(f0, p0, pt)
    ensures NoDup(p0)
  {
  }

  lemma CopyParts(pt: map<nat, nat>, nt: map<nat, nat>, frames: map<nat, Page>, q: seq<nat>)
    requires CopyOf(pt, nt, frames, q)
    ensures Injective(nt) && forall v | v in nt :: nt[v] in q
  {
  }

  lemma MappedPages(a: Area, t1: map<nat, nat>, t2: map<nat, nat>, pool: seq<nat>, c: nat)
    requires MappedArea(t1, t2, a, pool, c)
    ensures forall v: nat :: v in t2 <==> v in t1 || InArea(a, v)
  {
  }

  lemma NewBacked(a: Area, t1: map<nat, nat>, t2: map<nat, nat>, p0: seq<nat>, u: nat, c: nat)
    requires NoDup(p0) && u <= |p0| && Injective(t1) && MappedArea(t1, t2, a, p0[u..], c)
    requires forall v | v in t1 :: t1[v] in p0[..u]
    ensures u + c <= |p0| && Injective(t2) && forall v | v in t2 :: t2[v] in p0[..u + c] && t2[v] in p0
  {
    forall v | v in t2 ensures exists k :: 0 <= k < u + c && p0[k] == t2[v] && (v in t1 <==> k < u) {
      PoolIndex(a, t1, t2, p0, u, c, v);
    }
    forall v | v in t2 ensures t2[v] in p0[..u + c] && t2[v] in p0 {
      var k :| 0 <= k < u + c && p0[k] == t2[v];
      assert p0[..u + c][k] == t2[v];
    }
    forall v, w | v in t2 && w in t2 && v != w ensures t2[v] != t2[w] {
      NewApart(a, t1, t2, p0, u, c, v, w);
    }
  }

  lemma NewApart(a: Area, t1: map<nat, nat>, t2: map<nat, nat>, p0: seq<nat>, u: nat, c: nat, v: nat, w: nat)
    requires NoDup(p0) && u <= |p0| && Injective(t1) && MappedArea(t1, t2, a, p0[u..], c)
    requires (forall x | x in t1 :: t1[x] in p0[..u]) && v in t2 && w in t2 && v != w
    ensures t2[v] != t2[w]
  {
    PoolIndex(a, t1, t2, p0, u, c, v);
    PoolIndex(a, t1, t2, p0, u, c, w);
  }

  lemma PoolIndex(a: Area, t1: map<nat, nat>, t2: map<nat, nat>, p0: seq<nat>, u: nat, c: nat, v: nat)
    requires NoDup(p0) && u <= |p0| && MappedArea(t1, t2, a, p0[u..], c) && v in t2
    requires forall w | w in t1 :: t1[w] in p0[..u]
    ensures u + c <= |p0| && exists k :: 0 <= k < u + c && p0[k] == t2[v] && (v in t1 <==> k < u)
  {
    if v in t1 {
      var k :| 0 <= k < u && p0[..u][k] == t1[v];
      assert p0[k] == t2[v];
    } else {
      var k :| 0 <= k < c && p0[u..][..c][k] == t2[v];
      assert p0[u + k] == t2[v];
    }
  }

  lemma BelongsStep(s: seq<Area>, i: nat)
    requires i < |s|
    ensures forall v: nat :: Belongs(s[..i + 1], v) <==> Belongs(s[..i], v) || InArea(s[i], v)
  {
    hide InArea;
    forall v: nat ensures Belongs(s[..i + 1], v) <==> Belongs(s[..i], v) || InArea(s[i], v) {
      if Belongs(s[..i], v) {
        var j :| 0 <= j < i && InArea(s[..i][j], v);
        assert InArea(s[..i + 1][j], v);
      }
      if InArea(s[i], v) {
        assert InArea(s[..i + 1][i], v);
      }
      if Belongs(s[..i + 1], v) {
        var j :| 0 <= j < i + 1 && InArea(s[..i + 1][j], v);
        if j < i {
          assert InArea(s[..i][j], v);
        }
      }
    }
  }

  lemma BelongsIn(s: seq<Area>, lo: nat, hi: nat, pt: map<nat, nat>, i: nat)
    requires SpaceOk(s, lo, hi, pt) && i < |s|
    ensures forall v: nat | InArea(s[i], v) :: v in pt
  {
    forall v: nat | InArea(s[i], v) ensures v in pt {
      assert Belongs(s, v);
    }
  }

  lemma CopyStep(s: seq<Area>, lo: nat, hi: nat, pt: map<nat, nat>, i: nat, t1: map<nat, nat>, t2: map<nat, nat>,
                 f0: map<nat, Page>, p0: seq<nat>, fr1: map<nat, Page>, fr2: map<nat, Page>, po1: seq<nat>, po2: seq<nat>)
    requires SpaceOk(s, lo, hi, pt) && i < |s| && Copying(s, i, pt, t1, f0, p0, fr1, po1)
    requires AreaFrames(s[..i], s[i]) <= |po1| && po2 == po1[AreaFrames(s[..i], s[i])..]
    requires MappedArea(t1, t2, s[i], po1, AreaFrames(s[..i], s[i])) && forall v | v in t1 :: !InArea(s[i], v)
    requires Backed(s, i, pt, t2, p0, fr1) && Moved(s[i], pt, t2, fr1, fr2)
    ensures Copying(s, i + 1, pt, t2, f0, p0, fr2, po2)
  {
    hide SpaceOk, NoDup, Belongs, InArea, Injective, Moved, CopyOf, AreaFrames, ListFrames;
    ListStep(s, i);
    var u, c := ListFrames(s[..i]), AreaFrames(s[..i], s[i]);
    assert p0[u..][c..] == p0[u + c..];
    assert forall v | v in t2 :: v in t1 || InArea(s[i], v) by { MappedPages(s[i], t1, t2, po1, c); }
    CopyKept(s[i], pt, t1, t2, p0[..u], p0[..u + c], fr1, fr2);
    CopyOthers(s[i], pt, t2, p0, f0, fr1, fr2);
  }

  lemma CopyKept(a: Area, pt: map<nat, nat>, t1: map<nat, nat>, t2: map<nat, nat>, q1: seq<nat>, q2: seq<nat>,
                 fr1: map<nat, Page>, fr2: map<nat, Page>)
    requires CopyOf(pt, t1, fr1, q1) && Moved(a, pt, t2, fr1, fr2) && Injective(t2)
    requires (forall v | v in t2 :: v in t1 || InArea(a, v)) && forall v | v in t1 :: v in t2 && t2[v] == t1[v]
    requires (forall v | v in t1 :: !InArea(a, v)) && (forall v | v in t2 :: t2[v] in q2)
    requires forall v, w | v in t2 && w in pt :: t2[v] != pt[w]
    ensures CopyOf(pt, t2, fr2, q2)
  {
    hide InArea;
    forall v | v in t2 ensures v in pt && t2[v] in fr2 && pt[v] in fr2 && fr2[t2[v]] == fr2[pt[v]] {
      if v in t1 {
        assert t2[v] == t1[v] && fr2[t1[v]] == fr1[t1[v]];
      }
    }
  }

  lemma CopyOthers(a: Area, pt: map<nat, nat>, t2: map<nat, nat>, p0: seq<nat>,
                   f0: map<nat, Page>, fr1: map<nat, Page>, fr2: map<nat, Page>)
    requires Moved(a, pt, t2, fr1, fr2) && (forall v | v in t2 :: t2[v] in p0)
    requires fr1.Keys == f0.Keys && forall f | f in fr1 && f !in p0 :: fr1[f] == f0[f]
    ensures fr2.Keys == f0.Keys && forall f | f in fr2 && f !in p0 :: fr2[f] == f0[f]
  {
    hide InArea;
  }

  lemma CopyFrame(s: seq<Area>, i: nat, pt: map<nat, nat>, nt: map<nat, nat>,
                  f0: map<nat, Page>, p0: seq<nat>, frames: map<nat, Page>, pool: seq<nat>)
    requires Copying(s, i, pt, nt, f0, p0, frames, pool)
    ensures frames.Keys == f0.Keys && forall f | f in frames && f !in p0 :: frames[f] == f0[f]
  {
  }

  lemma EdgeNext(s: seq<Area>, i: nat)
    requires i < |s| && s[i].start / PAGE < s[i].end / PAGE
    ensures EdgeOf(ListEdge(s[..i]), s[i].start / PAGE, s[i].end / PAGE) == ListEdge(s[..i + 1])
  {
  }

  lemma CopyDone(s: seq<Area>, lo: nat, hi: nat, pt: map<nat, nat>, nt: map<nat, nat>,
                 f0: map<nat, Page>, p0: seq<nat>, frames: map<nat, Page>, pool: seq<nat>)
    requires SpaceOk(s, lo, hi, pt) && Copying(s, |s|, pt, nt, f0, p0, frames, pool)
    ensures ListFrames(s) <= |p0| && s[..|s|] == s && SpaceOk(s, lo, hi, nt) && nt.Keys == pt.Keys
    ensures CopyOf(pt, nt, frames, p0[..ListFrames(s)])
    ensures frames.Keys == f0.Keys && forall f | f in frames && f !in p0 :: frames[f] == f0[f]
  {
    hide Ordered, Belongs, ListFrames;
    assert s[..|s|] == s;
  }

  lemma CopyWider(pt: map<nat, nat>, nt: map<nat, nat>, frames: map<nat, Page>, p0: seq<nat>, pool: seq<nat>)
    requires exists k :: 0 <= k <= |p0| && CopyOf(pt, nt, frames, p0[..k])
    requires forall f | f in p0 :: f in pool
    ensures CopyOf(pt, nt, frames, pool)
  {
    hide Injective;
    var k :| 0 <= k <= |p0| && CopyOf(pt, nt, frames, p0[..k]);
    forall v | v in nt ensures nt[v] in pool {
      assert nt[v] in p0[..k];
    }
  }

  class Space {
    const list: AreaList
    const pt: PageTables
    ghost var table: map<nat, nat>

    constructor (l: AreaList, tables: PageTables)
      ensures list == l && pt == tables && table == map[]
    {
      list, pt, table := l, tables, map[];
    }
  }

  class Machine {
    var frames: map<nat, Page>
    var pool: seq<nat>

    /** One turn of the loop of `vmm_vmap`: a frame for the page, then its mapping, whose tables come from the same
        supply. */
    method MapOne(n: Space, v: nat, flags: nat, ghost edge: Option<nat>) returns (ok: bool)
      requires n.pt.Valid() && n.pt.pool == pool && Mirrors(n.pt.mem, n.pt.root, n.table) && v + 1 < USER && v !in n.table
      requires EdgeAt(n.pt.mem, n.pt.root, edge) && (edge.Some? ==> edge.val <= v)
      modifies `pool, n`table, n.pt
      ensures ok <==> 1 + Tabs(edge, v, v + 1) <= |old(pool)|
      ensures ok ==> n.pt.Valid() && n.pt.pool == pool == old(pool)[1 + Tabs(edge, v, v + 1)..]
      ensures ok ==> n.table == old(n.table)[v := old(pool)[0]] && Mirrors(n.pt.mem, n.pt.root, n.table)
      ensures ok ==> EdgeAt(n.pt.mem, n.pt.root, Some(v + 1))
    {
      hide Tree, PageRange.Supply, Walk, Table, EdgeAt, Tabs, Needed, Mappable, Consecutive, WholeRange, PageRange.Refused, AllTabled, Mirrors, PageNo,
        TableEnd, LeafEnd, MapSpan, TableSpan, LeafSpan, Supplied;
      if pool == [] {
        return false;
      }
      var f := pool[0];
      ghost var m0, r0, p1 := n.pt.mem, n.pt.root, pool[1..];
      pool := pool[1..];
      SuffixSupply(n.pt.mem, n.pt.own, n.pt.pool);
      n.pt.pool := pool;
      UserPage(m0, r0, n.table, v);
      OnePage(m0, r0, |pool|, v, edge);
      var r;
      ghost var at;
      r, at := n.pt.MapPages(v * PAGE, f * PAGE, 1, flags);
      pool := n.pt.pool;
      if r != Done {
        return false;
      }
      MappedOne(m0, n.pt.mem, r0, n.table, v, f);
      EdgeMoves(m0, n.pt.mem, r0, edge, v);
      PoolLeft(m0, p1, n.pt, old(n.pt.own));
      n.table := n.table[v := f];
      assert old(pool)[1..][Tabs(edge, v, v + 1)..] == old(pool)[1 + Tabs(edge, v, v + 1)..];
      ok := true;
    }

    /** `vmm_vmap` for the pages of one area; succeeds exactly if the frames last for the pages and the missing tables. */
    method MapArea(n: Space, a: Area, ghost edge: Option<nat>) returns (ok: bool)
      requires n.pt.Valid() && n.pt.pool == pool && Mirrors(n.pt.mem, n.pt.root, n.table)
      requires a.start <= a.end && a.end / PAGE < USER && forall v | v in n.table :: !InArea(a, v)
      requires EdgeAt(n.pt.mem, n.pt.root, edge) && (edge.Some? ==> edge.val <= a.start / PAGE)
      modifies `pool, n`table, n.pt
      ensures ok <==> RangeFrames(edge, a.start / PAGE, a.end / PAGE) <= |old(pool)|
      ensures ok ==> n.pt.Valid() && n.pt.pool == pool == old(pool)[RangeFrames(edge, a.start / PAGE, a.end / PAGE)..]
      ensures ok ==> Mirrors(n.pt.mem, n.pt.root, n.table)
      ensures ok ==> EdgeAt(n.pt.mem, n.pt.root, EdgeOf(edge, a.start / PAGE, a.end / PAGE))
      ensures ok ==> MappedArea(old(n.table), n.table, a, old(pool), RangeFrames(edge, a.start / PAGE, a.end / PAGE))
    {
      hide PageTables.Valid, Mirrors, EdgeAt, Tabs, RangeFrames, Mapped, NoDup;
      ghost var first, p0, t0 := a.start / PAGE, pool, n.table;
      assert NoDup(p0) by { ValidPool(n.pt); }
      var v, last := a.start / PAGE, a.end / PAGE;
      FramesNone(edge, first);
      MappedNone(t0, first, p0[..0]);
      while v < last
        invariant first <= v <= last && RangeFrames(edge, first, v) <= |p0|
        invariant n.pt.Valid() && n.pt.pool == pool == p0[RangeFrames(edge, first, v)..]
        invariant Mirrors(n.pt.mem, n.pt.root, n.table) && EdgeAt(n.pt.mem, n.pt.root, EdgeOf(edge, first, v))
        invariant Mapped(t0, n.table, first, v, p0[..RangeFrames(edge, first, v)])
      {
        ghost var k, e, t1 := RangeFrames(edge, first, v), EdgeOf(edge, first, v), n.table;
        FramesStep(edge, first, v);
        NewPage(t0, t1, first, v, p0[..k], a);
        ok := MapOne(n, v, a.flags, e);
        if !ok {
          FramesMono(edge, first, v + 1, last);
          return;
        }
        MappedMore(t0, t1, first, v, p0, k, k + 1 + Tabs(e, v, v + 1));
        assert p0[k..][1 + Tabs(e, v, v + 1)..] == p0[k + 1 + Tabs(e, v, v + 1)..];
        v := v + 1;
      }
      ok := true;
    }

    /** The copy loop for one area: `p` is the current address space, `n` is written through a switch. */
    method CopyArea(p: Space, n: Space, a: Area)
      requires a.start % PAGE == 0 && a.end % PAGE == 0 && a.start <= a.end && a.end / PAGE < USER
      requires Mirrors(p.pt.mem, p.pt.root, p.table) && Mirrors(n.pt.mem, n.pt.root, n.table)
      requires forall v: nat | InArea(a, v) :: v in p.table && v in n.table && p.table[v] in frames && n.table[v] in frames
      requires Injective(n.table) && forall v, w | v in n.table && w in p.table :: n.table[v] != p.table[w]
      modifies `frames
      ensures Moved(a, p.table, n.table, old(frames), frames)
    {
      hide InArea, Injective, MovedTo, Mirrors, Walk;
      ghost var pt, nt, f0 := p.table, n.table, frames;
      ghost var v := a.start / PAGE;
      var size := a.end - a.start;
      var va := a.start;
      MovedStart(a, pt, nt, f0);
      while va < a.end
        invariant a.start <= va <= a.end && va == v * PAGE && frames.Keys == f0.Keys && MovedTo(a, pt, nt, f0, frames, v)
      {
        InPage(a, v);
        MovedStep(a, pt, nt, f0, frames, v);
        MirrorAt(p.pt.mem, p.pt.root, pt, v);
        MirrorAt(n.pt.mem, n.pt.root, nt, v);
        var chunk := size - (va - a.start);
        if chunk > PAGE {
          chunk := PAGE;
        }
        assert va / PAGE == v && chunk == PAGE;
        var from := Walk(p.pt.mem, p.pt.root, va / PAGE).val;
        var to := Walk(n.pt.mem, n.pt.root, va / PAGE).val;
        var buf := frames[from][..chunk];
        frames := frames[to := buf + frames[to][chunk..]];
        va := va + PAGE;
        v := v + 1;
      }
      MovedDone(a, pt, nt, f0, frames, v);
    }

    /** The loop of `mm_create`: the upper half of the kernel's root table. */
    method FillDirectory(kmem: seq<Frame>, kroot: nat) returns (d: Frame)
      requires kroot < |kmem|
      ensures forall i | 0 <= i < 512 :: d[i] == if i < 256 then ZERO else kmem[kroot][i]
    {
      d := ZeroFrame();
      for i := 256 to 512
        invariant forall j | 0 <= j < i :: d[j] == if j < 256 then ZERO else kmem[kroot][j]
      {
        d := d[i := kmem[kroot][i]];
      }
    }

    /** `mm_create`: an address space without pages, which takes one frame for its directory. */
    method Create(kmem: seq<Frame>, kroot: nat, ghost kown: map<nat, Node>, lo: nat, hi: nat) returns (n: Space)
      requires Tree(kmem, kroot, kown) && PageRange.Supply(kmem, kown, pool) && pool != [] && lo < hi < WORD
      modifies `pool
      ensures fresh(n) && fresh(n.list) && fresh(n.pt) && pool == old(pool)[1..] && n.pt.Valid() && n.pt.pool == pool
      ensures n.list.lo == lo && n.list.hi == hi && n.list.areas == [] && n.list.Valid()
      ensures n.table == map[] && Mirrors(n.pt.mem, n.pt.root, n.table) && EdgeAt(n.pt.mem, n.pt.root, None)
    {
      hide Tree, EdgeAt, Mirrors, NoUser, Child;
      RootIn(kmem, kroot, kown);
      var d := FillDirectory(kmem, kroot);
      var dir := pool[0];
      pool := pool[1..];
      NewDirectory(kmem, kroot, kown, dir, d, old(pool));
      var pt := new PageTables.Child(kmem[dir := d], kroot, kown, dir, pool);
      var l := new AreaList(lo, hi);
      n := new Space(l, pt);
      NoEdge(pt.mem, pt.root);
      NoPages(pt.mem, pt.root);
    }

    /** The first `i` areas of `p` have been copied to `c`. */
    ghost predicate CopyState(p: Space, c: Space, i: nat, f0: map<nat, Page>, p0: seq<nat>)
      reads this, p, p.list, p.pt, c, c.list, c.pt
    {
      && i <= |p.list.areas| && c.list.areas == p.list.areas[..i] && c.list.Valid()
      && Copying(p.list.areas, i, p.table, c.table, f0, p0, frames, pool)
      && c.pt.Valid() && c.pt.pool == pool && Mirrors(c.pt.mem, c.pt.root, c.table)
      && EdgeAt(c.pt.mem, c.pt.root, ListEdge(p.list.areas[..i]))
    }

    /** One turn of the loop of `mm_copy`: reserve, map and copy the next area. */
    method CopyNext(p: Space, c: Space, i: nat, ghost f0: map<nat, Page>, ghost p0: seq<nat>) returns (ok: bool)
      requires CopyState(p, c, i, f0, p0) && i < |p.list.areas| && c.list.lo == p.list.lo && c.list.hi == p.list.hi
      requires SpaceOk(p.list.areas, p.list.lo, p.list.hi, p.table) && Stock(f0, p0, p.table)
      requires Mirrors(p.pt.mem, p.pt.root, p.table) && c != p && c.list != p.list && c.pt != p.pt
      modifies `frames, `pool, c`table, c.list, c.pt
      ensures frames.Keys == f0.Keys && forall f | f in frames && f !in p0 :: frames[f] == f0[f]
      ensures if ok then CopyState(p, c, i + 1, f0, p0) else ListFrames(p.list.areas) > |p0|
    {
      hide PageTables.Valid, Ordered, Injective, NoDup, CopyOf, Belongs, Mapped, MappedArea, InArea, SpaceOk, Stock,
        Copying, Backed, Moved, Mirrors, EdgeAt, ListFrames, RangeFrames, FixedDone;
      ghost var s, pt, lo, hi := p.list.areas, p.table, p.list.lo, p.list.hi;
      var a := p.list.areas[i];
      NextArea(s, lo, hi, pt, i, c.table, f0, p0, frames, pool);
      ghost var t1, fr1, po1 := c.table, frames, pool;
      var r := c.list.Reserve(a.start, a.end - a.start, a.flags);
      Reserved(s, lo, hi, pt, i, r, c.list.areas);
      ok := MapArea(c, a, ListEdge(s[..i]));
      if !ok {
        OutOfFrames(s, i, pt, f0, p0, fr1, po1, t1);
        return;
      }
      MapStep(s, lo, hi, pt, i, t1, c.table, f0, p0, frames, po1);
      CopyArea(p, c, a);
      CopyStep(s, lo, hi, pt, i, t1, c.table, f0, p0, fr1, frames, po1, pool);
      CopyFrame(s, i + 1, pt, c.table, f0, p0, frames, pool);
      EdgeNext(s, i);
    }

    /** `mm_copy`: the same areas in the same order, the same bytes at every mapped address, and frames of its own. It
        gets through exactly if the frames last for the directory, all pages and all page tables; nothing outside the
        frame supply changes. */
    method Copy(p: Space, kmem: seq<Frame>, kroot: nat, ghost kown: map<nat, Node>) returns (ok: bool, n: Space?)
      requires SpaceOk(p.list.areas, p.list.lo, p.list.hi, p.table) && Stock(frames, pool, p.table)
      requires Mirrors(p.pt.mem, p.pt.root, p.table)
      requires Tree(kmem, kroot, kown) && PageRange.Supply(kmem, kown, pool)
      modifies `frames, `pool
      ensures frames.Keys == old(frames).Keys && (ok <==> 1 + ListFrames(p.list.areas) <= |old(pool)|)
      ensures ok ==> n != null && fresh(n) && n.list.areas == p.list.areas
      ensures ok ==> SpaceOk(n.list.areas, n.list.lo, n.list.hi, n.table) && Mirrors(n.pt.mem, n.pt.root, n.table)
      ensures ok ==> n.table.Keys == p.table.Keys && CopyOf(p.table, n.table, frames, old(pool))
      ensures forall f | f in frames && f !in old(pool) :: frames[f] == old(frames)[f]
    {
      hide PageTables.Valid, Tree, PageRange.Supply, Ordered, Injective, NoDup, CopyOf, Belongs, Mapped, MappedArea, InArea, SpaceOk, Stock,
        Copying, Backed, Moved, Mirrors, EdgeAt, ListFrames, RangeFrames;
      n := null;
      if pool == [] {
        return false, null;
      }
      ghost var s, pt, f0, p0 := p.list.areas, p.table, frames, pool[1..];
      ghost var lo, hi := p.list.lo, p.list.hi;
      Bounds(s, lo, hi, pt);
      StockRest(frames, pool, pt);
      var c := Create(kmem, kroot, kown, p.list.lo, p.list.hi);
      n := c;
      CopyStart(s, pt, f0, p0);
      var i := 0;
      while i < |p.list.areas|
        invariant i <= |s| && CopyState(p, c, i, f0, p0) && c.list.lo == lo && c.list.hi == hi
        invariant fresh(c) && fresh(c.list) && fresh(c.pt)
      {
        ok := CopyNext(p, c, i, f0, p0);
        if !ok {
          return;
        }
        i := i + 1;
      }
      ok := true;
      CopyDone(s, lo, hi, pt, c.table, f0, p0, frames, pool);
      CopyWider(pt, c.table, frames, p0, old(pool));
    }
  }
}
