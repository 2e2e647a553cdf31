/** The block algebra behind the buddy allocator: aligned power-of-two blocks of page frames,
    fully merged sets of them, and why such a set is determined by the frames it covers. */
module BuddyBlocks {
  import opened Bits

  const MM_MAX_ORDER: nat := 11

  /** A run of `Pow2(order)` frames starting at frame `pfn`. */
  datatype Block = Block(pfn: nat, order: nat) {
    function End(): nat { pfn + Pow2(order) }

    predicate Has(f: nat) { pfn <= f < End() }

    ghost predicate Ok(limit: nat) {
      order < MM_MAX_ORDER && Aligned(pfn, order) && End() <= limit
    }

    ghost predicate Disjoint(other: Block) {
      End() <= other.pfn || other.End() <= pfn
    }
  }

  /** The frame number of the other half of the enclosing block of the next order. */
  ghost function BuddyOf(b: Block): (r: nat)
  {
    XorPow2(b.pfn, b.order);
    if Bit(b.pfn, b.order) then b.pfn - Pow2(b.order) else b.pfn + Pow2(b.order)
  }

  /** The `n` frames from `lo` on. */
  ghost function Span(lo: nat, n: nat): (s: set<nat>)
    ensures forall f :: f in s <==> lo <= f < lo + n
  {
    if n == 0 then {} else Span(lo, n - 1) + {lo + n - 1}
  }

  lemma {:induction false} SpanSize(lo: nat, n: nat)
    ensures |Span(lo, n)| == n
  {
    if n > 0 {
      SpanSize(lo, n - 1);
    }
  }

  lemma SpanSplit(lo: nat, m: nat, n: nat)
    ensures Span(lo, m + n) == Span(lo, m) + Span(lo + m, n)
  {
    hide Span;
  }

  ghost function BlockFrames(b: Block): set<nat>
  {
    Span(b.pfn, Pow2(b.order))
  }

  ghost function Frames(bs: set<Block>): set<nat>
  {
    set b, f | b in bs && f in BlockFrames(b) :: f
  }

  ghost predicate AllOk(bs: set<Block>, limit: nat)
  {
    forall b :: b in bs ==> b.Ok(limit)
  }

  ghost predicate PairwiseDisjoint(bs: set<Block>)
  {
    forall a, b :: a in bs && b in bs && a != b ==> a.Disjoint(b)
  }

  /** No two buddies below the top order are both in the set. */
  ghost predicate Merged(bs: set<Block>)
  {
    forall a, b :: a in bs && b in bs && a.order == b.order && a.order < MM_MAX_ORDER - 1 ==> b.pfn != BuddyOf(a)
  }

  ghost predicate Canonical(bs: set<Block>, limit: nat)
  {
    AllOk(bs, limit) && PairwiseDisjoint(bs) && Merged(bs)
  }

  ghost predicate FullyFree(bs: set<Block>, run: Block)
  {
    forall f :: run.Has(f) ==> f in Frames(bs)
  }

  // ----- alignment -----

  lemma {:induction false} AlignedAdd(p: nat, o: nat)
    requires Aligned(p, o)
    ensures Aligned(p + Pow2(o), o)
    ensures Bit(p + Pow2(o), o) == !Bit(p, o)
  {
    if o > 0 {
      AlignedAdd(p / 2, o - 1);
      assert (p + Pow2(o)) / 2 == p / 2 + Pow2(o - 1);
    }
  }

  lemma {:induction false} AlignedSub(p: nat, o: nat)
    requires Aligned(p, o) && Bit(p, o)
    ensures p >= Pow2(o) && Aligned(p - Pow2(o), o) && !Bit(p - Pow2(o), o)
  {
    if o > 0 {
      AlignedSub(p / 2, o - 1);
      assert (p - Pow2(o)) / 2 == p / 2 - Pow2(o - 1);
    }
  }

  lemma {:induction false} AlignedUp(p: nat, o: nat)
    ensures Aligned(p, o + 1) <==> Aligned(p, o) && !Bit(p, o)
  {
    if o > 0 {
      AlignedUp(p / 2, o - 1);
    }
  }

  lemma {:induction false} AlignedDown(p: nat, low: nat, high: nat)
    requires Aligned(p, high) && low <= high
    ensures Aligned(p, low)
    ensures low < high ==> !Bit(p, low)
    decreases high - low
  {
    if low < high {
      if low + 1 < high {
        AlignedDown(p, low + 1, high);
      }
      AlignedUp(p, low);
    }
  }

  lemma {:induction false} PowMono(a: nat, b: nat)
    requires a <= b
    ensures Pow2(a) <= Pow2(b)
  {
    if a < b {
      PowMono(a, b - 1);
    }
  }

  /** Aligned blocks are either disjoint or nested. */
  lemma {:induction false} Nested(p: nat, o: nat, q: nat, k: nat)
    requires Aligned(p, o) && Aligned(q, k) && o <= k
    requires !Block(p, o).Disjoint(Block(q, k))
    ensures q <= p && p + Pow2(o) <= q + Pow2(k)
  {
    if o > 0 {
      Nested(p / 2, o - 1, q / 2, k - 1);
    }
  }

  /** A block and its buddy are the two halves of a block one order up. */
  lemma BuddyMerge(b: Block)
    requires Aligned(b.pfn, b.order)
    ensures BuddyOf(Block(BuddyOf(b), b.order)) == b.pfn
    ensures Aligned(BuddyOf(b), b.order)
    ensures var m := if Bit(b.pfn, b.order) then BuddyOf(b) else b.pfn;
            Aligned(m, b.order + 1) && m + Pow2(b.order) == (if Bit(b.pfn, b.order) then b.pfn else BuddyOf(b))
  {
    if Bit(b.pfn, b.order) {
      AlignedSub(b.pfn, b.order);
      AlignedUp(b.pfn - Pow2(b.order), b.order);
    } else {
      AlignedAdd(b.pfn, b.order);
      AlignedUp(b.pfn, b.order);
    }
  }

  // ----- coverage: where completeness of allocation comes from -----

  /** In a canonical set every aligned fully free run lies inside one single block. */
  lemma {:induction false} RunInOneBlock(bs: set<Block>, limit: nat, run: Block) returns (c: Block)
    requires Canonical(bs, limit)
    requires run.order < MM_MAX_ORDER && Aligned(run.pfn, run.order) && FullyFree(bs, run)
    ensures c in bs && c.pfn <= run.pfn && run.End() <= c.End() && run.order <= c.order
    decreases run.order
  {
    assert run.Has(run.pfn);
    if run.order == 0 {
      c :| c in bs && run.pfn in BlockFrames(c);
    } else {
      var o := run.order - 1;
      var lo, hi := Block(run.pfn, o), Block(run.pfn + Pow2(o), o);
      AlignedDown(run.pfn, o, o + 1);
      AlignedAdd(run.pfn, o);
      forall f | lo.Has(f) ensures f in Frames(bs) { assert run.Has(f); }
      forall f | hi.Has(f) ensures f in Frames(bs) { assert run.Has(f); }
      var c1 := RunInOneBlock(bs, limit, lo);
      var c2 := RunInOneBlock(bs, limit, hi);
      if c1.order > o {
        Nested(run.pfn, o + 1, c1.pfn, c1.order);
        c := c1;
      } else if c2.order > o {
        Nested(run.pfn, o + 1, c2.pfn, c2.order);
        c := c2;
      } else {
        // both halves would be unmerged buddies
        assert false;
      }
    }
  }

  lemma FullyFreeBlock(bs: set<Block>, b: Block)
    requires b in bs
    ensures FullyFree(bs, b)
  {
    forall f | b.Has(f) ensures f in Frames(bs) { assert f in BlockFrames(b); }
  }

  lemma {:induction false} EqualBlocks(a: Block, b: Block)
    requires a.pfn <= b.pfn && b.End() <= a.End() && a.order <= b.order
    ensures a == b
  {
    if a.order < b.order {
      PowMono(a.order + 1, b.order);
    }
  }

  lemma CanonicalSubset(x: set<Block>, y: set<Block>, limit: nat)
    requires Canonical(x, limit) && Canonical(y, limit) && Frames(x) == Frames(y)
    ensures x <= y
  {
    forall a | a in x ensures a in y {
      FullyFreeBlock(x, a);
      var b := RunInOneBlock(y, limit, a);
      FullyFreeBlock(y, b);
      var c := RunInOneBlock(x, limit, b);
      assert !a.Disjoint(c);
      EqualBlocks(b, a);
    }
  }

  /** The fully merged block set is a function of the set of free frames. */
  lemma CanonicalUnique(x: set<Block>, y: set<Block>, limit: nat)
    requires Canonical(x, limit) && Canonical(y, limit) && Frames(x) == Frames(y)
    ensures x == y
  {
    CanonicalSubset(x, y, limit);
    CanonicalSubset(y, x, limit);
  }

  // ----- counting frames -----

  lemma FramesAddSets(bs: set<Block>, b: Block)
    ensures Frames(bs + {b}) == Frames(bs) + BlockFrames(b)
  {
    forall f | f in Frames(bs) ensures f in Frames(bs + {b}) {
      var x :| x in bs && f in BlockFrames(x);
      assert x in bs + {b};
    }
    forall f | f in BlockFrames(b) ensures f in Frames(bs + {b}) {
      assert b in bs + {b};
    }
  }

  /** Adding a block disjoint from the others adds its frames and nothing else. */
  lemma FramesAdd(bs: set<Block>, b: Block)
    requires forall x :: x in bs ==> x.Disjoint(b)
    ensures Frames(bs + {b}) == Frames(bs) + BlockFrames(b)
    ensures Frames(bs) !! BlockFrames(b)
    ensures |Frames(bs + {b})| == |Frames(bs)| + Pow2(b.order)
  {
    FramesAddSets(bs, b);
    forall f | f in Frames(bs) ensures f !in BlockFrames(b) {
      var x :| x in bs && f in BlockFrames(x);
      assert x.Disjoint(b);
    }
    var u, v := Frames(bs), BlockFrames(b);
    SpanSize(b.pfn, Pow2(b.order));
    assert |u + v| == |u| + |v|;
  }

  lemma DisjointFrames(a: Block, b: Block)
    requires BlockFrames(a) !! BlockFrames(b)
    ensures a.Disjoint(b)
  {
    assert a.pfn in BlockFrames(a) && b.pfn in BlockFrames(b);
  }

  lemma InOwnFrames(b: Block)
    ensures b.pfn in BlockFrames(b)
  {
  }

  lemma BlockInFrames(bs: set<Block>, b: Block)
    requires b in bs
    ensures BlockFrames(b) <= Frames(bs)
  {
  }

  // ----- one coalescing step, and the last one -----

  /** The block one order up that holds `c` and its buddy. */
  ghost function Union(c: Block): Block
    requires Aligned(c.pfn, c.order)
  {
    BuddyMerge(c);
    Block(if Bit(c.pfn, c.order) then BuddyOf(c) else c.pfn, c.order + 1)
  }

  ghost predicate Beside(free: set<Block>, c: Block)
  {
    forall x :: x in free ==> x.Disjoint(c)
  }

  lemma HalfFrames(p: nat, o: nat)
    ensures BlockFrames(Block(p, o + 1)) == BlockFrames(Block(p, o)) + BlockFrames(Block(p + Pow2(o), o))
  {
    assert Pow2(o + 1) == Pow2(o) + Pow2(o);
    SpanSplit(p, Pow2(o), Pow2(o));
  }

  lemma UnionFrames(c: Block, d: Block)
    requires Aligned(c.pfn, c.order) && d == Block(BuddyOf(c), c.order)
    ensures BlockFrames(Union(c)) == BlockFrames(c) + BlockFrames(d)
  {
    BuddyMerge(c);
    HalfFrames(Union(c).pfn, c.order);
    hide BlockFrames;
    if Bit(c.pfn, c.order) {
      assert BlockFrames(c) + BlockFrames(d) == BlockFrames(d) + BlockFrames(c);
    }
  }

  lemma UnionBeside(free: set<Block>, c: Block, d: Block, limit: nat)
    requires AllOk(free, limit) && PairwiseDisjoint(free) && Beside(free, c)
    requires c.Ok(limit) && c.order < MM_MAX_ORDER - 1 && d == Block(BuddyOf(c), c.order) && d in free
    ensures Union(c).Ok(limit)
    ensures Beside(free - {d}, Union(c))
  {
    BuddyMerge(c);
    hide BuddyOf, Aligned;
    var u, rest := Union(c), free - {d};
    assert u.End() == u.pfn + 2 * Pow2(c.order);
    forall x | x in rest ensures x.Disjoint(u) {
      assert x.Disjoint(c) && x.Disjoint(d);
    }
  }

  lemma MergeStep(free: set<Block>, c: Block, d: Block, limit: nat)
    requires Canonical(free, limit) && Beside(free, c)
    requires c.Ok(limit) && c.order < MM_MAX_ORDER - 1 && d == Block(BuddyOf(c), c.order) && d in free
    ensures Union(c).Ok(limit)
    ensures Beside(free - {d}, Union(c))
    ensures Frames(free - {d}) + BlockFrames(Union(c)) == Frames(free) + BlockFrames(c)
  {
    UnionBeside(free, c, d, limit);
    UnionFrames(c, d);
    hide Frames, BlockFrames, Aligned, Union, BuddyOf, Beside, PairwiseDisjoint, AllOk;
    var rest := free - {d};
    assert free == rest + {d};
    FramesAddSets(rest, d);
  }

  /** `page_idx & buddy_idx` is the head of the merged block. */
  lemma UnionHead(c: Block)
    requires Aligned(c.pfn, c.order)
    ensures Block(And(c.pfn, Xor(c.pfn, Pow2(c.order))), c.order + 1) == Union(c)
  {
    AndXorPow2(c.pfn, c.order);
  }

  lemma MergedAdd(free: set<Block>, c: Block)
    requires Merged(free) && forall x :: x in free ==> Aligned(x.pfn, x.order)
    requires Aligned(c.pfn, c.order)
    requires c.order < MM_MAX_ORDER - 1 ==> Block(BuddyOf(c), c.order) !in free
    ensures Merged(free + {c})
  {
    BuddyMerge(c);
    var s := free + {c};
    forall a, b | a in s && b in s && a.order == b.order && a.order < MM_MAX_ORDER - 1 ensures b.pfn != BuddyOf(a) {
      BuddyMerge(a);
      if a in free && b == c {
        assert b.pfn == BuddyOf(a) ==> a == Block(BuddyOf(c), c.order);
      } else if a == c && b in free {
        assert b == Block(b.pfn, c.order);
      }
    }
  }

  /** Once the buddy of `c` is not free, adding `c` keeps the set canonical. */
  lemma MergeDone(free: set<Block>, c: Block, limit: nat)
    requires Canonical(free, limit) && Beside(free, c) && c.Ok(limit)
    requires c.order < MM_MAX_ORDER - 1 ==> Block(BuddyOf(c), c.order) !in free
    ensures Canonical(free + {c}, limit)
    ensures Frames(free + {c}) == Frames(free) + BlockFrames(c)
  {
    hide Frames, BlockFrames, Aligned, BuddyOf, Merged;
    FramesAddSets(free, c);
    MergedAdd(free, c);
  }

  // ----- splitting -----

  lemma Halves(page: nat, o: nat, limit: nat)
    requires Block(page, o + 1).Ok(limit)
    ensures Block(page, o).Ok(limit) && Block(page + Pow2(o), o).Ok(limit)
    ensures BuddyOf(Block(page + Pow2(o), o)) == page
    ensures forall x: Block :: x.Disjoint(Block(page, o + 1)) ==>
              x.Disjoint(Block(page, o)) && x.Disjoint(Block(page + Pow2(o), o))
    ensures Block(page + Pow2(o), o).Disjoint(Block(page, o))
    ensures BlockFrames(Block(page, o + 1)) == BlockFrames(Block(page, o)) + BlockFrames(Block(page + Pow2(o), o))
  {
    AlignedDown(page, o, o + 1);
    AlignedAdd(page, o);
    assert Block(page, o + 1).End() == page + 2 * Pow2(o);
    forall x: Block | x.Disjoint(Block(page, o + 1))
      ensures x.Disjoint(Block(page, o)) && x.Disjoint(Block(page + Pow2(o), o))
    {
      assert Block(page, o).End() == page + Pow2(o) && Block(page + Pow2(o), o).End() == Block(page, o + 1).End();
    }
    HalfFrames(page, o);
  }

  /** Giving back the upper half of the block in hand keeps the set canonical. */
  lemma SplitStep(free: set<Block>, page: nat, o: nat, h: Block, limit: nat)
    requires Canonical(free, limit) && Block(page, o + 1).Ok(limit) && Beside(free, Block(page, o + 1))
    requires h == Block(page + Pow2(o), o)
    ensures h.Ok(limit) && Block(page, o).Ok(limit)
    ensures Beside(free, h) && Beside(free + {h}, Block(page, o))
    ensures Canonical(free + {h}, limit)
    ensures Frames(free + {h}) == Frames(free) + BlockFrames(h)
  {
    hide Frames, BlockFrames, Aligned, BuddyOf, Canonical;
    Halves(page, o, limit);
    assert Block(page, o) !in free;
    MergeDone(free, h, limit);
  }

  lemma CanonicalRemove(free: set<Block>, b: Block, limit: nat)
    requires Canonical(free, limit)
    ensures Canonical(free - {b}, limit)
  {
  }
}
