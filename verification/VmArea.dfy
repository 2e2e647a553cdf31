/** The vm-area lists of kernel/src/mm/vmalloc.c. */
module VmArea {
  import opened Base

  const WORD: nat := 0x1_0000_0000_0000_0000

  datatype Area = Area(start: nat, end: nat, flags: nat)

  predicate Inside(a: Area, lo: nat, hi: nat) { lo <= a.start < a.end < hi }

  predicate Overlap(a: Area, b: Area) { a.start < b.end && b.start < a.end }

  /** In the window, in address order, and disjoint. */
  predicate Ordered(s: seq<Area>, lo: nat, hi: nat)
  {
    && (forall i | 0 <= i < |s| :: Inside(s[i], lo, hi))
    && (forall i, j | 0 <= i < j < |s| :: s[i].end <= s[j].start)
  }

  predicate Disjoint(s: seq<Area>)
  {
    && (forall i | 0 <= i < |s| :: s[i].start < s[i].end)
    && (forall i, j | 0 <= i < j < |s| :: !Overlap(s[i], s[j]))
  }

  // ----- requests for a fixed address -----

  /** The test that refuses a fixed request `[a, b)` because of area `x`. */
  predicate Refused(x: Area, a: nat, b: nat)
  {
    (x.start <= a && x.end > a) || (x.start < b && x.end >= b) || (a >= x.start && b <= x.end)
  }

  predicate Encloses(a: nat, b: nat, x: Area) { a < x.start && x.end < b }

  /** The test sees every overlap except that of a request with an area strictly inside it. */
  lemma RefusedMeans(x: Area, a: nat, b: nat)
    requires x.start < x.end && a < b
    ensures Refused(x, a, b) <==> Overlap(x, Area(a, b, 0)) && !Encloses(a, b, x)
  {
  }

  /** Where the tail of the list ends. */
  function Tail(s: seq<Area>, lo: nat): nat { if s == [] then lo else s[|s| - 1].end }

  // ----- requests that leave the address to the kernel -----

  /** The first position whose gap to the next area holds `size`, or the last position. */
  function Gap(s: seq<Area>, size: nat): (i: nat)
    requires s != []
    ensures i < |s|
    ensures i + 1 < |s| ==> s[i].end + size <= s[i + 1].start
    ensures forall j | 0 <= j < i :: !(s[j].end + size <= s[j + 1].start)
  {
    if |s| == 1 || s[0].end + size <= s[1].start then 0 else
      var r := Gap(s[1..], size);
      assert forall j | 0 < j < r + 1 :: s[j] == s[1..][j - 1] && s[j + 1] == s[1..][j];
      1 + r
  }

  function Insert(s: seq<Area>, i: nat, a: Area): seq<Area>
    requires i <= |s|
  {
    s[..i] + [a] + s[i..]
  }

  lemma InsertOrdered(s: seq<Area>, lo: nat, hi: nat, i: nat, a: Area)
    requires Ordered(s, lo, hi) && i <= |s| && Inside(a, lo, hi)
    requires i > 0 ==> s[i - 1].end <= a.start
    requires i < |s| ==> a.end <= s[i].start
    ensures Ordered(Insert(s, i, a), lo, hi)
  {
    hide Insert, Inside;
    var t := Insert(s, i, a);
    InsertLen(s, i, a);
    assert a.start < a.end by { Wide(a, lo, hi); }
    forall j | 0 <= j < |t| ensures Inside(t[j], lo, hi) {
      InsertAt(s, i, a, j);
    }
    forall j, k | 0 <= j < k < |t| ensures t[j].end <= t[k].start {
      InsertAt(s, i, a, j);
      InsertAt(s, i, a, k);
      if k == i {
        Ends(s, lo, hi, j, i - 1);
      } else if j == i {
        Starts(s, lo, hi, i, k - 1);
      }
    }
  }

  lemma InsertLen(s: seq<Area>, i: nat, a: Area)
    requires i <= |s|
    ensures |Insert(s, i, a)| == |s| + 1
  {
  }

  lemma Wide(a: Area, lo: nat, hi: nat)
    requires Inside(a, lo, hi)
    ensures a.start < a.end
  {
  }

  lemma InsertAt(s: seq<Area>, i: nat, a: Area, j: nat)
    requires i <= |s| && j <= |s|
    ensures Insert(s, i, a)[j] == if j < i then s[j] else if j == i then a else s[j - 1]
  {
  }

  lemma Ends(s: seq<Area>, lo: nat, hi: nat, i: nat, j: nat)
    requires Ordered(s, lo, hi) && i <= j < |s|
    ensures s[i].end <= s[j].end
  {
    assert Inside(s[j], lo, hi);
  }

  lemma Starts(s: seq<Area>, lo: nat, hi: nat, i: nat, j: nat)
    requires Ordered(s, lo, hi) && i <= j < |s|
    ensures s[i].start <= s[j].start
  {
    assert Inside(s[i], lo, hi);
  }

  const PAGE: nat := 4096

  /** `PAGE_ALIGN_UP_IF`. */
  function RoundUp(n: nat): (r: nat)
    ensures r % PAGE == 0 && n <= r < n + PAGE
  {
    if n % PAGE != 0 then n - n % PAGE + PAGE else n
  }

  /** The position in the list of an area for an open request, and its start. */
  function Slot(s: seq<Area>, size: nat): (k: nat)
    ensures k <= |s| && (s != [] ==> k > 0)
  {
    if s == [] then 0 else Gap(s, size) + 1
  }

  function From(s: seq<Area>, lo: nat, k: nat): nat
    requires k <= |s|
  {
    if k == 0 then lo else s[k - 1].end
  }

  /** Where the area of an open request starts and ends. */
  function OpenStart(s: seq<Area>, lo: nat, size: nat): nat { From(s, lo, Slot(s, size)) }

  function OpenEnd(s: seq<Area>, lo: nat, size: nat): nat { (From(s, lo, Slot(s, size)) + size) % WORD }

  /** There is a gap for the area, or it ends below the end of the window. */
  predicate OpenFits(s: seq<Area>, lo: nat, hi: nat, size: nat) { Slot(s, size) < |s| || OpenEnd(s, lo, size) < hi }

  lemma RoundedUp(size: nat)
    ensures size <= WORD - PAGE ==> RoundUp(size) % WORD == RoundUp(size)
    ensures size > 0xf000 <==> RoundUp(size) >= 0x1_0000
  {
  }

  lemma GapIs(s: seq<Area>, size: nat, i: nat)
    requires i < |s| && (forall j | 0 <= j < i :: !(s[j].end + size <= s[j + 1].start))
    requires i + 1 < |s| ==> s[i].end + size <= s[i + 1].start
    ensures Gap(s, size) == i
  {
  }

  lemma InsertEmpty(a: Area)
    ensures Insert([], 0, a) == [] + [a]
  {
  }

  lemma InOrder(s: seq<Area>, lo: nat, hi: nat, i: nat)
    requires Ordered(s, lo, hi) && i + 1 < |s|
    ensures s[i].end <= s[i + 1].start < hi
  {
    assert Inside(s[i + 1], lo, hi);
  }

  function Removed(s: seq<Area>, i: nat): seq<Area>
    requires i < |s|
  {
    s[..i] + s[i + 1..]
  }

  /** Position `k` and address `a` are the first place for `size` bytes: behind an area and in front of the next one with
      too little room before that, or behind the last area, or the start of the window if there is no area. */
  predicate FirstGap(s: seq<Area>, lo: nat, size: nat, k: nat, a: nat)
  {
    && k <= |s| && (if s == [] then a == lo else k > 0 && a == s[k - 1].end)
    && (forall j | 0 < j < k :: s[j].start < s[j - 1].end + size)
    && (k < |s| ==> a + size <= s[k].start)
  }

  /** `t` is `s` with `a` put in at position `k`. */
  predicate PutAt(s: seq<Area>, t: seq<Area>, k: nat, a: Area)
  {
    && k <= |s| && |t| == |s| + 1 && t[k] == a
    && (forall j | 0 <= j < k :: t[j] == s[j]) && (forall j | k < j < |t| :: t[j] == s[j - 1])
  }

  /** `t` is `s` without the area at position `i`. */
  predicate TakenOut(s: seq<Area>, t: seq<Area>, i: nat)
  {
    && i < |s| && |t| == |s| - 1
    && (forall j | 0 <= j < i :: t[j] == s[j]) && (forall j | i <= j < |t| :: t[j] == s[j + 1])
  }

  lemma SlotIsFirst(s: seq<Area>, lo: nat, size: nat)
    ensures FirstGap(s, lo, size, Slot(s, size), From(s, lo, Slot(s, size)))
  {
    hide Gap;
    var k := Slot(s, size);
    forall j | 0 < j < k ensures s[j].start < s[j - 1].end + size {
      assert !(s[j - 1].end + size <= s[j - 1 + 1].start);
    }
  }

  lemma InsertPuts(s: seq<Area>, k: nat, a: Area)
    requires k <= |s|
    ensures PutAt(s, Insert(s, k, a), k, a)
  {
  }

  lemma RemovedTakes(s: seq<Area>, i: nat)
    requires i < |s|
    ensures TakenOut(s, Removed(s, i), i)
  {
  }

  /** List `s` before and `t` after an open request. */
  predicate Placed(s: seq<Area>, lo: nat, hi: nat, size: nat, flags: nat, r: Option<Area>, t: seq<Area>)
  {
    var k := Slot(s, size);
    var a := From(s, lo, k);
    var e := (a + size) % WORD;
    && (r.None? <==> k == |s| && e >= hi)
    && FirstGap(s, lo, size, k, a)
    && (if r.None? then t == s else r.val == Area(a, e, flags) && PutAt(s, t, k, r.val))
    && (Ordered(t, lo, hi) <==> r.None? || (size > 0 && (k < |s| || a + size < WORD)))
  }

  /** The first kernel request, if it is for 2 TiB: its end wraps to 0, and it is accepted. */
  lemma WrapAccepted(flags: nat, r: Option<Area>, t: seq<Area>)
    requires Placed([], 0xffff_fe00_0000_0000, 0xffff_feff_ffff_ffff, 0x200_0000_0000, flags, r, t)
    ensures r == Some(Area(0xffff_fe00_0000_0000, 0, flags)) && t == [r.val]
    ensures !Ordered(t, 0xffff_fe00_0000_0000, 0xffff_feff_ffff_ffff)
  {
  }

  /** What becomes of the order when the area of an open request is put in. */
  lemma PlaceOk(s: seq<Area>, lo: nat, hi: nat, size: nat, flags: nat)
    requires Ordered(s, lo, hi) && lo < hi < WORD && size < WORD
    ensures var k := Slot(s, size); var a := From(s, lo, k); var e := (a + size) % WORD;
      && (k < |s| ==> e == a + size <= s[k].start)
      && if k < |s| || e < hi then Placed(s, lo, hi, size, flags, Some(Area(a, e, flags)), Insert(s, k, Area(a, e, flags)))
         else Placed(s, lo, hi, size, flags, None, s)
  {
    hide Ordered, Insert, FirstGap, PutAt;
    var k := Slot(s, size);
    var a := From(s, lo, k);
    var e := (a + size) % WORD;
    SlotIsFirst(s, lo, size);
    InsertPuts(s, k, Area(a, e, flags));
    FromInside(s, lo, hi, k);
    if k < |s| {
      SlotFits(s, lo, hi, size);
    }
    if size > 0 && (k < |s| || (e < hi && a + size < WORD)) {
      InsertOrdered(s, lo, hi, k, Area(a, e, flags));
    } else if k < |s| || e < hi {
      assert e == if size == 0 then a else a + size - WORD;
      InsertAt(s, k, Area(a, e, flags), k);
      InsertLen(s, k, Area(a, e, flags));
      NotInside(Insert(s, k, Area(a, e, flags)), lo, hi, k);
    }
  }

  lemma NotInside(s: seq<Area>, lo: nat, hi: nat, k: nat)
    requires k < |s| && s[k].end <= s[k].start
    ensures !Ordered(s, lo, hi)
  {
    assert !Inside(s[k], lo, hi);
  }

  lemma FromInside(s: seq<Area>, lo: nat, hi: nat, k: nat)
    requires Ordered(s, lo, hi) && k <= |s| && lo < hi
    ensures lo <= From(s, lo, k) < hi
  {
    if k > 0 {
      assert Inside(s[k - 1], lo, hi);
    }
  }

  lemma SlotFits(s: seq<Area>, lo: nat, hi: nat, size: nat)
    requires Ordered(s, lo, hi) && Slot(s, size) < |s|
    ensures var k := Slot(s, size); k > 0 && From(s, lo, k) + size <= s[k].start < hi
  {
    var k := Slot(s, size);
    assert Inside(s[k], lo, hi);
  }

  lemma RemovedOrdered(s: seq<Area>, lo: nat, hi: nat, i: nat)
    requires Ordered(s, lo, hi) && i < |s|
    ensures Ordered(Removed(s, i), lo, hi) && s[i] !in Removed(s, i)
  {
    var t := Removed(s, i);
    forall j | 0 <= j < |t| ensures Inside(t[j], lo, hi) && t[j] != s[i] {
      var k := if j < i then j else j + 1;
      assert t[j] == s[k] && Inside(s[k], lo, hi) && Inside(s[i], lo, hi);
    }
    forall j, k | 0 <= j < k < |t| ensures t[j].end <= t[k].start {
      assert t[j] == s[if j < i then j else j + 1] && t[k] == s[if k < i then k else k + 1];
    }
  }

  lemma MissIs(x: Area, a: nat, b: nat)
    requires !((x.start <= a && x.end > a) || (x.start < b && x.end >= b) || (a >= x.start && b <= x.end))
    ensures !Refused(x, a, b)
  {
  }

  lemma HitIs(s: seq<Area>, a: nat, b: nat, i: nat)
    requires i < |s|
    requires var x := s[i]; (x.start <= a && x.end > a) || (x.start < b && x.end >= b) || (a >= x.start && b <= x.end)
    ensures Refused(s[i], a, b)
  {
  }

  /** Nothing is in the way of a request behind the last area. */
  lemma PastTail(s: seq<Area>, lo: nat, hi: nat, a: nat, b: nat)
    requires a < b
    ensures Ordered(s, lo, hi) && a >= Tail(s, lo) ==> forall i | 0 <= i < |s| :: !Refused(s[i], a, b)
  {
    if Ordered(s, lo, hi) && a >= Tail(s, lo) {
      forall i | 0 <= i < |s| ensures !Refused(s[i], a, b) {
        Ends(s, lo, hi, i, |s| - 1);
        assert Inside(s[i], lo, hi);
      }
    }
  }

  /** List `s` before and `t` after a request for the fixed range from `a` to `b`: refused by the window end or by an area,
      else put at the end, whatever the order. A disjoint list stays disjoint exactly if the range is not empty or wrapped
      and no area lies strictly inside it. Behind the last area the order is kept exactly if the range did not wrap. */
  predicate FixedDone(s: seq<Area>, lo: nat, hi: nat, a: nat, b: nat, flags: nat, r: Option<Area>, t: seq<Area>)
  {
    && (r.Some? <==> b < hi && forall i | 0 <= i < |s| :: !Refused(s[i], a, b))
    && (if r.None? then t == s else r.val == Area(a, b, flags) && t == s + [r.val])
    && (r.Some? && Disjoint(s) ==> (Disjoint(t) <==> a < b && forall i | 0 <= i < |s| :: !Encloses(a, b, s[i])))
    && (Ordered(s, lo, hi) && a >= Tail(s, lo) ==> (Ordered(t, lo, hi) <==> r.None? || a < b))
    && (Ordered(s, lo, hi) && Tail(s, lo) <= a < b ==> (r.Some? <==> b < hi))
  }

  lemma FixedNo(s: seq<Area>, lo: nat, hi: nat, a: nat, b: nat, flags: nat)
    requires b >= hi || exists i :: 0 <= i < |s| && Refused(s[i], a, b)
    ensures FixedDone(s, lo, hi, a, b, flags, None, s)
  {
    hide Refused, Ordered, Disjoint, Tail, Encloses;
    if a < b {
      PastTail(s, lo, hi, a, b);
    }
  }

  lemma FixedYes(s: seq<Area>, lo: nat, hi: nat, a: nat, b: nat, flags: nat)
    requires b < hi && forall i | 0 <= i < |s| :: !Refused(s[i], a, b)
    ensures FixedDone(s, lo, hi, a, b, flags, Some(Area(a, b, flags)), s + [Area(a, b, flags)])
  {
    hide Refused, Ordered, Disjoint, Tail, Encloses;
    var x := Area(a, b, flags);
    if a < b {
      AppendDisjoint(s, x);
      AppendOrdered(s, lo, hi, x);
    } else {
      NotInside(s + [x], lo, hi, |s|);
      NotDisjoint(s + [x], |s|);
    }
  }

  /** A request for 0x1f000 to 0x23000 over an area from 0x20000 to 0x21000 is accepted and overlaps it. */
  lemma EnclosingAccepted(flags: nat, r: Option<Area>, t: seq<Area>)
    requires FixedDone([Area(0x2_0000, 0x2_1000, flags)], 0x1_0000, 0x7fff_ffff_ffff, 0x1_f000, 0x2_3000, flags, r, t)
    ensures r == Some(Area(0x1_f000, 0x2_3000, flags)) && |t| == 2 && Overlap(t[0], t[1]) && !Disjoint(t)
  {
    var s := [Area(0x2_0000, 0x2_1000, flags)];
    assert !Refused(s[0], 0x1_f000, 0x2_3000);
    assert t[0] == s[0] && t[1] == r.val;
  }

  lemma NotDisjoint(s: seq<Area>, k: nat)
    requires k < |s| && s[k].end <= s[k].start
    ensures !Disjoint(s)
  {
  }

  lemma AppendDisjoint(s: seq<Area>, a: Area)
    requires a.start < a.end && forall i | 0 <= i < |s| :: !Refused(s[i], a.start, a.end)
    ensures Disjoint(s) ==> (Disjoint(s + [a]) <==> forall i | 0 <= i < |s| :: !Encloses(a.start, a.end, s[i]))
  {
    hide Refused, Overlap, Encloses;
    var t := s + [a];
    if Disjoint(s) {
      forall i | 0 <= i < |s| ensures Overlap(s[i], a) <==> Encloses(a.start, a.end, s[i]) {
        RefusedMeans(s[i], a.start, a.end);
        OverlapSame(s[i], a);
      }
      forall i | 0 <= i < |s| ensures t[i] == s[i] {
      }
      if Disjoint(t) {
        forall i | 0 <= i < |s| ensures !Encloses(a.start, a.end, s[i]) {
          assert !Overlap(t[i], t[|s|]);
        }
      }
    }
  }

  lemma OverlapSame(x: Area, a: Area)
    ensures Overlap(x, Area(a.start, a.end, 0)) <==> Overlap(x, a)
    ensures Encloses(a.start, a.end, x) && x.start < x.end ==> Overlap(x, a)
  {
  }

  lemma AppendOrdered(s: seq<Area>, lo: nat, hi: nat, a: Area)
    requires a.start < a.end < hi
    ensures Ordered(s, lo, hi) && a.start >= Tail(s, lo) ==> Ordered(s + [a], lo, hi)
  {
    if Ordered(s, lo, hi) && a.start >= Tail(s, lo) {
      assert s != [] ==> Inside(s[|s| - 1], lo, hi);
      InsertOrdered(s, lo, hi, |s|, a);
      assert Insert(s, |s|, a) == s + [a];
    }
  }

  class AreaList {
    const lo: nat
    const hi: nat
    var areas: seq<Area>

    constructor (start: nat, end: nat)
      requires start < end < WORD
      ensures lo == start && hi == end && areas == [] && Valid()
    {
      lo, hi, areas := start, end, [];
    }

    predicate Valid()
      reads this
    {
      lo < hi < WORD && Ordered(areas, lo, hi)
    }

    /** `mm_find_vm_area` with an address. The list need not be in order; the end of the range is computed in 64 bits. */
    method FindFixed(ptr: nat, size: nat, flags: nat) returns (r: Option<Area>)
      requires lo < hi < WORD && ptr < WORD && size < WORD
      modifies `areas
      ensures FixedDone(old(areas), lo, hi, ptr, (ptr + size) % WORD, flags, r, areas)
    {
      hide Refused, FixedDone;
      var a, b := ptr, (ptr + size) % WORD;
      if b >= hi {
        FixedNo(areas, lo, hi, a, b, flags);
        return None;
      }
      var i := 0;
      while i < |areas|
        invariant i <= |areas| && areas == old(areas)
        invariant forall j | 0 <= j < i :: !Refused(areas[j], a, b)
      {
        var x := areas[i];
        if (x.start <= a && x.end > a) || (x.start < b && x.end >= b) || (a >= x.start && b <= x.end) {
          HitIs(areas, a, b, i);
          FixedNo(areas, lo, hi, a, b, flags);
          return None;
        }
        MissIs(x, a, b);
        i := i + 1;
      }
      FixedYes(areas, lo, hi, a, b, flags);
      var entry := Area(a, b, flags);
      areas := areas + [entry];
      return Some(entry);
    }

    /** `mm_find_vm_area` without an address: the first gap behind an area that is large enough, else behind the last
        area; an empty list gets the start of the window. The list stays in order exactly if the end of an area behind
        the last one does not wrap around. */
    method FindSpace(size: nat, flags: nat) returns (r: Option<Area>)
      requires Valid() && size < WORD
      modifies `areas
      ensures Placed(old(areas), lo, hi, size, flags, r, areas)
    {
      hide Ordered, Gap, Insert, Placed;
      PlaceOk(areas, lo, hi, size, flags);
      if areas == [] {
        var start := lo;
        var end := (lo + size) % WORD;
        if end >= hi {
          return None;
        }
        var entry := Area(start, end, flags);
        InsertEmpty(entry);
        areas := areas + [entry];
        return Some(entry);
      }
      var i := 0;
      while i + 1 < |areas|
        invariant i < |areas| && areas == old(areas)
        invariant forall j | 0 <= j < i :: !(areas[j].end + size <= areas[j + 1].start)
      {
        InOrder(areas, lo, hi, i);
        if areas[i + 1].start - areas[i].end >= size {
          GapIs(areas, size, i);
          var start := areas[i].end;
          var end := (areas[i].end + size) % WORD;
          if end > areas[i + 1].start {
            return None;
          }
          var entry := Area(start, end, flags);
          areas := Insert(areas, i + 1, entry);
          return Some(entry);
        }
        i := i + 1;
      }
      GapIs(areas, size, i);
      var start := areas[i].end;
      var end := (areas[i].end + size) % WORD;
      if end >= hi {
        return None;
      }
      var entry := Area(start, end, flags);
      areas := Insert(areas, i + 1, entry);
      return Some(entry);
    }

    /** `mm_get_vm_area`: the area that starts at `ptr` leaves the list. */
    method GetArea(ptr: nat) returns (r: Option<Area>)
      requires Valid()
      modifies `areas
      ensures Valid()
      ensures r.None? ==> areas == old(areas) && forall a | a in areas :: a.start != ptr
      ensures r.Some? ==> r.val.start == ptr && r.val !in areas
      ensures r.Some? ==> exists i :: 0 <= i < |old(areas)| && old(areas)[i] == r.val && TakenOut(old(areas), areas, i)
    {
      hide Ordered;
      var i := 0;
      while i < |areas|
        invariant i <= |areas| && areas == old(areas)
        invariant forall j | 0 <= j < i :: areas[j].start != ptr
      {
        if areas[i].start == ptr {
          r := Some(areas[i]);
          RemovedOrdered(areas, lo, hi, i);
          RemovedTakes(areas, i);
          areas := Removed(areas, i);
          return;
        }
        i := i + 1;
      }
      r := None;
    }

    /** The part of `vmalloc` before pages are mapped: `ptr` 0 leaves the address open. A request is refused if it is empty
        or, rounded up to whole pages in 64 bits, not smaller than the start of the window; in user space, where the window
        starts at 64 KiB, that is every request of more than 60 KiB. Else one of the two searches decides. */
    method Reserve(ptr: nat, size: nat, flags: nat) returns (r: Option<Area>)
      requires Valid() && ptr < WORD && size < WORD
      modifies `areas
      ensures size == 0 || RoundUp(size) % WORD >= lo ==> r.None? && areas == old(areas)
      ensures size > 0 && RoundUp(size) % WORD < lo && ptr == 0
        ==> Placed(old(areas), lo, hi, RoundUp(size) % WORD, flags, r, areas)
      ensures size > 0 && RoundUp(size) % WORD < lo && ptr != 0
        ==> FixedDone(old(areas), lo, hi, ptr, (ptr + RoundUp(size) % WORD) % WORD, flags, r, areas)
      ensures ptr == 0
        ==> (r.Some? <==> size > 0 && RoundUp(size) % WORD < lo && OpenFits(old(areas), lo, hi, RoundUp(size) % WORD))
      ensures ptr == 0 && r.Some?
        ==> r.val == Area(OpenStart(old(areas), lo, RoundUp(size) % WORD), OpenEnd(old(areas), lo, RoundUp(size) % WORD), flags)
      ensures lo == 0x1_0000 && 0xf000 < size <= WORD - PAGE ==> r.None?
      ensures lo == 0x1_0000 && 0 < size <= 0xf000 ==> RoundUp(size) % WORD < lo
    {
      hide Ordered, Gap, Refused, FixedDone;
      if size == 0 {
        return None;
      }
      RoundedUp(size);
      var n := RoundUp(size) % WORD;
      if n >= lo {
        return None;
      }
      if ptr != 0 {
        r := FindFixed(ptr, n, flags);
      } else {
        r := FindSpace(n, flags);
      }
    }
  }
}
