/** How many frames the pages and page tables of a sorted list of areas take. */
module CopyCount {
  import opened Base
  import opened PagingAddr
  import opened PageWalk
  import opened PageRange
  import opened VmArea

  /** The pages of the lower half. */
  const USER: nat := 0x8_0000_0000

  lemma UserOrdinary(k: nat, q: nat)
    requires k <= 3 && q < Half(k)
    ensures Ordinary(k, q)
  {
    if k == 0 {
      DivBelow(q, 256, 0x800_0000);
    } else if k == 1 {
      DivBelow(q, 256, 0x4_0000);
    } else if k == 2 {
      DivBelow(q, 256, 512);
    }
  }

  lemma DivBelow(q: nat, m: nat, w: nat)
    requires w > 0 && q < m * w
    ensures q / w < m
  {
  }

  /** Neighbouring pages lie under the same prefix or under neighbouring ones. */
  lemma AtNext(k: nat, u: nat)
    requires k <= 3
    ensures At(k, u + 1) == At(k, u) || At(k, u + 1) == At(k, u) + 1
    ensures u < USER ==> At(k, u) < Half(k)
  {
  }

  lemma AtLe(k: nat, u: nat, v: nat)
    requires k <= 3 && u <= v
    ensures At(k, u) <= At(k, v)
  {
  }

  // ----- the rightmost tables -----

  /** In the lower half, the tables of level `k` end with that of page `edge`; without an edge there are none. */
  ghost predicate EdgeLevel(mem: seq<Frame>, root: nat, k: nat, edge: Option<nat>)
  {
    && 1 <= k <= 3
    && (edge.Some? ==> Table(mem, root, k, At(k, edge.val)).Some?)
    && forall q: nat | q < Half(k) && Table(mem, root, k, q).Some? :: edge.Some? && q <= At(k, edge.val)
  }

  ghost predicate EdgeAt(mem: seq<Frame>, root: nat, edge: Option<nat>)
  {
    EdgeLevel(mem, root, 1, edge) && EdgeLevel(mem, root, 2, edge) && EdgeLevel(mem, root, 3, edge)
  }

  lemma NoEdge(mem: seq<Frame>, root: nat)
    requires NoUser(mem, root)
    ensures EdgeAt(mem, root, None)
  {
    hide Table;
  }

  /** The tables of level `k` that the pages from `u` to `w` add behind the edge. */
  function NewAt(k: nat, edge: Option<nat>, u: nat, w: nat): nat
    requires k <= 3
  {
    (if edge.Some? && At(k, edge.val) == At(k, u) then 0 else 1) + (if At(k, u) <= At(k, w) then At(k, w) - At(k, u) else 0)
  }

  function Tabs(edge: Option<nat>, u: nat, w: nat): nat
  {
    NewAt(3, edge, u, w) + NewAt(2, edge, u, w) + NewAt(1, edge, u, w)
  }

  lemma NeededLevel(mem: seq<Frame>, root: nat, k: nat, edge: Option<nat>, u: nat)
    requires EdgeLevel(mem, root, k, edge) && (edge.Some? ==> edge.val <= u) && u + 1 < USER
    ensures NeededAt(mem, root, k, u, u + 1) == NewAt(k, edge, u, u + 1)
  {
    hide Table, At, Half;
    var a, b := At(k, u), At(k, u + 1);
    AtNext(k, u);
    AtNext(k, u + 1);
    if edge.Some? {
      AtLe(k, edge.val, u);
    }
    assert Table(mem, root, k, a).Some? <==> edge.Some? && At(k, edge.val) == a;
    if b == a + 1 {
      assert Table(mem, root, k, b) == None;
      assert Missing(mem, root, k, a, b) == Missing(mem, root, k, a, a) + (if Table(mem, root, k, a) == None then 1 else 0);
    }
  }

  /** One page: exactly the tables behind the edge are missing. */
  lemma NeededIs(mem: seq<Frame>, root: nat, edge: Option<nat>, u: nat)
    requires EdgeAt(mem, root, edge) && (edge.Some? ==> edge.val <= u) && u + 1 < USER
    ensures Needed(mem, root, u, u + 1) == Tabs(edge, u, u + 1)
  {
    hide EdgeLevel, NeededAt, NewAt;
    NeededLevel(mem, root, 1, edge, u);
    NeededLevel(mem, root, 2, edge, u);
    NeededLevel(mem, root, 3, edge, u);
  }

  lemma EdgeStep(mem: seq<Frame>, mem2: seq<Frame>, root: nat, k: nat, edge: Option<nat>, u: nat)
    requires EdgeLevel(mem, root, k, edge) && (edge.Some? ==> edge.val <= u) && u + 1 < USER
    requires Tabled(mem, mem2, root, k, u, u + 1)
    ensures EdgeLevel(mem2, root, k, Some(u + 1))
  {
    hide Table, At, Half, Ordinary;
    AtNext(k, u);
    AtNext(k, u + 1);
    UserOrdinary(k, At(k, u + 1));
    forall q: nat | q < Half(k) && Table(mem2, root, k, q).Some? ensures q <= At(k, u + 1) {
      UserOrdinary(k, q);
      if edge.Some? {
        AtLe(k, edge.val, u);
      }
    }
  }

  /** After a page is mapped the edge is the page behind it. */
  lemma EdgeMoves(mem: seq<Frame>, mem2: seq<Frame>, root: nat, edge: Option<nat>, u: nat)
    requires EdgeAt(mem, root, edge) && (edge.Some? ==> edge.val <= u) && u + 1 < USER && AllTabled(mem, mem2, root, u, u + 1)
    ensures EdgeAt(mem2, root, Some(u + 1))
  {
    hide EdgeLevel, Tabled;
    EdgeStep(mem, mem2, root, 1, edge, u);
    EdgeStep(mem, mem2, root, 2, edge, u);
    EdgeStep(mem, mem2, root, 3, edge, u);
  }

  // ----- a range of pages -----

  /** The frames for the pages of `[v, u)`: one each, and the tables. */
  function RangeFrames(edge: Option<nat>, v: nat, u: nat): nat { if u <= v then 0 else u - v + Tabs(edge, v, u) }

  function EdgeOf(edge: Option<nat>, v: nat, u: nat): Option<nat> { if u <= v then edge else Some(u) }

  lemma FramesStep(edge: Option<nat>, v: nat, u: nat)
    requires v <= u
    ensures RangeFrames(edge, v, u + 1) == RangeFrames(edge, v, u) + 1 + Tabs(EdgeOf(edge, v, u), u, u + 1)
  {
    hide At;
    LevelStep(1, edge, v, u);
    LevelStep(2, edge, v, u);
    LevelStep(3, edge, v, u);
  }

  lemma LevelStep(k: nat, edge: Option<nat>, v: nat, u: nat)
    requires k <= 3 && v <= u
    ensures v < u ==> NewAt(k, edge, v, u + 1) == NewAt(k, edge, v, u) + NewAt(k, Some(u), u, u + 1)
  {
    hide At;
    AtLe(k, v, u);
    AtNext(k, u);
  }

  lemma {:induction false} FramesMono(edge: Option<nat>, v: nat, u: nat, w: nat)
    requires v <= u <= w
    ensures RangeFrames(edge, v, u) <= RangeFrames(edge, v, w)
    decreases w
  {
    hide Tabs;
    if u < w {
      FramesMono(edge, v, u, w - 1);
      FramesStep(edge, v, w - 1);
    }
  }

  // ----- a list of areas -----

  /** The end of the last area. */
  function ListEdge(s: seq<Area>): Option<nat> { if s == [] then None else Some(s[|s| - 1].end / PAGE) }

  function AreaFrames(s: seq<Area>, a: Area): nat { RangeFrames(ListEdge(s), a.start / PAGE, a.end / PAGE) }

  /** The frames for a whole list: every page, and every table once. */
  function ListFrames(s: seq<Area>): nat
  {
    if s == [] then 0 else ListFrames(s[..|s| - 1]) + AreaFrames(s[..|s| - 1], s[|s| - 1])
  }

  lemma ListStep(s: seq<Area>, i: nat)
    requires i < |s|
    ensures ListFrames(s[..i + 1]) == ListFrames(s[..i]) + AreaFrames(s[..i], s[i])
  {
    assert s[..i + 1][..i] == s[..i];
  }

  lemma {:induction false} ListMono(s: seq<Area>, i: nat, j: nat)
    requires i <= j <= |s|
    ensures ListFrames(s[..i]) <= ListFrames(s[..j])
    decreases j
  {
    if i < j {
      ListMono(s, i, j - 1);
      ListStep(s, j - 1);
    }
  }
}
