/** The intrusive circular list of kernel/src/base/linkedlist.c. The rest of the model treats its lists as sequences. */
module LinkedList {
  import opened Base

  /** The `next` or the `prev` words of memory, by node address. */
  type Links = map<nat, nat>

  /** The index after `i`, around the ring. */
  function After(r: seq<nat>, i: nat): (j: nat)
    requires i < |r|
    ensures j < |r|
  {
    if i + 1 < |r| then i + 1 else 0
  }

  function Before(r: seq<nat>, i: nat): (j: nat)
    requires i < |r|
    ensures j < |r|
  {
    if i > 0 then i - 1 else |r| - 1
  }

  predicate Linked(next: Links, prev: Links, x: nat, y: nat) { x in next && next[x] == y && y in prev && prev[y] == x }

  /** The nodes form one ring in this order; `r[0]` is the list head. */
  predicate Ring(next: Links, prev: Links, r: seq<nat>)
  {
    && r != [] && NoDup(r) && 0 !in r
    && forall i | 0 <= i < |r| :: Linked(next, prev, r[i], r[After(r, i)])
  }

  /** `e` behind position `i`. */
  function Put(r: seq<nat>, i: nat, e: nat): seq<nat>
    requires i < |r|
  {
    r[..i + 1] + [e] + r[i + 1..]
  }

  function Cut(r: seq<nat>, i: nat): seq<nat>
    requires i < |r|
  {
    r[..i] + r[i + 1..]
  }

  lemma PutAt(r: seq<nat>, i: nat, e: nat, j: nat)
    requires i < |r| && j <= |r|
    ensures Put(r, i, e)[j] == if j <= i then r[j] else if j == i + 1 then e else r[j - 1]
  {
  }

  /** The four words that link `e` in between `r[i]` and its successor. */
  lemma PutRing(next: Links, prev: Links, r: seq<nat>, i: nat, e: nat)
    requires Ring(next, prev, r) && i < |r| && e !in r && e != 0
    ensures var y := r[After(r, i)]; Ring(next[e := y][r[i] := e], prev[e := r[i]][y := e], Put(r, i, e))
  {
    var y := r[After(r, i)];
    var n2, p2, t := next[e := y][r[i] := e], prev[e := r[i]][y := e], Put(r, i, e);
    forall j, k | 0 <= j < k < |t| ensures t[j] != t[k] {
      PutAt(r, i, e, j);
      PutAt(r, i, e, k);
    }
    forall j | 0 <= j < |t| ensures Linked(n2, p2, t[j], t[After(t, j)]) && t[j] != 0 {
      PutAt(r, i, e, j);
      PutAt(r, i, e, After(t, j));
      if j < i || j > i + 1 {
        OtherLink(next, prev, r, i, e, if j < i then j else j - 1);
      }
    }
  }

  lemma OtherLink(next: Links, prev: Links, r: seq<nat>, i: nat, e: nat, k: nat)
    requires Ring(next, prev, r) && i < |r| && k < |r| && k != i && e !in r
    ensures var y := r[After(r, i)]; Linked(next[e := y][r[i] := e], prev[e := r[i]][y := e], r[k], r[After(r, k)])
  {
    assert Linked(next, prev, r[k], r[After(r, k)]);
    assert After(r, k) != After(r, i);
  }

  /** Linking the neighbours of `r[i]` to each other takes it out. */
  lemma CutRing(next: Links, prev: Links, r: seq<nat>, i: nat)
    requires Ring(next, prev, r) && 0 < i < |r|
    ensures var x, y, e := r[i - 1], r[After(r, i)], r[i];
      Ring(next[x := y][e := e], prev[y := x][e := e], Cut(r, i)) && Ring(next[x := y][e := e], prev[y := x][e := e], [e])
  {
    var x, y, e, t := r[i - 1], r[After(r, i)], r[i], Cut(r, i);
    var n2, p2 := next[x := y][e := e], prev[y := x][e := e];
    forall j | 0 <= j < |t| ensures Linked(n2, p2, t[j], t[After(t, j)]) && t[j] != 0 {
      var k := if j < i then j else j + 1;
      assert t[j] == r[k];
      assert Linked(next, prev, r[k], r[After(r, k)]);
      assert t[After(t, j)] == if k == i - 1 then y else r[After(r, k)];
      if k != i - 1 {
        assert After(r, k) != i && After(r, k) != After(r, i);
      }
    }
  }

  /** Only words of the given nodes differ. */
  predicate OnlyOf(nodes: seq<nat>, next: Links, prev: Links, next2: Links, prev2: Links)
  {
    && (forall x | x in next && x !in nodes :: x in next2 && next2[x] == next[x])
    && (forall x | x in prev && x !in nodes :: x in prev2 && prev2[x] == prev[x])
  }

  /** A ring that shares no node with the changed ones stays a ring. */
  lemma OtherRing(nodes: seq<nat>, next: Links, prev: Links, next2: Links, prev2: Links, q: seq<nat>)
    requires OnlyOf(nodes, next, prev, next2, prev2) && Ring(next, prev, q) && forall x | x in q :: x !in nodes
    ensures Ring(next2, prev2, q)
  {
    forall i | 0 <= i < |q| ensures Linked(next2, prev2, q[i], q[After(q, i)]) {
      assert Linked(next, prev, q[i], q[After(q, i)]);
    }
  }

  class Lists {
    var next: Links
    var prev: Links

    /** `dlist_init`. */
    method Init(list: nat)
      requires list != 0
      modifies this
      ensures Ring(next, prev, [list]) && next == old(next)[list := list] && prev == old(prev)[list := list]
    {
      prev := prev[list := list];
      next := next[list := list];
    }

    /** `dlist_add_next`: behind `r[i]`. */
    method AddNext(list: nat, entry: nat, ghost r: seq<nat>, ghost i: nat)
      requires Ring(next, prev, r) && i < |r| && list == r[i] && entry !in r && entry != 0
      modifies this
      ensures list in next && next[list] == entry && entry in prev && prev[entry] == list
      ensures Ring(next, prev, Put(r, i, entry)) && OnlyOf(r + [entry], old(next), old(prev), next, prev)
    {
      assert Linked(next, prev, r[i], r[After(r, i)]);
      PutRing(next, prev, r, i, entry);
      hide Ring;
      prev := prev[entry := list];
      next := next[entry := next[list]];
      prev := prev[next[entry] := entry];
      next := next[prev[entry] := entry];
    }

    /** `dlist_add_prev`: in front of `r[i]`, which for the head is the end of the list. */
    method AddPrev(list: nat, entry: nat, ghost r: seq<nat>, ghost i: nat)
      requires Ring(next, prev, r) && i < |r| && list == r[i] && entry !in r && entry != 0
      modifies this
      ensures list in prev && prev[list] == entry && entry in next && next[entry] == list
      ensures Ring(next, prev, Put(r, Before(r, i), entry)) && OnlyOf(r + [entry], old(next), old(prev), next, prev)
    {
      ghost var b := Before(r, i);
      assert Linked(next, prev, r[b], r[After(r, b)]) && After(r, b) == i;
      PutRing(next, prev, r, b, entry);
      hide Ring;
      next := next[entry := list];
      prev := prev[entry := prev[list]];
      next := next[prev[entry] := entry];
      prev := prev[next[entry] := entry];
    }

    /** `dlist_remove_entry`: the entry is left as a ring of its own. */
    method RemoveEntry(entry: nat, ghost r: seq<nat>, ghost i: nat)
      requires Ring(next, prev, r) && 0 < i < |r| && entry == r[i]
      modifies this
      ensures Ring(next, prev, Cut(r, i)) && Ring(next, prev, [entry]) && OnlyOf(r, old(next), old(prev), next, prev)
    {
      assert Linked(next, prev, r[i - 1], r[After(r, i - 1)]) && After(r, i - 1) == i;
      assert Linked(next, prev, r[i], r[After(r, i)]);
      CutRing(next, prev, r, i);
      hide Ring;
      var p := prev[entry];
      var n := next[entry];
      next := next[p := n];
      prev := prev[n := p];
      prev := prev[entry := entry];
      next := next[entry := entry];
    }

    /** `dlist_remove_next`: the first entry, or null if there is none. */
    method RemoveNext(list: nat, ghost r: seq<nat>) returns (entry: nat)
      requires Ring(next, prev, r) && list == r[0]
      modifies this
      ensures if |r| == 1 then entry == 0 && next == old(next) && prev == old(prev)
              else entry == r[1] && Ring(next, prev, Cut(r, 1)) && Ring(next, prev, [entry])
      ensures OnlyOf(r, old(next), old(prev), next, prev)
    {
      assert Linked(next, prev, r[0], r[After(r, 0)]);
      var temp := next[list];
      if temp == list {
        return 0;
      }
      assert Linked(next, prev, r[1], r[After(r, 1)]);
      CutRing(next, prev, r, 1);
      hide Ring;
      next := next[list := next[temp]];
      prev := prev[next[temp] := list];
      next := next[temp := temp];
      prev := prev[temp := temp];
      entry := temp;
    }

    /** `dlist_remove_prev`: the last entry, or null if there is none. */
    method RemovePrev(list: nat, ghost r: seq<nat>) returns (entry: nat)
      requires Ring(next, prev, r) && list == r[0]
      modifies this
      ensures if |r| == 1 then entry == 0 && next == old(next) && prev == old(prev)
              else entry == r[|r| - 1] && Ring(next, prev, Cut(r, |r| - 1)) && Ring(next, prev, [entry])
      ensures OnlyOf(r, old(next), old(prev), next, prev)
    {
      ghost var z := |r| - 1;
      assert Linked(next, prev, r[z], r[After(r, z)]);
      var temp := prev[list];
      if temp == list {
        return 0;
      }
      assert Linked(next, prev, r[z - 1], r[After(r, z - 1)]);
      CutRing(next, prev, r, z);
      hide Ring;
      prev := prev[list := prev[temp]];
      next := next[prev[temp] := list];
      next := next[temp := temp];
      prev := prev[temp := temp];
      entry := temp;
    }

    /** `dlist_is_empty`. */
    method IsEmpty(list: nat, ghost r: seq<nat>) returns (b: bool)
      requires Ring(next, prev, r) && list == r[0]
      ensures b <==> |r| == 1
    {
      assert Linked(next, prev, r[0], r[After(r, 0)]);
      assert Linked(next, prev, r[|r| - 1], r[After(r, |r| - 1)]);
      b := list == next[list] && list == prev[list];
    }

    /** `dlist_foreach` visits the entries in order, each once. */
    method Foreach(list: nat, ghost r: seq<nat>) returns (seen: seq<nat>)
      requires Ring(next, prev, r) && list == r[0]
      ensures seen == r[1..]
    {
      assert Linked(next, prev, r[0], r[After(r, 0)]);
      var entry := next[list];
      ghost var i := 1;
      seen := [];
      while entry != list
        invariant 1 <= i <= |r| && entry == (if i < |r| then r[i] else list) && seen == r[1..i]
        decreases |r| - i
      {
        assert Linked(next, prev, r[i], r[After(r, i)]);
        seen := seen + [entry];
        entry := next[entry];
        i := i + 1;
      }
    }
  }
}
