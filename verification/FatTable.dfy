/** Allocation tables as sequences of 28-bit entries: classification, free counts, the scan of
    `stretch_chain` and the effect of `remove_chain`, on any table. */
module FatTable {
  import opened Base

  const FAT_ERR_NONE: int := 0
  const FAT_ERR_BROKEN: int := -2
  const FAT_ERR_EOF: int := -6
  const FAT_ERR_DENIED: int := -7
  const FAT_ERR_PARAM: int := -4
  const FAT_ERR_FULL: int := -8

  const BAD: nat := 0x0fff_fff7
  const LAST_MIN: nat := 0x0fff_fff8
  const EOC: nat := 0x0fff_ffff

  /** The flag combinations `get_fat` reports, with their numeric value. */
  datatype Kind = Free | Used | Last | Bad {
    function Flags(): nat {
      match this
      case Free => 0x01
      case Used => 0x02
      case Last => 0x06
      case Bad => 0x08
    }
  }

  /** The classification in `get_fat`; `None` is the broken case. */
  function Classify(clustCnt: nat, val: nat): Option<Kind>
  {
    if val == 0 then Some(Free)
    else if val == BAD then Some(Bad)
    else if val >= LAST_MIN then Some(Last)
    else if 2 <= val < clustCnt then Some(Used)
    else None
  }

  /** The meaning of a table entry: 0 is a free cluster, 0x0ffffff7 a bad one, larger values end a chain, a cluster number
      links to that cluster, and 1 or a number behind the last cluster is refused. */
  predicate EntryIs(clustCnt: nat, val: nat, k: Option<Kind>)
  {
    && (k == None <==> val == 1 || clustCnt <= val < 0x0fff_fff7)
    && (k == Some(Free) <==> val == 0)
    && (k == Some(Bad) <==> val == 0x0fff_fff7)
    && (k == Some(Last) <==> val > 0x0fff_fff7)
    && (k == Some(Used) <==> 2 <= val < clustCnt)
  }

  lemma ClassifyIs(clustCnt: nat, val: nat)
    requires 2 < clustCnt <= 0x0fff_fff7
    ensures EntryIs(clustCnt, val, Classify(clustCnt, val))
  {
  }

  ghost predicate AllClassified(t: seq<nat>)
  {
    forall c :: 2 <= c < |t| ==> Classify(|t|, t[c]).Some?
  }

  // ----- counting free entries -----

  /** The number of free clusters below `k`. */
  ghost function FreeBelow(t: seq<nat>, k: nat): nat
    requires k <= |t|
  {
    if k <= 2 then 0 else FreeBelow(t, k - 1) + (if t[k - 1] == 0 then 1 else 0)
  }

  ghost function FreeCount(t: seq<nat>): nat
  {
    FreeBelow(t, |t|)
  }

  lemma {:induction false} FreeBelowUpdate(t: seq<nat>, k: nat, c: nat, v: nat)
    requires k <= |t| && 2 <= c < |t|
    ensures FreeBelow(t[c := v], k) ==
            FreeBelow(t, k) + (if c < k then (if v == 0 then 1 else 0) - (if t[c] == 0 then 1 else 0) else 0)
  {
    if k > 2 {
      FreeBelowUpdate(t, k - 1, c, v);
    }
  }

  lemma {:induction false} FreeBelowBound(t: seq<nat>, k: nat)
    requires 2 <= k <= |t|
    ensures FreeBelow(t, k) <= k - 2
  {
    if k > 2 {
      FreeBelowBound(t, k - 1);
    }
  }

  /** Entries that are not zero, the reserved two included: what `remove_chain` uses up. */
  ghost function NonFree(t: seq<nat>): nat
  {
    if t == [] then 0 else NonFree(t[..|t| - 1]) + (if t[|t| - 1] == 0 then 0 else 1)
  }

  lemma {:induction false} NonFreeClear(t: seq<nat>, c: nat)
    requires c < |t| && t[c] != 0
    ensures NonFree(t[c := 0]) == NonFree(t) - 1
  {
    var k := |t| - 1;
    if c < k {
      NonFreeClear(t[..k], c);
      assert t[c := 0][..k] == t[..k][c := 0];
    } else {
      assert t[c := 0][..k] == t[..k];
    }
  }

  // ----- stretch_chain -----

  /** The cluster after `c` on the ring `[2, n)`. */
  function Succ(n: nat, c: nat): nat
  {
    if c + 1 >= n then 2 else c + 1
  }

  /** `c` is met strictly after `from` and before `to` when going round the ring. */
  ghost predicate Passed(from: nat, to: nat, c: nat)
  {
    if from < to then from < c < to else from < c || c < to
  }

  /** `c` is the first free cluster met when scanning round from `from`, which itself is skipped. */
  ghost predicate FirstFree(t: seq<nat>, from: nat, c: nat)
  {
    && 2 <= c < |t| && c != from && t[c] == 0
    && forall d :: 2 <= d < |t| && Passed(from, c, d) ==> t[d] != 0
  }

  /** The cluster right behind `prev` is preferred when there is a chain to stretch. */
  ghost predicate NextIsFree(t: seq<nat>, prev: nat)
  {
    prev != 0 && var s := Succ(|t|, prev); s < |t| && t[s] == 0
  }

  ghost predicate OnlyFree(t: seq<nat>, c: nat)
  {
    forall d :: 2 <= d < |t| && d != c ==> t[d] != 0
  }

  /** How many clusters `stretch_chain` can hang behind `last`, one after the other. All free ones, unless the first call
      already gives up because only the last used cluster, which it skips, is free. */
  ghost function Avail(t: seq<nat>, last: nat, lastUsed: nat): nat
  {
    if NextIsFree(t, last) || !OnlyFree(t, lastUsed) then FreeCount(t) else 0
  }

  lemma {:induction false} NoneFree(t: seq<nat>, k: nat)
    requires k <= |t|
    ensures FreeBelow(t, k) == 0 <==> forall d | 2 <= d < k :: t[d] != 0
  {
    if k > 2 {
      NoneFree(t, k - 1);
    }
  }

  /** Once the last used cluster is taken, only a table without free clusters counts as full. */
  lemma AvailTaken(t: seq<nat>, c: nat)
    requires 2 <= c < |t| && t[c] != 0
    ensures Avail(t, c, c) == FreeCount(t) && (OnlyFree(t, c) <==> FreeCount(t) == 0)
  {
    NoneFree(t, |t|);
  }

  /** The cluster `stretch_chain` takes. */
  ghost predicate Chosen(t: seq<nat>, prev: nat, lastUsed: nat, c: nat)
  {
    if NextIsFree(t, prev) then c == Succ(|t|, prev) else FirstFree(t, lastUsed, c)
  }

  /** `c` is the cluster a chain that ends with `prev` gets: the one behind `prev`, going round from the last one to 2, if
      that is free; else the first free one behind `lastUsed`, going round. */
  ghost predicate TakesFirst(t: seq<nat>, prev: nat, lastUsed: nat, c: nat)
  {
    && 2 <= c < |t| && t[c] == 0
    && if prev != 0 && prev + 1 < |t| && t[prev + 1] == 0 then c == prev + 1
       else if prev != 0 && prev + 1 >= |t| && t[2] == 0 then c == 2
       else if c > lastUsed then forall d | lastUsed < d < c :: t[d] != 0
       else c < lastUsed && (forall d | lastUsed < d < |t| :: t[d] != 0) && (forall d | 2 <= d < c :: t[d] != 0)
  }

  lemma ChosenIs(t: seq<nat>, prev: nat, lastUsed: nat, c: nat)
    requires 2 <= c < |t| && t[c] == 0 && 2 <= lastUsed < |t| && Chosen(t, prev, lastUsed, c)
    ensures TakesFirst(t, prev, lastUsed, c)
  {
  }

  /** What ends the scan: a free entry, or one that `get_fat` refuses. */
  predicate Halts(t: seq<nat>, c: nat)
    requires c < |t|
  {
    t[c] == 0 || Classify(|t|, t[c]).None?
  }

  /** `c` is where the scan from `from` ends. */
  ghost predicate FirstHalt(t: seq<nat>, from: nat, c: nat)
  {
    && 2 <= c < |t| && c != from && Halts(t, c)
    && forall d :: 2 <= d < |t| && Passed(from, c, d) ==> !Halts(t, d)
  }

  ghost predicate NoHalt(t: seq<nat>, from: nat)
  {
    forall d :: 2 <= d < |t| && d != from ==> !Halts(t, d)
  }

  function FlagsAt(t: seq<nat>, c: nat): nat
    requires c < |t|
  {
    match Classify(|t|, t[c])
    case Some(k) => k.Flags()
    case None => 0
  }

  /** The cluster before `c` on the ring `[2, n)`. */
  function Before(n: nat, c: nat): nat
    requires n > 0
  {
    if c <= 2 then n - 1 else c - 1
  }

  /** What the flags variable of `stretch_chain` holds before the scan. */
  function FirstFlags(t: seq<nat>, prev: nat, junk: nat): nat
    requires prev < |t| && 2 < |t|
  {
    if prev == 0 then junk else FlagsAt(t, Succ(|t|, prev))
  }

  /** What it holds when the scan meets `c`: the flags of the entry read before. */
  function Stale(t: seq<nat>, lastUsed: nat, flags: nat, c: nat): nat
    requires 2 <= c < |t|
  {
    if c == Succ(|t|, lastUsed) then flags else FlagsAt(t, Before(|t|, c))
  }

  /** A free entry is taken; at a refused one the stale flags are returned in place of an error code. */
  ghost predicate HaltedAt(t: seq<nat>, lastUsed: nat, flags: nat, c: nat, err: int, out: Option<nat>)
    requires 2 <= c < |t|
  {
    if t[c] == 0 then err == FAT_ERR_NONE && out == Some(c) else err == Stale(t, lastUsed, flags, c) && out == None
  }

  /** How the scan ends. */
  ghost predicate ScanEnd(t: seq<nat>, lastUsed: nat, flags: nat, err: int, out: Option<nat>)
  {
    if NoHalt(t, lastUsed) then err == FAT_ERR_FULL && out == None
    else exists c: nat :: FirstHalt(t, lastUsed, c) && HaltedAt(t, lastUsed, flags, c, err, out)
  }

  /** How the search for a cluster ends, on any table: the return value, and the cluster if one is found. */
  ghost predicate Picked(t: seq<nat>, prev: nat, lastUsed: nat, junk: nat, err: int, out: Option<nat>)
    requires prev < |t| && 2 < |t|
  {
    if prev != 0 && Classify(|t|, t[Succ(|t|, prev)]).None? then err == FAT_ERR_BROKEN && out == None
    else if NextIsFree(t, prev) then err == FAT_ERR_NONE && out == Some(Succ(|t|, prev))
    else ScanEnd(t, lastUsed, FirstFlags(t, prev, junk), err, out)
  }

  /** On a table without refused entries the search fails only with FULL; on any table what it finds is as it should be. */
  lemma PickedMeans(t: seq<nat>, prev: nat, lastUsed: nat, junk: nat, err: int, out: Option<nat>)
    requires prev < |t| && 2 < |t| && 2 <= lastUsed < |t| && Picked(t, prev, lastUsed, junk, err, out)
    ensures out.Some? ==> err == FAT_ERR_NONE && 2 <= out.val < |t| && t[out.val] == 0 && Chosen(t, prev, lastUsed, out.val)
    ensures err == FAT_ERR_FULL ==> !NextIsFree(t, prev) && OnlyFree(t, lastUsed)
    ensures AllClassified(t) ==> (err == FAT_ERR_NONE <==> out.Some?) && (err == FAT_ERR_NONE || err == FAT_ERR_FULL)
    ensures AllClassified(t) && !NextIsFree(t, prev) && OnlyFree(t, lastUsed) ==> err == FAT_ERR_FULL
  {
    hide Classify, Kind.Flags;
    if NoHalt(t, lastUsed) {
      forall d | 2 <= d < |t| && d != lastUsed ensures t[d] != 0 {
        assert !Halts(t, d);
      }
    }
    if !NextIsFree(t, prev) && !NoHalt(t, lastUsed) && !(prev != 0 && Classify(|t|, t[Succ(|t|, prev)]).None?) {
      var c: nat :| FirstHalt(t, lastUsed, c) && HaltedAt(t, lastUsed, FirstFlags(t, prev, junk), c, err, out);
      if t[c] == 0 {
        assert FirstFree(t, lastUsed, c);
      }
    }
  }

  /** The search reports success without a cluster exactly if no entry was read before the first one it refuses and the
      flags variable happens to hold 0. */
  lemma PickedNothing(t: seq<nat>, prev: nat, lastUsed: nat, junk: nat, err: int, out: Option<nat>)
    requires prev < |t| && 2 < |t| && 2 <= lastUsed < |t| && Picked(t, prev, lastUsed, junk, err, out)
    ensures var next := Succ(|t|, lastUsed);
      err == FAT_ERR_NONE && out == None <==> prev == 0 && junk == 0 && next != lastUsed && Classify(|t|, t[next]).None?
  {
    var next := Succ(|t|, lastUsed);
    if next != lastUsed && Halts(t, next) {
      assert FirstHalt(t, lastUsed, next) && !NoHalt(t, lastUsed);
    }
    if !NextIsFree(t, prev) && !NoHalt(t, lastUsed) && !(prev != 0 && Classify(|t|, t[Succ(|t|, prev)]).None?) {
      var c: nat :| FirstHalt(t, lastUsed, c) && HaltedAt(t, lastUsed, FirstFlags(t, prev, junk), c, err, out);
      if c != next {
        assert Passed(lastUsed, c, next);
        assert Before(|t|, c) == lastUsed || Passed(lastUsed, c, Before(|t|, c));
      }
    }
  }

  /** Cluster 3 holds the reserved value 1, and cluster 4 is free: starting a chain can report success and give nothing. */
  lemma NothingReported()
    ensures var t := [LAST_MIN, EOC, EOC, 1, 0];
      FreeCount(t) == 1 && Picked(t, 0, 2, 0, FAT_ERR_NONE, None)
  {
    var t := [LAST_MIN, EOC, EOC, 1, 0];
    assert FreeBelow(t, 5) == FreeBelow(t, 4) + 1;
    assert FreeBelow(t, 4) == FreeBelow(t, 3) == FreeBelow(t, 2) == 0;
    assert FirstHalt(t, 2, 3) && HaltedAt(t, 2, 0, 3, FAT_ERR_NONE, None);
  }

  /** The tables after each of the writes `stretch_chain` makes. */
  ghost function Linked(t: seq<nat>, prev: nat, c: nat): seq<seq<nat>>
    requires prev < |t| && c < |t|
  {
    var ended := t[c := EOC];
    if prev == 0 then [ended] else [ended, ended[prev := c]]
  }

  /** Three clusters, of which only number 4, the last used one, is free: stretching behind cluster 2 counts as full. */
  lemma FullWithFree()
    ensures var t := [LAST_MIN, EOC, EOC, EOC, 0];
      t[4] == 0 && FreeCount(t) == 1 && !NextIsFree(t, 2) && OnlyFree(t, 4) && Avail(t, 2, 4) == 0
  {
    var t := [LAST_MIN, EOC, EOC, EOC, 0];
    assert FreeBelow(t, 5) == FreeBelow(t, 4) + 1;
    assert FreeBelow(t, 4) == FreeBelow(t, 3) == FreeBelow(t, 2) == 0;
  }

  // ----- remove_chain -----

  datatype RemoveResult = RemoveResult(err: int, tables: seq<seq<nat>>)

  /** The error code and the tables after each write, starting at cluster `c` of any table. */
  ghost function Remove(t: seq<nat>, c: nat): RemoveResult
    requires c < |t|
    decreases NonFree(t)
  {
    match Classify(|t|, t[c])
    case None => RemoveResult(FAT_ERR_BROKEN, [])
    case Some(Free) => RemoveResult(FAT_ERR_BROKEN, [])
    case Some(Bad) => RemoveResult(FAT_ERR_BROKEN, [])
    case Some(Last) => RemoveResult(FAT_ERR_NONE, [t[c := 0]])
    case Some(Used) =>
      NonFreeClear(t, c);
      var rest := Remove(t[c := 0], t[c]);
      RemoveResult(rest.err, [t[c := 0]] + rest.tables)
  }

  lemma RemoveLast(t: seq<nat>, c: nat)
    requires c < |t| && t[c] >= LAST_MIN
    ensures Remove(t, c) == RemoveResult(FAT_ERR_NONE, [t[c := 0]])
  {
  }

  lemma RemoveLink(t: seq<nat>, c: nat)
    requires c < |t| <= BAD && 2 <= t[c] < |t|
    ensures Remove(t, c) == RemoveResult(Remove(t[c := 0], t[c]).err, [t[c := 0]] + Remove(t[c := 0], t[c]).tables)
  {
  }

  /** The table after the writes in `steps`. */
  ghost function After(t: seq<nat>, steps: seq<seq<nat>>): seq<nat>
  {
    if steps == [] then t else steps[|steps| - 1]
  }

  /** Along the clusters of `p` the removal from `c` goes: each entry links to the next one, and none occurs twice. */
  ghost predicate Path(t: seq<nat>, c: nat, p: seq<nat>)
  {
    && NoDup(p) && (p != [] ==> p[0] == c)
    && (forall i | 0 <= i < |p| :: p[i] < |t| && t[p[i]] != 0)
    && (forall i | 0 <= i < |p| - 1 :: t[p[i]] == p[i + 1])
  }

  /** `t2` is `t` with the entries of the clusters in `p` zero. */
  ghost predicate ZeroOn(t: seq<nat>, p: seq<nat>, t2: seq<nat>)
  {
    |t2| == |t| && forall d: nat | d < |t| :: t2[d] == if d in p then 0 else t[d]
  }

  /** Where a removal that went along `p` stops with an error: a cluster it has freed itself, or one that is free, bad or
      has a refused entry. */
  ghost predicate DeadEnd(t: seq<nat>, p: seq<nat>, c: nat)
  {
    c < |t| && (c in p || t[c] == 0 || t[c] == 1 || |t| <= t[c] <= 0x0fff_fff7)
  }

  /** A removal on any table: it goes along the links, frees every cluster it meets, and ends well exactly if it comes to
      an end of chain. */
  lemma {:induction false} RemovePath(t: seq<nat>, c: nat) returns (p: seq<nat>)
    requires c < |t| && 2 < |t| <= 0x0fff_fff7
    ensures Path(t, c, p) && |Remove(t, c).tables| == |p| && ZeroOn(t, p, After(t, Remove(t, c).tables))
    ensures Remove(t, c).err == FAT_ERR_NONE || Remove(t, c).err == FAT_ERR_BROKEN
    ensures Remove(t, c).err == FAT_ERR_NONE ==> p != [] && t[p[|p| - 1]] > 0x0fff_fff7
    ensures Remove(t, c).err == FAT_ERR_BROKEN ==> DeadEnd(t, p, if p == [] then c else t[p[|p| - 1]])
    decreases NonFree(t)
  {
    hide NonFree;
    ClassifyIs(|t|, t[c]);
    var k := Classify(|t|, t[c]);
    if k == Some(Last) {
      RemoveLast(t, c);
      p := [c];
    } else if k == Some(Used) {
      RemoveLink(t, c);
      NonFreeClear(t, c);
      var q := RemovePath(t[c := 0], t[c]);
      p := [c] + q;
      PathMore(t, c, q);
      var rest := Remove(t[c := 0], t[c]);
      AfterMore(t, t[c := 0], rest.tables);
      assert q != [] ==> p[|p| - 1] == q[|q| - 1];
    } else {
      p := [];
    }
  }

  lemma AfterMore(t: seq<nat>, t1: seq<nat>, rest: seq<seq<nat>>)
    ensures After(t, [t1] + rest) == After(t1, rest)
  {
  }

  lemma PathMore(t: seq<nat>, c: nat, q: seq<nat>)
    requires c < |t| && t[c] != 0 && Path(t[c := 0], t[c], q)
    ensures Path(t, c, [c] + q) && c !in q
  {
    var p := [c] + q;
    assert forall i | 0 <= i < |q| :: q[i] != c;
    forall i | 0 <= i < |p| - 1 ensures t[p[i]] == p[i + 1] {
      if i > 0 {
        assert t[c := 0][q[i - 1]] == q[i];
      }
    }
  }

  /** Whatever the table looks like, cyclic or broken: each write of a removal that starts at a real
      cluster turns one used cluster into a free one, so counting the writes counts the free clusters. */
  lemma {:induction false} RemoveCounts(t: seq<nat>, c: nat)
    requires 2 <= c < |t|
    ensures var r := Remove(t, c);
            && |After(t, r.tables)| == |t|
            && FreeCount(After(t, r.tables)) == FreeCount(t) + |r.tables|
    decreases NonFree(t)
  {
    if Classify(|t|, t[c]) in {Some(Last), Some(Used)} {
      FreeBelowUpdate(t, |t|, c, 0);
      if Classify(|t|, t[c]) == Some(Used) {
        NonFreeClear(t, c);
        RemoveCounts(t[c := 0], t[c]);
        AfterStep(t, t[c := 0], Remove(t[c := 0], t[c]).tables);
      }
    }
  }

  lemma AfterStep(t: seq<nat>, t': seq<nat>, rest: seq<seq<nat>>)
    ensures After(t, [t'] + rest) == After(t', rest)
  {
  }

  /** Started at the reserved entry 0 (the start cluster other systems give an empty file) the removal
      overwrites the media entry and counts a cluster that was never freed. */
  lemma RemoveFromZero(t: seq<nat>)
    requires 2 < |t| && t[0] >= LAST_MIN
    ensures Remove(t, 0) == RemoveResult(FAT_ERR_NONE, [t[0 := 0]])
    ensures FreeCount(t[0 := 0]) == FreeCount(t)
  {
    FreeBelowPrefix(t, t[0 := 0], |t|);
  }

  /** Exactly when the free count stays right: the removal starts at a real cluster, or at an entry it refuses. */
  lemma RemoveCountsWhen(t: seq<nat>, c: nat)
    requires c < |t|
    ensures var r := Remove(t, c);
            FreeCount(After(t, r.tables)) == FreeCount(t) + |r.tables|
            <==> c >= 2 || !(Classify(|t|, t[c]) in {Some(Last), Some(Used)})
  {
    if c >= 2 {
      RemoveCounts(t, c);
    } else if Classify(|t|, t[c]) in {Some(Last), Some(Used)} {
      FreeBelowPrefix(t, t[c := 0], |t|);
      if Classify(|t|, t[c]) == Some(Used) {
        RemoveCounts(t[c := 0], t[c]);
        AfterStep(t, t[c := 0], Remove(t[c := 0], t[c]).tables);
      }
    }
  }

  lemma {:induction false} FreeBelowPrefix(t: seq<nat>, t': seq<nat>, k: nat)
    requires |t| == |t'| && k <= |t| && forall c :: 2 <= c < k ==> t[c] == t'[c]
    ensures FreeBelow(t, k) == FreeBelow(t', k)
  {
    if k > 2 {
      FreeBelowPrefix(t, t', k - 1);
    }
  }
}
