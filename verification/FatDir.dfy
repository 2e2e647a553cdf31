/** An open directory: a cursor over its entries, reading and writing them through the buffer of the volume. */
module FatDir {
  import opened Base
  import opened Bits
  import opened FatDisk
  import opened FatTable
  import opened FatChains
  import opened FatVolume
  import opened FatFile
  import opened FatNames
  import opened FatAdd
  import opened FatEntries
  import opened FatSearch
  import opened FatRemove

  /** The data region starts at a multiple of the cluster size: `dir_next` tests the bits of the plain sector. */
  predicate DataAligned(g: Geometry)
  {
    Low(g.dataSect, g.clustShift) == 0
  }

  /** `sect_to_clust` */
  function SectToClust(g: Geometry, s: nat): nat
    requires s >= g.dataSect
  {
    Shr(s - g.dataSect, g.clustShift) + 2
  }

  /** With an aligned data region the low bits of a sector number count the sectors of its cluster. */
  lemma SectLow(g: Geometry, c: nat, r: nat)
    requires DataAligned(g) && c >= 2 && r < g.SectPerClust()
    ensures g.dataSect <= g.ClustToSect(c) && Low(g.ClustToSect(c) + r, g.clustShift) == r
    ensures SectToClust(g, g.ClustToSect(c) + r) == c
  {
    hide Low, Shr, Pow2;
    var k, m := g.clustShift, (c - 2) * g.SectPerClust();
    LowMultiple(c - 2, k);
    LowSmall(r, k);
    LowAdd(r, m, k);
    LowAdd(r + m, g.dataSect, k);
    assert g.ClustToSect(c) + r - g.dataSect == r + m;
  }

  /** The test by which `dir_next` tells that sector `r` behind the start of a cluster is past its end. */
  ghost predicate EndsCluster(g: Geometry, c: nat, r: nat)
    requires c >= 2
  {
    And(g.ClustToSect(c) + r, g.SectPerClust() - 1) == 0
  }

  /** The alignment that the directory walk needs is exactly this: the test fires at cluster ends and nowhere else. */
  lemma AlignmentNeeded(g: Geometry)
    ensures DataAligned(g) <==>
      (forall c: nat, r: nat | c >= 2 && 1 <= r <= g.SectPerClust() :: EndsCluster(g, c, r) <==> r == g.SectPerClust())
  {
    hide Low, And, Pow2;
    var k := g.clustShift;
    if DataAligned(g) {
      forall c: nat, r: nat | c >= 2 && 1 <= r <= g.SectPerClust()
        ensures EndsCluster(g, c, r) <==> r == g.SectPerClust()
      {
        AndMask(g.ClustToSect(c) + r, k);
        if r < g.SectPerClust() {
          SectLow(g, c, r);
        } else {
          SectLow(g, c + 1, 0);
          NextCluster(g, c);
        }
      }
    } else {
      var c := 2;
      AndMask(g.ClustToSect(c) + g.SectPerClust(), k);
      LowMultiple(1, k);
      LowAdd(g.dataSect, Pow2(k), k);
      assert !EndsCluster(g, c, g.SectPerClust());
    }
  }

  /** A volume that is in order and whose data region starts at sector 4, with clusters of eight sectors. */
  lemma MisalignedVolume()
    ensures var g := Geometry(3, 128, 1, 2, 3, 4, 2, 1012); g.Ok() && !DataAligned(g) && EndsCluster(g, 2, 4)
  {
    var g := Geometry(3, 128, 1, 2, 3, 4, 2, 1012);
    assert g.SectPerClust() == 8 && g.ClustToSect(2) == 4 && g.ClustToSect(128) == 1012;
    AndMask(8, 3);
    assert Low(4, 3) == 4 && Low(8, 3) == 0;
  }

  lemma NextCluster(g: Geometry, c: nat)
    requires c >= 2
    ensures g.ClustToSect(c + 1) == g.ClustToSect(c) + g.SectPerClust()
  {
  }

  /** The cursor at the last entry of a sector: where the next entry is. */
  lemma SectorAfter(g: Geometry, chain: Chain, k: nat, sect: nat)
    requires DataAligned(g) && Spot(g, chain, k, sect)
    ensures g.SectPerClust() >= 1
    ensures And(sect + 1, g.SectPerClust() - 1) != 0 ==>
              && Shr(k + 1, g.clustShift) == Shr(k, g.clustShift) && Spot(g, chain, k + 1, sect + 1)
    ensures And(sect + 1, g.SectPerClust() - 1) == 0 ==>
              && Shr(k + 1, g.clustShift) == Shr(k, g.clustShift) + 1 && Low(k + 1, g.clustShift) == 0
  {
    var s, c := g.clustShift, chain[Shr(k, g.clustShift)];
    hide Geometry.ClustToSect, Geometry.Ok, Shr, Low, And, Real, DataAligned, SectToClust;
    RealAt(g, chain, Shr(k, s));
    SectLow(g, c, Low(k, s));
    EndOf(sect, Low(k, s), s);
    LowStep(k, s);
    if Low(k, s) + 1 < Pow2(s) {
      SectAtIn(g, chain, k + 1);
    }
  }

  /** The mask test behind a sector with low bits `r`. */
  lemma EndOf(sect: nat, r: nat, s: nat)
    requires Low(sect, s) == r
    ensures Pow2(s) >= 1 && (And(sect + 1, Pow2(s) - 1) == 0 <==> r + 1 == Pow2(s))
  {
    hide And, Low, Shr, Pow2;
    AndMask(sect + 1, s);
    LowStep(sect, s);
  }

  lemma RealAt(g: Geometry, chain: Chain, i: nat)
    requires Real(g, chain) && i < |chain|
    ensures 2 <= chain[i] < g.clustCnt
  {
  }

  /** At the first sector of the cluster with index `i`. */
  lemma ClustStart(g: Geometry, chain: Chain, k: nat)
    requires g.Ok() && Real(g, chain) && Has(g, chain, k) && Low(k, g.clustShift) == 0
    ensures chain[Shr(k, g.clustShift)] >= 2
    ensures Spot(g, chain, k, g.ClustToSect(chain[Shr(k, g.clustShift)]))
  {
    SectAtIn(g, chain, k);
  }

  lemma CountMono(a: nat, b: nat, p: nat)
    requires a <= b
    ensures a * p <= b * p
  {
    if a < b {
      MulGap(a, b, p);
    }
  }

  /** While `dir_add` writes: the entries before `q` of the new group are in place. */
  ghost predicate Partial(mid: seq<Entry>, x: seq<Entry>, name: Name, s: nat, q: nat, eod: bool)
  {
    var p := s + Lfns(|name|);
    && |x| == |mid| && s <= q <= p && p + 1 < |mid|
    && (forall j :: 0 <= j < s || q <= j <= p || p + 1 < j < |mid| ==> x[j] == mid[j])
    && x[p + 1] == (if eod then mid[p + 1][0 := 0] else mid[p + 1])
    && (forall j :: s <= j < q ==> LfnEntry(x[j], name, p - j))
  }

  lemma PartialStart(mid: seq<Entry>, x: seq<Entry>, name: Name, s: nat, eod: bool)
    requires s + Lfns(|name|) + 1 < |mid|
    requires x == if eod then mid[s + Lfns(|name|) + 1 := mid[s + Lfns(|name|) + 1][0 := 0]] else mid
    ensures Partial(mid, x, name, s, s, eod)
  {
  }

  lemma PartialSize(mid: seq<Entry>, x: seq<Entry>, name: Name, s: nat, q: nat, eod: bool)
    requires Partial(mid, x, name, s, q, eod)
    ensures |x| == |mid| && q <= s + Lfns(|name|) && s + Lfns(|name|) + 1 < |x|
  {
  }

  lemma PartialPut(mid: seq<Entry>, x: seq<Entry>, name: Name, s: nat, q: nat, eod: bool, e: Entry)
    requires Partial(mid, x, name, s, q, eod) && q < s + Lfns(|name|) && LfnEntry(e, name, s + Lfns(|name|) - q)
    ensures q < |x| && Partial(mid, x[q := e], name, s, q + 1, eod)
  {
    hide LfnEntry, Lfns;
  }

  lemma RunIn(es: seq<Entry>, s: nat, p: nat, eod: bool)
    requires Run(es, s, p, eod)
    ensures s <= p < |es|
  {
  }

  /** No file of the directory is called `name`. */
  ghost predicate Unknown(es: seq<Entry>, name: Name)
    requires Wf(es, 0)
  {
    forall it | it in Items(es, 0) :: !Matches(it, name)
  }

  /** `y` is the directory `es` with a file `name` added: well formed, with the same live files and the new one. If no file
      was called like that, a search finds it at its short entry `p`. */
  ghost predicate AddedTo(es: seq<Entry>, y: seq<Entry>, name: Name, start: nat, p: nat)
  {
    && p < |y|
    && (Wf(es, 0) ==>
          && Wf(y, 0) && Items(y, 0) == Items(es, 0) + {Item(start, p, name, y[p])}
          && Item(start, p, name, y[p]) !in Items(es, 0)
          && (Unknown(es, name) ==> Outcome(y, name, 0, FAT_ERR_NONE, p)))
  }

  lemma Finished(es: seq<Entry>, mid: seq<Entry>, x: seq<Entry>, name: Name, s: nat, eod: bool, sfn: Entry)
    requires GoodName(name) && Lengthened(es, mid) && Run(mid, s, s + Lfns(|name|), eod)
    requires Partial(mid, x, name, s, s + Lfns(|name|), eod) && s + Lfns(|name|) < |x|
    requires sfn[..11] == SfnName(name) && !IsLfn(sfn)
    ensures AddedTo(es, x[s + Lfns(|name|) := sfn], name, s, s + Lfns(|name|))
  {
    hide SfnName, Lfns, Wf, Search, Items, Run, LfnEntry, Outcome, Matches;
    var y := x[s + Lfns(|name|) := sfn];
    assert Added(mid, y, name, s, eod);
    if Wf(es, 0) {
      if |mid| > |es| {
        Extended(es, mid[|es|..], 0, name);
        assert es + mid[|es|..] == mid;
      } else {
        assert mid == es;
      }
      AddThenSearch(mid, y, name, s, eod);
      SearchMeans(y, name, 0);
      if Unknown(es, name) {
        SearchMeans(es, name, 0);
        NotFound(es, name);
      }
    }
  }

  /** Adding a file under a new name and unlinking that name gives back the files there were. */
  lemma AddThenUnlink(es: seq<Entry>, y: seq<Entry>, x: seq<Entry>, name: Name, start: nat, p: nat, err: int)
    requires Wf(es, 0) && Unknown(es, name) && AddedTo(es, y, name, start, p) && Unlinked(y, x, name, err)
    ensures err == FAT_ERR_NONE && Wf(x, 0) && Items(x, 0) == Items(es, 0)
  {
    hide Wf, Items, Matches;
    var added := Item(start, p, name, y[p]);
    assert exists it :: it in Items(y, 0) && it.pos == p && Matches(it, name);
    var it :| it in Items(y, 0) && FirstMatch(y, name, it) && Items(x, 0) == Items(y, 0) - {it};
    assert it == added;
  }

  lemma NotFound(es: seq<Entry>, name: Name)
    requires Wf(es, 0) && Unknown(es, name)
    ensures Search(es, name, 0).Failed?
  {
    hide Wf, Search, Items, Matches;
    SearchMeans(es, name, 0);
  }

  lemma PlaceOf(g: Geometry, chain: Chain, k: nat, s: nat)
    requires DataAligned(g) && Spot(g, chain, k, s)
    ensures s >= g.dataSect && SectToClust(g, s) == chain[Shr(k, g.clustShift)]
  {
    hide Geometry.ClustToSect, Geometry.Ok, Shr, Low;
    SectAtIn(g, chain, k);
    SectLow(g, chain[Shr(k, g.clustShift)], Low(k, g.clustShift));
  }

  /** Writing a sector of the directory keeps the rest of the volume. */
  lemma FramePut(g: Geometry, chain: Chain, cs: set<Chain>, v: Disk, v1: Disk, v2: Disk, k: nat, s: nat)
    requires Spot(g, chain, k, s) && Frame(g, chain, cs, v, chain, cs, v1)
    requires Off(v1, v2, s) && (Mirrored(g, v1) ==> Mirrored(g, v2))
    ensures Frame(g, chain, cs, v, chain, cs, v2)
  {
    hide Mirrored, InChain, Has, SectAt, Geometry.ClustToSect, OtherData;
    OtherDataOff(g, chain, v, v1, v2, k, s);
  }

  // ----- looking for a run of free entries -----

  /** `es'` is `es` with fresh entries behind it, the first of which is an end mark. */
  ghost predicate Lengthened(es: seq<Entry>, es': seq<Entry>)
  {
    es <= es' && (|es'| > |es| ==> IsLast(es'[|es|]))
  }

  lemma LengthenedRefl(es: seq<Entry>)
    ensures Lengthened(es, es)
  {
  }

  lemma LengthenedMore(es0: seq<Entry>, es: seq<Entry>, es': seq<Entry>, k: nat)
    requires Lengthened(es0, es) && k >= 1 && (es' == es || es' == es + ZeroEntries(k))
    ensures Lengthened(es0, es')
  {
  }

  /** Entries before `e` have been scanned, the last `cnt` of them are usable, and `eod` says whether the end mark was met. */
  ghost predicate Scanned(es: seq<Entry>, e: nat, cnt: nat, eod: bool)
  {
    && cnt <= e <= |es|
    && (!eod ==> (forall j :: 0 <= j < e ==> !IsLast(es[j])) && forall j :: e - cnt <= j < e ==> IsFree(es[j]))
    && (eod ==> exists l :: ScanEnd(es, e, cnt, l))
  }

  ghost predicate ScanEnd(es: seq<Entry>, e: nat, cnt: nat, l: nat)
  {
    && cnt <= e <= |es| && e - cnt <= l < e && IsLast(es[l])
    && (forall j :: 0 <= j < l ==> !IsLast(es[j])) && (forall j :: e - cnt <= j < l ==> IsFree(es[j]))
  }

  /** The entry at which the first loop of `dir_add` stands when it has found `need` usable entries in a row: `cnt` of them
      lie in front of `i`, and behind the entries there are always more. */
  ghost function Stop(es: seq<Entry>, i: nat, cnt: nat, eod: bool, need: nat): nat
    decreases |es| - i
  {
    if cnt >= need then i
    else if i >= |es| then i + (need - cnt)
    else Stop(es, i + 1, if eod || IsFree(es[i]) then cnt + 1 else 0, eod || IsLast(es[i]), need)
  }

  /** A new entry may be put at `j`: the entry is free, or lies behind the end mark, or behind the last entry. */
  ghost predicate Usable(es: seq<Entry>, j: nat)
  {
    j >= |es| || IsFree(es[j]) || exists l :: 0 <= l < j && IsLast(es[l])
  }

  ghost predicate AllUsable(es: seq<Entry>, i: nat, e: nat) { forall j: nat | i <= j < e :: Usable(es, j) }

  /** The `need` entries in front of `e` are usable. */
  ghost predicate RunTo(es: seq<Entry>, need: nat, e: nat) { need <= e && AllUsable(es, e - need, e) }

  /** No `need` usable entries in a row end before `limit`. */
  ghost predicate NoRun(es: seq<Entry>, need: nat, limit: nat)
  {
    forall e: nat | e < limit :: !RunTo(es, need, e)
  }

  lemma Blocked(es: seq<Entry>, need: nat, e: nat, j: nat)
    requires need <= e && e - need <= j < e && !Usable(es, j)
    ensures !RunTo(es, need, e)
  {
  }

  lemma {:induction false} StopIs(es: seq<Entry>, i: nat, cnt: nat, eod: bool, need: nat)
    requires need >= 1 && cnt <= i && AllUsable(es, i - cnt, i) && (cnt < i && cnt < need ==> !Usable(es, i - cnt - 1))
    requires eod <==> exists l :: 0 <= l < i && l < |es| && IsLast(es[l])
    requires cnt <= need && NoRun(es, need, if cnt < need then i + 1 else i)
    ensures var r := Stop(es, i, cnt, eod, need); RunTo(es, need, r) && NoRun(es, need, r)
    decreases |es| - i
  {
    hide Usable;
    if cnt < need {
      if i >= |es| {
        Beyond(es, i, cnt, need);
      } else {
        UsableAt(es, i, eod);
        var more := eod || IsFree(es[i]);
        var cnt2 := if more then cnt + 1 else 0;
        forall e: nat | e < (if cnt2 < need then i + 2 else i + 1) ensures !RunTo(es, need, e) {
          if e == i + 1 && need <= e {
            Blocked(es, need, e, if more then i - cnt - 1 else i);
          }
        }
        StopIs(es, i + 1, cnt2, eod || IsLast(es[i]), need);
      }
    }
  }

  lemma UsableAt(es: seq<Entry>, i: nat, eod: bool)
    requires i < |es| && (eod <==> exists l :: 0 <= l < i && l < |es| && IsLast(es[l]))
    ensures Usable(es, i) <==> eod || IsFree(es[i])
  {
  }

  /** Behind the last entry everything is usable. */
  lemma Beyond(es: seq<Entry>, i: nat, cnt: nat, need: nat)
    requires i >= |es| && cnt <= i && cnt < need && AllUsable(es, i - cnt, i) && (cnt < i ==> !Usable(es, i - cnt - 1))
    requires NoRun(es, need, i + 1)
    ensures var r := i + (need - cnt); RunTo(es, need, r) && NoRun(es, need, r)
  {
    hide Usable;
    var r := i + (need - cnt);
    forall j: nat | i <= j < r ensures Usable(es, j) {
      Open(es, j);
    }
    forall e: nat | e < r ensures !RunTo(es, need, e) {
      if e > i && need <= e {
        Blocked(es, need, e, i - cnt - 1);
      }
    }
  }

  lemma Open(es: seq<Entry>, j: nat)
    requires j >= |es|
    ensures Usable(es, j)
  {
  }

  lemma NoPlace(es: seq<Entry>, len: nat, limit: nat)
    ensures Stop(es, 0, 0, false, Lfns(len) + 1) >= limit <==> NoRun(es, (len + 12) / 13 + 1, limit)
  {
    hide Stop, NoRun;
    StopMeans(es, Lfns(len) + 1, limit);
  }

  /** `dir_add` finds no place exactly if no run of usable entries ends below the last entry the directory can get. */
  lemma StopMeans(es: seq<Entry>, need: nat, limit: nat)
    requires need >= 1
    ensures Stop(es, 0, 0, false, need) >= limit <==> NoRun(es, need, limit)
  {
    hide Usable;
    StopIs(es, 0, 0, false, need);
  }

  lemma StopStep(es0: seq<Entry>, es: seq<Entry>, e: nat, cnt: nat, eod: bool, need: nat)
    requires Lengthened(es0, es) && Scanned(es, e, cnt, eod) && e < |es| && cnt < need
    ensures Stop(es0, e, cnt, eod, need)
      == Stop(es0, e + 1, if eod || IsFree(es[e]) then cnt + 1 else 0, eod || IsLast(es[e]), need)
  {
    if e >= |es0| && !eod {
      ScanBound(es0, es, e, cnt, eod);
    } else if e > |es0| {
      assert es0 <= es;
    }
  }

  lemma {:induction false} StopAfter(es: seq<Entry>, i: nat, cnt: nat, eod: bool, need: nat)
    ensures Stop(es, i, cnt, eod, need) >= i
    decreases |es| - i
  {
    if cnt < need && i < |es| {
      StopAfter(es, i + 1, if eod || IsFree(es[i]) then cnt + 1 else 0, eod || IsLast(es[i]), need);
    }
  }

  lemma StopHere(es: seq<Entry>, i: nat, cnt: nat, eod: bool, need: nat)
    requires cnt >= need
    ensures Stop(es, i, cnt, eod, need) == i
  {
  }

  /** A directory that only grew behind its end has the same files. */
  lemma SameItems(es: seq<Entry>, es': seq<Entry>)
    requires Lengthened(es, es') && Wf(es, 0)
    ensures Wf(es', 0) && Items(es', 0) == Items(es, 0)
  {
    hide Wf, Items, Search;
    if |es'| > |es| {
      Extended(es, es'[|es|..], 0, []);
      assert es + es'[|es|..] == es';
    } else {
      assert es' == es;
    }
  }

  lemma ScanStart(es: seq<Entry>)
    ensures Scanned(es, 0, 0, false)
  {
  }

  lemma ScanStep(es: seq<Entry>, e: nat, cnt: nat, eod: bool)
    requires Scanned(es, e, cnt, eod) && e < |es|
    ensures Scanned(es, e + 1, if eod || IsFree(es[e]) then cnt + 1 else 0, eod || IsLast(es[e]))
  {
    if eod {
      var l :| ScanEnd(es, e, cnt, l);
      assert ScanEnd(es, e + 1, cnt + 1, l);
    } else if IsLast(es[e]) {
      assert ScanEnd(es, e + 1, cnt + 1, e);
    }
  }

  lemma ScanLonger(es: seq<Entry>, es': seq<Entry>, e: nat, cnt: nat, eod: bool)
    requires Scanned(es, e, cnt, eod) && es <= es'
    ensures Scanned(es', e, cnt, eod)
  {
    if eod {
      var l :| ScanEnd(es, e, cnt, l);
      assert ScanEnd(es', e, cnt, l);
    }
  }

  /** Before the end mark is met the scan has not left the old entries. */
  lemma ScanBound(es0: seq<Entry>, es: seq<Entry>, e: nat, cnt: nat, eod: bool)
    requires Lengthened(es0, es) && Scanned(es, e, cnt, eod)
    ensures !eod ==> e <= |es0|
  {
  }

  lemma ScanRun(es: seq<Entry>, e: nat, cnt: nat, eod: bool)
    requires Scanned(es, e, cnt, eod) && 1 <= cnt && e < |es|
    ensures Run(es, e - cnt, e - 1, eod)
  {
    if eod {
      var l :| ScanEnd(es, e, cnt, l);
      assert EndMark(es, e - cnt, e - 1, l);
    }
  }

  lemma SpotKept(g: Geometry, c: Chain, cs: set<Chain>, v: Disk, c': Chain, cs': set<Chain>, v': Disk, k: nat, s: nat)
    requires Frame(g, c, cs, v, c', cs', v') && Real(g, c')
    ensures Spot(g, c, k, s) ==> Spot(g, c', k, s)
  {
    if Spot(g, c, k, s) {
      GrownSect(g, c, c', k);
    }
  }

  lemma DataSector(g: Geometry, chain: Chain, k: nat, s: nat)
    requires Spot(g, chain, k, s)
    ensures 0 < g.dataSect <= s < g.diskSize
  {
    SectAtIn(g, chain, k);
  }

  /** `v2` is `v1` with cluster `c` cleared. */
  ghost predicate ClearedIn(g: Geometry, v1: Disk, v2: Disk, c: nat)
  {
    |v1| == |v2| == g.diskSize && forall s: nat :: s < |v2| ==> v2[s] == if InClust(g, c, s) then Zeros() else v1[s]
  }

  /** The same sectors in front of the data region hold the same tables. */
  lemma DataOnly(g: Geometry, d: Disk, d': Disk)
    requires g.Ok() && |d| == |d'| == g.diskSize && forall s :: 0 <= s < g.dataSect ==> d'[s] == d[s]
    ensures Table(g, d') == Table(g, d) && (Mirrored(g, d) ==> Mirrored(g, d'))
  {
    hide Geometry.ClustToSect, Word;
    assert Table(g, d') == Table(g, d);
    if g.fat1 != 0 {
      assert TableAt(g, d', g.fat1) == TableAt(g, d, g.fat1);
    }
  }

  lemma ClearTables(g: Geometry, v1: Disk, v2: Disk, c: nat)
    requires g.Ok() && g.InRange(c) && ClearedIn(g, v1, v2, c)
    ensures Table(g, v2) == Table(g, v1) && (Mirrored(g, v1) ==> Mirrored(g, v2))
  {
    hide Geometry.ClustToSect, Table, Mirrored;
    ClustSectors(g, c, g.clustCnt);
    DataOnly(g, v1, v2);
  }

  /** A cluster that is not in a chain shares no sector with it. */
  lemma ClustApart(g: Geometry, chain: Chain, c: nat, s: nat)
    requires g.Ok() && Real(g, chain) && g.InRange(c) && c !in chain && InClust(g, c, s)
    ensures !InChain(g, chain, s)
  {
    hide Geometry.ClustToSect;
    if InChain(g, chain, s) {
      var i :| 0 <= i < |chain| && InClust(g, chain[i], s);
      if chain[i] < c {
        ClustSectors(g, chain[i], c);
      } else {
        ClustSectors(g, c, chain[i]);
      }
    }
  }

  lemma ClearSectors(g: Geometry, chain: Chain, v: Disk, v1: Disk, v2: Disk, c: nat)
    requires g.Ok() && Real(g, chain) && g.InRange(c) && c !in chain && ClearedIn(g, v1, v2, c) && SameData(g, v, v1)
    ensures SameSectors(g, chain, v, v2) && Cleared(g, v2, c) && OtherData(g, chain + [c], v, v2)
  {
    hide InChain, InClust;
    forall s: nat | s < |v| && InChain(g, chain, s) ensures v2[s] == v[s] {
      InChainData(g, chain, s);
      if InClust(g, c, s) {
        ClustApart(g, chain, c, s);
      }
    }
    forall s: nat | s < |v| && InClust(g, c, s) ensures InChain(g, chain + [c], s) {
      OwnClust(g, chain, c, s);
    }
  }

  lemma OwnClust(g: Geometry, chain: Chain, c: nat, s: nat)
    requires InClust(g, c, s)
    ensures InChain(g, chain + [c], s)
  {
    var ch := chain + [c];
    assert InClust(g, ch[|chain|], s);
  }

  /** The first entry of an appended cluster. */
  lemma LastEntry(g: Geometry, chain: Chain, e: nat)
    requires e + 1 == EntCount(g, chain)
    ensures e + 1 == |chain| * PerClust(g)
  {
  }

  lemma FirstOfNext(g: Geometry, chain: Chain, c: nat, e: nat)
    requires g.Ok() && Real(g, chain + [c]) && e + 1 == EntCount(g, chain)
    ensures c >= 2 && (e + 1) % 16 == 0 && e + 1 < EntCount(g, chain + [c])
    ensures Spot(g, chain + [c], (e + 1) / 16, g.ClustToSect(c)) && Shr((e + 1) / 16, g.clustShift) == |chain|
  {
    hide Geometry.ClustToSect, Geometry.Ok, Shr, Low, Real, SectAt, Pow2;
    LowMultiple(|chain|, 4 + g.clustShift);
    Low4(e + 1, g.clustShift);
    Shr4(e + 1, g.clustShift);
    CountGrows(g, chain, c);
    assert (chain + [c])[|chain|] == c;
    ClustStart(g, chain + [c], (e + 1) / 16);
  }

  /** What holds after a cleared cluster `c` has been appended. */
  lemma Appended(g: Geometry, chain: Chain, cs: set<Chain>, v: Disk, chain': Chain, cs': set<Chain>, v1: Disk, v2: Disk, c: nat)
    requires g.Ok() && chain' == chain + [c] && g.InRange(c)
    requires Real(g, chain) && Real(g, chain') && NoDup(chain')
    requires Kept(g, v, v1) && cs' - {chain'} == cs - {chain} && ClearedIn(g, v1, v2, c)
    ensures |v| == |v2| == g.diskSize && Table(g, v2) == Table(g, v1)
    ensures Entries(g, v2, chain') == Entries(g, v, chain) + ZeroEntries(PerClust(g))
    ensures Frame(g, chain, cs, v, chain', cs', v2)
  {
    hide Geometry.ClustToSect, Geometry.Ok, Table, Mirrored, Entries, Real, ClearedIn, SameData, OtherData;
    NotIn(chain, c);
    ClearTables(g, v1, v2, c);
    ClearSectors(g, chain, v, v1, v2, c);
    SizesOf(g, v, v1, v2, c);
    EntriesGrow(g, v, v2, chain, c);
  }

  lemma SizesOf(g: Geometry, v: Disk, v1: Disk, v2: Disk, c: nat)
    requires SameData(g, v, v1) && ClearedIn(g, v1, v2, c)
    ensures |v| == |v1| == |v2| == g.diskSize
  {
  }

  lemma NotIn(chain: Chain, c: nat)
    requires NoDup(chain + [c])
    ensures c !in chain
  {
    var ch := chain + [c];
    forall i | 0 <= i < |chain| ensures chain[i] != c { assert ch[i] != ch[|chain|]; }
  }

  lemma CountEnd(g: Geometry, chain: Chain, e: nat)
    requires e < EntCount(g, chain) && !Has(g, chain, (e + 1) / 16)
    ensures e + 1 == EntCount(g, chain)
  {
    HasEntry(g, chain, e + 1);
  }

  class Dir {
    const fat: Fat
    const sclust: nat
    var clust: nat
    var sect: nat
    var idx: nat
    /** The clusters of this directory, and all chains of the volume. */
    ghost var chain: Chain
    ghost var chains: set<Chain>

    ghost predicate Layout()
      reads this, fat
    {
      && fat.Valid() && Chains(fat.FatTable(), chains) && chain in chains
      && Real(fat.g, chain) && NoDup(chain) && |chain| > 0 && chain[0] == sclust && DataAligned(fat.g)
    }

    /** The entries as the driver sees them. */
    ghost function Es(): (es: seq<Entry>)
      reads this, fat
      ensures Layout() ==> |es| == EntCount(fat.g, chain)
    {
      if Layout() then Entries(fat.g, fat.View(), chain) else []
    }

    /** How many entries the directory can have before the volume is full. */
    ghost function Limit(): nat
      reads this, fat
    {
      RoomOf(fat.FatTable(), chain, fat.lastUsed) * PerClust(fat.g)
    }

    lemma LimitBound()
      requires Layout()
      ensures |Es()| <= Limit()
    {
      hide RoomOf, Entries, Chains, Geometry.Ok, Real, PerClust;
      RoomBound(fat.FatTable(), chain, fat.lastUsed);
      CountMono(|chain|, RoomOf(fat.FatTable(), chain, fat.lastUsed), PerClust(fat.g));
    }

    lemma AtIn(e: nat)
      requires At(e)
      ensures Layout() && e < |Es()|
    {
    }

    /** The cursor stands at entry `e`. */
    ghost predicate At(e: nat)
      reads this, fat
    {
      && Layout() && e < EntCount(fat.g, chain) && Spot(fat.g, chain, e / 16, sect)
      && clust == chain[Shr(e / 16, fat.g.clustShift)] && idx == 32 * (e % 16)
    }

    /** `dir_enter`: cluster 0, as entries pointing to the root hold it, stands for the root. */
    constructor (fat: Fat, entered: nat, ghost chain: Chain, ghost chains: set<Chain>)
      requires fat.Valid() && Chains(fat.FatTable(), chains) && chain in chains && |chain| > 0
      requires chain[0] == if entered == 0 then fat.g.rootClust else entered
      requires DataAligned(fat.g)
      ensures this.fat == fat && this.sclust == chain[0] && this.chain == chain && this.chains == chains && At(0)
    {
      hide Geometry.ClustToSect, Chains, Table, Geometry.Ok, Shr, Low, Has, SectAt, EntCount;
      ChainMember(fat.g, fat.FatTable(), chains, chain);
      FirstSector(fat.g, chain);
      HasEntry(fat.g, chain, 0);
      var start := if entered == 0 then fat.g.rootClust else entered;
      this.fat, this.sclust, this.chain, this.chains := fat, start, chain, chains;
      clust, sect, idx := start, fat.g.ClustToSect(start), 0;
    }

    /** `dir_at_clust` at the start of the directory. */
    method Rewind()
      requires Layout()
      modifies this`clust, this`sect, this`idx
      ensures Layout() && At(0) && Es() == old(Es()) && Limit() == old(Limit())
    {
      hide Geometry.ClustToSect, Chains, Table, Geometry.Ok, Shr, Low, Has, SectAt, EntCount, NoDup, Entries;
      FirstSector(fat.g, chain);
      HasEntry(fat.g, chain, 0);
      clust, sect, idx := sclust, fat.g.ClustToSect(sclust), 0;
    }

    /** `dir_next`: on to the next entry, across sectors and clusters; EOF exactly behind the last one. */
    method DirNext(ghost e: nat) returns (err: int)
      requires At(e)
      modifies this`clust, this`sect, this`idx, fat`disk, fat`buf, fat`sect, fat`bufDirty
      ensures Layout() && fat.View() == old(fat.View()) && Es() == old(Es())
      ensures Limit() == old(Limit()) && (old(fat.Counted()) ==> fat.Counted())
      ensures err == FAT_ERR_NONE || err == FAT_ERR_EOF
      ensures err == FAT_ERR_NONE ==> At(e + 1)
      ensures err == FAT_ERR_EOF ==> e + 1 == EntCount(fat.g, chain) && e + 1 == |Es()| && clust == chain[|chain| - 1]
    {
      hide Geometry.ClustToSect, Chains, Table, Geometry.Ok, Shr, Low, SectAt, EntCount, NoDup, Real, And, Classify, Entries, RoomOf, FreeCount, PerClust, EntryIs, Quad, Has, EntryAt;
      HasEntry(fat.g, chain, e);
      HasEntry(fat.g, chain, e + 1);
      idx := idx + 32;
      if idx < 512 {
        return FAT_ERR_NONE;
      }
      ghost var k := e / 16;
      SectorAfter(fat.g, chain, k, sect);
      idx := 0;
      sect := sect + 1;
      if And(sect, fat.g.SectPerClust() - 1) != 0 {
        return FAT_ERR_NONE;
      }
      err := NextClust(e);
    }

    /** The end of `dir_next`: to the next cluster, if there is one. */
    method NextClust(ghost e: nat) returns (err: int)
      requires Layout() && e < EntCount(fat.g, chain) && e % 16 == 15 && Has(fat.g, chain, e / 16)
      requires clust == chain[Shr(e / 16, fat.g.clustShift)] && Low(e / 16 + 1, fat.g.clustShift) == 0
      requires Shr(e / 16 + 1, fat.g.clustShift) == Shr(e / 16, fat.g.clustShift) + 1
      modifies this`clust, this`sect, this`idx, fat`disk, fat`buf, fat`sect, fat`bufDirty
      ensures Layout() && fat.View() == old(fat.View()) && Es() == old(Es())
      ensures Limit() == old(Limit()) && (old(fat.Counted()) ==> fat.Counted())
      ensures err == FAT_ERR_NONE || err == FAT_ERR_EOF
      ensures err == FAT_ERR_NONE ==> At(e + 1)
      ensures err == FAT_ERR_EOF ==> e + 1 == EntCount(fat.g, chain) && e + 1 == |Es()| && clust == chain[|chain| - 1]
    {
      hide Geometry.ClustToSect, Chains, Table, Geometry.Ok, Shr, Low, SectAt, EntCount, NoDup, Real, And, Classify, Entries, RoomOf, FreeCount,
        PerClust, EntryIs, Quad, EntryAt;
      HasEntry(fat.g, chain, e + 1);
      ghost var k := e / 16;
      LinkOf(fat.FatTable(), chains, chain, Shr(k, fat.g.clustShift));
      var next, kind;
      err, next, kind := fat.GetFat(clust);
      if err != FAT_ERR_NONE {
        return;
      }
      if kind == Bad || kind == Free {
        return FAT_ERR_BROKEN;
      }
      if kind == Last {
        CountEnd(fat.g, chain, e);
        return FAT_ERR_EOF;
      }
      ClustStart(fat.g, chain, k + 1);
      clust, sect, idx := next, fat.g.ClustToSect(next), 0;
      err := FAT_ERR_NONE;
    }

    /** `update_buf` and `dir_ptr`: the entry under the cursor. */
    method ReadEntry(ghost e: nat) returns (en: Entry)
      requires At(e)
      modifies fat`disk, fat`buf, fat`sect, fat`bufDirty
      ensures Layout() && At(e) && fat.View() == old(fat.View()) && Es() == old(Es()) && e < |Es()| && en == Es()[e]
      ensures Limit() == old(Limit()) && (old(fat.Counted()) ==> fat.Counted())
    {
      hide Geometry.ClustToSect, Chains, Table, Geometry.Ok, Shr, SectAt, EntCount, NoDup, Real, EntriesTo, Has;
      HasEntry(fat.g, chain, e);
      DataSector(fat.g, chain, e / 16, sect);
      fat.UpdateBuf(sect);
      SlotRange(e);
      en := fat.buf[idx..idx + 32];
      assert Es()[e] == EntryAt(fat.g, fat.View(), chain, e);
    }

    /** Overwrites the entry under the cursor in the buffer and marks the buffer dirty. */
    method PutEntry(en: Entry, ghost e: nat)
      requires At(e)
      modifies fat`disk, fat`buf, fat`sect, fat`bufDirty
      ensures Layout() && At(e) && e < |old(Es())| && Es() == old(Es())[e := en]
      ensures Off(old(fat.View()), fat.View(), sect)
      ensures Mirrored(fat.g, old(fat.View())) ==> Mirrored(fat.g, fat.View())
      ensures fat.FatTable() == old(fat.FatTable()) && Limit() == old(Limit()) && (old(fat.Counted()) ==> fat.Counted())
    {
      hide Geometry.ClustToSect, Chains, Table, Geometry.Ok, Shr, SectAt, EntCount, NoDup, Real, Entries, Has, Mirrored, PutSlot,
        RoomOf, FreeCount;
      HasEntry(fat.g, chain, e);
      DataSector(fat.g, chain, e / 16, sect);
      fat.UpdateBuf(sect);
      SlotRange(e);
      fat.buf := PutSlot(fat.buf, idx, en);
      fat.bufDirty := true;
      ghost var v := old(fat.View());
      assert fat.View() == v[sect := fat.buf];
      DataWrite(fat.g, v, sect, fat.buf);
      EntryPut(fat.g, v, chain, e, en, fat.View());
    }

    /** `dir_next_stretch`: like `dir_next`, but behind the last entry a cleared cluster is appended. */
    method NextStretch(ghost e: nat) returns (err: int)
      requires At(e)
      modifies this`clust, this`sect, this`idx, this`chain, this`chains, fat
      ensures Layout() && (err == FAT_ERR_NONE || err == FAT_ERR_FULL)
      ensures err == FAT_ERR_NONE ==> At(e + 1)
      ensures err == FAT_ERR_FULL ==> chain == old(chain) && OnlyFree(fat.FatTable(), fat.lastUsed)
      ensures Limit() == old(Limit()) && (err == FAT_ERR_FULL <==> e + 1 == old(Limit()))
      ensures old(fat.Counted()) ==> fat.Counted()
      ensures Es() == old(Es()) || (e + 1 == |old(Es())| && Es() == old(Es()) + ZeroEntries(PerClust(fat.g)))
      ensures Frame(fat.g, old(chain), old(chains), old(fat.View()), chain, chains, fat.View())
    {
      hide Geometry.ClustToSect, Chains, Table, Geometry.Ok, Shr, SectAt, EntCount, NoDup, Real, Entries, Frame, OnlyFree, RoomOf,
        FreeCount, PerClust;
      FrameRefl(fat.g, chain, chains, fat.View());
      err := DirNext(e);
      if err != FAT_ERR_EOF {
        LimitBound();
        AtIn(e + 1);
        return;
      }
      err := Append(e);
    }

    /** The stretching half of `dir_next_stretch`. */
    method Append(ghost e: nat) returns (err: int)
      requires Layout() && clust == chain[|chain| - 1] && e + 1 == EntCount(fat.g, chain)
      modifies this`clust, this`sect, this`idx, this`chain, this`chains, fat
      ensures Layout() && (err == FAT_ERR_NONE || err == FAT_ERR_FULL)
      ensures err == FAT_ERR_NONE ==> At(e + 1) && Es() == old(Es()) + ZeroEntries(PerClust(fat.g))
      ensures err == FAT_ERR_FULL ==> chain == old(chain) && OnlyFree(fat.FatTable(), fat.lastUsed) && Es() == old(Es())
      ensures Limit() == old(Limit()) && (err == FAT_ERR_FULL <==> e + 1 == old(Limit()))
      ensures old(fat.Counted()) ==> fat.Counted()
      ensures Frame(fat.g, old(chain), old(chains), old(fat.View()), chain, chains, fat.View())
    {
      hide Geometry.ClustToSect, Chains, Table, Geometry.Ok, Shr, SectAt, EntCount, NoDup, Real, Entries, Frame, OnlyFree,
           Linked, After, FreeCount, Kept, Classify, RoomOf, NextIsFree, Chosen, PerClust;
      ghost var t, v, c0, cs0, lu := fat.FatTable(), fat.View(), chain, chains, fat.lastUsed;
      LinkOf(t, chains, chain, |chain| - 1);
      TableLimit(t, chains);
      EndNotFree(fat.g.clustCnt, t[clust]);
      ChainsClassified(t, chains);
      FrameRefl(fat.g, chain, chains, fat.View());
      var junk: u8 := *;
      var out;
      err, out := fat.StretchChain(clust, junk);
      if err != FAT_ERR_NONE {
        RoomFull(t, chain, lu);
        LastEntry(fat.g, chain, e);
        return;
      }
      var next := out.val;
      RoomStretch(t, chain, lu, next);
      StretchedChain(t, chains, chain, next);
      chains := chains - {chain} + {chain + [next]};
      chain := chain + [next];
      ChainMember(fat.g, fat.FatTable(), chains, chain);
      ghost var v1 := fat.View();
      clust, sect, idx := next, fat.g.ClustToSect(next), 0;
      fat.ClustClear(clust);
      Appended(fat.g, c0, cs0, v, chain, chains, v1, fat.View(), next);
      FirstOfNext(fat.g, c0, next, e);
      LimitBound();
      AtIn(e + 1);
    }

    /** `parse_lfn_name`: collects the long name of a group and moves on to its short entry. `buf` is what the name buffer
        holds before. */
    method ParseLfn(buf: NameBuf, ghost e: nat) returns (err: int, name: NameBuf, len: nat, crc: u8, ghost p: nat)
      requires At(e)
      modifies this`clust, this`sect, this`idx, fat`disk, fat`buf, fat`sect, fat`bufDirty
      ensures Layout() && fat.View() == old(fat.View()) && Es() == old(Es()) && e < |Es()|
      ensures err == FAT_ERR_NONE ==> At(p)
      ensures Parse(Es(), e, buf) == if err == FAT_ERR_NONE then Collect(name, len, crc, p) else Refuse(err)
    {
      hide Dir.Layout, Dir.At, Dir.Es, Dir.Limit, Fat.Counted, Fat.View, LfnCount, Frag, ParseOn;
      name, len, p := buf, 0, e;
      AtIn(e);
      var lfn := ReadEntry(p);
      ghost var es := Es();
      crc := lfn[CRC];
      var cnt: nat := LfnCount(lfn);
      if cnt > 20 {
        return FAT_ERR_BROKEN, name, len, crc, p;
      }
      while cnt > 0
        invariant cnt <= 20 && At(p) && Layout() && fat.View() == old(fat.View()) && Es() == es && p < |es| && lfn == es[p]
        invariant Parse(es, e, buf) == ParseOn(es, p, cnt, crc, name, len)
        decreases cnt
      {
        ParseTurn(es, p, cnt, crc, name, len);
        if !IsLfn(lfn) || lfn[CRC] != crc {
          return FAT_ERR_BROKEN, name, len, crc, p;
        }
        cnt := cnt - 1;
        var n;
        name, n := TakeChars(name, 13 * cnt, lfn);
        len := len + n;
        err := DirNext(p);
        if err != FAT_ERR_NONE {
          return;
        }
        p := p + 1;
        AtIn(p);
        lfn := ReadEntry(p);
      }
      ParseTurn(es, p, 0, crc, name, len);
      err := if len <= 255 then FAT_ERR_NONE else FAT_ERR_BROKEN;
    }

    /** The branch of `dir_search` for a long name: parse it, check that the short entry is its own, and compare. */
    method MatchLong(name: Name, buf: NameBuf, ghost e: nat) returns (err: int, found: bool, gBuf: NameBuf, ghost p: nat)
      requires At(e) && e < |Es()| && !IsFree(Es()[e]) && IsLfn(Es()[e])
      modifies this`clust, this`sect, this`idx, fat`disk, fat`buf, fat`sect, fat`bufDirty
      ensures Layout() && fat.View() == old(fat.View()) && Es() == old(Es())
      ensures err != FAT_ERR_NONE ==> Walk(Es(), name, buf, e) == Failed(err)
      ensures err == FAT_ERR_NONE ==> At(p) && p == e + LfnCount(Es()[e])
      ensures err == FAT_ERR_NONE ==> Walk(Es(), name, buf, e) == if found then Found(p) else Walk(Es(), name, gBuf, p + 1)
    {
      hide Dir.Layout, Dir.At, Dir.Es, Dir.Limit, Fat.Counted, Fat.View, Crc, NameEq, Parse, Walk, LfnCount;
      WalkLong(Es(), name, buf, e);
      ParsePos(Es(), e, buf);
      var len, crc;
      err, gBuf, len, crc, p := ParseLfn(buf, e);
      found := false;
      if err != FAT_ERR_NONE {
        return;
      }
      AtIn(p);
      var sfn := ReadEntry(p);
      var own := GetCrc(sfn[..11]);
      if IsFree(sfn) || IsLfn(sfn) || crc != own {
        return FAT_ERR_BROKEN, false, gBuf, p;
      }
      found := len == |name| && NameEq(gBuf[..len], name);
    }

    /** `dir_search`, with the cursor at the short entry when the name is found: the walk over the entries, which on a
        well-formed directory gives the first file that matches. The place of its first entry is returned as well. `buf` is
        whatever the name buffer holds before. */
    method DirSearch(name: Name, buf: NameBuf) returns (err: int, lsect: nat, lidx: nat, ghost s: nat, ghost p: nat)
      requires Layout()
      modifies this`clust, this`sect, this`idx, fat`disk, fat`buf, fat`sect, fat`bufDirty
      ensures Layout() && fat.View() == old(fat.View()) && Es() == old(Es()) && Limit() == old(Limit())
      ensures err == FAT_ERR_NONE ==> At(p) && s <= p && Spot(fat.g, chain, s / 16, lsect) && lidx == 32 * (s % 16)
      ensures Walk(Es(), name, buf, 0) == if err == FAT_ERR_NONE then Found(p) else Failed(err)
      ensures Wf(Es(), 0) ==> Outcome(Es(), name, 0, err, p)
      ensures err == FAT_ERR_NONE ==> FileAt(Es(), s, p)
      ensures old(fat.Counted()) ==> fat.Counted()
    {
      hide Chains, Table, Geometry.ClustToSect, Geometry.Ok, Real, NoDup, Entries, EntCount, Spot, Fat.View, RoomOf, FreeCount, Wf, Outcome,
        FileAt, Walk, Dir.At;
      err, lsect, lidx, s, p := SearchLoop(name, buf);
    }

    /** One turn of the loop of `dir_search`, at entry `e`: it ends the search, or passes the entries up to `p`. */
    method SearchTurn(name: Name, sfnName: Name, buf: NameBuf, ghost e: nat)
      returns (err: int, stop: bool, gBuf: NameBuf, lsect: nat, lidx: nat, ghost p: nat)
      requires At(e) && sfnName == SfnName(name) && PartFrom(Es(), e)
      modifies this`clust, this`sect, this`idx, fat`disk, fat`buf, fat`sect, fat`bufDirty
      ensures Layout() && fat.View() == old(fat.View()) && Es() == old(Es())
      ensures err != FAT_ERR_NONE ==> stop && Walk(Es(), name, buf, e) == Failed(err)
      ensures err == FAT_ERR_NONE ==> At(p) && e <= p
      ensures err == FAT_ERR_NONE && stop ==> Walk(Es(), name, buf, e) == Found(p) && FileAt(Es(), e, p)
      ensures err == FAT_ERR_NONE && stop ==> Spot(fat.g, chain, e / 16, lsect) && lidx == 32 * (e % 16)
      ensures !stop ==> Walk(Es(), name, buf, e) == Walk(Es(), name, gBuf, p + 1) && PartFrom(Es(), p + 1)
    {
      hide Dir.Layout, Dir.At, Dir.Es, Dir.Limit, Fat.Counted, Fat.View, Crc, SfnName, NameEq, Parse, Walk, Spot,
        PartFrom, FileAt, LfnCount;
      ghost var es := Es();
      gBuf, lsect, lidx, p := buf, 0, 0, e;
      AtIn(e);
      WalkPlain(es, name, buf, e);
      var en := ReadEntry(e);
      if IsLast(en) {
        return FAT_ERR_EOF, true, gBuf, lsect, lidx, p;
      }
      if IsFree(en) {
        PartPlain(es, e);
        return FAT_ERR_NONE, false, gBuf, lsect, lidx, p;
      }
      AtSpot(e);
      lsect, lidx := sect, idx;
      if IsLfn(en) {
        PartLong(es, e);
        err, stop, gBuf, p := MatchLong(name, gBuf, e);
        stop := stop || err != FAT_ERR_NONE;
      } else {
        PartPlain(es, e);
        err, stop := FAT_ERR_NONE, en[..11] == sfnName;
      }
    }

    /** The loop of `dir_search`. */
    method SearchLoop(name: Name, buf: NameBuf) returns (err: int, lsect: nat, lidx: nat, ghost s: nat, ghost p: nat)
      requires Layout()
      modifies this`clust, this`sect, this`idx, fat`disk, fat`buf, fat`sect, fat`bufDirty
      ensures Layout() && fat.View() == old(fat.View()) && Es() == old(Es())
      ensures err == FAT_ERR_NONE ==> At(p) && s <= p && Spot(fat.g, chain, s / 16, lsect) && lidx == 32 * (s % 16)
      ensures Walk(Es(), name, buf, 0) == if err == FAT_ERR_NONE then Found(p) else Failed(err)
      ensures Wf(Es(), 0) ==> Outcome(Es(), name, 0, err, p)
      ensures err == FAT_ERR_NONE ==> FileAt(Es(), s, p)
    {
      hide Dir.Layout, Dir.At, Dir.Es, Dir.Limit, Fat.Counted, Fat.View, Wf, SfnName, Walk, Outcome, Spot, PartFrom, FileAt;
      if Wf(Es(), 0) {
        WalkMeans(Es(), name, buf);
      }
      var sfnName := PutSfnName(name);
      var gBuf := buf;
      Rewind();
      s, p := 0, 0;
      ghost var es := Es();
      PartStart(es);
      while true
        invariant Layout() && At(p) && fat.View() == old(fat.View()) && Es() == es && es == old(Es())
        invariant Walk(es, name, buf, 0) == Walk(es, name, gBuf, p) && PartFrom(es, p)
        decreases |es| - p
      {
        AtIn(p);
        s := p;
        var stop;
        err, stop, gBuf, lsect, lidx, p := SearchTurn(name, sfnName, gBuf, p);
        if stop {
          return;
        }
        AtIn(p);
        err := DirNext(p);
        p := p + 1;
        if err != FAT_ERR_NONE {
          WalkPlain(es, name, gBuf, p);
          return;
        }
      }
    }

    /** `remove_entries`: every entry from the given place up to the cursor is marked as deleted. */
    method RemoveEntries(lsect: nat, lidx: nat, ghost s: nat, ghost p: nat)
      requires At(p) && s <= p && Spot(fat.g, chain, s / 16, lsect) && lidx == 32 * (s % 16)
      modifies this`clust, this`sect, this`idx, fat`disk, fat`buf, fat`sect, fat`bufDirty
      ensures Layout() && At(p) && Deleted(old(Es()), Es(), s, p + 1) && Limit() == old(Limit())
      ensures Frame(fat.g, chain, chains, old(fat.View()), chain, chains, fat.View())
      ensures old(fat.Counted()) ==> fat.Counted()
    {
      hide Dir.Layout, Dir.At, Dir.Es, Dir.Limit, Fat.View, Fat.FatTable, Fat.Counted, Frame, Spot, Deleted;
      AtIn(p);
      AtSpot(p);
      InCount(s);
      var esect, eidx := sect, idx;
      Goto(lsect, lidx, s);
      ghost var q := s;
      FrameNow();
      DeletedNone(Es(), s);
      while true
        invariant Layout() && s <= q <= p && At(q) && Limit() == old(Limit()) && (old(fat.Counted()) ==> fat.Counted())
        invariant Deleted(old(Es()), Es(), s, q) && |Es()| == |old(Es())| && p < |Es()|
        invariant Frame(fat.g, chain, chains, old(fat.View()), chain, chains, fat.View())
        decreases p - q
      {
        AtIn(q);
        AtSpot(q);
        ghost var v, x := fat.View(), Es();
        var en := ReadEntry(q);
        PutEntry(en[0 := 0xe5], q);
        FramePut(fat.g, chain, chains, old(fat.View()), v, fat.View(), q / 16, sect);
        DeletedMore(old(Es()), x, s, q);
        SameSlot(q, p, esect, eidx);
        if sect == esect && idx == eidx {
          return;
        }
        var err := DirNext(q);
        q := q + 1;
      }
    }

    /** Different entries of the directory lie at different places. */
    lemma SameSlot(q: nat, p: nat, esect: nat, eidx: nat)
      requires At(q) && p < |Es()| && Spot(fat.g, chain, p / 16, esect) && eidx == 32 * (p % 16)
      ensures sect == esect && idx == eidx <==> q == p
    {
      hide Chains, Table, Geometry.ClustToSect, Geometry.Ok, SectAt, Has, Shr, EntCount, Entries;
      if q / 16 != p / 16 {
        SectAtInjective(fat.g, chain, q / 16, p / 16);
      }
    }

    /** The directory's part of removing a file: on a well-formed directory the first file that matches is gone and every
        other one as before, or no file matches and nothing has changed. */
    method Unlink(name: Name, buf: NameBuf) returns (err: int)
      requires Layout()
      modifies this`clust, this`sect, this`idx, fat`disk, fat`buf, fat`sect, fat`bufDirty
      ensures Layout() && Unlinked(old(Es()), Es(), name, err) && Limit() == old(Limit())
      ensures Frame(fat.g, chain, chains, old(fat.View()), chain, chains, fat.View())
      ensures old(fat.Counted()) ==> fat.Counted()
    {
      hide Dir.Layout, Dir.At, Dir.Es, Dir.Limit, Fat.View, Fat.FatTable, Fat.Counted, Frame, Spot, Deleted, Wf, Items, Matches, Walk;
      FrameNow();
      var lsect, lidx;
      ghost var s, p;
      err, lsect, lidx, s, p := DirSearch(name, buf);
      if err != FAT_ERR_NONE {
        return;
      }
      RemoveEntries(lsect, lidx, s, p);
      UnlinkedIs(old(Es()), Es(), name, s, p);
    }

    /** The first loop of `dir_add`: a run of `need` entries that may be overwritten, stretching the directory when its
        end is reached. The place of the first entry is returned, and the cursor stands behind the run. */
    method FindRun(need: nat) returns (err: int, ssect: nat, sidx: nat, eod: bool, ghost s: nat)
      requires Layout() && At(0) && need >= 1
      modifies this`clust, this`sect, this`idx, this`chain, this`chains, fat
      ensures Layout() && (err == FAT_ERR_NONE || err == FAT_ERR_FULL)
      ensures Lengthened(old(Es()), Es())
      ensures err == FAT_ERR_NONE ==> At(s + need) && Run(Es(), s, s + need - 1, eod) && Spot(fat.g, chain, s / 16, ssect) && sidx == 32 * (s % 16)
      ensures err == FAT_ERR_FULL ==> OnlyFree(fat.FatTable(), fat.lastUsed)
      ensures Limit() == old(Limit()) && (err == FAT_ERR_FULL <==> Stop(old(Es()), 0, 0, false, need) >= old(Limit()))
      ensures old(fat.Counted()) ==> fat.Counted()
      ensures Frame(fat.g, old(chain), old(chains), old(fat.View()), chain, chains, fat.View())
    {
      hide Dir.Layout, Dir.At, Dir.Es, Dir.Limit, Fat.View, Fat.FatTable, Scanned, Lengthened, Frame, OnlyFree, Run, Spot, PerClust, ZeroEntries, Real,
        Stop, Fat.Counted;
      var cnt := 0;
      eod, ssect, sidx, s := false, 0, 0, 0;
      ghost var e := 0;
      FrameNow();
      ScanStart(Es());
      LengthenedRefl(Es());
      while cnt < need
        invariant Layout() && At(e) && cnt <= need && cnt <= e
        invariant Lengthened(old(Es()), Es()) && Scanned(Es(), e, cnt, eod)
        invariant Limit() == old(Limit()) && Stop(old(Es()), 0, 0, false, need) == Stop(old(Es()), e, cnt, eod, need)
        invariant old(fat.Counted()) ==> fat.Counted()
        invariant cnt > 0 ==> s == e - cnt && Spot(fat.g, chain, s / 16, ssect) && sidx == 32 * (s % 16)
        invariant Frame(fat.g, old(chain), old(chains), old(fat.View()), chain, chains, fat.View())
        decreases if eod then 0 else |old(Es())| + 1 - e, need - cnt
      {
        ScanBound(old(Es()), Es(), e, cnt, eod);
        AtIn(e);
        AtSpot(e);
        var en := ReadEntry(e);
        ghost var es := Es();
        ScanStep(es, e, cnt, eod);
        StopStep(old(Es()), es, e, cnt, eod, need);
        if eod || IsFree(en) {
          if cnt == 0 {
            ssect, sidx, s := sect, idx, e;
          }
          cnt := cnt + 1;
        } else {
          cnt := 0;
        }
        if IsLast(en) {
          eod := true;
        }
        ghost var c, cs, v := chain, chains, fat.View();
        err := NextStretch(e);
        e := e + 1;
        FrameTrans(fat.g, old(chain), old(chains), old(fat.View()), c, cs, v, chain, chains, fat.View());
        LengthenedMore(old(Es()), es, Es(), PerClust(fat.g));
        StopAfter(old(Es()), e, cnt, eod, need);
        if err != FAT_ERR_NONE {
          return;
        }
        ScanLonger(es, Es(), e, cnt, eod);
        AtSpot(e);
        SpotKept(fat.g, c, cs, v, chain, chains, fat.View(), s / 16, ssect);
      }
      err := FAT_ERR_NONE;
      AtIn(e);
      LimitBound();
      StopHere(old(Es()), e, cnt, eod, need);
      ScanRun(Es(), e, cnt, eod);
    }

    lemma FrameNow()
      requires Layout()
      ensures Frame(fat.g, chain, chains, fat.View(), chain, chains, fat.View())
    {
      FrameRefl(fat.g, chain, chains, fat.View());
    }

    lemma AtSpot(e: nat)
      requires At(e)
      ensures Spot(fat.g, chain, e / 16, sect) && idx == 32 * (e % 16) && Real(fat.g, chain)
    {
    }

    /** Back to an entry whose place was kept. */
    method Goto(ssect: nat, sidx: nat, ghost s: nat)
      requires Layout() && s < EntCount(fat.g, chain) && Spot(fat.g, chain, s / 16, ssect) && sidx == 32 * (s % 16)
      modifies this`clust, this`sect, this`idx
      ensures Layout() && At(s) && Es() == old(Es()) && Limit() == old(Limit())
    {
      hide Geometry.ClustToSect, Chains, Table, Geometry.Ok, Low, Has, NoDup, Entries, SectAt, EntCount, Real;
      PlaceOf(fat.g, chain, s / 16, ssect);
      clust := SectToClust(fat.g, ssect);
      sect, idx := ssect, sidx;
    }

    /** The end of `dir_add` up to the short entry: the long-name entries, last part first. */
    method WriteLfns(name: Name, ghost mid: seq<Entry>, ghost s: nat, ghost eod: bool)
      requires Layout() && At(s) && GoodName(name) && Partial(mid, Es(), name, s, s, eod)
      modifies this`clust, this`sect, this`idx, fat`disk, fat`buf, fat`sect, fat`bufDirty
      ensures Layout() && At(s + Lfns(|name|)) && Partial(mid, Es(), name, s, s + Lfns(|name|), eod)
      ensures Limit() == old(Limit()) && (old(fat.Counted()) ==> fat.Counted())
      ensures Frame(fat.g, chain, chains, old(fat.View()), chain, chains, fat.View())
    {
      hide Dir.Layout, Dir.At, Dir.Es, Dir.Limit, Fat.View, Fat.FatTable, Fat.Counted, Partial, Frame, LfnEntry, Crc, SfnName, Lfns;
      var sfnName := PutSfnName(name);
      var crc := GetCrc(sfnName);
      var i := Lfns(|name|);
      ghost var q := s;
      FrameNow();
      while i > 0
        invariant 0 <= i <= Lfns(|name|) && q == s + Lfns(|name|) - i && Layout() && At(q)
        invariant Partial(mid, Es(), name, s, q, eod)
        invariant Limit() == old(Limit()) && (old(fat.Counted()) ==> fat.Counted())
        invariant Frame(fat.g, chain, chains, old(fat.View()), chain, chains, fat.View())
        decreases i
      {
        AtIn(q);
        AtSpot(q);
        ghost var v, x := fat.View(), Es();
        var en := ReadEntry(q);
        var lfn := MakeLfn(en, name, i, crc);
        PutEntry(lfn, q);
        FramePut(fat.g, chain, chains, old(fat.View()), v, fat.View(), q / 16, sect);
        PartialPut(mid, x, name, s, q, eod, lfn);
        PartialSize(mid, Es(), name, s, q + 1, eod);
        var err := DirNext(q);
        q := q + 1;
        i := i - 1;
      }
    }

    /** The middle of `dir_add`: find a run, put a new end mark behind it if it takes the old one, and go back to its start. */
    method Prepare(name: Name) returns (err: int, ghost s: nat, ghost mid: seq<Entry>, ghost end: bool)
      requires Layout() && GoodName(name)
      modifies this`clust, this`sect, this`idx, this`chain, this`chains, fat
      ensures Layout() && (err == FAT_ERR_NONE || err == FAT_ERR_FULL)
      ensures err == FAT_ERR_FULL ==> OnlyFree(fat.FatTable(), fat.lastUsed) && Lengthened(old(Es()), Es())
      ensures Limit() == old(Limit()) && (err == FAT_ERR_FULL <==> Stop(old(Es()), 0, 0, false, Lfns(|name|) + 1) >= old(Limit()))
      ensures old(fat.Counted()) ==> fat.Counted()
      ensures err == FAT_ERR_NONE ==>
                At(s) && Lengthened(old(Es()), mid) && Run(mid, s, s + Lfns(|name|), end) && Partial(mid, Es(), name, s, s, end)
      ensures Frame(fat.g, old(chain), old(chains), old(fat.View()), chain, chains, fat.View())
    {
      hide Dir.Layout, Dir.At, Dir.Es, Dir.Limit, Fat.View, Fat.FatTable, Fat.Counted, Partial, Frame, Lfns, Lengthened, Run, Spot, OnlyFree, Stop;
      var lfns := Lfns(|name|);
      Rewind();
      var ssect, sidx, eod;
      err, ssect, sidx, eod, s := FindRun(lfns + 1);
      mid, end := Es(), eod;
      if err != FAT_ERR_NONE {
        return;
      }
      ghost var p := s + lfns;
      ghost var v := fat.View();
      AtIn(p + 1);
      AtSpot(p + 1);
      FrameNow();
      if eod {
        var en := ReadEntry(p + 1);
        PutEntry(en[0 := 0], p + 1);
        FramePut(fat.g, chain, chains, v, v, fat.View(), (p + 1) / 16, sect);
      }
      FrameTrans(fat.g, old(chain), old(chains), old(fat.View()), chain, chains, v, chain, chains, fat.View());
      PartialStart(mid, Es(), name, s, eod);
      RunIn(mid, s, p, eod);
      InCount(s);
      Goto(ssect, sidx, s);
    }

    /** `dir_add`. The volume is full exactly if the first run of enough free entries ends behind the last entry that the
        directory can get; the files are then as before. When the name was not there, the directory afterwards is well
        formed, the search finds the name at the new short entry under the cursor, and the live files are the earlier
        ones, unchanged, and the new one. */
    method DirAdd(name: Name, attr: u8, clust: nat, date: nat, time: nat) returns (err: int, ghost p: nat, ghost start: nat)
      requires Layout() && attr != ATTR_LFN && clust < 0x1_0000_0000 && date < 0x1_0000 && time < 0x1_0000
      requires forall i :: 0 <= i < |name| ==> name[i] != 0
      modifies this`clust, this`sect, this`idx, this`chain, this`chains, fat
      ensures Layout()
      ensures err == FAT_ERR_NONE || err == FAT_ERR_PARAM || err == FAT_ERR_FULL
      ensures err == FAT_ERR_PARAM <==> |name| == 0 || |name| > 255
      ensures err == FAT_ERR_FULL <==> 1 <= |name| <= 255 && NoRun(old(Es()), (|name| + 12) / 13 + 1, old(Limit()))
      ensures err == FAT_ERR_FULL ==> OnlyFree(fat.FatTable(), fat.lastUsed) && Lengthened(old(Es()), Es())
      ensures err != FAT_ERR_NONE && old(Wf(Es(), 0)) ==> Wf(Es(), 0) && Items(Es(), 0) == old(Items(Es(), 0))
      ensures old(fat.Counted()) ==> fat.Counted()
      ensures err == FAT_ERR_NONE ==> At(p) && p < |Es()| && Es()[p] == MakeSfn(name, attr, clust, date, time)
      ensures err == FAT_ERR_NONE ==> AddedTo(old(Es()), Es(), name, start, p)
      ensures Frame(fat.g, old(chain), old(chains), old(fat.View()), chain, chains, fat.View())
    {
      hide Dir.Layout, Dir.At, Dir.Es, Fat.View, Fat.FatTable, Partial, Frame, SfnName, Lfns, AddedTo, Lengthened, Run, Spot, OnlyFree, MakeSfn,
        Dir.Limit, Fat.Counted, Stop, Wf, Items, NoRun;
      p, start := 0, 0;
      FrameNow();
      LengthenedRefl(Es());
      if |name| == 0 || |name| > 255 {
        return FAT_ERR_PARAM, 0, 0;
      }
      NoPlace(Es(), |name|, Limit());
      ghost var mid, end;
      err, start, mid, end := Prepare(name);
      if err != FAT_ERR_NONE {
        if Wf(old(Es()), 0) {
          SameItems(old(Es()), Es());
        }
        return;
      }
      p := start + Lfns(|name|);
      ghost var v1, c, cs := fat.View(), chain, chains;
      WriteLfns(name, mid, start, end);
      ghost var v2, x := fat.View(), Es();
      AtSpot(p);
      SfnRoundTrip(name, attr, clust, date, time);
      var sfn := MakeSfn(name, attr, clust, date, time);
      PutEntry(sfn, p);
      FramePut(fat.g, chain, chains, v1, v2, fat.View(), p / 16, sect);
      FrameTrans(fat.g, old(chain), old(chains), old(fat.View()), c, cs, v1, chain, chains, fat.View());
      Finished(old(Es()), mid, x, name, start, end, sfn);
    }

    lemma InCount(s: nat)
      requires Layout() && s < |Es()|
      ensures s < EntCount(fat.g, chain)
    {
    }
  }
}
