/** A mounted volume: the one-sector write-back buffer, the allocation table behind it and the
    cluster allocator of kernel/src/fs/fat32.c. */
module FatVolume {
  import opened Base
  import opened Bits
  import opened FatDisk
  import opened FatTable

  const FSINFO_FREE_CNT: nat := 122
  const FSINFO_NEXT_FREE: nat := 123

  /** Arithmetic on a `u32`. */
  function Wrap32(x: int): (r: nat)
    ensures r < 0x1_0000_0000
    ensures 0 <= x < 0x1_0000_0000 ==> r == x
  {
    x % 0x1_0000_0000
  }

  ghost function WithInfo(g: Geometry, d: Disk, lastUsed: nat, freeCnt: nat): Disk
    requires g.Ok() && |d| == g.diskSize && lastUsed < 0x1_0000_0000 && freeCnt < 0x1_0000_0000
  {
    d[g.infoSect := SetWord(SetWord(d[g.infoSect], FSINFO_NEXT_FREE, lastUsed), FSINFO_FREE_CNT, freeCnt)]
  }

  /** The data region holds the same sectors. */
  ghost predicate SameData(g: Geometry, d: Disk, d': Disk)
  {
    |d| == |d'| == g.diskSize && forall s :: g.dataSect <= s < |d| ==> d'[s] == d[s]
  }

  /** Both copies of the table agree in the bits that count. */
  ghost predicate Mirrored(g: Geometry, d: Disk)
  {
    g.Ok() && |d| == g.diskSize && (g.fat1 != 0 ==> TableAt(g, d, g.fat1) == Table(g, d))
  }

  function Zeros(): Sector
  {
    seq(SECT, _ => 0)
  }

  /** What every change of the table leaves alone: the data region, and the agreement of the copies. */
  ghost predicate Kept(g: Geometry, d: Disk, d': Disk)
  {
    SameData(g, d, d') && (Mirrored(g, d) ==> Mirrored(g, d'))
  }

  lemma KeptRefl(g: Geometry, d: Disk)
    requires g.Ok() && |d| == g.diskSize
    ensures Kept(g, d, d)
  {
  }

  lemma KeptTrans(g: Geometry, a: Disk, b: Disk, c: Disk)
    requires Kept(g, a, b) && Kept(g, b, c)
    ensures Kept(g, a, c)
  {
  }

  lemma InfoApart(g: Geometry, d: Disk, lastUsed: nat, freeCnt: nat)
    requires g.Ok() && |d| == g.diskSize && lastUsed < 0x1_0000_0000 && freeCnt < 0x1_0000_0000
    ensures var d' := WithInfo(g, d, lastUsed, freeCnt);
            Table(g, d') == Table(g, d) && Kept(g, d, d')
  {
    hide Geometry.ClustToSect, Word, SetWord;
    var d' := WithInfo(g, d, lastUsed, freeCnt);
    assert Table(g, d') == Table(g, d);
    if g.fat1 != 0 {
      assert TableAt(g, d', g.fat1) == TableAt(g, d, g.fat1);
    }
  }

  lemma CountBound(t: seq<nat>)
    requires |t| <= BAD
    ensures FreeCount(t) < 0x1_0000_0000
  {
    if |t| >= 2 {
      FreeBelowBound(t, |t|);
    }
  }

  lemma StretchCounts(t: seq<nat>, prev: nat, out: nat)
    requires 2 <= out < |t| <= BAD && t[out] == 0
    requires prev == 0 || (2 <= prev < |t| && t[prev] != 0)
    ensures 0 < FreeCount(t) < 0x1_0000_0000
    ensures FreeCount(After(t, Linked(t, prev, out))) == FreeCount(t) - 1
  {
    CountBound(t);
    FreeBelowUpdate(t, |t|, out, EOC);
    if prev != 0 {
      FreeBelowUpdate(t[out := EOC], |t|, prev, out);
    }
  }

  /** A successful call: which cluster it took, and the table after each of its writes. */
  ghost predicate Stretched(t: seq<nat>, prev: nat, lastUsed: nat, c: nat, before: seq<seq<nat>>, trace: seq<seq<nat>>, t': seq<nat>)
  {
    && prev < |t| && 2 <= c < |t| && t[c] == 0 && Chosen(t, prev, lastUsed, c)
    && trace == before + Linked(t, prev, c) && t' == After(t, Linked(t, prev, c))
  }

  /** Each successful call uses up one of the clusters that could be hung in. */
  lemma AvailStretch(t: seq<nat>, prev: nat, lastUsed: nat, out: nat)
    requires 2 <= prev < |t| <= BAD && t[prev] != 0 && 2 <= out < |t| && t[out] == 0 && Chosen(t, prev, lastUsed, out)
    ensures Avail(After(t, Linked(t, prev, out)), out, out) + 1 == Avail(t, prev, lastUsed)
  {
    hide FreeCount;
    StretchCounts(t, prev, out);
    AvailTaken(After(t, Linked(t, prev, out)), out);
  }

  /** One turn of the removal loop, from table `t` at cluster `c` to table `t'`. */
  ghost predicate RemovedOne(t: seq<nat>, c: nat, err: int, next: nat, last: bool, t': seq<nat>)
    requires c < |t|
  {
    if err != FAT_ERR_NONE then
      Remove(t, c) == RemoveResult(err, []) && t' == t
    else
      && t[c] != 0 && t' == t[c := 0]
      && (last ==> Remove(t, c) == RemoveResult(FAT_ERR_NONE, [t']))
      && (!last ==> next < |t| && Remove(t, c) == RemoveResult(Remove(t', next).err, [t'] + Remove(t', next).tables))
  }

  /** `done` are the tables written so far by the removal of `first`, which now stands at `c` of `now`. */
  ghost predicate Progress(t: seq<nat>, first: nat, done: seq<seq<nat>>, now: seq<nat>, c: nat)
  {
    && first < |t| == |now| && c < |now| && now == After(t, done)
    && Remove(t, first) == RemoveResult(Remove(now, c).err, done + Remove(now, c).tables)
  }

  lemma ProgressStart(t: seq<nat>, c: nat)
    requires c < |t|
    ensures Progress(t, c, [], t, c)
  {
    hide Remove;
    assert [] + Remove(t, c).tables == Remove(t, c).tables;
  }

  lemma ProgressStep(t: seq<nat>, first: nat, done: seq<seq<nat>>, now: seq<nat>, c: nat,
                     err: int, next: nat, last: bool, now': seq<nat>)
    requires Progress(t, first, done, now, c) && RemovedOne(now, c, err, next, last, now')
    ensures err != FAT_ERR_NONE ==> Remove(t, first) == RemoveResult(err, done) && now' == After(t, done)
    ensures err == FAT_ERR_NONE ==> NonFree(now') < NonFree(now)
    ensures err == FAT_ERR_NONE && !last ==> Progress(t, first, done + [now'], now', next)
    ensures err == FAT_ERR_NONE && last ==>
              Remove(t, first) == RemoveResult(FAT_ERR_NONE, done + [now']) && now' == After(t, done + [now'])
  {
    hide Remove, NonFree;
    if err != FAT_ERR_NONE {
      assert done + [] == done;
    } else {
      NonFreeClear(now, c);
      if !last {
        var rest := Remove(now', next).tables;
        assert done + ([now'] + rest) == (done + [now']) + rest;
      }
    }
  }

  lemma WrapStep(x: nat, n: nat)
    ensures Wrap32(Wrap32(x + n) + 1) == Wrap32(x + (n + 1))
  {
  }

  lemma EntrySector(g: Geometry, c: nat)
    requires g.Ok() && c < g.clustCnt
    ensures 0 < g.fat0 + c / 128 < g.dataSect <= g.diskSize
  {
  }

  lemma EntryOf(g: Geometry, d: Disk, c: nat)
    requires g.Ok() && |d| == g.diskSize && c < g.clustCnt
    ensures g.fat0 + c / 128 < |d| && Table(g, d)[c] == Word(d[g.fat0 + c / 128], c % 128) % M28
  {
  }

  function FlagByte(k: Kind): (r: u8)
    ensures r == k.Flags()
  {
    k.Flags()
  }

  /** `d` has been passed when the scan from `from` stands at `c`. */
  ghost predicate Behind(from: nat, c: nat, d: nat)
  {
    if c >= from then from < d <= c else d > from || d <= c
  }

  lemma GeometryCount(g: Geometry)
    requires g.Ok()
    ensures 2 < g.clustCnt <= 0x0fff_fff7
  {
  }

  lemma ZeroIsFree(n: nat, val: nat)
    ensures Classify(n, val) == Some(Free) <==> val == 0
  {
  }

  /** Changing one copy leaves the other copy alone. */
  lemma CopyApart(g: Geometry, d: Disk, d': Disk, changed: nat, other: nat)
    requires g.Ok() && |d| == |d'| == g.diskSize && g.fat1 != 0
    requires (changed == g.fat0 && other == g.fat1) || (changed == g.fat1 && other == g.fat0)
    requires forall s :: 0 <= s < |d| && !(changed <= s < changed + g.FatLen()) ==> d'[s] == d[s]
    ensures TableAt(g, d', other) == TableAt(g, d, other)
  {
    hide Geometry.ClustToSect, Word;
  }

  /** The information sector: the free count at byte 488 and the last used cluster at byte 492, low byte first. */
  ghost predicate InfoIs(s: Sector, s': Sector, freeCnt: nat, lastUsed: nat)
  {
    && Quad(s', 488) == freeCnt && Quad(s', 492) == lastUsed
    && forall j | 0 <= j < 512 && !(488 <= j < 496) :: s'[j] == s[j]
  }

  function Quad(s: Sector, p: nat): nat
    requires p + 4 <= 512
  {
    var b0: nat, b1: nat, b2: nat, b3: nat := s[p], s[p + 1], s[p + 2], s[p + 3];
    b0 + 256 * (b1 + 256 * (b2 + 256 * b3))
  }

  lemma QuadIs(s: Sector, i: nat)
    requires i < 128
    ensures Word(s, i) == Quad(s, 4 * i)
  {
  }

  lemma InfoWords(s: Sector, lastUsed: nat, freeCnt: nat)
    requires lastUsed < 0x1_0000_0000 && freeCnt < 0x1_0000_0000
    ensures InfoIs(s, SetWord(SetWord(s, FSINFO_NEXT_FREE, lastUsed), FSINFO_FREE_CNT, freeCnt), freeCnt, lastUsed)
  {
    var s1 := SetWord(s, FSINFO_NEXT_FREE, lastUsed);
    var s2 := SetWord(s1, FSINFO_FREE_CNT, freeCnt);
    WordOfSetWord(s, FSINFO_NEXT_FREE, lastUsed, FSINFO_NEXT_FREE);
    WordOfSetWord(s1, FSINFO_FREE_CNT, freeCnt, FSINFO_NEXT_FREE);
    WordOfSetWord(s1, FSINFO_FREE_CNT, freeCnt, FSINFO_FREE_CNT);
    assert Word(s2, 122) == freeCnt && Word(s2, 123) == lastUsed;
  }

  /** The disk after `put_fat`: the second copy is written first, if there is one. */
  ghost function PutDisk(g: Geometry, d: Disk, c: nat, val: nat): Disk
    requires g.Ok() && |d| == g.diskSize && c < g.clustCnt && val < M28
  {
    WithEntryFits(g, c);
    WithEntry(if g.fat1 != 0 then WithEntry(d, g.fat1, c, val) else d, g.fat0, c, val)
  }

  lemma WithEntryFits(g: Geometry, c: nat)
    requires g.Ok() && c < g.clustCnt
    ensures g.fat0 + c / 128 < g.diskSize && (g.fat1 != 0 ==> g.fat1 + c / 128 < g.diskSize)
  {
    hide Geometry.ClustToSect;
  }

  lemma PutDiskIs(g: Geometry, d: Disk, c: nat, val: nat)
    requires g.Ok() && |d| == g.diskSize && c < g.clustCnt && val < M28
    ensures var d' := PutDisk(g, d, c, val); |d'| == |d| && Table(g, d') == Table(g, d)[c := val] && Kept(g, d, d')
  {
    hide Geometry.ClustToSect, Word, SetWord, TableAt, WithEntry, OtherWords, FatWord;
    var mid := d;
    if g.fat1 != 0 {
      WithEntryTable(g, d, g.fat1, c, val);
      mid := WithEntry(d, g.fat1, c, val);
      CopyApart(g, d, mid, g.fat1, g.fat0);
    }
    WithEntryTable(g, mid, g.fat0, c, val);
    if g.fat1 != 0 {
      CopyApart(g, mid, WithEntry(mid, g.fat0, c, val), g.fat0, g.fat1);
    }
  }

  class Fat {
    const g: Geometry
    var disk: Disk
    var buf: Sector
    var sect: nat
    var bufDirty: bool
    var infoDirty: bool
    var lastUsed: nat
    var freeCnt: nat
    /** The tables left behind by every `put_fat` so far. */
    ghost var trace: seq<seq<nat>>

    /** After mounting, `sect` is 0 and the buffer holds nothing: sector 0 is never buffered. */
    ghost predicate Valid()
      reads this
    {
      && g.Ok() && |disk| == g.diskSize && sect < g.diskSize
      && (bufDirty ==> sect != 0)
      && (!bufDirty && sect != 0 ==> buf == disk[sect])
      && g.InRange(lastUsed) && freeCnt < 0x1_0000_0000
    }

    /** What the driver sees: the buffer at `sect`, the disk elsewhere. */
    ghost function View(): (d: Disk)
      reads this
    {
      if bufDirty && sect < |disk| then disk[sect := buf] else disk
    }

    ghost function FatTable(): seq<nat>
      reads this
    {
      if Valid() then Table(g, View()) else []
    }

    ghost predicate HasSector(s: nat, b: Sector)
      reads this
    {
      s < |disk| && disk[s] == b
    }

    /** `free_cnt` is the number of free clusters. */
    ghost predicate Counted()
      reads this
    {
      freeCnt == FreeCount(FatTable())
    }

    constructor (g: Geometry, disk: Disk, lastUsed: nat, freeCnt: nat)
      requires g.Ok() && |disk| == g.diskSize && g.InRange(lastUsed) && freeCnt < 0x1_0000_0000
      ensures Valid() && this.g == g && View() == disk && this.disk == disk
      ensures this.lastUsed == lastUsed && this.freeCnt == freeCnt
    {
      this.g := g;
      this.disk := disk;
      buf := seq(SECT, _ => 0);
      sect, bufDirty, infoDirty := 0, false, false;
      this.lastUsed, this.freeCnt, trace := lastUsed, freeCnt, [];
    }

    /** `sync_buf` */
    method SyncBuf()
      requires Valid()
      modifies this`disk, this`bufDirty
      ensures Valid() && !bufDirty
      ensures View() == disk == old(View())
    {
      if bufDirty {
        disk := disk[sect := buf];
        bufDirty := false;
      }
    }

    /** `update_buf` */
    method UpdateBuf(s: nat)
      requires Valid() && 0 < s < g.diskSize
      modifies this`disk, this`buf, this`sect, this`bufDirty
      ensures Valid() && View() == old(View())
      ensures sect == s && buf == View()[s]
      ensures old(sect) != s ==> !bufDirty && disk == old(View())
      ensures old(sect) == s ==> bufDirty == old(bufDirty) && disk == old(disk)
    {
      if sect != s {
        SyncBuf();
        buf := disk[s];
        sect := s;
      }
    }

    /** `sync_fs` */
    method SyncFs()
      requires Valid()
      modifies this`disk, this`buf, this`sect, this`bufDirty, this`infoDirty
      ensures Valid() && !bufDirty && !infoDirty && View() == disk
      ensures disk == if old(infoDirty) then WithInfo(g, old(View()), lastUsed, freeCnt) else old(View())
      ensures FatTable() == old(FatTable()) && Kept(g, old(View()), View())
      ensures |disk| == |old(View())| && forall s | 0 <= s < |disk| && s != g.infoSect :: disk[s] == old(View())[s]
      ensures old(infoDirty) ==> sect == g.infoSect && InfoIs(old(View())[sect], disk[sect], freeCnt, lastUsed)
    {
      hide Word, SetWord, Table, TableAt, Geometry.ClustToSect, InfoIs;
      SyncBuf();
      if infoDirty {
        UpdateBuf(g.infoSect);
        bufDirty := true;
        buf := SetWord(buf, FSINFO_NEXT_FREE, lastUsed);
        buf := SetWord(buf, FSINFO_FREE_CNT, freeCnt);
        SyncBuf();
        infoDirty := false;
        InfoApart(g, old(View()), lastUsed, freeCnt);
        InfoWords(old(View())[g.infoSect], lastUsed, freeCnt);
      }
    }

    /** `get_fat`: the classification of one entry of the active table. */
    method GetFat(c: nat) returns (err: int, val: nat, kind: Kind)
      requires Valid() && c < g.clustCnt
      modifies this`disk, this`buf, this`sect, this`bufDirty
      ensures Valid() && View() == old(View())
      ensures sect < g.dataSect
      ensures err == FAT_ERR_NONE || err == FAT_ERR_BROKEN
      ensures err == FAT_ERR_NONE <==> Classify(g.clustCnt, FatTable()[c]).Some?
      ensures err == FAT_ERR_NONE ==> val == FatTable()[c] && Classify(g.clustCnt, val) == Some(kind)
      ensures g.fat0 + c / 128 < |View()| && FatTable()[c] == Quad(View()[g.fat0 + c / 128], 4 * (c % 128)) % 0x1000_0000
      ensures EntryIs(g.clustCnt, FatTable()[c], if err == FAT_ERR_NONE then Some(kind) else None)
    {
      hide Geometry.ClustToSect, Word, Table, Geometry.Ok, EntryIs, Quad;
      val, kind := 0, Free;
      GeometryCount(g);
      ClassifyIs(g.clustCnt, FatTable()[c]);
      EntrySector(g, c);
      UpdateBuf(g.fat0 + c / 128);
      var v := Word(buf, c % 128) % M28;
      EntryOf(g, View(), c);
      QuadIs(buf, c % 128);
      if v == 0 {
        kind := Free;
      } else if v == BAD {
        kind := Bad;
      } else if v >= LAST_MIN {
        kind := Last;
      } else if v >= 2 && v < g.clustCnt {
        kind := Used;
      } else {
        return FAT_ERR_BROKEN, val, kind;
      }
      return FAT_ERR_NONE, v, kind;
    }

    /** `put_fat2`: only the low 28 bits of one entry change. */
    method PutFat2(fatSect: nat, c: nat, val: nat)
      requires Valid() && c < g.clustCnt && val < M28
      requires fatSect == g.fat0 || (g.fat1 != 0 && fatSect == g.fat1)
      modifies this`disk, this`buf, this`sect, this`bufDirty
      ensures Valid() && sect < g.dataSect
      ensures fatSect + c / 128 < g.diskSize && View() == WithEntry(old(View()), fatSect, c, val)
    {
      hide Geometry.ClustToSect, Word, SetWord;
      UpdateBuf(fatSect + c / 128);
      var w := Word(buf, c % 128);
      buf := SetWord(buf, c % 128, (w - w % M28) + val % M28);
      bufDirty := true;
    }

    /** `put_fat` */
    method PutFat(c: nat, val: nat)
      requires Valid() && c < g.clustCnt && val < M28
      modifies this`disk, this`buf, this`sect, this`bufDirty, this`trace
      ensures Valid() && sect < g.dataSect
      ensures FatTable() == old(FatTable())[c := val]
      ensures Kept(g, old(View()), View())
      ensures trace == old(trace) + [FatTable()]
    {
      hide Geometry.ClustToSect, Word, SetWord, Table, WithEntry, Geometry.Ok, Kept;
      PutDiskIs(g, View(), c, val);
      if g.fat1 != 0 {
        PutFat2(g.fat1, c, val);
      }
      PutFat2(g.fat0, c, val);
      trace := trace + [FatTable()];
    }

    /** `clust_clear`: the sectors of one cluster become zero, through the buffer. */
    method ClustClear(c: nat)
      requires Valid() && g.InRange(c)
      modifies this`disk, this`buf, this`sect, this`bufDirty
      ensures Valid() && !bufDirty && View() == disk
      ensures g.dataSect <= g.ClustToSect(c) && g.ClustToSect(c) + g.SectPerClust() <= g.diskSize
      ensures forall s :: 0 <= s < g.diskSize ==>
                disk[s] == if g.ClustToSect(c) <= s < g.ClustToSect(c) + g.SectPerClust() then Zeros() else old(View())[s]
    {
      ClustSectors(g, c, g.clustCnt);
      hide Geometry.ClustToSect, Pow2;
      SyncBuf();
      var first := g.ClustToSect(c);
      var s := first;
      buf := Zeros();
      ghost var d := disk;
      for i := 0 to g.SectPerClust()
        invariant s == first + i && |disk| == |d|
        invariant i == 0 ==> !bufDirty && disk == d
        invariant i > 0 ==> Valid() && !bufDirty && sect == s - 1
        invariant buf == Zeros()
        invariant g.Ok() && |disk| == g.diskSize && g.InRange(lastUsed) && freeCnt < 0x1_0000_0000
        invariant forall k :: 0 <= k < |d| ==> disk[k] == if first <= k < s then Zeros() else d[k]
      {
        bufDirty := true;
        sect := s;
        s := s + 1;
        SyncBuf();
      }
    }

    /** The scan of `stretch_chain`: round the ring once, from the cluster after `lastUsed`. `flags` is
        what the caller's variable holds; it is what the scan returns when the first entry is refused. */
    method Scan(flags: u8) returns (err: int, out: Option<nat>)
      requires Valid()
      modifies this`disk, this`buf, this`sect, this`bufDirty
      ensures Valid() && View() == old(View()) && (sect == old(sect) || sect < g.dataSect)
      ensures ScanEnd(FatTable(), lastUsed, flags, err, out)
    {
      hide Table, Geometry.ClustToSect, Classify, Kind.Flags, EntryIs, Quad;
      var stale: nat := flags;
      var c: nat := lastUsed;
      ghost var t := FatTable();
      while true
        invariant Valid() && View() == old(View()) && g.InRange(c) && (sect == old(sect) || sect < g.dataSect)
        invariant forall d: nat :: g.InRange(d) && Behind(lastUsed, c, d) ==> !Halts(t, d)
        invariant stale == if c == lastUsed then flags else FlagsAt(t, c)
        decreases if c >= lastUsed then g.clustCnt - c + lastUsed else lastUsed - c
      {
        ghost var last := c;
        c := Succ(g.clustCnt, c);
        if c == lastUsed {
          assert NoHalt(t, lastUsed);
          return FAT_ERR_FULL, None;
        }
        var e, val, kind := GetFat(c);
        ZeroIsFree(g.clustCnt, t[c]);
        if e != FAT_ERR_NONE {
          assert FirstHalt(t, lastUsed, c) && HaltedAt(t, lastUsed, flags, c, stale, None);
          return stale, None;
        }
        stale := kind.Flags();
        if kind == Free {
          assert FirstHalt(t, lastUsed, c) && HaltedAt(t, lastUsed, flags, c, FAT_ERR_NONE, Some(c));
          return FAT_ERR_NONE, Some(c);
        }
      }
    }

    /** The first half of `stretch_chain`: which cluster to take. `junk` is what its flags variable holds at first. */
    method Pick(prev: nat, junk: u8) returns (err: int, out: Option<nat>)
      requires Valid() && (prev == 0 || g.InRange(prev))
      modifies this`disk, this`buf, this`sect, this`bufDirty
      ensures Valid() && View() == old(View()) && (sect == old(sect) || sect < g.dataSect)
      ensures Picked(FatTable(), prev, lastUsed, junk, err, out)
    {
      hide Table, Geometry.ClustToSect, Classify, TableAt, ScanEnd, Kind.Flags;
      var flags := junk;
      if prev != 0 {
        var clust := Succ(g.clustCnt, prev);
        var e, val, kind := GetFat(clust);
        if e != FAT_ERR_NONE {
          return e, None;
        }
        ZeroIsFree(g.clustCnt, val);
        flags := FlagByte(kind);
        if kind == Free {
          return FAT_ERR_NONE, Some(clust);
        }
      }
      err, out := Scan(flags);
    }

    /** `stretch_chain`: links a free cluster behind `prev`, or starts a chain when `prev` is 0. `junk` is what its flags
        variable holds at first; `out` is `None` when the caller's variable is not written. */
    method StretchChain(prev: nat, junk: u8) returns (err: int, out: Option<nat>)
      requires Valid() && (prev == 0 || g.InRange(prev))
      modifies this
      ensures Valid() && Picked(old(FatTable()), prev, old(lastUsed), junk, err, out)
      ensures out.None? ==> View() == old(View()) && trace == old(trace) && lastUsed == old(lastUsed) && freeCnt == old(freeCnt)
      ensures out.None? ==> sect == old(sect) || sect < g.dataSect
      ensures out.Some? ==> Stretched(old(FatTable()), prev, old(lastUsed), out.val, old(trace), trace, FatTable())
      ensures out.Some? ==> TakesFirst(old(FatTable()), prev, old(lastUsed), out.val)
      ensures out.Some? ==> err == FAT_ERR_NONE && lastUsed == out.val && freeCnt == Wrap32(old(freeCnt) - 1)
      ensures out.Some? ==> !bufDirty && View() == disk && !infoDirty && sect == g.infoSect
      ensures AllClassified(old(FatTable())) ==> (err == FAT_ERR_NONE <==> out.Some?) && (err == FAT_ERR_NONE || err == FAT_ERR_FULL)
      ensures AllClassified(old(FatTable())) ==>
                (err == FAT_ERR_FULL <==> !NextIsFree(old(FatTable()), prev) && OnlyFree(old(FatTable()), old(lastUsed)))
      ensures Kept(g, old(View()), View())
      ensures old(Counted()) && (prev == 0 || old(FatTable())[prev] != 0) ==> Counted()
    {
      hide FreeCount, Linked, After;
      hide Table, Geometry.ClustToSect, Classify, TableAt, AllClassified, Chosen, OnlyFree, NextIsFree, Wrap32, Kept, Geometry.Ok, Picked,
        TakesFirst, InfoIs, WithInfo;
      infoDirty := true;
      ghost var t := FatTable();
      TableSmall();
      err, out := Pick(prev, junk);
      PickedMeans(t, prev, lastUsed, junk, err, out);
      KeptRefl(g, View());
      if out == None {
        return;
      }
      var clust := out.val;
      ChosenIs(t, prev, lastUsed, clust);
      if prev == 0 || t[prev] != 0 {
        StretchCounts(t, prev, clust);
      }
      Link(prev, clust);
      lastUsed := clust;
      freeCnt := Wrap32(freeCnt - 1);
      ghost var linked := View();
      SyncFs();
      KeptTrans(g, old(View()), linked, View());
    }

    /** The writes of `stretch_chain`: end of chain first, then the link to it. */
    method Link(prev: nat, out: nat)
      requires Valid() && (prev == 0 || g.InRange(prev)) && g.InRange(out)
      modifies this`disk, this`buf, this`sect, this`bufDirty, this`trace
      ensures Valid() && Kept(g, old(View()), View())
      ensures trace == old(trace) + Linked(old(FatTable()), prev, out)
      ensures FatTable() == After(old(FatTable()), Linked(old(FatTable()), prev, out))
    {
      hide Table, Geometry.ClustToSect, Kept;
      PutFat(out, EOC);
      if prev != 0 {
        ghost var ended := View();
        PutFat(prev, out);
        KeptTrans(g, old(View()), ended, View());
      }
    }

    /** One turn of the `remove_chain` loop. */
    method RemoveOne(c: nat) returns (err: int, next: nat, last: bool)
      requires Valid() && c < g.clustCnt
      modifies this`disk, this`buf, this`sect, this`bufDirty, this`trace, this`freeCnt
      ensures Valid() && Kept(g, old(View()), View())
      ensures RemovedOne(old(FatTable()), c, err, next, last, FatTable())
      ensures err == FAT_ERR_NONE && !last ==> next < g.clustCnt
      ensures trace == if err == FAT_ERR_NONE then old(trace) + [FatTable()] else old(trace)
      ensures freeCnt == if err == FAT_ERR_NONE then Wrap32(old(freeCnt) + 1) else old(freeCnt)
    {
      hide Table, Geometry.ClustToSect, TableAt, NonFree, Wrap32;
      var kind;
      err, next, kind := GetFat(c);
      last := kind == Last;
      if err != FAT_ERR_NONE {
        return;
      }
      if kind == Bad || kind == Free {
        err := FAT_ERR_BROKEN;
        return;
      }
      PutFat(c, 0);
      freeCnt := Wrap32(freeCnt + 1);
    }

    /** The loop of `remove_chain`. */
    method FreeLinks(clust: nat) returns (err: int)
      requires Valid() && clust < g.clustCnt
      modifies this`disk, this`buf, this`sect, this`bufDirty, this`trace, this`freeCnt
      ensures Valid() && Kept(g, old(View()), View())
      ensures var r := Remove(old(FatTable()), clust);
              && err == r.err && trace == old(trace) + r.tables
              && FatTable() == After(old(FatTable()), r.tables)
              && freeCnt == Wrap32(old(freeCnt) + |r.tables|)
    {
      hide Table, Geometry.ClustToSect, TableAt, NonFree, Remove, Geometry.Ok, Kept, Wrap32, Progress, RemovedOne, After;
      var c: nat := clust;
      ghost var t := FatTable();
      ghost var done: seq<seq<nat>> := [];
      KeptRefl(g, View());
      ProgressStart(t, clust);
      while true
        invariant Valid() && c < g.clustCnt
        invariant Progress(t, clust, done, FatTable(), c) && trace == old(trace) + done
        invariant freeCnt == Wrap32(old(freeCnt) + |done|)
        invariant Kept(g, old(View()), View())
        decreases NonFree(FatTable())
      {
        ghost var now, view := FatTable(), View();
        var next, last;
        err, next, last := RemoveOne(c);
        KeptTrans(g, old(View()), view, View());
        ProgressStep(t, clust, done, now, c, err, next, last, FatTable());
        if err != FAT_ERR_NONE {
          return;
        }
        WrapStep(old(freeCnt), |done|);
        done := done + [FatTable()];
        c := next;
        if last {
          break;
        }
      }
    }

    lemma TableSmall()
      requires Valid()
      ensures |FatTable()| == g.clustCnt <= BAD
    {
    }

    /** `remove_chain`: frees clusters along the links from `clust`, on any table. */
    method RemoveChain(clust: nat) returns (err: int)
      requires Valid() && clust < g.clustCnt
      modifies this
      ensures Valid() && lastUsed == old(lastUsed) && Kept(g, old(View()), View())
      ensures var r := Remove(old(FatTable()), clust);
              && err == r.err && trace == old(trace) + r.tables
              && FatTable() == After(old(FatTable()), r.tables)
              && freeCnt == Wrap32(old(freeCnt) + |r.tables|)
      ensures err == FAT_ERR_NONE ==> !bufDirty && View() == disk && !infoDirty
      ensures old(Counted()) && clust >= 2 ==> Counted()
    {
      hide Table, Geometry.ClustToSect, TableAt, Remove, Geometry.Ok, Kept, Wrap32, After, FreeCount;
      TableSmall();
      if clust >= 2 {
        RemoveCounts(FatTable(), clust);
        CountBound(After(FatTable(), Remove(FatTable(), clust).tables));
      }
      infoDirty := true;
      err := FreeLinks(clust);
      if err != FAT_ERR_NONE {
        return;
      }
      ghost var view := View();
      SyncFs();
      KeptTrans(g, old(View()), view, View());
    }
  }
}
