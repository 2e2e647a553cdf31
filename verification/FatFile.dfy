/** An open file: a cursor over the cluster chain of the file with a sector buffer of its own. */
module FatFile {
  import opened Base
  import opened Bits
  import opened FatDisk
  import opened FatTable
  import opened FatChains
  import opened FatVolume

  // ----- where the sectors of a chain lie -----

  ghost predicate Real(g: Geometry, chain: Chain)
  {
    forall i :: 0 <= i < |chain| ==> g.InRange(chain[i])
  }

  /** Sector `k` of the file is covered by the chain. */
  predicate Has(g: Geometry, chain: Chain, k: nat)
  {
    Shr(k, g.clustShift) < |chain|
  }

  ghost function SectAt(g: Geometry, chain: Chain, k: nat): nat
    requires Real(g, chain) && Has(g, chain, k)
  {
    g.ClustToSect(chain[Shr(k, g.clustShift)]) + Low(k, g.clustShift)
  }

  /** Sector `k` of the file is sector `s` of the disk. */
  ghost predicate Spot(g: Geometry, chain: Chain, k: nat, s: nat)
  {
    g.Ok() && Real(g, chain) && Has(g, chain, k) && s == SectAt(g, chain, k) && s < g.diskSize
  }

  ghost predicate InClust(g: Geometry, c: nat, s: nat)
  {
    c >= 2 && g.ClustToSect(c) <= s < g.ClustToSect(c) + g.SectPerClust()
  }

  ghost predicate InChain(g: Geometry, chain: Chain, s: nat)
  {
    exists i :: 0 <= i < |chain| && InClust(g, chain[i], s)
  }

  lemma SectAtIn(g: Geometry, chain: Chain, k: nat)
    requires g.Ok() && Real(g, chain) && Has(g, chain, k)
    ensures g.dataSect <= SectAt(g, chain, k) < g.diskSize && InChain(g, chain, SectAt(g, chain, k))
  {
    hide Geometry.ClustToSect, Shr, Low, Geometry.Ok;
    var c := chain[Shr(k, g.clustShift)];
    ClustSectors(g, c, g.clustCnt);
    assert InClust(g, c, SectAt(g, chain, k));
  }

  /** Different sectors of the file are different sectors of the disk. */
  lemma SectAtInjective(g: Geometry, chain: Chain, j: nat, k: nat)
    requires g.Ok() && Real(g, chain) && NoDup(chain) && Has(g, chain, j) && Has(g, chain, k) && j != k
    ensures SectAt(g, chain, j) != SectAt(g, chain, k)
  {
    hide Geometry.ClustToSect, Shr, Low, Geometry.Ok;
    var a, b := Shr(j, g.clustShift), Shr(k, g.clustShift);
    if a == b {
      if Low(j, g.clustShift) == Low(k, g.clustShift) {
        ShrLow(j, k, g.clustShift);
      }
    } else if chain[a] < chain[b] {
      ClustSectors(g, chain[a], chain[b]);
    } else {
      ClustSectors(g, chain[b], chain[a]);
    }
  }

  lemma ChainReal(g: Geometry, t: seq<nat>, chain: Chain)
    requires |t| == g.clustCnt <= BAD && IsChain(t, chain)
    ensures Real(g, chain) && NoDup(chain)
  {
    forall i, j | 0 <= i < j < |chain| ensures chain[i] != chain[j] {
      ChainNoDup(t, chain, i, j);
    }
  }

  ghost predicate Grown(chain: Chain, chain': Chain)
  {
    |chain| <= |chain'| && forall i :: 0 <= i < |chain| ==> chain'[i] == chain[i]
  }

  lemma GrownSect(g: Geometry, chain: Chain, chain': Chain, k: nat)
    requires Real(g, chain) && Real(g, chain') && Grown(chain, chain') && Has(g, chain, k)
    ensures Has(g, chain', k) && SectAt(g, chain', k) == SectAt(g, chain, k)
  {
  }

  lemma GrownIn(g: Geometry, chain: Chain, chain': Chain, s: nat)
    requires Grown(chain, chain') && InChain(g, chain, s)
    ensures InChain(g, chain', s)
  {
    var i :| 0 <= i < |chain| && InClust(g, chain[i], s);
    assert InClust(g, chain'[i], s);
  }

  lemma FirstSector(g: Geometry, chain: Chain)
    requires g.Ok() && Real(g, chain) && |chain| > 0
    ensures Has(g, chain, 0) && Shr(0, g.clustShift) == 0
    ensures chain[0] >= 2 && SectAt(g, chain, 0) == g.ClustToSect(chain[0]) < g.diskSize
  {
    ShrZero(0, g.clustShift);
    LowZero(0, g.clustShift);
    SectAtIn(g, chain, 0);
  }

  // ----- the logical sectors and bytes of an open file -----

  /** Sector `k` as the file sees it: the buffer at the current sector, the disk elsewhere. */
  ghost function SecOf(g: Geometry, disk: Disk, chain: Chain, cur: nat, buf: Sector, k: nat): Sector
    requires g.Ok() && |disk| == g.diskSize && Real(g, chain) && Has(g, chain, k)
  {
    SectAtIn(g, chain, k);
    if k == cur then buf else disk[SectAt(g, chain, k)]
  }

  /** Byte `i` of the file lies in a covered sector. */
  ghost predicate HasByte(g: Geometry, chain: Chain, i: nat)
  {
    Has(g, chain, i / 512)
  }

  /** `n` bytes fit into the chain. */
  ghost predicate Covers(g: Geometry, chain: Chain, n: nat)
  {
    n == 0 || HasByte(g, chain, n - 1)
  }

  lemma CoversBelow(g: Geometry, chain: Chain, n: nat, i: nat)
    requires Covers(g, chain, n) && i < n
    ensures HasByte(g, chain, i)
  {
    ShrMono(i / 512, (n - 1) / 512, g.clustShift);
  }

  ghost function ByteOf(g: Geometry, disk: Disk, chain: Chain, cur: nat, buf: Sector, i: nat): u8
    requires g.Ok() && |disk| == g.diskSize && Real(g, chain) && HasByte(g, chain, i)
  {
    SecOf(g, disk, chain, cur, buf, i / 512)[i % 512]
  }

  /** The first `n` bytes of the file. */
  ghost function Bytes(g: Geometry, disk: Disk, chain: Chain, cur: nat, buf: Sector, n: nat): (b: seq<u8>)
    requires g.Ok() && |disk| == g.diskSize && Real(g, chain) && Covers(g, chain, n)
    ensures |b| == n
    ensures forall i: nat :: i < n ==> HasByte(g, chain, i) && b[i] == ByteOf(g, disk, chain, cur, buf, i)
  {
    hide HasByte, Geometry.Ok, ByteOf;
    if n == 0 then []
    else
      CoversBelow(g, chain, n, n - 1);
      assert Covers(g, chain, n - 1) by { if n > 1 { CoversBelow(g, chain, n, n - 2); } }
      Bytes(g, disk, chain, cur, buf, n - 1) + [ByteOf(g, disk, chain, cur, buf, n - 1)]
  }

  lemma InChainData(g: Geometry, chain: Chain, s: nat)
    requires g.Ok() && Real(g, chain) && InChain(g, chain, s)
    ensures g.dataSect <= s < g.diskSize
  {
    hide Geometry.ClustToSect;
    var i :| 0 <= i < |chain| && InClust(g, chain[i], s);
    ClustSectors(g, chain[i], g.clustCnt);
  }

  lemma LinkOf(t: seq<nat>, cs: set<Chain>, chain: Chain, i: nat)
    requires Chains(t, cs) && chain in cs && i < |chain|
    ensures 2 <= chain[i] < |t|
    ensures i + 1 < |chain| ==> t[chain[i]] == chain[i + 1] && Classify(|t|, t[chain[i]]) == Some(Used)
    ensures i + 1 == |chain| ==> Classify(|t|, t[chain[i]]) == Some(Last)
  {
    assert IsChain(t, chain);
    if i + 1 < |chain| {
      assert t[chain[i]] == chain[i + 1];
    }
  }

  /** The sectors of `chain` hold the same bytes on both disks. */
  ghost predicate SameSectors(g: Geometry, chain: Chain, d: Disk, d': Disk)
  {
    |d| == |d'| == g.diskSize && forall s: nat :: s < |d| && InChain(g, chain, s) ==> d'[s] == d[s]
  }

  lemma SameSectorsRefl(g: Geometry, chain: Chain, d: Disk)
    requires |d| == g.diskSize
    ensures SameSectors(g, chain, d, d)
  {
  }

  lemma SameSectorsTrans(g: Geometry, chain: Chain, chain': Chain, a: Disk, b: Disk, c: Disk)
    requires Grown(chain, chain') && SameSectors(g, chain, a, b) && SameSectors(g, chain', b, c)
    ensures SameSectors(g, chain, a, c)
  {
    hide InChain;
    forall s: nat | s < |a| && InChain(g, chain, s) ensures c[s] == a[s] {
      GrownIn(g, chain, chain', s);
    }
  }

  /** Every sector of the first state is the same in the second. */
  ghost predicate SameFile(g: Geometry, d: Disk, chain: Chain, cur: nat, buf: Sector,
                           d': Disk, chain': Chain, cur': nat, buf': Sector)
  {
    && g.Ok() && |d| == |d'| == g.diskSize && Real(g, chain) && Real(g, chain')
    && forall k: nat :: Has(g, chain, k) ==> Has(g, chain', k) && SecOf(g, d', chain', cur', buf', k) == SecOf(g, d, chain, cur, buf, k)
  }

  lemma SameFileBytes(g: Geometry, d: Disk, chain: Chain, cur: nat, buf: Sector,
                      d': Disk, chain': Chain, cur': nat, buf': Sector, n: nat)
    requires SameFile(g, d, chain, cur, buf, d', chain', cur', buf') && Covers(g, chain, n)
    ensures Covers(g, chain', n) && Bytes(g, d', chain', cur', buf', n) == Bytes(g, d, chain, cur, buf, n)
  {
    hide Has, SecOf, Geometry.Ok, Bytes;
    var b, b' := Bytes(g, d, chain, cur, buf, n), Bytes(g, d', chain', cur', buf', n);
    forall i: nat | i < n ensures b[i] == b'[i] {
      assert b[i] == ByteOf(g, d, chain, cur, buf, i) && b'[i] == ByteOf(g, d', chain', cur', buf', i);
    }
  }

  /** Following the chain elsewhere changes nothing the file sees. */
  lemma FollowedSame(g: Geometry, d: Disk, chain: Chain, cur: nat, buf: Sector, d': Disk, chain': Chain)
    requires g.Ok() && |d| == |d'| == g.diskSize && Real(g, chain) && Real(g, chain')
    requires Grown(chain, chain') && SameSectors(g, chain, d, d')
    ensures SameFile(g, d, chain, cur, buf, d', chain', cur, buf)
  {
    hide InChain, SectAt, Geometry.Ok, Has;
    forall k: nat | Has(g, chain, k)
      ensures Has(g, chain', k) && SecOf(g, d', chain', cur, buf, k) == SecOf(g, d, chain, cur, buf, k)
    {
      GrownSect(g, chain, chain', k);
      SectAtIn(g, chain, k);
    }
  }

  /** Writing the buffer back and reading another sector of the file changes nothing the file sees. */
  lemma LandedSame(g: Geometry, d: Disk, chain: Chain, cur: nat, buf: Sector, dirty: bool, d': Disk, cur': nat, buf': Sector)
    requires g.Ok() && |d| == |d'| == g.diskSize && Real(g, chain) && NoDup(chain)
    requires Has(g, chain, cur) && Has(g, chain, cur')
    requires SectAt(g, chain, cur) < |d| && SectAt(g, chain, cur') < |d|
    requires !dirty ==> buf == d[SectAt(g, chain, cur)]
    requires if SectAt(g, chain, cur) == SectAt(g, chain, cur') then d' == d && buf' == buf
             else d' == (if dirty then d[SectAt(g, chain, cur) := buf] else d) && buf' == d'[SectAt(g, chain, cur')]
    ensures SameFile(g, d, chain, cur, buf, d', chain, cur', buf')
  {
    hide InChain, SectAt, Geometry.Ok, Has, NoDup, Real;
    if cur != cur' {
      SectAtInjective(g, chain, cur, cur');
    }
    forall k: nat | Has(g, chain, k) ensures SecOf(g, d', chain, cur', buf', k) == SecOf(g, d, chain, cur, buf, k) {
      SectAtIn(g, chain, k);
      if k != cur {
        SectAtInjective(g, chain, k, cur);
      }
    }
  }

  lemma SameFileTrans(g: Geometry, d: Disk, chain: Chain, cur: nat, buf: Sector,
                      d1: Disk, chain1: Chain, cur1: nat, buf1: Sector,
                      d2: Disk, chain2: Chain, cur2: nat, buf2: Sector)
    requires SameFile(g, d, chain, cur, buf, d1, chain1, cur1, buf1)
    requires SameFile(g, d1, chain1, cur1, buf1, d2, chain2, cur2, buf2)
    ensures SameFile(g, d, chain, cur, buf, d2, chain2, cur2, buf2)
  {
    hide SecOf, Has;
  }

  /** A write into the data region leaves the tables alone. */
  lemma DataWrite(g: Geometry, d: Disk, s: nat, x: Sector)
    requires g.Ok() && |d| == g.diskSize && g.dataSect <= s < g.diskSize
    ensures Table(g, d[s := x]) == Table(g, d)
    ensures Mirrored(g, d) ==> Mirrored(g, d[s := x])
  {
    hide Geometry.ClustToSect, Word;
    assert Table(g, d[s := x]) == Table(g, d);
    if g.fat1 != 0 {
      assert TableAt(g, d[s := x], g.fat1) == TableAt(g, d, g.fat1);
    }
  }

  /** The view differs from the disk at most in the buffered sector. */
  ghost predicate Off(d: Disk, v: Disk, sect: nat)
  {
    |d| == |v| && forall s: nat :: s < |d| && s != sect ==> v[s] == d[s]
  }

  lemma ViewOff(fat: Fat)
    requires fat.Valid()
    ensures Off(fat.disk, fat.View(), fat.sect)
  {
  }

  lemma SameDataRefl(g: Geometry, d: Disk)
    requires |d| == g.diskSize
    ensures SameData(g, d, d)
  {
  }

  lemma KeptData(g: Geometry, d: Disk, d': Disk)
    requires Kept(g, d, d')
    ensures SameData(g, d, d')
  {
  }

  lemma FatSectOutside(g: Geometry, chain: Chain, s: nat)
    requires g.Ok() && Real(g, chain) && s < g.dataSect
    ensures !InChain(g, chain, s)
  {
    if InChain(g, chain, s) {
      InChainData(g, chain, s);
    }
  }

  /** Changes behind the buffer that keep the view of the data region keep the sectors of the file. */
  lemma SameSectorsOf(g: Geometry, chain: Chain, d: Disk, sect: nat, v: Disk, d': Disk, sect': nat, v': Disk)
    requires g.Ok() && |d| == |d'| == g.diskSize && Real(g, chain)
    requires Off(d, v, sect) && Off(d', v', sect') && SameData(g, v, v')
    requires !InChain(g, chain, sect) && sect' < g.dataSect
    ensures SameSectors(g, chain, d, d')
  {
    hide InChain;
    forall s: nat | s < |d| && InChain(g, chain, s) ensures d'[s] == d[s] {
      InChainData(g, chain, s);
    }
  }

  lemma FatRegion(g: Geometry)
    requires g.Ok()
    ensures g.infoSect < g.dataSect
  {
  }

  lemma EndNotFree(n: nat, val: nat)
    requires Classify(n, val) == Some(Last)
    ensures val != 0
  {
  }

  lemma StretchedChain(t: seq<nat>, cs: set<Chain>, chain: Chain, c: nat)
    requires Chains(t, cs) && chain in cs && |chain| > 0 && 2 <= c < |t| && t[c] == 0
    ensures 2 <= chain[|chain| - 1] < |t|
    ensures Chains(After(t, Linked(t, chain[|chain| - 1], c)), cs - {chain} + {chain + [c]})
    ensures cs - {chain} + {chain + [c]} - {chain + [c]} == cs - {chain}
  {
    assert chain[0] in chain && chain[0] in chain + [c] && chain != chain + [c];
    assert chain + [c] in cs ==> Apart(chain, chain + [c]);
    StretchSteps(t, cs, chain, c);
    LinkOf(t, cs, chain, |chain| - 1);
  }

  lemma TableLimit(t: seq<nat>, cs: set<Chain>)
    requires Chains(t, cs)
    ensures |t| <= BAD
  {
  }

  lemma ChainMember(g: Geometry, t: seq<nat>, cs: set<Chain>, chain: Chain)
    requires Chains(t, cs) && chain in cs && |t| == g.clustCnt
    ensures |chain| > 0 && Real(g, chain) && NoDup(chain)
  {
    assert IsChain(t, chain);
    ChainReal(g, t, chain);
  }

  /** The clusters a file needs for its cursor to stand at `off`. */
  function Clusters(g: Geometry, off: nat): nat { Shr(off / 512, g.clustShift) + 1 }

  /** A seek forward to `to` found the volume full exactly if the chain cannot be stretched that far. */
  predicate StepRoom(g: Geometry, room: nat, room': nat, to: nat, err: int)
  {
    room' == room && (err == FAT_ERR_FULL <==> to <= 0xffff_ffff && Clusters(g, to) > room)
  }

  /** The outcome of a seek to position `to`, with a chain of `len` clusters that can be made `room` long. */
  predicate Sought(g: Geometry, to: int, room: nat, len: nat, err: int, off': nat, len': nat)
  {
    if to < 0 || to > 0xffff_ffff then err == FAT_ERR_EOF
    else if Clusters(g, to) > room then err == FAT_ERR_FULL
    else err == FAT_ERR_NONE && off' == to && len' == Max(len, Clusters(g, to))
  }

  predicate WriteFits(g: Geometry, room: nat, to: nat) { to <= 0xffff_ffff && Clusters(g, to) <= room }

  /** Where a read of `len` bytes leaves the cursor. */
  function ReadEnd(off: nat, size: nat, len: nat): nat { if off >= size then off else off + Min(len, size - off) }

  /** The length to which the chain can be stretched. */
  ghost function RoomOf(t: seq<nat>, chain: Chain, lastUsed: nat): nat
  {
    if chain == [] then 0 else |chain| + Avail(t, chain[|chain| - 1], lastUsed)
  }

  lemma RoomBound(t: seq<nat>, chain: Chain, lastUsed: nat)
    ensures |chain| <= RoomOf(t, chain, lastUsed)
  {
  }

  lemma RoomFull(t: seq<nat>, chain: Chain, lastUsed: nat)
    requires |chain| > 0 && !NextIsFree(t, chain[|chain| - 1]) && OnlyFree(t, lastUsed)
    ensures RoomOf(t, chain, lastUsed) == |chain|
  {
  }

  lemma RoomStretch(t: seq<nat>, chain: Chain, lastUsed: nat, out: nat)
    requires |chain| > 0
    requires var prev := chain[|chain| - 1];
      2 <= prev < |t| <= BAD && t[prev] != 0 && 2 <= out < |t| && t[out] == 0 && Chosen(t, prev, lastUsed, out)
    ensures RoomOf(After(t, Linked(t, chain[|chain| - 1], out)), chain + [out], out) == RoomOf(t, chain, lastUsed)
  {
    hide Avail, Chosen, Linked;
    AvailStretch(t, chain[|chain| - 1], lastUsed, out);
  }

  lemma ClustersMono(g: Geometry, a: nat, b: nat)
    requires a <= b
    ensures Clusters(g, a) <= Clusters(g, b)
  {
    ShrMono(a / 512, b / 512, g.clustShift);
  }

  datatype Seek = Start | Curr | End

  // ----- one turn of the read and write loops, on bytes -----

  function Min(a: nat, b: nat): nat { if a < b then a else b }

  function Max(a: nat, b: nat): nat { if a < b then b else a }

  /** `data` written over `b` at `off`, growing it at its end. */
  function Splice(b: seq<u8>, off: nat, data: seq<u8>): (r: seq<u8>)
    requires off <= |b|
    ensures |r| == Max(|b|, off + |data|)
  {
    b[..off] + data + (if off + |data| < |b| then b[off + |data|..] else [])
  }

  lemma SpliceMore(b: seq<u8>, off: nat, data: seq<u8>, more: seq<u8>)
    requires off <= |b|
    ensures off + |data| <= |Splice(b, off, data)|
    ensures Splice(Splice(b, off, data), off + |data|, more) == Splice(b, off, data + more)
  {
    var x, y := Splice(Splice(b, off, data), off + |data|, more), Splice(b, off, data + more);
    assert |x| == |y|;
    forall i | 0 <= i < |x| ensures x[i] == y[i] { }
  }

  /** Byte by byte: the data where it was laid, the old bytes elsewhere. */
  lemma SpliceAt(b: seq<u8>, off: nat, data: seq<u8>)
    requires off <= |b|
    ensures forall i | 0 <= i < |Splice(b, off, data)|
      :: Splice(b, off, data)[i] == if off <= i < off + |data| then data[i - off] else b[i]
  {
  }

  /** What a whole write of `src` at `off` leaves of a file that held `was`. */
  ghost predicate Overlaid(was: seq<u8>, off: nat, src: seq<u8>, now: seq<u8>)
  {
    && |now| == (if off + |src| > |was| then off + |src| else |was|)
    && (forall i | 0 <= i < |src| :: now[off + i] == src[i])
    && (forall i | 0 <= i < |was| && !(off <= i < off + |src|) :: now[i] == was[i])
  }

  lemma OverlaidIs(reach: seq<u8>, was: seq<u8>, off: nat, src: seq<u8>)
    requires was <= reach && |reach| == Max(|was|, off)
    ensures Overlaid(was, off, src, Splice(reach, off, src))
  {
    hide Splice;
    SpliceAt(reach, off, src);
  }

  lemma SpliceNone(b: seq<u8>, off: nat, src: seq<u8>)
    requires off <= |b|
    ensures Splice(b, off, src[..0]) == b
  {
  }

  lemma SpliceStep(b: seq<u8>, off: nat, src: seq<u8>, done: nat, cnt: nat)
    requires off <= |b| && done + cnt <= |src|
    ensures off + done <= |Splice(b, off, src[..done])|
    ensures Splice(Splice(b, off, src[..done]), off + done, src[done..][..cnt]) == Splice(b, off, src[..done + cnt])
  {
    SpliceMore(b, off, src[..done], src[done..][..cnt]);
    assert src[..done] + src[done..][..cnt] == src[..done + cnt];
  }

  lemma Shown(g: Geometry, d: Disk, chain: Chain, cur: nat, buf: Sector, n: nat, m: nat)
    requires g.Ok() && |d| == g.diskSize && Real(g, chain) && Covers(g, chain, n) && m <= n
    ensures Covers(g, chain, m) && Bytes(g, d, chain, cur, buf, m) == Bytes(g, d, chain, cur, buf, n)[..m]
  {
    hide Bytes, Real, Geometry.Ok, Has;
    if m > 0 {
      CoversBelow(g, chain, n, m - 1);
    }
    var b, c := Bytes(g, d, chain, cur, buf, m), Bytes(g, d, chain, cur, buf, n);
    forall i: nat | i < m ensures b[i] == c[i] {
      assert b[i] == ByteOf(g, d, chain, cur, buf, i) && c[i] == ByteOf(g, d, chain, cur, buf, i);
    }
  }

  /** What a read of `len` bytes at `off` may deliver. */
  ghost predicate ReadOut(whole: seq<u8>, off: nat, len: nat, err: int, data: seq<u8>, off': nat)
  {
    && |data| <= len
    && (data != [] ==> off + |data| <= |whole| && data == whole[off..off + |data|])
    && (err == FAT_ERR_NONE ==> off' == off + |data| && |data| == Min(len, if off < |whole| then |whole| - off else 0))
    && (err != FAT_ERR_NONE ==> err == FAT_ERR_FULL && off <= off' < off + |data|)
  }

  ghost predicate Got(whole: seq<u8>, off: nat, data: seq<u8>)
  {
    data != [] ==> off + |data| <= |whole| && data == whole[off..off + |data|]
  }

  lemma GotNone(whole: seq<u8>, off: nat)
    ensures Got(whole, off, [])
  {
  }

  lemma GotMore(whole: seq<u8>, off: nat, data: seq<u8>, chunk: seq<u8>)
    requires Got(whole, off, data) && off + |data| + |chunk| <= |whole|
    requires chunk == whole[off + |data|..off + |data| + |chunk|]
    ensures Got(whole, off, data + chunk)
  {
  }

  lemma GotAll(whole: seq<u8>, off: nat, len: nat, err: int, data: seq<u8>, off': nat)
    requires Got(whole, off, data) && |data| <= len
    requires err == FAT_ERR_NONE ==> off' == off + |data| && (|data| == len || off' >= |whole|)
    requires err != FAT_ERR_NONE ==> err == FAT_ERR_FULL && off <= off' < off + |data|
    ensures ReadOut(whole, off, len, err, data, off')
  {
  }

  /** What a write of `src` at `off` leaves: `was` are the bytes up to the cursor or the old end `size`. */
  ghost predicate Written(was: seq<u8>, off: nat, size: nat, src: seq<u8>, bytes: nat, ok: bool, off': nat, size': nat, now: seq<u8>)
  {
    && off <= |was| && bytes <= |src| && size' == Max(size, off')
    && (ok ==> bytes == |src| && off' == off + |src| && now == Splice(was, off, src))
    && (!ok ==> off <= off' < off + bytes && size' <= |Splice(was, off, src[..bytes])| && now == Splice(was, off, src[..bytes])[..size'])
  }

  lemma WriteResult(was: seq<u8>, off: nat, size: nat, src: seq<u8>, bytes: nat, ok: bool, off': nat, size': nat, n: nat, now: seq<u8>)
    requires |was| == Max(size, off) && bytes <= |src| && size' == Max(size, off') && n == Max(|was|, off + bytes)
    requires ok ==> bytes == |src| && off' == off + |src|
    requires !ok ==> off <= off' < off + bytes
    requires now == Splice(was, off, src[..bytes])[..size']
    ensures Written(was, off, size, src, bytes, ok, off', size', now)
  {
    if ok {
      assert src[..bytes] == src && size' == |Splice(was, off, src)|;
    }
  }

  lemma WholeResult(was: seq<u8>, off: nat, size: nat, src: seq<u8>, bytes: nat, ok: bool, off': nat, size': nat, now: seq<u8>)
    requires Written(was, off, size, src, bytes, ok, off', size', now)
    ensures ok ==> now == Splice(was, off, src) && off' == off + |src|
  {
  }

  lemma ReadBack(g: Geometry, was: seq<u8>, off: nat, src: seq<u8>, now: seq<u8>, room: nat, err: int, data: seq<u8>, off': nat)
    requires Overlaid(was, off, src, now) && ReadOut(now, off, |src|, err, data, off') && Clusters(g, off + |src|) <= room
    requires err == FAT_ERR_FULL <==> Clusters(g, ReadEnd(off, |now|, |src|)) > room
    ensures err == FAT_ERR_NONE && data == src && off' == off + |src|
  {
    hide Clusters;
    assert ReadEnd(off, |now|, |src|) == off + |src|;
  }

  lemma OffsetCovered(g: Geometry, chain: Chain, off: nat)
    requires Has(g, chain, off / 512)
    ensures Covers(g, chain, off)
  {
    if off > 0 {
      ShrMono((off - 1) / 512, off / 512, g.clustShift);
    }
  }

  lemma ReadChunk(g: Geometry, d: Disk, chain: Chain, buf: Sector, n: nat, off: nat, cnt: nat)
    requires g.Ok() && |d| == g.diskSize && Real(g, chain) && Covers(g, chain, n)
    requires off + cnt <= n && cnt <= 512 - off % 512
    ensures Bytes(g, d, chain, off / 512, buf, n)[off..off + cnt] == buf[off % 512..off % 512 + cnt]
  {
    hide Has, Geometry.Ok, Bytes, Real, Covers;
    var b := Bytes(g, d, chain, off / 512, buf, n);
    forall i | off <= i < off + cnt ensures b[i] == buf[off % 512 + (i - off)] {
      SameSector(off, cnt, i);
      assert b[i] == ByteOf(g, d, chain, off / 512, buf, i);
    }
  }

  lemma SameSector(off: nat, cnt: nat, i: nat)
    requires off <= i < off + cnt && cnt <= 512 - off % 512
    ensures i / 512 == off / 512 && i % 512 == off % 512 + (i - off)
  {
  }

  /** The buffer with `chunk` copied in at `idx`. */
  function Patched(buf: Sector, idx: nat, chunk: seq<u8>): Sector
    requires idx + |chunk| <= 512
  {
    buf[..idx] + chunk + buf[idx + |chunk|..]
  }

  lemma WriteChunk(g: Geometry, d: Disk, chain: Chain, buf: Sector, n: nat, off: nat, chunk: seq<u8>)
    requires g.Ok() && |d| == g.diskSize && Real(g, chain) && Covers(g, chain, n) && HasByte(g, chain, off)
    requires off <= n && |chunk| <= 512 - off % 512
    ensures var m := Max(n, off + |chunk|);
            && Covers(g, chain, m)
            && Bytes(g, d, chain, off / 512, Patched(buf, off % 512, chunk), m) == Splice(Bytes(g, d, chain, off / 512, buf, n), off, chunk)
  {
    hide Geometry.Ok, Bytes, Real, Has, Splice, Patched, SecOf, ByteOf;
    var m, cur, buf' := Max(n, off + |chunk|), off / 512, Patched(buf, off % 512, chunk);
    if m > n {
      SameSector(off, |chunk|, m - 1);
    }
    var b, b' := Bytes(g, d, chain, cur, buf, n), Bytes(g, d, chain, cur, buf', m);
    var r := Splice(b, off, chunk);
    SpliceAt(b, off, chunk);
    forall i: nat | i < m ensures b'[i] == r[i] {
      assert b'[i] == ByteOf(g, d, chain, cur, buf', i);
      if off <= i < off + |chunk| {
        OwnByte(g, d, chain, buf, off, chunk, i);
      } else {
        assert b[i] == ByteOf(g, d, chain, cur, buf, i);
        OtherByte(g, d, chain, buf, off, chunk, i);
      }
    }
  }

  lemma OwnByte(g: Geometry, d: Disk, chain: Chain, buf: Sector, off: nat, chunk: seq<u8>, i: nat)
    requires g.Ok() && |d| == g.diskSize && Real(g, chain) && HasByte(g, chain, i)
    requires |chunk| <= 512 - off % 512 && off <= i < off + |chunk|
    ensures ByteOf(g, d, chain, off / 512, Patched(buf, off % 512, chunk), i) == chunk[i - off]
  {
    hide Geometry.Ok, Real, Has;
    SameSector(off, |chunk|, i);
  }

  lemma OtherByte(g: Geometry, d: Disk, chain: Chain, buf: Sector, off: nat, chunk: seq<u8>, i: nat)
    requires g.Ok() && |d| == g.diskSize && Real(g, chain) && HasByte(g, chain, i)
    requires |chunk| <= 512 - off % 512 && !(off <= i < off + |chunk|)
    ensures ByteOf(g, d, chain, off / 512, Patched(buf, off % 512, chunk), i) == ByteOf(g, d, chain, off / 512, buf, i)
  {
    hide Geometry.Ok, Real, Has;
    if i / 512 == off / 512 {
      assert i % 512 - off % 512 == i - off;
    }
  }

  lemma OtherDataTrans(g: Geometry, chain: Chain, chain': Chain, v: Disk, v1: Disk, v2: Disk)
    requires OtherData(g, chain, v, v1) && OtherData(g, chain', v1, v2) && Grown(chain, chain')
    ensures OtherData(g, chain', v, v2)
  {
    hide InChain;
    forall s: nat | g.dataSect <= s < |v| && !InChain(g, chain', s) ensures v2[s] == v[s] {
      if InChain(g, chain, s) {
        GrownIn(g, chain, chain', s);
      }
    }
  }

  /** The rest of the volume, as an operation on the file leaves it: the chain may have grown, all other
      chains and the data outside the chain are the same, and the copies of the table still agree. */
  ghost predicate Frame(g: Geometry, chain: Chain, cs: set<Chain>, v: Disk, chain': Chain, cs': set<Chain>, v': Disk)
  {
    && Grown(chain, chain') && cs' - {chain'} == cs - {chain}
    && OtherData(g, chain', v, v') && (Mirrored(g, v) ==> Mirrored(g, v'))
  }

  lemma FrameRefl(g: Geometry, chain: Chain, cs: set<Chain>, v: Disk)
    requires |v| == g.diskSize
    ensures Frame(g, chain, cs, v, chain, cs, v)
  {
    OtherDataRefl(g, chain, v);
  }

  lemma FrameTrans(g: Geometry, c: Chain, cs: set<Chain>, v: Disk, c1: Chain, cs1: set<Chain>, v1: Disk, c2: Chain, cs2: set<Chain>, v2: Disk)
    requires Frame(g, c, cs, v, c1, cs1, v1) && Frame(g, c1, cs1, v1, c2, cs2, v2)
    ensures Frame(g, c, cs, v, c2, cs2, v2)
  {
    hide OtherData, Mirrored;
    OtherDataTrans(g, c1, c2, v, v1, v2);
  }

  lemma NextSector(off: nat, cnt: nat, shift: nat)
    requires cnt <= 512 - off % 512
    ensures Shr((off + cnt) / 512, shift) <= Shr(off / 512, shift) + 1
  {
    ShrStep(off / 512, shift);
    assert (off + cnt) / 512 == off / 512 || (off + cnt) / 512 == off / 512 + 1;
  }

  lemma LastIndex(g: Geometry, chain: Chain, k: nat)
    requires NoDup(chain) && Has(g, chain, k)
    ensures |chain| > 0
    ensures chain[|chain| - 1] == chain[Shr(k, g.clustShift)] <==> |chain| == Shr(k, g.clustShift) + 1
  {
    hide Shr;
  }

  lemma HeadReal(g: Geometry, chain: Chain)
    requires Real(g, chain) && |chain| > 0
    ensures chain[0] >= 2
  {
  }

  /** Data outside the chain is the same. */
  ghost predicate OtherData(g: Geometry, chain: Chain, v: Disk, v': Disk)
  {
    |v| == |v'| == g.diskSize && forall s: nat :: g.dataSect <= s < |v| && !InChain(g, chain, s) ==> v'[s] == v[s]
  }

  lemma OtherDataRefl(g: Geometry, chain: Chain, v: Disk)
    requires |v| == g.diskSize
    ensures OtherData(g, chain, v, v)
  {
  }

  lemma OtherDataOff(g: Geometry, chain: Chain, v: Disk, v1: Disk, v2: Disk, k: nat, ssect: nat)
    requires g.Ok() && Real(g, chain) && Has(g, chain, k) && ssect == SectAt(g, chain, k)
    requires OtherData(g, chain, v, v1) && Off(v1, v2, ssect)
    ensures OtherData(g, chain, v, v2)
  {
    hide InChain, Geometry.ClustToSect, Has;
    SectAtIn(g, chain, k);
  }

  lemma SameFileRefl(g: Geometry, d: Disk, chain: Chain, cur: nat, buf: Sector)
    requires g.Ok() && |d| == g.diskSize && Real(g, chain)
    ensures SameFile(g, d, chain, cur, buf, d, chain, cur, buf)
  {
  }

  lemma CoversGrown(g: Geometry, chain: Chain, chain': Chain, n: nat)
    requires Covers(g, chain, n) && |chain| <= |chain'|
    ensures Covers(g, chain', n)
  {
  }

  /** What holds after the links have been followed. */
  lemma Followed(g: Geometry, d: Disk, chain: Chain, k: nat, buf: Sector, d': Disk, chain': Chain, n: nat, v: Disk, v': Disk)
    requires g.Ok() && |d| == |d'| == g.diskSize && Real(g, chain) && Real(g, chain')
    requires Grown(chain, chain') && SameSectors(g, chain, d, d') && Covers(g, chain, n) && Kept(g, v, v')
    ensures SameFile(g, d, chain, k, buf, d', chain', k, buf)
    ensures Covers(g, chain', n) && OtherData(g, chain', v, v')
    ensures Mirrored(g, v) ==> Mirrored(g, v')
  {
    hide Has, InChain, SameSectors, Geometry.Ok, Mirrored;
    FollowedSame(g, d, chain, k, buf, d', chain');
    CoversGrown(g, chain, chain', n);
  }

  lemma Arrived(g: Geometry, chain: Chain, chain': Chain, k: nat, d: Disk, d': Disk)
    requires g.Ok() && |d| == |d'| == g.diskSize && Real(g, chain) && Real(g, chain') && Has(g, chain, k)
    requires Grown(chain, chain') && SameSectors(g, chain, d, d')
    ensures Has(g, chain', k) && SectAt(g, chain', k) == SectAt(g, chain, k) < g.diskSize
    ensures d'[SectAt(g, chain, k)] == d[SectAt(g, chain, k)]
  {
    hide InChain, Geometry.Ok;
    GrownSect(g, chain, chain', k);
    SectAtIn(g, chain, k);
  }

  lemma HoldsRoom(f: File, b: seq<u8>)
    requires f.Holds(b)
    ensures Clusters(f.fat.g, f.offset) <= f.Room() && f.offset <= 0xffff_ffff && f.size <= 0xffff_ffff
  {
    hide RoomOf, Bytes, Shr, Chains, Table, Geometry.ClustToSect;
    RoomBound(f.fat.FatTable(), f.chain, f.fat.lastUsed);
  }

  lemma HoldsValid(f: File, b: seq<u8>)
    requires f.Holds(b)
    ensures f.Valid()
  {
  }

  lemma FrameHere(f: File)
    requires f.Valid()
    ensures Frame(f.fat.g, f.chain, f.chains, f.fat.View(), f.chain, f.chains, f.fat.View())
  {
    FrameRefl(f.fat.g, f.chain, f.chains, f.fat.View());
  }

  /** Sector `k` of the chain, which is sector `r` of its cluster `q`, is sector `s` of the disk: clusters of `n` sectors
      follow each other from the start of the data region, cluster 2 first. */
  predicate IsSector(g: Geometry, chain: Chain, k: nat, q: nat, r: nat, s: nat)
  {
    var n := Pow2(g.clustShift);
    r < n && k == q * n + r && q < |chain| && s == g.dataSect + (chain[q] - 2) * n + r
  }

  lemma SectorIs(g: Geometry, chain: Chain, k: nat, q: nat, r: nat, s: nat)
    requires g.Ok() && Real(g, chain) && Has(g, chain, k) && IsSector(g, chain, k, q, r, s)
    ensures s == SectAt(g, chain, k) < g.diskSize
  {
    hide Shr, Low;
    ShrSplit(k, g.clustShift);
    SplitUnique(Pow2(g.clustShift), q, r, Shr(k, g.clustShift), Low(k, g.clustShift));
    SectAtIn(g, chain, k);
  }

  lemma SplitUnique(n: nat, q: nat, r: nat, q': nat, r': nat)
    requires r < n && r' < n && q * n + r == q' * n + r'
    ensures q == q' && r == r'
  {
    if q < q' {
      MulGap(q, q', n);
    } else if q' < q {
      MulGap(q', q, n);
    }
  }

  /** Where byte `i` of a file lies; the sector under the cursor is in the buffer. */
  lemma ByteAt(f: File, i: nat, q: nat, r: nat, s: nat)
    requires f.Valid() && i < f.size && IsSector(f.fat.g, f.chain, i / 512, q, r, s)
    ensures s < |f.fat.disk| && |f.Contents()| == f.size
    ensures f.Contents()[i] == if i / 512 == f.offset / 512 then f.buf[i % 512] else f.fat.disk[s][i % 512]
  {
    hide Bytes, Chains, Table, RoomOf, Geometry.ClustToSect, Geometry.Ok, SectAt, Has, Real, InChain, NoDup, IsSector;
    var g, k := f.fat.g, i / 512;
    CoversBelow(g, f.chain, f.size, i);
    SectorIs(g, f.chain, k, q, r, s);
    assert f.Contents()[i] == ByteOf(g, f.fat.disk, f.chain, f.offset / 512, f.buf, i);
  }

  /** The number of clusters up to and with the one of offset `off`. */
  lemma ClustersIs(g: Geometry, off: nat)
    ensures 512 * Pow2(g.clustShift) > 0 && Clusters(g, off) == off / (512 * Pow2(g.clustShift)) + 1
  {
    DivClust(off, g.clustShift);
  }

  lemma CursorSector(g: Geometry, chain: Chain, clust: nat, off: nat)
    requires g.Ok() && Real(g, chain) && Has(g, chain, off / 512) && clust == chain[Shr(off / 512, g.clustShift)]
    ensures clust >= 2 && g.SectPerClust() >= 1
    ensures g.ClustToSect(clust) + And(off / 512, g.SectPerClust() - 1) == SectAt(g, chain, off / 512) < g.diskSize
  {
    AndMask(off / 512, g.clustShift);
    SectAtIn(g, chain, off / 512);
  }

  class File {
    const fat: Fat
    const sclust: nat
    var clust: nat
    var sect: nat
    var size: nat
    var offset: nat
    const canRead: bool
    const canWrite: bool
    var accessed: bool
    var modified: bool
    var dirty: bool
    var buf: Sector
    /** The clusters of this file, and all chains of the volume. */
    ghost var chain: Chain
    ghost var chains: set<Chain>

    ghost predicate Layout()
      reads this, fat
    {
      && fat.Valid() && Chains(fat.FatTable(), chains) && chain in chains
      && Real(fat.g, chain) && NoDup(chain) && |chain| > 0 && chain[0] == sclust
      && !InChain(fat.g, chain, fat.sect)
    }

    /** The cursor stands at `offset`, and the buffer holds the sector under it. */
    ghost predicate At()
      reads this, fat
    {
      && Layout() && Spot(fat.g, chain, offset / 512, sect)
      && clust == chain[Shr(offset / 512, fat.g.clustShift)]
      && (!dirty ==> fat.HasSector(sect, buf))
    }

    ghost predicate Valid()
      reads this, fat
    {
      && At()
      && offset <= 0xffff_ffff && size <= 0xffff_ffff
      && Covers(fat.g, chain, size) && Covers(fat.g, chain, offset)
    }

    /** How many clusters the chain can have before the volume is full. */
    ghost function Room(): nat
      reads this, fat
    {
      RoomOf(fat.FatTable(), chain, fat.lastUsed)
    }

    /** The first `n` bytes of the file as the driver sees them. */
    ghost function Prefix(n: nat): (b: seq<u8>)
      requires Layout() && Covers(fat.g, chain, n)
      reads this, fat
    {
      Bytes(fat.g, fat.disk, chain, offset / 512, buf, n)
    }

    ghost function Contents(): (b: seq<u8>)
      requires Valid()
      reads this, fat
    {
      Prefix(size)
    }

    /** `fat32_open`, with its first seek to offset 0. */
    constructor (fat: Fat, sclust: nat, size: nat, canRead: bool, canWrite: bool, ghost chain: Chain, ghost chains: set<Chain>)
      requires fat.Valid() && Chains(fat.FatTable(), chains) && chain in chains && |chain| > 0 && chain[0] == sclust
      requires !InChain(fat.g, chain, fat.sect)
      requires size <= 0xffff_ffff && Covers(fat.g, chain, size)
      ensures Valid() && this.fat == fat && this.chain == chain && this.chains == chains
      ensures offset == 0 && this.size == size && !dirty && this.canRead == canRead && this.canWrite == canWrite
    {
      hide Geometry.ClustToSect, Shr, Low, SectAt, Has, Chains, InChain, Real, NoDup, Table, Covers, Geometry.Ok;
      ChainMember(fat.g, fat.FatTable(), chains, chain);
      FirstSector(fat.g, chain);
      OffsetCovered(fat.g, chain, 0);
      this.fat, this.sclust, this.clust, this.size, offset := fat, sclust, sclust, size, 0;
      this.canRead, this.canWrite := canRead, canWrite;
      accessed, modified, dirty := false, false, false;
      this.chain, this.chains := chain, chains;
      sect := fat.g.ClustToSect(sclust);
      buf := fat.disk[fat.g.ClustToSect(sclust)];
    }

    /** The loop body that follows the chain when its next cluster exists. */
    method FollowLink(ghost idx: nat) returns (err: int, next: nat, kind: Kind)
      requires Layout() && idx < |chain| && clust == chain[idx]
      modifies fat`disk, fat`buf, fat`sect, fat`bufDirty
      ensures Layout() && fat.View() == old(fat.View()) && fat.sect < fat.g.dataSect
      ensures err == FAT_ERR_NONE && (kind == Used || kind == Last)
      ensures kind == Used ==> idx + 1 < |chain| && next == chain[idx + 1]
      ensures kind == Last ==> idx + 1 == |chain|
      ensures SameSectors(fat.g, chain, old(fat.disk), fat.disk) && Room() == old(Room())
    {
      hide Table, Geometry.ClustToSect, Chains, InChain, SameSectors, SameData, RoomOf;
      LinkOf(fat.FatTable(), chains, chain, idx);
      ViewOff(fat);
      ghost var d, v, at := fat.disk, fat.View(), fat.sect;
      err, next, kind := fat.GetFat(clust);
      ViewOff(fat);
      SameDataRefl(fat.g, v);
      SameSectorsOf(fat.g, chain, d, at, v, fat.disk, fat.sect, v);
      FatSectOutside(fat.g, chain, fat.sect);
    }

    /** The loop body at the end of the chain. */
    method FollowEnd() returns (err: int, next: nat)
      requires Layout() && clust == chain[|chain| - 1] && fat.sect < fat.g.dataSect
      modifies this`chain, this`chains, fat
      ensures Layout() && Kept(fat.g, old(fat.View()), fat.View())
      ensures err == FAT_ERR_NONE || err == FAT_ERR_FULL
      ensures err == FAT_ERR_NONE ==> chain == old(chain) + [next] && chains - {chain} == old(chains) - {old(chain)}
      ensures err == FAT_ERR_FULL ==> OnlyFree(fat.FatTable(), fat.lastUsed) && chain == old(chain) && chains == old(chains)
      ensures Room() == old(Room()) && (err == FAT_ERR_FULL ==> |chain| == Room())
      ensures SameSectors(fat.g, old(chain), old(fat.disk), fat.disk)
      ensures old(fat.Counted()) ==> fat.Counted()
    {
      hide Table, Geometry.ClustToSect, Chains, InChain, SameSectors, SameData, Linked, After, OnlyFree, FreeCount, Classify, Kept, Geometry.Ok, Real, NoDup,
        RoomOf, NextIsFree, Chosen;
      ghost var t, d, v, at, lu := fat.FatTable(), fat.disk, fat.View(), fat.sect, fat.lastUsed;
      LinkOf(t, chains, chain, |chain| - 1);
      TableLimit(t, chains);
      EndNotFree(fat.g.clustCnt, t[clust]);
      ChainsClassified(t, chains);
      ViewOff(fat);
      var junk: u8 := *;
      var out;
      next := clust;
      err, out := fat.StretchChain(clust, junk);
      ViewOff(fat);
      KeptData(fat.g, v, fat.View());
      FatRegion(fat.g);
      SameSectorsOf(fat.g, chain, d, at, v, fat.disk, fat.sect, fat.View());
      if err == FAT_ERR_NONE {
        next := out.val;
        RoomStretch(t, chain, lu, next);
        StretchedChain(t, chains, chain, next);
        chains := chains - {chain} + {chain + [next]};
        chain := chain + [next];
        ChainMember(fat.g, fat.FatTable(), chains, chain);
      } else {
        RoomFull(t, chain, lu);
      }
      FatSectOutside(fat.g, chain, fat.sect);
    }

    /** The loop of `fat_file_seek`: follow `n` links, extending the chain at its end. */
    method Follow(n: nat, ghost idx: nat) returns (err: int)
      requires Layout() && idx < |chain| && clust == chain[idx]
      modifies this`clust, this`chain, this`chains, fat
      ensures Layout() && Kept(fat.g, old(fat.View()), fat.View())
      ensures err == FAT_ERR_NONE || err == FAT_ERR_FULL
      ensures err == FAT_ERR_NONE ==> idx + n < |chain| && clust == chain[idx + n]
      ensures err == FAT_ERR_FULL ==> OnlyFree(fat.FatTable(), fat.lastUsed) && clust == chain[|chain| - 1] && |chain| <= idx + n
      ensures Grown(old(chain), chain) && chains - {chain} == old(chains) - {old(chain)}
      ensures SameSectors(fat.g, old(chain), old(fat.disk), fat.disk)
      ensures idx + n < |old(chain)| ==> chain == old(chain) && chains == old(chains) && fat.View() == old(fat.View())
      ensures Room() == old(Room()) && (err == FAT_ERR_FULL <==> idx + n >= old(Room()))
      ensures |chain| == if err == FAT_ERR_FULL then old(Room()) else Max(|old(chain)|, idx + n + 1)
      ensures old(fat.Counted()) ==> fat.Counted()
    {
      hide Table, Geometry.ClustToSect, Chains, InChain, SameSectors, OnlyFree, FreeCount, Kept, Geometry.Ok, Real, NoDup, RoomOf;
      RoomBound(fat.FatTable(), chain, fat.lastUsed);
      KeptRefl(fat.g, fat.View());
      SameSectorsRefl(fat.g, chain, fat.disk);
      for i := 0 to n
        invariant Layout() && idx + i < |chain| && clust == chain[idx + i]
        invariant Grown(old(chain), chain) && chains - {chain} == old(chains) - {old(chain)}
        invariant SameSectors(fat.g, old(chain), old(fat.disk), fat.disk)
        invariant Kept(fat.g, old(fat.View()), fat.View())
        invariant idx + i < |old(chain)| ==> chain == old(chain) && chains == old(chains) && fat.View() == old(fat.View())
        invariant Room() == old(Room()) && |chain| == Max(|old(chain)|, idx + i + 1) && |chain| <= Room()
        invariant old(fat.Counted()) ==> fat.Counted()
      {
        ghost var c0, d0, v0 := chain, fat.disk, fat.View();
        var next, kind;
        err, next, kind := FollowLink(idx + i);
        SameSectorsTrans(fat.g, old(chain), c0, old(fat.disk), d0, fat.disk);
        if kind == Last {
          ghost var d1 := fat.disk;
          err, next := FollowEnd();
          KeptTrans(fat.g, old(fat.View()), v0, fat.View());
          SameSectorsTrans(fat.g, old(chain), c0, old(fat.disk), d1, fat.disk);
          if err != FAT_ERR_NONE {
            return;
          }
        }
        clust := next;
        RoomBound(fat.FatTable(), chain, fat.lastUsed);
      }
      return FAT_ERR_NONE;
    }

    /** Writes the sector buffer to its place, past the buffer of the volume. */
    method WriteBack(ssect: nat)
      requires Layout() && InChain(fat.g, chain, ssect) && ssect < |fat.disk|
      modifies fat`disk
      ensures Layout() && fat.disk == old(fat.disk)[ssect := buf] && fat.FatTable() == old(fat.FatTable())
      ensures fat.View() == old(fat.View())[ssect := buf]
      ensures Mirrored(fat.g, old(fat.View())) ==> Mirrored(fat.g, fat.View())
    {
      hide Table, Geometry.ClustToSect, Chains, InChain, Geometry.Ok, Mirrored;
      InChainData(fat.g, chain, ssect);
      DataWrite(fat.g, fat.View(), ssect, buf);
      fat.disk := fat.disk[ssect := buf];
      assert fat.View() == old(fat.View())[ssect := buf];
    }

    /** Writes back sector `k0` of the file if it was changed, and reads sector `k1`. */
    method Exchange(ssect: nat, ghost k0: nat, ghost k1: nat)
      requires Layout() && Spot(fat.g, chain, k0, ssect) && Spot(fat.g, chain, k1, sect)
      requires !dirty ==> fat.HasSector(ssect, buf)
      modifies this`buf, this`dirty, fat`disk
      ensures Layout() && (!dirty ==> fat.HasSector(sect, buf)) && fat.FatTable() == old(fat.FatTable())
      ensures SameFile(fat.g, old(fat.disk), chain, k0, old(buf), fat.disk, chain, k1, buf)
      ensures Off(old(fat.View()), fat.View(), ssect)
      ensures Mirrored(fat.g, old(fat.View())) ==> Mirrored(fat.g, fat.View())
    {
      hide Table, Geometry.ClustToSect, Chains, InChain, Geometry.Ok, Real, NoDup, Has, SectAt, SameFile, Mirrored;
      SectAtIn(fat.g, chain, k0);
      if sect != ssect {
        if dirty {
          WriteBack(ssect);
          dirty := false;
        }
        buf := fat.disk[sect];
      }
      LandedSame(fat.g, old(fat.disk), chain, k0, old(buf), old(dirty), fat.disk, k1, buf);
    }

    /** The end of `fat_file_seek`: move to the sector of `off`, writing the old one back if needed. */
    method Land(off: nat, ssect: nat, ghost k0: nat)
      requires Layout() && off <= 0xffff_ffff && Has(fat.g, chain, off / 512)
      requires clust == chain[Shr(off / 512, fat.g.clustShift)]
      requires Spot(fat.g, chain, k0, ssect) && (!dirty ==> fat.HasSector(ssect, buf))
      modifies this`sect, this`offset, this`buf, this`dirty, fat`disk
      ensures Layout() && At() && offset == off && fat.FatTable() == old(fat.FatTable())
      ensures SameFile(fat.g, old(fat.disk), chain, k0, old(buf), fat.disk, chain, off / 512, buf)
      ensures Off(old(fat.View()), fat.View(), ssect)
      ensures Mirrored(fat.g, old(fat.View())) ==> Mirrored(fat.g, fat.View())
    {
      hide Table, Geometry.ClustToSect, Chains, InChain, Geometry.Ok, Real, NoDup, Has, SectAt, SameFile, Mirrored, And, Off, Shr, Pow2, TableAt, InClust, Low;
      CursorSector(fat.g, chain, clust, off);
      sect := fat.g.ClustToSect(clust) + And(off / 512, fat.g.SectPerClust() - 1);
      offset := off;
      Exchange(ssect, k0, off / 512);
    }

    /** The first half of `fat_file_seek`: bring the cluster cursor to the cluster of `off`. */
    method Walk(off: nat) returns (err: int)
      requires Valid()
      modifies this`clust, this`sect, this`offset, this`chain, this`chains, fat
      ensures Layout() && Kept(fat.g, old(fat.View()), fat.View())
      ensures err == FAT_ERR_NONE || err == FAT_ERR_FULL
      ensures err == FAT_ERR_NONE ==> Has(fat.g, chain, off / 512) && clust == chain[Shr(off / 512, fat.g.clustShift)]
      ensures err == FAT_ERR_FULL ==>
                && OnlyFree(fat.FatTable(), fat.lastUsed) && clust == chain[|chain| - 1]
                && sect == old(sect) && offset == old(offset) && |chain| <= Shr(off / 512, fat.g.clustShift)
      ensures Grown(old(chain), chain) && chains - {chain} == old(chains) - {old(chain)}
      ensures SameSectors(fat.g, old(chain), old(fat.disk), fat.disk)
      ensures Room() == old(Room()) && (err == FAT_ERR_FULL <==> Clusters(fat.g, off) > old(Room()))
      ensures |chain| == if err == FAT_ERR_FULL then old(Room()) else Max(|old(chain)|, Clusters(fat.g, off))
      ensures old(fat.Counted()) ==> fat.Counted()
    {
      hide RoomOf, Table, Geometry.ClustToSect, Chains, InChain, SameSectors, OnlyFree, FreeCount, Kept, Geometry.Ok,
           Real, NoDup, SectAt, Shr, Pow2, Covers;
      DivClust(off, fat.g.clustShift);
      DivClust(offset, fat.g.clustShift);
      var clustSize := 512 * fat.g.SectPerClust();
      var dst := off / clustSize;
      var src := offset / clustSize;
      if dst < src {
        HeadReal(fat.g, chain);
        clust, sect, offset, src := sclust, fat.g.ClustToSect(sclust), 0, 0;
      }
      err := Follow(dst - src, src);
    }

    /** `fat_file_seek`, once the target is known to fit. */
    method SeekTo(off: nat) returns (err: int)
      requires Valid() && off <= 0xffff_ffff
      modifies this`clust, this`sect, this`offset, this`buf, this`dirty, this`chain, this`chains, fat
      ensures Layout() && Covers(fat.g, chain, size)
      ensures err == FAT_ERR_NONE || err == FAT_ERR_FULL
      ensures err == FAT_ERR_NONE ==> At() && offset == off
      ensures err == FAT_ERR_FULL ==>
                && OnlyFree(fat.FatTable(), fat.lastUsed) && clust == chain[|chain| - 1]
                && sect == old(sect) && offset == old(offset) && buf == old(buf) && dirty == old(dirty)
                && |chain| <= Shr(off / 512, fat.g.clustShift)
                && (At() <==> old(Room()) == Clusters(fat.g, old(offset)))
      ensures Room() == old(Room()) && (err == FAT_ERR_FULL <==> Clusters(fat.g, off) > old(Room()))
      ensures |chain| == if err == FAT_ERR_FULL then old(Room()) else Max(|old(chain)|, Clusters(fat.g, off))
      ensures SameFile(fat.g, old(fat.disk), old(chain), old(offset) / 512, old(buf), fat.disk, chain, offset / 512, buf)
      ensures Grown(old(chain), chain) && chains - {chain} == old(chains) - {old(chain)}
      ensures OtherData(fat.g, chain, old(fat.View()), fat.View())
      ensures Mirrored(fat.g, old(fat.View())) ==> Mirrored(fat.g, fat.View())
      ensures old(fat.Counted()) ==> fat.Counted()
    {
      hide Table, Geometry.ClustToSect, Chains, InChain, SameSectors, OnlyFree, FreeCount, Kept, Geometry.Ok,
           Real, NoDup, SameFile, OtherData, Mirrored, SectAt, Has, Shr, Covers, Off, RoomOf;
      ghost var g, d, c, k, b := fat.g, fat.disk, chain, offset / 512, buf;
      var ssect := sect;
      err := Walk(off);
      Followed(g, d, c, k, b, fat.disk, chain, size, old(fat.View()), fat.View());
      Arrived(g, c, chain, k, d, fat.disk);
      if err != FAT_ERR_NONE {
        LastIndex(fat.g, chain, offset / 512);
        return;
      }
      ghost var d1, v1 := fat.disk, fat.View();
      Land(off, ssect, k);
      SameFileTrans(g, d, c, k, b, d1, chain, k, b, fat.disk, chain, off / 512, buf);
      OtherDataOff(g, chain, old(fat.View()), v1, fat.View(), k, ssect);
    }

    /** `fat_file_seek`. Moving about, growing the chain and exchanging the buffer change nothing in the
        file. A seek fails when the target does not fit 32 bits, with no effect, or exactly if the target needs more
        clusters than the chain can get. Then the chain has been stretched as far as it goes and the cluster cursor
        stands at its end, while offset, sector and buffer stay, so the file is usable afterwards exactly if the cursor
        was in the last cluster and nothing was left to take. */
    method Seek(delta: int, seek: Seek) returns (err: int)
      requires Valid()
      modifies this`clust, this`sect, this`offset, this`buf, this`dirty, this`chain, this`chains, fat
      ensures Layout() && Covers(fat.g, chain, size)
      ensures err == FAT_ERR_NONE || err == FAT_ERR_EOF || err == FAT_ERR_FULL
      ensures seek == Start ==> Sought(fat.g, delta, old(Room()), |old(chain)|, err, offset, |chain|)
      ensures seek == Curr ==> Sought(fat.g, old(offset) + delta, old(Room()), |old(chain)|, err, offset, |chain|)
      ensures seek == End ==> Sought(fat.g, old(size) + delta, old(Room()), |old(chain)|, err, offset, |chain|)
      ensures err == FAT_ERR_EOF ==> Valid() && offset == old(offset) && chain == old(chain)
      ensures err == FAT_ERR_NONE ==> Valid()
      ensures err == FAT_ERR_FULL ==>
                && OnlyFree(fat.FatTable(), fat.lastUsed) && clust == chain[|chain| - 1]
                && sect == old(sect) && offset == old(offset) && buf == old(buf) && dirty == old(dirty)
                && |chain| == old(Room()) && (Valid() <==> old(Room()) == Clusters(fat.g, old(offset)))
      ensures Room() == old(Room())
      ensures SameFile(fat.g, old(fat.disk), old(chain), old(offset) / 512, old(buf), fat.disk, chain, offset / 512, buf)
      ensures Grown(old(chain), chain) && chains - {chain} == old(chains) - {old(chain)}
      ensures OtherData(fat.g, chain, old(fat.View()), fat.View())
      ensures Mirrored(fat.g, old(fat.View())) ==> Mirrored(fat.g, fat.View())
      ensures old(fat.Counted()) ==> fat.Counted()
    {
      hide Table, Geometry.ClustToSect, Chains, InChain, OnlyFree, FreeCount, Geometry.Ok,
           Real, NoDup, SameFile, OtherData, Mirrored, SectAt, Has, Shr, Covers, RoomOf;
      var base := match seek case Start => 0 case Curr => offset case End => size;
      var off64 := base + delta;
      if off64 < 0 || off64 > 0xffff_ffff {
        SameFileRefl(fat.g, fat.disk, chain, offset / 512, buf);
        OtherDataRefl(fat.g, chain, fat.View());
        return FAT_ERR_EOF;
      }
      err := SeekTo(off64);
      if At() {
        OffsetCovered(fat.g, chain, offset);
      }
    }

    /** The file starts with the bytes `b`, which may reach beyond its size. */
    ghost predicate Holds(b: seq<u8>)
      reads this, fat
    {
      Valid() && Covers(fat.g, chain, |b|) && Prefix(|b|) == b
    }

    /** The seek at the end of each turn of the read and write loops: at most one sector ahead. */
    method Step(cnt: nat) returns (err: int)
      requires Valid() && cnt <= 512 - offset % 512
      modifies this`clust, this`sect, this`offset, this`buf, this`dirty, this`chain, this`chains, fat
      ensures Valid()
      ensures err == FAT_ERR_NONE || err == FAT_ERR_EOF || err == FAT_ERR_FULL
      ensures err == FAT_ERR_EOF <==> old(offset) + cnt > 0xffff_ffff
      ensures err == FAT_ERR_FULL ==> OnlyFree(fat.FatTable(), fat.lastUsed)
      ensures offset == if err == FAT_ERR_NONE then old(offset) + cnt else old(offset)
      ensures StepRoom(fat.g, old(Room()), Room(), old(offset) + cnt, err)
      ensures SameFile(fat.g, old(fat.disk), old(chain), old(offset) / 512, old(buf), fat.disk, chain, offset / 512, buf)
      ensures Frame(fat.g, old(chain), old(chains), old(fat.View()), chain, chains, fat.View())
      ensures old(fat.Counted()) ==> fat.Counted()
    {
      hide Table, Geometry.ClustToSect, Chains, InChain, OnlyFree, FreeCount, Geometry.Ok,
           Real, NoDup, SameFile, OtherData, Mirrored, SectAt, Shr, Covers, RoomOf;
      RoomBound(fat.FatTable(), chain, fat.lastUsed);
      NextSector(offset, cnt, fat.g.clustShift);
      err := Seek(cnt, Curr);
    }

    /** One turn of the read loop. */
    method ReadSome(rest: nat, ghost whole: seq<u8>) returns (err: int, data: seq<u8>)
      requires Holds(whole) && |whole| == size && rest > 0 && offset < size
      modifies this`clust, this`sect, this`offset, this`buf, this`dirty, this`chain, this`chains, fat
      ensures Holds(whole)
      ensures err == FAT_ERR_NONE || (err == FAT_ERR_FULL && OnlyFree(fat.FatTable(), fat.lastUsed))
      ensures 0 < |data| <= rest && old(offset) + |data| <= size && data == whole[old(offset)..old(offset) + |data|]
      ensures offset == if err == FAT_ERR_NONE then old(offset) + |data| else old(offset)
      ensures StepRoom(fat.g, old(Room()), Room(), old(offset) + |data|, err)
      ensures Frame(fat.g, old(chain), old(chains), old(fat.View()), chain, chains, fat.View())
      ensures old(fat.Counted()) ==> fat.Counted()
    {
      hide Table, Geometry.ClustToSect, Chains, InChain, OnlyFree, Geometry.Ok, FreeCount,
           Real, NoDup, SameFile, SectAt, Shr, Covers, Bytes, Has, Frame, RoomOf, StepRoom;
      var idx := offset % 512;
      var cnt := Min(rest, Min(512 - idx, size - offset));
      ReadChunk(fat.g, fat.disk, chain, buf, size, offset, cnt);
      data := buf[idx..idx + cnt];
      ghost var d, c, b, o := fat.disk, chain, buf, offset;
      err := Step(cnt);
      SameFileBytes(fat.g, d, c, o / 512, b, fat.disk, chain, offset / 512, buf, size);
    }

    /** The loop of `fat_file_read`. */
    method ReadLoop(len: nat, ghost whole: seq<u8>) returns (err: int, data: seq<u8>)
      requires Holds(whole) && |whole| == size
      modifies this`clust, this`sect, this`offset, this`buf, this`dirty, this`chain, this`chains, fat
      ensures Holds(whole)
      ensures ReadOut(whole, old(offset), len, err, data, offset)
      ensures err == FAT_ERR_FULL ==> OnlyFree(fat.FatTable(), fat.lastUsed)
      ensures StepRoom(fat.g, old(Room()), Room(), ReadEnd(old(offset), size, len), err)
      ensures Frame(fat.g, old(chain), old(chains), old(fat.View()), chain, chains, fat.View())
      ensures old(fat.Counted()) ==> fat.Counted()
    {
      hide File.Valid, File.Holds, File.Room, Fat.View, Fat.FatTable, OnlyFree, FreeCount, Frame, Got, ReadOut, Clusters;
      data := [];
      HoldsValid(this, whole);
      HoldsRoom(this, whole);
      FrameHere(this);
      GotNone(whole, offset);
      var rest: nat := len;
      while rest > 0 && offset < size
        invariant Holds(whole)
        invariant offset == old(offset) + |data| && rest + |data| == len
        invariant Got(whole, old(offset), data)
        invariant Room() == old(Room()) && Clusters(fat.g, offset) <= Room() && offset <= 0xffff_ffff
        invariant Frame(fat.g, old(chain), old(chains), old(fat.View()), chain, chains, fat.View())
        invariant old(fat.Counted()) ==> fat.Counted()
        decreases rest
      {
        ghost var c, cs, v := chain, chains, fat.View();
        var chunk;
        ghost var at := offset;
        err, chunk := ReadSome(rest, whole);
        ClustersMono(fat.g, at + |chunk|, ReadEnd(old(offset), size, len));
        HoldsRoom(this, whole);
        FrameTrans(fat.g, old(chain), old(chains), old(fat.View()), c, cs, v, chain, chains, fat.View());
        GotMore(whole, old(offset), data, chunk);
        data := data + chunk;
        rest := rest - |chunk|;
        if err != FAT_ERR_NONE {
          GotAll(whole, old(offset), len, err, data, offset);
          return;
        }
      }
      err := FAT_ERR_NONE;
      GotAll(whole, old(offset), len, err, data, offset);
    }

    /** `fat_file_read`: the bytes of the file from the cursor on, across sectors and clusters. The seek behind
        the last byte may allocate a cluster, so even a read can find the volume full. */
    method Read(len: nat) returns (err: int, data: seq<u8>)
      requires Valid()
      modifies this, fat
      ensures Valid() && size == old(size) && Contents() == old(Contents())
      ensures !canRead ==> err == FAT_ERR_DENIED && data == [] && offset == old(offset)
      ensures canRead ==> ReadOut(Contents(), old(offset), len, err, data, offset)
      ensures err == FAT_ERR_FULL ==> OnlyFree(fat.FatTable(), fat.lastUsed)
      ensures Room() == old(Room())
      ensures err == FAT_ERR_FULL <==> canRead && Clusters(fat.g, ReadEnd(old(offset), size, len)) > old(Room())
      ensures Frame(fat.g, old(chain), old(chains), old(fat.View()), chain, chains, fat.View())
      ensures old(fat.Counted()) ==> fat.Counted()
    {
      hide Table, Geometry.ClustToSect, Chains, InChain, OnlyFree, Geometry.Ok, FreeCount,
           Real, NoDup, SectAt, Shr, Covers, Bytes, Has, Frame, ReadOut, RoomOf;
      FrameHere(this);
      if !canRead {
        return FAT_ERR_DENIED, [];
      }
      accessed := true;
      err, data := ReadLoop(len, Contents());
    }

    /** The bytes in front of the cursor or the end of the file, whichever is further. */
    ghost function Reach(): (b: seq<u8>)
      requires Valid()
      reads this, fat
      ensures |b| == Max(size, offset) && Holds(b)
    {
      Prefix(Max(size, offset))
    }

    /** One turn of the write loop: a chunk goes into the buffer, then the cursor moves behind it. */
    method WriteSome(src: seq<u8>, ghost was: seq<u8>) returns (err: int, cnt: nat)
      requires src != [] && Holds(was) && offset <= |was|
      modifies this`clust, this`sect, this`offset, this`buf, this`dirty, this`chain, this`chains, fat
      ensures 0 < cnt <= |src| && Holds(Splice(was, old(offset), src[..cnt]))
      ensures err == FAT_ERR_NONE || err == FAT_ERR_EOF || err == FAT_ERR_FULL
      ensures err == FAT_ERR_EOF <==> old(offset) + cnt > 0xffff_ffff
      ensures err == FAT_ERR_FULL ==> OnlyFree(fat.FatTable(), fat.lastUsed)
      ensures offset == if err == FAT_ERR_NONE then old(offset) + cnt else old(offset)
      ensures StepRoom(fat.g, old(Room()), Room(), old(offset) + cnt, err)
      ensures Frame(fat.g, old(chain), old(chains), old(fat.View()), chain, chains, fat.View())
      ensures old(fat.Counted()) ==> fat.Counted()
    {
      hide Table, Geometry.ClustToSect, Chains, InChain, OnlyFree, Geometry.Ok, FreeCount,
           Real, NoDup, SameFile, SectAt, Shr, Covers, Bytes, Has, Frame, Splice, RoomOf, StepRoom;
      var idx := offset % 512;
      cnt := Min(|src|, 512 - idx);
      ghost var n := |was|;
      ghost var m := Max(n, offset + cnt);
      WriteChunk(fat.g, fat.disk, chain, buf, n, offset, src[..cnt]);
      buf := Patched(buf, idx, src[..cnt]);
      dirty := true;
      ghost var d, c, b, o := fat.disk, chain, buf, offset;
      err := Step(cnt);
      SameFileBytes(fat.g, d, c, o / 512, b, fat.disk, chain, offset / 512, buf, m);
    }

    /** The loop of `fat_file_write`. */
    method WriteLoop(src: seq<u8>) returns (bytes: nat, ghost ok: bool)
      requires Valid()
      modifies this`clust, this`sect, this`offset, this`buf, this`dirty, this`chain, this`chains, fat
      ensures bytes <= |src| && Holds(Splice(old(Reach()), old(offset), src[..bytes]))
      ensures ok ==> bytes == |src| && offset == old(offset) + |src|
      ensures !ok ==> old(offset) <= offset < old(offset) + bytes
      ensures Room() == old(Room()) && (ok <==> WriteFits(fat.g, old(Room()), old(offset) + |src|))
      ensures Frame(fat.g, old(chain), old(chains), old(fat.View()), chain, chains, fat.View())
      ensures old(fat.Counted()) ==> fat.Counted()
    {
      hide File.Valid, File.Holds, File.Room, Fat.View, Fat.FatTable, OnlyFree, FreeCount, Frame, Splice, Clusters;
      bytes, ok := 0, true;
      FrameHere(this);
      ghost var was := Reach();
      HoldsRoom(this, was);
      SpliceNone(was, offset, src);
      while bytes < |src|
        invariant bytes <= |src| && ok && offset == old(offset) + bytes
        invariant Holds(Splice(was, old(offset), src[..bytes]))
        invariant Room() == old(Room()) && Clusters(fat.g, offset) <= Room() && offset <= 0xffff_ffff
        invariant Frame(fat.g, old(chain), old(chains), old(fat.View()), chain, chains, fat.View())
        invariant old(fat.Counted()) ==> fat.Counted()
        decreases |src| - bytes
      {
        ghost var c, cs, v := chain, chains, fat.View();
        SpliceStep(was, old(offset), src, bytes, 0);
        var e, cnt := WriteSome(src[bytes..], Splice(was, old(offset), src[..bytes]));
        FrameTrans(fat.g, old(chain), old(chains), old(fat.View()), c, cs, v, chain, chains, fat.View());
        SpliceStep(was, old(offset), src, bytes, cnt);
        ClustersMono(fat.g, old(offset) + bytes + cnt, old(offset) + |src|);
        HoldsRoom(this, Splice(was, old(offset), src[..bytes + cnt]));
        bytes := bytes + cnt;
        ok := e == FAT_ERR_NONE;
        if e != FAT_ERR_NONE {
          break;
        }
      }
    }

    /** `fat_file_write`. Exactly if the end of the data fits 32 bits and the chain can be stretched that far, the data
        lies over the old bytes and the file ends at the larger of the two ends. Otherwise the last chunk is copied and
        counted but the cursor stays in front of it, so it shows only where the file already reached; success is reported
        all the same. */
    method Write(src: seq<u8>) returns (err: int, bytes: nat, ghost ok: bool)
      requires Valid()
      modifies this, fat
      ensures Valid()
      ensures !canWrite ==> err == FAT_ERR_DENIED && bytes == 0 && offset == old(offset) && size == old(size) && Contents() == old(Contents())
      ensures canWrite ==> err == FAT_ERR_NONE && Written(old(Reach()), old(offset), old(size), src, bytes, ok, offset, size, Contents())
      ensures ok ==> Overlaid(old(Contents()), old(offset), src, Contents()) && offset == old(offset) + |src|
      ensures Room() == old(Room())
      ensures ok <==> canWrite && WriteFits(fat.g, old(Room()), old(offset) + |src|)
      ensures Frame(fat.g, old(chain), old(chains), old(fat.View()), chain, chains, fat.View())
      ensures old(fat.Counted()) ==> fat.Counted()
    {
      hide Table, Geometry.ClustToSect, Chains, InChain, OnlyFree, Geometry.Ok, FreeCount,
           Real, NoDup, SectAt, Shr, Covers, Bytes, Has, Frame, Written, Splice, RoomOf, WriteFits;
      FrameHere(this);
      if !canWrite {
        return FAT_ERR_DENIED, 0, false;
      }
      modified, accessed := true, true;
      ghost var was := Reach();
      Shown(fat.g, fat.disk, chain, offset / 512, buf, |was|, size);
      OverlaidIs(was, Contents(), offset, src);
      bytes, ok := WriteLoop(src);
      ghost var all := Splice(was, old(offset), src[..bytes]);
      if offset > size {
        size := offset;
      }
      Shown(fat.g, fat.disk, chain, offset / 512, buf, |all|, size);
      WriteResult(was, old(offset), old(size), src, bytes, ok, offset, size, |all|, Contents());
      WholeResult(was, old(offset), old(size), src, bytes, ok, offset, size, Contents());
      err := FAT_ERR_NONE;
    }

    /** What is written and fits is read back after a seek to where it was written, in whatever clusters it lies. */
    method WriteThenRead(src: seq<u8>) returns (err: int, data: seq<u8>)
      requires Valid() && canRead && canWrite
      modifies this, fat
      ensures WriteFits(fat.g, old(Room()), old(offset) + |src|) ==> err == FAT_ERR_NONE && data == src
      ensures WriteFits(fat.g, old(Room()), old(offset) + |src|) ==> Valid() && offset == old(offset) + |src|
    {
      hide Table, Geometry.ClustToSect, Chains, InChain, OnlyFree, Geometry.Ok, FreeCount, SameFile,
           Real, NoDup, SectAt, Shr, Covers, Bytes, Has, Frame, Written, RoomOf, OtherData, Mirrored, Overlaid, ReadOut, Clusters, ReadEnd;
      var start := offset;
      ghost var was := Contents();
      ClustersMono(fat.g, start, start + |src|);
      var _, bytes, ok := Write(src);
      data := [];
      ghost var d, c, k, b := fat.disk, chain, offset / 512, buf;
      ghost var all := Contents();
      err := Seek(start, Start);
      if err == FAT_ERR_NONE {
        SameFileBytes(fat.g, d, c, k, b, fat.disk, chain, offset / 512, buf, size);
        err, data := Read(|src|);
        if ok {
          ReadBack(fat.g, was, start, src, all, Room(), err, data, offset);
        }
      }
    }
  }
}
