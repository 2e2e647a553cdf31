/** Sectors, little-endian words, the geometry of a mounted FAT32 volume and its allocation table
    (section "FAT Data Structure" of the Microsoft FAT32 File System Specification v1.03). */
module FatDisk {
  import opened Bits

  type u8 = x: nat | x < 256

  const SECT: nat := 512

  type Sector = s: seq<u8> | |s| == SECT witness seq(SECT, _ => 0)

  type Disk = seq<Sector>

  // ----- little-endian 32-bit words of a sector -----

  const M28: nat := 0x1000_0000

  function Word(s: Sector, i: nat): (w: nat)
    requires i < 128
    ensures w < 0x1_0000_0000
  {
    var b0: nat, b1: nat, b2: nat, b3: nat := s[4 * i], s[4 * i + 1], s[4 * i + 2], s[4 * i + 3];
    b0 + 0x100 * b1 + 0x1_0000 * b2 + 0x100_0000 * b3
  }

  function SetWord(s: Sector, i: nat, w: nat): Sector
    requires i < 128 && w < 0x1_0000_0000
  {
    s[4 * i := w % 0x100][4 * i + 1 := w / 0x100 % 0x100][4 * i + 2 := w / 0x1_0000 % 0x100][4 * i + 3 := w / 0x100_0000]
  }

  lemma WordOfSetWord(s: Sector, i: nat, w: nat, j: nat)
    requires i < 128 && w < 0x1_0000_0000 && j < 128
    ensures Word(SetWord(s, i, w), j) == if i == j then w else Word(s, j)
  {
    var t := SetWord(s, i, w);
    if i == j {
      assert t[4 * i] == w % 0x100 && t[4 * i + 1] == w / 0x100 % 0x100;
      assert t[4 * i + 2] == w / 0x1_0000 % 0x100 && t[4 * i + 3] == w / 0x100_0000;
    } else {
      assert t[4 * j] == s[4 * j] && t[4 * j + 1] == s[4 * j + 1];
      assert t[4 * j + 2] == s[4 * j + 2] && t[4 * j + 3] == s[4 * j + 3];
    }
  }

  // ----- geometry -----

  /** The fields `fat_mount` sets once: `fat1 == 0` means the table is not mirrored. */
  datatype Geometry = Geometry(clustShift: nat, clustCnt: nat, infoSect: nat, fat0: nat, fat1: nat,
                               dataSect: nat, rootClust: nat, diskSize: nat)
  {
    function SectPerClust(): nat { Pow2(clustShift) }

    function FatLen(): nat { (clustCnt + 127) / 128 }

    /** The regions of the volume do not overlap and lie on the disk. */
    ghost predicate Ok() {
      && clustShift <= 7
      && 2 < clustCnt <= 0x0fff_fff7
      && 0 < infoSect < fat0
      && fat0 + FatLen() <= dataSect
      && (fat1 != 0 ==>
            && infoSect < fat1 && fat1 + FatLen() <= dataSect
            && (fat0 + FatLen() <= fat1 || fat1 + FatLen() <= fat0))
      && 2 <= rootClust < clustCnt
      && dataSect <= ClustToSect(clustCnt) <= diskSize <= 0x1_0000_0000
    }

    predicate InRange(c: nat) { 2 <= c < clustCnt }

    /** `clust_to_sect` */
    function ClustToSect(c: nat): nat
      requires c >= 2
    {
      (c - 2) * SectPerClust() + dataSect
    }
  }

  /** Different clusters have different sectors, all of them in the data region. */
  lemma ClustSectors(g: Geometry, c: nat, d: nat)
    requires g.Ok() && 2 <= c < d <= g.clustCnt
    ensures g.dataSect <= g.ClustToSect(c)
    ensures g.ClustToSect(c) + g.SectPerClust() <= g.ClustToSect(d) <= g.diskSize
  {
    hide Pow2;
    var spc := g.SectPerClust();
    MulGap(c - 2, d - 2, spc);
    if d < g.clustCnt {
      MulGap(d - 2, g.clustCnt - 2, spc);
    }
  }

  // ----- the allocation table -----

  /** One word of a FAT copy. */
  function FatWord(d: Disk, fatSect: nat, c: nat): nat
    requires fatSect + c / 128 < |d|
  {
    Word(d[fatSect + c / 128], c % 128)
  }

  /** The low 28 bits of the words of the copy at `fatSect`: the upper nibble is not part of an entry. */
  ghost function TableAt(g: Geometry, d: Disk, fatSect: nat): (t: seq<nat>)
    requires g.Ok() && |d| == g.diskSize && fatSect + g.FatLen() <= g.dataSect
    ensures |t| == g.clustCnt
    ensures forall c :: 0 <= c < |t| ==> t[c] == FatWord(d, fatSect, c) % M28
  {
    hide Geometry.ClustToSect, Word;
    seq(g.clustCnt, c requires 0 <= c < g.clustCnt => FatWord(d, fatSect, c) % M28)
  }

  ghost function Table(g: Geometry, d: Disk): (t: seq<nat>)
    requires g.Ok() && |d| == g.diskSize
    ensures |t| == g.clustCnt
  {
    TableAt(g, d, g.fat0)
  }

  /** The disk with the low 28 bits of one FAT word replaced. */
  ghost function WithEntry(d: Disk, fatSect: nat, c: nat, val: nat): Disk
    requires fatSect + c / 128 < |d|
  {
    var w := FatWord(d, fatSect, c);
    d[fatSect + c / 128 := SetWord(d[fatSect + c / 128], c % 128, w - w % M28 + val % M28)]
  }

  /** All words of a sector but number `i` are the same. */
  ghost predicate OtherWords(s: Sector, s': Sector, i: nat) { forall j: nat | j < 128 && j != i :: Word(s', j) == Word(s, j) }

  /** Replacing an entry changes that entry of that copy, and nothing else on the disk. */
  lemma WithEntryTable(g: Geometry, d: Disk, fatSect: nat, c: nat, val: nat)
    requires g.Ok() && |d| == g.diskSize && c < g.clustCnt && val < M28
    requires fatSect == g.fat0 || (g.fat1 != 0 && fatSect == g.fat1)
    ensures fatSect + c / 128 < |d| && |WithEntry(d, fatSect, c, val)| == |d|
    ensures TableAt(g, WithEntry(d, fatSect, c, val), fatSect) == TableAt(g, d, fatSect)[c := val]
    ensures forall s :: 0 <= s < |d| && !(fatSect <= s < fatSect + g.FatLen()) ==> WithEntry(d, fatSect, c, val)[s] == d[s]
    ensures forall s :: 0 <= s < |d| && s != fatSect + c / 128 ==> WithEntry(d, fatSect, c, val)[s] == d[s]
    ensures OtherWords(d[fatSect + c / 128], WithEntry(d, fatSect, c, val)[fatSect + c / 128], c % 128)
    ensures FatWord(WithEntry(d, fatSect, c, val), fatSect, c) / M28 == FatWord(d, fatSect, c) / M28
  {
    hide Geometry.ClustToSect, Word, SetWord;
    var w := FatWord(d, fatSect, c);
    var d' := WithEntry(d, fatSect, c, val);
    var s, s' := d[fatSect + c / 128], d'[fatSect + c / 128];
    forall j: nat | j < 128 && j != c % 128 ensures Word(s', j) == Word(s, j) {
      WordOfSetWord(s, c % 128, w - w % M28 + val, j);
    }
    WordOfSetWord(d[fatSect + c / 128], c % 128, w - w % M28 + val, c % 128);
    forall e | 0 <= e < g.clustCnt
      ensures FatWord(d', fatSect, e) % M28 == if e == c then val else FatWord(d, fatSect, e) % M28
    {
      if e / 128 == c / 128 {
        WordOfSetWord(d[fatSect + c / 128], c % 128, w - w % M28 + val, e % 128);
      }
    }
    assert TableAt(g, d', fatSect) == TableAt(g, d, fatSect)[c := val];
  }
}
