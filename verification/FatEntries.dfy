/** A directory as the sequence of the 32-byte entries in the sectors of its cluster chain. */
module FatEntries {
  import opened Base
  import opened Bits
  import opened FatDisk
  import opened FatTable
  import opened FatChains
  import opened FatFile
  import opened FatNames

  /** Entries of one cluster. */
  function PerClust(g: Geometry): (n: nat)
    ensures n >= 1
  {
    Pow2(4 + g.clustShift)
  }

  function EntCount(g: Geometry, chain: Chain): nat
  {
    |chain| * PerClust(g)
  }

  lemma HasEntry(g: Geometry, chain: Chain, e: nat)
    ensures e < EntCount(g, chain) <==> Has(g, chain, e / 16)
  {
    hide Pow2, Shr;
    ShrBound(e, |chain|, 4 + g.clustShift);
    Shr4(e, g.clustShift);
  }

  lemma SlotRange(e: nat)
    ensures 32 * (e % 16) + 32 <= 512
  {
  }

  ghost function EntryAt(g: Geometry, v: Disk, chain: Chain, e: nat): Entry
    requires g.Ok() && |v| == g.diskSize && Real(g, chain) && Has(g, chain, e / 16)
  {
    SectAtIn(g, chain, e / 16);
    SlotRange(e);
    v[SectAt(g, chain, e / 16)][32 * (e % 16)..32 * (e % 16) + 32]
  }

  ghost function Entries(g: Geometry, v: Disk, chain: Chain): (es: seq<Entry>)
    requires g.Ok() && |v| == g.diskSize && Real(g, chain)
    ensures |es| == EntCount(g, chain)
    ensures forall e: nat :: e < |es| ==> Has(g, chain, e / 16) && es[e] == EntryAt(g, v, chain, e)
  {
    EntriesTo(g, v, chain, EntCount(g, chain))
  }

  ghost function EntriesTo(g: Geometry, v: Disk, chain: Chain, n: nat): (es: seq<Entry>)
    requires g.Ok() && |v| == g.diskSize && Real(g, chain) && n <= EntCount(g, chain)
    ensures |es| == n
    ensures forall e: nat :: e < n ==> Has(g, chain, e / 16) && es[e] == EntryAt(g, v, chain, e)
  {
    hide Geometry.Ok, EntCount, EntryAt, Real, Has;
    if n == 0 then []
    else
      HasEntry(g, chain, n - 1);
      EntriesTo(g, v, chain, n - 1) + [EntryAt(g, v, chain, n - 1)]
  }

  /** The sector with one entry replaced. */
  function PutSlot(s: Sector, idx: nat, e: Entry): Sector
    requires idx + 32 <= 512
  {
    s[..idx] + e + s[idx + 32..]
  }

  lemma SlotSame(s: Sector, e: nat, f: nat, en: Entry)
    requires e / 16 == f / 16
    ensures 32 * (e % 16) + 32 <= 512 && 32 * (f % 16) + 32 <= 512
    ensures PutSlot(s, 32 * (e % 16), en)[32 * (f % 16)..32 * (f % 16) + 32] == if e == f then en else s[32 * (f % 16)..32 * (f % 16) + 32]
  {
    var a, b := 32 * (e % 16), 32 * (f % 16);
    var t := PutSlot(s, a, en);
    if e != f {
      assert a + 32 <= b || b + 32 <= a;
    }
  }

  /** Writing an entry changes that entry only. */
  lemma EntryPut(g: Geometry, v: Disk, chain: Chain, e: nat, en: Entry, v': Disk)
    requires g.Ok() && |v| == g.diskSize && Real(g, chain) && NoDup(chain) && Has(g, chain, e / 16)
    requires SectAt(g, chain, e / 16) < |v| && 32 * (e % 16) + 32 <= 512
    requires v' == v[SectAt(g, chain, e / 16) := PutSlot(v[SectAt(g, chain, e / 16)], 32 * (e % 16), en)]
    ensures e < EntCount(g, chain) && Entries(g, v', chain) == Entries(g, v, chain)[e := en]
  {
    hide Geometry.Ok, Real, NoDup, Has, SectAt, EntCount, PutSlot, EntriesTo;
    HasEntry(g, chain, e);
    var es, es' := Entries(g, v, chain), Entries(g, v', chain);
    forall f: nat | f < |es| ensures es'[f] == if f == e then en else es[f] {
      HasEntry(g, chain, f);
      OneEntryPut(g, v, chain, e, en, v', f);
      assert es'[f] == EntryAt(g, v', chain, f) && es[f] == EntryAt(g, v, chain, f);
    }
  }

  lemma OneEntryPut(g: Geometry, v: Disk, chain: Chain, e: nat, en: Entry, v': Disk, f: nat)
    requires g.Ok() && |v| == g.diskSize && Real(g, chain) && NoDup(chain) && Has(g, chain, e / 16) && Has(g, chain, f / 16)
    requires SectAt(g, chain, e / 16) < |v| && 32 * (e % 16) + 32 <= 512
    requires v' == v[SectAt(g, chain, e / 16) := PutSlot(v[SectAt(g, chain, e / 16)], 32 * (e % 16), en)]
    ensures EntryAt(g, v', chain, f) == if f == e then en else EntryAt(g, v, chain, f)
  {
    hide Geometry.Ok, Real, NoDup, Has, SectAt, PutSlot;
    SectAtIn(g, chain, f / 16);
    SlotRange(f);
    if f / 16 == e / 16 {
      SlotSame(v[SectAt(g, chain, e / 16)], e, f, en);
    } else {
      SectAtInjective(g, chain, f / 16, e / 16);
    }
  }

  /** The same sectors hold the same entries. */
  lemma EntriesSame(g: Geometry, v: Disk, v': Disk, chain: Chain)
    requires g.Ok() && |v| == |v'| == g.diskSize && Real(g, chain) && SameSectors(g, chain, v, v')
    ensures Entries(g, v', chain) == Entries(g, v, chain)
  {
    hide Geometry.Ok, Real, Has, SectAt, EntCount, EntriesTo, InChain;
    var es, es' := Entries(g, v, chain), Entries(g, v', chain);
    forall f: nat | f < |es| ensures es'[f] == es[f] {
      HasEntry(g, chain, f);
      SectAtIn(g, chain, f / 16);
      assert es'[f] == EntryAt(g, v', chain, f) && es[f] == EntryAt(g, v, chain, f);
    }
  }

  function ZeroEntries(n: nat): (z: seq<Entry>)
    ensures |z| == n && forall i :: 0 <= i < n ==> z[i] == ZeroEntry()
  {
    seq(n, _ => ZeroEntry())
  }

  function ZeroEntry(): Entry
  {
    seq(32, _ => 0)
  }

  lemma CountGrows(g: Geometry, chain: Chain, c: nat)
    ensures EntCount(g, chain + [c]) == EntCount(g, chain) + PerClust(g)
  {
    hide Pow2, PerClust;
  }

  /** Every sector of cluster `c` is zero. */
  ghost predicate Cleared(g: Geometry, v: Disk, c: nat)
  {
    |v| == g.diskSize && forall s: nat :: s < |v| && InClust(g, c, s) ==> v[s] == seq(SECT, _ => 0)
  }

  lemma FreshEntry(g: Geometry, v: Disk, chain: Chain, c: nat, e: nat)
    requires g.Ok() && |v| == g.diskSize && Real(g, chain + [c]) && Cleared(g, v, c)
    requires Has(g, chain + [c], e / 16) && !Has(g, chain, e / 16)
    ensures EntryAt(g, v, chain + [c], e) == ZeroEntry()
  {
    hide Geometry.Ok, Geometry.ClustToSect, Shr, Low;
    var ch := chain + [c];
    SectAtIn(g, ch, e / 16);
    SlotRange(e);
    assert ch[Shr(e / 16, g.clustShift)] == c;
    assert InClust(g, c, SectAt(g, ch, e / 16));
  }

  /** Appending a cleared cluster to the chain appends zero entries to the directory. */
  lemma EntriesGrow(g: Geometry, v: Disk, v': Disk, chain: Chain, c: nat)
    requires g.Ok() && |v| == |v'| == g.diskSize && Real(g, chain) && Real(g, chain + [c])
    requires SameSectors(g, chain, v, v') && Cleared(g, v', c)
    ensures Entries(g, v', chain + [c]) == Entries(g, v, chain) + ZeroEntries(PerClust(g))
  {
    hide Geometry.Ok, Real, Has, SectAt, EntCount, EntriesTo, InChain, PerClust, Cleared;
    var ch := chain + [c];
    var es, es' := Entries(g, v, chain), Entries(g, v', ch);
    CountGrows(g, chain, c);
    EntriesSame(g, v, v', chain);
    forall f: nat | f < |es'| ensures es'[f] == if f < |es| then es[f] else ZeroEntry() {
      HasEntry(g, chain, f);
      HasEntry(g, ch, f);
      assert es'[f] == EntryAt(g, v', ch, f);
      if f < |es| {
        GrownSect(g, chain, ch, f / 16);
        SectAtIn(g, chain, f / 16);
        SlotRange(f);
        assert es[f] == EntryAt(g, v', chain, f);
      } else {
        FreshEntry(g, v', chain, c, f);
      }
    }
  }
}
