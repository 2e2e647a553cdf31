/** The recursive page-table arithmetic of kernel/include/mm/mm.h on 64-bit addresses. */
module PagingAddr {
  import opened Bits

  const TOP: nat := 0x1_0000_0000_0000_0000
  const PAGES: nat := 0x10_0000_0000
  const REC: nat := 0x1fe

  const PML4E_BASE: nat := 0xffff_ff7f_bfdf_e000
  const PDPTE_BASE: nat := 0xffff_ff7f_bfc0_0000
  const PDE_BASE: nat := 0xffff_ff7f_8000_0000
  const PTE_BASE: nat := 0xffff_ff00_0000_0000

  // ----- the address maps, as written in the header -----

  function PtrToPml4e(va: nat): nat { PML4E_BASE + And(Shr(va, 36), 0x1ff * 8) }

  function PtrToPdpte(va: nat): nat { PDPTE_BASE + And(Shr(va, 27), 0x3ffff * 8) }

  function PtrToPde(va: nat): nat { PDE_BASE + And(Shr(va, 18), 0x7ff_ffff * 8) }

  function PtrToPte(va: nat): nat { PTE_BASE + And(Shr(va, 9), 0xf_ffff_ffff * 8) }

  /** `(i64)x >> 16`: the sign bit is shifted in. */
  function Sar16(x: nat): nat { Shr(x, 16) + (if x >= TOP / 2 then 0xffff_0000_0000_0000 else 0) }

  function PteToPtr(p: nat): nat { Sar16(p * 0x200_0000 % TOP) }

  function PdeToPtr(p: nat): nat { Sar16(p * 0x4_0000_0000 % TOP) }

  function PdpteToPtr(p: nat): nat { Sar16(p * 0x800_0000_0000 % TOP) }

  function Pml4eToPtr(p: nat): nat { Sar16(p * 0x10_0000_0000_0000 % TOP) }

  // ----- pages and table indices -----

  /** Bits 47 to 12: the virtual page, four indices of nine bits. */
  function PageNo(va: nat): nat { va / 4096 % PAGES }

  function I4(v: nat): nat { v / 0x800_0000 % 512 }
  function I3(v: nat): nat { v / 0x4_0000 % 512 }
  function I2(v: nat): nat { v / 512 % 512 }
  function I1(v: nat): nat { v % 512 }

  /** Bits 63 to 47 are all equal. */
  predicate Canonical(va: nat) { va < 0x8000_0000_0000 || TOP - 0x8000_0000_0000 <= va < TOP }

  /** The canonical address of a page. */
  function PageAddr(v: nat): nat
  {
    v * 4096 + (if v >= PAGES / 2 then 0xffff_0000_0000_0000 else 0)
  }

  /** The page, in the recursive window, that holds the page-table entry of page `v`. */
  function Up(v: nat): nat { REC * 0x800_0000 + v / 512 }

  // ----- shifts and masks as arithmetic -----

  lemma MaskShift3(x: nat, m: nat)
    ensures And(x, m * 8) == 8 * And(x / 8, m)
  {
    assert And(x, m * 8) == 2 * And(x / 2, m * 4);
    assert And(x / 2, m * 4) == 2 * And(x / 2 / 2, m * 2);
    assert And(x / 2 / 2, m * 2) == 2 * And(x / 2 / 2 / 2, m);
    assert x / 2 / 2 / 2 == x / 8;
  }

  lemma Powers()
    ensures Pow2(9) == 512 && Pow2(12) == 4096 && Pow2(18) == 0x4_0000 && Pow2(21) == 0x20_0000
    ensures Pow2(27) == 0x800_0000 && Pow2(30) == 0x4000_0000 && Pow2(36) == PAGES && Pow2(39) == 0x80_0000_0000
    ensures Pow2(16) == 0x1_0000
  {
    Pow2Times512(0);
    assert Pow2(3) == 8;
    Pow2Add(9, 3);
    Pow2Add(9, 9);
    Pow2Add(18, 3);
    Pow2Add(18, 9);
    Pow2Add(27, 3);
    Pow2Add(27, 9);
    Pow2Add(36, 3);
    Pow2Add(12, 4);
    assert Pow2(4) == 2 * Pow2(3);
  }

  /** `(va >> (s - 3)) & (mask << 3)`: eight times the field of `k` bits at `s`. */
  lemma Field(va: nat, s: nat, k: nat)
    requires s >= 3
    ensures And(Shr(va, s - 3), (Pow2(k) - 1) * 8) == 8 * (va / Pow2(s) % Pow2(k))
  {
    hide Shr, And, Low, Pow2;
    MaskShift3(Shr(va, s - 3), Pow2(k) - 1);
    Shr3(va, s - 3);
    AndMask(Shr(va, s), k);
    ShrDiv(va, s);
    LowMod(Shr(va, s), k);
  }

  lemma Shr3(x: nat, a: nat)
    ensures Shr(x, a) / 8 == Shr(x, a + 3)
  {
    ShrShr(x, a, 3);
    var y := Shr(x, a);
    assert Shr(y, 3) == Shr(y / 2, 2) == Shr(y / 2 / 2, 1) == y / 2 / 2 / 2;
  }

  // ----- what the maps compute -----

  /** The entry pointers lie at eight times the table position behind their base. */
  lemma PtrForms(va: nat)
    ensures PtrToPte(va) == PTE_BASE + 8 * PageNo(va)
    ensures PtrToPde(va) == PDE_BASE + 8 * (va / 0x20_0000 % 0x800_0000)
    ensures PtrToPdpte(va) == PDPTE_BASE + 8 * (va / 0x4000_0000 % 0x4_0000)
    ensures PtrToPml4e(va) == PML4E_BASE + 8 * (va / 0x80_0000_0000 % 512)
  {
    hide Shr, And, Pow2;
    Powers();
    Field(va, 12, 36);
    Field(va, 21, 27);
    Field(va, 30, 18);
    Field(va, 39, 9);
  }

  /** Dividing by `a` and then by `b` is dividing by the product. */
  lemma DivDiv(x: nat, a: nat, b: nat, ab: nat)
    requires a > 0 && b > 0 && ab == a * b
    ensures x / a / b == x / ab && x / a % b == x % ab / a
  {
    var q := x / a;
    Split(x, a);
    Split(q, b);
    Parts(x, a, b, ab, q, x % a, q / b, q % b);
  }

  lemma Split(x: nat, a: nat)
    requires a > 0
    ensures x == a * (x / a) + x % a && 0 <= x % a < a && x / a >= 0
  {
  }

  lemma Parts(x: nat, a: nat, b: nat, ab: nat, q: nat, r: nat, s: nat, t: nat)
    requires r < a && t < b && ab == a * b && x == a * q + r && q == b * s + t
    ensures x / ab == s && x % ab / a == t
  {
    Digits(a, b, ab, s, t, r);
  }

  lemma Digits(a: nat, b: nat, ab: nat, s: nat, t: nat, r: nat)
    requires r < a && t < b && ab == a * b
    ensures var x := a * (b * s + t) + r; x / ab == s && x % ab / a == t
  {
    var e := a * t + r;
    Regroup(a, b, s, t);
    MulGap(t, b, a);
    ModAdd(ab, s, e);
    ModAdd(a, t, r);
  }

  lemma Regroup(a: nat, b: nat, s: nat, t: nat)
    ensures a * (b * s + t) == (a * b) * s + a * t
  {
  }

  lemma ModAdd(m: nat, k: nat, x: nat)
    requires x < m
    ensures (m * k + x) / m == k && (m * k + x) % m == x
  {
    DivUnique(m * k + x, m, k, x);
  }

  /** The page-table entry of page `v` is word `I1(v)` of page `Up(v)`; that page's own indices are those of `v`
      moved one level down behind the recursive slot. */
  lemma UpIndices(v: nat)
    requires v < PAGES
    ensures Up(v) < PAGES && Up(v) / 512 == REC * 0x4_0000 + v / 0x4_0000
    ensures I4(Up(v)) == REC && I3(Up(v)) == I4(v) && I2(Up(v)) == I3(v) && I1(Up(v)) == I2(v)
  {
    var u := v / 512;
    ModAdd(0x800_0000, REC, u);
    LowDigits(v, u);
    HighDigits(v, u);
  }

  lemma LowDigits(v: nat, u: nat)
    requires u == v / 512
    ensures (REC * 0x800_0000 + u) / 512 == REC * 0x4_0000 + v / 0x4_0000
    ensures (REC * 0x800_0000 + u) / 512 % 512 == I3(v) && (REC * 0x800_0000 + u) % 512 == I2(v)
  {
    DivDiv(v, 512, 512, 0x4_0000);
    ModAdd(512, REC * 0x4_0000 + u / 512, u % 512);
    Shifted(REC * 512, v / 0x4_0000);
  }

  lemma HighDigits(v: nat, u: nat)
    requires v < PAGES && u == v / 512
    ensures (REC * 0x800_0000 + u) / 0x4_0000 % 512 == I4(v)
  {
    DivDiv(v, 512, 0x4_0000, 0x800_0000);
    ModAdd(0x4_0000, REC * 512 + u / 0x4_0000, u % 0x4_0000);
    Shifted(REC, v / 0x800_0000);
  }

  lemma Shifted(k: nat, x: nat)
    ensures (k * 512 + x) % 512 == x % 512
  {
    ModAdd(512, k + x / 512, x % 512);
  }

  /** Where the entry of an address lies: word `I1` of the page `Up`. */
  lemma PtePlace(va: nat)
    ensures PtrToPte(va) < TOP && Canonical(PtrToPte(va))
    ensures PageNo(PtrToPte(va)) == Up(PageNo(va)) && PtrToPte(va) % 4096 == 8 * I1(PageNo(va))
  {
    hide PtrToPte, PtrToPde, PtrToPdpte, PtrToPml4e;
    PtrForms(va);
    var v := PageNo(va);
    PlaceOf(v, PtrToPte(va));
  }

  lemma PlaceOf(v: nat, p: nat)
    requires v < PAGES && p == PTE_BASE + 8 * v
    ensures p < TOP && Canonical(p)
    ensures p / 4096 % PAGES == Up(v) && p % 4096 == 8 * (v % 512)
  {
    var u := v / 512;
    ModAdd(4096, 0xf_ffff_f000_0000 + u, 8 * (v % 512));
    ModAdd(PAGES, 0xffff, REC * 0x800_0000 + u);
  }

  /** The higher pointers are the page-table pointer taken again: one more turn through the recursive slot per level. */
  lemma PointerIteration(va: nat)
    ensures PtrToPde(va) == PtrToPte(PtrToPte(va))
    ensures PtrToPdpte(va) == PtrToPte(PtrToPte(PtrToPte(va)))
    ensures PtrToPml4e(va) == PtrToPte(PtrToPte(PtrToPte(PtrToPte(va))))
  {
    hide PtrToPte, PtrToPde, PtrToPdpte, PtrToPml4e, PageNo, Up, I1;
    PtrForms(va);
    var p1 := PtrToPte(va);
    PtePlace(va);
    PtrForms(p1);
    var p2 := PtrToPte(p1);
    PtePlace(p1);
    PtrForms(p2);
    var p3 := PtrToPte(p2);
    PtePlace(p2);
    PtrForms(p3);
    FieldOf(va);
    UpChain(PageNo(va));
  }

  lemma UpChain(v: nat)
    requires v < PAGES
    ensures PTE_BASE + 8 * Up(v) == PDE_BASE + 8 * (v / 512)
    ensures PTE_BASE + 8 * Up(Up(v)) == PDPTE_BASE + 8 * (v / 0x4_0000)
    ensures PTE_BASE + 8 * Up(Up(Up(v))) == PML4E_BASE + 8 * (v / 0x800_0000)
  {
    var u := Up(v);
    UpIndices(v);
    UpIndices(u);
    ModAdd(512, REC * 512 + v / 0x800_0000, v / 0x4_0000 % 512);
    DivDiv(v, 0x4_0000, 512, 0x800_0000);
  }

  lemma FieldOf(va: nat)
    ensures PageNo(va) < PAGES
    ensures va / 0x20_0000 % 0x800_0000 == PageNo(va) / 512
    ensures va / 0x4000_0000 % 0x4_0000 == PageNo(va) / 0x4_0000
    ensures va / 0x80_0000_0000 % 512 == PageNo(va) / 0x800_0000
  {
    var w := va / 4096;
    DivDiv(va, 4096, 512, 0x20_0000);
    DivDiv(va, 4096, 0x4_0000, 0x4000_0000);
    DivDiv(va, 4096, 0x800_0000, 0x80_0000_0000);
    DivDiv(w, 512, 0x800_0000, PAGES);
    DivDiv(w, 0x4_0000, 0x4_0000, PAGES);
    DivDiv(w, 0x800_0000, 512, PAGES);
  }

  /** `mi_pte_to_ptr` undoes `mi_ptr_to_pte` up to the page, with the sign extended. */
  lemma PteRoundTrip(va: nat)
    ensures PteToPtr(PtrToPte(va)) == PageAddr(PageNo(va))
  {
    hide PtrToPte, PtrToPde, PtrToPdpte, PtrToPml4e, PageNo;
    PtrForms(va);
    FieldOf(va);
    BackOf(PageNo(va), PtrToPte(va));
  }

  lemma BackOf(v: nat, p: nat)
    requires v < PAGES && p == PTE_BASE + 8 * v
    ensures PteToPtr(p) == PageAddr(v)
  {
    hide Sar16, PageAddr;
    var x := v * 0x1000_0000;
    assert PTE_BASE * 0x200_0000 == TOP * 0x1ff_fffe;
    ModAdd(TOP, 0x1ff_fffe, x);
    SignExtended(v);
  }

  /** The inverses of the higher levels give the canonical address of the first page under the entry. */
  lemma UpperRoundTrips(va: nat)
    ensures PdeToPtr(PtrToPde(va)) == PageAddr(PageNo(va) / 512 * 512)
    ensures PdpteToPtr(PtrToPdpte(va)) == PageAddr(PageNo(va) / 0x4_0000 * 0x4_0000)
    ensures Pml4eToPtr(PtrToPml4e(va)) == PageAddr(PageNo(va) / 0x800_0000 * 0x800_0000)
  {
    hide PtrToPte, PtrToPde, PtrToPdpte, PtrToPml4e, PageNo, Sar16, PageAddr;
    PtrForms(va);
    FieldOf(va);
    var v := PageNo(va);
    var a, b, c := v / 512, v / 0x4_0000, v / 0x800_0000;
    ModAdd(TOP, 0x3_ffff_fdfe, a * 512 * 0x1000_0000);
    ModAdd(TOP, 0x7ff_fffb_fdfe, b * 0x4_0000 * 0x1000_0000);
    ModAdd(TOP, 0xf_ffff_f7fb_fdfe, c * 0x800_0000 * 0x1000_0000);
    SignExtended(a * 512);
    SignExtended(b * 0x4_0000);
    SignExtended(c * 0x800_0000);
  }

  lemma SignExtended(v: nat)
    requires v < PAGES
    ensures Sar16(v * 0x1000_0000) == PageAddr(v)
  {
    hide Shr, Pow2;
    Powers();
    ShrDiv(v * 0x1000_0000, 16);
    ModAdd(0x1_0000, v * 4096, 0);
  }

  /** For a canonical address that is the address of its page. */
  lemma PageOfCanonical(va: nat)
    requires Canonical(va)
    ensures PageAddr(PageNo(va)) == va - va % 4096
  {
    var w := va / 4096;
    if va < 0x8000_0000_0000 {
      ModAdd(PAGES, 0, w);
    } else {
      var x := w - 0xffff * PAGES;
      ModAdd(PAGES, 0xffff, x);
    }
  }

  /** Pages and canonical page addresses correspond. */
  lemma PageOfAddr(v: nat)
    requires v < PAGES
    ensures Canonical(PageAddr(v)) && PageNo(PageAddr(v)) == v && PageAddr(v) % 4096 == 0
  {
    if v < PAGES / 2 {
      ModAdd(4096, v, 0);
      ModAdd(PAGES, 0, v);
    } else {
      ModAdd(4096, v + 0xffff * PAGES, 0);
      ModAdd(PAGES, 0xffff, v);
    }
  }
}
