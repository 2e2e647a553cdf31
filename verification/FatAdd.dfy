/** What `dir_add` leaves in a directory, and why `dir_search` then finds it. */
module FatAdd {
  import opened FatDisk
  import opened FatTable
  import opened FatNames

  predicate GoodName(name: Name)
  {
    1 <= |name| <= 255 && forall i :: 0 <= i < |name| ==> name[i] != 0
  }

  /** The number of long-name entries for a name of `len` bytes. */
  function Lfns(len: nat): nat { (len + 12) / 13 }

  /** Part `i` of the name, counted from 1. */
  function Part(name: Name, i: nat): Name
    requires 1 <= i <= Lfns(|name|)
  {
    name[13 * (i - 1)..if 13 * i < |name| then 13 * i else |name|]
  }

  /** The characters of a long-name entry: two bytes each, in three stretches of the entry. The part of the name, a
      terminator, and padding. */
  ghost predicate Filled(e: Entry, part: Name)
  {
    && |part| <= 13
    && (forall k | 0 <= k < |part| :: SlotAt(e, k, part[k], 0))
    && (|part| < 13 ==> SlotAt(e, |part|, 0, 0))
    && (forall k | |part| < k < 13 :: SlotAt(e, k, 0xff, 0xff))
  }

  predicate SlotAt(e: Entry, k: nat, lo: u8, hi: u8)
    requires k < 13
  {
    var p := if k < 5 then 1 + 2 * k else if k < 11 then 4 + 2 * k else 6 + 2 * k;
    e[p] == lo && e[p + 1] == hi
  }

  /** `e` is the long-name entry for part `i` of `name`; the entry written first carries the head mark. */
  ghost predicate LfnEntry(e: Entry, name: Name, i: nat)
  {
    && 1 <= i <= Lfns(|name|)
    && e[0] == (if i == Lfns(|name|) then 0x40 + i else i)
    && e[11] == 0x0f && e[13] == Crc(SfnName(name)) && Frag(e) == Part(name, i)
    && Filled(e, Part(name, i)) && e[12] == 0 && e[26] == 0 && e[27] == 0
  }

  /** Entries `s` to `p` may be overwritten: they are free, or the end mark is among them and all up to it are.
      `eod` says which. Nothing before them is an end mark. */
  ghost predicate Run(es: seq<Entry>, s: nat, p: nat, eod: bool)
  {
    && s <= p < |es|
    && (forall j :: 0 <= j < s ==> !IsLast(es[j]))
    && (!eod ==> forall j :: s <= j <= p ==> IsFree(es[j]) && !IsLast(es[j]))
    && (eod ==> exists l :: EndMark(es, s, p, l))
  }

  ghost predicate EndMark(es: seq<Entry>, s: nat, p: nat, l: nat)
  {
    s <= l <= p < |es| && IsLast(es[l]) && forall j :: s <= j < l ==> IsFree(es[j]) && !IsLast(es[j])
  }

  /** The directory `x` after a file with `name` has been added to `es` with its short entry at `s + Lfns`. */
  ghost predicate Added(es: seq<Entry>, x: seq<Entry>, name: Name, s: nat, eod: bool)
  {
    var n := Lfns(|name|);
    var p := s + n;
    && |x| == |es| && p + 1 < |es|
    && (forall j :: 0 <= j < s ==> x[j] == es[j])
    && (forall j :: p + 1 < j < |es| ==> x[j] == es[j])
    && x[p + 1] == (if eod then es[p + 1][0 := 0] else es[p + 1])
    && (forall j :: s <= j < p ==> LfnEntry(x[j], name, p - j))
    && x[p][..11] == SfnName(name) && !IsLfn(x[p])
  }

  // ----- the new group -----

  lemma HeadByte(e: Entry, name: Name, i: nat)
    requires GoodName(name) && LfnEntry(e, name, i)
    ensures LfnCount(e) == i && 1 <= i <= 20 && !IsFree(e)
  {
    hide Frag, FragFrom, Crc, SfnName, Part, Filled;
  }

  lemma HoldsPart(e: Entry, name: Name, i: nat)
    requires LfnEntry(e, name, i)
    ensures 1 <= i <= Lfns(|name|) && Frag(e) == Part(name, i)
  {
    hide Frag, Crc, SfnName, Filled, Part;
  }

  /** Entries of parts `k`, `k - 1`, ..., 1 hold the first `13 * k` bytes of the name. */
  lemma {:induction false} PartsJoin(g: seq<Entry>, name: Name)
    requires GoodName(name) && |g| <= Lfns(|name|)
    requires forall j :: 0 <= j < |g| ==> LfnEntry(g[j], name, |g| - j)
    ensures Spelled(g) == name[..if 13 * |g| < |name| then 13 * |g| else |name|]
    decreases |g|
  {
    hide Frag, FragFrom, Crc, SfnName, Filled, LfnEntry;
    if |g| > 0 {
      PartsJoin(g[1..], name);
      HoldsPart(g[0], name, |g|);
    }
  }

  lemma PartFull(name: Name, i: nat)
    requires 1 <= i < Lfns(|name|)
    ensures |Part(name, i)| == 13
  {
  }

  /** The new entries form a group that spells the name. */
  lemma NewGroupOf(g: seq<Entry>, name: Name)
    requires GoodName(name) && |g| == Lfns(|name|) + 1
    requires forall j :: 0 <= j < |g| - 1 ==> LfnEntry(g[j], name, |g| - 1 - j)
    requires g[|g| - 1][..11] == SfnName(name) && !IsLfn(g[|g| - 1])
    ensures GroupOf(g) && LfnCount(g[0]) == Lfns(|name|) && IsLfn(g[0]) && !IsFree(g[0])
    ensures Spelled(g[..|g| - 1]) == name
  {
    hide Frag, FragFrom, Crc, SfnName, Spelled, Part, LfnCount;
    var n := |g| - 1;
    PartsJoin(g[..n], name);
    HeadByte(g[0], name, n);
    forall j | 0 <= j < n ensures IsLfn(g[j]) && !IsFree(g[j]) && g[j][CRC] == g[0][CRC] {
      HeadByte(g[j], name, n - j);
    }
    forall j | 0 < j < n ensures |Frag(g[j])| == 13 {
      assert LfnEntry(g[j], name, n - j);
      PartFull(name, n - j);
    }
    assert g[n][0] == g[n][..11][0];
  }

  lemma NewGroup(es: seq<Entry>, x: seq<Entry>, name: Name, s: nat, eod: bool)
    requires GoodName(name) && Added(es, x, name, s, eod)
    ensures Group(x, s) && LfnCount(x[s]) == Lfns(|name|) && IsLfn(x[s]) && !IsFree(x[s])
    ensures LongName(x, s, Lfns(|name|)) == name
  {
    hide Frag, FragFrom, Crc, SfnName, Spelled, Part, LfnCount, GroupOf, LfnEntry;
    var n := Lfns(|name|);
    var g := x[s..s + n + 1];
    forall j | 0 <= j < n ensures LfnEntry(g[j], name, n - j) {
      assert g[j] == x[s + j];
    }
    NewGroupOf(g, name);
    assert g[..n] == x[s..s + n];
    assert LfnEntry(x[s], name, n);
    HeadByte(x[s], name, n);
  }

  // ----- parts of a directory that are the same -----

  lemma GroupSame(x: seq<Entry>, y: seq<Entry>, i: nat)
    requires Group(x, i) && |x| <= |y| && forall j :: i <= j <= i + LfnCount(x[i]) ==> x[j] == y[j]
    ensures Group(y, i) && y[i] == x[i] && LongName(y, i, LfnCount(x[i])) == LongName(x, i, LfnCount(x[i]))
  {
    hide GroupOf, Spelled, LfnCount;
    var n := LfnCount(x[i]);
    assert x[i..i + n + 1] == y[i..i + n + 1] && x[i..i + n] == y[i..i + n];
  }

  /** Everything from `i` on is the same. */
  lemma {:induction false} SuffixSame(x: seq<Entry>, y: seq<Entry>, i: nat, name: Name)
    requires |x| == |y| && (forall j :: i <= j < |x| ==> x[j] == y[j]) && Wf(x, i)
    ensures Wf(y, i) && Search(y, name, i) == Search(x, name, i) && Items(y, i) == Items(x, i)
    decreases |x| - i
  {
    hide Frag, FragFrom, Crc, SfnName, Spelled, LfnCount, GroupOf, NameEq;
    if i >= |x| || IsLast(x[i]) {
    } else if !IsFree(x[i]) && IsLfn(x[i]) {
      GroupSame(x, y, i);
      SuffixSame(x, y, i + LfnCount(x[i]) + 1, name);
    } else {
      SuffixSame(x, y, i + 1, name);
    }
  }

  /** Walking over free entries. */
  lemma {:induction false} SkipFree(es: seq<Entry>, s: nat, e: nat, name: Name)
    requires Wf(es, s) && s <= e <= |es| && forall j :: s <= j < e ==> IsFree(es[j]) && !IsLast(es[j])
    ensures Wf(es, e) && Search(es, name, s) == Search(es, name, e) && Items(es, s) == Items(es, e)
    decreases e - s
  {
    hide Frag, FragFrom, Crc, SfnName, Spelled, LfnCount, GroupOf, NameEq;
    if s < e {
      SkipFree(es, s + 1, e, name);
    }
  }

  /** A fresh cluster of zero entries at the end changes nothing. */
  lemma {:induction false} Extended(es: seq<Entry>, more: seq<Entry>, i: nat, name: Name)
    requires Wf(es, i) && more != [] && IsLast(more[0]) && i <= |es|
    ensures Wf(es + more, i) && Search(es + more, name, i) == (Search(es, name, i)) && Items(es + more, i) == Items(es, i)
    decreases |es| - i
  {
    hide Frag, FragFrom, Crc, SfnName, Spelled, LfnCount, GroupOf, NameEq;
    var y := es + more;
    if i >= |es| || IsLast(es[i]) {
      assert i == |es| ==> y[i] == more[0];
    } else if !IsFree(es[i]) && IsLfn(es[i]) {
      GroupSame(es, y, i);
      Extended(es, more, i + LfnCount(es[i]) + 1, name);
    } else {
      Extended(es, more, i + 1, name);
    }
  }

  // ----- the theorem -----

  ghost function NewItem(x: seq<Entry>, name: Name, s: nat): Item
    requires s + Lfns(|name|) < |x|
  {
    Item(s, s + Lfns(|name|), name, x[s + Lfns(|name|)])
  }

  lemma {:induction false} NameEqSelf(a: Name)
    ensures NameEq(a, a)
  {
  }

  lemma GroupFound(x: seq<Entry>, name: Name, s: nat, n: nat)
    requires Group(x, s) && n == LfnCount(x[s]) && IsLfn(x[s]) && !IsFree(x[s]) && LongName(x, s, n) == name && Wf(x, s + n + 1)
    ensures Wf(x, s) && Search(x, name, s) == Found(s + n)
    ensures Items(x, s) == Items(x, s + n + 1) + {Item(s, s + n, name, x[s + n])}
  {
    hide Frag, Crc, SfnName, Spelled, LfnCount, GroupOf;
    NameEqSelf(name);
  }

  lemma AtEnd(x: seq<Entry>, i: nat)
    requires i < |x| && IsLast(x[i])
    ensures Wf(x, i) && Items(x, i) == {}
  {
  }

  /** Behind the new group. */
  lemma BehindNew(es: seq<Entry>, x: seq<Entry>, name: Name, s: nat, eod: bool)
    requires Added(es, x, name, s, eod) && Run(es, s, s + Lfns(|name|), eod) && Wf(es, s)
    ensures Wf(x, s + Lfns(|name|) + 1) && Items(x, s + Lfns(|name|) + 1) == Items(es, s)
  {
    hide Frag, FragFrom, Crc, SfnName, Spelled, LfnCount, GroupOf, Lfns, LfnEntry, Wf, Items, Search;
    var p := s + Lfns(|name|);
    if eod {
      var l :| EndMark(es, s, p, l);
      SkipFree(es, s, l, name);
      AtEnd(es, l);
      AtEnd(x, p + 1);
    } else {
      SkipFree(es, s, p + 1, name);
      SuffixSame(es, x, p + 1, name);
    }
  }

  /** At the place of the new group. */
  lemma AtNew(es: seq<Entry>, x: seq<Entry>, name: Name, s: nat, eod: bool)
    requires GoodName(name) && Added(es, x, name, s, eod) && Run(es, s, s + Lfns(|name|), eod) && Wf(es, s)
    ensures Wf(x, s) && Search(x, name, s) == Found(s + Lfns(|name|))
    ensures Items(x, s) == Items(es, s) + {NewItem(x, name, s)}
  {
    hide Added, LfnCount, Group, Lfns, Run, Wf, Items, Search, LongName;
    NewGroup(es, x, name, s, eod);
    BehindNew(es, x, name, s, eod);
    GroupFound(x, name, s, Lfns(|name|));
  }

  /** Walking towards the new group: everything in front of it is passed as before. */
  lemma {:induction false} BeforeNew(es: seq<Entry>, x: seq<Entry>, name: Name, s: nat, eod: bool, i: nat)
    requires GoodName(name) && Added(es, x, name, s, eod) && Run(es, s, s + Lfns(|name|), eod)
    requires Wf(es, i) && i <= s
    ensures Wf(x, i) && (Search(es, name, i).Failed? ==> Search(x, name, i) == Found(s + Lfns(|name|)))
    ensures Items(x, i) == Items(es, i) + {NewItem(x, name, s)}
    decreases s - i
  {
    hide Frag, FragFrom, Crc, SfnName, Spelled, LfnCount, NameEq, GroupOf, Lfns, LfnEntry, Run;
    if i == s {
      AtNew(es, x, name, s, eod);
    } else if !IsFree(es[i]) && IsLfn(es[i]) {
      var n := LfnCount(es[i]);
      NotLastBefore(es, s, s + Lfns(|name|), eod, i);
      FreeAt(es, s, s + Lfns(|name|), eod);
      GroupHasNoFree(es, i, s);
      GroupSame(es, x, i);
      BeforeNew(es, x, name, s, eod, i + n + 1);
    } else {
      NotLastBefore(es, s, s + Lfns(|name|), eod, i);
      BeforeNew(es, x, name, s, eod, i + 1);
    }
  }

  lemma GroupHasNoFree(es: seq<Entry>, i: nat, s: nat)
    requires Group(es, i) && i < s < |es| && IsFree(es[s])
    ensures i + LfnCount(es[i]) < s
  {
    hide Spelled, Frag, LfnCount, Crc;
    var n := LfnCount(es[i]);
    var g := es[i..i + n + 1];
    assert forall j :: 0 <= j <= n ==> g[j] == es[i + j] && !IsFree(g[j]);
  }

  lemma NotLastBefore(es: seq<Entry>, s: nat, p: nat, eod: bool, i: nat)
    requires Run(es, s, p, eod) && i < s
    ensures !IsLast(es[i])
  {
  }

  lemma FreeAt(es: seq<Entry>, s: nat, p: nat, eod: bool)
    requires Run(es, s, p, eod)
    ensures IsFree(es[s])
  {
    if eod {
      var l :| EndMark(es, s, p, l);
    }
  }

  /** `dir_add` then `dir_search`: the directory stays well formed, and its live files are the earlier ones, unchanged,
      and the new one. A name that was not found before is found at its new short entry. */
  lemma AddThenSearch(es: seq<Entry>, x: seq<Entry>, name: Name, s: nat, eod: bool)
    requires GoodName(name) && Wf(es, 0) && Added(es, x, name, s, eod) && Run(es, s, s + Lfns(|name|), eod)
    ensures Wf(x, 0) && Items(x, 0) == Items(es, 0) + {NewItem(x, name, s)} && NewItem(x, name, s) !in Items(es, 0)
    ensures Search(es, name, 0).Failed? ==> Search(x, name, 0) == Found(s + Lfns(|name|))
    ensures NewItem(x, name, s).sfn[..11] == SfnName(name)
  {
    hide Wf, Items, Search, Run, Lfns;
    BeforeNew(es, x, name, s, eod, 0);
    FreeAt(es, s, s + Lfns(|name|), eod);
    ItemsLive(es, 0, s);
  }

  /** No live file starts at a free entry. */
  lemma {:induction false} ItemsLive(es: seq<Entry>, i: nat, s: nat)
    requires Wf(es, i) && s < |es| && IsFree(es[s])
    ensures forall it | it in Items(es, i) :: it.start != s
    decreases |es| - i
  {
    hide Frag, FragFrom, Crc, SfnName, Spelled, LfnCount, GroupOf;
    if i >= |es| || IsLast(es[i]) {
    } else if !IsFree(es[i]) && IsLfn(es[i]) {
      ItemsLive(es, i + LfnCount(es[i]) + 1, s);
    } else {
      ItemsLive(es, i + 1, s);
    }
  }

  /** What a search does not find is not among the live files. */
  lemma {:induction false} NotThere(es: seq<Entry>, i: nat, name: Name, it: Item)
    requires Wf(es, i) && Search(es, name, i).Failed? && it.long == name && name != []
    ensures it !in Items(es, i)
    decreases |es| - i
  {
    hide Frag, FragFrom, Crc, SfnName, Spelled, LfnCount, NameEq, GroupOf;
    if i >= |es| || IsLast(es[i]) {
    } else if !IsFree(es[i]) && IsLfn(es[i]) {
      NameEqSelf(name);
      NotThere(es, i + LfnCount(es[i]) + 1, name, it);
    } else {
      NotThere(es, i + 1, name, it);
    }
  }

  // ----- writing one entry -----

  lemma IdxStep(i: nat)
    requires i < 12
    ensures LFN_IDX[i] + 2 <= LFN_IDX[i + 1] <= 30 && LFN_IDX[i] >= 1
  {
  }

  lemma {:induction false} IdxGap(k: nat, i: nat)
    requires k < i < 13
    ensures 1 <= LFN_IDX[k] && LFN_IDX[k] + 2 <= LFN_IDX[i] <= 30
    decreases i - k
  {
    IdxStep(i - 1);
    if k + 1 < i {
      IdxGap(k, i - 1);
    }
  }

  /** The character slots leave the other fields of the entry alone. */
  lemma IdxFields(i: nat)
    requires i < 13
    ensures 1 <= LFN_IDX[i] <= 30
    ensures LFN_IDX[i] !in {0, 11, 12, 13, 26, 27} && LFN_IDX[i] + 1 !in {0, 11, 12, 13, 26, 27}
  {
  }

  /** What `put_lfn_name_frag` writes for character `k`. */
  function Lo(part: Name, k: nat): u8 { if k < |part| then part[k] else if k == |part| then 0 else 0xff }

  function Hi(part: Name, k: nat): u8 { if k <= |part| then 0 else 0xff }

  /** The first `n` character slots are written. */
  ghost predicate Holds(e: Entry, part: Name, n: nat)
  {
    n <= 13 && forall k: nat | k < n :: 0 <= LFN_IDX[k] < 31 && e[LFN_IDX[k]] == Lo(part, k) && e[LFN_IDX[k] + 1] == Hi(part, k)
  }

  ghost predicate FieldsSame(e: Entry, f: Entry) { forall j | 0 <= j < 32 && j in {0, 11, 12, 13, 26, 27} :: f[j] == e[j] }

  lemma HoldsMore(e: Entry, part: Name, n: nat)
    requires Holds(e, part, n) && n < 13
    ensures var i := LFN_IDX[n]; 0 <= i < 31 && Holds(e[i := Lo(part, n)][i + 1 := Hi(part, n)], part, n + 1)
    ensures var i := LFN_IDX[n]; FieldsSame(e, e[i := Lo(part, n)][i + 1 := Hi(part, n)])
  {
    var i := LFN_IDX[n];
    IdxFields(n);
    var f: Entry := e[i := Lo(part, n)][i + 1 := Hi(part, n)];
    forall k: nat | k < n ensures f[LFN_IDX[k]] == e[LFN_IDX[k]] && f[LFN_IDX[k] + 1] == e[LFN_IDX[k] + 1] {
      IdxGap(k, n);
    }
  }

  lemma HoldsNone(e: Entry, part: Name)
    ensures Holds(e, part, 0) && FieldsSame(e, e)
  {
  }

  /** What the slots hold is what `parse_lfn_name` reads. */
  lemma {:induction false} FragHeld(e: Entry, part: Name, i: nat)
    requires Holds(e, part, 13) && i <= |part| <= 13 && forall k | 0 <= k < |part| :: part[k] != 0
    ensures FragFrom(e, i) == part[i..]
    decreases |part| - i
  {
    hide FragFrom;
    if i < 13 {
      FragStep(e, i);
      assert e[LFN_IDX[i]] == Lo(part, i);
      if i < |part| {
        FragHeld(e, part, i + 1);
        assert part[i..] == [part[i]] + part[i + 1..];
      }
    } else {
      FragEnd(e);
    }
  }

  lemma FilledIs(e: Entry, part: Name)
    requires Holds(e, part, 13) && |part| <= 13
    ensures Filled(e, part)
  {
    hide Holds, SlotAt;
    forall k | 0 <= k < |part| ensures SlotAt(e, k, part[k], 0) {
      SlotHeld(e, part, k);
    }
    if |part| < 13 {
      SlotHeld(e, part, |part|);
    }
    forall k | |part| < k < 13 ensures SlotAt(e, k, 0xff, 0xff) {
      SlotHeld(e, part, k);
    }
  }

  lemma SlotHeld(e: Entry, part: Name, k: nat)
    requires Holds(e, part, 13) && k < 13
    ensures SlotAt(e, k, Lo(part, k), Hi(part, k))
  {
    hide Lo, Hi;
    assert e[LFN_IDX[k]] == Lo(part, k);
    SlotIs(k);
  }

  /** Where the characters of a long-name entry lie. */
  lemma SlotIs(k: nat)
    requires k < 13
    ensures LFN_IDX[k] == if k < 5 then 1 + 2 * k else if k < 11 then 4 + 2 * k else 6 + 2 * k
  {
  }

  /** `put_lfn_name_frag`: thirteen characters, the name part, a terminator and padding. */
  method PutFrag(e: Entry, part: Name) returns (r: Entry)
    requires |part| <= 13 && forall k :: 0 <= k < |part| ==> part[k] != 0
    ensures Frag(r) == part && Filled(r, part) && FieldsSame(e, r)
  {
    hide Frag, Holds, FragFrom, Filled, FieldsSame;
    r := e;
    HoldsNone(r, part);
    var i := 0;
    while i < |part|
      invariant 0 <= i <= |part| && Holds(r, part, i) && FieldsSame(e, r)
    {
      r := StoreChar(e, r, part, i, part[i], 0);
      i := i + 1;
    }
    if i < 13 {
      r := StoreChar(e, r, part, i, 0, 0);
      i := i + 1;
      while i < 13
        invariant |part| < i <= 13 && Holds(r, part, i) && FieldsSame(e, r)
        decreases 13 - i
      {
        r := StoreChar(e, r, part, i, 0xff, 0xff);
        i := i + 1;
      }
    }
    FragIs(r, part);
    FilledIs(r, part);
  }

  /** The two stores for one character. */
  method StoreChar(ghost e: Entry, r0: Entry, ghost part: Name, i: nat, lo: u8, hi: u8) returns (r: Entry)
    requires i < 13 && Holds(r0, part, i) && FieldsSame(e, r0) && lo == Lo(part, i) && hi == Hi(part, i)
    ensures Holds(r, part, i + 1) && FieldsSame(e, r)
  {
    hide Holds;
    IdxFields(i);
    HoldsMore(r0, part, i);
    r := r0[LFN_IDX[i] := lo][LFN_IDX[i] + 1 := hi];
  }

  lemma FragIs(e: Entry, part: Name)
    requires Holds(e, part, 13) && |part| <= 13 && forall k | 0 <= k < |part| :: part[k] != 0
    ensures Frag(e) == part
  {
    FragHeld(e, part, 0);
  }

  /** Changing a field outside the character slots does not change the characters. */
  lemma {:induction false} FieldApart(e: Entry, f: Entry, i: nat)
    requires i <= 13 && forall j :: 0 <= j < 32 && j !in {0, 11, 12, 13, 26, 27} ==> e[j] == f[j]
    ensures FragFrom(e, i) == FragFrom(f, i)
    decreases 13 - i
  {
    hide FragFrom;
    if i < 13 {
      IdxFields(i);
      FragStep(e, i);
      FragStep(f, i);
      FieldApart(e, f, i + 1);
    } else {
      FragEnd(e);
      FragEnd(f);
    }
  }

  /** One long-name entry as `dir_add` writes it over `e`. */
  method MakeLfn(e: Entry, name: Name, i: nat, crc: u8) returns (r: Entry)
    requires GoodName(name) && 1 <= i <= Lfns(|name|) && crc == Crc(SfnName(name))
    ensures LfnEntry(r, name, i)
  {
    hide Frag, Crc, SfnName, Part, FragFrom, Filled, FieldsSame;
    PartGood(name, i);
    var part := Part(name, i);
    var raw := PutFrag(e, part);
    var mask := if i == Lfns(|name|) then LFN_HEAD else 0;
    r := raw[11 := ATTR_LFN][0 := mask + i][13 := crc][12 := 0][26 := 0][27 := 0];
    SameFrag(raw, r, part);
  }

  lemma SameFrag(e: Entry, f: Entry, part: Name)
    requires (forall j :: 0 <= j < 32 && j !in {0, 11, 12, 13, 26, 27} ==> e[j] == f[j]) && Filled(e, part)
    ensures Frag(e) == Frag(f) && Filled(f, part)
  {
    hide SlotAt;
    FieldApart(e, f, 0);
    forall k | 0 <= k < |part| ensures SlotAt(f, k, part[k], 0) {
      SlotSame(e, f, k, part[k], 0);
    }
    if |part| < 13 {
      SlotSame(e, f, |part|, 0, 0);
    }
    forall k | |part| < k < 13 ensures SlotAt(f, k, 0xff, 0xff) {
      SlotSame(e, f, k, 0xff, 0xff);
    }
  }

  lemma SlotSame(e: Entry, f: Entry, k: nat, lo: u8, hi: u8)
    requires (forall j :: 0 <= j < 32 && j !in {0, 11, 12, 13, 26, 27} ==> e[j] == f[j]) && k < 13 && SlotAt(e, k, lo, hi)
    ensures SlotAt(f, k, lo, hi)
  {
  }

  lemma PartGood(name: Name, i: nat)
    requires GoodName(name) && 1 <= i <= Lfns(|name|)
    ensures i <= 20 && |Part(name, i)| <= 13 && forall k :: 0 <= k < |Part(name, i)| ==> Part(name, i)[k] != 0
  {
  }

  /** The fields of a short entry behind its name, little endian. */
  function SfnFields(attr: u8, clust: nat, date: nat, time: nat): (t: seq<u8>)
    requires clust < 0x1_0000_0000 && date < 0x1_0000 && time < 0x1_0000
    ensures |t| == 21
  {
    var hi, lo := clust / 0x1_0000, clust % 0x1_0000;
    [attr, 0, 0, time % 0x100, time / 0x100, date % 0x100, date / 0x100, date % 0x100, date / 0x100,
     hi % 0x100, hi / 0x100, time % 0x100, time / 0x100, date % 0x100, date / 0x100, lo % 0x100, lo / 0x100, 0, 0, 0, 0]
  }

  /** The short entry `dir_add` writes. */
  function MakeSfn(name: Name, attr: u8, clust: nat, date: nat, time: nat): (e: Entry)
    requires clust < 0x1_0000_0000 && date < 0x1_0000 && time < 0x1_0000
  {
    SfnName(name) + SfnFields(attr, clust, date, time)
  }

  /** The 16-bit field at byte `i`. */
  function Half(e: Entry, i: nat): nat
    requires i < 31
  {
    var lo: nat, hi: nat := e[i], e[i + 1];
    lo + 0x100 * hi
  }

  lemma FieldsAre(attr: u8, clust: nat, date: nat, time: nat)
    requires clust < 0x1_0000_0000 && date < 0x1_0000 && time < 0x1_0000
    ensures var t := SfnFields(attr, clust, date, time);
      && t[3] == t[11] == time % 0x100 && t[4] == t[12] == time / 0x100
      && t[5] == t[7] == t[13] == date % 0x100 && t[6] == t[8] == t[14] == date / 0x100
      && t[1] == t[2] == 0 && t[17] == t[18] == t[19] == t[20] == 0
  {
  }

  lemma SfnByte(name: Name, attr: u8, clust: nat, date: nat, time: nat, j: nat)
    requires clust < 0x1_0000_0000 && date < 0x1_0000 && time < 0x1_0000 && 11 <= j < 32
    ensures MakeSfn(name, attr, clust, date, time)[j] == SfnFields(attr, clust, date, time)[j - 11]
  {
    hide SfnName, SfnFields;
  }

  lemma SfnHalf(name: Name, attr: u8, clust: nat, date: nat, time: nat, j: nat, w: nat)
    requires clust < 0x1_0000_0000 && date < 0x1_0000 && time < 0x1_0000 && 11 <= j < 31 && w < 0x1_0000
    requires var t := SfnFields(attr, clust, date, time); t[j - 11] == w % 0x100 && t[j - 10] == w / 0x100
    ensures Half(MakeSfn(name, attr, clust, date, time), j) == w
  {
    hide SfnName, SfnFields, MakeSfn;
    SfnByte(name, attr, clust, date, time, j);
    SfnByte(name, attr, clust, date, time, j + 1);
  }

  /** The fields of the new short entry, as `fat_file_open` reads them back. */
  lemma SfnRoundTrip(name: Name, attr: u8, clust: nat, date: nat, time: nat)
    requires clust < 0x1_0000_0000 && date < 0x1_0000 && time < 0x1_0000
    ensures var e := MakeSfn(name, attr, clust, date, time);
            e[..11] == SfnName(name) && e[ATTR] == attr && SfnCluster(e) == clust && !IsFree(e)
    ensures var e := MakeSfn(name, attr, clust, date, time);
            && Half(e, 14) == Half(e, 22) == time && Half(e, 16) == Half(e, 18) == Half(e, 24) == date
            && Half(e, 28) == Half(e, 30) == Half(e, 12) == 0
  {
    hide MakeSfn, Half, SfnFields, SfnCluster, SfnName;
    SfnFront(name, attr, clust, date, time);
    FieldsAre(attr, clust, date, time);
    SfnHalf(name, attr, clust, date, time, 12, 0);
    SfnHalf(name, attr, clust, date, time, 14, time);
    SfnHalf(name, attr, clust, date, time, 22, time);
    SfnHalf(name, attr, clust, date, time, 16, date);
    SfnHalf(name, attr, clust, date, time, 18, date);
    SfnHalf(name, attr, clust, date, time, 24, date);
    SfnHalf(name, attr, clust, date, time, 28, 0);
    SfnHalf(name, attr, clust, date, time, 30, 0);
  }

  lemma SfnFront(name: Name, attr: u8, clust: nat, date: nat, time: nat)
    requires clust < 0x1_0000_0000 && date < 0x1_0000 && time < 0x1_0000
    ensures var e := MakeSfn(name, attr, clust, date, time);
            e[..11] == SfnName(name) && e[ATTR] == attr && SfnCluster(e) == clust && !IsFree(e)
  {
    hide SfnName;
    var e, t := MakeSfn(name, attr, clust, date, time), SfnFields(attr, clust, date, time);
    assert e[20] == t[9] && e[21] == t[10] && e[26] == t[15] && e[27] == t[16] && e[11] == t[0] && e[0] == SfnName(name)[0];
  }

  /** `sfn_cluster` */
  function SfnCluster(e: Entry): nat
  {
    var h0: nat, h1: nat, l0: nat, l1: nat := e[20], e[21], e[26], e[27];
    (h0 + 0x100 * h1) * 0x1_0000 + l0 + 0x100 * l1
  }
}
