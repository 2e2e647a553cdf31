/** Directory entries and long file names (section "FAT Long Directory Entries" of the Microsoft FAT32
    File System Specification v1.03), as the driver reads and writes them. */
module FatNames {
  import opened FatDisk
  import opened FatTable

  type Entry = e: seq<u8> | |e| == 32 witness seq(32, _ => 0)

  type Name = seq<u8>

  const SFN_FREE: u8 := 0xe5
  const SFN_PAD: u8 := 0x20
  const ATTR: nat := 11
  const CRC: nat := 13
  const ATTR_LFN: u8 := 0x0f
  const LFN_HEAD: nat := 0x40
  const DOT: u8 := 0x2e

  /** `g_lfn_indices`: where the thirteen characters of a long-name entry lie. */
  const LFN_IDX: seq<nat> := [1, 3, 5, 7, 9, 14, 16, 18, 20, 22, 24, 28, 30]

  predicate IsLast(e: Entry) { e[0] == 0 }

  predicate IsFree(e: Entry) { e[0] == 0 || e[0] == SFN_FREE }

  predicate IsLfn(e: Entry) { e[ATTR] == ATTR_LFN }

  /** The sequence number, `seq & 0x1f`: how many long-name entries follow, this one included. */
  function LfnCount(e: Entry): nat { e[0] % 32 }

  // ----- characters -----

  function ToUpper(c: u8): u8 { if 0x61 <= c <= 0x7a then c - 0x20 else c }

  predicate NameEq(a: Name, b: Name)
  {
    |a| == |b| && forall i :: 0 <= i < |a| ==> ToUpper(a[i]) == ToUpper(b[i])
  }

  const ALLOWED: seq<u8> := [0x21, 0x23, 0x24, 0x25, 0x26, 0x27, 0x28, 0x29, 0x2d, 0x40, 0x5e, 0x5f, 0x60, 0x7b, 0x7d, 0x7e, 0x20]

  /** `sfn_char` */
  function SfnChar(c: u8): (r: u8)
    ensures 0 < r < 0x80
  {
    var u := ToUpper(c);
    if 0x41 <= u <= 0x5a || 0x30 <= u <= 0x39 || u in ALLOWED then u else 0x5f
  }

  /** The characters of `name` from `i` on, up to a dot or `n` of them, made fit for a short name. */
  function Stem(name: Name, i: nat, n: nat): (r: Name)
    ensures |r| <= n && forall k :: 0 <= k < |r| ==> 0 < r[k] < 0x80
    decreases n
  {
    if n == 0 || i >= |name| || name[i] == DOT then [] else [SfnChar(name[i])] + Stem(name, i + 1, n - 1)
  }

  /** The position behind the first dot at or after `i`, or the end of the name. */
  function AfterDot(name: Name, i: nat): nat
    decreases |name| - i
  {
    if i >= |name| then i else if name[i] == DOT then i + 1 else AfterDot(name, i + 1)
  }

  function Extension(name: Name, i: nat, n: nat): (r: Name)
    ensures |r| <= n
    decreases n
  {
    if n == 0 || i >= |name| then [] else [SfnChar(name[i])] + Extension(name, i + 1, n - 1)
  }

  function Pad(n: nat): (r: Name)
    ensures |r| == n
  {
    seq(n, _ => SFN_PAD)
  }

  /** `put_sfn_name` */
  function SfnName(name: Name): (r: Name)
    ensures |r| == 11 && r[0] != 0 && r[0] != SFN_FREE
  {
    var stem := Stem(name, 0, 8);
    var ext := Extension(name, AfterDot(name, |stem|), 3);
    stem + Pad(8 - |stem|) + ext + Pad(3 - |ext|)
  }

  predicate Letter(c: u8) { 0x41 <= c <= 0x5a || 0x61 <= c <= 0x7a }

  /** The signs that may stand in a short name, and the blank. */
  predicate Sign(c: u8)
  {
    || c == 0x20 || c == 0x21 || 0x23 <= c <= 0x29 || c == 0x2d || c == 0x40
    || 0x5e <= c <= 0x60 || c == 0x7b || c == 0x7d || c == 0x7e
  }

  /** `sfn_char` by kinds of characters: letters become capitals, digits and some signs stay, all else is an underscore. */
  lemma SfnCharIs(c: u8)
    ensures Letter(c) ==> SfnChar(c) == if c >= 0x61 then c - 0x20 else c
    ensures !Letter(c) ==> SfnChar(c) == if 0x30 <= c <= 0x39 || Sign(c) then c else 0x5f
  {
    Signs(ToUpper(c));
  }

  lemma Signs(c: u8)
    ensures c in ALLOWED <==> Sign(c)
  {
  }

  lemma {:induction false} StemIs(name: Name, i: nat, k: nat, n: nat)
    requires i <= k <= |name| && k - i <= n && (forall j | i <= j < k :: name[j] != DOT)
    requires k - i == n || k == |name| || name[k] == DOT
    ensures |Stem(name, i, n)| == k - i && forall j | i <= j < k :: Stem(name, i, n)[j - i] == SfnChar(name[j])
    decreases n
  {
    hide SfnChar;
    if i < k {
      StemIs(name, i + 1, k, n - 1);
      assert Stem(name, i, n) == [SfnChar(name[i])] + Stem(name, i + 1, n - 1);
    }
  }

  lemma {:induction false} ExtensionIs(name: Name, i: nat, n: nat)
    requires i <= |name|
    ensures |Extension(name, i, n)| == if |name| - i < n then |name| - i else n
    ensures forall j | 0 <= j < |Extension(name, i, n)| :: Extension(name, i, n)[j] == SfnChar(name[i + j])
    decreases n
  {
    hide SfnChar;
    if i < |name| && n > 0 {
      ExtensionIs(name, i + 1, n - 1);
      assert Extension(name, i, n) == [SfnChar(name[i])] + Extension(name, i + 1, n - 1);
    }
  }

  lemma {:induction false} AfterDotIs(name: Name, i: nat, e: nat)
    requires DotEnds(name, i, e)
    ensures AfterDot(name, i) == e
    decreases e - i
  {
    if i < |name| && name[i] != DOT {
      AfterDotIs(name, i + 1, e);
    }
  }

  /** From `i` on, `e` is the position behind the first dot, or the end of the name if there is none. */
  predicate DotEnds(name: Name, i: nat, e: nat)
  {
    && i <= e <= |name|
    && if e > i && name[e - 1] == 0x2e then forall j | i <= j < e - 1 :: name[j] != 0x2e
       else e == |name| && forall j | i <= j < e :: name[j] != 0x2e
  }

  /** The short name of any name, byte by byte. The stem are the first `k` characters, up to a dot or eight; the extension
      starts at `e`, behind the next dot. */
  lemma SfnBytes(name: Name, k: nat, e: nat)
    requires k <= |name| && k <= 8 && (forall j | 0 <= j < k :: name[j] != 0x2e)
    requires k == 8 || k == |name| || name[k] == 0x2e
    requires DotEnds(name, k, e)
    ensures forall i | 0 <= i < 8 :: SfnName(name)[i] == if i < k then SfnChar(name[i]) else 0x20
    ensures forall i | 8 <= i < 11 :: SfnName(name)[i] == if e + i - 8 < |name| then SfnChar(name[e + i - 8]) else 0x20
  {
    hide SfnChar, Stem, Extension;
    StemIs(name, 0, k, 8);
    AfterDotIs(name, k, e);
    ExtensionIs(name, e, 3);
    var stem, ext := Stem(name, 0, 8), Extension(name, e, 3);
    SfnJoin(stem, ext, SfnName(name));
  }

  lemma SfnJoin(stem: Name, ext: Name, r: Name)
    requires |stem| <= 8 && |ext| <= 3 && r == stem + Pad(8 - |stem|) + ext + Pad(3 - |ext|)
    ensures forall i | 0 <= i < 8 :: r[i] == if i < |stem| then stem[i] else 0x20
    ensures forall i | 8 <= i < 11 :: r[i] == if i - 8 < |ext| then ext[i - 8] else 0x20
  {
  }

  lemma StemStep(name: Name, i: nat, n: nat)
    ensures i < |name| && n > 0 && name[i] != DOT ==> Stem(name, i, n) == [SfnChar(name[i])] + Stem(name, i + 1, n - 1)
    ensures !(i < |name| && n > 0 && name[i] != DOT) ==> Stem(name, i, n) == []
  {
    hide SfnChar;
  }

  /** The first loop of `put_sfn_name`. */
  method PutStem(name: Name) returns (r: Name)
    ensures r == Stem(name, 0, 8)
  {
    hide SfnChar, Stem;
    var i: nat := 0;
    r := [];
    while i < |name| && i < 8 && name[i] != DOT
      invariant i <= 8 && i <= |name| && |r| == i && Stem(name, 0, 8) == r + Stem(name, i, 8 - i)
    {
      var c := SfnChar(name[i]);
      StemStep(name, i, 8 - i);
      assert r + ([c] + Stem(name, i + 1, 7 - i)) == (r + [c]) + Stem(name, i + 1, 7 - i);
      r := r + [c];
      i := i + 1;
    }
    StemStep(name, i, 8 - i);
  }

  lemma ExtensionStep(name: Name, i: nat, n: nat)
    ensures i < |name| && n > 0 ==> Extension(name, i, n) == [SfnChar(name[i])] + Extension(name, i + 1, n - 1)
    ensures !(i < |name| && n > 0) ==> Extension(name, i, n) == []
  {
    hide SfnChar;
  }

  /** The loop of `put_sfn_name` that fills the extension. */
  method PutExtension(name: Name, start: nat) returns (r: Name)
    ensures r == Extension(name, start, 3)
  {
    hide SfnChar, Extension;
    var i: nat, j: nat := start, 0;
    r := [];
    while j < 3 && i < |name|
      invariant j <= 3 && |r| == j && Extension(name, start, 3) == r + Extension(name, i, 3 - j)
    {
      var c := SfnChar(name[i]);
      ExtensionStep(name, i, 3 - j);
      assert r + ([c] + Extension(name, i + 1, 2 - j)) == (r + [c]) + Extension(name, i + 1, 2 - j);
      r := r + [c];
      j, i := j + 1, i + 1;
    }
    ExtensionStep(name, i, 3 - j);
  }

  /** The padding loops. */
  method PadTo(q: Name, n: nat) returns (r: Name)
    requires |q| <= n
    ensures r == q + Pad(n - |q|)
  {
    r := q;
    while |r| < n
      invariant |q| <= |r| <= n && r == q + Pad(|r| - |q|)
    {
      r := r + [SFN_PAD];
    }
  }

  /** `put_sfn_name`. */
  method PutSfnName(name: Name) returns (r: Name)
    ensures r == SfnName(name)
  {
    hide SfnChar, Stem, Extension, Pad;
    var stem := PutStem(name);
    var i := |stem|;
    while i < |name| && name[i] != DOT
      invariant AfterDot(name, i) == AfterDot(name, |stem|)
    {
      i := i + 1;
    }
    if i < |name| {
      i := i + 1;
    }
    var ext := PutExtension(name, i);
    var front := PadTo(stem, 8);
    var back := PadTo(ext, 3);
    r := front + back;
    assert r == stem + Pad(8 - |stem|) + ext + Pad(3 - |ext|);
  }

  /** `get_crc`: rotate right and add, on a byte. */
  function Crc(name: Name): u8
  {
    if name == [] then 0
    else
      var sum: nat := Crc(name[..|name| - 1]);
      var c: nat := name[|name| - 1];
      ((sum % 2) * 128 + sum / 2 + c) % 256
  }

  /** One byte more: the sum is rotated right by one bit, so that doubling it gives the old sum up to a carry of 255, and
      the byte is added modulo 256. */
  lemma CrcStep(name: Name, c: u8, r: nat)
    requires r < 256 && (2 * r == Crc(name) || 2 * r == Crc(name) + 255)
    ensures Crc(name + [c]) == (r + c) % 256
  {
    assert (name + [c])[..|name|] == name;
    var s: nat, d: nat := Crc(name), c;
    assert r == s % 2 * 128 + s / 2;
  }

  lemma CrcNext(name: Name, c: u8, r: nat, next: Name)
    requires r < 256 && (2 * r == Crc(name) || 2 * r == Crc(name) + 255) && next == name + [c]
    ensures Crc(next) == (r + c) % 256
  {
    hide Crc;
    CrcStep(name, c, r);
  }

  /** The checksum of the short name README.TXT. */
  lemma CrcKnown()
    ensures Crc([0x52, 0x45, 0x41, 0x44, 0x4d, 0x45, 0x20, 0x20, 0x54, 0x58, 0x54]) == 0x73
  {
    hide Crc;
    CrcNone();
    CrcNext([], 0x52, 0, [0x52]);
    CrcNext([0x52], 0x45, 41, [0x52, 0x45]);
    CrcNext([0x52, 0x45], 0x41, 55, [0x52, 0x45, 0x41]);
    CrcNext([0x52, 0x45, 0x41], 0x44, 60, [0x52, 0x45, 0x41, 0x44]);
    CrcNext([0x52, 0x45, 0x41, 0x44], 0x4d, 64, [0x52, 0x45, 0x41, 0x44, 0x4d]);
    CrcNext([0x52, 0x45, 0x41, 0x44, 0x4d], 0x45, 198, [0x52, 0x45, 0x41, 0x44, 0x4d, 0x45]);
    CrcNext([0x52, 0x45, 0x41, 0x44, 0x4d, 0x45], 0x20, 133, [0x52, 0x45, 0x41, 0x44, 0x4d, 0x45, 0x20]);
    CrcNext([0x52, 0x45, 0x41, 0x44, 0x4d, 0x45, 0x20], 0x20, 210, [0x52, 0x45, 0x41, 0x44, 0x4d, 0x45, 0x20, 0x20]);
    CrcNext([0x52, 0x45, 0x41, 0x44, 0x4d, 0x45, 0x20, 0x20], 0x54, 121, [0x52, 0x45, 0x41, 0x44, 0x4d, 0x45, 0x20, 0x20, 0x54]);
    CrcNext([0x52, 0x45, 0x41, 0x44, 0x4d, 0x45, 0x20, 0x20, 0x54], 0x58, 230, [0x52, 0x45, 0x41, 0x44, 0x4d, 0x45, 0x20, 0x20, 0x54, 0x58]);
    CrcNext([0x52, 0x45, 0x41, 0x44, 0x4d, 0x45, 0x20, 0x20, 0x54, 0x58], 0x54, 31, [0x52, 0x45, 0x41, 0x44, 0x4d, 0x45, 0x20, 0x20, 0x54, 0x58, 0x54]);
  }

  lemma CrcNone()
    ensures Crc([]) == 0
  {
  }

  /** The loop of `get_crc`. */
  method GetCrc(name: Name) returns (sum: u8)
    ensures sum == Crc(name)
  {
    sum := 0;
    for i := 0 to |name|
      invariant sum == Crc(name[..i])
    {
      assert name[..i + 1][..i] == name[..i];
      var s: nat := sum;
      var c: nat := name[i];
      sum := ((s % 2) * 128 + s / 2 + c) % 256;
    }
    assert name[..|name|] == name;
  }

  // ----- long names -----

  /** The characters of one entry from position `i` on, up to the terminating zero. */
  function FragFrom(e: Entry, i: nat): (r: Name)
    requires i <= 13
    ensures |r| <= 13 - i
    decreases 13 - i
  {
    if i == 13 || e[LFN_IDX[i]] == 0 then [] else [e[LFN_IDX[i]]] + FragFrom(e, i + 1)
  }

  function Frag(e: Entry): (r: Name)
    ensures |r| <= 13
  {
    FragFrom(e, 0)
  }

  /** The name held by consecutive entries; the first of them holds its end. */
  ghost function Spelled(g: seq<Entry>): Name
  {
    if g == [] then [] else Spelled(g[1..]) + Frag(g[0])
  }

  ghost function LongName(es: seq<Entry>, i: nat, n: nat): Name
    requires i + n <= |es|
  {
    Spelled(es[i..i + n])
  }

  /** Long-name entries in front of the short entry they belong to. */
  ghost predicate GroupOf(g: seq<Entry>)
  {
    && |g| >= 2
    && var n := |g| - 1;
       && (forall j :: 0 <= j < n ==> IsLfn(g[j]) && !IsFree(g[j]) && g[j][CRC] == g[0][CRC])
       && (forall j :: 0 < j < n ==> |Frag(g[j])| == 13)
       && !IsFree(g[n]) && !IsLfn(g[n]) && Crc(g[n][..11]) == g[0][CRC]
       && |Spelled(g[..n])| <= 255
  }

  /** A long-name entry with as many followers as it announces, and the short entry. */
  ghost predicate Group(es: seq<Entry>, i: nat)
  {
    && i < |es|
    && var n := LfnCount(es[i]);
       1 <= n <= 20 && i + n < |es| && GroupOf(es[i..i + n + 1])
  }

  /** The entries from `i` on are free entries, short entries and groups, up to the end mark. */
  ghost predicate Wf(es: seq<Entry>, i: nat)
    decreases |es| - i
  {
    if i >= |es| || IsLast(es[i]) then true
    else if IsFree(es[i]) then Wf(es, i + 1)
    else if IsLfn(es[i]) then Group(es, i) && Wf(es, i + LfnCount(es[i]) + 1)
    else Wf(es, i + 1)
  }

  datatype SearchResult = Found(pos: nat) | Failed(err: int)

  /** What `dir_search` finds in a well-formed directory, from entry `i` on. */
  ghost function Search(es: seq<Entry>, name: Name, i: nat): SearchResult
    requires Wf(es, i)
    decreases |es| - i
  {
    if i >= |es| || IsLast(es[i]) then Failed(FAT_ERR_EOF)
    else if IsFree(es[i]) then Search(es, name, i + 1)
    else if IsLfn(es[i]) then
      var n := LfnCount(es[i]);
      if NameEq(LongName(es, i, n), name) then Found(i + n) else Search(es, name, i + n + 1)
    else if es[i][..11] == SfnName(name) then Found(i)
    else Search(es, name, i + 1)
  }

  /** A live file of the directory: its long name (empty if it has none) and its short entry. */
  datatype Item = Item(start: nat, pos: nat, long: Name, sfn: Entry)

  /** The directory as the set of its live files. */
  ghost function Items(es: seq<Entry>, i: nat): set<Item>
    requires Wf(es, i)
    decreases |es| - i
  {
    if i >= |es| || IsLast(es[i]) then {}
    else if IsFree(es[i]) then Items(es, i + 1)
    else if IsLfn(es[i]) then
      var n := LfnCount(es[i]);
      {Item(i, i + n, LongName(es, i, n), es[i + n])} + Items(es, i + n + 1)
    else {Item(i, i, [], es[i])} + Items(es, i + 1)
  }

  /** The name grows at its front, entry by entry. */
  lemma {:induction false} SpelledFront(g: seq<Entry>, j: nat)
    requires j < |g|
    ensures Spelled(g[..j + 1]) == Frag(g[j]) + Spelled(g[..j])
    decreases j
  {
    hide Frag;
    var a, b := g[..j + 1], g[..j];
    if j > 0 {
      SpelledFront(g[1..], j - 1);
      assert a[1..] == g[1..][..j] && b[1..] == g[1..][..j - 1] && g[1..][j - 1] == g[j];
    } else {
      assert a == [g[0]] && a[1..] == [];
    }
  }

  /** The inner loop of `parse_lfn_name`: the characters of one entry go to position `base` of the name buffer.
      The test for 0xff there compares a signed character with 255 and never succeeds. */
  method TakeChars(buf: seq<u8>, base: nat, e: Entry) returns (r: seq<u8>, n: nat)
    requires base + 13 <= |buf|
    ensures n == |Frag(e)| && |r| == |buf| && r == buf[..base] + Frag(e) + buf[base + n..]
  {
    hide FragFrom, Frag;
    r, n := buf, 0;
    FragAll(e);
    ghost var pre: Name := [];
    assert buf == buf[..base] + pre + buf[base + 0..];
    while n < 13
      invariant 0 <= n <= 13 && |pre| == n && Frag(e) == pre + FragFrom(e, n)
      invariant r == buf[..base] + pre + buf[base + n..]
      decreases 13 - n
    {
      FragStep(e, n);
      var c := e[LFN_IDX[n]];
      if c == 0 {
        assert pre + [] == pre;
        return;
      }
      PutChar(buf, base, pre, c);
      r := r[base + n := c];
      assert pre + ([c] + FragFrom(e, n + 1)) == (pre + [c]) + FragFrom(e, n + 1);
      pre := pre + [c];
      n := n + 1;
    }
    FragEnd(e);
    assert pre + [] == pre;
  }

  lemma FragAll(e: Entry)
    ensures Frag(e) == [] + FragFrom(e, 0)
  {
  }

  lemma FragStep(e: Entry, n: nat)
    requires n < 13
    ensures 0 <= LFN_IDX[n] < 32
    ensures FragFrom(e, n) == if e[LFN_IDX[n]] == 0 then [] else [e[LFN_IDX[n]]] + FragFrom(e, n + 1)
  {
  }

  lemma FragEnd(e: Entry)
    ensures FragFrom(e, 13) == []
  {
  }

  lemma PutChar(buf: seq<u8>, base: nat, pre: Name, c: u8)
    requires base + |pre| < |buf|
    ensures (buf[..base] + pre + buf[base + |pre|..])[base + |pre| := c] == buf[..base] + (pre + [c]) + buf[base + |pre| + 1..]
  {
  }
}
