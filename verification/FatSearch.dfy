/** `dir_search` on any directory, well formed or not, and that on a well-formed one it finds what is there. */
module FatSearch {
  import opened FatDisk
  import opened FatTable
  import opened FatNames

  /** The name buffer `g_buf`. */
  type NameBuf = b: seq<u8> | |b| == 512 witness seq(512, _ => 0)

  /** What `parse_lfn_name` leaves: the buffer, `g_len`, `g_crc` and the entry it has moved to. */
  datatype ParseResult = Collect(buf: NameBuf, len: nat, crc: u8, pos: nat) | Refuse(err: int)

  /** The characters of one entry put at position `base`; the rest of the buffer keeps what it held. */
  ghost function Put(buf: NameBuf, base: nat, e: Entry): NameBuf
    requires base + 13 <= 512
  {
    buf[..base] + Frag(e) + buf[base + |Frag(e)|..]
  }

  /** The loop of `parse_lfn_name` with `cnt` entries to come, at entry `p`. */
  ghost function ParseOn(es: seq<Entry>, p: nat, cnt: nat, crc: u8, buf: NameBuf, len: nat): (r: ParseResult)
    requires p < |es| && cnt <= 20
    ensures r.Collect? ==> r.pos == p + cnt < |es| && r.len <= 255 && r.crc == crc
    decreases cnt
  {
    if cnt == 0 then (if len <= 255 then Collect(buf, len, crc, p) else Refuse(FAT_ERR_BROKEN))
    else if !IsLfn(es[p]) || es[p][CRC] != crc then Refuse(FAT_ERR_BROKEN)
    else if p + 1 == |es| then Refuse(FAT_ERR_EOF)
    else ParseOn(es, p + 1, cnt - 1, crc, Put(buf, 13 * (cnt - 1), es[p]), len + |Frag(es[p])|)
  }

  ghost function Parse(es: seq<Entry>, e: nat, buf: NameBuf): (r: ParseResult)
    requires e < |es|
    ensures r.Collect? ==> e <= r.pos < |es| && r.len <= 255
  {
    if LfnCount(es[e]) > 20 then Refuse(FAT_ERR_BROKEN) else ParseOn(es, e, LfnCount(es[e]), es[e][CRC], buf, 0)
  }

  /** One turn of the parse. */
  lemma ParseTurn(es: seq<Entry>, p: nat, cnt: nat, crc: u8, buf: NameBuf, len: nat)
    requires p < |es| && cnt <= 20
    ensures cnt == 0 ==> ParseOn(es, p, cnt, crc, buf, len) == if len <= 255 then Collect(buf, len, crc, p) else Refuse(FAT_ERR_BROKEN)
    ensures cnt > 0 && (!IsLfn(es[p]) || es[p][CRC] != crc) ==> ParseOn(es, p, cnt, crc, buf, len) == Refuse(FAT_ERR_BROKEN)
    ensures cnt > 0 && IsLfn(es[p]) && es[p][CRC] == crc && p + 1 == |es| ==> ParseOn(es, p, cnt, crc, buf, len) == Refuse(FAT_ERR_EOF)
    ensures cnt > 0 && IsLfn(es[p]) && es[p][CRC] == crc && p + 1 < |es| ==>
      ParseOn(es, p, cnt, crc, buf, len) == ParseOn(es, p + 1, cnt - 1, crc, Put(buf, 13 * (cnt - 1), es[p]), len + |Frag(es[p])|)
  {
    hide Put;
  }

  lemma ParsePos(es: seq<Entry>, e: nat, buf: NameBuf)
    requires e < |es|
    ensures Parse(es, e, buf).Collect? ==> Parse(es, e, buf).pos == e + LfnCount(es[e])
  {
  }

  /** The short entry behind long-name entries is not one, or not theirs. */
  predicate Mismatch(e: Entry, crc: u8) { IsFree(e) || IsLfn(e) || crc != Crc(e[..11]) }

  /** `dir_search` from entry `i` on, with whatever the name buffer holds. */
  ghost function Walk(es: seq<Entry>, name: Name, buf: NameBuf, i: nat): SearchResult
    decreases |es| - i
  {
    if i >= |es| || IsLast(es[i]) then Failed(FAT_ERR_EOF)
    else if IsFree(es[i]) then Walk(es, name, buf, i + 1)
    else if IsLfn(es[i]) then
      match Parse(es, i, buf) {
        case Refuse(err) => Failed(err)
        case Collect(b, len, crc, p) =>
          if Mismatch(es[p], crc) then Failed(FAT_ERR_BROKEN)
          else if NameEq(b[..len], name) then Found(p)
          else Walk(es, name, b, p + 1)
      }
    else if es[i][..11] == SfnName(name) then Found(i)
    else Walk(es, name, buf, i + 1)
  }

  /** One turn of the walk, at an entry without long name. */
  lemma WalkPlain(es: seq<Entry>, name: Name, buf: NameBuf, i: nat)
    ensures i >= |es| || IsLast(es[i]) ==> Walk(es, name, buf, i) == Failed(FAT_ERR_EOF)
    ensures i < |es| && !IsLast(es[i]) && IsFree(es[i]) ==> Walk(es, name, buf, i) == Walk(es, name, buf, i + 1)
    ensures i < |es| && !IsFree(es[i]) && !IsLfn(es[i]) && es[i][..11] == SfnName(name) ==> Walk(es, name, buf, i) == Found(i)
    ensures i < |es| && !IsFree(es[i]) && !IsLfn(es[i]) && es[i][..11] != SfnName(name) ==>
              Walk(es, name, buf, i) == Walk(es, name, buf, i + 1)
  {
    hide SfnName, Parse;
  }

  /** One turn at a long-name entry. */
  lemma WalkLong(es: seq<Entry>, name: Name, buf: NameBuf, i: nat)
    requires i < |es| && !IsFree(es[i]) && IsLfn(es[i])
    ensures var r := Parse(es, i, buf);
      Walk(es, name, buf, i) ==
      if r.Refuse? then Failed(r.err)
      else if Mismatch(es[r.pos], r.crc) then Failed(FAT_ERR_BROKEN)
      else if r.len == |name| && NameEq(r.buf[..r.len], name) then Found(r.pos)
      else Walk(es, name, r.buf, r.pos + 1)
  {
    hide SfnName, Parse;
  }

  // ----- on a group -----

  /** The name buffer after a group has been read, with the cursor at its short entry `p`. */
  ghost predicate Parsed(es: seq<Entry>, e: nat, r: ParseResult)
  {
    && e < |es| && r.Collect? && r.pos == e + LfnCount(es[e]) < |es| && r.crc == es[e][CRC]
    && r.len <= 255 && r.buf[..r.len] == LongName(es, e, LfnCount(es[e]))
  }

  /** After `j` entries of the group at `e` the buffer holds the end of the name, in its final place. */
  ghost predicate Collected(es: seq<Entry>, e: nat, j: nat, name: NameBuf, len: nat)
  {
    && e < |es| && e + LfnCount(es[e]) < |es| && j <= LfnCount(es[e]) <= 20
    && var n := LfnCount(es[e]);
       var at := 13 * (n - j);
       && at + len <= |name| && len == |Spelled(es[e..e + j])| && name[at..at + len] == Spelled(es[e..e + j])
  }

  lemma GroupMember(es: seq<Entry>, e: nat, p: nat)
    requires Group(es, e) && e <= p < e + LfnCount(es[e])
    ensures IsLfn(es[p]) && es[p][CRC] == es[e][CRC]
    ensures e < p ==> |Frag(es[p])| == 13
  {
    hide Frag, Spelled, LfnCount, Crc;
    var g := es[e..e + LfnCount(es[e]) + 1];
    assert g[p - e] == es[p] && g[0] == es[e];
  }

  lemma GroupSfn(es: seq<Entry>, e: nat)
    requires Group(es, e)
    ensures !Mismatch(es[e + LfnCount(es[e])], es[e][CRC])
  {
    hide Spelled, Frag, Crc, LfnCount;
    var n := LfnCount(es[e]);
    assert es[e..e + n + 1][n] == es[e + n] && es[e..e + n + 1][0] == es[e];
  }

  lemma CollectStep(es: seq<Entry>, e: nat, j: nat, name: NameBuf, len: nat)
    requires Group(es, e) && Collected(es, e, j, name, len) && j < LfnCount(es[e])
    ensures Collected(es, e, j + 1, Put(name, 13 * (LfnCount(es[e]) - j - 1), es[e + j]), len + |Frag(es[e + j])|)
  {
    hide Frag, Spelled, LfnCount, GroupOf;
    var n, f := LfnCount(es[e]), Frag(es[e + j]);
    var base := 13 * (n - j - 1);
    var name' := Put(name, base, es[e + j]);
    SpelledFront(es[e..e + j + 1], j);
    assert es[e..e + j + 1][..j + 1] == es[e..e + j + 1] && es[e..e + j + 1][..j] == es[e..e + j];
    if j > 0 {
      GroupMember(es, e, e + j);
      JoinName(name, base, f, len, name');
    } else {
      SpelledNone(es[e..e]);
      assert name'[base..base + |f|] == f;
    }
  }

  lemma JoinName(name: seq<u8>, base: nat, f: seq<u8>, len: nat, name': seq<u8>)
    requires |f| == 13 && base + 13 + len <= |name| == |name'| && name' == name[..base] + f + name[base + 13..]
    ensures name'[base..base + (len + 13)] == f + name[base + 13..base + 13 + len]
  {
  }

  lemma SpelledNone(g: seq<Entry>)
    requires g == []
    ensures Spelled(g) == []
  {
  }

  lemma CollectDone(es: seq<Entry>, e: nat, name: NameBuf, len: nat)
    requires Group(es, e) && Collected(es, e, LfnCount(es[e]), name, len)
    ensures len <= 255 && name[..len] == LongName(es, e, LfnCount(es[e]))
  {
    hide Frag, Spelled, LfnCount, Crc;
    var n := LfnCount(es[e]);
    assert es[e..e + n + 1][..n] == es[e..e + n];
  }

  lemma {:induction false} GroupParseFrom(es: seq<Entry>, e: nat, j: nat, buf: NameBuf, len: nat)
    requires Group(es, e) && j <= LfnCount(es[e]) && Collected(es, e, j, buf, len)
    ensures Parsed(es, e, ParseOn(es, e + j, LfnCount(es[e]) - j, es[e][CRC], buf, len))
    decreases LfnCount(es[e]) - j
  {
    hide Frag, Spelled, LfnCount, GroupOf, Collected;
    var n := LfnCount(es[e]);
    if j < n {
      GroupMember(es, e, e + j);
      CollectStep(es, e, j, buf, len);
      GroupParseFrom(es, e, j + 1, Put(buf, 13 * (n - j - 1), es[e + j]), len + |Frag(es[e + j])|);
    } else {
      CollectDone(es, e, buf, len);
    }
  }

  /** Whatever the buffer held, reading a group leaves its name. */
  lemma GroupParse(es: seq<Entry>, e: nat, buf: NameBuf)
    requires Group(es, e)
    ensures Parsed(es, e, Parse(es, e, buf))
  {
    hide Frag, LfnCount, GroupOf;
    SpelledNone(es[e..e]);
    GroupParseFrom(es, e, 0, buf, 0);
  }

  /** On a well-formed directory the walk gives the result of the specification, whatever the buffer held before. */
  lemma {:induction false} WalkIsSearch(es: seq<Entry>, name: Name, buf: NameBuf, i: nat)
    requires Wf(es, i)
    ensures Walk(es, name, buf, i) == Search(es, name, i)
    decreases |es| - i
  {
    hide Frag, LfnCount, Group, NameEq, SfnName, Crc, LongName, Parse, Mismatch;
    if i < |es| && !IsLast(es[i]) {
      if IsFree(es[i]) {
        WalkIsSearch(es, name, buf, i + 1);
      } else if IsLfn(es[i]) {
        GroupParse(es, i, buf);
        GroupSfn(es, i);
        var r := Parse(es, i, buf);
        WalkIsSearch(es, name, r.buf, r.pos + 1);
      } else {
        WalkIsSearch(es, name, buf, i + 1);
      }
    }
  }

  // ----- on any entries -----

  /** Entry `p` is a short entry in use: neither an end mark nor deleted, and no long-name entry. */
  predicate ShortEntry(e: Entry) { e[0] != 0 && e[0] != 0xe5 && e[11] != 0x0f }

  /** Entries `p` up to `e` are long-name entries with checksum `crc`. */
  ghost predicate LongRun(es: seq<Entry>, p: nat, e: nat, crc: u8)
  {
    forall j: nat | p <= j < e && j < |es| :: es[j][11] == 0x0f && es[j][13] == crc
  }

  /** How many characters entries `p` up to `e` hold. */
  ghost function Total(es: seq<Entry>, p: nat, e: nat): nat
    requires p <= e <= |es|
    decreases e - p
  {
    if p == e then 0 else |Frag(es[p])| + Total(es, p + 1, e)
  }

  lemma LongRunStep(es: seq<Entry>, p: nat, e: nat, crc: u8)
    requires p < e && p < |es|
    ensures LongRun(es, p, e, crc) <==> es[p][11] == 0x0f && es[p][13] == crc && LongRun(es, p + 1, e, crc)
  {
  }

  lemma {:induction false} ParseOnIs(es: seq<Entry>, p: nat, cnt: nat, crc: u8, buf: NameBuf, len: nat)
    requires p < |es| && cnt <= 20
    ensures var r := ParseOn(es, p, cnt, crc, buf, len);
      && (r.Collect? <==> p + cnt < |es| && LongRun(es, p, p + cnt, crc) && len + Total(es, p, p + cnt) <= 255)
      && (r == Refuse(FAT_ERR_EOF) <==> p + cnt >= |es| && LongRun(es, p, |es|, crc))
      && (r.Collect? ==> r.len == len + Total(es, p, p + cnt))
      && (r.Refuse? ==> r.err == FAT_ERR_EOF || r.err == FAT_ERR_BROKEN)
    decreases cnt
  {
    hide Frag, Put, LongRun;
    ParseTurn(es, p, cnt, crc, buf, len);
    if cnt == 0 {
      NoRunYet(es, p, crc);
    } else {
      LongRunStep(es, p, p + cnt, crc);
      LongRunStep(es, p, |es|, crc);
      if IsLfn(es[p]) && es[p][CRC] == crc {
        if p + 1 < |es| {
          ParseOnIs(es, p + 1, cnt - 1, crc, Put(buf, 13 * (cnt - 1), es[p]), len + |Frag(es[p])|);
        } else {
          NoRunYet(es, |es|, crc);
        }
      }
    }
  }

  lemma NoRunYet(es: seq<Entry>, p: nat, crc: u8)
    ensures LongRun(es, p, p, crc)
  {
  }

  /** A long-name entry with as many followers as it announces, all with one checksum, at most 255 characters, and the
      short entry with that checksum. */
  ghost predicate InOrder(es: seq<Entry>, i: nat)
    requires i < |es|
  {
    var n := LfnCount(es[i]);
    && 1 <= n <= 20 && i + n < |es| && LongRun(es, i, i + n, es[i][13]) && Total(es, i, i + n) <= 255
    && ShortEntry(es[i + n]) && Crc(es[i + n][..11]) == es[i][13]
  }

  lemma SameLength(name: Name)
    ensures forall a :: NameEq(a, name) ==> |a| == |name|
  {
  }

  /** On any directory: at a long name that is not in order the search stops with an error; else it compares the name and
      goes on behind the short entry. */
  lemma WalkAtLong(es: seq<Entry>, name: Name, buf: NameBuf, i: nat)
    requires i < |es| && !IsFree(es[i]) && IsLfn(es[i])
    ensures !InOrder(es, i) ==> Walk(es, name, buf, i) == Failed(FAT_ERR_BROKEN) || Walk(es, name, buf, i) == Failed(FAT_ERR_EOF)
    ensures InOrder(es, i) ==> Parse(es, i, buf).Collect? && Parse(es, i, buf).len == Total(es, i, i + LfnCount(es[i]))
    ensures var r, n := Parse(es, i, buf), LfnCount(es[i]);
      InOrder(es, i) ==>
        Walk(es, name, buf, i) == if NameEq(r.buf[..r.len], name) then Found(i + n) else Walk(es, name, r.buf, i + n + 1)
  {
    hide Frag, LfnCount, LongRun, ParseOn, Crc, NameEq, Walk, SfnName;
    var n := LfnCount(es[i]);
    WalkLong(es, name, buf, i);
    SameLength(name);
    var r := Parse(es, i, buf);
    if n <= 20 {
      ParseOnIs(es, i, n, es[i][CRC], buf, 0);
      if r.Collect? {
        ParsePos(es, i, buf);
        assert InOrder(es, i) <==> !Mismatch(es[r.pos], r.crc);
      }
    }
  }

  // ----- what is found -----

  /** The same character, or the same letter once as a capital and once not. */
  predicate SameLetter(x: u8, y: u8) { x == y || (Letter(x) && Letter(y) && (x == y + 0x20 || y == x + 0x20)) }

  /** The file is the wanted one: by its long name, letter for letter, or, if it has none, by its short name. */
  ghost predicate Matches(it: Item, name: Name)
  {
    if it.start < it.pos then |it.long| == |name| && forall i | 0 <= i < |name| :: SameLetter(it.long[i], name[i])
    else it.sfn[..11] == SfnName(name)
  }

  lemma NameEqIs(a: Name, b: Name)
    ensures NameEq(a, b) <==> |a| == |b| && forall i | 0 <= i < |b| :: SameLetter(a[i], b[i])
  {
    if |a| == |b| {
      forall i | 0 <= i < |b| ensures ToUpper(a[i]) == ToUpper(b[i]) <==> SameLetter(a[i], b[i]) {
      }
    }
  }

  /** The outcome of a search from entry `i` on: the first file that matches, or none does. */
  ghost predicate Outcome(es: seq<Entry>, name: Name, i: nat, err: int, p: nat)
    requires Wf(es, i)
  {
    if err == FAT_ERR_NONE then
      && (exists it :: it in Items(es, i) && it.pos == p && Matches(it, name))
      && (forall it | it in Items(es, i) && it.pos < p :: !Matches(it, name))
    else
      err == FAT_ERR_EOF && forall it | it in Items(es, i) :: !Matches(it, name)
  }

  lemma {:induction false} ItemsBehind(es: seq<Entry>, i: nat)
    requires Wf(es, i)
    ensures forall it | it in Items(es, i) :: i <= it.start <= it.pos
    decreases |es| - i
  {
    hide LfnCount, LongName, Group;
    if i < |es| && !IsLast(es[i]) {
      if !IsFree(es[i]) && IsLfn(es[i]) {
        ItemsBehind(es, i + LfnCount(es[i]) + 1);
      } else {
        ItemsBehind(es, i + 1);
      }
    }
  }

  lemma GroupSize(es: seq<Entry>, i: nat)
    requires Group(es, i)
    ensures LfnCount(es[i]) >= 1 && i + LfnCount(es[i]) < |es|
  {
  }

  /** The first item decides, or the rest does. */
  lemma OutcomeStep(es: seq<Entry>, name: Name, i: nat, j: nat, it: Item, err: int, p: nat)
    requires Wf(es, i) && Wf(es, j) && i <= it.pos < j && Items(es, i) == {it} + Items(es, j)
    requires if Matches(it, name) then err == FAT_ERR_NONE && p == it.pos else Outcome(es, name, j, err, p)
    ensures Outcome(es, name, i, err, p)
  {
    hide Wf, Items, Matches;
    ItemsBehind(es, j);
    if Matches(it, name) {
      assert it in Items(es, i);
    } else if err == FAT_ERR_NONE {
      var x :| x in Items(es, j) && x.pos == p && Matches(x, name);
      assert x in Items(es, i);
    }
  }

  /** Whatever its spelling in the code, the search gives the first file that matches, or end of file if none does. */
  lemma {:induction false} SearchMeans(es: seq<Entry>, name: Name, i: nat)
    requires Wf(es, i)
    ensures var r := Search(es, name, i);
      Outcome(es, name, i, if r.Found? then FAT_ERR_NONE else r.err, if r.Found? then r.pos else 0)
    decreases |es| - i
  {
    hide LfnCount, LongName, Group, NameEq, SfnName, Outcome;
    if i >= |es| || IsLast(es[i]) {
      NothingLeft(es, name, i);
    } else if IsFree(es[i]) {
      SearchMeans(es, name, i + 1);
      SameItemsOut(es, name, i, i + 1);
    } else if IsLfn(es[i]) {
      var n := LfnCount(es[i]);
      GroupSize(es, i);
      var it := Item(i, i + n, LongName(es, i, n), es[i + n]);
      NameEqIs(LongName(es, i, n), name);
      SearchMeans(es, name, i + n + 1);
      var r := Search(es, name, i);
      OutcomeStep(es, name, i, i + n + 1, it, if r.Found? then FAT_ERR_NONE else r.err, if r.Found? then r.pos else 0);
    } else {
      SearchMeans(es, name, i + 1);
      var r := Search(es, name, i);
      OutcomeStep(es, name, i, i + 1, Item(i, i, [], es[i]), if r.Found? then FAT_ERR_NONE else r.err, if r.Found? then r.pos else 0);
    }
  }

  lemma NothingLeft(es: seq<Entry>, name: Name, i: nat)
    requires i >= |es| || IsLast(es[i])
    ensures Wf(es, i) && Outcome(es, name, i, FAT_ERR_EOF, 0)
  {
  }

  lemma SameItemsOut(es: seq<Entry>, name: Name, i: nat, j: nat)
    requires Wf(es, i) && Wf(es, j) && Items(es, i) == Items(es, j)
    ensures forall err, p :: Outcome(es, name, j, err, p) ==> Outcome(es, name, i, err, p)
  {
    hide Wf, Items, Matches;
  }

  /** The walk of the code on a well-formed directory. */
  lemma WalkMeans(es: seq<Entry>, name: Name, buf: NameBuf)
    requires Wf(es, 0)
    ensures forall err, p | Walk(es, name, buf, 0) == (if err == FAT_ERR_NONE then Found(p) else Failed(err))
      :: Outcome(es, name, 0, err, p)
  {
    hide Wf, Items, Matches, Walk, Search;
    WalkIsSearch(es, name, buf, 0);
    SearchMeans(es, name, 0);
  }

  // ----- which files a directory holds -----

  /** Every short entry in use in front of the end mark belongs to a file. */
  lemma {:induction false} ShortIsFile(es: seq<Entry>, i: nat, p: nat)
    requires Wf(es, i) && i <= p < |es| && ShortEntry(es[p]) && forall j | i <= j < p :: es[j][0] != 0
    ensures exists it :: it in Items(es, i) && it.pos == p
    decreases |es| - i
  {
    hide LfnCount, LongName, Group;
    if !IsFree(es[i]) && IsLfn(es[i]) {
      var n := LfnCount(es[i]);
      GroupSize(es, i);
      var it := Item(i, i + n, LongName(es, i, n), es[i + n]);
      assert it in Items(es, i);
      if p > i + n {
        ShortIsFile(es, i + n + 1, p);
      } else {
        OnlyLast(es, i, p);
      }
    } else if p == i {
      assert Item(i, i, [], es[i]) in Items(es, i);
    } else {
      ShortIsFile(es, i + 1, p);
    }
  }

  lemma OnlyLast(es: seq<Entry>, i: nat, p: nat)
    requires Group(es, i) && i <= p <= i + LfnCount(es[i]) && p < |es| && ShortEntry(es[p])
    ensures p == i + LfnCount(es[i])
  {
    hide LfnCount, GroupOf;
    if p < i + LfnCount(es[i]) {
      GroupMember(es, i, p);
    }
  }

  /** A file is a short entry in use, in front of the end mark, with the long-name entries right before it. */
  ghost predicate FileShape(es: seq<Entry>, i: nat, it: Item)
  {
    && i <= it.start <= it.pos < |es| && it.sfn == es[it.pos] && ShortEntry(es[it.pos])
    && (forall j | it.start <= j < it.pos :: es[j][11] == 0x0f) && (forall j | i <= j <= it.pos :: es[j][0] != 0)
  }

  lemma {:induction false} FileIsShort(es: seq<Entry>, i: nat, it: Item)
    requires Wf(es, i) && it in Items(es, i)
    ensures FileShape(es, i, it)
    decreases |es| - i
  {
    hide LfnCount, LongName, Group, FileShape;
    if !IsFree(es[i]) && IsLfn(es[i]) {
      var n := LfnCount(es[i]);
      GroupShape(es, i);
      if it in Items(es, i + n + 1) {
        FileIsShort(es, i + n + 1, it);
        ShapeBack(es, i, i + n + 1, it);
      }
    } else if it in Items(es, i + 1) {
      FileIsShort(es, i + 1, it);
      ShapeBack(es, i, i + 1, it);
    } else {
      assert FileShape(es, i, Item(i, i, [], es[i])) by { ShortShape(es, i); }
    }
  }

  lemma ShortShape(es: seq<Entry>, i: nat)
    requires i < |es| && !IsFree(es[i]) && !IsLfn(es[i])
    ensures FileShape(es, i, Item(i, i, [], es[i]))
  {
  }

  lemma ShapeBack(es: seq<Entry>, i: nat, j: nat, it: Item)
    requires i < j <= |es| && FileShape(es, j, it) && forall k | i <= k < j :: es[k][0] != 0
    ensures FileShape(es, i, it)
  {
  }

  lemma GroupShape(es: seq<Entry>, i: nat)
    requires Group(es, i)
    ensures var n := LfnCount(es[i]);
      i + n < |es| && FileShape(es, i, Item(i, i + n, LongName(es, i, n), es[i + n])) && forall k | i <= k <= i + n :: es[k][0] != 0
  {
    hide LfnCount, Spelled, Frag, Crc;
    var n := LfnCount(es[i]);
    var g := es[i..i + n + 1];
    assert forall k | i <= k <= i + n :: es[k] == g[k - i];
  }
}
