/** What `remove_entries` leaves in a directory. */
module FatRemove {
  import opened FatDisk
  import opened FatTable
  import opened FatNames
  import opened FatAdd
  import opened FatSearch

  /** `x` is `es` with the first byte of entries `s` up to `e` set to the mark of a deleted entry, 0xe5. */
  ghost predicate Deleted(es: seq<Entry>, x: seq<Entry>, s: nat, e: nat)
  {
    |x| == |es| && forall j | 0 <= j < |es| :: x[j] == if s <= j < e then es[j][0 := 0xe5] else es[j]
  }

  lemma DeletedNone(es: seq<Entry>, s: nat)
    ensures Deleted(es, es, s, s)
  {
  }

  lemma DeletedMore(es: seq<Entry>, x: seq<Entry>, s: nat, e: nat)
    requires Deleted(es, x, s, e) && s <= e < |es|
    ensures Deleted(es, x[e := x[e][0 := 0xe5]], s, e + 1)
  {
  }

  lemma DeletedFree(es: seq<Entry>, x: seq<Entry>, s: nat, e: nat)
    requires Deleted(es, x, s, e)
    ensures forall j | s <= j < e && j < |x| :: IsFree(x[j]) && !IsLast(x[j])
  {
    forall j | s <= j < e && j < |x| ensures IsFree(x[j]) && !IsLast(x[j]) {
      assert x[j] == es[j][0 := 0xe5];
    }
  }

  /** The deleted file itself. */
  lemma AtDeleted(es: seq<Entry>, x: seq<Entry>, s: nat, e: nat)
    requires Deleted(es, x, s, e) && s <= e <= |es| && Wf(es, e)
    ensures Wf(x, s) && Items(x, s) == Items(es, e)
  {
    hide Wf, Items, Deleted, Search;
    SizeSame(es, x, s, e);
    SuffixSame(es, x, e, []);
    DeletedFree(es, x, s, e);
    FreeBack(x, s, e);
    SkipFree(x, s, e, []);
  }

  lemma SizeSame(es: seq<Entry>, x: seq<Entry>, s: nat, e: nat)
    requires Deleted(es, x, s, e)
    ensures |x| == |es| && (forall j | e <= j < |x| :: x[j] == es[j]) && (forall j | 0 <= j < s && j < |x| :: x[j] == es[j])
  {
  }

  lemma {:induction false} FreeBack(x: seq<Entry>, s: nat, e: nat)
    requires s <= e <= |x| && Wf(x, e) && forall j | s <= j < e :: IsFree(x[j]) && !IsLast(x[j])
    ensures Wf(x, s)
    decreases e - s
  {
    hide Group;
    if s < e {
      FreeBack(x, s + 1, e);
    }
  }

  /** Deleting the entries of a file takes that file out of a well-formed directory, which stays well formed, and leaves
      every other file as it is. */
  lemma {:induction false} DeleteItem(es: seq<Entry>, x: seq<Entry>, i: nat, it: Item)
    requires Wf(es, i) && it in Items(es, i) && Deleted(es, x, it.start, it.pos + 1)
    ensures Wf(x, i) && Items(x, i) == Items(es, i) - {it}
    decreases |es| - i
  {
    hide Frag, FragFrom, Crc, SfnName, Spelled, LfnCount, GroupOf, Deleted, Group, LongName;
    SizeSame(es, x, it.start, it.pos + 1);
    ItemsBehind(es, i);
    if !IsFree(es[i]) && IsLfn(es[i]) {
      var n := LfnCount(es[i]);
      GroupSize(es, i);
      ItemsBehind(es, i + n + 1);
      if it.start == i {
        AtDeleted(es, x, i, i + n + 1);
      } else {
        GroupSame(es, x, i);
        DeleteItem(es, x, i + n + 1, it);
      }
    } else {
      ItemsBehind(es, i + 1);
      if it.start == i {
        AtDeleted(es, x, i, i + 1);
      } else {
        DeleteItem(es, x, i + 1, it);
      }
    }
  }

  // ----- what a search has passed -----

  /** From entry `i` on there is a part of a well-formed directory. */
  ghost predicate PartFrom(es: seq<Entry>, i: nat)
  {
    Wf(es, 0) ==> Wf(es, i) && Items(es, i) <= Items(es, 0)
  }

  /** The file whose entries go from `s` to `p`. */
  ghost predicate FileAt(es: seq<Entry>, s: nat, p: nat)
  {
    Wf(es, 0) ==> exists it :: it in Items(es, 0) && it.start == s && it.pos == p
  }

  lemma PartPlain(es: seq<Entry>, i: nat)
    requires PartFrom(es, i) && i < |es| && !IsLast(es[i]) && (IsFree(es[i]) || !IsLfn(es[i]))
    ensures PartFrom(es, i + 1) && (!IsFree(es[i]) ==> FileAt(es, i, i))
  {
    hide Group;
    if Wf(es, 0) && !IsFree(es[i]) {
      assert Item(i, i, [], es[i]) in Items(es, i);
    }
  }

  lemma PartLong(es: seq<Entry>, i: nat)
    requires PartFrom(es, i) && i < |es| && !IsFree(es[i]) && IsLfn(es[i])
    ensures PartFrom(es, i + LfnCount(es[i]) + 1) && FileAt(es, i, i + LfnCount(es[i]))
  {
    hide Group, LfnCount, LongName;
    if Wf(es, 0) {
      var n := LfnCount(es[i]);
      GroupSize(es, i);
      assert Item(i, i + n, LongName(es, i, n), es[i + n]) in Items(es, i);
    }
  }

  lemma PartStart(es: seq<Entry>)
    ensures PartFrom(es, 0)
  {
  }

  /** After a search and the deletion of what it found: the first file that matched is gone, or there was none. */
  ghost predicate Unlinked(es: seq<Entry>, x: seq<Entry>, name: Name, err: int)
  {
    Wf(es, 0) ==>
      && Wf(x, 0)
      && if err == FAT_ERR_NONE then exists it :: it in Items(es, 0) && FirstMatch(es, name, it) && Items(x, 0) == Items(es, 0) - {it}
         else err == FAT_ERR_EOF && x == es && forall it | it in Items(es, 0) :: !Matches(it, name)
  }

  ghost predicate FirstMatch(es: seq<Entry>, name: Name, it: Item)
    requires Wf(es, 0)
  {
    Matches(it, name) && forall o | o in Items(es, 0) && o.pos < it.pos :: !Matches(o, name)
  }

  /** Two files of a directory do not end at the same entry. */
  lemma {:induction false} OneAt(es: seq<Entry>, i: nat, a: Item, b: Item)
    requires Wf(es, i) && a in Items(es, i) && b in Items(es, i) && a.pos == b.pos
    ensures a == b
    decreases |es| - i
  {
    hide LfnCount, LongName, Group;
    if i < |es| && !IsLast(es[i]) {
      if !IsFree(es[i]) && IsLfn(es[i]) {
        var j := i + LfnCount(es[i]) + 1;
        ItemsBehind(es, j);
        if a in Items(es, j) && b in Items(es, j) {
          OneAt(es, j, a, b);
        }
      } else {
        ItemsBehind(es, i + 1);
        if a in Items(es, i + 1) && b in Items(es, i + 1) {
          OneAt(es, i + 1, a, b);
        }
      }
    }
  }

  lemma UnlinkedIs(es: seq<Entry>, x: seq<Entry>, name: Name, s: nat, p: nat)
    requires FileAt(es, s, p) && Deleted(es, x, s, p + 1) && (Wf(es, 0) ==> Outcome(es, name, 0, FAT_ERR_NONE, p))
    ensures Unlinked(es, x, name, FAT_ERR_NONE)
  {
    hide Wf, Items, Matches, Deleted;
    if Wf(es, 0) {
      var it :| it in Items(es, 0) && it.start == s && it.pos == p;
      var m :| m in Items(es, 0) && m.pos == p && Matches(m, name);
      OneAt(es, 0, it, m);
      DeleteItem(es, x, 0, it);
      assert FirstMatch(es, name, it);
    }
  }
}
