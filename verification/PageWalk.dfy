/** Four-level page tables in physical memory, the walk over them, and what a store to one entry does to it. */
module PageWalk {
  import opened Base
  import opened PagingAddr

  datatype Word = Word(present: bool, frame: nat, flags: nat)

  type Frame = f: seq<Word> | |f| == 512 witness seq(512, i => Word(false, 0, 0))

  const ZERO: Word := Word(false, 0, 0)

  function ZeroFrame(): Frame { seq(512, i => ZERO) }

  /** One level of the walk: entry `i` of the table in frame `t`. */
  function Step(mem: seq<Frame>, t: Option<nat>, i: nat): Option<nat>
    requires i < 512
  {
    if t.Some? && t.val < |mem| && mem[t.val][i].present then Some(mem[t.val][i].frame) else None
  }

  /** The processor's walk for virtual page `v`, from the root table down. */
  function Walk(mem: seq<Frame>, root: nat, v: nat): Option<nat>
  {
    Step(mem, Step(mem, Step(mem, Step(mem, Some(root), I4(v)), I3(v)), I2(v)), I1(v))
  }

  /** The frame of the table of level `k` for prefix `q`; level 0 is the mapped page itself. */
  function Table(mem: seq<Frame>, root: nat, k: nat, q: nat): Option<nat>
    requires k <= 4
    decreases 4 - k
  {
    if k == 4 then Some(root) else Step(mem, Table(mem, root, k + 1, q / 512), q % 512)
  }

  /** How many prefixes of level `k` lie under one root entry. */
  function Width(k: nat): (r: nat)
    requires k <= 3
    ensures r > 0
  {
    if k == 3 then 1 else if k == 2 then 512 else if k == 1 then 0x4_0000 else 0x800_0000
  }

  predicate Prefix(k: nat, q: nat)
    requires k <= 3
  {
    q < 512 * Width(k)
  }

  /** The prefix does not lie under the recursive root entry. */
  predicate Ordinary(k: nat, q: nat)
    requires k <= 4
  {
    if k == 4 then q == 0 else Prefix(k, q) && q / Width(k) != REC
  }

  lemma OrdinaryUp(k: nat, q: nat)
    requires k <= 3 && Ordinary(k, q)
    ensures Ordinary(k + 1, q / 512)
    ensures k == 3 ==> q < 512 && q % 512 == q && q != REC
  {
    if k < 3 {
      DivDiv(q, 512, Width(k + 1), Width(k));
    }
  }

  lemma WalkIsTable(mem: seq<Frame>, root: nat, v: nat)
    requires v < PAGES
    ensures Walk(mem, root, v) == Table(mem, root, 0, v)
  {
    hide Step;
    DivDiv(v, 512, 512, 0x4_0000);
    DivDiv(v, 0x4_0000, 512, 0x800_0000);
    var q1, q2, q3 := v / 512, v / 512 / 512, v / 512 / 512 / 512;
    assert Table(mem, root, 4, q3 / 512) == Some(root);
    assert Table(mem, root, 3, q3) == Step(mem, Some(root), I4(v));
    assert Table(mem, root, 2, q2) == Step(mem, Table(mem, root, 3, q3), I3(v));
    assert Table(mem, root, 1, q1) == Step(mem, Table(mem, root, 2, q2), I2(v));
  }

  // ----- the recursive entry -----

  predicate SelfMapped(mem: seq<Frame>, root: nat)
  {
    root < |mem| && mem[root][REC].present && mem[root][REC].frame == root
  }

  /** The page, in the recursive window, at which the tables of level `k` show up one after the other. */
  function Window(k: nat): nat
    requires k <= 3
  {
    if k == 0 then 0
    else if k == 1 then REC * 0x800_0000
    else if k == 2 then REC * 0x800_0000 + REC * 0x4_0000
    else REC * 0x800_0000 + REC * 0x4_0000 + REC * 512
  }

  /** Going through the recursive entry costs one level. */
  lemma {:induction false} OneTurn(mem: seq<Frame>, root: nat, k: nat, q: nat)
    requires SelfMapped(mem, root) && k <= 3 && q < Width(k)
    ensures Table(mem, root, k, REC * Width(k) + q) == Table(mem, root, k + 1, q)
    decreases 3 - k
  {
    if k < 3 {
      var m := REC * Width(k) + q;
      ModAdd(512, REC * Width(k + 1) + q / 512, q % 512);
      assert 512 * Width(k + 1) == Width(k);
      assert m == 512 * (REC * Width(k + 1) + q / 512) + q % 512;
      OneTurn(mem, root, k + 1, q / 512);
    }
  }

  /** The virtual page `Window(k) + q` is the level-`k` table of prefix `q`. */
  lemma WindowTable(mem: seq<Frame>, root: nat, k: nat, q: nat)
    requires SelfMapped(mem, root) && k <= 3 && Prefix(k, q)
    ensures Window(k) + q < PAGES
    ensures Table(mem, root, 0, Window(k) + q) == Table(mem, root, k, q)
  {
    if k >= 1 {
      OneTurn(mem, root, 0, Window(k) - REC * 0x800_0000 + q);
    }
    if k >= 2 {
      OneTurn(mem, root, 1, Window(k) - REC * 0x800_0000 - REC * 0x4_0000 + q);
    }
    if k == 3 {
      OneTurn(mem, root, 2, q);
    }
  }

  /** Every entry of every level is word `q % 512` of the page that holds the entry of page `Window(k) + q`. */
  lemma EntryPage(mem: seq<Frame>, root: nat, k: nat, q: nat)
    requires SelfMapped(mem, root) && k <= 3 && Prefix(k, q)
    ensures var x := Window(k) + q;
      x < PAGES && Up(x) < PAGES && I1(x) == q % 512 && Table(mem, root, 0, Up(x)) == Table(mem, root, k + 1, q / 512)
  {
    hide Table, Step, Up, I1, SelfMapped;
    var x := Window(k) + q;
    EntryPlace(k, q);
    assert Up(x) == REC * Width(0) + x / 512 by { UpForm(x); }
    OneTurn(mem, root, 0, x / 512);
    Deeper(mem, root, k, q / 512);
  }

  lemma UpForm(x: nat)
    ensures Up(x) == REC * 0x800_0000 + x / 512
  {
  }

  lemma EntryPlace(k: nat, q: nat)
    requires k <= 3 && Prefix(k, q)
    ensures var x := Window(k) + q;
      x < PAGES && Up(x) < PAGES && I1(x) == q % 512 && x / 512 == Window(k) / 512 + q / 512 && x / 512 < 0x800_0000
    ensures q / 512 < Width(k)
  {
    var x := Window(k) + q;
    assert Window(k) % 512 == 0;
    ModAdd(512, Window(k) / 512 + q / 512, q % 512);
    assert x == 512 * (Window(k) / 512 + q / 512) + q % 512;
    assert x < PAGES;
    UpIndices(x);
  }

  lemma Deeper(mem: seq<Frame>, root: nat, k: nat, c: nat)
    requires SelfMapped(mem, root) && k <= 3 && c < Width(k)
    ensures Table(mem, root, 1, Window(k) / 512 + c) == Table(mem, root, k + 1, c)
  {
    hide Table, Step, SelfMapped;
    if k == 1 {
      OneTurn(mem, root, 1, c);
    } else if k == 2 {
      OneTurn(mem, root, 1, REC * 512 + c);
      OneTurn(mem, root, 2, c);
    } else if k == 3 {
      OneTurn(mem, root, 1, REC * 512 + REC);
      OneTurn(mem, root, 2, REC);
      OneTurn(mem, root, 3, 0);
    }
  }

  // ----- the tables as a tree -----

  /** The place of a table: its level and the prefix it serves. */
  datatype Node = Node(level: nat, prefix: nat)

  /** A present entry of a table above level 1 leads to the table of the next level that serves its prefix. */
  predicate Child(mem: seq<Frame>, root: nat, own: map<nat, Node>, f: nat, i: nat)
    requires f < |mem| && i < 512 && f in own
  {
    mem[f][i].present && own[f].level > 1 && !(f == root && i == REC)
    ==> mem[f][i].frame in own && own[mem[f][i].frame] == Node(own[f].level - 1, own[f].prefix * 512 + i)
  }

  /** `own` are the table frames; each serves one prefix, and the root's recursive entry leads back to the root. */
  ghost predicate Tree(mem: seq<Frame>, root: nat, own: map<nat, Node>)
  {
    && SelfMapped(mem, root)
    && root in own && own[root] == Node(4, 0)
    && (forall f | f in own :: f < |mem| && 1 <= own[f].level <= 4 && (own[f].level == 4 ==> f == root))
    && (forall f, i | f in own && 0 <= i < 512 :: Child(mem, root, own, f, i))
  }

  lemma {:induction false} TableOwned(mem: seq<Frame>, root: nat, own: map<nat, Node>, k: nat, q: nat)
    requires Tree(mem, root, own) && 1 <= k <= 4 && Ordinary(k, q) && Table(mem, root, k, q).Some?
    ensures var f := Table(mem, root, k, q).val; f in own && own[f] == Node(k, q) && f < |mem|
    decreases 4 - k
  {
    if k < 4 {
      OrdinaryUp(k, q);
      TableOwned(mem, root, own, k + 1, q / 512);
      var t := Table(mem, root, k + 1, q / 512).val;
      assert Child(mem, root, own, t, q % 512);
    }
  }

  /** A table slot leads nowhere. */
  predicate Dead(mem: seq<Frame>, t: Option<nat>)
  {
    forall i | 0 <= i < 512 :: Step(mem, t, i) == None
  }

  /** Memory after a change of the entry of `(k, q)`, which is in table `t`; no other entry of a table differs. */
  ghost predicate OneEntry(mem: seq<Frame>, mem2: seq<Frame>, own: map<nat, Node>, t: nat, i: nat)
  {
    && |mem2| == |mem| && t < |mem|
    && (forall f | f in own && f < |mem| && f != t :: mem2[f] == mem[f])
    && (forall j | 0 <= j < 512 && j != i :: mem2[t][j] == mem[t][j])
  }

  /** Changing the entry of `(k, q)` leaves every other table and page where it was, if nothing hangs below it. */
  lemma {:induction false} SameTable(mem: seq<Frame>, mem2: seq<Frame>, root: nat, own: map<nat, Node>,
                                     k: nat, q: nat, j: nat, r: nat)
    requires Tree(mem, root, own) && k <= 3 && Ordinary(k, q) && Table(mem, root, k + 1, q / 512).Some?
    requires OneEntry(mem, mem2, own, Table(mem, root, k + 1, q / 512).val, q % 512)
    requires j < k ==> Table(mem, root, k, q) == None && Dead(mem2, Table(mem2, root, k, q))
    requires j <= 4 && Ordinary(j, r) && !(j == k && r == q)
    ensures Table(mem2, root, j, r) == Table(mem, root, j, r)
    decreases 4 - j
  {
    hide Tree, Ordinary, OneEntry, Step;
    if j < 4 {
      OrdinaryUp(j, r);
      if j + 1 == k && r / 512 == q {
        assert Step(mem2, Table(mem2, root, k, q), r % 512) == None;
        assert Step(mem, None, r % 512) == None by { NoneStep(mem, r % 512); }
      } else {
        SameTable(mem, mem2, root, own, k, q, j + 1, r / 512);
        SameStep(mem, mem2, root, own, k, q, j, r);
      }
    }
  }

  lemma NoneStep(mem: seq<Frame>, i: nat)
    requires i < 512
    ensures Step(mem, None, i) == None
  {
  }

  lemma SameStep(mem: seq<Frame>, mem2: seq<Frame>, root: nat, own: map<nat, Node>, k: nat, q: nat, j: nat, r: nat)
    requires Tree(mem, root, own) && k <= 3 && Ordinary(k, q) && Table(mem, root, k + 1, q / 512).Some?
    requires OneEntry(mem, mem2, own, Table(mem, root, k + 1, q / 512).val, q % 512)
    requires j <= 3 && Ordinary(j, r) && !(j == k && r == q)
    ensures var t := Table(mem, root, j + 1, r / 512); Step(mem2, t, r % 512) == Step(mem, t, r % 512)
  {
    hide Tree, Ordinary, Table;
    OrdinaryUp(j, r);
    OrdinaryUp(k, q);
    TableOwned(mem, root, own, k + 1, q / 512);
    if Table(mem, root, j + 1, r / 512).Some? {
      TableOwned(mem, root, own, j + 1, r / 512);
    }
  }

  /** Every table and page, of every level, other than those of level `k` with a prefix in `[lo, hi)`, is where it was. */
  ghost predicate SameOutside(mem: seq<Frame>, mem2: seq<Frame>, root: nat, k: nat, lo: nat, hi: nat)
  {
    forall j, r | 0 <= j <= 4 && 0 <= r && Ordinary(j, r) && !(j == k && lo <= r < hi)
      :: Table(mem2, root, j, r) == Table(mem, root, j, r)
  }

  lemma SameOutsideRefl(mem: seq<Frame>, root: nat, k: nat, lo: nat, hi: nat)
    ensures SameOutside(mem, mem, root, k, lo, hi)
  {
  }

  lemma SameOutsideStep(mem: seq<Frame>, mem1: seq<Frame>, mem2: seq<Frame>, root: nat, k: nat, lo: nat, q: nat)
    requires lo <= q && SameOutside(mem, mem1, root, k, lo, q) && SameOutside(mem1, mem2, root, k, q, q + 1)
    ensures SameOutside(mem, mem2, root, k, lo, q + 1)
  {
    hide Table, Ordinary;
  }

  function SetWord(mem: seq<Frame>, t: nat, i: nat, w: Word): seq<Frame>
    requires t < |mem| && i < 512
  {
    mem[t := mem[t][i := w]]
  }

  /** The entry of `(k, q)` may be written: its table exists. */
  predicate Reachable(mem: seq<Frame>, root: nat, k: nat, q: nat)
  {
    k <= 3 && Ordinary(k, q) && Table(mem, root, k + 1, q / 512).Some?
  }

  /** The word the walk consults for `(k, q)`. */
  ghost function Entry(mem: seq<Frame>, root: nat, own: map<nat, Node>, k: nat, q: nat): Word
    requires Tree(mem, root, own) && Reachable(mem, root, k, q)
  {
    OrdinaryUp(k, q);
    TableOwned(mem, root, own, k + 1, q / 512);
    mem[Table(mem, root, k + 1, q / 512).val][q % 512]
  }

  /** Memory after the entry of `(k, q)` is set to `w`. */
  ghost function Stored(mem: seq<Frame>, root: nat, own: map<nat, Node>, k: nat, q: nat, w: Word): (r: seq<Frame>)
    requires Tree(mem, root, own) && Reachable(mem, root, k, q)
    ensures |r| == |mem|
  {
    OrdinaryUp(k, q);
    TableOwned(mem, root, own, k + 1, q / 512);
    SetWord(mem, Table(mem, root, k + 1, q / 512).val, q % 512, w)
  }

  /** Storing the entry of a page: that page is translated by the new word, everything else as before. */
  lemma StoreLeaf(mem: seq<Frame>, root: nat, own: map<nat, Node>, v: nat, w: Word)
    requires Tree(mem, root, own) && Reachable(mem, root, 0, v)
    ensures var mem2 := Stored(mem, root, own, 0, v, w);
      && Tree(mem2, root, own) && SameOutside(mem, mem2, root, 0, v, v + 1)
      && Table(mem2, root, 0, v) == (if w.present then Some(w.frame) else None)
      && (forall f | 0 <= f < |mem| && f !in own :: mem2[f] == mem[f])
  {
    hide Ordinary, Tree;
    var mem2, t := Stored(mem, root, own, 0, v, w), Table(mem, root, 1, v / 512).val;
    OrdinaryUp(0, v);
    TableOwned(mem, root, own, 1, v / 512);
    LeafTree(mem, root, own, t, v % 512, w);
    SameAll(mem, mem2, root, own, 0, v);
    assert Table(mem2, root, 1, v / 512) == Some(t);
  }

  lemma LeafTree(mem: seq<Frame>, root: nat, own: map<nat, Node>, t: nat, i: nat, w: Word)
    requires Tree(mem, root, own) && t in own && t < |mem| && own[t].level == 1 && i < 512
    ensures Tree(SetWord(mem, t, i, w), root, own) && OneEntry(mem, SetWord(mem, t, i, w), own, t, i)
  {
    hide Child;
    var mem2 := SetWord(mem, t, i, w);
    forall f, j | f in own && 0 <= j < 512 ensures Child(mem2, root, own, f, j) {
      assert Child(mem, root, own, f, j);
      ChildSame(mem, mem2, root, own, f, j);
    }
  }

  lemma ChildSame(mem: seq<Frame>, mem2: seq<Frame>, root: nat, own: map<nat, Node>, f: nat, j: nat)
    requires f in own && f < |mem| == |mem2| && j < 512
    requires Child(mem, root, own, f, j) && (mem2[f][j] == mem[f][j] || own[f].level <= 1)
    ensures Child(mem2, root, own, f, j)
  {
  }

  lemma SameAll(mem: seq<Frame>, mem2: seq<Frame>, root: nat, own: map<nat, Node>, k: nat, q: nat)
    requires Tree(mem, root, own) && Reachable(mem, root, k, q)
    requires OneEntry(mem, mem2, own, Table(mem, root, k + 1, q / 512).val, q % 512)
    requires k > 0 ==> Table(mem, root, k, q) == None && Dead(mem2, Table(mem2, root, k, q))
    ensures SameOutside(mem, mem2, root, k, q, q + 1)
  {
    hide Tree, Ordinary, OneEntry, Table, Dead;
    forall j, r | 0 <= j <= 4 && 0 <= r && Ordinary(j, r) && !(j == k && q <= r < q + 1)
      ensures Table(mem2, root, j, r) == Table(mem, root, j, r)
    {
      SameTable(mem, mem2, root, own, k, q, j, r);
    }
  }

  /** Hanging a fresh frame into a free entry: the frame shows up at the window page of `(k, q)`. */
  lemma Linked(mem: seq<Frame>, root: nat, own: map<nat, Node>, k: nat, q: nat, w: Word)
    requires Tree(mem, root, own) && Reachable(mem, root, k, q) && k >= 1
    requires w.present && w.frame < |mem| && w.frame !in own
    ensures var mem1 := Stored(mem, root, own, k, q, w);
      SelfMapped(mem1, root) && Table(mem1, root, k, q) == Some(w.frame) && |mem1| == |mem|
  {
    hide Ordinary, Tree;
    var mem1, t := Stored(mem, root, own, k, q, w), Table(mem, root, k + 1, q / 512).val;
    OrdinaryUp(k, q);
    TableOwned(mem, root, own, k + 1, q / 512);
    SameTable(mem, mem1, root, own, k, q, k + 1, q / 512);
    RootKept(mem, root, own, k, q, w);
  }

  lemma RootKept(mem: seq<Frame>, root: nat, own: map<nat, Node>, k: nat, q: nat, w: Word)
    requires Tree(mem, root, own) && Reachable(mem, root, k, q)
    ensures SelfMapped(Stored(mem, root, own, k, q, w), root)
  {
    hide Ordinary, Table;
    OrdinaryUp(k, q);
    TableOwned(mem, root, own, k + 1, q / 512);
  }

  /** After the frame is zeroed it is the empty table of `(k, q)`, and nothing else moved. */
  lemma Attached(mem: seq<Frame>, root: nat, own: map<nat, Node>, k: nat, q: nat, w: Word)
    requires Tree(mem, root, own) && Reachable(mem, root, k, q) && k >= 1
    requires w.present && w.frame < |mem| && w.frame !in own && Table(mem, root, k, q) == None
    ensures var mem2 := Stored(mem, root, own, k, q, w)[w.frame := ZeroFrame()];
      && Tree(mem2, root, own[w.frame := Node(k, q)]) && SameOutside(mem, mem2, root, k, q, q + 1)
      && Table(mem2, root, k, q) == Some(w.frame)
      && (forall f | 0 <= f < |mem| && f !in own && f != w.frame :: mem2[f] == mem[f])
  {
    hide Ordinary, Tree;
    var mem1, t := Stored(mem, root, own, k, q, w), Table(mem, root, k + 1, q / 512).val;
    var mem2 := mem1[w.frame := ZeroFrame()];
    OrdinaryUp(k, q);
    TableOwned(mem, root, own, k + 1, q / 512);
    SameTable(mem, mem2, root, own, k, q, k + 1, q / 512);
    RootKept(mem, root, own, k, q, w);
    AttachTree(mem, root, own, k, q, w);
    SameAll(mem, mem2, root, own, k, q);
  }

  lemma AttachTree(mem: seq<Frame>, root: nat, own: map<nat, Node>, k: nat, q: nat, w: Word)
    requires Tree(mem, root, own) && Reachable(mem, root, k, q) && 1 <= k
    requires w.present && w.frame < |mem| && w.frame !in own
    ensures Tree(Stored(mem, root, own, k, q, w)[w.frame := ZeroFrame()], root, own[w.frame := Node(k, q)])
  {
    hide Child, Ordinary, Table;
    var mem2, own2 := Stored(mem, root, own, k, q, w)[w.frame := ZeroFrame()], own[w.frame := Node(k, q)];
    OrdinaryUp(k, q);
    TableOwned(mem, root, own, k + 1, q / 512);
    RootKept(mem, root, own, k, q, w);
    var t := Table(mem, root, k + 1, q / 512).val;
    forall f, j | f in own2 && 0 <= j < 512 ensures Child(mem2, root, own2, f, j) {
      if f == w.frame {
        ChildZero(mem2, root, own2, f, j);
      } else if f == t && j == q % 512 {
        ChildNew(mem2, root, own2, t, k, q);
      } else {
        assert Child(mem, root, own, f, j);
        ChildGrow(mem, mem2, root, own, w.frame, Node(k, q), f, j);
      }
    }
  }

  lemma ChildZero(mem: seq<Frame>, root: nat, own: map<nat, Node>, f: nat, j: nat)
    requires f in own && f < |mem| && j < 512 && !mem[f][j].present
    ensures Child(mem, root, own, f, j)
  {
  }

  lemma ChildNew(mem: seq<Frame>, root: nat, own: map<nat, Node>, t: nat, k: nat, q: nat)
    requires t in own && t < |mem| && own[t] == Node(k + 1, q / 512)
    requires mem[t][q % 512].frame in own && own[mem[t][q % 512].frame] == Node(k, q)
    ensures Child(mem, root, own, t, q % 512)
  {
  }

  lemma ChildGrow(mem: seq<Frame>, mem2: seq<Frame>, root: nat, own: map<nat, Node>, g: nat, n: Node, f: nat, j: nat)
    requires f in own && f < |mem| == |mem2| && j < 512 && g !in own
    requires Child(mem, root, own, f, j) && mem2[f][j] == mem[f][j]
    ensures Child(mem2, root, own[g := n], f, j)
  {
  }
}
