/** The table as a set of disjoint chains, and what the single writes of the allocator do to it. */
module FatChains {
  import opened Base
  import opened FatTable

  type Chain = seq<nat>

  /** `ch` follows the links of `t` down to an end-of-chain mark. */
  ghost predicate IsChain(t: seq<nat>, ch: Chain)
  {
    && |ch| > 0
    && (forall i :: 0 <= i < |ch| ==> 2 <= ch[i] < |t|)
    && (forall i :: 0 <= i < |ch| - 1 ==> t[ch[i]] == ch[i + 1])
    && t[ch[|ch| - 1]] >= LAST_MIN
  }

  ghost predicate Apart(a: Chain, b: Chain)
  {
    forall c :: c in a ==> c !in b
  }

  ghost predicate Covered(cs: set<Chain>, c: nat)
  {
    exists ch :: ch in cs && c in ch
  }

  /** The used clusters of `t` are exactly the members of the disjoint chains `cs`; every link stays
      inside its chain, so none leads to a free cluster, to a bad one or into another chain. */
  ghost predicate Chains(t: seq<nat>, cs: set<Chain>)
  {
    && |t| <= BAD
    && (forall ch :: ch in cs ==> IsChain(t, ch))
    && (forall a, b :: a in cs && b in cs && a != b ==> Apart(a, b))
    && (forall c :: 2 <= c < |t| && t[c] != 0 && t[c] != BAD ==> Covered(cs, c))
  }

  /** A chain never meets a cluster twice: there are no cycles. */
  lemma {:induction false} ChainNoDup(t: seq<nat>, ch: Chain, i: nat, j: nat)
    requires |t| <= BAD && IsChain(t, ch) && i < j < |ch|
    ensures ch[i] != ch[j]
    decreases |ch| - j
  {
    if j + 1 < |ch| {
      ChainNoDup(t, ch, i + 1, j + 1);
    } else {
      assert t[ch[i]] == ch[i + 1];
    }
  }

  /** A member of a chain is a link inside the table or an end mark. */
  lemma MemberValue(t: seq<nat>, ch: Chain, c: nat)
    requires |t| <= BAD && IsChain(t, ch) && c in ch
    ensures 2 <= c < |t| && (2 <= t[c] < |t| || t[c] >= LAST_MIN) && t[c] != 0 && t[c] != BAD
  {
    var i :| 0 <= i < |ch| && ch[i] == c;
    if i < |ch| - 1 {
      assert t[ch[i]] == ch[i + 1];
    }
  }

  lemma ChainsClassified(t: seq<nat>, cs: set<Chain>)
    requires Chains(t, cs)
    ensures AllClassified(t)
  {
    hide IsChain;
    forall c | 2 <= c < |t| ensures Classify(|t|, t[c]).Some? {
      if t[c] != 0 && t[c] != BAD {
        assert Covered(cs, c);
        var ch :| ch in cs && c in ch;
        MemberValue(t, ch, c);
      }
    }
  }

  /** A chain is not disturbed by writes to clusters outside it. */
  lemma ChainFrame(t: seq<nat>, ch: Chain, c: nat, v: nat)
    requires IsChain(t, ch) && c < |t| && c !in ch
    ensures IsChain(t[c := v], ch)
  {
  }

  lemma FreeIsOutside(t: seq<nat>, cs: set<Chain>, c: nat, ch: Chain)
    requires Chains(t, cs) && ch in cs && 2 <= c < |t| && (t[c] == 0 || t[c] == BAD)
    ensures c !in ch
  {
    if c in ch {
      MemberValue(t, ch, c);
    }
  }

  /** The first write of `stretch_chain`: a free cluster becomes a chain of its own. */
  lemma StartChain(t: seq<nat>, cs: set<Chain>, c: nat)
    requires Chains(t, cs) && 2 <= c < |t| && t[c] == 0
    ensures Chains(t[c := EOC], cs + {[c]})
    ensures FreeCount(t[c := EOC]) == FreeCount(t) - 1
  {
    FreeBelowUpdate(t, |t|, c, EOC);
    var t', cs' := t[c := EOC], cs + {[c]};
    forall ch | ch in cs' ensures IsChain(t', ch) {
      if ch in cs {
        FreeIsOutside(t, cs, c, ch);
        ChainFrame(t, ch, c, EOC);
      }
    }
    forall a, b | a in cs' && b in cs' && a != b ensures Apart(a, b) {
      if a in cs { FreeIsOutside(t, cs, c, a); }
      if b in cs { FreeIsOutside(t, cs, c, b); }
    }
    forall d | 2 <= d < |t'| && t'[d] != 0 && t'[d] != BAD ensures Covered(cs', d) {
      if d == c {
        assert [c] in cs' && d in [c];
      } else {
        assert Covered(cs, d);
        var ch :| ch in cs && d in ch;
        assert ch in cs';
      }
    }
  }

  /** The second write: linking the last cluster of one chain to the head of another joins them. */
  lemma JoinChains(t: seq<nat>, cs: set<Chain>, a: Chain, b: Chain)
    requires Chains(t, cs) && a in cs && b in cs && a != b
    ensures var t' := t[a[|a| - 1] := b[0]];
            Chains(t', cs - {a, b} + {a + b}) && FreeCount(t') == FreeCount(t)
  {
    assert IsChain(t, a) && IsChain(t, b) && Apart(a, b);
    var p := a[|a| - 1];
    assert p in a;
    var t', cs' := t[p := b[0]], cs - {a, b} + {a + b};
    FreeBelowUpdate(t, |t|, p, b[0]);
    JoinedChain(t, a, b);
    forall ch | ch in cs' ensures IsChain(t', ch) {
      if ch != a + b {
        assert ch in cs && Apart(a, ch);
        ChainFrame(t, ch, p, b[0]);
      }
    }
    forall x, y | x in cs' && y in cs' && x != y ensures Apart(x, y) {
      JoinedApart(cs, a, b, x, y);
    }
    forall d | 2 <= d < |t'| && t'[d] != 0 && t'[d] != BAD ensures Covered(cs', d) {
      assert t[d] != 0 && t[d] != BAD;
      assert Covered(cs, d);
      var ch :| ch in cs && d in ch;
      assert a + b in cs';
      assert ch == a || ch == b || ch in cs';
    }
  }

  lemma JoinedChain(t: seq<nat>, a: Chain, b: Chain)
    requires |t| <= BAD && IsChain(t, a) && IsChain(t, b) && Apart(a, b)
    ensures IsChain(t[a[|a| - 1] := b[0]], a + b)
  {
    var p, ch := a[|a| - 1], a + b;
    var t' := t[p := b[0]];
    forall i | 0 <= i < |ch| - 1 ensures t'[ch[i]] == ch[i + 1] {
      if i < |a| - 1 {
        ChainNoDup(t, a, i, |a| - 1);
      } else if i >= |a| {
        assert ch[i] == b[i - |a|] && b[i - |a|] in b && p in a;
      }
    }
    assert b[|b| - 1] in b && p in a;
  }

  lemma JoinedApart(cs: set<Chain>, a: Chain, b: Chain, x: Chain, y: Chain)
    requires forall u, v :: u in cs && v in cs && u != v ==> Apart(u, v)
    requires a in cs && b in cs && x != y
    requires x in cs - {a, b} + {a + b} && y in cs - {a, b} + {a + b}
    ensures Apart(x, y)
  {
    if x == a + b {
      assert Apart(a, y) && Apart(b, y);
    } else if y == a + b {
      assert Apart(x, a) && Apart(x, b);
    }
  }

  ghost function Dropped(cs: set<Chain>, ch: Chain): set<Chain>
    requires |ch| > 0
  {
    if |ch| == 1 then cs - {ch} else cs - {ch} + {ch[1..]}
  }

  lemma DroppedChain(t: seq<nat>, cs: set<Chain>, ch: Chain, x: Chain)
    requires Chains(t, cs) && ch in cs && |ch| > 0 && x in Dropped(cs, ch)
    ensures IsChain(t, ch) && IsChain(t[ch[0] := 0], x)
  {
    assert IsChain(t, ch);
    if |ch| > 1 && x == ch[1..] {
      TailChain(t, ch);
    } else {
      assert Apart(ch, x) && ch[0] in ch;
      ChainFrame(t, x, ch[0], 0);
    }
  }

  lemma DroppedCovered(t: seq<nat>, cs: set<Chain>, ch: Chain, d: nat)
    requires Chains(t, cs) && ch in cs && |ch| > 0 && 2 <= d < |t| && d != ch[0] && t[d] != 0 && t[d] != BAD
    ensures Covered(Dropped(cs, ch), d)
  {
    hide IsChain;
    assert Covered(cs, d);
    var x :| x in cs && d in x;
    if x == ch {
      assert d in ch[1..] && ch[1..] in Dropped(cs, ch);
    } else {
      assert x in Dropped(cs, ch);
    }
  }

  /** Dropping the head of a chain, the single write of `remove_chain`. */
  lemma DropHead(t: seq<nat>, cs: set<Chain>, ch: Chain)
    requires Chains(t, cs) && ch in cs
    ensures |ch| > 0 && 2 <= ch[0] < |t|
    ensures Chains(t[ch[0] := 0], Dropped(cs, ch))
    ensures FreeCount(t[ch[0] := 0]) == FreeCount(t) + 1
  {
    assert IsChain(t, ch);
    var h := ch[0];
    assert h in ch;
    hide IsChain, FreeBelow, Apart;
    MemberValue(t, ch, h);
    var t', cs' := t[h := 0], Dropped(cs, ch);
    FreeBelowUpdate(t, |t|, h, 0);
    forall x | x in cs' ensures IsChain(t', x) {
      DroppedChain(t, cs, ch, x);
    }
    forall x, y | x in cs' && y in cs' && x != y ensures Apart(x, y) {
      DroppedApart(cs, ch, x, y);
    }
    forall d | 2 <= d < |t'| && t'[d] != 0 && t'[d] != BAD ensures Covered(cs', d) {
      DroppedCovered(t, cs, ch, d);
    }
  }

  lemma TailChain(t: seq<nat>, ch: Chain)
    requires |t| <= BAD && IsChain(t, ch) && |ch| > 1
    ensures IsChain(t[ch[0] := 0], ch[1..])
  {
    var rest := ch[1..];
    forall i | 0 <= i < |rest| ensures rest[i] != ch[0] {
      ChainNoDup(t, ch, 0, i + 1);
    }
    forall i | 0 <= i < |rest| - 1 ensures t[rest[i]] == rest[i + 1] {
      assert t[ch[i + 1]] == ch[i + 1 + 1];
    }
  }

  lemma DroppedApart(cs: set<Chain>, ch: Chain, x: Chain, y: Chain)
    requires forall u, v :: u in cs && v in cs && u != v ==> Apart(u, v)
    requires ch in cs && |ch| > 0 && x != y
    requires x in cs - {ch} + {ch[1..]} && y in cs - {ch} + {ch[1..]}
    ensures Apart(x, y)
  {
    if x == ch[1..] && x !in cs {
      assert Apart(ch, y);
    } else if y == ch[1..] && y !in cs {
      assert Apart(x, ch);
    }
  }

  // ----- the two allocator operations, write by write -----

  /** After each write of `stretch_chain` on the end of `ch`, and of `create_chain` (`prev == 0`), the table
      is a set of disjoint chains; in the end exactly the cluster `c` has joined exactly that chain. */
  lemma StretchSteps(t: seq<nat>, cs: set<Chain>, ch: Chain, c: nat)
    requires Chains(t, cs) && ch in cs && 2 <= c < |t| && t[c] == 0
    ensures |ch| > 0
    ensures var prev := ch[|ch| - 1];
            var steps := (assert IsChain(t, ch); Linked(t, prev, c));
            && |steps| == 2
            && Chains(steps[0], cs + {[c]})
            && Chains(steps[1], cs - {ch} + {ch + [c]})
            && FreeCount(steps[1]) == FreeCount(t) - 1
  {
    assert IsChain(t, ch);
    hide Chains, IsChain, FreeCount;
    FreeIsOutside(t, cs, c, ch);
    StartChain(t, cs, c);
    if [c] in cs {
      FreeIsOutside(t, cs, c, [c]);
    }
    JoinChains(t[c := EOC], cs + {[c]}, ch, [c]);
    assert (cs + {[c]}) - {ch, [c]} + {ch + [c]} == cs - {ch} + {ch + [c]};
  }

  ghost function Left(cs: set<Chain>, ch: Chain, k: nat): set<Chain>
    requires k <= |ch|
  {
    if k < |ch| then cs - {ch} + {ch[k..]} else cs - {ch}
  }

  /** `remove_chain` on the head of `ch` succeeds, and after its write number `k` exactly the clusters up to
      position `k` of that chain have become free, while every other chain is as before. */
  ghost predicate RemovedWell(t: seq<nat>, cs: set<Chain>, ch: Chain, k: nat)
  {
    && k < |ch| && ch[0] < |t|
    && var r := Remove(t, ch[0]);
       r.err == FAT_ERR_NONE && |r.tables| == |ch| && Chains(r.tables[k], Left(cs, ch, k + 1))
  }

  lemma {:induction false} RemoveSteps(t: seq<nat>, cs: set<Chain>, ch: Chain, k: nat)
    requires Chains(t, cs) && ch in cs && k < |ch|
    ensures RemovedWell(t, cs, ch, k)
    decreases |ch|
  {
    hide Chains, IsChain, FreeCount, RemovedWell;
    DropHead(t, cs, ch);
    if |ch| > 1 {
      RestNotListed(t, cs, ch);
      RemoveSteps(t[ch[0] := 0], Dropped(cs, ch), ch[1..], if k == 0 then 0 else k - 1);
      RemoveMore(t, cs, ch, k);
    } else {
      RemoveOnly(t, cs, ch);
    }
  }

  lemma RemoveOnly(t: seq<nat>, cs: set<Chain>, ch: Chain)
    requires Chains(t, cs) && ch in cs && |ch| == 1 && ch[0] < |t| && Chains(t[ch[0] := 0], Dropped(cs, ch))
    ensures RemovedWell(t, cs, ch, 0)
  {
    hide Chains, IsChain, Remove;
    IsListed(t, cs, ch);
    RemoveUnfold(t, ch);
  }

  lemma IsListed(t: seq<nat>, cs: set<Chain>, ch: Chain)
    requires Chains(t, cs) && ch in cs
    ensures IsChain(t, ch) && |t| <= BAD
  {
  }

  lemma RemoveMore(t: seq<nat>, cs: set<Chain>, ch: Chain, k: nat)
    requires Chains(t, cs) && ch in cs && 1 < |ch| && k < |ch| && ch[0] < |t| && ch[1..] !in cs
    requires Chains(t[ch[0] := 0], Dropped(cs, ch))
    requires RemovedWell(t[ch[0] := 0], Dropped(cs, ch), ch[1..], if k == 0 then 0 else k - 1)
    ensures RemovedWell(t, cs, ch, k)
  {
    hide Chains, IsChain, Remove;
    IsListed(t, cs, ch);
    RemoveUnfold(t, ch);
    if k > 0 {
      LeftShift(cs, ch, k);
    }
  }

  lemma LeftShift(cs: set<Chain>, ch: Chain, k: nat)
    requires 0 < k < |ch| && ch[1..] !in cs
    ensures Left(Dropped(cs, ch), ch[1..], k) == Left(cs, ch, k + 1)
  {
    var rest := ch[1..];
    assert rest[k..] == ch[k + 1..];
    assert cs - {ch} + {rest} - {rest} == cs - {ch};
  }

  lemma RemoveUnfold(t: seq<nat>, ch: Chain)
    requires |t| <= BAD && IsChain(t, ch)
    ensures |ch| == 1 ==> Remove(t, ch[0]) == RemoveResult(FAT_ERR_NONE, [t[ch[0] := 0]])
    ensures |ch| > 1 ==> Remove(t, ch[0]) == RemoveResult(Remove(t[ch[0] := 0], ch[1]).err, [t[ch[0] := 0]] + Remove(t[ch[0] := 0], ch[1]).tables)
  {
    hide Remove;
    if |ch| > 1 {
      assert t[ch[0]] == ch[1];
      RemoveLink(t, ch[0]);
    } else {
      RemoveLast(t, ch[0]);
    }
  }

  lemma RestNotListed(t: seq<nat>, cs: set<Chain>, ch: Chain)
    requires Chains(t, cs) && ch in cs && |ch| > 1
    ensures ch[1..] !in cs
  {
    var rest := ch[1..];
    assert rest != ch && rest[0] in rest && rest[0] in ch;
    assert rest in cs ==> Apart(ch, rest);
  }

  /** `free_cnt` after either operation. */
  lemma RemoveFrees(t: seq<nat>, cs: set<Chain>, ch: Chain)
    requires Chains(t, cs) && ch in cs
    ensures IsChain(t, ch)
    ensures var r := Remove(t, ch[0]);
            Chains(After(t, r.tables), cs - {ch}) && FreeCount(After(t, r.tables)) == FreeCount(t) + |ch|
  {
    assert IsChain(t, ch);
    hide Remove, FreeCount;
    RemoveSteps(t, cs, ch, |ch| - 1);
    RemoveCounts(t, ch[0]);
  }
}
