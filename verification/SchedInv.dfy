/** Every step of the scheduler keeps every task in exactly one place, and exit codes are handed out once. */
module SchedInv {
  import opened Base
  import opened SchedModel

  predicate On(s: State, c: nat, t: nat) { Cpu(s, c) && Runs(s.running[c], s.idle[c], t) }

  lemma {:induction false} OnCpuSome(running: seq<Option<nat>>, idle: seq<nat>, c: nat, t: nat)
    requires |running| == |idle| && c < |running| && Runs(running[c], idle[c], t)
    ensures OnCpu(running, idle, t) >= 1
  {
    if c > 0 {
      OnCpuSome(running[1..], idle[1..], c - 1, t);
    }
  }

  lemma {:induction false} OnCpuTwo(running: seq<Option<nat>>, idle: seq<nat>, c: nat, d: nat, t: nat)
    requires |running| == |idle| && c < d < |running|
    requires Runs(running[c], idle[c], t) && Runs(running[d], idle[d], t)
    ensures OnCpu(running, idle, t) >= 2
  {
    if c == 0 {
      OnCpuSome(running[1..], idle[1..], d - 1, t);
    } else {
      OnCpuTwo(running[1..], idle[1..], c - 1, d - 1, t);
    }
  }

  lemma {:induction false} OnCpuWhere(running: seq<Option<nat>>, idle: seq<nat>, t: nat) returns (c: nat)
    requires |running| == |idle| && OnCpu(running, idle, t) > 0
    ensures c < |running| && Runs(running[c], idle[c], t)
  {
    if Runs(running[0], idle[0], t) {
      c := 0;
    } else {
      c := OnCpuWhere(running[1..], idle[1..], t);
      c := c + 1;
    }
  }

  /** A task that is somewhere is nowhere else. */
  lemma Elsewhere(s: State, t: nat)
    requires Places(s)
    ensures t in s.active ==> Worker(s, t) && t !in s.cleanup && t !in s.made && forall c: nat :: !On(s, c, t)
    ensures t in s.cleanup ==> Worker(s, t) && t !in s.active && t !in s.made && forall c: nat :: !On(s, c, t)
    ensures t in s.made ==> Worker(s, t) && t !in s.active && t !in s.cleanup && forall c: nat :: !On(s, c, t)
    ensures forall c: nat | On(s, c, t) :: Worker(s, t) && t !in s.active && t !in s.cleanup && t !in s.made
  {
    forall c: nat | On(s, c, t) ensures OnCpu(s.running, s.idle, t) >= 1 {
      OnCpuSome(s.running, s.idle, c, t);
    }
    assert Count(s, t) <= 1;
  }

  lemma OneCpu(s: State, c: nat, d: nat, t: nat)
    requires Places(s) && On(s, c, t) && On(s, d, t)
    ensures c == d
  {
    if c < d {
      OnCpuTwo(s.running, s.idle, c, d, t);
    } else if d < c {
      OnCpuTwo(s.running, s.idle, d, c, t);
    }
    assert Count(s, t) <= 1;
  }

  /** The invariant in plain words: every task but the idle ones is current on one processor, or stands once in one of
      the lists. */
  lemma ExactlyOnePlace(s: State, t: nat)
    requires Inv(s) && Worker(s, t)
    ensures t in s.active || t in s.cleanup || t in s.made || exists c: nat :: On(s, c, t)
    ensures forall c: nat, d: nat | On(s, c, t) && On(s, d, t) :: c == d
    ensures (t in s.active ==> t !in s.cleanup && t !in s.made && forall c: nat :: !On(s, c, t))
      && (t in s.cleanup ==> t !in s.made && forall c: nat :: !On(s, c, t))
      && (t in s.made ==> forall c: nat :: !On(s, c, t))
    ensures Occ(s.active, t) <= 1 && Occ(s.cleanup, t) <= 1 && Occ(s.made, t) <= 1
  {
    Elsewhere(s, t);
    forall c: nat, d: nat | On(s, c, t) && On(s, d, t) ensures c == d {
      OneCpu(s, c, d, t);
    }
    assert Count(s, t) == 1;
    if OnCpu(s.running, s.idle, t) > 0 {
      var c := OnCpuWhere(s.running, s.idle, t);
      assert On(s, c, t);
    }
  }

  /** The idle tasks are in no list. */
  lemma IdleNeverQueued(s: State, c: nat)
    requires Inv(s) && c < |s.idle|
    ensures s.idle[c] !in s.active && s.idle[c] !in s.cleanup && s.idle[c] !in s.made
    ensures forall d: nat :: !On(s, d, s.idle[c])
  {
    Elsewhere(s, s.idle[c]);
  }

  // ----- steps of the current task -----

  lemma CurrFacts(s: State, c: nat)
    requires Places(s) && Current(s, c)
    ensures var t := Curr(s, c);
      Worker(s, t) && t !in s.active && t !in s.cleanup && t !in s.made && On(s, c, t)
      && forall d: nat | Current(s, d) && Curr(s, d) == t :: d == c
  {
    var t := Curr(s, c);
    assert On(s, c, t);
    Elsewhere(s, t);
    forall d: nat | Current(s, d) && Curr(s, d) == t ensures d == c {
      assert On(s, d, t);
      OneCpu(s, c, d, t);
    }
  }

  lemma DropIn(q: seq<nat>, i: nat)
    requires i < |q|
    ensures forall x | x in Drop(q, i) :: x in q
  {
  }

  lemma DropGone(q: seq<nat>, i: nat, t: nat)
    requires i < |q| && q[i] == t && Occ(q, t) <= 1
    ensures t !in Drop(q, i)
  {
    OccDrop(q, i, t);
  }

  /** A place's count, from the invariant. */
  lemma CountOf(s: State, u: nat)
    requires Places(s)
    ensures Count(s, u) == if Worker(s, u) then 1 else 0
  {
  }

  /** Changing only the current task's own record. */
  lemma SetCurrent(s: State, c: nat, k: Task)
    requires Inv(s) && Acting(s, c) && Awake(k)
    ensures Inv(Set(s, Curr(s, c), k))
  {
    hide Occ, OnCpu, Count, Places, Gone;
    var s2 := Set(s, Curr(s, c), k);
    CurrFacts(s, c);
    SetPlaces(s, Curr(s, c), k);
    SetHistory(s, Curr(s, c), k);
    assert Modes(s2) by {
      forall d | 0 <= d < |s2.running| && Current(s2, d) ensures Awake(T(s2, Curr(s2, d))) {
        assert Current(s, d);
      }
    }
  }

  lemma SetHistory(s: State, t: nat, k: Task)
    requires History(s) && t in s.tasks && T(s, t).mode != Zombie && k.mode != Zombie
    ensures History(Set(s, t, k))
  {
    hide Gone;
    forall j | 0 <= j < |s.reaped| ensures Gone(Set(s, t, k), s.reaped[j].0, s.reaped[j].1) {
      assert Gone(s, s.reaped[j].0, s.reaped[j].1);
      GoneSet(s, t, k, s.reaped[j].0, s.reaped[j].1);
    }
  }

  lemma GoneSet(s: State, t: nat, k: Task, u: nat, code: int)
    requires Gone(s, u, code) && t in s.tasks
    ensures Gone(Set(s, t, k), u, code)
  {
  }

  lemma SetPlaces(s: State, t: nat, k: Task)
    requires Places(s) && t in s.tasks && k.mode != Zombie
    ensures Places(Set(s, t, k))
  {
    hide Occ, OnCpu;
    var s2 := Set(s, t, k);
    forall u: nat ensures Count(s2, u) == if Worker(s2, u) then 1 else 0 {
      CountOf(s, u);
    }
  }

  // ----- creating and adding -----

  lemma CreateInv(s: State, tgid: nat)
    requires Inv(s)
    ensures Inv(Create(s, tgid))
  {
    hide Occ, OnCpu, Count, Places;
    var s2 := Create(s, tgid);
    assert s.lastId + 1 !in s.tasks;
    CreatePlaces(s, tgid);
    CreateModes(s, tgid);
  }

  lemma CreatePlaces(s: State, tgid: nat)
    requires Inv(s)
    ensures Places(Create(s, tgid))
  {
    hide Occ, OnCpu, Modes;
    var t, s2 := s.lastId + 1, Create(s, tgid);
    forall u: nat ensures Count(s2, u) == if Worker(s2, u) then 1 else 0 {
      CountOf(s, u);
      OccAppend(s.made, t, u);
    }
  }

  lemma CreateModes(s: State, tgid: nat)
    requires Inv(s)
    ensures Modes(Create(s, tgid))
  {
    hide Occ, OnCpu, Count, Places;
    var t, s2 := s.lastId + 1, Create(s, tgid);
    Elsewhere(s, t);
    forall d | 0 <= d < |s2.running| && Current(s2, d) ensures Awake(T(s2, Curr(s2, d))) {
      assert Current(s, d) && On(s, d, Curr(s, d));
    }
  }

  lemma InsertInv(s: State, t: nat)
    requires Inv(s) && t in s.made
    ensures Inv(Insert(s, t))
  {
    hide Occ, OnCpu, Count, Places;
    var s2 := Insert(s, t);
    InsertPlaces(s, t);
    DropIn(s.made, IndexOf(s.made, t));
    assert Modes(s2) by {
      forall d | 0 <= d < |s2.running| && Current(s2, d) ensures Awake(T(s2, Curr(s2, d))) {
        assert Current(s, d);
      }
    }
    assert History(s2);
  }

  lemma InsertPlaces(s: State, t: nat)
    requires Places(s) && t in s.made
    ensures Places(Insert(s, t))
  {
    hide Occ, OnCpu;
    var i, s2 := IndexOf(s.made, t), Insert(s, t);
    forall u: nat ensures Count(s2, u) == if Worker(s2, u) then 1 else 0 {
      CountOf(s, u);
      OccAppend(s.active, t, u);
      OccDrop(s.made, i, u);
    }
  }

  // ----- waking -----

  lemma ResumedInv(s: State, ev: Event)
    requires Inv(s)
    ensures Inv(Resumed(s, ev))
  {
    hide Occ, OnCpu, Count;
    var s2 := Resumed(s, ev);
    forall i | 0 <= i < |s2.idle| ensures T(s2, s2.idle[i]).mode != Zombie {
      IdleNeverQueued(s, i);
    }
    ResumedPlaces(s, ev);
    ResumedModes(s, ev);
  }

  lemma ResumedPlaces(s: State, ev: Event)
    requires Inv(s)
    ensures var s2 := Resumed(s, ev); forall u: nat :: Count(s2, u) == if Worker(s2, u) then 1 else 0
  {
    hide Occ, OnCpu, Modes, History;
    var s2 := Resumed(s, ev);
    forall u: nat ensures Count(s2, u) == if Worker(s2, u) then 1 else 0 {
      CountOf(s, u);
    }
  }

  lemma ResumedModes(s: State, ev: Event)
    requires Inv(s)
    ensures Modes(Resumed(s, ev))
  {
    hide Occ, OnCpu, Count, Places, History;
    var s2 := Resumed(s, ev);
    forall t | t in s.made || t in s.cleanup ensures T(s2, t) == T(s, t) {
      Elsewhere(s, t);
    }
    forall t | t in s.active ensures Awake(T(s2, t)) && T(s2, t).mode != Running {
      Elsewhere(s, t);
    }
    forall d | 0 <= d < |s2.running| && Current(s2, d) ensures Awake(T(s2, Curr(s2, d))) {
      assert Current(s, d) && On(s, d, Curr(s, d));
      Elsewhere(s, Curr(s, d));
    }
  }

  // ----- ending -----

  lemma ExitedInv(s: State, c: nat, code: int)
    requires Inv(s) && Acting(s, c)
    ensures Inv(Exited(s, c, code))
  {
    hide Occ, OnCpu, Count, Places;
    var s2 := Exited(s, c, code);
    CurrFacts(s, c);
    ExitedPlaces(s, c, code);
    assert Modes(s2) by {
      forall d | 0 <= d < |s2.running| && Current(s2, d) ensures Awake(T(s2, Curr(s2, d))) {
        assert Current(s, d);
      }
    }
  }

  lemma ExitedPlaces(s: State, c: nat, code: int)
    requires Inv(s) && Acting(s, c)
    ensures Places(Exited(s, c, code))
  {
    hide Occ, OnCpu, Modes, History;
    var t, s2 := Curr(s, c), Exited(s, c, code);
    CurrFacts(s, c);
    forall u: nat ensures Count(s2, u) == if Worker(s2, u) then 1 else 0 {
      CountOf(s, u);
      OccAppend(s.cleanup, t, u);
      OnCpuUpdate(s.running, s.idle, c, None, u);
    }
  }

  lemma ReapedInv(s: State, c: nat, t: nat)
    requires Inv(s)
    ensures Inv(Reaped(s, c, t))
  {
    hide Occ, OnCpu, Count, Places, Modes, History;
    var i := Found(s, s.cleanup, T(s, Curr(s, c)).tgid, t);
    if i < |s.cleanup| {
      ReapedPlaces(s, c, t, i);
      ReapedModes(s, c, t, i);
      ReapedHistory(s, c, t, i);
    }
  }

  lemma ReapedPlaces(s: State, c: nat, t: nat, i: nat)
    requires Inv(s) && i == Found(s, s.cleanup, T(s, Curr(s, c)).tgid, t) < |s.cleanup|
    ensures Places(Reaped(s, c, t))
  {
    hide Occ, OnCpu, Modes, History;
    var s2 := Reaped(s, c, t);
    Elsewhere(s, t);
    forall u: nat ensures Count(s2, u) == if Worker(s2, u) then 1 else 0 {
      CountOf(s, u);
      OccDrop(s.cleanup, i, u);
    }
  }

  lemma ReapedModes(s: State, c: nat, t: nat, i: nat)
    requires Inv(s) && i == Found(s, s.cleanup, T(s, Curr(s, c)).tgid, t) < |s.cleanup|
    ensures Modes(Reaped(s, c, t))
  {
    hide OnCpu, Places, History, Found, Occ, Drop;
    var s2 := Reaped(s, c, t);
    Elsewhere(s, t);
    CountOf(s, t);
    DropGone(s.cleanup, i, t);
    DropIn(s.cleanup, i);
    forall d | 0 <= d < |s2.running| && Current(s2, d) ensures Awake(T(s2, Curr(s2, d))) {
      assert Current(s, d) && On(s, d, Curr(s, d));
    }
  }

  lemma ReapedHistory(s: State, c: nat, t: nat, i: nat)
    requires Inv(s) && i == Found(s, s.cleanup, T(s, Curr(s, c)).tgid, t) < |s.cleanup|
    ensures History(Reaped(s, c, t))
  {
    hide Occ, OnCpu, Count, Places, Gone;
    var s2 := Reaped(s, c, t);
    Elsewhere(s, t);
    forall j | 0 <= j < |s2.reaped| ensures Gone(s2, s2.reaped[j].0, s2.reaped[j].1) {
      GoneStays(s, s2, t, j);
    }
    forall j | 0 <= j < |s.reaped| ensures s.reaped[j].0 != t {
      GoneNot(s, j);
    }
  }

  lemma GoneNot(s: State, j: nat)
    requires History(s) && j < |s.reaped|
    ensures s.reaped[j].0 !in s.tasks
  {
  }

  lemma GoneStays(s: State, s2: State, t: nat, j: nat)
    requires Inv(s) && t in s.cleanup && t in s.tasks
    requires s2.tasks == s.tasks - {t} && s2.lastId == s.lastId && s2.exited == s.exited
    requires s2.reaped == s.reaped + [(t, T(s, t).code)] && j < |s2.reaped|
    ensures Gone(s2, s2.reaped[j].0, s2.reaped[j].1)
  {
    hide Places;
    if j < |s.reaped| {
      assert Gone(s, s.reaped[j].0, s.reaped[j].1);
    }
  }

  // ----- sched_again, as moves of one task each -----

  /** The current task, now in mode `k.mode`, goes to the end of the active list. */
  function Yield(s: State, c: nat, k: Task): State
    requires Cpu(s, c)
  {
    Set(s, Curr(s, c), k).(running := s.running[c := None], active := s.active + [Curr(s, c)])
  }

  lemma YieldInv(s: State, c: nat, k: Task)
    requires Inv(s) && Current(s, c) && Awake(k) && k.mode != Running
    ensures Inv(Yield(s, c, k))
  {
    hide Occ, OnCpu, Count, Places, History;
    var t, s2 := Curr(s, c), Yield(s, c, k);
    CurrFacts(s, c);
    YieldPlaces(s, c, k);
    assert Modes(s2) by {
      forall d | 0 <= d < |s2.running| && Current(s2, d) ensures Awake(T(s2, Curr(s2, d))) {
        assert Current(s, d);
      }
    }
    SetHistory(s, t, k);
    SameHistory(Set(s, t, k), s2);
  }

  lemma SameHistory(s: State, s2: State)
    requires History(s) && s2.tasks == s.tasks && s2.lastId == s.lastId && s2.exited == s.exited && s2.reaped == s.reaped
    ensures History(s2)
  {
    forall j | 0 <= j < |s.reaped| ensures Gone(s2, s.reaped[j].0, s.reaped[j].1) {
      assert Gone(s, s.reaped[j].0, s.reaped[j].1);
    }
  }

  lemma YieldPlaces(s: State, c: nat, k: Task)
    requires Places(s) && Current(s, c) && k.mode != Zombie
    ensures Places(Yield(s, c, k))
  {
    hide Occ, OnCpu;
    var t, s2 := Curr(s, c), Yield(s, c, k);
    CurrFacts(s, c);
    forall u: nat ensures Count(s2, u) == if Worker(s2, u) then 1 else 0 {
      CountOf(s, u);
      OccAppend(s.active, t, u);
      OnCpuUpdate(s.running, s.idle, c, None, u);
    }
  }

  /** Position `i` of the active list becomes current. */
  function Dispatch(s: State, c: nat, i: nat): State
    requires Cpu(s, c) && i < |s.active|
  {
    Set(s, s.active[i], Taken(T(s, s.active[i]))).(
      running := s.running[c := Some(s.active[i])], active := Drop(s.active, i))
  }

  lemma DispatchInv(s: State, c: nat, i: nat)
    requires Inv(s) && Cpu(s, c) && !Current(s, c) && i < |s.active|
    ensures Inv(Dispatch(s, c, i))
  {
    hide Occ, OnCpu, Count, Places, History, Drop;
    var t, s2 := s.active[i], Dispatch(s, c, i);
    Elsewhere(s, t);
    DispatchPlaces(s, c, i);
    CountPart(s, t);
    DropGone(s.active, i, t);
    DropIn(s.active, i);
    assert Modes(s2) by {
      forall d | 0 <= d < |s2.running| && Current(s2, d) ensures Awake(T(s2, Curr(s2, d))) {
        assert d != c ==> Current(s, d) && On(s, d, Curr(s, d));
      }
    }
    SetHistory(s, t, Taken(T(s, t)));
    SameHistory(Set(s, t, Taken(T(s, t))), s2);
  }

  lemma CountPart(s: State, t: nat)
    requires Places(s)
    ensures Occ(s.active, t) <= 1
  {
    CountOf(s, t);
  }

  lemma DispatchPlaces(s: State, c: nat, i: nat)
    requires Places(s) && Cpu(s, c) && !Current(s, c) && i < |s.active|
    ensures Places(Dispatch(s, c, i))
  {
    hide Occ, OnCpu;
    var t, s2 := s.active[i], Dispatch(s, c, i);
    Elsewhere(s, t);
    forall u: nat ensures Count(s2, u) == if Worker(s2, u) then 1 else 0 {
      CountOf(s, u);
      OccDrop(s.active, i, u);
      OnCpuUpdate(s.running, s.idle, c, Some(t), u);
    }
  }

  /** The idle task becomes current. */
  function Rest(s: State, c: nat): State
    requires Cpu(s, c)
  {
    Set(s, s.idle[c], T(s, s.idle[c]).(mode := Running)).(running := s.running[c := Some(s.idle[c])])
  }

  lemma RestInv(s: State, c: nat)
    requires Inv(s) && Cpu(s, c) && !Current(s, c)
    ensures Inv(Rest(s, c))
  {
    hide Occ, OnCpu, Count, Places, History;
    var t, s2 := s.idle[c], Rest(s, c);
    assert t in s.tasks && T(s, t).mode != Zombie by { IdleKnown(s, c); }
    IdleNeverQueued(s, c);
    RestPlaces(s, c);
    assert Modes(s2) by {
      forall d | 0 <= d < |s2.running| && Current(s2, d) ensures Awake(T(s2, Curr(s2, d))) {
        assert Current(s, d) && On(s, d, Curr(s, d));
      }
    }
    SetHistory(s, t, T(s, t).(mode := Running));
    SameHistory(Set(s, t, T(s, t).(mode := Running)), s2);
  }

  lemma IdleKnown(s: State, c: nat)
    requires Places(s) && c < |s.idle|
    ensures s.idle[c] in s.tasks && T(s, s.idle[c]).mode != Zombie
  {
  }

  lemma RestPlaces(s: State, c: nat)
    requires Places(s) && Cpu(s, c) && !Current(s, c)
    ensures Places(Rest(s, c))
  {
    hide Occ, OnCpu;
    var s2 := Rest(s, c);
    forall u: nat ensures Count(s2, u) == if Worker(s2, u) then 1 else 0 {
      CountOf(s, u);
      OnCpuUpdate(s.running, s.idle, c, Some(s.idle[c]), u);
    }
  }

  lemma AgainInv(s: State, c: nat, now: nat)
    requires Inv(s) && Cpu(s, c)
    ensures Inv(Again(s, c, now))
  {
    hide Inv, Occ, OnCpu, Count, Places, Modes, History, Awake;
    var q := Queue(s, c);
    var i := Pick(s, q, now);
    if i < |q| {
      SwitchInv(s, c, q, i);
    } else {
      StayInv(s, c, q);
    }
  }

  lemma SwitchInv(s: State, c: nat, q: seq<nat>, i: nat)
    requires Inv(s) && Cpu(s, c) && q == Queue(s, c) && i < |q|
    ensures Inv(Switch(s, c, q, i))
  {
    hide Inv, Occ, OnCpu, Count, Places, Modes, History, Awake;
    var t := Curr(s, c);
    if Acting(s, c) {
      var k := T(s, t).(mode := Ready);
      assert Awake(k) by { ReadyAwake(k); }
      assert s.active[i] != t && t in s.tasks by { CurrFact2(s, c); }
      YieldInv(s, c, k);
      var s1 := Yield(s, c, k);
      DispatchInv(s1, c, i);
      assert Drop(s1.active, i) == Drop(q, i) + [t];
      assert Switch(s, c, q, i).tasks == Dispatch(s1, c, i).tasks;
      assert Switch(s, c, q, i) == Dispatch(s1, c, i);
    } else if Current(s, c) {
      var k := T(s, t);
      assert Awake(k) by { CurrAwake(s, c); }
      assert t in s.tasks by { CurrFact2(s, c); }
      YieldInv(s, c, k);
      var s1 := Yield(s, c, k);
      assert s1.tasks == s.tasks;
      DispatchInv(s1, c, i);
      assert Drop(q, i) + [] == Drop(q, i);
      assert Switch(s, c, q, i) == Dispatch(s1, c, i);
    } else {
      DispatchInv(s, c, i);
      assert Drop(q, i) + [] == Drop(q, i);
      assert Switch(s, c, q, i) == Dispatch(s, c, i);
    }
  }

  lemma ReadyAwake(k: Task)
    requires k.mode == Ready
    ensures Awake(k)
  {
  }

  lemma CurrAwake(s: State, c: nat)
    requires Inv(s) && Current(s, c)
    ensures Awake(T(s, Curr(s, c)))
  {
  }

  lemma CurrFact2(s: State, c: nat)
    requires Inv(s) && Current(s, c)
    ensures Curr(s, c) in s.tasks && Curr(s, c) !in s.active
  {
    CurrFacts(s, c);
  }

  lemma StayInv(s: State, c: nat, q: seq<nat>)
    requires Inv(s) && Cpu(s, c) && q == Queue(s, c)
    ensures Inv(Stay(s, c, q))
  {
    hide Inv, Occ, OnCpu, Count, Places, Modes, History, Awake;
    var t := Curr(s, c);
    if Acting(s, c) {
      assert t in s.tasks by { CurrFact2(s, c); }
      assert Stay(s, c, q).tasks == s.tasks;
      assert Stay(s, c, q).running == s.running;
      assert Stay(s, c, q) == s;
    } else if Current(s, c) {
      assert Awake(T(s, t)) by { CurrAwake(s, c); }
      assert t in s.tasks by { CurrFact2(s, c); }
      YieldInv(s, c, T(s, t));
      var s1 := Yield(s, c, T(s, t));
      assert s1.tasks == s.tasks;
      RestInv(s1, c);
      assert Stay(s, c, q) == Rest(s1, c);
    } else {
      RestInv(s, c);
      assert Stay(s, c, q) == Rest(s, c);
    }
  }

  /** Every step keeps the invariant. */
  lemma StepInv(s: State, op: Op)
    requires Inv(s) && Enabled(s, op)
    ensures Inv(Apply(s, op))
  {
    hide Inv, Create, Insert, Again, Resumed, Exited, Reaped;
    match op
    case Boot => CreateInv(s, s.lastId + 1);
    case Spawn(c) => CreateInv(s, Curr(s, c));
    case Fork(c) => CreateInv(s, T(s, Curr(s, c)).tgid);
    case Add(t) => InsertInv(s, t);
    case Tick(c, now) => AgainInv(s, c, now);
    case Resume(ev) => ResumedInv(s, ev);
    case Exit(c, code) => ExitedInv(s, c, code);
    case Reap(c, t) => ReapedInv(s, c, t);
    case GoSleep(c, now, millis) =>
      var k := T(s, Curr(s, c));
      SetCurrent(s, c, k.(mode := Waiting, ev := Some(k.ev.val.(kind := Sleep, stamp := (now + millis) % WORD))));
    case WaitEvent(c, ev) => SetCurrent(s, c, T(s, Curr(s, c)).(mode := Waiting, ev := Some(ev)));
    case EndWait(c) => SetCurrent(s, c, T(s, Curr(s, c)).(ev := None));
    case Exec(c) => SetCurrent(s, c, T(s, Curr(s, c)).(mode := Ready, ev := Some(BLANK)));
  }
}
