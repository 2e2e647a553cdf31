/** Whole runs of the scheduler: safety, waiting times and sleeping. */
module SchedRun {
  import opened Base
  import opened SchedModel
  import opened SchedInv

  predicate Legal(s: State, ops: seq<Op>)
    decreases ops
  {
    ops == [] || (Enabled(s, ops[0]) && Legal(Apply(s, ops[0]), ops[1..]))
  }

  function Run(s: State, ops: seq<Op>): State
    requires Legal(s, ops)
    decreases ops
  {
    if ops == [] then s else Run(Apply(s, ops[0]), ops[1..])
  }

  /** After `sched_init` on every processor: the idle tasks exist and nothing else. */
  predicate Initial(s: State)
  {
    && |s.running| == |s.idle| && (forall c | 0 <= c < |s.running| :: s.running[c] == None)
    && s.active == [] && s.cleanup == [] && s.made == [] && s.exited == map[] && s.reaped == []
    && (forall c | 0 <= c < |s.idle| :: s.idle[c] in s.tasks)
    && (forall t | t in s.tasks :: t in s.idle && t <= s.lastId && T(s, t).mode == Ready)
  }

  lemma {:induction false} NobodyOn(running: seq<Option<nat>>, idle: seq<nat>, t: nat)
    requires |running| == |idle| && forall c | 0 <= c < |running| :: running[c] == None
    ensures OnCpu(running, idle, t) == 0
  {
    if running != [] {
      NobodyOn(running[1..], idle[1..], t);
    }
  }

  lemma InitialInv(s: State)
    requires Initial(s)
    ensures Inv(s)
  {
    hide OnCpu, Occ;
    forall u: nat ensures Count(s, u) == if Worker(s, u) then 1 else 0 {
      NobodyOn(s.running, s.idle, u);
    }
  }

  /** Every state of every run from the start keeps the invariant. */
  lemma {:induction false} RunInv(s: State, ops: seq<Op>)
    requires Inv(s) && Legal(s, ops)
    ensures Inv(Run(s, ops))
    decreases ops
  {
    hide Inv, Enabled, Apply;
    if ops != [] {
      StepInv(s, ops[0]);
      RunInv(Apply(s, ops[0]), ops[1..]);
    }
  }

  /** What the code relies on, in every reachable state: `sched_wait` meets only zombies, so that it does not panic,
      and `__active_task_next_available` finds an event behind every waiting task. */
  lemma NoPanic(s: State, ops: seq<Op>)
    requires Initial(s) && Legal(s, ops)
    ensures forall t | t in Run(s, ops).cleanup :: T(Run(s, ops), t).mode == Zombie
    ensures forall t | t in Run(s, ops).active && T(Run(s, ops), t).mode == Waiting :: T(Run(s, ops), t).ev.Some?
  {
    hide Initial, Run, Legal, Places, History;
    InitialInv(s);
    RunInv(s, ops);
  }

  /** An exit code is handed out at most once per task, and it is the one the task exited with. */
  lemma ReapedOnce(s: State, ops: seq<Op>, i: nat, j: nat)
    requires Initial(s) && Legal(s, ops) && i < |Run(s, ops).reaped| && j < |Run(s, ops).reaped|
    ensures var e := Run(s, ops); e.reaped[i].0 == e.reaped[j].0 ==> i == j
    ensures var e := Run(s, ops); e.reaped[i].0 in e.exited && e.exited[e.reaped[i].0] == e.reaped[i].1
  {
    hide Initial, Run, Legal, Places, Modes;
    InitialInv(s);
    RunInv(s, ops);
    var e := Run(s, ops);
    assert Gone(e, e.reaped[i].0, e.reaped[i].1);
    if i < j {
      assert e.reaped[i].0 != e.reaped[j].0;
    } else if j < i {
      assert e.reaped[j].0 != e.reaped[i].0;
    }
  }

  // ----- waiting one's turn -----

  /** The step is a tick that makes `t`, which was not running, run on the processor of the tick. */
  predicate Picks(s: State, op: Op, t: nat)
    requires Enabled(s, op)
  {
    op.Tick? && T(s, t).mode != Running && On(Apply(s, op), op.cpu, t) && T(Apply(s, op), t).mode == Running
  }

  predicate Dispatched(s: State, ops: seq<Op>, t: nat)
    requires Legal(s, ops)
    decreases ops
  {
    ops != [] && (Picks(s, ops[0], t) || Dispatched(Apply(s, ops[0]), ops[1..], t))
  }

  function Ticks(ops: seq<Op>): nat
  {
    if ops == [] then 0 else (if ops[0].Tick? then 1 else 0) + Ticks(ops[1..])
  }

  /** No clock reading of the run lies before `now`. */
  predicate ClockFrom(ops: seq<Op>, now: nat)
  {
    forall i | 0 <= i < |ops| && ops[i].Tick? :: ops[i].now >= now
  }

  /** `t` stands at position `k` of the active list and may be taken from time `now` on. */
  predicate Standing(s: State, t: nat, k: nat, now: nat)
  {
    k < |s.active| && s.active[k] == t && Avail(T(s, t), now)
  }

  lemma OtherSteps(s: State, op: Op, t: nat, k: nat, now: nat)
    requires Inv(s) && Enabled(s, op) && Standing(s, t, k, now) && !op.Tick?
    ensures Standing(Apply(s, op), t, k, now)
  {
    hide Occ, OnCpu, Count, Places, Modes;
    Elsewhere(s, t);
    if op.GoSleep? || op.WaitEvent? || op.EndWait? || op.Exec? || op.Exit? {
      CurrFacts(s, op.cpu);
    }
  }

  /** A tick takes `t`, or somebody ahead of it. */
  lemma TickAdvances(s: State, op: Op, t: nat, k: nat, now: nat)
    requires Inv(s) && Enabled(s, op) && Standing(s, t, k, now) && op.Tick? && op.now >= now
    ensures Picks(s, op, t) || (k > 0 && Standing(Apply(s, op), t, k - 1, now))
  {
    hide Occ, OnCpu, Count, Places, Modes, History;
    var q := Queue(s, op.cpu);
    var i := Pick(s, q, op.now);
    assert q[k] == t && Avail(T(s, t), op.now);
    assert i <= k;
    Elsewhere(s, t);
    ListedRests(s, t);
    if Current(s, op.cpu) {
      CurrFacts(s, op.cpu);
    }
    if i < k {
      OnceInList(s, i, k);
    }
  }

  lemma ListedRests(s: State, t: nat)
    requires Inv(s)
    ensures t in s.active ==> T(s, t).mode != Running && T(s, t).mode != Zombie
  {
  }

  lemma OnceInList(s: State, i: nat, k: nat)
    requires Places(s) && i < k < |s.active|
    ensures s.active[i] != s.active[k]
  {
    var t := s.active[k];
    CountPart(s, t);
    assert Drop(s.active, i)[k - 1] == t;
    if s.active[i] == t {
      DropGone(s.active, i, t);
    }
  }

  /** A tick takes a task off the list only if it is ready, or sleeps and its time has come. A ready task keeps its event
      record; a sleeper loses kind and deadline, so that it is no sleeper any more. */
  lemma PickedTask(s: State, op: Op, t: nat)
    requires Inv(s) && Enabled(s, op) && Picks(s, op, t)
    ensures var k, k2 := T(s, t), T(Apply(s, op), t);
      || (k.mode == Ready && k2 == k.(mode := Running))
      || (k.mode == Waiting && k.ev.Some? && k.ev.val.kind == Sleep && 0 < k.ev.val.stamp <= op.now
          && k2 == k.(mode := Running, ev := Some(Event(Unknown, k.ev.val.data, 0))))
  {
    hide Occ, OnCpu, Count, Places, Modes, History;
    var q := Queue(s, op.cpu);
    var i := Pick(s, q, op.now);
    if Current(s, op.cpu) {
      assert Acting(s, op.cpu) ==> Curr(s, op.cpu) != t;
    }
  }

  /** Bounded bypass: with `k` tasks ahead of it, a task that may be taken is dispatched by the tick number `k + 1` at
      the latest, on whatever processors the ticks come and whatever else happens in between. */
  lemma {:induction false} BoundedBypass(s: State, ops: seq<Op>, t: nat, k: nat, now: nat)
    requires Inv(s) && Legal(s, ops) && Standing(s, t, k, now) && ClockFrom(ops, now) && Ticks(ops) >= k + 1
    ensures Dispatched(s, ops, t)
    decreases ops
  {
    hide Inv, Enabled, Apply, Standing, Picks;
    var op, s2 := ops[0], Apply(s, ops[0]);
    StepInv(s, op);
    assert ClockFrom(ops[1..], now);
    if op.Tick? {
      TickAdvances(s, op, t, k, now);
      if !Picks(s, op, t) {
        BoundedBypass(s2, ops[1..], t, k - 1, now);
      }
    } else {
      OtherSteps(s, op, t, k, now);
      BoundedBypass(s2, ops[1..], t, k, now);
    }
  }

  /** A ready task with `k` tasks ahead of it runs by tick `k + 1`. */
  lemma ReadyRuns(s: State, ops: seq<Op>, t: nat, k: nat)
    requires Inv(s) && Legal(s, ops) && k < |s.active| && s.active[k] == t && T(s, t).mode == Ready && Ticks(ops) >= k + 1
    ensures Dispatched(s, ops, t)
  {
    hide Inv, Legal, Ticks, Dispatched;
    BoundedBypass(s, ops, t, k, 0);
  }

  // ----- sleeping -----

  /** `t` sleeps until `d`. */
  predicate Asleep(s: State, t: nat, d: nat)
  {
    Worker(s, t) && T(s, t).mode == Waiting && T(s, t).ev.Some? && T(s, t).ev.val.kind == Sleep && T(s, t).ev.val.stamp == d
  }

  /** A sleeper in the list whose deadline is past, with `k` tasks ahead of it, runs by tick `k + 1`. */
  lemma SleeperWakes(s: State, ops: seq<Op>, t: nat, k: nat, d: nat, now: nat)
    requires Inv(s) && Legal(s, ops) && Asleep(s, t, d) && 0 < d <= now && k < |s.active| && s.active[k] == t
    requires ClockFrom(ops, now) && Ticks(ops) >= k + 1
    ensures Dispatched(s, ops, t)
  {
    hide Inv, Legal, Ticks, Dispatched;
    BoundedBypass(s, ops, t, k, now);
  }

  /** No step reads the clock at or after `d`, unless `d` is 0, and none publishes a sleep event. */
  predicate Quiet(ops: seq<Op>, d: nat)
  {
    && (forall i | 0 <= i < |ops| && ops[i].Tick? :: d == 0 || ops[i].now < d)
    && (forall i | 0 <= i < |ops| && ops[i].Resume? :: ops[i].ev.kind != Sleep)
  }

  lemma SleepBegins(s: State, c: nat, now: nat, millis: nat)
    requires Inv(s) && Enabled(s, GoSleep(c, now, millis))
    ensures Asleep(Apply(s, GoSleep(c, now, millis)), Curr(s, c), (now + millis) % WORD)
  {
    hide Occ, OnCpu, Count, Places, Modes, History;
    CurrFacts(s, c);
  }

  lemma StaysAsleep(s: State, op: Op, t: nat, d: nat)
    requires Inv(s) && Enabled(s, op) && Asleep(s, t, d)
    requires op.Tick? ==> d == 0 || op.now < d
    requires op.Resume? ==> op.ev.kind != Sleep
    ensures Asleep(Apply(s, op), t, d) && !Picks(s, op, t)
  {
    hide Occ, OnCpu, Count, Places, Again;
    if op.Tick? {
      TickAsleep(s, op.cpu, op.now, t, d);
    }
  }

  lemma TickAsleep(s: State, c: nat, now: nat, t: nat, d: nat)
    requires Inv(s) && Cpu(s, c) && Asleep(s, t, d) && (d == 0 || now < d)
    ensures Asleep(Again(s, c, now), t, d) && !Picks(s, Tick(c, now), t)
  {
    hide Occ, OnCpu, Count, Places, Modes, History;
    assert !Avail(T(s, t), now);
  }

  /** A sleeping task is not dispatched before its deadline; with deadline 0 the clock never wakes it. */
  lemma {:induction false} SleepsToDeadline(s: State, ops: seq<Op>, t: nat, d: nat)
    requires Inv(s) && Legal(s, ops) && Asleep(s, t, d) && Quiet(ops, d)
    ensures !Dispatched(s, ops, t) && Asleep(Run(s, ops), t, d)
    decreases ops
  {
    hide Inv, Enabled, Apply, Asleep, Picks;
    if ops != [] {
      StepInv(s, ops[0]);
      StaysAsleep(s, ops[0], t, d);
      assert Quiet(ops[1..], d);
      SleepsToDeadline(Apply(s, ops[0]), ops[1..], t, d);
    }
  }

  // ----- who can wait for whom -----

  /** `sched_wait` finds a zombie of the wanted id exactly if the two are in one thread group. */
  lemma WaitFinds(s: State, c: nat, t: nat)
    requires Inv(s) && Enabled(s, Reap(c, t))
    ensures Apply(s, Reap(c, t)) != s <==> t in s.cleanup && T(s, t).tgid == T(s, Curr(s, c)).tgid
    ensures Apply(s, Reap(c, t)) != s ==> Apply(s, Reap(c, t)).reaped == s.reaped + [(t, T(s, t).code)]
  {
    hide Occ, OnCpu, Count, Places, Modes, History;
    var r := Reaped(s, c, t);
    if t in s.cleanup && T(s, t).tgid == T(s, Curr(s, c)).tgid {
      assert |r.reaped| == |s.reaped| + 1;
    }
  }

  /** An id that has been used and freed stays free. */
  lemma {:induction false} GoneForever(s: State, ops: seq<Op>, t: nat)
    requires Legal(s, ops) && Inv(s) && t !in s.tasks && t <= s.lastId
    ensures t !in Run(s, ops).tasks
    decreases ops
  {
    hide Occ, OnCpu, Count, Places, Modes;
    if ops != [] {
      StepInv(s, ops[0]);
      StepGone(s, ops[0], t);
      GoneForever(Apply(s, ops[0]), ops[1..], t);
    }
  }

  lemma StepGone(s: State, op: Op, t: nat)
    requires Inv(s) && Enabled(s, op) && t !in s.tasks && t <= s.lastId
    ensures t !in Apply(s, op).tasks && Apply(s, op).lastId >= s.lastId
  {
    hide Occ, OnCpu, Count, Modes, History;
    if op.Tick? {
      if Current(s, op.cpu) {
        CurrFacts(s, op.cpu);
      }
      TickKeys(s, op.cpu, op.now);
    } else if !op.Boot? && !op.Add? && !op.Resume? && !op.Reap? {
      CurrFacts(s, op.cpu);
    }
  }

  lemma TickKeys(s: State, c: nat, now: nat)
    requires Places(s) && Cpu(s, c)
    ensures Again(s, c, now).tasks.Keys == s.tasks.Keys && Again(s, c, now).lastId == s.lastId
    ensures forall t | t in s.tasks :: T(Again(s, c, now), t).tgid == T(s, t).tgid
  {
    hide Occ, OnCpu, Count;
    if Current(s, c) {
      CurrFacts(s, c);
    }
    var q := Queue(s, c);
    var i := Pick(s, q, now);
    if i < |q| {
      Elsewhere(s, q[i]);
      assert q[i] in s.tasks;
    }
  }

  /** The thread group of a task never changes. */
  lemma {:induction false} GroupKept(s: State, ops: seq<Op>, t: nat)
    requires Legal(s, ops) && Inv(s) && t in s.tasks && t in Run(s, ops).tasks
    ensures T(Run(s, ops), t).tgid == T(s, t).tgid
    decreases ops
  {
    hide Inv, Enabled, Apply;
    if ops != [] {
      var s2 := Apply(s, ops[0]);
      StepInv(s, ops[0]);
      StepGroup(s, ops[0], t);
      if t !in s2.tasks {
        GoneForever(s2, ops[1..], t);
      } else {
        GroupKept(s2, ops[1..], t);
      }
    }
  }

  lemma StepGroup(s: State, op: Op, t: nat)
    requires Inv(s) && Enabled(s, op) && t in s.tasks
    ensures t <= Apply(s, op).lastId && (t in Apply(s, op).tasks ==> T(Apply(s, op), t).tgid == T(s, t).tgid)
  {
    hide Occ, OnCpu, Count, Again, Places;
    if op.Tick? {
      TickKeys(s, op.cpu, op.now);
    }
  }

  /** A spawned task carries its parent's id as its group, a forked one its parent's group. So the parent of a spawned
      task can wait for it only if the parent leads its own group, which no spawned task does. */
  lemma SpawnedWait(s: State, c: nat, ops: seq<Op>, d: nat)
    requires Inv(s) && Enabled(s, Spawn(c)) && Legal(Apply(s, Spawn(c)), ops)
    requires var e := Run(Apply(s, Spawn(c)), ops); var x := s.lastId + 1;
      Enabled(e, Reap(d, x)) && Curr(e, d) == Curr(s, c) && x in e.cleanup
    ensures var e := Run(Apply(s, Spawn(c)), ops); var x := s.lastId + 1;
      Apply(e, Reap(d, x)) != e <==> T(s, Curr(s, c)).tgid == Curr(s, c)
  {
    hide Occ, OnCpu, Count, Run, Legal, Modes;
    var s1, x := Apply(s, Spawn(c)), s.lastId + 1;
    var e := Run(s1, ops);
    KinGroups(s, s1, c, ops, d, x);
    WaitFinds(e, d, x);
  }

  lemma ForkedWait(s: State, c: nat, ops: seq<Op>, d: nat)
    requires Inv(s) && Enabled(s, Fork(c)) && Legal(Apply(s, Fork(c)), ops)
    requires var e := Run(Apply(s, Fork(c)), ops); var x := s.lastId + 1;
      Enabled(e, Reap(d, x)) && Curr(e, d) == Curr(s, c) && x in e.cleanup
    ensures var e := Run(Apply(s, Fork(c)), ops); var x := s.lastId + 1; Apply(e, Reap(d, x)) != e
  {
    hide Occ, OnCpu, Count, Run, Legal, Modes;
    var s1, x := Apply(s, Fork(c)), s.lastId + 1;
    var e := Run(s1, ops);
    KinGroups(s, s1, c, ops, d, x);
    WaitFinds(e, d, x);
  }

  lemma KinGroups(s: State, s1: State, c: nat, ops: seq<Op>, d: nat, x: nat)
    requires Inv(s) && Acting(s, c) && x == s.lastId + 1 && Legal(s1, ops)
    requires s1 == Apply(s, Spawn(c)) || s1 == Apply(s, Fork(c))
    requires Acting(Run(s1, ops), d) && Curr(Run(s1, ops), d) == Curr(s, c) && x in Run(s1, ops).cleanup
    ensures Inv(s1) && Inv(Run(s1, ops))
    ensures T(Run(s1, ops), x).tgid == T(s1, x).tgid && T(Run(s1, ops), Curr(s, c)).tgid == T(s, Curr(s, c)).tgid
  {
    hide Occ, OnCpu, Count, Run, Legal, Modes;
    var p, e := Curr(s, c), Run(s1, ops);
    CurrFacts(s, c);
    assert p != x;
    if s1 == Apply(s, Spawn(c)) {
      StepInv(s, Spawn(c));
    } else {
      StepInv(s, Fork(c));
    }
    RunInv(s1, ops);
    CurrFacts(e, d);
    Elsewhere(e, x);
    GroupKept(s1, ops, x);
    GroupKept(s1, ops, p);
  }

  // ----- the lost event record -----

  predicate NoEvent(s: State, t: nat) { Worker(s, t) && T(s, t).ev == None && T(s, t).mode != Waiting }

  /** The step gives `t` an event record again. */
  predicate Renews(s: State, op: Op, t: nat) { (op.WaitEvent? || op.Exec?) && Curr(s, op.cpu) == t }

  predicate NeverRenews(s: State, ops: seq<Op>, t: nat)
    requires Legal(s, ops)
    decreases ops
  {
    ops != [] ==> !Renews(s, ops[0], t) && NeverRenews(Apply(s, ops[0]), ops[1..], t)
  }

  lemma StepNoEvent(s: State, op: Op, t: nat)
    requires Inv(s) && Enabled(s, op) && NoEvent(s, t) && !Renews(s, op, t)
    ensures t in Apply(s, op).tasks ==> NoEvent(Apply(s, op), t)
  {
    hide Occ, OnCpu, Count, Places, Modes, Again;
    if op.Tick? {
      TickNoEvent(s, op.cpu, op.now, t);
    }
  }

  lemma TickNoEvent(s: State, c: nat, now: nat, t: nat)
    requires Inv(s) && Cpu(s, c) && NoEvent(s, t)
    ensures NoEvent(Again(s, c, now), t)
  {
    hide Occ, OnCpu, Count, Places, Modes, History;
  }

  /** After a wait for an event has ended, the task has no event record, and until it waits again or replaces its image
      a call of `sched_sleep` dereferences null. */
  lemma {:induction false} SleepFaults(s: State, ops: seq<Op>, t: nat, c: nat, now: nat, millis: nat)
    requires Inv(s) && Legal(s, ops) && NoEvent(s, t) && NeverRenews(s, ops, t)
    ensures Curr(Run(s, ops), c) == t ==> !Enabled(Run(s, ops), GoSleep(c, now, millis))
    decreases ops
  {
    hide Occ, OnCpu, Count, Places, Modes, History, Apply;
    if ops != [] {
      var s2 := Apply(s, ops[0]);
      StepInv(s, ops[0]);
      StepNoEvent(s, ops[0], t);
      if t in s2.tasks {
        SleepFaults(s2, ops[1..], t, c, now, millis);
      } else {
        StepGroup(s, ops[0], t);
        GoneForever(s2, ops[1..], t);
        GoneFaults(s2, ops[1..], t, c, now, millis);
      }
    }
  }

  lemma GoneFaults(s: State, ops: seq<Op>, t: nat, c: nat, now: nat, millis: nat)
    requires Legal(s, ops) && t !in Run(s, ops).tasks
    ensures Curr(Run(s, ops), c) == t ==> !Enabled(Run(s, ops), GoSleep(c, now, millis))
  {
    hide Run, Legal;
  }

  lemma WaitLosesEvent(s: State, c: nat)
    requires Inv(s) && Enabled(s, EndWait(c))
    ensures NoEvent(Apply(s, EndWait(c)), Curr(s, c))
  {
    hide Occ, OnCpu, Count, Places, Modes, History;
    CurrFacts(s, c);
  }

  // ----- exactly when sched_sleep has an event record -----

  /** The state before step `i`. */
  function StateAt(s: State, ops: seq<Op>, i: nat): State
    requires Legal(s, ops) && i <= |ops|
    decreases ops
  {
    if i == 0 then s else StateAt(Apply(s, ops[0]), ops[1..], i - 1)
  }

  /** The step creates `t`, or lets it wait or replace its image. */
  predicate Gives(s: State, op: Op, t: nat)
  {
    ((op.Boot? || op.Spawn? || op.Fork?) && t == s.lastId + 1) || Renews(s, op, t)
  }

  /** The step ends a wait of `t`. */
  predicate Drops(s: State, op: Op, t: nat) { op.EndWait? && Curr(s, op.cpu) == t }

  predicate NoDrops(s: State, ops: seq<Op>, from: nat, t: nat)
    requires Legal(s, ops)
  {
    forall j | from <= j < |ops| :: !Drops(StateAt(s, ops, j), ops[j], t)
  }

  /** The last creation, wait or replacement of `t` is later than its last end of a wait. */
  predicate HasRecord(s: State, ops: seq<Op>, t: nat)
    requires Legal(s, ops)
  {
    exists i :: 0 <= i < |ops| && Gives(StateAt(s, ops, i), ops[i], t) && NoDrops(s, ops, i + 1, t)
  }

  predicate Alive(s: State, t: nat) { Worker(s, t) && T(s, t).mode != Zombie }

  predicate Recorded(s: State, t: nat) { t in s.tasks && T(s, t).ev.Some? }

  lemma NoDropsFirst(s: State, ops: seq<Op>, from: nat, t: nat)
    requires Legal(s, ops) && ops != []
    ensures NoDrops(s, ops, from + 1, t) <==> NoDrops(Apply(s, ops[0]), ops[1..], from, t)
    ensures NoDrops(s, ops, 0, t) <==> !Drops(s, ops[0], t) && NoDrops(Apply(s, ops[0]), ops[1..], 0, t)
  {
    hide Apply, Enabled, Drops;
    var s2, rest := Apply(s, ops[0]), ops[1..];
    assert forall j | 0 <= j < |rest| :: StateAt(s, ops, j + 1) == StateAt(s2, rest, j) && ops[j + 1] == rest[j];
    if NoDrops(s, ops, from + 1, t) {
      forall j | from <= j < |rest| ensures !Drops(StateAt(s2, rest, j), rest[j], t) {
        assert !Drops(StateAt(s, ops, j + 1), ops[j + 1], t);
      }
    }
    if NoDrops(s2, rest, from, t) {
      forall j | from + 1 <= j < |ops| ensures !Drops(StateAt(s, ops, j), ops[j], t) {
        assert !Drops(StateAt(s2, rest, j - 1), rest[j - 1], t);
      }
    }
    if NoDrops(s, ops, 0, t) {
      assert !Drops(StateAt(s, ops, 0), ops[0], t);
      forall j | 0 <= j < |rest| ensures !Drops(StateAt(s2, rest, j), rest[j], t) {
        assert !Drops(StateAt(s, ops, j + 1), ops[j + 1], t);
      }
    }
    if !Drops(s, ops[0], t) && NoDrops(s2, rest, 0, t) {
      forall j | 0 <= j < |ops| ensures !Drops(StateAt(s, ops, j), ops[j], t) {
        assert j > 0 ==> !Drops(StateAt(s2, rest, j - 1), rest[j - 1], t);
      }
    }
  }

  lemma HasRecordFirst(s: State, ops: seq<Op>, t: nat)
    requires Legal(s, ops) && ops != []
    ensures HasRecord(s, ops, t)
      <==> (Gives(s, ops[0], t) && NoDrops(Apply(s, ops[0]), ops[1..], 0, t)) || HasRecord(Apply(s, ops[0]), ops[1..], t)
  {
    hide Apply, Enabled, Drops, Gives, NoDrops;
    var s2, rest := Apply(s, ops[0]), ops[1..];
    NoDropsFirst(s, ops, 0, t);
    if HasRecord(s, ops, t) {
      var i :| 0 <= i < |ops| && Gives(StateAt(s, ops, i), ops[i], t) && NoDrops(s, ops, i + 1, t);
      if i > 0 {
        NoDropsFirst(s, ops, i, t);
        assert Gives(StateAt(s2, rest, i - 1), rest[i - 1], t);
      }
    }
    if Gives(s, ops[0], t) && NoDrops(s2, rest, 0, t) {
      assert Gives(StateAt(s, ops, 0), ops[0], t) && NoDrops(s, ops, 0 + 1, t);
    }
    if HasRecord(s2, rest, t) {
      var i :| 0 <= i < |rest| && Gives(StateAt(s2, rest, i), rest[i], t) && NoDrops(s2, rest, i + 1, t);
      NoDropsFirst(s, ops, i + 1, t);
      assert Gives(StateAt(s, ops, i + 1), ops[i + 1], t) && NoDrops(s, ops, (i + 1) + 1, t);
    }
  }

  lemma StepRecord(s: State, op: Op, t: nat)
    requires Inv(s) && Enabled(s, op) && t !in s.idle
    ensures Alive(Apply(s, op), t) ==> (Recorded(Apply(s, op), t) <==> Gives(s, op, t) || (Recorded(s, t) && !Drops(s, op, t)))
    ensures !Alive(s, t) && t <= s.lastId ==> !Alive(Apply(s, op), t) && t <= Apply(s, op).lastId
    ensures t > Apply(s, op).lastId ==> !Recorded(Apply(s, op), t)
  {
    hide Occ, OnCpu, Count, Again, Places, Modes, Inv;
    StepInv(s, op);
    IdsBounded(s);
    IdsBounded(Apply(s, op));
    if op.Tick? {
      TickRecord(s, op.cpu, op.now, t);
    } else if op.Reap? {
      ReapZombie(s, op.cpu, op.tid);
    }
  }

  lemma IdsBounded(s: State)
    requires Inv(s)
    ensures forall t | t in s.tasks :: t <= s.lastId
  {
  }

  lemma ReapZombie(s: State, c: nat, t: nat)
    requires Inv(s)
    ensures t in s.tasks && t !in Reaped(s, c, t).tasks ==> T(s, t).mode == Zombie
  {
  }

  lemma TickRecord(s: State, c: nat, now: nat, t: nat)
    requires Inv(s) && Cpu(s, c) && t !in s.idle
    ensures var e := Again(s, c, now);
      (Recorded(e, t) <==> Recorded(s, t)) && (Alive(e, t) <==> Alive(s, t)) && e.lastId == s.lastId && e.idle == s.idle
  {
    hide Occ, OnCpu, Count, Places, History;
    TickKeys(s, c, now);
    ModesKnown(s, c);
  }

  /** Tasks that can be taken are alive. */
  lemma ModesKnown(s: State, c: nat)
    requires Inv(s)
    ensures forall u | u in Queue(s, c) :: u in s.tasks && T(s, u).mode != Zombie
  {
    hide Occ, OnCpu, Count;
    forall u | u in Queue(s, c) ensures u in s.tasks && T(s, u).mode != Zombie {
      Elsewhere(s, u);
      if Current(s, c) {
        CurrFacts(s, c);
      }
    }
  }

  lemma {:induction false} DeadStays(s: State, ops: seq<Op>, t: nat)
    requires Inv(s) && Legal(s, ops) && t !in s.idle && !Alive(s, t) && t <= s.lastId
    ensures !Alive(Run(s, ops), t)
    decreases ops
  {
    hide Inv, Enabled, Apply, Alive;
    if ops != [] {
      StepInv(s, ops[0]);
      StepRecord(s, ops[0], t);
      IdleFixed(s, ops[0]);
      DeadStays(Apply(s, ops[0]), ops[1..], t);
    }
  }

  lemma IdleFixed(s: State, op: Op)
    requires Enabled(s, op)
    ensures Apply(s, op).idle == s.idle && Apply(s, op).lastId >= s.lastId
  {
  }

  lemma {:induction false} RecordKept(s: State, ops: seq<Op>, t: nat)
    requires Inv(s) && Legal(s, ops) && t !in s.idle && Alive(Run(s, ops), t)
    ensures Recorded(Run(s, ops), t) <==> HasRecord(s, ops, t) || (Recorded(s, t) && NoDrops(s, ops, 0, t))
    decreases ops
  {
    hide Inv, Enabled, Apply, Alive, Recorded, Gives, Drops, HasRecord, NoDrops;
    if ops == [] {
      assert NoDrops(s, ops, 0, t) && !HasRecord(s, ops, t) by { NoSteps(s, t); }
    } else {
      var s2, rest := Apply(s, ops[0]), ops[1..];
      StepInv(s, ops[0]);
      StepRecord(s, ops[0], t);
      IdleFixed(s, ops[0]);
      RecordKept(s2, rest, t);
      HasRecordFirst(s, ops, t);
      NoDropsFirst(s, ops, 0, t);
      if !Alive(s2, t) {
        if t <= s2.lastId {
          DeadStays(s2, rest, t);
        } else {
          NotYet(s, ops[0], t);
        }
      }
    }
  }

  lemma NoSteps(s: State, t: nat)
    ensures NoDrops(s, [], 0, t) && !HasRecord(s, [], t)
  {
  }

  /** Nothing concerns an id that is not given out yet. */
  lemma NotYet(s: State, op: Op, t: nat)
    requires Inv(s) && Enabled(s, op) && t > Apply(s, op).lastId
    ensures !Recorded(s, t) && !Gives(s, op, t)
  {
    hide Occ, OnCpu, Count, Places, Modes;
    IdleFixed(s, op);
    if op.WaitEvent? || op.Exec? {
      CurrFacts(s, op.cpu);
    }
  }

  /** Over every run from the start: a task that acts can go to sleep exactly if its last creation, wait for an event or
      replacement is later than the last end of a wait; otherwise `sched_sleep` dereferences null. */
  lemma SleepEnabled(s: State, ops: seq<Op>, c: nat, now: nat, millis: nat)
    requires Initial(s) && Legal(s, ops) && Acting(Run(s, ops), c)
    ensures Enabled(Run(s, ops), GoSleep(c, now, millis)) <==> HasRecord(s, ops, Curr(Run(s, ops), c))
  {
    hide Initial, Run, Legal, HasRecord, NoDrops, Occ, OnCpu, Count, Places;
    var e := Run(s, ops);
    InitialInv(s);
    RunInv(s, ops);
    CurrFacts(e, c);
    IdleRun(s, ops);
    RecordKept(s, ops, Curr(e, c));
    InitialNone(s, Curr(e, c));
  }

  lemma {:induction false} IdleRun(s: State, ops: seq<Op>)
    requires Legal(s, ops)
    ensures Run(s, ops).idle == s.idle
    decreases ops
  {
    hide Apply, Enabled;
    if ops != [] {
      IdleFixed(s, ops[0]);
      IdleRun(Apply(s, ops[0]), ops[1..]);
    }
  }

  lemma InitialNone(s: State, t: nat)
    requires Initial(s) && t !in s.idle
    ensures !Recorded(s, t)
  {
  }

  // ----- spawned tasks lead no group -----

  /** Over every run: a spawned task carries the id of its parent as its group, never its own. */
  lemma SpawnedNeverLeads(s: State, c: nat, ops: seq<Op>)
    requires Inv(s) && Enabled(s, Spawn(c)) && Legal(Apply(s, Spawn(c)), ops)
    ensures var e := Run(Apply(s, Spawn(c)), ops); var x := s.lastId + 1;
      x in e.tasks ==> T(e, x).tgid == Curr(s, c) && T(e, x).tgid != x
  {
    hide Occ, OnCpu, Count, Run, Legal, Modes;
    var s1, x := Apply(s, Spawn(c)), s.lastId + 1;
    StepInv(s, Spawn(c));
    CurrFacts(s, c);
    if x in Run(s1, ops).tasks {
      GroupKept(s1, ops, x);
    }
  }

  /** So the wait of a spawned task for a task that it spawns itself never succeeds, in any run. */
  lemma GrandchildLost(s: State, c: nat, ops: seq<Op>, d: nat, more: seq<Op>, b: nat)
    requires Inv(s) && Enabled(s, Spawn(c)) && Legal(Apply(s, Spawn(c)), ops)
    requires var m := Run(Apply(s, Spawn(c)), ops);
      Enabled(m, Spawn(d)) && Curr(m, d) == s.lastId + 1 && Legal(Apply(m, Spawn(d)), more)
    requires var m := Run(Apply(s, Spawn(c)), ops); var e := Run(Apply(m, Spawn(d)), more);
      Enabled(e, Reap(b, m.lastId + 1)) && Curr(e, b) == s.lastId + 1 && m.lastId + 1 in e.cleanup
    ensures var m := Run(Apply(s, Spawn(c)), ops); var e := Run(Apply(m, Spawn(d)), more);
      Apply(e, Reap(b, m.lastId + 1)) == e
  {
    hide Apply, Enabled, Run, Legal, Inv;
    var s1 := Apply(s, Spawn(c));
    var m := Run(s1, ops);
    StepInv(s, Spawn(c));
    RunInv(s1, ops);
    SpawnedNeverLeads(s, c, ops);
    assert Curr(m, d) in m.tasks by { ActingKnown(m, d); }
    SpawnedWait(m, d, more, b);
  }

  lemma ActingKnown(s: State, c: nat)
    requires Inv(s) && Enabled(s, Spawn(c))
    ensures Curr(s, c) in s.tasks
  {
    hide Occ, OnCpu, Count;
    CurrFacts(s, c);
  }

  // ----- the window between the two halves of sched_wait_event -----

  predicate Waits(s: State, t: nat, k: Kind)
  {
    Worker(s, t) && T(s, t).mode == Waiting && T(s, t).ev.Some? && T(s, t).ev.val.kind == k && k != Sleep
  }

  lemma StepWaits(s: State, op: Op, t: nat, k: Kind, c: nat)
    requires Inv(s) && Enabled(s, op) && Waits(s, t, k) && (op.Resume? ==> op.ev.kind != k)
    ensures Waits(Apply(s, op), t, k)
    ensures t in s.active ==> t in Apply(s, op).active
    ensures On(s, c, t) ==> if op.Tick? && op.cpu == c then t in Apply(s, op).active else On(Apply(s, op), c, t)
  {
    hide Occ, OnCpu, Count, Places, Again;
    if op.Tick? {
      TickWaits(s, op.cpu, op.now, t, k, c);
    }
  }

  lemma TickWaits(s: State, d: nat, now: nat, t: nat, k: Kind, c: nat)
    requires Inv(s) && Cpu(s, d) && Waits(s, t, k)
    ensures Waits(Again(s, d, now), t, k)
    ensures t in s.active ==> t in Again(s, d, now).active
    ensures On(s, c, t) ==> if d == c then t in Again(s, d, now).active else On(Again(s, d, now), c, t)
  {
    hide Occ, OnCpu, Count, Places, Modes, History;
    assert !Avail(T(s, t), now);
    var q := Queue(s, d);
    var i := Pick(s, q, now);
    if i < |q| {
      assert t in q ==> t in Drop(q, i) by { StillIn(q, i, t); }
    }
  }

  lemma StillIn(q: seq<nat>, i: nat, t: nat)
    requires i < |q| && q[i] != t
    ensures t in q ==> t in Drop(q, i)
  {
    if t in q {
      var j :| 0 <= j < |q| && q[j] == t;
      assert Drop(q, i)[if j < i then j else j - 1] == t;
    }
  }

  lemma NotListed(s: State, c: nat, t: nat)
    requires Inv(s)
    ensures On(s, c, t) ==> t !in s.active
  {
    Elsewhere(s, t);
  }

  predicate TicksOn(ops: seq<Op>, c: nat) { exists i :: 0 <= i < |ops| && ops[i].Tick? && ops[i].cpu == c }

  lemma {:induction false} WaitsRun(s: State, ops: seq<Op>, t: nat, k: Kind, c: nat)
    requires Inv(s) && Legal(s, ops) && Waits(s, t, k) && (t in s.active || On(s, c, t))
    requires forall i | 0 <= i < |ops| && ops[i].Resume? :: ops[i].ev.kind != k
    ensures Waits(Run(s, ops), t, k)
    ensures if t in s.active || TicksOn(ops, c) then t in Run(s, ops).active else On(Run(s, ops), c, t)
    decreases ops
  {
    hide Inv, Enabled, Apply, Waits, On;
    if ops != [] {
      var rest := ops[1..];
      StepInv(s, ops[0]);
      StepWaits(s, ops[0], t, k, c);
      NotListed(Apply(s, ops[0]), c, t);
      WaitsRun(Apply(s, ops[0]), rest, t, k, c);
      if TicksOn(ops, c) && !(ops[0].Tick? && ops[0].cpu == c) {
        var i :| 0 <= i < |ops| && ops[i].Tick? && ops[i].cpu == c;
        assert rest[i - 1] == ops[i];
      }
      if TicksOn(rest, c) {
        var i :| 0 <= i < |rest| && rest[i].Tick? && rest[i].cpu == c;
        assert ops[i + 1] == rest[i];
      }
    }
  }

  /** `sched_wait_event` gives up the lock before it calls `sched_again`: an event of the awaited kind wakes the waiter
      exactly if a tick of its processor came in between; before that the event is lost. */
  lemma WakeNeedsTick(s: State, c: nat, ev: Event, ops: seq<Op>, pub: Event)
    requires Inv(s) && Enabled(s, WaitEvent(c, ev)) && ev.kind != Sleep && Legal(Apply(s, WaitEvent(c, ev)), ops)
    requires pub.kind == ev.kind && forall i | 0 <= i < |ops| && ops[i].Resume? :: ops[i].ev.kind != ev.kind
    ensures var e := Run(Apply(s, WaitEvent(c, ev)), ops);
      T(Apply(e, Resume(pub)), Curr(s, c)).mode == Ready <==> TicksOn(ops, c)
  {
    hide Occ, OnCpu, Count, Places, Modes, History, Run, Legal, TicksOn;
    var t, s1 := Curr(s, c), Apply(s, WaitEvent(c, ev));
    CurrFacts(s, c);
    StepInv(s, WaitEvent(c, ev));
    WaitsRun(s1, ops, t, ev.kind, c);
    var e := Run(s1, ops);
    RunInv(s1, ops);
    Elsewhere(e, t);
  }

  // ----- a run that ends with a task that cannot sleep -----

  const KEY: Event := Event(Keyboard, 7, 0)

  function Idle(m: Mode): Task { Task(1, m, Some(BLANK), 0) }

  /** One processor, its idle task 1 and a task 2. */
  function Two(r: Option<nat>, active: seq<nat>, made: seq<nat>, m: Mode, k: Task): State
  {
    State([1], [r], active, [], made, map[1 := Idle(m), 2 := k], 2, map[], [])
  }

  function Worker2(m: Mode, ev: Option<Event>): Task { Task(2, m, ev, 0) }

  const START: State := State([1], [None], [], [], [], map[1 := Idle(Ready)], 1, map[], [])

  const STORY: seq<Op> :=
    [Boot, Add(2), Tick(0, 0), WaitEvent(0, KEY), Tick(0, 0), Resume(KEY), Tick(0, 0), EndWait(0)]

  lemma StoryFirst()
    ensures Enabled(START, Boot) && Apply(START, Boot) == Two(None, [], [2], Ready, Worker2(Ready, Some(BLANK)))
    ensures var s := Two(None, [], [2], Ready, Worker2(Ready, Some(BLANK)));
      Enabled(s, Add(2)) && Apply(s, Add(2)) == Two(None, [2], [], Ready, Worker2(Ready, Some(BLANK)))
  {
    assert IndexOf([2], 2) == 0 && Drop([2], 0) == [];
  }

  lemma StoryTake(m: Mode, r: Option<nat>, ev: Event)
    requires r == None || r == Some(1)
    ensures var s := Two(r, [2], [], m, Worker2(Ready, Some(ev)));
      Enabled(s, Tick(0, 0)) && Apply(s, Tick(0, 0)) == Two(Some(2), [], [], m, Worker2(Running, Some(ev)))
  {
    var s := Two(r, [2], [], m, Worker2(Ready, Some(ev)));
    assert Queue(s, 0) == [2] && Pick(s, [2], 0) == 0 && Drop([2], 0) + [] == [];
    assert Again(s, 0, 0).tasks == Two(Some(2), [], [], m, Worker2(Running, Some(ev))).tasks;
  }

  lemma StoryWait(m: Mode)
    ensures var s := Two(Some(2), [], [], m, Worker2(Running, Some(BLANK)));
      Enabled(s, WaitEvent(0, KEY)) && Apply(s, WaitEvent(0, KEY)) == Two(Some(2), [], [], m, Worker2(Waiting, Some(KEY)))
  {
  }

  lemma StoryRest(m: Mode)
    ensures var s := Two(Some(2), [], [], m, Worker2(Waiting, Some(KEY)));
      Enabled(s, Tick(0, 0)) && Apply(s, Tick(0, 0)) == Two(Some(1), [2], [], Running, Worker2(Waiting, Some(KEY)))
  {
    var s := Two(Some(2), [], [], m, Worker2(Waiting, Some(KEY)));
    assert Queue(s, 0) == [2] && Pick(s, [2], 0) == 1;
    assert Again(s, 0, 0).tasks == Two(Some(1), [2], [], Running, Worker2(Waiting, Some(KEY))).tasks;
  }

  lemma StoryWake()
    ensures var s := Two(Some(1), [2], [], Running, Worker2(Waiting, Some(KEY)));
      Enabled(s, Resume(KEY)) && Apply(s, Resume(KEY)) == Two(Some(1), [2], [], Running, Worker2(Ready, Some(KEY)))
    ensures var s := Two(Some(2), [], [], Running, Worker2(Running, Some(KEY)));
      Enabled(s, EndWait(0)) && Apply(s, EndWait(0)) == Two(Some(2), [], [], Running, Worker2(Running, None))
  {
    var s := Two(Some(1), [2], [], Running, Worker2(Waiting, Some(KEY)));
    assert Resumed(s, KEY).tasks == Two(Some(1), [2], [], Running, Worker2(Ready, Some(KEY))).tasks;
  }

  /** The second half: the wait for the key and what comes after it. */
  lemma StoryTail()
    ensures var s3 := Two(Some(2), [], [], Ready, Worker2(Running, Some(BLANK)));
      Legal(s3, STORY[3..]) && Run(s3, STORY[3..]) == Two(Some(2), [], [], Running, Worker2(Running, None))
  {
    hide Apply, Enabled, Two, Worker2;
    StoryWait(Ready);
    StoryRest(Ready);
    StoryWake();
    StoryTake(Running, Some(1), KEY);
    var s8 := Two(Some(2), [], [], Running, Worker2(Running, None));
    StoryRun(Two(Some(2), [], [], Running, Worker2(Running, Some(KEY))), [EndWait(0)], s8);
    StoryRun(Two(Some(1), [2], [], Running, Worker2(Ready, Some(KEY))), [Tick(0, 0), EndWait(0)], s8);
    StoryRun(Two(Some(1), [2], [], Running, Worker2(Waiting, Some(KEY))), [Resume(KEY), Tick(0, 0), EndWait(0)], s8);
    StoryRun(Two(Some(2), [], [], Ready, Worker2(Waiting, Some(KEY))), [Tick(0, 0), Resume(KEY), Tick(0, 0), EndWait(0)], s8);
    StoryRun(Two(Some(2), [], [], Ready, Worker2(Running, Some(BLANK))), STORY[3..], s8);
  }

  /** A task is created, waits for a key, gets it and goes on: it acts, and cannot sleep. */
  lemma SleepFaultReached(now: nat, millis: nat)
    ensures Initial(START) && Legal(START, STORY)
    ensures var e := Run(START, STORY); Acting(e, 0) && Curr(e, 0) == 2 && !Enabled(e, GoSleep(0, now, millis))
  {
    hide Apply, Enabled, Two, Worker2;
    var b := Worker2(Ready, Some(BLANK));
    StoryFirst();
    StoryTake(Ready, None, BLANK);
    StoryTail();
    var s8 := Two(Some(2), [], [], Running, Worker2(Running, None));
    StoryRun(Two(None, [2], [], Ready, b), STORY[2..], s8);
    StoryRun(Two(None, [], [2], Ready, b), STORY[1..], s8);
    StoryRun(START, STORY, s8);
    NoSleep(s8, now, millis);
  }

  lemma StoryRun(s: State, ops: seq<Op>, e: State)
    requires ops != [] && Enabled(s, ops[0])
    requires if |ops| == 1 then Apply(s, ops[0]) == e else Legal(Apply(s, ops[0]), ops[1..]) && Run(Apply(s, ops[0]), ops[1..]) == e
    ensures Legal(s, ops) && Run(s, ops) == e
  {
    hide Apply, Enabled;
    if |ops| == 1 {
      assert ops[1..] == [];
    }
  }

  lemma NoSleep(s: State, now: nat, millis: nat)
    requires s == Two(Some(2), [], [], Running, Worker2(Running, None))
    ensures Acting(s, 0) && Curr(s, 0) == 2 && !Enabled(s, GoSleep(0, now, millis))
  {
  }
}
