/** The scheduler of kernel/src/proc/sched.c as a state machine: one step per critical section. */
module SchedModel {
  import opened Base

  datatype Kind = Unknown | Keyboard | Sleep

  datatype Event = Event(kind: Kind, data: nat, stamp: nat)

  datatype Mode = Ready | Running | Waiting | Zombie

  /** `ev` is the `wakeup_event` pointer: `None` is null. */
  datatype Task = Task(tgid: nat, mode: Mode, ev: Option<Event>, code: int)

  /** `made` holds tasks that are created but not yet added. `exited` and `reaped` are the history of exit codes. */
  datatype State = State(
    idle: seq<nat>, running: seq<Option<nat>>, active: seq<nat>, cleanup: seq<nat>, made: seq<nat>,
    tasks: map<nat, Task>, lastId: nat, exited: map<nat, int>, reaped: seq<(nat, int)>)

  const BLANK: Event := Event(Unknown, 0, 0)

  const WORD: nat := 0x1_0000_0000_0000_0000

  function T(s: State, t: nat): Task
  {
    if t in s.tasks then s.tasks[t] else Task(0, Zombie, None, 0)
  }

  function Set(s: State, t: nat, k: Task): State
  {
    s.(tasks := s.tasks[t := k])
  }

  // ----- choosing the next task -----

  /** `__active_task_next_available` may take the task: it is ready, or it sleeps and its time has come. */
  predicate Avail(k: Task, now: nat)
  {
    || k.mode == Ready
    || (k.mode == Waiting && k.ev.Some? && k.ev.val.kind == Sleep && 0 < k.ev.val.stamp <= now)
  }

  /** The first position from which a task may be taken, or the length. */
  function Pick(s: State, q: seq<nat>, now: nat): (i: nat)
    ensures i <= |q| && (i < |q| ==> Avail(T(s, q[i]), now))
    ensures forall j | 0 <= j < i :: !Avail(T(s, q[j]), now)
  {
    if q == [] then 0 else if Avail(T(s, q[0]), now) then 0 else 1 + Pick(s, q[1..], now)
  }

  function Taken(k: Task): Task
  {
    if k.mode == Waiting && k.ev.Some? then k.(mode := Running, ev := Some(k.ev.val.(kind := Unknown, stamp := 0)))
    else k.(mode := Running)
  }

  function Drop(q: seq<nat>, i: nat): seq<nat>
    requires i < |q|
  {
    q[..i] + q[i + 1..]
  }

  // ----- the steps -----

  predicate Cpu(s: State, c: nat) { c < |s.running| && c < |s.idle| }

  /** A task other than the idle task is current on `c`. */
  predicate Current(s: State, c: nat)
  {
    Cpu(s, c) && s.running[c].Some? && s.running[c].val != s.idle[c]
  }

  /** The current task is executing, so that it may call the kernel. */
  predicate Acting(s: State, c: nat)
  {
    Current(s, c) && T(s, s.running[c].val).mode == Running
  }

  function Curr(s: State, c: nat): nat
  {
    if Cpu(s, c) && s.running[c].Some? then s.running[c].val else 0
  }

  /** The list that `sched_again` searches: a current task that no longer runs has joined its end. */
  function Queue(s: State, c: nat): seq<nat>
  {
    if Current(s, c) && !Acting(s, c) then s.active + [Curr(s, c)] else s.active
  }

  function Again(s: State, c: nat, now: nat): State
    requires Cpu(s, c)
  {
    var q := Queue(s, c);
    var i := Pick(s, q, now);
    if i < |q| then Switch(s, c, q, i) else Stay(s, c, q)
  }

  function Switch(s: State, c: nat, q: seq<nat>, i: nat): State
    requires Cpu(s, c) && i < |q|
  {
    var s1 := if Acting(s, c) then Set(s, Curr(s, c), T(s, Curr(s, c)).(mode := Ready)) else s;
    var back := if Acting(s, c) then [Curr(s, c)] else [];
    Set(s1, q[i], Taken(T(s, q[i]))).(running := s.running[c := Some(q[i])], active := Drop(q, i) + back)
  }

  function Stay(s: State, c: nat, q: seq<nat>): State
    requires Cpu(s, c)
  {
    var n := if Acting(s, c) then Curr(s, c) else s.idle[c];
    Set(s, n, T(s, n).(mode := Running)).(running := s.running[c := Some(n)], active := q)
  }

  datatype Op =
    | Boot
    | Spawn(cpu: nat)
    | Fork(cpu: nat)
    | Add(tid: nat)
    | Tick(cpu: nat, now: nat)
    | GoSleep(cpu: nat, now: nat, millis: nat)
    | WaitEvent(cpu: nat, ev: Event)
    | EndWait(cpu: nat)
    | Resume(ev: Event)
    | Exec(cpu: nat)
    | Exit(cpu: nat, code: int)
    | Reap(cpu: nat, tid: nat)

  /** When the step can happen; `GoSleep` and `EndWait` dereference the event pointer. */
  predicate Enabled(s: State, op: Op)
  {
    match op
    case Boot => true
    case Add(t) => t in s.made
    case Tick(c, _) => Cpu(s, c)
    case Resume(_) => true
    case GoSleep(c, _, _) => Acting(s, c) && T(s, Curr(s, c)).ev.Some?
    case EndWait(c) => Acting(s, c) && T(s, Curr(s, c)).ev.Some?
    case _ => Acting(s, op.cpu)
  }

  function Create(s: State, tgid: nat): State
  {
    Set(s, s.lastId + 1, Task(tgid, Ready, Some(BLANK), 0)).(lastId := s.lastId + 1, made := s.made + [s.lastId + 1])
  }

  function IndexOf(q: seq<nat>, t: nat): (i: nat)
    ensures i <= |q| && (i < |q| <==> t in q) && (i < |q| ==> q[i] == t)
  {
    if q == [] then 0 else if q[0] == t then 0 else 1 + IndexOf(q[1..], t)
  }

  function Insert(s: State, t: nat): State
    requires t in s.made
  {
    s.(made := Drop(s.made, IndexOf(s.made, t)), active := s.active + [t])
  }

  function Wakes(k: Task, ev: Event): bool
  {
    k.mode == Waiting && k.ev.Some? && k.ev.val.kind == ev.kind
  }

  function Woken(k: Task, ev: Event): Task
    requires k.ev.Some?
  {
    k.(mode := Ready, ev := Some(k.ev.val.(data := ev.data)))
  }

  /** `sched_resume_event`: every waiter of the kind in the active list becomes ready. */
  function Resumed(s: State, ev: Event): State
  {
    s.(tasks := map t | t in s.tasks :: if t in s.active && Wakes(s.tasks[t], ev) then Woken(s.tasks[t], ev) else s.tasks[t])
  }

  function Exited(s: State, c: nat, code: int): State
    requires Current(s, c)
  {
    var t := Curr(s, c);
    Set(s, t, T(s, t).(mode := Zombie, ev := None, code := code)).(
      cleanup := s.cleanup + [t], running := s.running[c := None], exited := s.exited[t := code])
  }

  /** Where `sched_wait` finds the zombie, or the length. */
  function Found(s: State, z: seq<nat>, tgid: nat, t: nat): (i: nat)
    ensures i <= |z| && (i < |z| ==> z[i] == t && T(s, t).tgid == tgid)
    ensures i < |z| <==> t in z && T(s, t).tgid == tgid
  {
    if z == [] then 0 else if T(s, z[0]).tgid == tgid && z[0] == t then 0 else 1 + Found(s, z[1..], tgid, t)
  }

  /** One search of `sched_wait`: the zombie is taken off the list and freed. */
  function Reaped(s: State, c: nat, t: nat): State
  {
    var i := Found(s, s.cleanup, T(s, Curr(s, c)).tgid, t);
    if i == |s.cleanup| then s
    else s.(cleanup := Drop(s.cleanup, i), tasks := s.tasks - {t}, reaped := s.reaped + [(t, T(s, t).code)])
  }

  function Apply(s: State, op: Op): State
    requires Enabled(s, op)
  {
    match op
    case Boot => Create(s, s.lastId + 1)
    case Spawn(c) => Create(s, Curr(s, c))
    case Fork(c) => Create(s, T(s, Curr(s, c)).tgid)
    case Add(t) => Insert(s, t)
    case Tick(c, now) => Again(s, c, now)
    case GoSleep(c, now, millis) =>
      var k := T(s, Curr(s, c));
      Set(s, Curr(s, c), k.(mode := Waiting, ev := Some(k.ev.val.(kind := Sleep, stamp := (now + millis) % WORD))))
    case WaitEvent(c, ev) => Set(s, Curr(s, c), T(s, Curr(s, c)).(mode := Waiting, ev := Some(ev)))
    case EndWait(c) => Set(s, Curr(s, c), T(s, Curr(s, c)).(ev := None))
    case Resume(ev) => Resumed(s, ev)
    case Exec(c) => Set(s, Curr(s, c), T(s, Curr(s, c)).(mode := Ready, ev := Some(BLANK)))
    case Exit(c, code) => Exited(s, c, code)
    case Reap(c, t) => Reaped(s, c, t)
  }

  // ----- the invariant -----

  /** How often `t` occurs in a list. */
  function Occ(q: seq<nat>, t: nat): (n: nat)
    ensures n > 0 <==> t in q
  {
    if q == [] then 0 else (if q[0] == t then 1 else 0) + Occ(q[1..], t)
  }

  lemma {:induction false} OccAppend(q: seq<nat>, x: nat, t: nat)
    ensures Occ(q + [x], t) == Occ(q, t) + (if x == t then 1 else 0)
  {
    if q != [] {
      OccAppend(q[1..], x, t);
      assert (q + [x])[1..] == q[1..] + [x];
    }
  }

  lemma {:induction false} OccDrop(q: seq<nat>, i: nat, t: nat)
    requires i < |q|
    ensures Occ(q, t) == Occ(Drop(q, i), t) + (if q[i] == t then 1 else 0)
  {
    if i == 0 {
      assert Drop(q, 0) == q[1..];
    } else {
      OccDrop(q[1..], i - 1, t);
      assert Drop(q, i) == [q[0]] + Drop(q[1..], i - 1);
      assert Drop(q, i)[1..] == Drop(q[1..], i - 1);
    }
  }

  predicate Runs(r: Option<nat>, i: nat, t: nat) { r == Some(t) && t != i }

  /** How many processors run `t`, not as their idle task. */
  function OnCpu(running: seq<Option<nat>>, idle: seq<nat>, t: nat): nat
    requires |running| == |idle|
  {
    if running == [] then 0 else (if Runs(running[0], idle[0], t) then 1 else 0) + OnCpu(running[1..], idle[1..], t)
  }

  lemma {:induction false} OnCpuUpdate(running: seq<Option<nat>>, idle: seq<nat>, c: nat, x: Option<nat>, t: nat)
    requires |running| == |idle| && c < |running|
    ensures OnCpu(running[c := x], idle, t) + (if Runs(running[c], idle[c], t) then 1 else 0)
      == OnCpu(running, idle, t) + (if Runs(x, idle[c], t) then 1 else 0)
  {
    if c == 0 {
      assert running[0 := x][1..] == running[1..];
    } else {
      OnCpuUpdate(running[1..], idle[1..], c - 1, x, t);
      assert running[c := x][1..] == running[1..][c - 1 := x];
    }
  }

  /** In how many places `t` is. */
  function Count(s: State, t: nat): nat
    requires |s.running| == |s.idle|
  {
    Occ(s.active, t) + Occ(s.cleanup, t) + Occ(s.made, t) + OnCpu(s.running, s.idle, t)
  }

  predicate Worker(s: State, t: nat) { t in s.tasks && t !in s.idle }

  /** Waiting tasks have an event to wait for. */
  predicate Awake(k: Task) { k.mode != Zombie && (k.mode == Waiting ==> k.ev.Some?) }

  ghost predicate Places(s: State)
  {
    && |s.running| == |s.idle|
    && (forall i | 0 <= i < |s.idle| :: s.idle[i] in s.tasks && T(s, s.idle[i]).mode != Zombie)
    && (forall t: nat :: Count(s, t) == if Worker(s, t) then 1 else 0)
  }

  predicate Modes(s: State)
  {
    && (forall t | t in s.active :: Awake(T(s, t)) && T(s, t).mode != Running)
    && (forall t | t in s.made :: T(s, t).mode == Ready)
    && (forall t | t in s.cleanup :: T(s, t).mode == Zombie)
    && (forall c | 0 <= c < |s.running| && Current(s, c) :: Awake(T(s, Curr(s, c))))
  }

  /** The task has ended with `code` and is forgotten. */
  predicate Gone(s: State, t: nat, code: int)
  {
    t !in s.tasks && t <= s.lastId && t in s.exited && s.exited[t] == code
  }

  predicate History(s: State)
  {
    && (forall t | t in s.tasks :: t <= s.lastId && (t in s.exited <==> T(s, t).mode == Zombie))
    && (forall t | t in s.tasks && t in s.exited :: T(s, t).code == s.exited[t])
    && (forall i | 0 <= i < |s.reaped| :: Gone(s, s.reaped[i].0, s.reaped[i].1))
    && (forall i, j | 0 <= i < j < |s.reaped| :: s.reaped[i].0 != s.reaped[j].0)
    && (forall t | t in s.exited :: t <= s.lastId)
  }

  ghost predicate Inv(s: State) { Places(s) && Modes(s) && History(s) }
}
