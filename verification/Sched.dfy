/** The scheduler's own code: lists and task records updated in place, one method per critical section. */
module Sched {
  import opened Base
  import opened SchedModel
  import opened SchedInv
  import opened SchedRun

  lemma ZombieKnown(s: State)
    requires Inv(s)
    ensures forall t | t in s.cleanup :: t in s.tasks && s.tasks[t].mode == Zombie && t in s.exited && s.tasks[t].code == s.exited[t]
  {
    forall t | t in s.cleanup
      ensures t in s.tasks && s.tasks[t].mode == Zombie && t in s.exited && s.tasks[t].code == s.exited[t]
    {
      Elsewhere(s, t);
    }
  }

  lemma ResumedIs(s: State, ev: Event, tasks: map<nat, Task>)
    requires tasks.Keys == s.tasks.Keys && forall t | t in tasks
      :: tasks[t] == if t in s.active && Wakes(s.tasks[t], ev) then Woken(s.tasks[t], ev) else s.tasks[t]
    ensures Resumed(s, ev) == s.(tasks := tasks)
  {
    assert Resumed(s, ev).tasks == tasks;
  }

  lemma FreshId(s: State)
    requires Inv(s)
    ensures s.lastId + 1 !in s.tasks
  {
  }

  lemma {:induction false} FoundIs(s: State, z: seq<nat>, tgid: nat, t: nat, i: nat)
    requires i <= |z| && forall j | 0 <= j < i :: !(z[j] == t && T(s, z[j]).tgid == tgid)
    requires i < |z| ==> z[i] == t && T(s, z[i]).tgid == tgid
    ensures Found(s, z, tgid, t) == i
  {
    if i > 0 {
      assert z[0] in z;
      FoundIs(s, z[1..], tgid, t, i - 1);
    }
  }

  /** One search of `sched_wait` that finds the zombie at position `i`, or nothing. */
  lemma ReapIs(s: State, c: nat, t: nat, i: nat)
    requires Inv(s) && Enabled(s, Reap(c, t)) && i <= |s.cleanup|
    requires forall j | 0 <= j < i :: !(s.cleanup[j] == t && T(s, s.cleanup[j]).tgid == T(s, Curr(s, c)).tgid)
    requires i < |s.cleanup| ==> s.cleanup[i] == t && T(s, s.cleanup[i]).tgid == T(s, Curr(s, c)).tgid
    ensures i == |s.cleanup| ==> Apply(s, Reap(c, t)) == s
    ensures i == |s.cleanup| ==> !(t in s.cleanup && T(s, t).tgid == T(s, Curr(s, c)).tgid)
    ensures i < |s.cleanup| ==> t in s.tasks && t !in Drop(s.cleanup, i)
    ensures i < |s.cleanup| ==>
      Apply(s, Reap(c, t)) == s.(cleanup := Drop(s.cleanup, i), tasks := s.tasks - {t}, reaped := s.reaped + [(t, T(s, t).code)])
  {
    hide Inv, Occ, OnCpu;
    FoundIs(s, s.cleanup, T(s, Curr(s, c)).tgid, t, i);
    StepInv(s, Reap(c, t));
    if i < |s.cleanup| {
      ZombieKnown(s);
      Unlisted(Apply(s, Reap(c, t)), t);
    }
  }

  lemma Unlisted(s: State, t: nat)
    requires Inv(s)
    ensures t !in s.tasks ==> t !in s.cleanup
    ensures t in s.active ==> t !in s.made
  {
    Elsewhere(s, t);
  }

  /** The record of a task after event `ev` was published: a waiter of the kind in the active list is ready and has the
      data, any other task is as before. */
  predicate Published(k: Task, listed: bool, ev: Event, k2: Task)
  {
    if listed && k.mode == Waiting && k.ev.Some? && k.ev.val.kind == ev.kind
    then k2 == k.(mode := Ready, ev := Some(Event(ev.kind, ev.data, k.ev.val.stamp)))
    else k2 == k
  }

  predicate HasCurr(running: seq<Option<nat>>, cpu: nat, tasks: map<nat, Task>)
  {
    cpu < |running| && running[cpu].Some? && running[cpu].val in tasks
  }

  /** What `NextAvailable` leaves behind of list `q` and the task records of `s`. */
  predicate TakenOff(s: State, q: seq<nat>, now: nat, r: Option<nat>, active: seq<nat>, tasks: map<nat, Task>)
  {
    var i := Pick(s, q, now);
    if i < |q| then
      r == Some(q[i]) && active == Drop(q, i) && tasks == s.tasks[q[i] := Taken(T(s, q[i])).(mode := T(s, q[i]).mode)]
    else
      r == None && active == q && tasks == s.tasks
  }

  /** A ready task is taken as it is; a sleeper is taken once its time has come, and loses kind and deadline. */
  predicate TookDue(k: Task, now: nat, k2: Task)
  {
    || (k.mode == Ready && k2 == k)
    || (k.mode == Waiting && k.ev.Some? && k.ev.val.kind == Sleep && 0 < k.ev.val.stamp <= now
        && k2 == k.(ev := Some(Event(Unknown, k.ev.val.data, 0))))
  }

  lemma NextKnown(s: State, q: seq<nat>, now: nat, r: Option<nat>, active: seq<nat>, tasks: map<nat, Task>)
    requires TakenOff(s.(active := q), q, now, r, active, tasks)
    ensures r.Some? ==> r.val in tasks && r.val in q
    ensures tasks.Keys >= s.tasks.Keys
  {
  }

  /** What `sched_again` makes of the list and the records that `NextAvailable` leaves. */
  function Settle(s: State, c: nat, busy: bool, r: Option<nat>, active: seq<nat>, tasks: map<nat, Task>): State
    requires Cpu(s, c) && (busy ==> Curr(s, c) in tasks) && s.idle[c] in tasks && (r.Some? ==> r.val in tasks)
  {
    var curr := Curr(s, c);
    var n := if r.Some? then r.val else if busy then curr else s.idle[c];
    var t2 := if r.Some? && busy then tasks[curr := tasks[curr].(mode := Ready)] else tasks;
    s.(running := s.running[c := Some(n)], active := active + (if r.Some? && busy then [curr] else []),
       tasks := t2[n := t2[n].(mode := Running)])
  }

  /** The updates of `sched_again`, taken together, are the specified step. */
  lemma AgainDone(s: State, c: nat, now: nat, q: seq<nat>, busy: bool, r: Option<nat>, a: seq<nat>, t1: map<nat, Task>)
    requires Cpu(s, c) && q == Queue(s, c) && busy == Acting(s, c) && (busy ==> Curr(s, c) in s.tasks && Curr(s, c) !in q)
    requires s.idle[c] in s.tasks && (forall t | t in q :: t in s.tasks) && TakenOff(s.(active := q), q, now, r, a, t1)
    ensures (r.Some? ==> r.val in t1) && t1.Keys >= s.tasks.Keys && Settle(s, c, busy, r, a, t1) == Again(s, c, now)
  {
    hide Queue, Acting, Pick;
    PickSame(s, s.(active := q), q, now);
    assert Settle(s, c, busy, r, a, t1).tasks == Again(s, c, now).tasks;
  }

  lemma PickIs(s: State, q: seq<nat>, now: nat, i: nat)
    requires i <= |q| && (forall j | 0 <= j < i :: !Avail(T(s, q[j]), now)) && (i < |q| ==> Avail(T(s, q[i]), now))
    ensures Pick(s, q, now) == i
  {
  }

  lemma {:induction false} PickSame(s: State, s2: State, q: seq<nat>, now: nat)
    requires s2.tasks == s.tasks
    ensures Pick(s2, q, now) == Pick(s, q, now)
  {
    if q != [] {
      PickSame(s, s2, q[1..], now);
    }
  }

  lemma ActiveAwake(s: State)
    requires Inv(s)
    ensures forall t | t in s.active :: t in s.tasks && Awake(s.tasks[t])
  {
    forall t | t in s.active ensures t in s.tasks && Awake(s.tasks[t]) {
      Elsewhere(s, t);
    }
  }

  lemma CurrKnown(s: State, c: nat)
    requires Inv(s) && Current(s, c)
    ensures Curr(s, c) in s.tasks && Awake(s.tasks[Curr(s, c)]) && Curr(s, c) !in s.active
  {
    CurrFacts(s, c);
  }

  lemma ActingCurr(s: State, c: nat, t: nat)
    requires Inv(s) && Enabled(s, Reap(c, t))
    ensures HasCurr(s.running, c, s.tasks) && s.running[c].val == Curr(s, c)
  {
    hide Inv;
    CurrKnown(s, c);
  }

  lemma IdleKnownInv(s: State, c: nat)
    requires Inv(s) && c < |s.idle|
    ensures s.idle[c] in s.tasks
  {
  }

  class Scheduler {
    const idle: seq<nat>
    var running: seq<Option<nat>>
    var active: seq<nat>
    var cleanup: seq<nat>
    var made: seq<nat>
    var tasks: map<nat, Task>
    var lastId: nat
    ghost var exited: map<nat, int>
    ghost var reaped: seq<(nat, int)>

    ghost function View(): State
      reads this
    {
      State(idle, running, active, cleanup, made, tasks, lastId, exited, reaped)
    }

    ghost predicate Valid()
      reads this
    {
      Inv(View())
    }

    /** `sched_init` on `n` processors: one idle task each. */
    constructor (n: nat)
      ensures Initial(View()) && Valid() && |idle| == n
    {
      idle, running := seq(n, i => i + 1), seq(n, i => None);
      active, cleanup, made := [], [], [];
      tasks := map t: nat | 1 <= t <= n :: Task(t, Ready, Some(BLANK), 0);
      lastId, exited, reaped := n, map[], [];
      new;
      forall t | t in tasks ensures t in idle {
        assert idle[t - 1] == t;
      }
      InitialInv(View());
    }

    /** `__active_task_fifo_push`. */
    method FifoPush(t: nat)
      modifies `active
      ensures active == old(active) + [t]
    {
      active := active + [t];
    }

    /** `__active_task_next_available`: takes the first task off the list that may run. A sleeper whose time has come
        loses its deadline. Every waiting task in the list has an event record to look at. */
    method NextAvailable(now: nat) returns (r: Option<nat>)
      requires forall t | t in active :: t in tasks && Awake(tasks[t])
      modifies `active, `tasks
      ensures TakenOff(old(View()), old(active), now, r, active, tasks)
      ensures r.None? ==> active == old(active) && tasks == old(tasks) && forall t | t in active :: tasks[t].mode != Ready
      ensures r.None? ==> forall t | t in active && tasks[t].mode == Waiting && tasks[t].ev.Some? && tasks[t].ev.val.kind == Sleep
        :: tasks[t].ev.val.stamp == 0 || now < tasks[t].ev.val.stamp
      ensures r.Some? ==> r.val in old(active) && TookDue(old(tasks)[r.val], now, tasks[r.val])
    {
      hide Inv;
      var i := 0;
      while i < |active|
        invariant i <= |active| && active == old(active) && tasks == old(tasks)
        invariant forall j | 0 <= j < i :: !Avail(T(old(View()), active[j]), now)
      {
        var t := active[i];
        var k := tasks[t];
        if k.mode == Ready {
          break;
        } else if k.mode == Waiting {
          if k.ev.val.kind == Sleep && k.ev.val.stamp > 0 && now >= k.ev.val.stamp {
            tasks := tasks[t := k.(ev := Some(k.ev.val.(kind := Unknown, stamp := 0)))];
            active := Drop(active, i);
            PickIs(old(View()), old(active), now, i);
            return Some(t);
          }
        }
        i := i + 1;
      }
      PickIs(old(View()), old(active), now, i);
      if i == |active| {
        return None;
      }
      r := Some(active[i]);
      assert tasks == tasks[active[i] := tasks[active[i]]];
      active := Drop(active, i);
    }

    /** A current task that no longer runs joins the list. */
    method Requeue(cpu: nat) returns (busy: bool)
      requires Valid() && Cpu(View(), cpu)
      modifies `active
      ensures active == Queue(old(View()), cpu) && busy == Acting(old(View()), cpu)
      ensures busy ==> running[cpu].Some? && running[cpu].val in tasks && running[cpu].val !in active
      ensures forall t | t in active :: t in tasks && Awake(tasks[t])
    {
      hide Inv;
      ghost var s := View();
      ActiveAwake(s);
      var curr := running[cpu];
      busy := false;
      if curr.Some? && curr.val != idle[cpu] {
        CurrKnown(s, cpu);
        if tasks[curr.val].mode != Running {
          FifoPush(curr.val);
        } else {
          busy := true;
        }
      }
    }

    /** `sched_again`, the part under the lock. */
    method SchedAgain(cpu: nat, now: nat)
      requires Valid() && Cpu(View(), cpu)
      modifies `active, `tasks, `running
      ensures View() == Again(old(View()), cpu, now) && Valid()
    {
      hide Inv, Queue, Acting, Again, Awake;
      ghost var s := View();
      AgainInv(s, cpu, now);
      IdleKnownInv(s, cpu);
      var busy := Requeue(cpu);
      ghost var q := active;
      PickSame(s, View(), q, now);
      var curr := running[cpu];
      var next := NextAvailable(now);
      ghost var t1, a1 := tasks, active;
      NextKnown(s, q, now, next, active, tasks);
      var n: nat;
      if next.Some? {
        n := next.val;
        if busy {
          tasks := tasks[curr.val := tasks[curr.val].(mode := Ready)];
          FifoPush(curr.val);
        }
      } else {
        n := if busy then curr.val else idle[cpu];
      }
      tasks := tasks[n := tasks[n].(mode := Running)];
      running := running[cpu := Some(n)];
      AgainDone(s, cpu, now, q, busy, next, a1, t1);
      assert View() == Settle(s, cpu, busy, next, a1, t1);
    }

    /** `sched_sleep`, the part under the lock. */
    method GoToSleep(cpu: nat, now: nat, millis: nat)
      requires Valid() && Enabled(View(), GoSleep(cpu, now, millis))
      modifies `tasks
      ensures View() == Apply(old(View()), GoSleep(cpu, now, millis)) && Valid()
      ensures HasCurr(running, cpu, old(tasks)) && old(tasks)[running[cpu].val].ev.Some?
      ensures var t := running[cpu].val; var k := old(tasks)[t];
        tasks == old(tasks)[t := k.(mode := Waiting, ev := Some(Event(Sleep, k.ev.val.data, (now + millis) % WORD)))]
    {
      hide Inv;
      StepInv(View(), GoSleep(cpu, now, millis));
      CurrKnown(View(), cpu);
      var t := running[cpu].val;
      var e := tasks[t].ev.val;
      e := e.(kind := Sleep);
      e := e.(stamp := (now + millis) % WORD);
      tasks := tasks[t := tasks[t].(ev := Some(e))];
      tasks := tasks[t := tasks[t].(mode := Waiting)];
    }

    /** `sched_wait_event` up to the switch. */
    method BeginWait(cpu: nat, ev: Event)
      requires Valid() && Enabled(View(), WaitEvent(cpu, ev))
      modifies `tasks
      ensures View() == Apply(old(View()), WaitEvent(cpu, ev)) && Valid()
      ensures HasCurr(running, cpu, old(tasks))
      ensures var t := running[cpu].val; tasks == old(tasks)[t := old(tasks)[t].(mode := Waiting, ev := Some(ev))]
    {
      hide Inv;
      StepInv(View(), WaitEvent(cpu, ev));
      CurrKnown(View(), cpu);
      var t := running[cpu].val;
      tasks := tasks[t := tasks[t].(mode := Waiting)];
      tasks := tasks[t := tasks[t].(ev := Some(ev))];
    }

    /** `sched_wait_event` after the switch back: the data that came with the event. */
    method FinishWait(cpu: nat) returns (data: nat)
      requires Valid() && Enabled(View(), SchedModel.EndWait(cpu))
      modifies `tasks
      ensures View() == Apply(old(View()), SchedModel.EndWait(cpu)) && Valid()
      ensures HasCurr(running, cpu, old(tasks))
      ensures var t := running[cpu].val; old(tasks)[t].ev.Some? && data == old(tasks)[t].ev.val.data
      ensures var t := running[cpu].val; tasks == old(tasks)[t := old(tasks)[t].(ev := None)]
    {
      hide Inv;
      StepInv(View(), SchedModel.EndWait(cpu));
      CurrKnown(View(), cpu);
      var t := running[cpu].val;
      data := tasks[t].ev.val.data;
      tasks := tasks[t := tasks[t].(ev := None)];
    }

    /** `sched_resume_event`: the answer says whether anybody was woken. */
    method ResumeEvent(ev: Event) returns (any: bool)
      requires Valid()
      modifies `tasks
      ensures View() == Resumed(old(View()), ev) && Valid()
      ensures any <==> exists t :: t in active && Wakes(T(old(View()), t), ev)
      ensures tasks.Keys == old(tasks).Keys && forall t | t in tasks :: Published(old(tasks)[t], t in active, ev, tasks[t])
    {
      hide Inv, Resumed, Awake;
      ghost var s := View();
      ResumedInv(s, ev);
      ActiveAwake(s);
      any := false;
      var i := 0;
      while i < |active|
        invariant i <= |active| && tasks.Keys == s.tasks.Keys
        invariant forall t | t in tasks
          :: tasks[t] == if t in active[..i] && Wakes(s.tasks[t], ev) then Woken(s.tasks[t], ev) else s.tasks[t]
        invariant any <==> exists t :: t in active[..i] && Wakes(T(s, t), ev)
      {
        var t := active[i];
        assert active[..i + 1] == active[..i] + [t];
        if tasks[t].mode == Waiting {
          if tasks[t].ev.Some? {
            if tasks[t].ev.val.kind == ev.kind {
              tasks := tasks[t := Woken(tasks[t], ev)];
              any := true;
            }
          }
        }
        i := i + 1;
      }
      assert active[..i] == active;
      ResumedIs(s, ev, tasks);
    }

    /** `__sched_kernel_end`, the part under the lock. */
    method KernelEnd(cpu: nat, code: int)
      requires Valid() && Enabled(View(), Exit(cpu, code))
      modifies `tasks, `cleanup, `running, `exited
      ensures View() == Apply(old(View()), Exit(cpu, code)) && Valid()
      ensures HasCurr(old(running), cpu, old(tasks))
      ensures var t := old(running)[cpu].val;
        && tasks == old(tasks)[t := old(tasks)[t].(mode := Zombie, ev := None, code := code)]
        && cleanup == old(cleanup) + [t] && running == old(running)[cpu := None]
    {
      hide Inv;
      StepInv(View(), Exit(cpu, code));
      CurrKnown(View(), cpu);
      var t := running[cpu].val;
      tasks := tasks[t := tasks[t].(code := code)];
      tasks := tasks[t := tasks[t].(ev := None)];
      tasks := tasks[t := tasks[t].(mode := Zombie)];
      cleanup := cleanup + [t];
      running := running[cpu := None];
      exited := exited[t := code];
    }

    /** One search of `sched_wait`. The panic branch is dead. */
    method SearchZombie(cpu: nat, tid: nat) returns (found: bool, code: int, panic: bool)
      requires Valid() && Enabled(View(), Reap(cpu, tid))
      modifies `tasks, `cleanup, `reaped
      ensures View() == Apply(old(View()), Reap(cpu, tid)) && Valid() && !panic
      ensures found <==> tid in old(cleanup) && T(old(View()), tid).tgid == T(old(View()), Curr(old(View()), cpu)).tgid
      ensures found ==> tid in old(tasks) && code == old(tasks)[tid].code && reaped == old(reaped) + [(tid, code)]
      ensures found ==> tasks == old(tasks) - {tid} && tid !in cleanup && |cleanup| == |old(cleanup)| - 1
      ensures !found ==> tasks == old(tasks) && cleanup == old(cleanup) && reaped == old(reaped)
    {
      hide Inv, Awake, Found, Apply, Enabled;
      ghost var s := View();
      StepInv(s, Reap(cpu, tid));
      ActingCurr(s, cpu, tid);
      ZombieKnown(s);
      var group := tasks[running[cpu].val].tgid;
      found, code, panic := false, 0, false;
      var i := 0;
      while i < |cleanup|
        invariant i <= |cleanup| && View() == s && !panic && !found
        invariant forall j | 0 <= j < i :: !(cleanup[j] == tid && T(s, cleanup[j]).tgid == group)
      {
        var z := cleanup[i];
        if tasks[z].mode != Zombie {
          panic := true;
        }
        if tasks[z].tgid == group && z == tid {
          ReapIs(s, cpu, tid, i);
          found, code := true, tasks[z].code;
          reaped := reaped + [(z, code)];
          cleanup := Drop(cleanup, i);
          tasks := tasks - {z};
          return;
        }
        i := i + 1;
      }
      ReapIs(s, cpu, tid, i);
    }

    /** `_alloc_tid` and the fields that matter here: `task_create` for the kernel and for `sched_spawn`, which sets
        the group to the parent's id, and `task_fork`, which copies the parent's group. */
    method CreateTask(ghost op: Op, tgid: nat) returns (t: nat)
      requires Valid() && Enabled(View(), op)
      requires (op.Boot? && tgid == lastId + 1) || (op.Spawn? && tgid == Curr(View(), op.cpu))
        || (op.Fork? && tgid == T(View(), Curr(View(), op.cpu)).tgid)
      modifies `tasks, `made, `lastId
      ensures View() == Apply(old(View()), op) && Valid() && t == lastId == old(lastId) + 1 && t !in old(tasks)
      ensures tasks == old(tasks)[t := Task(tgid, Ready, Some(Event(Unknown, 0, 0)), 0)] && made == old(made) + [t]
    {
      hide Inv;
      StepInv(View(), op);
      FreshId(View());
      lastId := lastId + 1;
      t := lastId;
      tasks := tasks[t := Task(tgid, Ready, Some(BLANK), 0)];
      made := made + [t];
    }

    /** `sched_add`. */
    method AddTask(t: nat)
      requires Valid() && Enabled(View(), Add(t))
      modifies `active, `made
      ensures View() == Apply(old(View()), Add(t)) && Valid()
      ensures active == old(active) + [t] && t !in made && |made| == |old(made)| - 1
    {
      hide Inv;
      StepInv(View(), Add(t));
      made := Drop(made, IndexOf(made, t));
      FifoPush(t);
      Unlisted(View(), t);
    }

    /** The part of `sched_execve` that the scheduler sees: `task_replace`. */
    method Replace(cpu: nat)
      requires Valid() && Enabled(View(), Exec(cpu))
      modifies `tasks
      ensures View() == Apply(old(View()), Exec(cpu)) && Valid()
      ensures HasCurr(running, cpu, old(tasks))
      ensures var t := running[cpu].val;
        tasks == old(tasks)[t := old(tasks)[t].(mode := Ready, ev := Some(Event(Unknown, 0, 0)))]
    {
      hide Inv;
      StepInv(View(), Exec(cpu));
      CurrKnown(View(), cpu);
      var t := running[cpu].val;
      tasks := tasks[t := tasks[t].(ev := None)];
      tasks := tasks[t := tasks[t].(mode := Ready)];
      tasks := tasks[t := tasks[t].(ev := Some(BLANK))];
    }
  }
}
