/** What the steps of the scheduler mean for the tasks: who runs after a tick, which code a wait returns, and which data
    comes with an event. */
module SchedEffect {
  import opened Base
  import opened SchedModel
  import opened SchedInv
  import opened SchedRun

  // ----- a tick -----

  /** The list that a tick of `c` looks through: a current task that has stopped running stands at its end. */
  ghost predicate LooksThrough(s: State, c: nat, q: seq<nat>)
  {
    && c < |s.running| && c < |s.idle|
    && if s.running[c].Some? && s.running[c].val != s.idle[c] && T(s, s.running[c].val).mode != Running
       then q == s.active + [s.running[c].val] else q == s.active
  }

  /** `t` is a current task that still runs, and not the idle one. */
  predicate Goes(s: State, c: nat, t: nat)
  {
    c < |s.running| && c < |s.idle| && s.running[c] == Some(t) && t != s.idle[c] && T(s, t).mode == Running
  }

  /** A tick with a ready task, or a sleeper whose time has come, at position `i` and none before: that task runs, and
      leaves the list. A task that was running becomes ready and goes to the end. Nothing else changes. */
  lemma TickTakes(s: State, c: nat, now: nat, q: seq<nat>, i: nat)
    requires Inv(s) && LooksThrough(s, c, q) && i < |q|
    requires forall j | 0 <= j < i :: T(s, q[j]).mode != Ready
    requires forall j | 0 <= j < i && T(s, q[j]).mode == Waiting && T(s, q[j]).ev.Some? && T(s, q[j]).ev.val.kind == Sleep
      :: T(s, q[j]).ev.val.stamp == 0 || now < T(s, q[j]).ev.val.stamp
    requires var k := T(s, q[i]);
      k.mode == Ready || (k.mode == Waiting && k.ev.Some? && k.ev.val.kind == Sleep && 0 < k.ev.val.stamp <= now)
    ensures var e := Apply(s, Tick(c, now)); var t := q[i];
      && e.running == s.running[c := Some(t)] && T(e, t).mode == Running
      && T(e, t).ev == (if T(s, t).mode == Ready then T(s, t).ev else Some(Event(Unknown, T(s, t).ev.val.data, 0)))
      && (forall r | Goes(s, c, r) :: e.active == q[..i] + q[i + 1..] + [r] && T(e, r) == T(s, r).(mode := Ready))
      && ((forall r :: !Goes(s, c, r)) ==> e.active == q[..i] + q[i + 1..])
      && (forall u | u != t && !Goes(s, c, u) :: T(e, u) == T(s, u))
      && e == s.(running := e.running, active := e.active, tasks := e.tasks)
  {
    hide Occ, OnCpu, Count, Places, Modes, History;
    assert q == Queue(s, c);
    FirstIs(s, q, now, i);
    var e := Again(s, c, now);
    assert forall r | Goes(s, c, r) :: Acting(s, c) && r == Curr(s, c);
    if Acting(s, c) {
      assert Goes(s, c, Curr(s, c));
      CurrNot(s, c, q);
    } else {
      assert Drop(q, i) + [] == q[..i] + q[i + 1..];
    }
  }

  lemma CurrNot(s: State, c: nat, q: seq<nat>)
    requires Inv(s) && LooksThrough(s, c, q) && Acting(s, c)
    ensures q == s.active && Curr(s, c) !in q
  {
    CurrFacts(s, c);
  }

  lemma {:induction false} FirstIs(s: State, q: seq<nat>, now: nat, i: nat)
    requires i <= |q| && (forall j | 0 <= j < i :: !Avail(T(s, q[j]), now)) && (i < |q| ==> Avail(T(s, q[i]), now))
    ensures Pick(s, q, now) == i
  {
  }

  /** A tick with nobody to take: a running task goes on and nothing changes at all; otherwise the idle task runs, and a
      current task that has stopped running joins the list. */
  lemma TickStays(s: State, c: nat, now: nat, q: seq<nat>)
    requires Inv(s) && LooksThrough(s, c, q)
    requires forall j | 0 <= j < |q| :: T(s, q[j]).mode != Ready
    requires forall j | 0 <= j < |q| && T(s, q[j]).mode == Waiting && T(s, q[j]).ev.Some? && T(s, q[j]).ev.val.kind == Sleep
      :: T(s, q[j]).ev.val.stamp == 0 || now < T(s, q[j]).ev.val.stamp
    ensures var e := Apply(s, Tick(c, now)); var t := s.idle[c];
      && ((exists r :: Goes(s, c, r)) ==> e == s)
      && ((forall r :: !Goes(s, c, r)) ==>
           && e.running == s.running[c := Some(t)] && e.active == q && T(e, t) == T(s, t).(mode := Running)
           && (forall u | u != t :: T(e, u) == T(s, u)) && e == s.(running := e.running, active := q, tasks := e.tasks))
  {
    hide Occ, OnCpu, Count, Places, Modes, History;
    assert q == Queue(s, c);
    FirstIs(s, q, now, |q|);
    if Acting(s, c) {
      assert Goes(s, c, Curr(s, c));
      SameState(s, c);
    }
  }

  lemma SameState(s: State, c: nat)
    requires Inv(s) && Acting(s, c)
    ensures Stay(s, c, s.active) == s
  {
    hide Occ, OnCpu, Count;
    CurrFacts(s, c);
    var t := Curr(s, c);
    assert s.tasks[t := T(s, t).(mode := Running)] == s.tasks;
    assert s.running[c := Some(t)] == s.running;
  }

  // ----- exit codes -----

  predicate Dead(s: State, t: nat, code: int) { t in s.tasks && T(s, t).mode == Zombie && T(s, t).code == code }

  predicate Ends(s: State, op: Op, t: nat, code: int) { op.Exit? && op.code == code && Curr(s, op.cpu) == t }

  lemma StepCodes(s: State, op: Op, t: nat, code: int)
    requires Inv(s) && Enabled(s, op)
    ensures (t, code) in Apply(s, op).reaped ==> (t, code) in s.reaped || Dead(s, t, code)
    ensures Dead(Apply(s, op), t, code) ==> Dead(s, t, code) || Ends(s, op, t, code)
  {
    hide Occ, OnCpu, Count, Places, Again;
    if op.Tick? {
      TickCodes(s, op.cpu, op.now, t);
    } else if op.Reap? {
      ReapCodes(s, op.cpu, op.tid);
    }
  }

  lemma TickCodes(s: State, c: nat, now: nat, t: nat)
    requires Inv(s) && Cpu(s, c)
    ensures Again(s, c, now).reaped == s.reaped && T(Again(s, c, now), t).code == T(s, t).code
    ensures t in Again(s, c, now).tasks && T(Again(s, c, now), t).mode == Zombie ==> t in s.tasks && T(s, t).mode == Zombie
  {
    hide Occ, OnCpu, Count, Places, Modes, History;
    TickKeys2(s, c, now);
  }

  lemma TickKeys2(s: State, c: nat, now: nat)
    requires Inv(s) && Cpu(s, c)
    ensures Again(s, c, now).tasks.Keys == s.tasks.Keys
  {
    TickKeys(s, c, now);
  }

  lemma ReapCodes(s: State, c: nat, t: nat)
    requires Inv(s)
    ensures Reaped(s, c, t).reaped == s.reaped || (Reaped(s, c, t).reaped == s.reaped + [(t, T(s, t).code)] && Dead(s, t, T(s, t).code))
  {
    hide Occ, OnCpu, Count;
    Elsewhere(s, t);
  }

  /** Step `i` of the run is `sched_exit(code)`, called by `t`. */
  predicate ExitsAt(s: State, ops: seq<Op>, i: nat, t: nat, code: int)
    requires Legal(s, ops)
  {
    i < |ops| && Ends(StateAt(s, ops, i), ops[i], t, code)
  }

  lemma {:induction false} CodesFrom(s: State, ops: seq<Op>, t: nat, code: int)
    requires Inv(s) && Legal(s, ops) && ((t, code) in Run(s, ops).reaped || Dead(Run(s, ops), t, code))
    ensures (t, code) in s.reaped || Dead(s, t, code) || exists i: nat :: ExitsAt(s, ops, i, t, code)
    decreases ops
  {
    hide Inv, Enabled, Apply, Dead, Ends;
    if ops != [] {
      var s2, rest := Apply(s, ops[0]), ops[1..];
      StepInv(s, ops[0]);
      CodesFrom(s2, rest, t, code);
      StepCodes(s, ops[0], t, code);
      if exists i: nat :: ExitsAt(s2, rest, i, t, code) {
        var i: nat :| ExitsAt(s2, rest, i, t, code);
        assert ExitsAt(s, ops, i + 1, t, code);
      } else if Ends(s, ops[0], t, code) {
        assert ExitsAt(s, ops, 0, t, code);
      }
    }
  }

  /** Over every run from the start: a code that a wait has returned for a task, and the code of a zombie, is the argument
      of a `sched_exit` that the task itself has called. */
  lemma CodeReturned(s: State, ops: seq<Op>, t: nat, code: int)
    requires Initial(s) && Legal(s, ops)
    requires (t, code) in Run(s, ops).reaped || (t in Run(s, ops).cleanup && T(Run(s, ops), t).code == code)
    ensures exists i: nat :: i < |ops| && ops[i].Exit? && ops[i].code == code && Curr(StateAt(s, ops, i), ops[i].cpu) == t
  {
    hide Run, Legal, Occ, OnCpu, Count;
    InitialInv(s);
    RunInv(s, ops);
    if t in Run(s, ops).cleanup {
      Elsewhere(Run(s, ops), t);
    }
    CodesFrom(s, ops, t, code);
    var i: nat :| ExitsAt(s, ops, i, t, code);
  }

  // ----- the data of an event -----

  /** `t` has been woken with `data` and has not touched its event record since. */
  predicate Carries(s: State, t: nat, data: nat)
  {
    Worker(s, t) && T(s, t).ev.Some? && T(s, t).ev.val.data == data && (T(s, t).mode == Ready || T(s, t).mode == Running)
  }

  /** The step is one by which `t` gives up its event record, or its life. */
  predicate LetsGo(s: State, op: Op, t: nat)
  {
    (op.WaitEvent? || op.EndWait? || op.Exec? || op.GoSleep? || op.Exit?) && Curr(s, op.cpu) == t
  }

  predicate Keeps(s: State, ops: seq<Op>, t: nat)
    requires Legal(s, ops)
    decreases ops
  {
    ops != [] ==> !LetsGo(s, ops[0], t) && Keeps(Apply(s, ops[0]), ops[1..], t)
  }

  lemma StepCarries(s: State, op: Op, t: nat, data: nat)
    requires Inv(s) && Enabled(s, op) && Carries(s, t, data) && !LetsGo(s, op, t)
    ensures Carries(Apply(s, op), t, data)
  {
    hide Occ, OnCpu, Count, Places, Again;
    if op.Tick? {
      TickCarries(s, op.cpu, op.now, t, data);
    } else if op.Reap? {
      ReapCodes(s, op.cpu, op.tid);
    }
  }

  lemma TickCarries(s: State, c: nat, now: nat, t: nat, data: nat)
    requires Inv(s) && Cpu(s, c) && Carries(s, t, data)
    ensures Carries(Again(s, c, now), t, data)
  {
    hide Occ, OnCpu, Count, Places, Modes, History;
    TickKeys2(s, c, now);
  }

  lemma {:induction false} CarriesRun(s: State, ops: seq<Op>, t: nat, data: nat)
    requires Inv(s) && Legal(s, ops) && Carries(s, t, data) && Keeps(s, ops, t)
    ensures Carries(Run(s, ops), t, data)
    decreases ops
  {
    hide Inv, Enabled, Apply, Carries, LetsGo;
    if ops != [] {
      StepInv(s, ops[0]);
      StepCarries(s, ops[0], t, data);
      CarriesRun(Apply(s, ops[0]), ops[1..], t, data);
    }
  }

  /** Over every run: the data that a wait returns is the data of the event that has woken the task, whatever is published
      after it. */
  lemma DataDelivered(s: State, pub: Event, ops: seq<Op>, t: nat, c: nat)
    requires Inv(s) && t in s.active && T(s, t).mode == Waiting && T(s, t).ev.Some? && T(s, t).ev.val.kind == pub.kind
    requires Legal(Apply(s, Resume(pub)), ops) && Keeps(Apply(s, Resume(pub)), ops, t)
    requires var e := Run(Apply(s, Resume(pub)), ops); Enabled(e, EndWait(c)) && Curr(e, c) == t
    ensures var e := Run(Apply(s, Resume(pub)), ops); T(e, Curr(e, c)).ev.val.data == pub.data
  {
    hide Run, Legal, Occ, OnCpu, Count, Keeps;
    Elsewhere(s, t);
    StepInv(s, Resume(pub));
    CarriesRun(Apply(s, Resume(pub)), ops, t, pub.data);
  }
}
