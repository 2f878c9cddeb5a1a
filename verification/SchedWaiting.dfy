/** Bounded waiting: a READY task's distance from current along the run queue only shrinks; and when
    idle gets to run. */
module SchedWaiting {
  import opened SchedSpec
  import opened SchedProofs

  ghost predicate Waiting(s: Sched, p: nat) {
    p != IDLE && 0 < IndexOf(s.ring, p) < |s.ring| && s.ring[IndexOf(s.ring, p)].state == Ready
  }

  /** Does this step end in schedule()? */
  predicate Schedules(s: Sched, op: Op)
    requires s.ring != []
  {
    op.OpYield? || op.OpExit? || op.OpSleep? || (op.OpKill? && op.pid != IDLE && op.pid == s.ring[0].pid)
  }

  lemma UniquePid(s: Sched, i: nat, j: nat)
    requires Accounted(s) && i < |s.ring| && j < |s.ring| && s.ring[i].pid == s.ring[j].pid
    ensures i == j
  {
    var ps, p := Pids(s.ring), s.ring[i].pid;
    assert ps[i] == p && ps[j] == p;
    assert Account(s)[p] >= multiset(ps)[p];
    if i < j { TwiceIn(ps, i, j); } else if j < i { TwiceIn(ps, j, i); }
  }

  lemma IndexIs(s: Sched, j: nat)
    requires Accounted(s) && j < |s.ring|
    ensures IndexOf(s.ring, s.ring[j].pid) == j
  {
    UniquePid(s, IndexOf(s.ring, s.ring[j].pid), j);
  }

  /** A non-idle READY task is ahead of idle and of every later task. */
  lemma PickNotPast(ring: seq<Info>, d: nat)
    requires 0 < d < |ring| && ring[d].state == Ready && ring[d].pid != IDLE
    ensures 0 < Pick(ring) <= d
  {
  }

  lemma SwitchMoves(s: Sched, k: nat, d: nat)
    requires 0 < k <= d < |s.ring|
    ensures d - k < |SwitchTo(s, k).ring| && SwitchTo(s, k).ring[d - k].pid == s.ring[d].pid
    ensures d > k ==> SwitchTo(s, k).ring[d - k] == s.ring[d]
  {
  }

  /** Each schedule() call either runs the waiting task or brings it strictly closer. */
  lemma ScheduleCloser(s: Sched, p: nat, d: nat)
    requires Schedulable(s.ring) && DeadStates(s.dead) && Accounted(s)
    requires 0 < d < |s.ring| && s.ring[d].pid == p != IDLE && s.ring[d].state == Ready
    ensures var s' := Schedule(s);
            && Inv(s') && IndexOf(s'.ring, p) < d
            && (s'.ring[0].pid == p || Waiting(s', p))
  {
    ScheduleInv(s);
    ReapInv(s);
    var r := Reap(s);
    PickNotPast(r.ring, d);
    var k := Pick(r.ring);
    SwitchMoves(r, k, d);
    IndexIs(Schedule(s), d - k);
  }

  lemma StillThere(s: Sched, s': Sched, p: nat, j: nat)
    requires Waiting(s, p) && Inv(s') && 0 < j < |s'.ring| && s'.ring[j].pid == p && s'.ring[j].state == Ready
    requires j <= IndexOf(s.ring, p)
    ensures Waiting(s', p) && IndexOf(s'.ring, p) <= IndexOf(s.ring, p)
  {
    IndexIs(s', j);
  }

  /** p is current, or still waiting and no further away than before (strictly closer if asked). */
  ghost predicate Closer(s: Sched, s': Sched, p: nat, strictly: bool) {
    && Inv(s')
    && (s'.ring[0].pid == p || Waiting(s', p))
    && IndexOf(s'.ring, p) <= IndexOf(s.ring, p)
    && (strictly ==> IndexOf(s'.ring, p) < IndexOf(s.ring, p))
  }

  lemma ExitCloser(s: Sched, code: int, p: nat)
    requires Inv(s) && s.ring[0].pid != IDLE && Waiting(s, p)
    ensures Closer(s, Exit(s, code), p, true)
  {
    var t := s.ring[0].(exitCode := code, state := Dead);
    CurrentChanged(s, t);
    ScheduleCloser(s.(ring := s.ring[0 := t]), p, IndexOf(s.ring, p));
  }

  lemma SleepCloser(s: Sched, wakeAt: nat, p: nat)
    requires Inv(s) && s.ring[0].pid != IDLE && Waiting(s, p)
    ensures Closer(s, Sleep(s, wakeAt), p, true)
  {
    var t := s.ring[0].(sleepUntil := wakeAt, state := Sleeping);
    CurrentChanged(s, t);
    ScheduleCloser(s.(ring := s.ring[0 := t]), p, IndexOf(s.ring, p));
  }

  lemma KillCloser(s: Sched, pid: nat, p: nat)
    requires Inv(s) && Waiting(s, p) && pid != p
    ensures Closer(s, Kill(s, pid), p, Schedules(s, OpKill(pid)))
  {
    StepInv(s, OpKill(pid));
    var k, d := IndexOf(s.ring, pid), IndexOf(s.ring, p);
    if pid != IDLE && k < |s.ring| {
      if k == 0 {
        ExitCloser(s, 0, p);
      } else {
        StillThere(s, Kill(s, pid), p, if k < d then d - 1 else d);
      }
    }
  }

  lemma QuietCloser(s: Sched, op: Op, p: nat)
    requires Inv(s) && Waiting(s, p) && (op.OpCreate? || op.OpFork? || op.OpWake? || op.OpReap? || op.OpWait?)
    ensures Closer(s, Step(s, op), p, false)
  {
    StepInv(s, op);
    if op.OpReap? {
      ReapInv(s);
    }
    StillThere(s, Step(s, op), p, IndexOf(s.ring, p));
  }

  /** No step takes a waiting task further away; every scheduling step brings it closer. */
  lemma StepCloser(s: Sched, op: Op, p: nat)
    requires Inv(s) && Enabled(s, op) && Waiting(s, p) && op != OpKill(p)
    ensures Closer(s, Step(s, op), p, Schedules(s, op))
  {
    match op {
      case OpYield =>
        InvIsSchedulable(s);
        ScheduleCloser(s, p, IndexOf(s.ring, p));
      case OpExit(code) => ExitCloser(s, code, p);
      case OpKill(pid) => KillCloser(s, pid, p);
      case OpSleep(wakeAt) => SleepCloser(s, wakeAt, p);
      case _ => QuietCloser(s, op, p);
    }
  }

  // ---- over runs ----

  function SchedulesIn(s: Sched, ops: seq<Op>): nat
    requires EnabledRun(s, ops)
    decreases |ops|
  {
    if ops == [] then 0
    else (if Schedules(s, ops[0]) then 1 else 0) + SchedulesIn(Step(s, ops[0]), ops[1..])
  }

  /** p is current at some point of the run. */
  ghost predicate RunsDuring(s: Sched, ops: seq<Op>, p: nat)
    requires EnabledRun(s, ops)
    decreases |ops|
  {
    || (s.ring != [] && s.ring[0].pid == p)
    || (ops != [] && RunsDuring(Step(s, ops[0]), ops[1..], p))
  }

  /** A READY task that is not killed runs within as many schedule() calls as its distance from
      current, whatever else happens in between: creations, forks, kills, exits, sleeps, wakeups. */
  lemma {:induction false} BoundedWaiting(s: Sched, ops: seq<Op>, p: nat)
    requires Inv(s) && EnabledRun(s, ops) && Waiting(s, p) && OpKill(p) !in ops
    requires SchedulesIn(s, ops) >= IndexOf(s.ring, p)
    ensures RunsDuring(s, ops, p)
    decreases |ops|
  {
    if ops != [] {
      var s' := Step(s, ops[0]);
      StepCloser(s, ops[0], p);
      if s'.ring[0].pid == p {
        assert RunsDuring(s', ops[1..], p);
      } else {
        BoundedWaiting(s', ops[1..], p);
      }
    }
  }

  /** Every yield or timer tick counts as one. */
  lemma {:induction false} YieldsSchedule(s: Sched, ops: seq<Op>)
    requires EnabledRun(s, ops)
    ensures SchedulesIn(s, ops) >= multiset(ops)[OpYield]
    decreases |ops|
  {
    if ops != [] {
      YieldsSchedule(Step(s, ops[0]), ops[1..]);
      assert multiset(ops) == multiset{ops[0]} + multiset(ops[1..]) by {
        assert ops == [ops[0]] + ops[1..];
      }
    }
  }

  /** So a READY task that is not killed runs within as many of those as its distance. */
  lemma {:induction false} RunsWithinTicks(s: Sched, ops: seq<Op>, p: nat)
    requires Inv(s) && EnabledRun(s, ops) && Waiting(s, p) && OpKill(p) !in ops
    requires multiset(ops)[OpYield] >= IndexOf(s.ring, p)
    ensures RunsDuring(s, ops, p)
  {
    YieldsSchedule(s, ops);
    BoundedWaiting(s, ops, p);
  }

  // ---- when idle runs ----

  /** No task but idle is READY behind the current one. */
  ghost predicate NothingReady(ring: seq<Info>) {
    forall i | 0 < i < |ring| && ring[i].pid != IDLE :: ring[i].state != Ready
  }

  /** schedule() leaves idle current if and only if nothing else is READY and the task before it was
      idle or cannot go on. */
  lemma IdleOnlyWhenNothingReady(s: Sched)
    requires Schedulable(s.ring) && DeadStates(s.dead) && Accounted(s)
    ensures Schedule(s).ring[0].pid == IDLE <==>
            NothingReady(s.ring) && (s.ring[0].pid == IDLE || s.ring[0].state != Running)
  {
    ReapInv(s);
    var r := Reap(s);
    SchedulableSame(s.ring, r.ring);
    assert NothingReady(r.ring) <==> NothingReady(s.ring);
    if r.ring[0].pid != IDLE && r.ring[0].state != Running {
      DyingTaskSwitches(r.ring);
    }
    if r.ring[0].pid == IDLE && Pick(r.ring) > 0 && r.ring[Pick(r.ring)].pid == IDLE {
      UniquePid(r, 0, Pick(r.ring));
    }
  }

  /** The current task stops running: it exits, sleeps or kills itself. */
  predicate GivesUp(s: Sched, op: Op)
    requires s.ring != []
  {
    s.ring[0].pid != IDLE && (op.OpExit? || op.OpSleep? || (op.OpKill? && op.pid == s.ring[0].pid))
  }

  /** Idle is current after a step if and only if the step gave the processor up, or offered it, with
      nothing else READY, or it was current and the step does not schedule. In particular a yield by
      any other task never ends in idle. */
  lemma IdleRunsExactly(s: Sched, op: Op)
    requires Inv(s) && Enabled(s, op)
    ensures Step(s, op).ring != []
    ensures Step(s, op).ring[0].pid == IDLE <==>
            if Schedules(s, op) then NothingReady(s.ring) && (s.ring[0].pid == IDLE || GivesUp(s, op))
            else s.ring[0].pid == IDLE
    ensures op.OpYield? && s.ring[0].pid != IDLE ==> Step(s, op).ring[0].pid != IDLE
  {
    StepInv(s, op);
    InvIsSchedulable(s);
    match op {
      case OpYield => IdleOnlyWhenNothingReady(s);
      case OpExit(code) => LeavesToIdle(s, s.ring[0].(exitCode := code, state := Dead));
      case OpSleep(wakeAt) => LeavesToIdle(s, s.ring[0].(sleepUntil := wakeAt, state := Sleeping));
      case OpKill(pid) =>
        if pid != IDLE && pid == s.ring[0].pid {
          LeavesToIdle(s, s.ring[0].(exitCode := 0, state := Dead));
        }
      case OpReap => ReapInv(s);
      case _ =>
    }
  }

  lemma LeavesToIdle(s: Sched, t: Info)
    requires Inv(s) && s.ring[0].pid != IDLE && t.pid == s.ring[0].pid && (t.state == Dead || t.state == Sleeping)
    ensures Schedule(s.(ring := s.ring[0 := t])).ring[0].pid == IDLE <==> NothingReady(s.ring)
  {
    CurrentChanged(s, t);
    var s' := s.(ring := s.ring[0 := t]);
    IdleOnlyWhenNothingReady(s');
    assert forall i | 0 < i < |s.ring| :: s'.ring[i] == s.ring[i];
  }
}
