/** Sleepers (src/sched/sched.c): a task that goes to sleep stays asleep until a timer tick at or past its
    deadline, and no longer. */
module SchedSleep {
  import opened SchedSpec
  import opened SchedProofs

  /** Task p is on the run queue at i, in this state and with this deadline. */
  ghost predicate At(ring: seq<Info>, i: nat, p: nat, state: TaskState, until: nat) {
    i < |ring| && ring[i].pid == p && ring[i].state == state && ring[i].sleepUntil == until
  }

  ghost predicate In(ring: seq<Info>, p: nat, state: TaskState, until: nat) {
    exists i :: At(ring, i, p, state, until)
  }

  ghost predicate Asleep(s: Sched, p: nat, until: nat) {
    In(s.ring, p, Sleeping, until)
  }

  lemma ReapKeepsSleeper(s: Sched, p: nat, until: nat, i: nat)
    requires At(s.ring, i, p, Sleeping, until)
    ensures At(Reap(s).ring, i, p, Sleeping, until)
  {
    ReapKeepsRing(s.ring, [], s.dead, s.freed);
  }

  /** schedule() moves a sleeper about and does nothing else to it. */
  lemma ScheduleKeepsSleeper(s: Sched, p: nat, until: nat, i: nat)
    requires At(s.ring, i, p, Sleeping, until)
    ensures In(Schedule(s).ring, p, Sleeping, until)
  {
    ReapKeepsSleeper(s, p, until, i);
    ReapKeepsRing(s.ring, [], s.dead, s.freed);
    var r := Reap(s);
    var k := Pick(r.ring);
    if k == 0 {
      assert At(Schedule(s).ring, i, p, Sleeping, until);
    } else {
      PickIsRunnable(r.ring);
      SwitchKeepsSleeper(r, k, p, until, i);
    }
  }

  lemma SwitchKeepsSleeper(r: Sched, k: nat, p: nat, until: nat, i: nat)
    requires 0 < k < |r.ring| && At(r.ring, i, p, Sleeping, until) && r.ring[k].state == Ready
    ensures In(SwitchTo(r, k).ring, p, Sleeping, until)
  {
    var ring := SwitchTo(r, k).ring;
    var dead := Requeued(r.ring[0]).state == Dead;
    var n := |r.ring| - k;
    if i > k {
      assert At(ring, i - k, p, Sleeping, until);
    } else if i == 0 {
      assert At(ring, n, p, Sleeping, until);
    } else {
      assert At(ring, if dead then n + i - 1 else n + i, p, Sleeping, until);
    }
  }

  /** sleep: the caller is asleep, with the deadline it gave. */
  lemma SleepPutsToSleep(s: Sched, wakeAt: nat)
    requires s.ring != []
    ensures Asleep(Sleep(s, wakeAt), s.ring[0].pid, wakeAt)
  {
    var s' := s.(ring := s.ring[0 := s.ring[0].(sleepUntil := wakeAt, state := Sleeping)]);
    assert At(s'.ring, 0, s.ring[0].pid, Sleeping, wakeAt);
    ScheduleKeepsSleeper(s', s.ring[0].pid, wakeAt, 0);
  }

  /** A tick wakes exactly the sleepers whose deadline has come: they are READY, the others sleep on. */
  lemma WakesExactly(s: Sched, now: nat, i: nat, p: nat, until: nat)
    requires At(s.ring, i, p, Sleeping, until) && p != IDLE
    ensures if now >= until then At(Wake(s, now).ring, i, p, Ready, 0) else At(Wake(s, now).ring, i, p, Sleeping, until)
  {
  }

  lemma WakeLeavesOthers(s: Sched, now: nat, i: nat)
    requires i < |s.ring| && s.ring[i].state != Sleeping
    ensures Wake(s, now).ring[i] == s.ring[i]
  {
  }

  /** A tick at or past the deadline. */
  predicate Due(op: Op, until: nat) {
    op.OpWake? && op.now >= until
  }

  lemma NotCurrent(s: Sched, i: nat, p: nat, until: nat)
    requires Inv(s) && At(s.ring, i, p, Sleeping, until)
    ensures i > 0 && p != IDLE
  {
  }

  /** No other entry wakes or loses a sleeper, unless it kills it. */
  lemma StepKeepsSleeper(s: Sched, op: Op, p: nat, until: nat)
    requires Inv(s) && Enabled(s, op) && Asleep(s, p, until) && op != OpKill(p) && !Due(op, until)
    ensures Asleep(Step(s, op), p, until)
  {
    var i :| At(s.ring, i, p, Sleeping, until);
    NotCurrent(s, i, p, until);
    match op {
      case OpCreate => assert At(Step(s, op).ring, i, p, Sleeping, until);
      case OpFork => assert At(Step(s, op).ring, i, p, Sleeping, until);
      case OpYield => ScheduleKeepsSleeper(s, p, until, i);
      case OpExit(code) => LeaveKeepsSleeper(s, s.ring[0].(exitCode := code, state := Dead), p, until, i);
      case OpSleep(wakeAt) =>
        LeaveKeepsSleeper(s, s.ring[0].(sleepUntil := wakeAt, state := Sleeping), p, until, i);
      case OpKill(pid) => KillKeepsSleeper(s, pid, p, until, i);
      case OpWake(now) =>
        WakesExactly(s, now, i, p, until);
      case OpReap => ReapKeepsSleeper(s, p, until, i);
      case OpWait(arg) => assert At(Step(s, op).ring, i, p, Sleeping, until);
    }
  }

  lemma LeaveKeepsSleeper(s: Sched, t: Info, p: nat, until: nat, i: nat)
    requires At(s.ring, i, p, Sleeping, until) && i > 0
    ensures In(Schedule(s.(ring := s.ring[0 := t])).ring, p, Sleeping, until)
  {
    ScheduleKeepsSleeper(s.(ring := s.ring[0 := t]), p, until, i);
  }

  lemma KillKeepsSleeper(s: Sched, pid: nat, p: nat, until: nat, i: nat)
    requires s.ring != [] && At(s.ring, i, p, Sleeping, until) && i > 0 && pid != p
    ensures In(Kill(s, pid).ring, p, Sleeping, until)
  {
    var k := IndexOf(s.ring, pid);
    if pid == IDLE || k == |s.ring| || s.ring[k].state == Dead {
      assert At(Kill(s, pid).ring, i, p, Sleeping, until);
    } else if k == 0 {
      LeaveKeepsSleeper(s, s.ring[0].(exitCode := 0, state := Dead), p, until, i);
    } else {
      assert At(Kill(s, pid).ring, if i < k then i else i - 1, p, Sleeping, until);
    }
  }

  /** Over any run: a task that went to sleep is still asleep, with its deadline, until the first tick at or
      past it; and that tick makes it READY. */
  lemma {:induction false} SleepsUntilDue(s: Sched, ops: seq<Op>, p: nat, until: nat)
    requires Inv(s) && EnabledRun(s, ops) && Asleep(s, p, until) && OpKill(p) !in ops
    requires forall op | op in ops :: !Due(op, until)
    ensures Inv(Run(s, ops)) && Asleep(Run(s, ops), p, until)
    ensures forall now | now >= until :: In(Wake(Run(s, ops), now).ring, p, Ready, 0)
    decreases |ops|
  {
    if ops == [] {
      var i :| At(s.ring, i, p, Sleeping, until);
      NotCurrent(s, i, p, until);
      forall now | now >= until
        ensures In(Wake(s, now).ring, p, Ready, 0)
      {
        WakesExactly(s, now, i, p, until);
      }
    } else {
      assert ops[0] in ops && forall op | op in ops[1..] :: op in ops;
      StepInv(s, ops[0]);
      StepKeepsSleeper(s, ops[0], p, until);
      SleepsUntilDue(Step(s, ops[0]), ops[1..], p, until);
    }
  }
}
