/** The scheduler state machine over whole runs: list integrity, and no task lost or freed twice. */
module SchedProofs {
  import opened SchedSpec

  // ---- every task is in exactly one place ----

  function Pids(ts: seq<Info>): (r: seq<nat>)
    ensures |r| == |ts|
  {
    seq(|ts|, i requires 0 <= i < |ts| => ts[i].pid)
  }

  /** Every pid on the run queue, on the dead list, or freed, with multiplicity. */
  ghost function Account(s: Sched): multiset<nat> {
    multiset(Pids(s.ring)) + multiset(Pids(s.dead)) + multiset(s.freed)
  }

  /** Every pid handed out so far is in exactly one place, exactly once. */
  ghost predicate Accounted(s: Sched) {
    forall p: nat :: Account(s)[p] == if p < s.nextPid then 1 else 0
  }

  lemma TwiceIn(ps: seq<nat>, i: nat, j: nat)
    requires i < j < |ps| && ps[i] == ps[j]
    ensures multiset(ps)[ps[i]] >= 2
  {
    assert ps == ps[..j] + [ps[j]] + ps[j + 1..];
    assert ps[..j][i] == ps[i];
  }

  ghost predicate RingStates(ring: seq<Info>) {
    && ring != []
    && (ring[0].state == Running || (ring[0].pid == IDLE && ring[0].state == Ready))
    && (forall i | 1 <= i < |ring| :: ring[i].state == Ready || ring[i].state == Sleeping)
    && (exists i :: 0 <= i < |ring| && ring[i].pid == IDLE)
    && (forall i | 1 <= i < |ring| && ring[i].pid == IDLE :: ring[i].state == Ready)
  }

  ghost predicate DeadStates(dead: seq<Info>) {
    forall i | 0 <= i < |dead| :: dead[i].state == Dead || dead[i].state == Zombie
  }

  /** The scheduler's invariant: one cycle holding idle and current, at most one RUNNING task and
      it is current, idle always available, corpses only on the dead list, and no task lost,
      duplicated or freed twice. */
  ghost predicate Inv(s: Sched) {
    RingStates(s.ring) && DeadStates(s.dead) && Accounted(s)
  }

  lemma BootInv()
    ensures Inv(Boot())
  {
    assert Pids(Boot().ring) == [IDLE];
  }

  lemma PidsConcat(a: seq<Info>, b: seq<Info>)
    ensures Pids(a + b) == Pids(a) + Pids(b)
  {
  }

  lemma PidsOrphaned(ts: seq<Info>, pid: nat)
    ensures Pids(Orphaned(ts, pid)) == Pids(ts)
  {
  }

  lemma PidsHead(ts: seq<Info>)
    requires ts != []
    ensures Pids(ts) == [ts[0].pid] + Pids(ts[1..])
  {
  }

  // ---- reaping ----

  /** Each corpse is either kept or freed, never both, never neither. */
  lemma {:induction false} ReapAccounts(ring: seq<Info>, kept: seq<Info>, rest: seq<Info>, freed: seq<nat>)
    ensures var (ring', dead', freed') := ReapFrom(ring, kept, rest, freed);
            && Pids(ring') == Pids(ring)
            && multiset(Pids(dead')) + multiset(freed') == multiset(Pids(kept)) + multiset(Pids(rest)) + multiset(freed)
    decreases |rest|
  {
    if rest == [] {
      assert Pids(rest) == [];
    } else {
      var c, tail := rest[0], rest[1..];
      PidsHead(rest);
      if c.ppid != 0 {
        ReapAccounts(ring, kept + [c], tail, freed);
        PidsConcat(kept, [c]);
        assert Pids([c]) == [c.pid];
      } else {
        PidsOrphaned(ring, c.pid);
        PidsOrphaned(kept, c.pid);
        PidsOrphaned(tail, c.pid);
        if kept == [] {
          ReapAccounts(Orphaned(ring, c.pid), kept, tail, freed + [c.pid]);
        } else {
          ReapAccounts(Orphaned(ring, c.pid), Orphaned(kept, c.pid), Orphaned(tail, c.pid), freed + [c.pid]);
        }
      }
    }
  }

  lemma {:induction false} ReapDeadStates(ring: seq<Info>, kept: seq<Info>, rest: seq<Info>, freed: seq<nat>)
    requires DeadStates(kept) && DeadStates(rest)
    ensures DeadStates(ReapFrom(ring, kept, rest, freed).1)
    decreases |rest|
  {
    if rest != [] {
      var c, tail := rest[0], rest[1..];
      if c.ppid != 0 {
        ReapDeadStates(ring, kept + [c], tail, freed);
      } else if kept == [] {
        ReapDeadStates(Orphaned(ring, c.pid), kept, tail, freed + [c.pid]);
      } else {
        ReapDeadStates(Orphaned(ring, c.pid), Orphaned(kept, c.pid), Orphaned(tail, c.pid), freed + [c.pid]);
      }
    }
  }

  /** Reaping leaves the run queue's tasks and states alone. */
  ghost predicate SameTasks(a: seq<Info>, b: seq<Info>) {
    |a| == |b| && forall i | 0 <= i < |a| :: b[i].pid == a[i].pid && b[i].state == a[i].state
  }

  lemma ReapRing(s: Sched)
    ensures SameTasks(s.ring, Reap(s).ring)
  {
    ReapKeepsRing(s.ring, [], s.dead, s.freed);
  }

  lemma ReapInv(s: Sched)
    requires DeadStates(s.dead) && Accounted(s)
    ensures DeadStates(Reap(s).dead) && Accounted(Reap(s)) && SameTasks(s.ring, Reap(s).ring)
  {
    ReapRing(s);
    ReapAccounts(s.ring, [], s.dead, s.freed);
    ReapDeadStates(s.ring, [], s.dead, s.freed);
    assert Pids([]) == [];
    var r := Reap(s);
    Regroup(multiset(Pids(r.ring)), multiset(Pids(r.dead)), multiset(r.freed));
    Regroup(multiset(Pids(s.ring)), multiset(Pids(s.dead)), multiset(s.freed));
    assert multiset(Pids(r.dead)) + multiset(r.freed) == multiset(Pids(s.dead)) + multiset(s.freed);
    assert Account(r) == Account(s);
  }

  lemma Regroup(a: multiset<nat>, b: multiset<nat>, c: multiset<nat>)
    ensures a + b + c == a + (b + c)
  {
  }

  // ---- switching ----

  lemma PidsOfFour(a: seq<Info>, b: seq<Info>, c: seq<Info>, d: seq<Info>)
    ensures multiset(Pids(a + b + c + d)) == multiset(Pids(a)) + multiset(Pids(b)) + multiset(Pids(c))
            + multiset(Pids(d))
    ensures |a| == 1 ==> multiset(Pids(a)) == multiset{a[0].pid}
    ensures |c| == 1 ==> multiset(Pids(c)) == multiset{c[0].pid}
  {
    PidsConcat(a, b);
    PidsConcat(a + b, c);
    PidsConcat(a + b + c, d);
    if |a| == 1 { assert Pids(a) == [a[0].pid]; }
    if |c| == 1 { assert Pids(c) == [c[0].pid]; }
  }

  lemma SwitchPids(prev: Info, next: Info, a: seq<Info>, b: seq<Info>)
    ensures multiset(Pids([next] + b + [prev] + a)) == multiset(Pids([prev] + a + [next] + b))
    ensures multiset(Pids([next] + b + a)) + multiset{prev.pid} == multiset(Pids([prev] + a + [next] + b))
  {
    PidsOfFour([prev], a, [next], b);
    PidsOfFour([next], b, [prev], a);
    PidsOfFour([next], b, [], a);
    assert [next] + b + [] + a == [next] + b + a;
    assert Pids([]) == [];
  }

  lemma SwitchAccounts(s: Sched, k: nat)
    requires 0 < k < |s.ring|
    ensures Account(SwitchTo(s, k)) == Account(s)
  {
    var prev, next := Requeued(s.ring[0]), s.ring[k].(state := Running);
    SwitchPids(prev, next, s.ring[1..k], s.ring[k + 1..]);
    SamePids(s.ring, prev, next, k);
    BuriedSame(s.dead, Corpse(prev), multiset(Pids([next] + s.ring[k + 1..] + s.ring[1..k])), multiset(s.freed));
  }

  lemma SamePids(ring: seq<Info>, prev: Info, next: Info, k: nat)
    requires 0 < k < |ring| && prev.pid == ring[0].pid && next.pid == ring[k].pid
    ensures Pids([prev] + ring[1..k] + [next] + ring[k + 1..]) == Pids(ring)
  {
  }

  lemma BuriedSame(dead: seq<Info>, corpse: Info, ring: multiset<nat>, freed: multiset<nat>)
    ensures ring + multiset(Pids([corpse] + dead)) + freed == ring + multiset{corpse.pid} + multiset(Pids(dead)) + freed
  {
    PidsHead([corpse] + dead);
    assert ([corpse] + dead)[1..] == dead;
  }

  lemma PickIsRunnable(ring: seq<Info>)
    requires ring != []
    ensures Pick(ring) > 0 ==> ring[Pick(ring)].state == Ready
    ensures Pick(ring) > 0 && ring[Pick(ring)].pid == IDLE ==>
              forall j | 1 <= j < |ring| && ring[j].state == Ready :: ring[j].pid == IDLE
  {
  }

  /** Idle is READY whenever it is not current, so a task that cannot go on always finds someone
      to switch to. */
  lemma DyingTaskSwitches(ring: seq<Info>)
    requires ring != [] && ring[0].pid != IDLE && ring[0].state != Running
    requires exists i :: 1 <= i < |ring| && ring[i].pid == IDLE && ring[i].state == Ready
    ensures Pick(ring) > 0
  {
  }

  /** What schedule() may be handed: as in the invariant, except that the current task may just
      have died or gone to sleep. */
  ghost predicate Schedulable(ring: seq<Info>) {
    && ring != []
    && (forall i | 1 <= i < |ring| :: ring[i].state == Ready || ring[i].state == Sleeping)
    && (exists i :: 0 <= i < |ring| && ring[i].pid == IDLE)
    && (forall i | 1 <= i < |ring| && ring[i].pid == IDLE :: ring[i].state == Ready)
    && (if ring[0].pid == IDLE then ring[0].state == Running || ring[0].state == Ready
        else ring[0].state == Running || ring[0].state == Dead || ring[0].state == Sleeping)
  }

  lemma SwitchRingStates(s: Sched, k: nat)
    requires Schedulable(s.ring) && 0 < k < |s.ring| && s.ring[k].state == Ready
    ensures RingStates(SwitchTo(s, k).ring)
  {
    var ring := s.ring;
    var prev, next := Requeued(ring[0]), ring[k].(state := Running);
    SwitchKeepsIdle(s, k);
    if prev.state == Dead {
      QueuedStates([next], ring[k + 1..], [], ring[1..k]);
      assert [next] + ring[k + 1..] + [] + ring[1..k] == SwitchTo(s, k).ring;
    } else {
      QueuedStates([next], ring[k + 1..], [prev], ring[1..k]);
    }
  }

  /** What may stand behind the current task. */
  predicate Queued(t: Info) {
    (t.state == Ready || t.state == Sleeping) && (t.pid == IDLE ==> t.state == Ready)
  }

  lemma QueuedStates(a: seq<Info>, b: seq<Info>, c: seq<Info>, d: seq<Info>)
    requires forall t | t in b || t in c || t in d :: Queued(t)
    ensures forall i | |a| <= i < |a + b + c + d| :: Queued((a + b + c + d)[i])
  {
    assert a + b + c + d == a + (b + c + d);
    assert forall t | t in b + c + d :: Queued(t);
  }

  lemma SwitchKeepsIdle(s: Sched, k: nat)
    requires 0 < k < |s.ring| && (exists d :: 0 <= d < |s.ring| && s.ring[d].pid == IDLE)
    requires s.ring[0].pid == IDLE ==> s.ring[0].state != Dead
    ensures exists i :: 0 <= i < |SwitchTo(s, k).ring| && SwitchTo(s, k).ring[i].pid == IDLE
  {
    var ring, ring' := s.ring, SwitchTo(s, k).ring;
    var d :| 0 <= d < |ring| && ring[d].pid == IDLE;
    var d' := if d == k then 0 else if d > k then d - k
              else if ring[0].state == Dead then |ring| - k + d - 1 else |ring| - k + d;
    assert ring'[d'].pid == IDLE;
  }

  lemma SchedulableSame(a: seq<Info>, b: seq<Info>)
    requires Schedulable(a) && SameTasks(a, b)
    ensures Schedulable(b)
  {
    var i :| 0 <= i < |a| && a[i].pid == IDLE;
    assert b[i].pid == IDLE;
  }

  lemma ScheduleInv(s: Sched)
    requires Schedulable(s.ring) && DeadStates(s.dead) && Accounted(s)
    ensures Inv(Schedule(s))
  {
    var r := Reap(s);
    ReapInv(s);
    SchedulableSame(s.ring, r.ring);
    var k := Pick(r.ring);
    PickIsRunnable(r.ring);
    if k > 0 {
      SwitchAccounts(r, k);
      SwitchRingStates(r, k);
    } else if r.ring[0].pid != IDLE {
      var i :| 0 <= i < |r.ring| && r.ring[i].pid == IDLE;
      assert r.ring[i].state == Ready;
    }
  }

  lemma InvIsSchedulable(s: Sched)
    requires Inv(s)
    ensures Schedulable(s.ring)
  {
  }

  lemma CurrentChanged(s: Sched, t: Info)
    requires Inv(s) && s.ring[0].pid != IDLE && t.pid == s.ring[0].pid && (t.state == Dead || t.state == Sleeping)
    ensures var s' := s.(ring := s.ring[0 := t]);
            Schedulable(s'.ring) && Accounted(s')
  {
    var s' := s.(ring := s.ring[0 := t]);
    assert Pids(s'.ring) == Pids(s.ring);
    assert Account(s') == Account(s);
    var i :| 0 <= i < |s.ring| && s.ring[i].pid == IDLE;
    assert s'.ring[i].pid == IDLE;
  }

  lemma CreateInv(s: Sched, ppid: nat)
    requires Inv(s)
    ensures Inv(Create(s, ppid))
  {
    var t := Info(s.nextPid, Ready, ppid, 0, 0);
    PidsConcat(s.ring, [t]);
    assert Pids([t]) == [s.nextPid];
    assert Account(Create(s, ppid)) == Account(s) + multiset{s.nextPid};
    assert s.nextPid != IDLE by {
      var i :| 0 <= i < |s.ring| && s.ring[i].pid == IDLE;
      assert Pids(s.ring)[i] == IDLE;
      assert IDLE in multiset(Pids(s.ring));
      assert Account(s)[IDLE] > 0;
    }
    var i :| 0 <= i < |s.ring| && s.ring[i].pid == IDLE;
    assert Create(s, ppid).ring[i].pid == IDLE;
  }

  lemma WakeInv(s: Sched, now: nat)
    requires Inv(s)
    ensures Inv(Wake(s, now))
  {
    assert Pids(Wake(s, now).ring) == Pids(s.ring);
    assert Account(Wake(s, now)) == Account(s);
    var i :| 0 <= i < |s.ring| && s.ring[i].pid == IDLE;
    assert Wake(s, now).ring[i].pid == IDLE;
  }

  lemma RemoveAccounts(ts: seq<Info>, k: nat)
    requires k < |ts|
    ensures multiset(Pids(ts)) == multiset(Pids(ts[..k] + ts[k + 1..])) + multiset{ts[k].pid}
  {
    assert ts == ts[..k] + [ts[k]] + ts[k + 1..];
    PidsConcat(ts[..k] + [ts[k]], ts[k + 1..]);
    PidsConcat(ts[..k], [ts[k]]);
    PidsConcat(ts[..k], ts[k + 1..]);
    assert Pids([ts[k]]) == [ts[k].pid];
  }

  lemma KillOtherInv(s: Sched, k: nat)
    requires Inv(s) && 0 < k < |s.ring| && s.ring[k].pid != IDLE
    ensures Inv(s.(ring := s.ring[..k] + s.ring[k + 1..], dead := [Corpse(s.ring[k]).(exitCode := -1)] + s.dead))
  {
    var t := Corpse(s.ring[k]).(exitCode := -1);
    var s' := s.(ring := s.ring[..k] + s.ring[k + 1..], dead := [t] + s.dead);
    RemoveAccounts(s.ring, k);
    PidsConcat([t], s.dead);
    assert Pids([t]) == [s.ring[k].pid];
    assert Account(s') == Account(s);
    var i :| 0 <= i < |s.ring| && s.ring[i].pid == IDLE;
    assert s'.ring[if i < k then i else i - 1].pid == IDLE;
  }

  lemma WaitInv(s: Sched, arg: int)
    requires Inv(s)
    ensures Inv(Wait(s, arg).0)
  {
    var k := FirstMatch(s.dead, s.ring[0].pid, arg);
    if arg >= -1 && k < |s.dead| {
      RemoveAccounts(s.dead, k);
      assert Account(Wait(s, arg).0) == Account(s);
    }
  }

  /** Every step keeps the invariant. */
  lemma StepInv(s: Sched, op: Op)
    requires Inv(s) && Enabled(s, op)
    ensures Inv(Step(s, op))
  {
    InvIsSchedulable(s);
    match op {
      case OpCreate => CreateInv(s, 0);
      case OpFork => CreateInv(s, s.ring[0].pid);
      case OpYield => ScheduleInv(s);
      case OpExit(code) => ExitInv(s, code);
      case OpKill(pid) => KillInv(s, pid);
      case OpSleep(wakeAt) => SleepInv(s, wakeAt);
      case OpWake(now) => WakeInv(s, now);
      case OpReap =>
        ReapInv(s);
        SchedulableSame(s.ring, Reap(s).ring);
      case OpWait(arg) => WaitInv(s, arg);
    }
  }

  lemma KillInv(s: Sched, pid: nat)
    requires Inv(s)
    ensures Inv(Kill(s, pid))
  {
    var k := IndexOf(s.ring, pid);
    if pid != IDLE && k < |s.ring| && s.ring[k].state != Dead {
      if k == 0 { ExitInv(s, 0); } else { KillOtherInv(s, k); }
    }
  }

  lemma SleepInv(s: Sched, wakeAt: nat)
    requires Inv(s) && s.ring[0].pid != IDLE
    ensures Inv(Sleep(s, wakeAt))
  {
    var t := s.ring[0].(sleepUntil := wakeAt, state := Sleeping);
    CurrentChanged(s, t);
    ScheduleInv(s.(ring := s.ring[0 := t]));
  }

  lemma ExitInv(s: Sched, code: int)
    requires Inv(s) && s.ring[0].pid != IDLE
    ensures Inv(Exit(s, code))
  {
    var t := s.ring[0].(exitCode := code, state := Dead);
    CurrentChanged(s, t);
    ScheduleInv(s.(ring := s.ring[0 := t]));
  }

  // ---- runs ----

  ghost predicate EnabledRun(s: Sched, ops: seq<Op>)
    decreases |ops|
  {
    ops == [] || (Enabled(s, ops[0]) && EnabledRun(Step(s, ops[0]), ops[1..]))
  }

  function Run(s: Sched, ops: seq<Op>): Sched
    requires EnabledRun(s, ops)
    decreases |ops|
  {
    if ops == [] then s else Run(Step(s, ops[0]), ops[1..])
  }

  /** The invariant holds after every run. */
  lemma {:induction false} RunInv(s: Sched, ops: seq<Op>)
    requires Inv(s) && EnabledRun(s, ops)
    ensures Inv(Run(s, ops))
    decreases |ops|
  {
    if ops != [] {
      StepInv(s, ops[0]);
      RunInv(Step(s, ops[0]), ops[1..]);
    }
  }

  /** Over every run from boot: no pid is on two lists or twice on one, none is freed while it is
      still queued (in particular never while current), none is freed twice, none is lost. */
  lemma RunFromBoot(ops: seq<Op>)
    requires EnabledRun(Boot(), ops)
    ensures var s := Run(Boot(), ops);
            && s.ring != []
            && (forall p: nat :: p < s.nextPid <==> p in Pids(s.ring) || p in Pids(s.dead) || p in s.freed)
            && (forall p: nat :: multiset(Pids(s.ring))[p] + multiset(Pids(s.dead))[p] + multiset(s.freed)[p] <= 1)
            && (forall i | 0 < i < |s.ring| :: s.ring[i].state != Running)
            && IDLE in Pids(s.ring) && s.ring[0].pid !in s.freed
  {
    BootInv();
    RunInv(Boot(), ops);
    var s := Run(Boot(), ops);
    forall p: nat
      ensures p < s.nextPid <==> p in Pids(s.ring) || p in Pids(s.dead) || p in s.freed
      ensures multiset(Pids(s.ring))[p] + multiset(Pids(s.dead))[p] + multiset(s.freed)[p] <= 1
    {
      assert Account(s)[p] == multiset(Pids(s.ring))[p] + multiset(Pids(s.dead))[p] + multiset(s.freed)[p];
    }
    var i :| 0 <= i < |s.ring| && s.ring[i].pid == IDLE;
    assert Pids(s.ring)[i] == IDLE;
    assert Pids(s.ring)[0] in multiset(Pids(s.ring));
  }
}
