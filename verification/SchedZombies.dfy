/** Zombies: an exited child waits for its parent, and waitpid delivers it once. */
module SchedZombies {
  import opened SchedSpec
  import opened SchedProofs

  // ---- what the W* macros make of the status word (user/include/wait.h) ----

  function WIfExited(status: nat): bool { status % 128 == 0 }
  function WExitStatus(status: nat): nat { status / 256 % 256 }
  function WIfSignaled(status: nat): bool { status % 128 != 0 }
  function WTermSig(status: nat): nat { status % 128 }

  lemma StatusDecodes(exitCode: int)
    ensures StatusWord(exitCode) >= 0
    ensures exitCode >= 0 ==> WIfExited(StatusWord(exitCode)) && !WIfSignaled(StatusWord(exitCode))
                              && WExitStatus(StatusWord(exitCode)) == exitCode % 256
    ensures exitCode < 0 ==> WIfSignaled(StatusWord(exitCode)) && !WIfExited(StatusWord(exitCode))
                             && WTermSig(StatusWord(exitCode)) == 11
  {
  }

  // ---- whom waitpid answers for ----

  /** t is a child of the current task that a request for `arg` is about: -1 asks for any child, anything
      else for the one with that pid. */
  ghost predicate AskedFor(s: Sched, arg: int, t: Info)
    requires s.ring != []
  {
    t.ppid == s.ring[0].pid && (arg == -1 || t.pid == arg)
  }

  /** waitpid reports "no such child" exactly when the request is not a pid or -1, or no child it is about
      is on either list. */
  lemma NoChildExactly(s: Sched, arg: int)
    requires s.ring != []
    ensures Wait(s, arg).1 == NoChild <==>
              || arg < -1
              || ((forall i | 0 <= i < |s.dead| :: !AskedFor(s, arg, s.dead[i]))
                  && (forall i | 1 <= i < |s.ring| :: !AskedFor(s, arg, s.ring[i])))
  {
    var me, k := s.ring[0].pid, FirstMatch(s.ring[1..], s.ring[0].pid, arg);
    forall i | 1 <= i < |s.ring|
      ensures s.ring[i] == s.ring[1..][i - 1]
    {
    }
    assert k < |s.ring| - 1 ==> Matches(s.ring[k + 1], me, arg);
  }

  /** What waitpid collects is a child of the caller, the one asked for, with the status of its exit code;
      it is off the dead list, and nobody else is touched. */
  lemma CollectsWhatWasAsked(s: Sched, arg: int)
    requires s.ring != [] && Wait(s, arg).1.Collected?
    ensures var (s', r) := Wait(s, arg);
            exists k :: 0 <= k < |s.dead| && AskedFor(s, arg, s.dead[k]) && r.pid == s.dead[k].pid
                        && r.status == StatusWord(s.dead[k].exitCode)
                        && s' == s.(dead := s.dead[..k] + s.dead[k + 1..], freed := s.freed + [r.pid])
    ensures arg == -1 || Wait(s, arg).1.pid == arg
  {
    var k := FirstMatch(s.dead, s.ring[0].pid, arg);
    assert AskedFor(s, arg, s.dead[k]) && Wait(s, arg).1.pid == s.dead[k].pid;
  }

  /** A request for a dead child of the caller returns that child, at once. */
  lemma DeadChildIsReturned(s: Sched, i: nat)
    requires s.ring != [] && i < |s.dead| && s.dead[i].ppid == s.ring[0].pid
    ensures Wait(s, s.dead[i].pid).1.Collected? && Wait(s, s.dead[i].pid).1.pid == s.dead[i].pid
    ensures Wait(s, -1).1.Collected?
  {
    assert Matches(s.dead[i], s.ring[0].pid, s.dead[i].pid) && Matches(s.dead[i], s.ring[0].pid, -1);
    CollectsWhatWasAsked(s, s.dead[i].pid);
  }

  /** With no dead child asked for but a live one, the caller is left waiting, and nothing changes. */
  lemma PendingExactly(s: Sched, arg: int)
    requires s.ring != []
    ensures Wait(s, arg).1 == Pending <==>
              && arg >= -1 && (forall i | 0 <= i < |s.dead| :: !AskedFor(s, arg, s.dead[i]))
              && (exists i :: 1 <= i < |s.ring| && AskedFor(s, arg, s.ring[i]))
    ensures !Wait(s, arg).1.Collected? ==> Wait(s, arg).0 == s
  {
    NoChildExactly(s, arg);
    var k := FirstMatch(s.dead, s.ring[0].pid, arg);
    if k < |s.dead| {
      assert AskedFor(s, arg, s.dead[k]);
    }
  }

  // ---- a zombie stays while its parent is alive ----

  lemma {:induction false} ReapOnlyAdds(ring: seq<Info>, kept: seq<Info>, rest: seq<Info>, freed: seq<nat>)
    ensures freed <= ReapFrom(ring, kept, rest, freed).2
    decreases |rest|
  {
    if rest != [] {
      var c, tail := rest[0], rest[1..];
      if c.ppid != 0 {
        ReapOnlyAdds(ring, kept + [c], tail, freed);
      } else if kept == [] {
        ReapOnlyAdds(Orphaned(ring, c.pid), kept, tail, freed + [c.pid]);
      } else {
        ReapOnlyAdds(Orphaned(ring, c.pid), Orphaned(kept, c.pid), Orphaned(tail, c.pid), freed + [c.pid]);
      }
    }
  }

  lemma OrphanedKeeps(ts: seq<Info>, pid: nat, t: Info)
    requires t in ts && t.ppid != pid
    ensures t in Orphaned(ts, pid)
  {
    var i :| 0 <= i < |ts| && ts[i] == t;
    assert Orphaned(ts, pid)[i] == t;
  }

  ghost predicate NotAfter(ps: seq<nat>, from: nat, p: nat) {
    forall i | from <= i < |ps| :: ps[i] != p
  }

  /** A zombie whose parent is not freed by this pass survives it unchanged. */
  lemma {:induction false} ReapKeepsZombie(ring: seq<Info>, kept: seq<Info>, rest: seq<Info>, freed: seq<nat>, t: Info)
    requires t.ppid != 0 && (t in kept || t in rest)
    requires NotAfter(ReapFrom(ring, kept, rest, freed).2, |freed|, t.ppid)
    ensures t in ReapFrom(ring, kept, rest, freed).1
    decreases |rest|
  {
    if rest != [] {
      var c, tail := rest[0], rest[1..];
      assert t in rest ==> t == c || t in tail;
      if c.ppid != 0 {
        assert (kept + [c])[|kept|] == c;
        assert ReapFrom(ring, kept, rest, freed) == ReapFrom(ring, kept + [c], tail, freed);
        ReapKeepsZombie(ring, kept + [c], tail, freed, t);
      } else {
        assert t != c;
        if kept == [] {
          assert ReapFrom(ring, kept, rest, freed) == ReapFrom(Orphaned(ring, c.pid), kept, tail, freed + [c.pid]);
          ReapOnlyAdds(Orphaned(ring, c.pid), kept, tail, freed + [c.pid]);
          ReapKeepsZombie(Orphaned(ring, c.pid), kept, tail, freed + [c.pid], t);
        } else {
          ReapOnlyAdds(Orphaned(ring, c.pid), Orphaned(kept, c.pid), Orphaned(tail, c.pid), freed + [c.pid]);
          assert c.pid == ReapFrom(ring, kept, rest, freed).2[|freed|];
          if t in kept { OrphanedKeeps(kept, c.pid, t); } else { OrphanedKeeps(tail, c.pid, t); }
          ReapKeepsZombie(Orphaned(ring, c.pid), Orphaned(kept, c.pid), Orphaned(tail, c.pid), freed + [c.pid], t);
        }
      }
    }
  }

  /** No pid freed by a pass was freed before it. */
  lemma FreshlyFreed(s: Sched, p: nat)
    requires Accounted(s) && DeadStates(s.dead) && p in s.freed
    ensures var f := Reap(s).freed; s.freed <= f && NotAfter(f, |s.freed|, p)
  {
    ReapInv(s);
    ReapOnlyAdds(s.ring, [], s.dead, s.freed);
    var f := Reap(s).freed;
    forall i | |s.freed| <= i < |f|
      ensures f[i] != p
    {
      var j :| 0 <= j < |s.freed| && s.freed[j] == p;
      assert f[j] == p;
      assert multiset(f)[p] <= 1 by { assert Account(Reap(s))[p] <= 1; }
      if f[i] == p {
        TwiceIn(f, j, i);
      }
    }
  }

  /** This step is the waitpid, by t's parent, that returns t's pid and status. */
  ghost predicate Collects(s: Sched, op: Op, t: Info) {
    && op.OpWait? && s.ring != [] && s.ring[0].pid == t.ppid
    && Wait(s, op.arg).1 == Collected(t.pid, StatusWord(t.exitCode))
  }

  lemma ScheduleKeepsZombie(s: Sched, t: Info)
    requires s.ring != [] && t in s.dead && t.ppid != 0 && NotAfter(Schedule(s).freed, |s.freed|, t.ppid)
    ensures t in Schedule(s).dead
  {
    ReapKeepsZombie(s.ring, [], s.dead, s.freed, t);
    var r := Reap(s);
    assert t in r.dead;
    ReapKeepsRing(s.ring, [], s.dead, s.freed);
    var k := Pick(r.ring);
    if k > 0 {
      assert SwitchTo(r, k).dead == r.dead || SwitchTo(r, k).dead[1..] == r.dead;
    }
  }

  lemma WaitKeepsZombie(s: Sched, arg: int, t: Info)
    requires s.ring != [] && t in s.dead
    ensures t in Wait(s, arg).0.dead || Collects(s, OpWait(arg), t)
  {
    var k := FirstMatch(s.dead, s.ring[0].pid, arg);
    var i :| 0 <= i < |s.dead| && s.dead[i] == t;
    if arg >= -1 && k < |s.dead| && i != k {
      assert (s.dead[..k] + s.dead[k + 1..])[if i < k then i else i - 1] == t;
    }
  }

  /** A zombie whose parent this step does not free stays collectable, unless this very step
      collects it. */
  lemma StepKeepsZombie(s: Sched, op: Op, t: Info)
    requires Inv(s) && Enabled(s, op) && t in s.dead && t.ppid != 0
    requires NotAfter(Step(s, op).freed, |s.freed|, t.ppid)
    ensures t in Step(s, op).dead || Collects(s, op, t)
  {
    match op {
      case OpCreate =>
      case OpFork =>
      case OpYield => ScheduleKeepsZombie(s, t);
      case OpExit(code) => ScheduleKeepsZombie(s.(ring := s.ring[0 := s.ring[0].(exitCode := code, state := Dead)]), t);
      case OpKill(pid) =>
        var k := IndexOf(s.ring, pid);
        if pid != IDLE && k == 0 {
          ScheduleKeepsZombie(s.(ring := s.ring[0 := s.ring[0].(exitCode := 0, state := Dead)]), t);
        } else if pid != IDLE && k < |s.ring| {
          assert Kill(s, pid).dead[1..] == s.dead;
        }
      case OpSleep(wakeAt) => ScheduleKeepsZombie(s.(ring :=
        s.ring[0 := s.ring[0].(sleepUntil := wakeAt, state := Sleeping)]), t);
      case OpWake(now) =>
      case OpReap => ReapKeepsZombie(s.ring, [], s.dead, s.freed, t);
      case OpWait(arg) => WaitKeepsZombie(s, arg, t);
    }
  }

  lemma StepOnlyFrees(s: Sched, op: Op)
    requires Enabled(s, op)
    ensures s.freed <= Step(s, op).freed
  {
    ReapOnlyAdds(s.ring, [], s.dead, s.freed);
    match op {
      case OpExit(code) => ReapOnlyAdds(s.ring[0 := s.ring[0].(exitCode := code, state := Dead)], [], s.dead, s.freed);
      case OpKill(pid) => ReapOnlyAdds(s.ring[0 := s.ring[0].(exitCode := 0, state := Dead)], [], s.dead, s.freed);
      case OpSleep(wakeAt) => ReapOnlyAdds(s.ring[0 := s.ring[0].(sleepUntil := wakeAt, state := Sleeping)], [], s.dead,
        s.freed);
      case _ =>
    }
  }

  lemma {:induction false} RunOnlyFrees(s: Sched, ops: seq<Op>)
    requires EnabledRun(s, ops)
    ensures s.freed <= Run(s, ops).freed
    decreases |ops|
  {
    if ops != [] {
      StepOnlyFrees(s, ops[0]);
      RunOnlyFrees(Step(s, ops[0]), ops[1..]);
    }
  }

  /** Some waitpid of the run, by t's parent, returns t. */
  ghost predicate CollectedDuring(s: Sched, ops: seq<Op>, t: Info)
    requires EnabledRun(s, ops)
    decreases |ops|
  {
    ops != [] && (Collects(s, ops[0], t) || CollectedDuring(Step(s, ops[0]), ops[1..], t))
  }

  /** Delivery: over any run that does not free the parent, an exited child is still collectable
      at the end unless its parent's waitpid collected it on the way. */
  lemma {:induction false} ZombieDelivery(s: Sched, ops: seq<Op>, t: Info)
    requires Inv(s) && EnabledRun(s, ops) && t in s.dead && t.ppid != 0
    requires t.ppid !in Run(s, ops).freed
    ensures t in Run(s, ops).dead || CollectedDuring(s, ops, t)
    decreases |ops|
  {
    if ops != [] {
      var s' := Step(s, ops[0]);
      StepInv(s, ops[0]);
      RunOnlyFrees(s', ops[1..]);
      assert forall i | 0 <= i < |s'.freed| :: s'.freed[i] == Run(s, ops).freed[i];
      StepKeepsZombie(s, ops[0], t);
      if t in s'.dead {
        ZombieDelivery(s', ops[1..], t);
      }
    }
  }

  // ---- exit leaves a zombie ----

  /** A task on the run queue whose parent is not freed by the pass keeps its parent. */
  lemma {:induction false} ReapKeepsParent(ring: seq<Info>, kept: seq<Info>, rest: seq<Info>, freed: seq<nat>, i: nat)
    requires i < |ring| && NotAfter(ReapFrom(ring, kept, rest, freed).2, |freed|, ring[i].ppid)
    ensures i < |ReapFrom(ring, kept, rest, freed).0| && ReapFrom(ring, kept, rest, freed).0[i] == ring[i]
    decreases |rest|
  {
    if rest != [] {
      var c, tail := rest[0], rest[1..];
      if c.ppid != 0 {
        ReapKeepsParent(ring, kept + [c], tail, freed, i);
      } else {
        var k, t := if kept == [] then kept else Orphaned(kept, c.pid),
          if kept == [] then tail else Orphaned(tail, c.pid);
        var f := ReapFrom(Orphaned(ring, c.pid), k, t, freed + [c.pid]).2;
        ReapOnlyAdds(Orphaned(ring, c.pid), k, t, freed + [c.pid]);
        assert f[|freed|] == c.pid;
        ReapKeepsParent(Orphaned(ring, c.pid), k, t, freed + [c.pid], i);
      }
    }
  }

  /** What task_exit leaves behind for the parent. */
  function Remains(t: Info, code: int): Info {
    t.(exitCode := code, state := Zombie)
  }

  /** A child that exits is on the dead list as a zombie with its exit code, unless this very step
      frees its parent. */
  lemma ExitLeavesZombie(s: Sched, code: int)
    requires Inv(s) && Enabled(s, OpExit(code)) && s.ring[0].ppid != 0
    requires NotAfter(Exit(s, code).freed, |s.freed|, s.ring[0].ppid)
    ensures Remains(s.ring[0], code) in Exit(s, code).dead
  {
    var t := s.ring[0].(exitCode := code, state := Dead);
    var s1 := s.(ring := s.ring[0 := t]);
    ReapKeepsParent(s1.ring, [], s1.dead, s1.freed, 0);
    var r := Reap(s1);
    ReapRing(s1);
    CurrentChanged(s, t);
    SchedulableSame(s1.ring, r.ring);
    DyingTaskSwitches(r.ring);
    assert SwitchTo(r, Pick(r.ring)).dead[0] == Remains(s.ring[0], code);
  }

  /** Delivery from exit to waitpid: over any run in which its parent is not freed, the child that
      exited with `code` is still collectable at the end, or its parent's waitpid has returned its pid
      and the status of `code`. */
  lemma ExitIsDelivered(s: Sched, code: int, ops: seq<Op>)
    requires Inv(s) && Enabled(s, OpExit(code)) && s.ring[0].ppid != 0
    requires EnabledRun(s, [OpExit(code)] + ops) && s.ring[0].ppid !in Run(s, [OpExit(code)] + ops).freed
    ensures var s', t := Exit(s, code), Remains(s.ring[0], code);
            EnabledRun(s', ops) && (t in Run(s', ops).dead || CollectedDuring(s', ops, t))
  {
    var s', t, all := Exit(s, code), Remains(s.ring[0], code), [OpExit(code)] + ops;
    assert all[0] == OpExit(code) && all[1..] == ops;
    RunOnlyFrees(s', ops);
    assert forall i | 0 <= i < |s'.freed| :: s'.freed[i] == Run(s', ops).freed[i];
    ExitLeavesZombie(s, code);
    StepInv(s, OpExit(code));
    ZombieDelivery(s', ops, t);
  }

  /** ... and it is returned at most once: a returned pid is freed, and a freed pid is on no list. */
  lemma CollectedOnce(s: Sched, arg: int)
    requires Inv(s) && Wait(s, arg).1.Collected?
    ensures Wait(s, arg).1.pid !in s.freed && Wait(s, arg).1.pid in Wait(s, arg).0.freed
  {
    var k := FirstMatch(s.dead, s.ring[0].pid, arg);
    var p := s.dead[k].pid;
    assert Pids(s.dead)[k] == p;
    assert p in multiset(Pids(s.dead));
    assert Account(s)[p] == multiset(Pids(s.ring))[p] + multiset(Pids(s.dead))[p] + multiset(s.freed)[p];
    assert Wait(s, arg).0.freed[|s.freed|] == p;
  }
}
