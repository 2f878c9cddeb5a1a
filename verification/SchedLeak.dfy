/** How a zombie is left behind for ever. sched_reap frees a parentless task while the list it is
    rebuilding is still empty, so the sweep that should orphan its dead children reads nothing; and
    sched_waitpid frees the child it collects without any sweep, so that child's own children, dead or
    alive, keep a parent that is gone. */
module SchedLeak {
  import opened SchedSpec
  import opened SchedProofs
  import opened SchedZombies

  /** Length of the leading run of parentless corpses on the dead list. */
  function LeadingOrphans(ts: seq<Info>): (n: nat)
    ensures n <= |ts|
    ensures forall i | 0 <= i < n :: ts[i].ppid == 0
    ensures n < |ts| ==> ts[n].ppid != 0
  {
    if ts == [] || ts[0].ppid != 0 then 0 else 1 + LeadingOrphans(ts[1..])
  }

  /** The condition a caller can check: some corpse on the list is the child of a parentless one
      with no zombie in front of it. */
  ghost predicate WillLeak(dead: seq<Info>, t: Info) {
    t.ppid != 0 && exists i :: 0 <= i < LeadingOrphans(dead) && dead[i].pid == t.ppid
  }

  /** A zombie whose parent has been freed. */
  ghost predicate Stranded(s: Sched, t: Info) {
    t in s.dead && t.ppid != 0 && t.ppid in s.freed
  }

  // ---- once a zombie has been kept, every sweep works ----

  lemma {:induction false} ParentsFromInput(ring: seq<Info>, kept: seq<Info>, rest: seq<Info>, freed: seq<nat>, p: nat)
    requires p != 0 && (forall u | u in kept :: u.ppid != p) && (forall u | u in rest :: u.ppid != p)
    ensures forall t | t in ReapFrom(ring, kept, rest, freed).1 :: t.ppid != p
    decreases |rest|
  {
    if rest != [] {
      var c, tail := rest[0], rest[1..];
      if c.ppid != 0 {
        ParentsFromInput(ring, kept + [c], tail, freed, p);
      } else if kept == [] {
        ParentsFromInput(Orphaned(ring, c.pid), kept, tail, freed + [c.pid], p);
      } else {
        ParentsFromInput(Orphaned(ring, c.pid), Orphaned(kept, c.pid), Orphaned(tail, c.pid), freed + [c.pid], p);
      }
    }
  }

  lemma {:induction false} KeptMeansSwept(ring: seq<Info>, kept: seq<Info>, rest: seq<Info>, freed: seq<nat>, t: Info)
    requires kept != [] && t in ReapFrom(ring, kept, rest, freed).1 && t.ppid != 0
    ensures NotAfter(ReapFrom(ring, kept, rest, freed).2, |freed|, t.ppid)
    decreases |rest|
  {
    if rest != [] {
      var c, tail := rest[0], rest[1..];
      if c.ppid != 0 {
        KeptMeansSwept(ring, kept + [c], tail, freed, t);
      } else {
        var ring', kept', tail' := Orphaned(ring, c.pid), Orphaned(kept, c.pid), Orphaned(tail, c.pid);
        KeptMeansSwept(ring', kept', tail', freed + [c.pid], t);
        ReapOnlyAdds(ring', kept', tail', freed + [c.pid]);
        if c.pid != 0 {
          ParentsFromInput(ring', kept', tail', freed + [c.pid], c.pid);
        }
        assert ReapFrom(ring, kept, rest, freed) == ReapFrom(ring', kept', tail', freed + [c.pid]);
      }
    }
  }

  /** A zombie stranded by a pass is the child of a leading parentless corpse. */
  lemma {:induction false} StrandedBy(ring: seq<Info>, rest: seq<Info>, freed: seq<nat>, t: Info)
    requires t in ReapFrom(ring, [], rest, freed).1 && t.ppid != 0
    requires !NotAfter(ReapFrom(ring, [], rest, freed).2, |freed|, t.ppid)
    ensures WillLeak(rest, t)
    decreases |rest|
  {
    if rest != [] {
      var c, tail := rest[0], rest[1..];
      if c.ppid != 0 {
        KeptMeansSwept(ring, [] + [c], tail, freed, t);
      } else {
        var ring' := Orphaned(ring, c.pid);
        assert ReapFrom(ring, [], rest, freed) == ReapFrom(ring', [], tail, freed + [c.pid]);
        ReapOnlyAdds(ring', [], tail, freed + [c.pid]);
        if c.pid == t.ppid {
          assert rest[0].pid == t.ppid;
        } else {
          StrandedBy(ring', tail, freed + [c.pid], t);
          var i :| 0 <= i < LeadingOrphans(tail) && tail[i].pid == t.ppid;
          assert rest[i + 1].pid == t.ppid;
        }
      }
    }
  }

  /** The child of a leading parentless corpse is stranded by the pass. */
  lemma {:induction false} LeadingOrphanStrands(ring: seq<Info>, rest: seq<Info>, freed: seq<nat>, t: Info)
    requires t in rest && WillLeak(rest, t)
    requires multiset(ReapFrom(ring, [], rest, freed).2)[t.ppid] <= 1
    ensures t in ReapFrom(ring, [], rest, freed).1 && t.ppid in ReapFrom(ring, [], rest, freed).2
    decreases |rest|
  {
    var c, tail := rest[0], rest[1..];
    var ring' := Orphaned(ring, c.pid);
    var r := ReapFrom(ring', [], tail, freed + [c.pid]);
    assert ReapFrom(ring, [], rest, freed) == r;
    ReapOnlyAdds(ring', [], tail, freed + [c.pid]);
    assert r.2[|freed|] == c.pid;
    assert t in tail;
    if c.pid == t.ppid {
      forall i | |freed| + 1 <= i < |r.2|
        ensures r.2[i] != t.ppid
      {
        if r.2[i] == t.ppid {
          TwiceIn(r.2, |freed|, i);
        }
      }
      ReapKeepsZombie(ring', [], tail, freed + [c.pid], t);
    } else {
      var i :| 0 <= i < LeadingOrphans(rest) && rest[i].pid == t.ppid;
      assert tail[i - 1].pid == t.ppid;
      LeadingOrphanStrands(ring', tail, freed + [c.pid], t);
    }
  }

  /** What a reap leaves on the dead list, with a parent, was there before. */
  lemma {:induction false} StillThere(ring: seq<Info>, kept: seq<Info>, rest: seq<Info>, freed: seq<nat>, t: Info)
    requires t in ReapFrom(ring, kept, rest, freed).1 && t.ppid != 0
    ensures t in kept || t in rest
    decreases |rest|
  {
    if rest != [] {
      var c, tail := rest[0], rest[1..];
      if c.ppid != 0 {
        StillThere(ring, kept + [c], tail, freed, t);
      } else if kept == [] {
        StillThere(Orphaned(ring, c.pid), kept, tail, freed + [c.pid], t);
      } else {
        StillThere(Orphaned(ring, c.pid), Orphaned(kept, c.pid), Orphaned(tail, c.pid), freed + [c.pid], t);
        if t in Orphaned(kept, c.pid) { NotAdopted(kept, c.pid, t); } else { NotAdopted(tail, c.pid, t); }
      }
    }
  }

  lemma NotAdopted(ts: seq<Info>, pid: nat, t: Info)
    requires t in Orphaned(ts, pid) && t.ppid != 0
    ensures t in ts
  {
    var i :| 0 <= i < |ts| && Orphaned(ts, pid)[i] == t;
    assert ts[i] == t;
  }

  /** Exactly which zombies a reap strands: those whose parent is a parentless corpse with no
      zombie in front of it on the dead list. */
  lemma ReapStrandsExactly(s: Sched, t: Info)
    requires Accounted(s) && DeadStates(s.dead)
    ensures Stranded(Reap(s), t) <==> Stranded(s, t) || (t in s.dead && WillLeak(s.dead, t))
  {
    ReapInv(s);
    ReapOnlyAdds(s.ring, [], s.dead, s.freed);
    var r := Reap(s);
    if Stranded(r, t) {
      StillThere(s.ring, [], s.dead, s.freed, t);
    }
    if Stranded(s, t) {
      FreshlyFreed(s, t.ppid);
      ReapKeepsZombie(s.ring, [], s.dead, s.freed, t);
      assert s.freed <= r.freed;
      var i :| 0 <= i < |s.freed| && s.freed[i] == t.ppid;
      assert r.freed[i] == t.ppid;
    } else if t in s.dead {
      ReapStrands(s, t);
    }
  }

  lemma ReapStrands(s: Sched, t: Info)
    requires Accounted(s) && DeadStates(s.dead) && t in s.dead && !Stranded(s, t)
    ensures Stranded(Reap(s), t) <==> WillLeak(s.dead, t)
  {
    ReapInv(s);
    var r := Reap(s);
    ReapOnlyAdds(s.ring, [], s.dead, s.freed);
    if WillLeak(s.dead, t) {
      assert Account(r)[t.ppid] <= 1;
      LeadingOrphanStrands(s.ring, s.dead, s.freed, t);
    }
    if Stranded(r, t) {
      assert t.ppid !in s.freed;
      var i :| 0 <= i < |r.freed| && r.freed[i] == t.ppid;
      NewIndex(s.freed, r.freed, i);
      StrandedBy(s.ring, s.dead, s.freed, t);
    }
  }

  lemma NewIndex(before: seq<nat>, after: seq<nat>, i: nat)
    requires before <= after && i < |after| && after[i] !in before
    ensures i >= |before|
  {
  }

  // ---- every entry ----

  ghost predicate FreedParent(s: Sched, t: Info) {
    t.ppid != 0 && t.ppid in s.freed
  }

  /** Exactly when this entry strands t. The entries that reap strand by reaping; an exit or a kill
      strands a task whose parent is gone already; and waitpid strands the zombies whose parent it
      collects. */
  ghost predicate Strands(s: Sched, op: Op, t: Info)
    requires Enabled(s, op)
  {
    match op
    case OpYield => t in s.dead && WillLeak(s.dead, t)
    case OpSleep(_) => t in s.dead && WillLeak(s.dead, t)
    case OpReap => t in s.dead && WillLeak(s.dead, t)
    case OpExit(code) => ExitStrands(s, code, t)
    case OpKill(pid) =>
      var k := IndexOf(s.ring, pid);
      pid != IDLE && k < |s.ring| &&
      if k == 0 then ExitStrands(s, 0, t) else t == Remains(s.ring[k], -1) && FreedParent(s, t)
    case OpWait(arg) => t in s.dead && t.ppid != 0 && Wait(s, arg).1.Collected? && Wait(s, arg).1.pid == t.ppid
    case OpCreate => false
    case OpFork => false
    case OpWake(_) => false
  }

  ghost predicate ExitStrands(s: Sched, code: int, t: Info)
    requires s.ring != []
  {
    (t in s.dead && WillLeak(s.dead, t)) || (t == Remains(s.ring[0], code) && FreedParent(s, t))
  }

  /** A schedule() that buries nobody. */
  lemma ScheduleStrands(s: Sched, t: Info)
    requires s.ring != [] && Accounted(s) && DeadStates(s.dead) && s.ring[0].state != Dead
    ensures Stranded(Schedule(s), t) <==> Stranded(s, t) || (t in s.dead && WillLeak(s.dead, t))
  {
    ReapStrandsExactly(s, t);
    ReapKeepsRing(s.ring, [], s.dead, s.freed);
  }

  lemma ExitStrandsExactly(s: Sched, code: int, t: Info)
    requires Inv(s) && s.ring[0].pid != IDLE
    ensures Stranded(Exit(s, code), t) <==> Stranded(s, t) || ExitStrands(s, code, t)
  {
    var t0 := s.ring[0].(exitCode := code, state := Dead);
    var s1 := s.(ring := s.ring[0 := t0]);
    CurrentChanged(s, t0);
    var r := Reap(s1);
    ReapRing(s1);
    SchedulableSame(s1.ring, r.ring);
    DyingTaskSwitches(r.ring);
    ReapStrandsExactly(s1, t);
    var c := Corpse(r.ring[0]);
    assert Exit(s, code).dead == [c] + r.dead && Exit(s, code).freed == r.freed;
    CorpseStranded(s1, t);
    assert Stranded(Exit(s, code), t) <==> Stranded(r, t) || (t == c && FreedParent(r, t));
  }

  /** A task on the run queue has a freed parent after a reap only if it had before. */
  lemma ReapForsakesNone(s: Sched, i: nat)
    requires i < |s.ring| && Accounted(s) && DeadStates(s.dead)
    ensures i < |Reap(s).ring| && (FreedParent(Reap(s), Reap(s).ring[i]) <==> FreedParent(s, s.ring[i]))
    ensures FreedParent(s, s.ring[i]) ==> Reap(s).ring[i] == s.ring[i]
  {
    var r, p := Reap(s), s.ring[i].ppid;
    ReapInv(s);
    ReapKeepsRing(s.ring, [], s.dead, s.freed);
    ReapOnlyAdds(s.ring, [], s.dead, s.freed);
    if p in s.freed {
      FreshlyFreed(s, p);
      ReapKeepsParent(s.ring, [], s.dead, s.freed, i);
      var j :| 0 <= j < |s.freed| && s.freed[j] == p;
      assert r.freed[j] == p;
    } else if p in r.freed && p != 0 {
      SweptRing(s.ring, [], s.dead, s.freed, i);
    }
  }

  /** What leaves the run queue has a freed parent only if that parent was freed before. */
  lemma CorpseStranded(s: Sched, t: Info)
    requires s.ring != [] && Accounted(s) && DeadStates(s.dead) && s.ring[0].state == Dead
    ensures Reap(s).ring != []
    ensures t == Corpse(Reap(s).ring[0]) && FreedParent(Reap(s), t) <==> t == s.ring[0].(state := Zombie)
                                                                         && FreedParent(s, t)
  {
    ReapForsakesNone(s, 0);
    ReapKeepsRing(s.ring, [], s.dead, s.freed);
  }

  /** A pass that frees a parent orphans its children on the run queue. */
  lemma {:induction false} SweptRing(ring: seq<Info>, kept: seq<Info>, rest: seq<Info>, freed: seq<nat>, i: nat)
    requires i < |ring| && ring[i].ppid != 0 && ring[i].ppid !in freed
             && ring[i].ppid in ReapFrom(ring, kept, rest, freed).2
    ensures i < |ReapFrom(ring, kept, rest, freed).0| && ReapFrom(ring, kept, rest, freed).0[i].ppid == 0
    decreases |rest|
  {
    var c, tail := rest[0], rest[1..];
    if c.ppid != 0 {
      SweptRing(ring, kept + [c], tail, freed, i);
    } else {
      var k, t := if kept == [] then kept else Orphaned(kept, c.pid),
        if kept == [] then tail else Orphaned(tail, c.pid);
      var ring' := Orphaned(ring, c.pid);
      assert ReapFrom(ring, kept, rest, freed) == ReapFrom(ring', k, t, freed + [c.pid]);
      if c.pid == ring[i].ppid {
        ReapKeepsRing(ring', k, t, freed + [c.pid]);
      } else {
        SweptRing(ring', k, t, freed + [c.pid], i);
      }
    }
  }

  lemma WaitStrands(s: Sched, arg: int, t: Info)
    requires Inv(s)
    ensures Stranded(Wait(s, arg).0, t) <==> Stranded(s, t) || Strands(s, OpWait(arg), t)
  {
    var k := FirstMatch(s.dead, s.ring[0].pid, arg);
    if arg >= -1 && k < |s.dead| {
      var c := s.dead[k];
      TakenOut(s, k, t);
      NotItself(s, k);
      if t.ppid in s.freed {
        FreedIsNotCurrent(s, t.ppid);
      }
      assert t.ppid in s.freed + [c.pid] <==> t.ppid in s.freed || t.ppid == c.pid;
    }
  }

  /** The corpse taken out, and only it, is no longer on the list. */
  lemma TakenOut(s: Sched, k: nat, t: Info)
    requires Accounted(s) && k < |s.dead|
    ensures t in s.dead[..k] + s.dead[k + 1..] <==> t in s.dead && t != s.dead[k]
  {
    var ds := s.dead[..k] + s.dead[k + 1..];
    if t in ds {
      var i :| 0 <= i < |ds| && ds[i] == t;
      var j := if i < k then i else i + 1;
      assert s.dead[j] == t;
      OncePerPid(s, j, k);
    }
    if t in s.dead && t != s.dead[k] {
      var i :| 0 <= i < |s.dead| && s.dead[i] == t;
      assert ds[if i < k then i else i - 1] == t;
    }
  }

  lemma OncePerPid(s: Sched, j: nat, k: nat)
    requires Accounted(s) && j < |s.dead| && k < |s.dead| && j != k
    ensures s.dead[j].pid != s.dead[k].pid
  {
    var ps, p := Pids(s.dead), s.dead[j].pid;
    assert Account(s)[p] >= multiset(ps)[p];
    if ps[j] == ps[k] {
      if j < k { TwiceIn(ps, j, k); } else { TwiceIn(ps, k, j); }
    }
  }

  /** The child the caller collects is not the caller. */
  lemma NotItself(s: Sched, k: nat)
    requires Inv(s) && k < |s.dead|
    ensures s.dead[k].pid != s.ring[0].pid
  {
    var p := s.dead[k].pid;
    assert Pids(s.dead)[k] == p && Pids(s.ring)[0] == s.ring[0].pid;
    assert p in multiset(Pids(s.dead)) && s.ring[0].pid in multiset(Pids(s.ring));
    assert Account(s)[p] == multiset(Pids(s.ring))[p] + multiset(Pids(s.dead))[p] + multiset(s.freed)[p];
  }

  lemma KillStrands(s: Sched, pid: nat, t: Info)
    requires Inv(s)
    ensures Stranded(Kill(s, pid), t) <==> Stranded(s, t) || Strands(s, OpKill(pid), t)
  {
    var k := IndexOf(s.ring, pid);
    if pid != IDLE && k == 0 {
      ExitStrandsExactly(s, 0, t);
    } else if pid != IDLE && k < |s.ring| {
      var c := Corpse(s.ring[k]).(exitCode := -1);
      assert Kill(s, pid).dead == [c] + s.dead;
    }
  }

  /** For every entry: a zombie is stranded afterwards exactly if it was before, or if this entry
      strands it. */
  lemma StepStrandsExactly(s: Sched, op: Op, t: Info)
    requires Inv(s) && Enabled(s, op)
    ensures Stranded(Step(s, op), t) <==> Stranded(s, t) || Strands(s, op, t)
  {
    match op {
      case OpCreate =>
      case OpFork =>
      case OpYield => ScheduleStrands(s, t);
      case OpExit(code) => ExitStrandsExactly(s, code, t);
      case OpKill(pid) => KillStrands(s, pid, t);
      case OpSleep(wakeAt) =>
        var t0 := s.ring[0].(sleepUntil := wakeAt, state := Sleeping);
        CurrentChanged(s, t0);
        ScheduleStrands(s.(ring := s.ring[0 := t0]), t);
      case OpWake(now) =>
      case OpReap => ReapStrandsExactly(s, t);
      case OpWait(arg) => WaitStrands(s, arg, t);
    }
  }

  // ---- where tasks with a freed parent come from ----

  /** The same task, as far as its parent goes. */
  ghost predicate SameFamily(t: Info, u: Info) {
    t.pid == u.pid && t.ppid == u.ppid
  }

  /** Some task on this queue is u, as far as its parent goes. */
  ghost predicate Among(ring: seq<Info>, u: Info) {
    exists i :: 0 <= i < |ring| && SameFamily(ring[i], u)
  }

  lemma SwitchKeepsFamily(s: Sched, k: nat, u: Info)
    requires 0 < k < |s.ring| && u in SwitchTo(s, k).ring
    ensures Among(s.ring, u)
  {
    var r := SwitchTo(s, k).ring;
    var i :| 0 <= i < |r| && r[i] == u;
    var n := |s.ring| - k;
    var gone := if Requeued(s.ring[0]).state == Dead then 1 else 0;
    var j := if i < n then i + k else i - n + gone;
    assert SameFamily(s.ring[j], u);
  }

  lemma ScheduleForsakesNone(s: Sched, u: Info)
    requires s.ring != [] && Accounted(s) && DeadStates(s.dead) && u in Schedule(s).ring && FreedParent(Schedule(s), u)
    ensures Among(s.ring, u) && FreedParent(s, u)
  {
    var r := Reap(s);
    ReapKeepsRing(s.ring, [], s.dead, s.freed);
    var k := Pick(r.ring);
    assert Schedule(s).freed == r.freed;
    if k > 0 {
      SwitchKeepsFamily(r, k, u);
    } else {
      var j :| 0 <= j < |r.ring| && r.ring[j] == u;
      assert SameFamily(r.ring[j], u);
    }
    var i :| 0 <= i < |r.ring| && SameFamily(r.ring[i], u);
    assert SameFamily(r.ring[i], u);
    assert FreedParent(r, r.ring[i]);
    ReapForsakesNone(s, i);
    assert r.ring[i] == s.ring[i];
    assert SameFamily(s.ring[i], u);
  }

  lemma LeaveForsakesNone(s: Sched, t: Info, u: Info)
    requires Inv(s) && s.ring[0].pid != IDLE && SameFamily(s.ring[0], t) && (t.state == Dead || t.state == Sleeping)
    requires var s1 := s.(ring := s.ring[0 := t]); u in Schedule(s1).ring && FreedParent(Schedule(s1), u)
    ensures Among(s.ring, u) && FreedParent(s, u)
  {
    CurrentChanged(s, t);
    var s1 := s.(ring := s.ring[0 := t]);
    ScheduleForsakesNone(s1, u);
    var i :| 0 <= i < |s1.ring| && SameFamily(s1.ring[i], u);
    assert SameFamily(s.ring[i], u);
  }

  /** A task on the run queue has a freed parent after an entry only if it had one before, or if the
      entry is the waitpid that collects its parent ... */
  lemma ForsakenOnlyByWait(s: Sched, op: Op, u: Info)
    requires Inv(s) && Enabled(s, op) && u in Step(s, op).ring && FreedParent(Step(s, op), u)
    ensures Among(s.ring, u)
    ensures FreedParent(s, u) || (op.OpWait? && Wait(s, op.arg).1.Collected? && Wait(s, op.arg).1.pid == u.ppid)
  {
    match op {
      case OpCreate => CreatedOrThere(s, 0, u);
      case OpFork => CreatedOrThere(s, s.ring[0].pid, u);
      case OpYield => ScheduleForsakesNone(s, u);
      case OpExit(code) => LeaveForsakesNone(s, s.ring[0].(exitCode := code, state := Dead), u);
      case OpKill(pid) => KillForsakesNone(s, pid, u);
      case OpSleep(wakeAt) => LeaveForsakesNone(s, s.ring[0].(sleepUntil := wakeAt, state := Sleeping), u);
      case OpWake(now) =>
        var i :| 0 <= i < |s.ring| && Awake(s.ring[i], now) == u;
        assert SameFamily(s.ring[i], u);
      case OpReap =>
        ReapKeepsRing(s.ring, [], s.dead, s.freed);
        var i :| 0 <= i < |Reap(s).ring| && Reap(s).ring[i] == u;
        ReapForsakesNone(s, i);
        assert SameFamily(s.ring[i], u);
      case OpWait(arg) =>
        var i :| 0 <= i < |s.ring| && s.ring[i] == u;
        assert SameFamily(s.ring[i], u);
    }
  }

  /** ... and that waitpid does it to every child of the one it collects. */
  lemma WaitForsakes(s: Sched, arg: int, u: Info)
    requires Inv(s) && u in s.ring && u.ppid != 0 && Wait(s, arg).1.Collected? && Wait(s, arg).1.pid == u.ppid
    ensures u in Wait(s, arg).0.ring && FreedParent(Wait(s, arg).0, u)
  {
    assert Wait(s, arg).0.freed[|s.freed|] == u.ppid;
  }

  lemma CreatedOrThere(s: Sched, ppid: nat, u: Info)
    requires Inv(s) && (ppid == 0 || ppid == s.ring[0].pid) && u in Create(s, ppid).ring && FreedParent(s, u)
    ensures Among(s.ring, u)
  {
    var r := Create(s, ppid).ring;
    var i :| 0 <= i < |r| && r[i] == u;
    FreedIsNotCurrent(s, u.ppid);
    assert i < |s.ring|;
    assert SameFamily(s.ring[i], u);
  }

  lemma KillForsakesNone(s: Sched, pid: nat, u: Info)
    requires Inv(s) && u in Kill(s, pid).ring && FreedParent(Kill(s, pid), u)
    ensures Among(s.ring, u) && FreedParent(s, u)
  {
    var k := IndexOf(s.ring, pid);
    if pid != IDLE && k == 0 {
      LeaveForsakesNone(s, s.ring[0].(exitCode := 0, state := Dead), u);
    } else {
      var r := Kill(s, pid).ring;
      var i :| 0 <= i < |r| && r[i] == u;
      var j := if |r| == |s.ring| || i < k then i else i + 1;
      assert SameFamily(s.ring[j], u);
    }
  }

  // ---- every run ----

  /** Some entry of the run strands t. */
  ghost predicate StrandedDuring(s: Sched, ops: seq<Op>, t: Info)
    requires EnabledRun(s, ops)
    decreases |ops|
  {
    ops != [] && (Strands(s, ops[0], t) || StrandedDuring(Step(s, ops[0]), ops[1..], t))
  }

  /** Over every run: a zombie is left behind at the end exactly if some entry on the way left it. */
  lemma {:induction false} RunStrandsExactly(s: Sched, ops: seq<Op>, t: Info)
    requires Inv(s) && EnabledRun(s, ops)
    ensures Stranded(Run(s, ops), t) <==> Stranded(s, t) || StrandedDuring(s, ops, t)
    decreases |ops|
  {
    if ops != [] {
      StepInv(s, ops[0]);
      StepStrandsExactly(s, ops[0], t);
      RunStrandsExactly(Step(s, ops[0]), ops[1..], t);
    }
  }

  // ---- stranded for ever ----

  lemma StepFreesNew(s: Sched, op: Op, p: nat)
    requires Inv(s) && Enabled(s, op) && p in s.freed
    ensures NotAfter(Step(s, op).freed, |s.freed|, p)
  {
    StepInv(s, op);
    StepOnlyFrees(s, op);
    var f := Step(s, op).freed;
    var j :| 0 <= j < |s.freed| && s.freed[j] == p;
    assert f[j] == p;
    assert multiset(f)[p] <= 1 by { assert Account(Step(s, op))[p] <= 1; }
    forall i | |s.freed| <= i < |f|
      ensures f[i] != p
    {
      if f[i] == p { TwiceIn(f, j, i); }
    }
  }

  lemma FreedIsNotCurrent(s: Sched, p: nat)
    requires Inv(s) && p in s.freed
    ensures s.ring[0].pid != p
  {
    assert Pids(s.ring)[0] in multiset(Pids(s.ring));
    assert Account(s)[p] == multiset(Pids(s.ring))[p] + multiset(Pids(s.dead))[p] + multiset(s.freed)[p];
  }

  /** A stranded zombie is never reaped and never collected: it stays for the rest of time. */
  lemma {:induction false} StrandedForever(s: Sched, ops: seq<Op>, t: Info)
    requires Inv(s) && EnabledRun(s, ops) && Stranded(s, t)
    ensures Stranded(Run(s, ops), t) && !CollectedDuring(s, ops, t)
    decreases |ops|
  {
    if ops != [] {
      var s' := Step(s, ops[0]);
      StepInv(s, ops[0]);
      StepFreesNew(s, ops[0], t.ppid);
      StepOnlyFrees(s, ops[0]);
      FreedIsNotCurrent(s, t.ppid);
      StepKeepsZombie(s, ops[0], t);
      StrandedForever(s', ops[1..], t);
    }
  }

  // ---- and it happens: a forgotten child ----

  function Idle(state: TaskState): Info { Info(IDLE, state, 0, 0, 0) }

  /** Boot, start a task, let it fork, let the child exit with 7, let the parent exit unwaiting. */
  const FORGOTTEN: seq<Op> := [OpCreate, OpYield, OpFork, OpYield, OpExit(7), OpExit(0)]

  function ForgottenState(): Sched {
    Sched([Idle(Running)], [Info(1, Dead, 0, 0, 0), Info(2, Zombie, 1, 7, 0)], [], 3)
  }

  lemma ForkAndYield()
    ensures var s1 := Create(Boot(), 0);
            var s2 := Sched([Info(1, Running, 0, 0, 0), Idle(Ready)], [], [], 2);
            var s3 := Create(s2, 1);
            && Schedule(s1) == s2
            && Schedule(s3) == Sched([Info(2, Running, 1, 0, 0), Info(1, Ready, 0, 0, 0), Idle(Ready)], [], [], 3)
  {
    var s1 := Create(Boot(), 0);
    assert s1.ring == [Idle(Ready), Info(1, Ready, 0, 0, 0)];
    assert NextReady(s1.ring, 1) == 1;
    var s3 := Create(Sched([Info(1, Running, 0, 0, 0), Idle(Ready)], [], [], 2), 1);
    assert s3.ring == [Info(1, Running, 0, 0, 0), Idle(Ready), Info(2, Ready, 1, 0, 0)];
    assert NextReady(s3.ring, 2) == 2;
  }

  lemma ChildExits()
    ensures Exit(Sched([Info(2, Running, 1, 0, 0), Info(1, Ready, 0, 0, 0), Idle(Ready)], [], [], 3), 7)
         == Sched([Info(1, Running, 0, 0, 0), Idle(Ready)], [Info(2, Zombie, 1, 7, 0)], [], 3)
  {
    var ring := [Info(2, Dead, 1, 7, 0), Info(1, Ready, 0, 0, 0), Idle(Ready)];
    assert NextReady(ring, 1) == 1;
  }

  lemma ParentExits()
    ensures Exit(Sched([Info(1, Running, 0, 0, 0), Idle(Ready)], [Info(2, Zombie, 1, 7, 0)], [], 3), 0) ==
            ForgottenState()
  {
    var ring, z := [Info(1, Dead, 0, 0, 0), Idle(Ready)], Info(2, Zombie, 1, 7, 0);
    assert ring[1] == Idle(Ready);
    assert NextReady(ring, 2) == 2;
    assert NextReady(ring, 1) == NextReady(ring, 2);
    assert Fallback(ring, 1) == 1;
    assert [z][1..] == [];
    assert [] + [z] == [z];
    assert ReapFrom(ring, [], [z], []) == ReapFrom(ring, [] + [z], [z][1..], []) == (ring, [z], []);
  }

  lemma ForgottenLeaks()
    requires Inv(ForgottenState())
    ensures Stranded(Reap(ForgottenState()), Info(2, Zombie, 1, 7, 0))
  {
    var s, child := ForgottenState(), Info(2, Zombie, 1, 7, 0);
    assert s.dead[0].pid == child.ppid && s.dead[1] == child;
    assert LeadingOrphans(s.dead) == 1 by { assert s.dead[1..][0] == child; }
    ReapStrandsExactly(s, child);
  }

  /** From boot: the next reap strands the child, for ever. */
  lemma ForgottenChildIsStranded()
    ensures EnabledRun(Boot(), FORGOTTEN) && Run(Boot(), FORGOTTEN) == ForgottenState()
    ensures Stranded(Reap(ForgottenState()), Info(2, Zombie, 1, 7, 0))
  {
    ForkAndYield();
    ChildExits();
    ParentExits();
    var s1 := Create(Boot(), 0);
    var s2 := Schedule(s1);
    var s3 := Create(s2, 1);
    var s4 := Schedule(s3);
    var s5 := Exit(s4, 7);
    RunTwo(Boot(), OpCreate, OpYield, FORGOTTEN);
    RunTwo(s2, OpFork, OpYield, FORGOTTEN[2..]);
    RunTwo(s4, OpExit(7), OpExit(0), FORGOTTEN[4..]);
    assert FORGOTTEN[2..][2..] == FORGOTTEN[4..];
    BootInv();
    RunInv(Boot(), FORGOTTEN);
    ForgottenLeaks();
  }

  // ---- and it happens again: a collected parent ----

  /** Boot, start a task, let it fork, let the child fork, kill grandchild and child, collect the child. */
  const COLLECTED: seq<Op> := [OpCreate, OpYield, OpFork, OpYield, OpFork, OpYield, OpKill(3), OpKill(2)]

  function CollectedState(): Sched {
    Sched([Info(1, Running, 0, 0, 0), Idle(Ready)], [Info(2, Zombie, 1, -1, 0), Info(3, Zombie, 2, -1, 0)], [], 4)
  }

  lemma Grandchild()
    ensures var s4 := Sched([Info(2, Running, 1, 0, 0), Info(1, Ready, 0, 0, 0), Idle(Ready)], [], [], 3);
            Schedule(Create(s4, 2)) == Sched([Info(1, Running, 0, 0, 0), Idle(Ready), Info(3, Ready, 2, 0, 0),
              Info(2, Ready, 1, 0, 0)], [], [], 4)
  {
    var ring := [Info(2, Running, 1, 0, 0), Info(1, Ready, 0, 0, 0), Idle(Ready)] + [Info(3, Ready, 2, 0, 0)];
    assert NextReady(ring, 1) == 1;
  }

  lemma BothKilled()
    ensures var s := Sched([Info(1, Running, 0, 0, 0), Idle(Ready), Info(3, Ready, 2, 0, 0), Info(2, Ready, 1, 0, 0)],
            [], [], 4);
            Kill(Kill(s, 3), 2) == CollectedState()
  {
    var s := Sched([Info(1, Running, 0, 0, 0), Idle(Ready), Info(3, Ready, 2, 0, 0), Info(2, Ready, 1, 0, 0)], [], [],
      4);
    Find(s.ring, 3, 2);
    var s' := Kill(s, 3);
    assert s'.ring == [Info(1, Running, 0, 0, 0), Idle(Ready), Info(2, Ready, 1, 0, 0)];
    Find(s'.ring, 2, 2);
    assert s'.dead == [Info(3, Zombie, 2, -1, 0)];
  }

  lemma Find(ts: seq<Info>, pid: nat, k: nat)
    requires k < |ts| && ts[k].pid == pid && forall j | 0 <= j < k :: ts[j].pid != pid
    ensures IndexOf(ts, pid) == k
  {
  }

  /** From boot: the parent's waitpid strands the grandchild, although neither a reap nor the state
      before would. */
  lemma CollectedParentStrands()
    ensures EnabledRun(Boot(), COLLECTED) && Run(Boot(), COLLECTED) == CollectedState()
    ensures var t := Info(3, Zombie, 2, -1, 0);
            && !Stranded(CollectedState(), t) && !WillLeak(CollectedState().dead, t)
            && Stranded(Step(CollectedState(), OpWait(-1)), t)
  {
    ForkAndYield();
    var s2 := Schedule(Create(Boot(), 0));
    RunTwo(Boot(), OpCreate, OpYield, COLLECTED);
    RunTwo(s2, OpFork, OpYield, COLLECTED[2..]);
    assert COLLECTED[2..][2..] == COLLECTED[4..];
    SecondHalf();
    BootInv();
    RunInv(Boot(), COLLECTED);
    CollectedLeaks();
  }

  lemma SecondHalf()
    ensures var s4 := Sched([Info(2, Running, 1, 0, 0), Info(1, Ready, 0, 0, 0), Idle(Ready)], [], [], 3);
            EnabledRun(s4, COLLECTED[4..]) && Run(s4, COLLECTED[4..]) == CollectedState()
  {
    var s4 := Sched([Info(2, Running, 1, 0, 0), Info(1, Ready, 0, 0, 0), Idle(Ready)], [], [], 3);
    Grandchild();
    BothKilled();
    var s6 := Schedule(Create(s4, 2));
    RunTwo(s4, OpFork, OpYield, COLLECTED[4..]);
    RunTwo(s6, OpKill(3), OpKill(2), COLLECTED[6..]);
    assert COLLECTED[4..][2..] == COLLECTED[6..];
  }

  lemma CollectedLeaks()
    requires Inv(CollectedState())
    ensures var t := Info(3, Zombie, 2, -1, 0);
            && !Stranded(CollectedState(), t) && !WillLeak(CollectedState().dead, t)
            && Stranded(Step(CollectedState(), OpWait(-1)), t)
  {
    var s, t := CollectedState(), Info(3, Zombie, 2, -1, 0);
    assert s.dead[1] == t && FirstMatch(s.dead, 1, -1) == 0;
    assert LeadingOrphans(s.dead) == 0;
    StepStrandsExactly(s, OpWait(-1), t);
  }

  lemma RunTwo(s: Sched, a: Op, b: Op, ops: seq<Op>)
    requires |ops| >= 2 && ops[0] == a && ops[1] == b && Enabled(s, a) && Enabled(Step(s, a), b)
    ensures EnabledRun(s, ops) <==> EnabledRun(Step(Step(s, a), b), ops[2..])
    ensures EnabledRun(s, ops) ==> Run(s, ops) == Run(Step(Step(s, a), b), ops[2..])
  {
    assert ops[1..][1..] == ops[2..];
  }
}
