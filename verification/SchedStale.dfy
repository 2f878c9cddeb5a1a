/** Which corpses a pass of sched_reap (src/sched/sched.c) frees, and when its sweep for children walks
    through a struct the same pass has freed already. */
module SchedStale {
  import opened SchedSpec
  import opened SchedProofs
  import opened SchedLeak

  /** Does the rest of the pass sweep through a freed struct? `held`: some zombie has been kept, so the list
      being rebuilt is not empty; `stale`: a struct freed since is still linked behind the last one. */
  predicate SweepsFreed(held: bool, stale: bool, rest: seq<Info>)
    decreases |rest|
  {
    if rest == [] then false
    else
      var c, tail := rest[0], rest[1..];
      if c.ppid != 0 then SweepsFreed(true, false, tail)
      else if !held then SweepsFreed(false, false, tail)
      else (stale && c.pid != 0) || SweepsFreed(true, true, Orphaned(tail, c.pid))
  }

  // ---- who goes ----

  /** Corpse i goes: it has no parent, or its parent is a corpse that goes before it, behind the first
      zombie. */
  ghost predicate Goes(ts: seq<Info>, i: nat)
    requires i < |ts|
  {
    ts[i].ppid == 0 || exists j :: LeadingOrphans(ts) < j < i && Goes(ts, j) && ts[j].pid == ts[i].ppid
  }

  /** Its parent has gone before the pass comes to p. */
  ghost predicate Bereft(ts: seq<Info>, p: nat, i: nat)
    requires p <= |ts| && i < |ts|
  {
    ts[i].ppid != 0 && exists j :: LeadingOrphans(ts) < j < p && Goes(ts, j) && ts[j].pid == ts[i].ppid
  }

  lemma GoesAt(ts: seq<Info>, p: nat)
    requires p < |ts|
    ensures Goes(ts, p) <==> ts[p].ppid == 0 || Bereft(ts, p, p)
  {
  }

  lemma BereftNext(ts: seq<Info>, p: nat, i: nat)
    requires LeadingOrphans(ts) < p < |ts| && i < |ts|
    ensures Bereft(ts, p + 1, i) <==>
            Bereft(ts, p, i) || (ts[i].ppid != 0 && Goes(ts, p) && ts[p].pid == ts[i].ppid)
  {
  }

  /** The corpses from p on, as the pass finds them. */
  ghost predicate At(ts: seq<Info>, p: nat, cur: seq<Info>) {
    && p <= |ts| && |cur| == |ts| - p
    && forall i {:trigger cur[i]} | 0 <= i < |cur| ::
         cur[i] == if Bereft(ts, p, p + i) then ts[p + i].(ppid := 0) else ts[p + i]
  }

  lemma AtKept(ts: seq<Info>, p: nat, cur: seq<Info>)
    requires LeadingOrphans(ts) < p < |ts| && At(ts, p, cur) && !Goes(ts, p)
    ensures At(ts, p + 1, cur[1..])
  {
    forall i | 0 <= i < |cur[1..]|
      ensures cur[1..][i] == if Bereft(ts, p + 1, p + 1 + i) then ts[p + 1 + i].(ppid := 0) else ts[p + 1 + i]
    {
      BereftNext(ts, p, p + 1 + i);
      assert cur[1..][i] == cur[i + 1];
    }
  }

  lemma AtGone(ts: seq<Info>, p: nat, cur: seq<Info>)
    requires LeadingOrphans(ts) < p < |ts| && At(ts, p, cur) && Goes(ts, p) && ts[p].pid != 0
    ensures At(ts, p + 1, Orphaned(cur[1..], ts[p].pid))
  {
    var next := Orphaned(cur[1..], ts[p].pid);
    forall i | 0 <= i < |next|
      ensures next[i] == if Bereft(ts, p + 1, p + 1 + i) then ts[p + 1 + i].(ppid := 0) else ts[p + 1 + i]
    {
      BereftNext(ts, p, p + 1 + i);
      assert next[i] == Adopt(cur[i + 1], ts[p].pid);
    }
  }

  /** Behind the first zombie every corpse is found as it was. */
  lemma AtFirst(ts: seq<Info>)
    requires LeadingOrphans(ts) < |ts|
    ensures !Goes(ts, LeadingOrphans(ts)) && At(ts, LeadingOrphans(ts) + 1, ts[LeadingOrphans(ts) + 1..])
  {
  }

  ghost predicate NoIdle(ts: seq<Info>) {
    forall i | 0 <= i < |ts| :: ts[i].pid != IDLE
  }

  // ---- what the pass frees ----

  ghost function Going(ts: seq<Info>, p: nat): seq<nat>
    requires p <= |ts|
    decreases |ts| - p
  {
    if p == |ts| then [] else (if Goes(ts, p) then [ts[p].pid] else []) + Going(ts, p + 1)
  }

  lemma Front(ts: seq<Info>, p: nat, cur: seq<Info>)
    requires LeadingOrphans(ts) < p && At(ts, p, cur) && cur != []
    ensures p < |ts| && cur[0].pid == ts[p].pid && (cur[0].ppid == 0 <==> Goes(ts, p))
  {
    assert cur[0] == if Bereft(ts, p, p + 0) then ts[p].(ppid := 0) else ts[p];
    GoesAt(ts, p);
  }

  lemma FreeHeld(ring: seq<Info>, kept: seq<Info>, rest: seq<Info>, freed: seq<nat>)
    requires kept != [] && rest != [] && rest[0].ppid == 0
    ensures var pid := rest[0].pid;
            ReapFrom(ring, kept, rest, freed) ==
            ReapFrom(Orphaned(ring, pid), Orphaned(kept, pid), Orphaned(rest[1..], pid), freed + [pid])
  {
  }

  lemma KeepHeld(ring: seq<Info>, kept: seq<Info>, rest: seq<Info>, freed: seq<nat>)
    requires rest != [] && rest[0].ppid != 0
    ensures ReapFrom(ring, kept, rest, freed) == ReapFrom(ring, kept + [rest[0]], rest[1..], freed)
  {
  }

  lemma {:induction false} FreesFrom(ring: seq<Info>, kept: seq<Info>, cur: seq<Info>, freed: seq<nat>, ts: seq<Info>,
                                     p: nat)
    requires LeadingOrphans(ts) < p && At(ts, p, cur) && NoIdle(ts) && kept != []
    ensures ReapFrom(ring, kept, cur, freed).2 == freed + Going(ts, p)
    decreases |cur|
  {
    if cur != [] {
      var tail, pid := cur[1..], cur[0].pid;
      Front(ts, p, cur);
      GoingNext(ts, p, cur[0].ppid == 0, freed);
      if cur[0].ppid == 0 {
        AtGone(ts, p, cur);
        FreeHeld(ring, kept, cur, freed);
        FreesFrom(Orphaned(ring, pid), Orphaned(kept, pid), Orphaned(tail, pid), freed + [pid], ts, p + 1);
      } else {
        AtKept(ts, p, cur);
        KeepHeld(ring, kept, cur, freed);
        FreesFrom(ring, kept + [cur[0]], tail, freed, ts, p + 1);
      }
    }
  }

  lemma FreeLeading(ring: seq<Info>, rest: seq<Info>, freed: seq<nat>)
    requires rest != [] && rest[0].ppid == 0
    ensures ReapFrom(ring, [], rest, freed) ==
            ReapFrom(Orphaned(ring, rest[0].pid), [], rest[1..], freed + [rest[0].pid])
  {
  }

  lemma GoingNext(ts: seq<Info>, p: nat, goes: bool, freed: seq<nat>)
    requires p < |ts| && goes == Goes(ts, p)
    ensures freed + Going(ts, p) == (if goes then freed + [ts[p].pid] else freed) + Going(ts, p + 1)
  {
    Regrouped(freed, if goes then [ts[p].pid] else [], Going(ts, p + 1));
    assert freed + [] == freed;
  }

  lemma Regrouped(a: seq<nat>, b: seq<nat>, c: seq<nat>)
    ensures a + (b + c) == (a + b) + c
  {
  }

  /** The front of the list: parentless corpses, with nothing kept yet. */
  lemma {:induction false} FreesFront(ring: seq<Info>, ts: seq<Info>, rest: seq<Info>, freed: seq<nat>, p: nat)
    requires p <= LeadingOrphans(ts) && NoIdle(ts) && rest == ts[p..]
    ensures ReapFrom(ring, [], rest, freed).2 == freed + Going(ts, p)
    decreases |ts| - p
  {
    if p < |ts| {
      assert rest[0] == ts[p] && rest[1..] == ts[p + 1..];
      GoingNext(ts, p, Goes(ts, p), freed);
      if p < LeadingOrphans(ts) {
        FreeLeading(ring, rest, freed);
        FreesFront(Orphaned(ring, ts[p].pid), ts, rest[1..], freed + [ts[p].pid], p + 1);
      } else {
        AtFirst(ts);
        KeepHeld(ring, [], rest, freed);
        assert [] + [ts[p]] == [ts[p]];
        FreesFrom(ring, [ts[p]], rest[1..], freed, ts, p + 1);
      }
    }
  }

  /** sched_reap frees exactly the corpses that go, in list order. */
  lemma ReapFreesExactly(s: Sched)
    requires NoIdle(s.dead)
    ensures Reap(s).freed == s.freed + Going(s.dead, 0)
  {
    assert s.dead[0..] == s.dead;
    FreesFront(s.ring, s.dead, s.dead, s.freed, 0);
  }

  // ---- what the sweeps walk through ----

  /** Two corpses in a row go, behind the first zombie, from p on. */
  ghost predicate TwoInARow(ts: seq<Info>, p: nat) {
    exists i {:trigger Goes(ts, i)} :: LeadingOrphans(ts) < i && p <= i && i + 1 < |ts|
      && Goes(ts, i) && Goes(ts, i + 1)
  }

  lemma TwoFrom(ts: seq<Info>, p: nat)
    requires LeadingOrphans(ts) < p
    ensures p < |ts| ==> (TwoInARow(ts, p) <==>
                            TwoInARow(ts, p + 1) || (p + 1 < |ts| && Goes(ts, p) && Goes(ts, p + 1)))
    ensures p >= |ts| ==> !TwoInARow(ts, p)
  {
  }

  lemma {:induction false} SweepsFrom(stale: bool, cur: seq<Info>, ts: seq<Info>, p: nat)
    requires LeadingOrphans(ts) < p && At(ts, p, cur) && NoIdle(ts)
    ensures SweepsFreed(true, stale, cur) <==> (p < |ts| && stale && Goes(ts, p)) || TwoInARow(ts, p)
    decreases |cur|
  {
    TwoFrom(ts, p);
    if cur != [] {
      Front(ts, p, cur);
      if cur[0].ppid == 0 {
        AtGone(ts, p, cur);
        SweepsFrom(true, Orphaned(cur[1..], ts[p].pid), ts, p + 1);
      } else {
        AtKept(ts, p, cur);
        SweepsFrom(false, cur[1..], ts, p + 1);
      }
    }
  }

  lemma {:induction false} SweepsFront(ts: seq<Info>, p: nat)
    requires p <= LeadingOrphans(ts) && NoIdle(ts)
    ensures SweepsFreed(false, false, ts[p..]) <==> TwoInARow(ts, 0)
    decreases |ts| - p
  {
    if p < |ts| {
      assert ts[p..][0] == ts[p] && ts[p..][1..] == ts[p + 1..];
      if p < LeadingOrphans(ts) {
        SweepsFront(ts, p + 1);
      } else {
        AtFirst(ts);
        SweepsFrom(false, ts[p + 1..], ts, p + 1);
        assert TwoInARow(ts, p + 1) <==> TwoInARow(ts, 0);
      }
    } else {
      assert !TwoInARow(ts, 0);
    }
  }

  /** A pass sweeps through a struct it has freed if and only if two corpses in a row go behind the first
      zombie of the list. */
  lemma SweepsFreedExactly(s: Sched)
    requires NoIdle(s.dead)
    ensures SweepsFreed(false, false, s.dead) <==> TwoInARow(s.dead, 0)
  {
    SweepsFront(s.dead, 0);
    assert s.dead[0..] == s.dead;
  }

  /** Idle is never a corpse, so both hold of every state a run reaches. */
  lemma IdleNeverDead(s: Sched)
    requires Inv(s)
    ensures NoIdle(s.dead)
  {
    var i :| 0 <= i < |s.ring| && s.ring[i].pid == IDLE;
    forall k | 0 <= k < |s.dead|
      ensures s.dead[k].pid != IDLE
    {
      assert Pids(s.ring)[i] == IDLE && Pids(s.dead)[k] == s.dead[k].pid;
      assert multiset(Pids(s.ring))[IDLE] >= 1;
      assert Account(s)[IDLE] == 1;
    }
  }

  // ---- and it happens ----

  /** Boot, start three tasks, let the first run and fork, then kill the third, the second and the child. */
  const THREE_KILLS: seq<Op> := [OpCreate, OpCreate, OpCreate, OpYield, OpFork, OpKill(3), OpKill(2), OpKill(4)]

  function ThreeKilled(): Sched {
    Sched([Info(1, Running, 0, 0, 0), Idle(Ready)],
          [Info(4, Zombie, 1, -1, 0), Info(2, Dead, 0, -1, 0), Info(3, Dead, 0, -1, 0)], [], 5)
  }

  function ThreeStarted(): Sched {
    Sched([Idle(Ready), Info(1, Ready, 0, 0, 0), Info(2, Ready, 0, 0, 0), Info(3, Ready, 0, 0, 0)], [], [], 4)
  }

  function ForkedOne(): Sched {
    Sched([Info(1, Running, 0, 0, 0), Info(2, Ready, 0, 0, 0), Info(3, Ready, 0, 0, 0), Idle(Ready),
           Info(4, Ready, 1, 0, 0)], [], [], 5)
  }

  function Running1(): Sched {
    Sched([Info(1, Running, 0, 0, 0), Info(2, Ready, 0, 0, 0), Info(3, Ready, 0, 0, 0), Idle(Ready)], [], [], 4)
  }

  function OneKilled(): Sched {
    Sched([Info(1, Running, 0, 0, 0), Info(2, Ready, 0, 0, 0), Idle(Ready), Info(4, Ready, 1, 0, 0)],
          [Info(3, Dead, 0, -1, 0)], [], 5)
  }

  function TwoKilled(): Sched {
    Sched([Info(1, Running, 0, 0, 0), Idle(Ready), Info(4, Ready, 1, 0, 0)],
          [Info(2, Dead, 0, -1, 0), Info(3, Dead, 0, -1, 0)], [], 5)
  }

  lemma Started()
    ensures Create(Create(Create(Boot(), 0), 0), 0) == ThreeStarted()
  {
  }

  lemma FirstRuns()
    ensures Schedule(ThreeStarted()) == Running1() && Create(Running1(), 1) == ForkedOne()
  {
    assert NextReady(ThreeStarted().ring, 1) == 1;
  }

  lemma FirstKill()
    ensures Kill(ForkedOne(), 3) == OneKilled()
  {
    Find(ForkedOne().ring, 3, 2);
  }

  lemma SecondKill()
    ensures Kill(OneKilled(), 2) == TwoKilled()
  {
    Find(OneKilled().ring, 2, 1);
  }

  lemma ThirdKill()
    ensures Kill(TwoKilled(), 4) == ThreeKilled()
  {
    Find(TwoKilled().ring, 4, 2);
  }

  lemma LastTwo(ops: seq<Op>)
    requires ops == [OpKill(2), OpKill(4)]
    ensures EnabledRun(OneKilled(), ops) && Run(OneKilled(), ops) == ThreeKilled()
  {
    SecondKill();
    ThirdKill();
    RunTwo(OneKilled(), OpKill(2), OpKill(4), ops);
  }

  lemma MiddleTwo(ops: seq<Op>)
    requires |ops| == 4 && ops[0] == OpFork && ops[1] == OpKill(3) && ops[2..] == [OpKill(2), OpKill(4)]
    ensures EnabledRun(Running1(), ops) && Run(Running1(), ops) == ThreeKilled()
  {
    FirstRuns();
    FirstKill();
    LastTwo(ops[2..]);
    RunTwo(Running1(), OpFork, OpKill(3), ops);
  }

  lemma FirstFour(ops: seq<Op>)
    requires |ops| >= 4 && ops[0] == ops[1] == ops[2] == OpCreate && ops[3] == OpYield
    ensures EnabledRun(Boot(), ops) <==> EnabledRun(Running1(), ops[4..])
    ensures EnabledRun(Boot(), ops) ==> Run(Boot(), ops) == Run(Running1(), ops[4..])
  {
    Started();
    FirstRuns();
    RunTwo(Boot(), OpCreate, OpCreate, ops);
    RunTwo(Create(Create(Boot(), 0), 0), OpCreate, OpYield, ops[2..]);
    assert ops[2..][2..] == ops[4..];
  }

  /** From boot: the next pass keeps the child, frees task 2, and sweeps through it to free task 3. */
  lemma SweepMeetsFreed()
    ensures EnabledRun(Boot(), THREE_KILLS) && Run(Boot(), THREE_KILLS) == ThreeKilled()
    ensures SweepsFreed(false, false, ThreeKilled().dead)
  {
    FirstFour(THREE_KILLS);
    MiddleTwo(THREE_KILLS[4..]);
    ThreeKilledSweeps();
  }

  lemma ThreeKilledSweeps()
    ensures SweepsFreed(false, false, ThreeKilled().dead)
  {
    var a, b := Info(2, Dead, 0, -1, 0), Info(3, Dead, 0, -1, 0);
    assert ThreeKilled().dead[1..] == [a, b] && [a, b][1..] == [b];
    assert Orphaned([b], 2) == [b];
  }
}
