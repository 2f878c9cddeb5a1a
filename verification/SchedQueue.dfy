/** The scheduler's pointer structures (src/sched/sched.c): a circular run queue, a null-terminated
    dead list, fields written in place. Every method is proved to take the step SchedSpec defines. */
module SchedQueue {
  import opened SchedSpec
  import opened SchedProofs
  import opened SchedLinks
  import opened SchedSurgery
  import opened SchedStale

  const TIMER_INTERVAL_MS: nat := 10

  class Scheduler {
    const idle: nat
    var mem: Memory
    var current: nat
    var deadList: nat
    var nextPid: nat
    // the lists the pointers form, run queue first read from current
    ghost var ring: seq<nat>
    ghost var dead: seq<nat>
    ghost var freed: seq<nat>

    ghost function Abs(): Sched
      reads this
    {
      AbsOf(mem, ring, dead, freed, nextPid)
    }

    ghost predicate Shape()
      reads this
    {
      ShapeOf(mem, current, deadList, ring, dead, idle) && nextPid > 0
    }

    /** sched_init. */
    constructor (idleTask: nat)
      requires idleTask != NIL
      ensures Shape() && Abs() == Boot() && current == idle == idleTask
    {
      idle, current, deadList, nextPid := idleTask, idleTask, NIL, 1;
      mem := map[idleTask := Tcb(Info(IDLE, Ready, 0, 0, 0), idleTask)];
      ring, dead, freed := [idleTask], [], [];
      new;
      assert Infos(mem, ring) == Boot().ring;
    }

    /** The loop that finds the struct whose next is `stop`, starting from one that is on the list. */
    method LastBefore(from: nat, stop: nat, ghost ts: seq<nat>) returns (p: nat)
      requires ts != [] && ts[0] == from && Linked(mem, ts, stop)
      requires forall k | 0 < k < |ts| :: ts[k] != stop
      ensures p == ts[|ts| - 1]
    {
      p := from;
      ghost var i := 0;
      assert Link(mem, ts, 0, stop);
      while mem[p].next != stop
        invariant 0 <= i < |ts| && p == ts[i] && Link(mem, ts, i, stop)
        decreases |ts| - i
      {
        i := i + 1;
        p := mem[p].next;
        assert Link(mem, ts, i, stop);
      }
    }

    /** Run-queue insertion: the new task goes between the last task and current. A null struct
        (kmalloc failed) changes nothing. */
    method Create(t: nat, ppid: nat) returns (pid: int)
      requires Shape() && t !in ring && t !in dead
      modifies this
      ensures Shape()
      ensures t == NIL ==> pid == -1 && Abs() == old(Abs())
      ensures t != NIL ==> pid == old(nextPid) && Abs() == SchedSpec.Create(old(Abs()), ppid)
    {
      if t == NIL {
        return -1;
      }
      pid := nextPid;
      var tail := LastBefore(current, current, ring);
      CreateRefines(mem, current, deadList, ring, dead, idle, freed, nextPid, t, ppid);
      mem := mem[t := Tcb(Info(nextPid, Ready, ppid, 0, 0), current)];
      mem := SetNext(mem, tail, t);
      nextPid := nextPid + 1;
      ring := ring + [t];
    }

    /** schedule()'s scan of the run queue: the first READY task other than idle, or prev when
        there is none; and READY idle if it was passed on the way. */
    method ScanQueue() returns (next: nat, fallback: nat, ghost k: nat)
      requires Shape()
      ensures k == NextReady(Abs().ring, 1)
      ensures next == if k < |ring| then ring[k] else current
      ensures k == |ring| ==> fallback == if Fallback(Abs().ring, 1) < |ring| then ring[Fallback(Abs().ring, 1)]
              else NIL
    {
      ghost var infos := Infos(mem, ring);
      k := 1;
      next, fallback := mem[current].next, NIL;
      assert Link(mem, ring, 0, current);
      while next != current
        invariant 1 <= k <= |ring| && next == if k < |ring| then ring[k] else current
        invariant NextReady(infos, 1) == NextReady(infos, k)
        invariant fallback == NIL ==> Fallback(infos, 1) == Fallback(infos, k)
        invariant fallback != NIL ==> Fallback(infos, 1) < |ring| && fallback == ring[Fallback(infos, 1)]
        decreases |ring| - k
      {
        assert Link(mem, ring, k, current);
        assert infos[k] == mem[next].info;
        if mem[next].info.state == Ready {
          if next == idle {
            if fallback == NIL {
              fallback := next;
            }
          } else {
            return;
          }
        }
        next := mem[next].next;
        k := k + 1;
      }
      assert k == |ring|;
    }

    /** The sweep of a null-terminated list in sched_orphan_children. */
    method AdoptAlongList(head: nat, pid: nat, ghost ts: seq<nat>)
      requires Linked(mem, ts, NIL) && Distinct(ts) && NIL !in ts && head == SchedLinks.Head(ts, NIL)
      modifies `mem
      ensures mem == AdoptIn(old(mem), ts, pid)
    {
      var d := head;
      ghost var i := 0;
      AdoptNothing(mem, pid);
      while d != NIL
        invariant 0 <= i <= |ts| && d == (if i < |ts| then ts[i] else NIL)
        invariant mem == AdoptIn(old(mem), ts[..i], pid)
        decreases |ts| - i
      {
        assert Link(old(mem), ts, i, NIL);
        AdoptOneMore(old(mem), ts, i, pid);
        mem := SetInfo(mem, d, Adopt(mem[d].info, pid));
        d := mem[d].next;
        i := i + 1;
      }
      assert ts[..i] == ts;
    }

    /** The sweep of a cycle, starting and ending at its first task. */
    method AdoptAlongCycle(head: nat, pid: nat, ghost ts: seq<nat>)
      requires ts != [] && ts[0] == head && Linked(mem, ts, head) && Distinct(ts)
      modifies `mem
      ensures mem == AdoptIn(old(mem), ts, pid)
    {
      var t := head;
      ghost var i := 0;
      AdoptNothing(mem, pid);
      while true
        invariant 0 <= i < |ts| && t == ts[i]
        invariant mem == AdoptIn(old(mem), ts[..i], pid)
        decreases |ts| - i
      {
        assert Link(old(mem), ts, i, head);
        AdoptOneMore(old(mem), ts, i, pid);
        mem := SetInfo(mem, t, Adopt(mem[t].info, pid));
        t := mem[t].next;
        i := i + 1;
        if t == head {
          break;
        }
      }
      assert i == |ts| && ts[..i] == ts;
    }

    /** sched_orphan_children. `swept` is what the dead_list pointer leads to at this moment. */
    method OrphanChildren(pid: nat, ghost swept: seq<nat>)
      requires ring != [] && ring[0] == current && Linked(mem, ring, current) && Distinct(ring) && idle in ring
      requires Linked(mem, swept, NIL) && Distinct(swept) && NIL !in swept && deadList == SchedLinks.Head(swept, NIL)
      modifies `mem
      ensures mem == AdoptIn(AdoptIn(old(mem), ring, pid), swept, pid)
    {
      if pid == 0 {
        AdoptNobody(mem, ring);
        AdoptNobody(mem, swept);
        return;
      }
      ghost var d :| 0 <= d < |ring| && ring[d] == idle;
      ghost var ts := ring[d..] + ring[..d];
      Rotate(mem, ring, d);
      ApartRotate(ring, [], d);
      AdoptSameMembers(mem, ring, ts, pid);
      AdoptKeepsLinks(mem, ts, pid, swept, NIL);
      AdoptAlongCycle(idle, pid, ts);
      AdoptAlongList(deadList, pid, swept);
    }

    /** A corpse with a parent joins the rebuilt list behind `prev`. */
    method KeepCorpse(prev: nat, c: nat, ghost kept: seq<nat>, ghost gone: seq<nat>, ghost todo: seq<nat>)
      requires Reaping(mem, current, deadList, prev, c, ring, kept, gone, todo, idle) && c != NIL
      requires InfoAt(mem, c).ppid != 0
      modifies `mem, `deadList
      ensures Reaping(mem, current, deadList, c, SchedLinks.Head(todo[1..], NIL), ring, kept + [c], [], todo[1..], idle)
      ensures Remaining(mem, ring, kept + [c], todo[1..], freed) == Remaining(old(mem), ring, kept, todo, freed)
      ensures SweepsFreed(true, false, Infos(mem, todo[1..])) ==
              SweepsFreed(kept != [], gone != [], Infos(old(mem), todo))
    {
      KeepStep(mem, current, deadList, prev, c, ring, kept, gone, todo, idle, freed);
      if prev != NIL {
        mem := SetNext(mem, prev, c);
      } else {
        deadList := c;
      }
    }

    /** A corpse without one is released, and its children disowned. `stale`: the sweep for them walks
        through a struct that has been released. */
    method FreeCorpse(prev: nat, c: nat, ghost kept: seq<nat>, ghost gone: seq<nat>, ghost todo: seq<nat>)
      returns (ghost stale: bool)
      requires Reaping(mem, current, deadList, prev, c, ring, kept, gone, todo, idle) && c != NIL
      requires InfoAt(mem, c).ppid == 0
      modifies `mem, `freed
      ensures Reaping(mem, current, deadList, prev, SchedLinks.Head(todo[1..], NIL), ring, kept,
                      if kept == [] then [] else gone + [c], todo[1..], idle)
      ensures Remaining(mem, ring, kept, todo[1..], freed) == Remaining(old(mem), ring, kept, todo, old(freed))
      ensures stale <==> InfoAt(old(mem), c).pid != 0 && exists t :: t in gone && t in Swept(kept, gone, todo)
      ensures SweepsFreed(kept != [], gone != [], Infos(old(mem), todo)) <==>
              stale || SweepsFreed(kept != [], kept != [], Infos(mem, todo[1..]))
    {
      FreeStep(mem, current, deadList, prev, c, ring, kept, gone, todo, idle, freed);
      stale := InfoAt(mem, c).pid != 0 && gone != [];
      StaleMeans(kept, gone, todo);
      OrphanChildren(mem[c].info.pid, Swept(kept, gone, todo));
      freed := freed + [mem[c].info.pid];
    }

    /** sched_reap: one pass that frees the parentless corpses and relinks the others in place. */
    method Reap() returns (ghost stale: bool)
      requires Shape()
      modifies `mem, `deadList, `dead, `freed
      ensures Shape() && ring == old(ring) && Abs() == SchedSpec.Reap(old(Abs()))
      ensures stale <==> SweepsFreed(false, false, old(Abs()).dead)
    {
      stale := false;
      var prev, c := NIL, deadList;
      deadList := NIL;
      ghost var kept: seq<nat>, gone: seq<nat>, todo := [], [], dead;
      BeginReap(mem, current, c, ring, dead, idle);
      while c != NIL
        invariant Reaping(mem, current, deadList, prev, c, ring, kept, gone, todo, idle)
        invariant Remaining(mem, ring, kept, todo, freed) == Remaining(old(mem), ring, [], old(dead), old(freed))
        invariant SweepsFreed(false, false, Infos(old(mem), old(dead))) <==>
                  stale || SweepsFreed(kept != [], gone != [], Infos(mem, todo))
        decreases |todo|
      {
        NextCorpse(mem, todo);
        var next := mem[c].next;
        if mem[c].info.ppid != 0 {
          KeepCorpse(prev, c, kept, gone, todo);
          prev := c;
          kept, gone, todo := kept + [c], [], todo[1..];
        } else {
          ghost var now := FreeCorpse(prev, c, kept, gone, todo);
          stale := stale || now;
          gone, todo := if kept == [] then [] else gone + [c], todo[1..];
        }
        c := next;
      }
      EndReap(mem, current, deadList, prev, ring, kept, gone, todo, idle, freed);
      if prev != NIL {
        mem := SetNext(mem, prev, NIL);
      }
      dead := kept;
    }

    /** Unlink the current task, which is dead, and push it onto the dead list. */
    method BuryPrev()
      requires Shape() && current != idle
      modifies `mem, `deadList, `dead, `ring
      ensures |old(ring)| > 1 && ring == old(ring)[1..] && dead == [current] + old(dead)
      ensures ShapeOf(mem, ring[0], deadList, ring, dead, idle)
      ensures Infos(mem, ring) == Infos(old(mem), old(ring))[1..]
      ensures Infos(mem, dead) == [Corpse(InfoAt(old(mem), current))] + Infos(old(mem), old(dead))
    {
      BuryCurrent(mem, current, deadList, ring, dead, idle, Corpse(InfoAt(mem, current)));
      assert Link(mem, ring, 0, current);
      var p := LastBefore(current, current, ring);
      mem := SetNext(mem, p, mem[current].next);
      mem := SetInfo(mem, current, Corpse(mem[current].info));
      mem := SetNext(mem, current, deadList);
      deadList := current;
      dead, ring := [current] + dead, ring[1..];
    }

    /** The tail of schedule(): put prev back or bury it, and make `next` current. */
    method Switch(next: nat, ghost k: nat)
      requires Shape() && 0 < k < |ring| && next == ring[k]
      requires InfoAt(mem, current).state == Dead ==> current != idle
      modifies this
      ensures Shape() && Abs() == SwitchTo(old(Abs()), k)
    {
      ghost var s := Abs();
      if mem[current].info.state == Dead {
        BuryPrev();
        MakeCurrent(next, k - 1);
        SwitchedDead(s, k, Abs());
      } else {
        Requeue();
        MakeCurrent(next, k);
        SwitchedAlive(s, k, Abs());
      }
    }

    method Requeue()
      requires Shape()
      modifies `mem
      ensures Shape() && Infos(mem, dead) == Infos(old(mem), dead)
      ensures Infos(mem, ring) == Infos(old(mem), ring)[0 := Requeued(InfoAt(old(mem), current))]
    {
      SetInfoKeepsShape(mem, current, deadList, ring, dead, idle, 0, Requeued(mem[current].info));
      if mem[current].info.state == Running {
        mem := SetState(mem, current, Ready);
      }
    }

    method MakeCurrent(next: nat, ghost k: nat)
      requires k < |ring| && next == ring[k] && ShapeOf(mem, ring[0], deadList, ring, dead, idle) && nextPid > 0
      modifies `mem, `current, `ring
      ensures Shape() && Infos(mem, dead) == Infos(old(mem), dead)
      ensures Infos(mem, ring) == FromRunning(Infos(old(mem), old(ring)), k)
    {
      MakeCurrentRefines(mem, ring[0], deadList, ring, dead, idle, k);
      mem := SetState(mem, next, Running);
      current := next;
      ring := ring[k..] + ring[..k];
    }

    /** schedule(). */
    method Schedule()
      requires Shape() && (InfoAt(mem, current).state == Dead ==> current != idle)
      modifies this
      ensures Shape() && Abs() == SchedSpec.Schedule(old(Abs()))
    {
      ReapKeepsRing(Abs().ring, [], Abs().dead, freed);
      ghost var _ := Reap();
      var next, fallback, k := ScanQueue();
      if next == current {
        assert k == |ring|;
        if fallback == NIL || mem[current].info.state == Running {
          return;
        }
        k := Fallback(Abs().ring, 1);
        next := fallback;
      }
      Switch(next, k);
    }

    /** task_exit. */
    method Exit(code: int)
      requires Shape() && current != idle
      modifies this
      ensures Shape() && Abs() == SchedSpec.Exit(old(Abs()), code)
    {
      SetInfoKeepsShape(mem, current, deadList, ring, dead, idle, 0,
        mem[current].info.(exitCode := code, state := Dead));
      mem := SetInfo(mem, current, mem[current].info.(exitCode := code, state := Dead));
      Schedule();
    }

    method SleepUntil(wakeAt: nat)
      requires Shape() && current != idle
      modifies this
      ensures Shape() && Abs() == SchedSpec.Sleep(old(Abs()), wakeAt)
    {
      var asleep := mem[current].info.(sleepUntil := wakeAt, state := Sleeping);
      SetInfoKeepsShape(mem, current, deadList, ring, dead, idle, 0, asleep);
      mem := SetInfo(mem, current, asleep);
      Schedule();
    }

    /** sleep_ms: the requested time in whole ticks, rounded down, and at least one. */
    method Sleep(ms: nat, now: nat) returns (wakeAt: nat)
      requires Shape() && current != idle
      modifies this
      ensures wakeAt > now
      ensures ms >= TIMER_INTERVAL_MS ==>
                (wakeAt - now) * TIMER_INTERVAL_MS <= ms < (wakeAt - now + 1) * TIMER_INTERVAL_MS
      ensures ms < TIMER_INTERVAL_MS ==> wakeAt == now + 1
      ensures Shape() && Abs() == SchedSpec.Sleep(old(Abs()), wakeAt)
    {
      var ticks := ms / TIMER_INTERVAL_MS;
      if ticks == 0 {
        ticks := 1;
      }
      wakeAt := now + ticks;
      SleepUntil(wakeAt);
    }

    /** The loop of sched_wake_sleepers: around the cycle from idle's successor back to idle. */
    method RouseAlong(now: nat, ghost rest: seq<nat>)
      requires idle in mem && mem[idle].next == SchedLinks.Head(rest, idle)
      requires Linked(mem, rest, idle) && Distinct(rest) && idle !in rest
      modifies `mem
      ensures mem == WakeIn(old(mem), rest, now)
    {
      var t := mem[idle].next;
      ghost var i := 0;
      WakeNothing(mem, now);
      while t != idle
        invariant 0 <= i <= |rest| && t == (if i < |rest| then rest[i] else idle)
        invariant mem == WakeIn(old(mem), rest[..i], now)
        decreases |rest| - i
      {
        assert Link(old(mem), rest, i, idle);
        WakeOneMore(old(mem), rest, i, now);
        mem := SetInfo(mem, t, Roused(mem[t].info, now));
        t := mem[t].next;
        i := i + 1;
      }
      assert rest[..i] == rest;
    }

    /** sched_wake_sleepers. */
    method WakeSleepers(now: nat)
      requires Shape()
      modifies `mem
      ensures Shape() && Abs() == Wake(old(Abs()), now)
    {
      ghost var rest := AfterIdle(mem, current, deadList, ring, dead, idle);
      RouseAlong(now, rest);
      WakeRefines(old(mem), current, deadList, ring, dead, idle, freed, nextPid, rest, now);
    }

    /** sched_kill_task's search, around the cycle from idle. */
    method FindTask(pid: nat, ghost ts: seq<nat>) returns (t: nat)
      requires ts != [] && ts[0] == idle && Linked(mem, ts, idle) && Distinct(ts) && NIL !in ts
      ensures t == NIL ==> forall x | x in ts :: InfoAt(mem, x).pid != pid
      ensures t != NIL ==> t in ts && InfoAt(mem, t).pid == pid
    {
      t := idle;
      ghost var i := 0;
      while mem[t].info.pid != pid
        invariant 0 <= i < |ts| && t == ts[i]
        invariant forall j | 0 <= j < i :: InfoAt(mem, ts[j]).pid != pid
        decreases |ts| - i
      {
        assert Link(mem, ts, i, idle);
        t := mem[t].next;
        if t == idle {
          return NIL;
        }
        i := i + 1;
      }
    }

    /** The rest of sched_kill_task for a task other than the caller. */
    method Remove(t: nat, ghost k: nat)
      requires Shape() && 0 < k < |ring| && ring[k] == t && t != idle
      modifies `mem, `deadList, `ring, `dead
      ensures Shape()
      ensures Infos(mem, ring) == Without(Infos(old(mem), old(ring)), k)
      ensures Infos(mem, dead) == [Corpse(InfoAt(old(mem), t)).(exitCode := -1)] + Infos(old(mem), old(dead))
    {
      ghost var rot := RotationAt(mem, ring, k);
      var p := LastBefore(t, t, rot);
      ghost var corpse := Corpse(mem[t].info).(exitCode := -1);
      RemoveRefines(mem, current, deadList, ring, dead, idle, k, corpse);
      ghost var m := Buried(mem, p, t, deadList, corpse);
      Bury(p, t);
      assert mem == m;
      ring, dead := Without(ring, k), [t] + dead;
    }

    /** Unlink t behind p, push it onto the dead list, and mark it killed. */
    method Bury(p: nat, t: nat)
      requires p in mem && t in mem && p != t
      modifies `mem, `deadList
      ensures deadList == t
      ensures mem == Buried(old(mem), p, t, old(deadList), Corpse(old(mem)[t].info).(exitCode := -1))
    {
      mem := SetNext(mem, p, mem[t].next);
      mem := SetNext(mem, t, deadList);
      deadList := t;
      mem := SetInfo(mem, t, Corpse(mem[t].info));
      mem := SetInfo(mem, t, mem[t].info.(exitCode := -1));
    }

    /** The search, and where the struct found is on the run queue. */
    method Locate(pid: nat) returns (t: nat, ghost k: nat)
      requires Shape()
      ensures t == NIL ==> NotQueued(Abs().ring, pid)
      ensures t != NIL ==> k < |ring| && ring[k] == t && Abs().ring[k].pid == pid
    {
      ghost var ts := FromIdle(mem, current, deadList, ring, dead, idle);
      t := FindTask(pid, ts);
      k := 0;
      if t != NIL {
        assert t in ring;
        k :| 0 <= k < |ring| && ring[k] == t;
      }
    }

    /** sched_kill_task. */
    method Kill(pid: nat) returns (r: int)
      requires Shape() && PidsDistinct(Abs().ring)
      modifies this
      ensures Shape() && Abs() == SchedSpec.Kill(old(Abs()), pid)
      ensures r == if Killable(old(Abs()).ring, pid) then 0 else -1
    {
      ghost var s := Abs();
      if pid == IDLE {
        KillMisses(s, pid);
        return -1;
      }
      var t, k := Locate(pid);
      if t == NIL {
        KillMisses(s, pid);
        return -1;
      }
      KillCases(s, pid, k);
      if mem[t].info.state == Dead {
        return -1;
      }
      if t == current {
        Exit(0);
      } else {
        Remove(t, k);
      }
      return 0;
    }

    /** sched_waitpid's search of the dead list. */
    method FindZombie(parent: nat, arg: int) returns (prev: nat, c: nat, ghost k: nat)
      requires Shape()
      ensures k == FirstMatch(Infos(mem, dead), parent, arg)
      ensures c == (if k < |dead| then dead[k] else NIL) && prev == (if k > 0 then dead[k - 1] else NIL)
    {
      prev, c, k := NIL, deadList, 0;
      while c != NIL
        invariant 0 <= k <= |dead| && c == (if k < |dead| then dead[k] else NIL)
                  && prev == (if k > 0 then dead[k - 1] else NIL)
        invariant forall j | 0 <= j < k :: !Matches(Infos(mem, dead)[j], parent, arg)
        decreases |dead| - k
      {
        if Matches(mem[c].info, parent, arg) {
          return;
        }
        assert Link(mem, dead, k, NIL);
        prev, c, k := c, mem[c].next, k + 1;
      }
    }

    /** has_matching_child: the run queue from idle, the caller excepted, then the dead list. */
    method HasMatchingChild(arg: int) returns (yes: bool)
      requires Shape()
      ensures var parent := InfoAt(mem, current).pid;
              yes <==> ((exists i :: 0 < i < |ring| && Matches(Infos(mem, ring)[i], parent, arg))
                        || (exists i :: 0 <= i < |dead| && Matches(Infos(mem, dead)[i], parent, arg)))
    {
      var parent := mem[current].info.pid;
      ghost var ts := FromIdle(mem, current, deadList, ring, dead, idle);
      SameSearch(mem, ring, ts, parent, arg);
      yes := AnyOnRing(parent, arg, ts);
      if !yes {
        var _, c, _ := FindZombie(parent, arg);
        yes := c != NIL;
      }
    }

    method AnyOnRing(parent: nat, arg: int, ghost ts: seq<nat>) returns (yes: bool)
      requires ts != [] && ts[0] == idle && Linked(mem, ts, idle) && Distinct(ts)
      ensures yes <==> exists i :: 0 <= i < |ts| && ts[i] != current && Matches(InfoAt(mem, ts[i]), parent, arg)
    {
      var t := idle;
      ghost var i := 0;
      while true
        invariant 0 <= i < |ts| && t == ts[i]
        invariant forall j | 0 <= j < i && ts[j] != current :: !Matches(InfoAt(mem, ts[j]), parent, arg)
        decreases |ts| - i
      {
        if t != current && Matches(mem[t].info, parent, arg) {
          return true;
        }
        assert Link(mem, ts, i, idle);
        t := mem[t].next;
        if t == idle {
          return false;
        }
        i := i + 1;
      }
    }

    /** Unlink a zombie and free it. */
    method Collect(prev: nat, c: nat, ghost k: nat)
      requires Shape() && k < |dead| && c == dead[k] && prev == (if k > 0 then dead[k - 1] else NIL)
      modifies `mem, `deadList, `dead, `freed
      ensures Shape() && Infos(mem, ring) == Infos(old(mem), ring)
      ensures Infos(mem, dead) == Infos(old(mem), old(dead))[..k] + Infos(old(mem), old(dead))[k + 1..]
      ensures freed == old(freed) + [InfoAt(old(mem), c).pid]
    {
      CollectRefines(mem, current, deadList, ring, dead, idle, k);
      freed := freed + [mem[c].info.pid];
      if prev != NIL {
        mem := SetNext(mem, prev, mem[c].next);
      } else {
        deadList := mem[c].next;
      }
      dead := dead[..k] + dead[k + 1..];
    }

    /** One pass of sched_waitpid's loop. */
    method WaitOnce(arg: int) returns (r: WaitResult)
      requires Shape()
      modifies this
      ensures Shape() && (Abs(), r) == Wait(old(Abs()), arg)
    {
      if arg < -1 {
        return NoChild;
      }
      var prev, c, k := FindZombie(mem[current].info.pid, arg);
      if c != NIL {
        r := Collected(mem[c].info.pid, StatusWord(mem[c].info.exitCode));
        Collect(prev, c, k);
      } else {
        var child := HasMatchingChild(arg);
        r := if child then Pending else NoChild;
      }
    }

    /** Any kernel entry, from a queue that satisfies the invariant: the pointer code takes exactly
        the step the state machine takes, and the invariant holds again. `t` is the struct kmalloc
        hands out, used by the entries that create a task. */
    method Execute(op: Op, t: nat)
      requires Shape() && Inv(Abs()) && Enabled(Abs(), op)
      requires op.OpCreate? || op.OpFork? ==> t != NIL && t !in ring && t !in dead
      modifies this
      ensures Shape() && Abs() == Step(old(Abs()), op) && Inv(Abs())
    {
      StepInv(Abs(), op);
      if op.OpCreate? || op.OpFork? {
        var _ := Create(t, if op.OpFork? then mem[current].info.pid else 0);
      } else if op.OpWake? {
        WakeSleepers(op.now);
      } else if op.OpReap? {
        ghost var _ := Reap();
      } else if op.OpWait? {
        var _ := WaitOnce(op.arg);
      } else {
        Leave(op);
      }
    }

    /** The entries that may give up the processor. */
    method Leave(op: Op)
      requires Shape() && Inv(Abs()) && Enabled(Abs(), op)
      requires op.OpYield? || op.OpExit? || op.OpSleep? || op.OpKill?
      modifies this
      ensures Shape() && Abs() == Step(old(Abs()), op)
    {
      match op {
        case OpYield => Schedule();
        case OpExit(code) => Exit(code);
        case OpSleep(wakeAt) => SleepUntil(wakeAt);
        case OpKill(pid) =>
          AccountedPids(Abs());
          var _ := Kill(pid);
      }
    }
  }
}
