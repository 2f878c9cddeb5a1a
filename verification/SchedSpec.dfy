/** The scheduler of src/sched/sched.c as a state machine on values. The run queue is written
    starting at the current task, the dead list from its head; `freed` lists the pids whose task
    struct has been released, in order. */
module SchedSpec {

  datatype TaskState = Ready | Running | Sleeping | Dead | Zombie

  datatype Info = Info(pid: nat, state: TaskState, ppid: nat, exitCode: int, sleepUntil: nat)

  datatype Sched = Sched(ring: seq<Info>, dead: seq<Info>, freed: seq<nat>, nextPid: nat)

  const IDLE: nat := 0

  // ---- sched_reap ----

  /** sched_orphan_children on one task: a child of `pid` loses its parent. */
  function Adopt(t: Info, pid: nat): Info {
    if pid != 0 && t.ppid == pid then t.(ppid := 0) else t
  }

  function Orphaned(ts: seq<Info>, pid: nat): (r: seq<Info>)
    ensures |r| == |ts| && forall i | 0 <= i < |ts| :: r[i] == Adopt(ts[i], pid)
  {
    seq(|ts|, i requires 0 <= i < |ts| => Adopt(ts[i], pid))
  }

  /** The single pass over the dead list. A parentless task is freed, and its children on the run
      queue orphaned; its children on the dead list are orphaned only once some zombie has been
      kept, because until then the rebuilt list the sweep reads is still empty. */
  function ReapFrom(ring: seq<Info>, kept: seq<Info>, rest: seq<Info>,
                    freed: seq<nat>): (r: (seq<Info>, seq<Info>, seq<nat>))
    decreases |rest|
  {
    if rest == [] then (ring, kept, freed)
    else
      var c, tail := rest[0], rest[1..];
      if c.ppid != 0 then ReapFrom(ring, kept + [c], tail, freed)
      else if kept == [] then ReapFrom(Orphaned(ring, c.pid), kept, tail, freed + [c.pid])
      else ReapFrom(Orphaned(ring, c.pid), Orphaned(kept, c.pid), Orphaned(tail, c.pid), freed + [c.pid])
  }

  function Reap(s: Sched): Sched {
    var (ring, dead, freed) := ReapFrom(s.ring, [], s.dead, s.freed);
    s.(ring := ring, dead := dead, freed := freed)
  }

  // ---- schedule ----

  /** Index of the first READY task other than idle, from i on; |ring| if there is none. */
  function NextReady(ring: seq<Info>, i: nat): (k: nat)
    requires i <= |ring|
    ensures i <= k <= |ring|
    ensures forall j | i <= j < k :: !(ring[j].state == Ready && ring[j].pid != IDLE)
    ensures k < |ring| ==> ring[k].state == Ready && ring[k].pid != IDLE
    decreases |ring| - i
  {
    if i == |ring| || (ring[i].state == Ready && ring[i].pid != IDLE) then i else NextReady(ring, i + 1)
  }

  /** Index of READY idle, from i on; |ring| if there is none. */
  function Fallback(ring: seq<Info>, i: nat): (k: nat)
    requires i <= |ring|
    ensures i <= k <= |ring|
    ensures k < |ring| ==> ring[k].state == Ready && ring[k].pid == IDLE
    ensures k == |ring| ==> forall j | i <= j < k :: !(ring[j].state == Ready && ring[j].pid == IDLE)
    decreases |ring| - i
  {
    if i == |ring| || (ring[i].state == Ready && ring[i].pid == IDLE) then i else Fallback(ring, i + 1)
  }

  /** The index schedule() switches to, or 0 to stay with the current task. */
  function Pick(ring: seq<Info>): (k: nat)
    requires ring != []
    ensures k < |ring|
  {
    var k := NextReady(ring, 1);
    if k < |ring| then k
    else
      var f := Fallback(ring, 1);
      if f == |ring| || ring[0].state == Running then 0 else f
  }

  /** Where a dying task's corpse goes: zombie if a parent may still ask for it. */
  function Corpse(t: Info): Info {
    t.(state := if t.ppid != 0 then Zombie else Dead)
  }

  function Requeued(t: Info): Info {
    if t.state == Running then t.(state := Ready) else t
  }

  function SwitchTo(s: Sched, k: nat): Sched
    requires 0 < k < |s.ring|
  {
    var prev, next := Requeued(s.ring[0]), s.ring[k].(state := Running);
    if prev.state == Dead then
      s.(ring := [next] + s.ring[k + 1..] + s.ring[1..k], dead := [Corpse(prev)] + s.dead)
    else
      s.(ring := [next] + s.ring[k + 1..] + [prev] + s.ring[1..k])
  }

  function Schedule(s: Sched): Sched
    requires s.ring != []
  {
    var r := Reap(s);
    assert |r.ring| == |s.ring| by { ReapKeepsRing(s.ring, [], s.dead, s.freed); }
    var k := Pick(r.ring);
    if k == 0 then r else SwitchTo(r, k)
  }

  lemma {:induction false} ReapKeepsRing(ring: seq<Info>, kept: seq<Info>, rest: seq<Info>, freed: seq<nat>)
    ensures |ReapFrom(ring, kept, rest, freed).0| == |ring|
    ensures forall i | 0 <= i < |ring| ::
              var t := ReapFrom(ring, kept, rest, freed).0[i];
              t == ring[i] || t == ring[i].(ppid := 0)
    decreases |rest|
  {
    if rest != [] {
      var c, tail := rest[0], rest[1..];
      if c.ppid != 0 {
        ReapKeepsRing(ring, kept + [c], tail, freed);
      } else if kept == [] {
        ReapKeepsRing(Orphaned(ring, c.pid), kept, tail, freed + [c.pid]);
      } else {
        ReapKeepsRing(Orphaned(ring, c.pid), Orphaned(kept, c.pid), Orphaned(tail, c.pid), freed + [c.pid]);
      }
    }
  }

  // ---- the other steps ----

  /** Run-queue insertion (sched_create_task, sched_create_kernel_task, sched_fork). */
  function Create(s: Sched, ppid: nat): Sched {
    s.(ring := s.ring + [Info(s.nextPid, Ready, ppid, 0, 0)], nextPid := s.nextPid + 1)
  }

  function Exit(s: Sched, code: int): Sched
    requires s.ring != []
  {
    Schedule(s.(ring := s.ring[0 := s.ring[0].(exitCode := code, state := Dead)]))
  }

  function Sleep(s: Sched, wakeAt: nat): Sched
    requires s.ring != []
  {
    Schedule(s.(ring := s.ring[0 := s.ring[0].(sleepUntil := wakeAt, state := Sleeping)]))
  }

  function Awake(t: Info, now: nat): Info {
    if t.pid != IDLE && t.state == Sleeping && now >= t.sleepUntil then t.(state := Ready, sleepUntil := 0) else t
  }

  /** sched_wake_sleepers. */
  function Wake(s: Sched, now: nat): Sched {
    s.(ring := seq(|s.ring|, i requires 0 <= i < |s.ring| => Awake(s.ring[i], now)))
  }

  function IndexOf(ts: seq<Info>, pid: nat): (k: nat)
    ensures k <= |ts|
    ensures k < |ts| ==> ts[k].pid == pid
    ensures forall j | 0 <= j < k :: ts[j].pid != pid
  {
    if ts == [] || ts[0].pid == pid then 0 else 1 + IndexOf(ts[1..], pid)
  }

  /** sched_kill_task: idle, unknown and dead pids are refused, killing oneself is exit(0), anyone else
      is taken off the run queue on the spot. */
  function Kill(s: Sched, pid: nat): Sched
    requires s.ring != []
  {
    var k := IndexOf(s.ring, pid);
    if pid == IDLE || k == |s.ring| || s.ring[k].state == Dead then s
    else if k == 0 then Exit(s, 0)
    else
      var t := Corpse(s.ring[k]).(exitCode := -1);
      s.(ring := s.ring[..k] + s.ring[k + 1..], dead := [t] + s.dead)
  }

  // ---- waitpid ----

  datatype WaitResult = Collected(pid: nat, status: int) | NoChild | Pending

  predicate Matches(t: Info, parent: nat, arg: int) {
    t.ppid == parent && (arg == -1 || arg == t.pid)
  }

  function FirstMatch(ts: seq<Info>, parent: nat, arg: int): (k: nat)
    ensures k <= |ts|
    ensures k < |ts| ==> Matches(ts[k], parent, arg)
    ensures forall j | 0 <= j < k :: !Matches(ts[j], parent, arg)
  {
    if ts == [] || Matches(ts[0], parent, arg) then 0 else 1 + FirstMatch(ts[1..], parent, arg)
  }

  /** The status word of a collected child. */
  function StatusWord(exitCode: int): int {
    if exitCode < 0 then 0x80 + 11 else exitCode % 256 * 256
  }

  /** One pass of sched_waitpid's loop: collect a matching zombie, or report that there is no such
      child, or that the child is still running. */
  function Wait(s: Sched, arg: int): (r: (Sched, WaitResult))
    requires s.ring != []
  {
    var parent := s.ring[0].pid;
    var k := FirstMatch(s.dead, parent, arg);
    if arg < -1 then (s, NoChild)
    else if k < |s.dead| then
      (s.(dead := s.dead[..k] + s.dead[k + 1..], freed := s.freed + [s.dead[k].pid]),
       Collected(s.dead[k].pid, StatusWord(s.dead[k].exitCode)))
    else if FirstMatch(s.ring[1..], parent, arg) < |s.ring| - 1 then (s, Pending)
    else (s, NoChild)
  }

  // ---- runs ----

  datatype Op =
    | OpCreate
    | OpFork
    | OpYield
    | OpExit(code: int)
    | OpKill(pid: nat)
    | OpSleep(wakeAt: nat)
    | OpWake(now: nat)
    | OpReap
    | OpWait(arg: int)

  /** Idle only ever executes wfi: it is never the one to exit or sleep. */
  predicate Enabled(s: Sched, op: Op) {
    s.ring != [] && ((op.OpExit? || op.OpSleep?) ==> s.ring[0].pid != IDLE)
  }

  function Step(s: Sched, op: Op): Sched
    requires Enabled(s, op)
  {
    match op
    case OpCreate => Create(s, 0)
    case OpFork => Create(s, s.ring[0].pid)
    case OpYield => Schedule(s)
    case OpExit(code) => Exit(s, code)
    case OpKill(pid) => Kill(s, pid)
    case OpSleep(wakeAt) => Sleep(s, wakeAt)
    case OpWake(now) => Wake(s, now)
    case OpReap => Reap(s)
    case OpWait(arg) => Wait(s, arg).0
  }

  /** sched_init: idle alone, READY, current. */
  function Boot(): Sched {
    Sched([Info(IDLE, Ready, 0, 0, 0)], [], [], 1)
  }
}
