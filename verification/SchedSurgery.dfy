/** What the scheduler's pointer writes (src/sched/sched.c) do to its two lists: each lemma takes a
    well-formed queue and a few field writes to a well-formed queue and the state SchedSpec gives. */
module SchedSurgery {
  import opened SchedSpec
  import opened SchedLinks
  import opened SchedProofs

  // ---- the half-rebuilt dead list ----

  /** What dead_list leads to in the middle of the pass: nothing until a zombie has been kept; then
      the kept zombies and, through the last one's old next pointer, everything that followed it,
      structs already freed included. */
  ghost function Swept(kept: seq<nat>, gone: seq<nat>, todo: seq<nat>): seq<nat> {
    if kept == [] then [] else kept + gone + todo
  }

  /** The sweep meets a freed struct if and only if one was freed since the last zombie was kept. */
  lemma StaleMeans(kept: seq<nat>, gone: seq<nat>, todo: seq<nat>)
    requires kept == [] ==> gone == []
    ensures gone != [] <==> exists t :: t in gone && t in Swept(kept, gone, todo)
  {
    if gone != [] {
      assert gone[0] in gone && gone[0] in Swept(kept, gone, todo);
    }
  }

  /** What the rest of the pass will leave behind. */
  ghost function Remaining(mem: Memory, ring: seq<nat>, kept: seq<nat>, todo: seq<nat>, freed: seq<nat>): (seq<Info>,
                           seq<Info>, seq<nat>) {
    ReapFrom(Infos(mem, ring), Infos(mem, kept), Infos(mem, todo), freed)
  }

  ghost predicate Reaping(mem: Memory, current: nat, deadList: nat, prev: nat, c: nat, ring: seq<nat>,
                          kept: seq<nat>, gone: seq<nat>, todo: seq<nat>, idle: nat) {
    && ring != [] && ring[0] == current && Linked(mem, ring, current) && idle in ring && IdleIs(mem, ring, idle)
       && NIL !in ring
    && Linked(mem, todo, NIL) && c == Head(todo, NIL)
    && Linked(mem, Swept(kept, gone, todo), NIL) && deadList == Head(Swept(kept, gone, todo), NIL)
    && prev == (if kept == [] then NIL else kept[|kept| - 1])
    && Apart(ring, kept + gone + todo) && NIL !in kept + gone + todo
    && (kept == [] ==> gone == [])
  }

  ghost function AbsOf(mem: Memory, ring: seq<nat>, dead: seq<nat>, freed: seq<nat>, nextPid: nat): Sched {
    Sched(Infos(mem, ring), Infos(mem, dead), freed, nextPid)
  }

  /** One cycle through current and idle, one null-terminated dead list, no struct on both or
      twice on either, and idle has pid 0. */
  ghost predicate ShapeOf(mem: Memory, current: nat, deadList: nat, ring: seq<nat>, dead: seq<nat>, idle: nat) {
    && ring != [] && ring[0] == current
    && Linked(mem, ring, current)
    && Linked(mem, dead, NIL) && deadList == Head(dead, NIL)
    && Apart(ring, dead) && NIL !in ring && NIL !in dead
    && idle in ring && IdleIs(mem, ring, idle)
  }

  lemma CreateRefines(mem: Memory, current: nat, deadList: nat, ring: seq<nat>, dead: seq<nat>, idle: nat,
                      freed: seq<nat>, nextPid: nat, t: nat, ppid: nat)
    requires ShapeOf(mem, current, deadList, ring, dead, idle) && nextPid > 0
    requires t !in ring && t !in dead && t != NIL
    ensures var m := mem[t := Tcb(Info(nextPid, Ready, ppid, 0, 0), current)];
            && ring[|ring| - 1] in m
            && var mem' := SetNext(m, ring[|ring| - 1], t);
               && ShapeOf(mem', current, deadList, ring + [t], dead, idle)
               && AbsOf(mem', ring + [t], dead, freed, nextPid + 1) ==
                  Create(AbsOf(mem, ring, dead, freed, nextPid), ppid)
  {
    var x := Tcb(Info(nextPid, Ready, ppid, 0, 0), current);
    var m, tail := mem[t := x], ring[|ring| - 1];
    WriteFresh(mem, t, x, ring, current);
    WriteFresh(mem, t, x, dead, NIL);
    AppendLinked(m, ring, current, t);
    ApartMember(ring, dead, tail);
    SetNextElsewhere(m, tail, t, dead, NIL);
    SetNextKeepsInfos(m, tail, t, dead);
    ApartAppend(ring, dead, t);
    IdleStill(mem, SetNext(m, tail, t), ring, ring + [t], idle);
  }

  /** idle is the one task of the run queue with pid 0. */
  ghost predicate IdleIs(mem: Memory, ring: seq<nat>, idle: nat) {
    forall i {:trigger ring[i]} | 0 <= i < |ring| :: InfoAt(mem, ring[i]).pid == IDLE <==> ring[i] == idle
  }

  lemma IdleStill(mem: Memory, mem': Memory, ring: seq<nat>, ring': seq<nat>, idle: nat)
    requires IdleIs(mem, ring, idle) && idle in ring
    requires forall t | t in ring' ::
               if t in ring then InfoAt(mem', t).pid == InfoAt(mem, t).pid
               else t != idle && InfoAt(mem', t).pid != IDLE
    ensures IdleIs(mem', ring', idle)
  {
  }

  // ---- switching ----

  function SetState(mem: Memory, t: nat, state: TaskState): Memory
    requires t in mem
  {
    SetInfo(mem, t, mem[t].info.(state := state))
  }

  lemma SetInfoKeepsShape(mem: Memory, current: nat, deadList: nat, ring: seq<nat>, dead: seq<nat>, idle: nat, k: nat,
                          info: Info)
    requires ShapeOf(mem, current, deadList, ring, dead, idle) && k < |ring| && info.pid == InfoAt(mem, ring[k]).pid
    ensures ring[k] in mem
    ensures ShapeOf(SetInfo(mem, ring[k], info), current, deadList, ring, dead, idle)
    ensures Infos(SetInfo(mem, ring[k], info), ring) == Infos(mem, ring)[k := info]
    ensures Infos(SetInfo(mem, ring[k], info), dead) == Infos(mem, dead)
  {
    SetInfoKeepsLinks(mem, ring[k], info, ring, current);
    SetInfoKeepsLinks(mem, ring[k], info, dead, NIL);
    SetInfoAt(mem, ring[k], info, ring, k);
    ApartMember(ring, dead, ring[k]);
    SetInfoElsewhere(mem, ring[k], info, dead);
    IdleStill(mem, SetInfo(mem, ring[k], info), ring, ring, idle);
  }

  lemma RotateKeepsShape(mem: Memory, current: nat, deadList: nat, ring: seq<nat>, dead: seq<nat>, idle: nat, k: nat)
    requires ShapeOf(mem, current, deadList, ring, dead, idle) && k < |ring|
    ensures ShapeOf(mem, ring[k], deadList, ring[k..] + ring[..k], dead, idle)
    ensures Infos(mem, ring[k..] + ring[..k]) == Infos(mem, ring)[k..] + Infos(mem, ring)[..k]
  {
    Rotate(mem, ring, k);
    ApartRotate(ring, dead, k);
    IdleStill(mem, mem, ring, ring[k..] + ring[..k], idle);
    InfosSlices(mem, ring, k);
    InfosConcat(mem, ring[k..], ring[..k]);
    assert (ring[k..] + ring[..k])[0] == ring[k];
  }

  lemma InfosSlices(mem: Memory, ts: seq<nat>, k: nat)
    requires k <= |ts|
    ensures Infos(mem, ts[..k]) == Infos(mem, ts)[..k] && Infos(mem, ts[k..]) == Infos(mem, ts)[k..]
  {
  }

  /** The run queue read from its k-th task, which is now running. */
  ghost function FromRunning(infos: seq<Info>, k: nat): seq<Info>
    requires k < |infos|
  {
    [infos[k].(state := Running)] + infos[k + 1..] + infos[..k]
  }

  lemma RunningFirst(infos: seq<Info>, k: nat)
    requires k < |infos|
    ensures var i := infos[k := infos[k].(state := Running)];
            i[k..] + i[..k] == FromRunning(infos, k)
  {
  }

  /** next->state = TASK_RUNNING; current = next. */
  lemma MakeCurrentRefines(mem: Memory, current: nat, deadList: nat, ring: seq<nat>, dead: seq<nat>, idle: nat, k: nat)
    requires ShapeOf(mem, current, deadList, ring, dead, idle) && k < |ring|
    ensures ring[k] in mem
    ensures var mem' := SetState(mem, ring[k], Running);
            && ShapeOf(mem', ring[k], deadList, ring[k..] + ring[..k], dead, idle)
            && Infos(mem', ring[k..] + ring[..k]) == FromRunning(Infos(mem, ring), k)
            && Infos(mem', dead) == Infos(mem, dead)
  {
    var infos := Infos(mem, ring);
    SetInfoKeepsShape(mem, current, deadList, ring, dead, idle, k, infos[k].(state := Running));
    RotateKeepsShape(SetState(mem, ring[k], Running), current, deadList, ring, dead, idle, k);
    RunningFirst(infos, k);
  }

  lemma SwitchedAlive(s: Sched, k: nat, r: Sched)
    requires 0 < k < |s.ring| && s.ring[0].state != Dead
    requires r.ring == FromRunning(s.ring[0 := Requeued(s.ring[0])], k) && r == s.(ring := r.ring)
    ensures r == SwitchTo(s, k)
  {
  }

  lemma SwitchedDead(s: Sched, k: nat, r: Sched)
    requires 0 < k < |s.ring| && s.ring[0].state == Dead
    requires r.ring == FromRunning(s.ring[1..], k - 1) && r.dead == [Corpse(s.ring[0])] + s.dead
    requires r == s.(ring := r.ring, dead := r.dead)
    ensures r == SwitchTo(s, k)
  {
  }

  /** p->next = t->next; t becomes a corpse; t->next = dead_list. */
  function Buried(mem: Memory, p: nat, t: nat, deadList: nat, corpse: Info): Memory
    requires p in mem && t in mem
  {
    SetNext(SetInfo(SetNext(mem, p, mem[t].next), t, corpse), t, deadList)
  }

  lemma BuryCurrent(mem: Memory, current: nat, deadList: nat, ring: seq<nat>, dead: seq<nat>, idle: nat, corpse: Info)
    requires ShapeOf(mem, current, deadList, ring, dead, idle) && current != idle
    ensures |ring| > 1
    ensures ring[|ring| - 1] in mem && current in mem && current != ring[|ring| - 1]
    ensures var m := SetNext(mem, ring[|ring| - 1], ring[1]);
            var mem' := SetNext(SetInfo(m, current, corpse), current, deadList);
            && ShapeOf(mem', ring[1], current, ring[1..], [current] + dead, idle)
            && Infos(mem', ring[1..]) == Infos(mem, ring)[1..]
            && Infos(mem', [current] + dead) == [corpse] + Infos(mem, dead)
  {
    var last := ring[|ring| - 1];
    var m := SetNext(mem, last, ring[1]);
    var m2 := SetInfo(m, current, corpse);
    var mem' := SetNext(m2, current, deadList);
    UnlinkFirst(mem, ring);
    ApartMember(ring, dead, last);
    ApartMember(ring, dead, current);
    SetNextElsewhere(mem, last, ring[1], dead, NIL);
    FirstNotLater(ring);
    SetInfoKeepsLinks(m, current, corpse, ring[1..], ring[1]);
    SetInfoKeepsLinks(m, current, corpse, dead, NIL);
    SetNextElsewhere(m2, current, deadList, ring[1..], ring[1]);
    PushLinked(m2, current, dead);
    ApartShift(ring, dead);
    BuriedInfos(mem, ring, dead, last, current, deadList, corpse);
    IdleStill(mem, mem', ring, ring[1..], idle);
  }

  lemma FirstNotLater(ts: seq<nat>)
    requires |ts| > 0 && Distinct(ts)
    ensures ts[0] !in ts[1..] && (|ts| > 1 ==> ts[0] != ts[|ts| - 1])
  {
  }

  lemma ApartShift(a: seq<nat>, b: seq<nat>)
    requires Apart(a, b) && a != []
    ensures Apart(a[1..], [a[0]] + b)
  {
  }

  lemma BuriedInfos(mem: Memory, ring: seq<nat>, dead: seq<nat>, last: nat, current: nat, deadList: nat, corpse: Info)
    requires |ring| > 1 && ring[0] == current && Apart(ring, dead) && last == ring[|ring| - 1]
    requires last in mem && current in mem && last != current
    ensures var m := SetNext(mem, last, ring[1]);
            var mem' := SetNext(SetInfo(m, current, corpse), current, deadList);
            && Infos(mem', ring[1..]) == Infos(mem, ring)[1..]
            && Infos(mem', [current] + dead) == [corpse] + Infos(mem, dead)
            && (forall t | t in ring[1..] :: InfoAt(mem', t) == InfoAt(mem, t))
  {
    FirstNotLater(ring);
    ApartMember(ring, dead, current);
    assert ring[0] in ring;
  }

  // ---- reaping steps ----

  lemma InfosHead(mem: Memory, ts: seq<nat>)
    requires ts != []
    ensures Infos(mem, ts)[0] == InfoAt(mem, ts[0]) && Infos(mem, ts)[1..] == Infos(mem, ts[1..])
  {
  }

  lemma BeginReap(mem: Memory, current: nat, c: nat, ring: seq<nat>, dead: seq<nat>, idle: nat)
    requires ShapeOf(mem, current, c, ring, dead, idle)
    ensures Reaping(mem, current, NIL, NIL, c, ring, [], [], dead, idle)
  {
    assert [] + [] + dead == dead;
  }

  lemma NextCorpse(mem: Memory, todo: seq<nat>)
    requires Linked(mem, todo, NIL) && todo != []
    ensures todo[0] in mem && mem[todo[0]].next == Head(todo[1..], NIL)
  {
    assert Link(mem, todo, 0, NIL);
  }

  lemma KeepStep(mem: Memory, current: nat, deadList: nat, prev: nat, c: nat, ring: seq<nat>,
                 kept: seq<nat>, gone: seq<nat>, todo: seq<nat>, idle: nat, freed: seq<nat>)
    requires Reaping(mem, current, deadList, prev, c, ring, kept, gone, todo, idle) && c != NIL
    requires InfoAt(mem, c).ppid != 0
    ensures todo != []
    ensures c in mem && (prev != NIL ==> prev in mem) && mem[c].next == Head(todo[1..], NIL)
    ensures var mem' := if prev != NIL then SetNext(mem, prev, c) else mem;
            && Reaping(mem', current, if prev != NIL then deadList else c, c, Head(todo[1..], NIL), ring, kept + [c],
               [], todo[1..], idle)
            && Remaining(mem', ring, kept + [c], todo[1..], freed) == Remaining(mem, ring, kept, todo, freed)
            && Infos(mem', todo[1..]) == Infos(mem, todo)[1..] && Infos(mem, todo)[0] == InfoAt(mem, c)
  {
    NextCorpse(mem, todo);
    LinkedSplit(mem, todo, 1, NIL);
    InfosHead(mem, todo);
    InfosConcat(mem, kept, [c]);
    assert Infos(mem, [c]) == [InfoAt(mem, c)];
    if kept == [] {
      assert kept + gone + todo == todo && [c] + [] + todo[1..] == todo && kept + [c] == [c];
    } else {
      KeepAfterZombie(mem, ring, kept, gone, todo);
      SetNextElsewhere(mem, prev, c, ring, current);
      SetNextKeepsInfos(mem, prev, c, ring);
      SetNextKeepsInfos(mem, prev, c, todo[1..]);
      SetNextKeepsInfos(mem, prev, c, kept + [c]);
      IdleStill(mem, SetNext(mem, prev, c), ring, ring, idle);
    }
  }

  lemma KeepAfterZombie(mem: Memory, ring: seq<nat>, kept: seq<nat>, gone: seq<nat>, todo: seq<nat>)
    requires kept != [] && todo != [] && Linked(mem, kept + gone + todo, NIL) && Linked(mem, todo, NIL)
    requires Apart(ring, kept + gone + todo) && NIL !in kept + gone + todo
    ensures var prev, c := kept[|kept| - 1], todo[0];
            && prev in mem && prev !in ring && prev != NIL
            && Linked(SetNext(mem, prev, c), todo[1..], NIL)
            && Linked(SetNext(mem, prev, c), kept + [c] + [] + todo[1..], NIL)
            && Apart(ring, kept + [c] + [] + todo[1..]) && NIL !in kept + [c] + [] + todo[1..]
            && (kept + [c] + [] + todo[1..])[0] == (kept + gone + todo)[0]
  {
    var w, prev, c := kept + gone + todo, kept[|kept| - 1], todo[0];
    assert w[|kept| - 1] == prev;
    var mem' := SetNext(mem, prev, c);
    ApartDropMiddle(ring, kept, gone, todo);
    LinkedSplit(mem, w, |kept|, NIL);
    assert w[..|kept|] == kept;
    Relink(mem, kept, Head(w[|kept|..], NIL), c);
    SetNextElsewhere(mem, prev, c, todo, NIL);
    LinkedJoin(mem', kept, todo, NIL);
    LinkedSplit(mem', todo, 1, NIL);
    assert kept + [c] + [] + todo[1..] == kept + todo;
    ApartMember(ring, w, prev);
  }

  lemma FreeStep(mem: Memory, current: nat, deadList: nat, prev: nat, c: nat, ring: seq<nat>,
                 kept: seq<nat>, gone: seq<nat>, todo: seq<nat>, idle: nat, freed: seq<nat>)
    requires Reaping(mem, current, deadList, prev, c, ring, kept, gone, todo, idle) && c != NIL
    requires InfoAt(mem, c).ppid == 0
    ensures todo != []
    ensures c in mem && mem[c].next == Head(todo[1..], NIL) && Distinct(ring)
    ensures Distinct(Swept(kept, gone, todo)) && NIL !in Swept(kept, gone, todo)
    ensures var pid := mem[c].info.pid;
            var mem' := AdoptIn(AdoptIn(mem, ring, pid), Swept(kept, gone, todo), pid);
            var gone' := if kept == [] then [] else gone + [c];
            && c in mem' && mem'[c].info.pid == pid
            && Reaping(mem', current, deadList, prev, Head(todo[1..], NIL), ring, kept, gone', todo[1..], idle)
            && Remaining(mem', ring, kept, todo[1..], freed + [pid]) == Remaining(mem, ring, kept, todo, freed)
            && Infos(mem', todo[1..]) ==
               (if kept == [] then Infos(mem, todo)[1..] else Orphaned(Infos(mem, todo)[1..], pid))
            && Infos(mem, todo)[0] == InfoAt(mem, c)
  {
    var pid, swept := mem[c].info.pid, Swept(kept, gone, todo);
    var m := AdoptIn(mem, ring, pid);
    var mem' := AdoptIn(m, swept, pid);
    NextCorpse(mem, todo);
    LinkedSplit(mem, todo, 1, NIL);
    InfosHead(mem, todo);
    SweptLinks(mem, ring, current, swept, pid, ring, current);
    SweptLinks(mem, ring, current, swept, pid, todo[1..], NIL);
    SweptLinks(mem, ring, current, swept, pid, swept, NIL);
    FreeShapes(ring, kept, gone, todo);
    SweptInfos(mem, ring, kept, gone, todo, pid);
    IdleStill(mem, mem', ring, ring, idle);
  }

  lemma SweptLinks(mem: Memory, ring: seq<nat>, current: nat, swept: seq<nat>, pid: nat, ts: seq<nat>, end: nat)
    requires Linked(mem, ts, end)
    ensures Linked(AdoptIn(AdoptIn(mem, ring, pid), swept, pid), ts, end)
  {
    AdoptKeepsLinks(mem, ring, pid, ts, end);
    AdoptKeepsLinks(AdoptIn(mem, ring, pid), swept, pid, ts, end);
  }

  lemma FreeShapes(ring: seq<nat>, kept: seq<nat>, gone: seq<nat>, todo: seq<nat>)
    requires todo != [] && Apart(ring, kept + gone + todo) && NIL !in kept + gone + todo && (kept == [] ==> gone == [])
    ensures var gone' := if kept == [] then [] else gone + [todo[0]];
            && (kept != [] ==> Swept(kept, gone', todo[1..]) == Swept(kept, gone, todo))
            && Apart(ring, kept + gone' + todo[1..]) && NIL !in kept + gone' + todo[1..]
            && Distinct(Swept(kept, gone, todo)) && NIL !in Swept(kept, gone, todo)
  {
    if kept == [] {
      assert kept + gone + todo == [] + [todo[0]] + todo[1..];
      ApartDropMiddle(ring, [], [todo[0]], todo[1..]);
      assert kept + [] + todo[1..] == [] + todo[1..];
    } else {
      assert kept + (gone + [todo[0]]) + todo[1..] == kept + gone + todo;
    }
  }

  lemma SweptInfos(mem: Memory, ring: seq<nat>, kept: seq<nat>, gone: seq<nat>, todo: seq<nat>, pid: nat)
    requires todo != [] && Apart(ring, kept + gone + todo)
    requires (forall t | t in ring :: t in mem) && (forall t | t in Swept(kept, gone, todo) :: t in mem)
    ensures var mem' := AdoptIn(AdoptIn(mem, ring, pid), Swept(kept, gone, todo), pid);
            && Infos(mem', ring) == Orphaned(Infos(mem, ring), pid)
            && (forall t | t in ring :: InfoAt(mem', t).pid == InfoAt(mem, t).pid)
            && (kept == [] ==> Infos(mem', kept) == [] && Infos(mem', todo[1..]) == Infos(mem, todo[1..]))
            && (kept != [] ==> Infos(mem', kept) == Orphaned(Infos(mem, kept), pid)
                               && Infos(mem', todo[1..]) == Orphaned(Infos(mem, todo[1..]), pid))
  {
    var w, swept, m := kept + gone + todo, Swept(kept, gone, todo), AdoptIn(mem, ring, pid);
    forall t | t in ring
      ensures t !in w && t !in swept
    {
      ApartMember(ring, w, t);
    }
    assert forall t | t in todo[1..] :: t in w;
    assert forall t | t in kept :: t in w;
    AdoptedInfos(mem, ring, pid, ring);
    UntouchedInfos(m, swept, pid, ring);
    UntouchedInfos(mem, ring, pid, todo[1..]);
    UntouchedInfos(mem, ring, pid, kept);
    if kept == [] {
      UntouchedInfos(m, swept, pid, todo[1..]);
    } else {
      AdoptedInfos(m, swept, pid, kept);
      AdoptedInfos(m, swept, pid, todo[1..]);
    }
  }

  lemma EndReap(mem: Memory, current: nat, deadList: nat, prev: nat, ring: seq<nat>,
                kept: seq<nat>, gone: seq<nat>, todo: seq<nat>, idle: nat, freed: seq<nat>)
    requires Reaping(mem, current, deadList, prev, NIL, ring, kept, gone, todo, idle)
    ensures prev != NIL ==> prev in mem
    ensures todo == []
    ensures var mem' := if prev != NIL then SetNext(mem, prev, NIL) else mem;
            && ShapeOf(mem', current, deadList, ring, kept, idle)
            && (Infos(mem', ring), Infos(mem', kept), freed) == Remaining(mem, ring, kept, todo, freed)
  {
    assert forall t | t in todo :: t in kept + gone + todo;
    ApartDropMiddle(ring, kept, gone, todo);
    if kept != [] {
      var w := kept + gone + todo;
      assert w[|kept| - 1] == prev && prev in w;
      LinkedSplit(mem, w, |kept|, NIL);
      assert w[..|kept|] == kept;
      Relink(mem, kept, Head(w[|kept|..], NIL), NIL);
      ApartMember(ring, w, prev);
      SetNextElsewhere(mem, prev, NIL, ring, current);
      SetNextKeepsInfos(mem, prev, NIL, ring);
      SetNextKeepsInfos(mem, prev, NIL, kept);
      IdleStill(mem, SetNext(mem, prev, NIL), ring, ring, idle);
    }
  }

  // ---- killing, waking, collecting ----

  function Without<T>(ts: seq<T>, k: nat): seq<T>
    requires k < |ts|
  {
    ts[..k] + ts[k + 1..]
  }

  /** Taking the k-th task off the run queue and pushing it onto the dead list. */
  lemma RemoveRefines(mem: Memory, current: nat, deadList: nat, ring: seq<nat>, dead: seq<nat>, idle: nat, k: nat,
                      corpse: Info)
    requires ShapeOf(mem, current, deadList, ring, dead, idle) && 0 < k < |ring| && ring[k] != idle
    ensures ring[k] in mem && ring[k - 1] in mem && ring[k - 1] != ring[k]
    ensures var mem' := Buried(mem, ring[k - 1], ring[k], deadList, corpse);
            && ShapeOf(mem', current, ring[k], Without(ring, k), [ring[k]] + dead, idle)
            && Infos(mem', Without(ring, k)) == Without(Infos(mem, ring), k)
            && Infos(mem', [ring[k]] + dead) == [corpse] + Infos(mem, dead)
  {
    BuryAt(mem, current, deadList, ring, dead, idle, k, corpse);
    RotateBack(ring, k);
    RotateBack(Infos(mem, ring), k);
    ReadFrom(Buried(mem, ring[k - 1], ring[k], deadList, corpse), ring[k], Rest(ring, k), [ring[k]] + dead, idle,
             |ring| - 1 - k, Without(ring, k), Without(Infos(mem, ring), k));
  }

  ghost function Rest<T>(ring: seq<T>, k: nat): seq<T>
    requires 0 < k < |ring|
  {
    (ring[k..] + ring[..k])[1..]
  }

  lemma BuryAt(mem: Memory, current: nat, deadList: nat, ring: seq<nat>, dead: seq<nat>, idle: nat, k: nat,
               corpse: Info)
    requires ShapeOf(mem, current, deadList, ring, dead, idle) && 0 < k < |ring| && ring[k] != idle
    ensures ring[k] in mem && ring[k - 1] in mem && ring[k - 1] != ring[k]
    ensures var mem' := Buried(mem, ring[k - 1], ring[k], deadList, corpse);
            && ShapeOf(mem', Rest(ring, k)[0], ring[k], Rest(ring, k), [ring[k]] + dead, idle)
            && Infos(mem', Rest(ring, k)) == Rest(Infos(mem, ring), k)
            && Infos(mem', [ring[k]] + dead) == [corpse] + Infos(mem, dead)
  {
    RotateKeepsShape(mem, current, deadList, ring, dead, idle, k);
    RotatedAt(mem, ring, k);
    BuryCurrent(mem, ring[k], deadList, ring[k..] + ring[..k], dead, idle, corpse);
  }

  lemma ReadFrom(mem: Memory, deadList: nat, rest: seq<nat>, dead: seq<nat>, idle: nat, k: nat, ring: seq<nat>,
                 infos: seq<Info>)
    requires k < |rest| && ShapeOf(mem, rest[0], deadList, rest, dead, idle)
    requires rest[k..] + rest[..k] == ring && Infos(mem, rest)[k..] + Infos(mem, rest)[..k] == infos
    ensures ShapeOf(mem, rest[k], deadList, ring, dead, idle) && Infos(mem, ring) == infos
  {
    RotateKeepsShape(mem, rest[0], deadList, rest, dead, idle, k);
  }

  lemma RotationAt(mem: Memory, ring: seq<nat>, k: nat) returns (rot: seq<nat>)
    requires 0 < k < |ring| && Linked(mem, ring, ring[0]) && Distinct(ring)
    ensures rot != [] && rot[0] == ring[k] && rot[|rot| - 1] == ring[k - 1]
    ensures Linked(mem, rot, ring[k]) && forall i | 0 < i < |rot| :: rot[i] != ring[k]
  {
    rot := ring[k..] + ring[..k];
    Rotate(mem, ring, k);
  }

  lemma RotatedAt(mem: Memory, ring: seq<nat>, k: nat)
    requires 0 < k < |ring| && Linked(mem, ring, ring[0])
    ensures var rot := ring[k..] + ring[..k];
            |rot| > 1 && rot[|rot| - 1] == ring[k - 1] && rot[0] == ring[k] && ring[k] in mem
              && mem[ring[k]].next == rot[1]
  {
    assert Link(mem, ring, k, ring[0]);
  }

  lemma RotateBack<T>(ring: seq<T>, k: nat)
    requires 0 < k < |ring|
    ensures var rest := Rest(ring, k);
            var back := |ring| - 1 - k;
            && back < |rest| && rest[back] == ring[0]
            && rest[back..] + rest[..back] == Without(ring, k)
  {
  }

  lemma WakeRefines(mem: Memory, current: nat, deadList: nat, ring: seq<nat>, dead: seq<nat>, idle: nat,
                    freed: seq<nat>, nextPid: nat,
                    woken: seq<nat>, now: nat)
    requires ShapeOf(mem, current, deadList, ring, dead, idle)
    requires forall t :: t in woken <==> t in ring && t != idle
    ensures ShapeOf(WakeIn(mem, woken, now), current, deadList, ring, dead, idle)
    ensures AbsOf(WakeIn(mem, woken, now), ring, dead, freed, nextPid) ==
            Wake(AbsOf(mem, ring, dead, freed, nextPid), now)
  {
    var mem' := WakeIn(mem, woken, now);
    WakeKeepsLinks(mem, woken, now, ring, current);
    WakeKeepsLinks(mem, woken, now, dead, NIL);
    WakeInfos(mem, ring, dead, idle, woken, now);
    IdleStill(mem, mem', ring, ring, idle);
  }

  /** The cycle from idle. */
  lemma FromIdle(mem: Memory, current: nat, deadList: nat, ring: seq<nat>, dead: seq<nat>, idle: nat)
    returns (ts: seq<nat>)
    requires ShapeOf(mem, current, deadList, ring, dead, idle)
    ensures ts != [] && ts[0] == idle && Linked(mem, ts, idle) && Distinct(ts) && NIL !in ts
    ensures forall t :: t in ts <==> t in ring
  {
    var d :| 0 <= d < |ring| && ring[d] == idle;
    ts := ring[d..] + ring[..d];
    Rotate(mem, ring, d);
    ApartRotate(ring, dead, d);
  }

  /** The cycle from idle's successor. */
  lemma AfterIdle(mem: Memory, current: nat, deadList: nat, ring: seq<nat>, dead: seq<nat>, idle: nat)
    returns (rest: seq<nat>)
    requires ShapeOf(mem, current, deadList, ring, dead, idle)
    ensures idle in mem && mem[idle].next == Head(rest, idle)
    ensures Linked(mem, rest, idle) && Distinct(rest) && idle !in rest
    ensures forall t :: t in rest <==> t in ring && t != idle
  {
    var ts := FromIdle(mem, current, deadList, ring, dead, idle);
    DistinctSlice(ts, 1);
    LinkedSplit(mem, ts, 1, idle);
    rest := ts[1..];
    assert ts == [idle] + rest && ts[..1] == [idle];
    assert Link(mem, ts[..1], 0, Head(rest, idle));
  }

  lemma WakeInfos(mem: Memory, ring: seq<nat>, dead: seq<nat>, idle: nat, woken: seq<nat>, now: nat)
    requires Apart(ring, dead) && IdleIs(mem, ring, idle) && (forall t | t in ring :: t in mem)
    requires forall t :: t in woken <==> t in ring && t != idle
    ensures forall i | 0 <= i < |ring| :: Infos(WakeIn(mem, woken, now), ring)[i] == Awake(Infos(mem, ring)[i], now)
    ensures Infos(WakeIn(mem, woken, now), dead) == Infos(mem, dead)
  {
    forall i | 0 <= i < |dead|
      ensures InfoAt(WakeIn(mem, woken, now), dead[i]) == InfoAt(mem, dead[i])
    {
      ApartMember(ring, dead, dead[i]);
    }
  }

  lemma CollectRefines(mem: Memory, current: nat, deadList: nat, ring: seq<nat>, dead: seq<nat>, idle: nat, k: nat)
    requires ShapeOf(mem, current, deadList, ring, dead, idle) && k < |dead|
    ensures dead[k] in mem && (k > 0 ==> dead[k - 1] in mem)
    ensures var mem' := if k > 0 then SetNext(mem, dead[k - 1], mem[dead[k]].next) else mem;
            && ShapeOf(mem', current, if k > 0 then deadList else mem[dead[k]].next, ring, dead[..k] + dead[k + 1..],
               idle)
            && Infos(mem', ring) == Infos(mem, ring)
            && Infos(mem', dead[..k] + dead[k + 1..]) == Infos(mem, dead)[..k] + Infos(mem, dead)[k + 1..]
  {
    var dead' := dead[..k] + dead[k + 1..];
    UnlinkAt(mem, dead, k);
    assert dead == dead[..k] + [dead[k]] + dead[k + 1..];
    ApartDropMiddle(ring, dead[..k], [dead[k]], dead[k + 1..]);
    if k > 0 {
      var mem' := SetNext(mem, dead[k - 1], mem[dead[k]].next);
      ApartMember(ring, dead, dead[k - 1]);
      SetNextElsewhere(mem, dead[k - 1], mem[dead[k]].next, ring, current);
      SetNextKeepsInfos(mem, dead[k - 1], mem[dead[k]].next, ring);
      SetNextKeepsInfos(mem, dead[k - 1], mem[dead[k]].next, dead');
      IdleStill(mem, mem', ring, ring, idle);
    }
  }

  /** Within one run queue a pid names one task. */
  ghost predicate PidsDistinct(infos: seq<Info>) {
    forall i, j | 0 <= i < j < |infos| :: infos[i].pid != infos[j].pid
  }

  lemma AccountedPids(s: Sched)
    requires Accounted(s)
    ensures PidsDistinct(s.ring)
  {
    forall i, j | 0 <= i < j < |s.ring|
      ensures s.ring[i].pid != s.ring[j].pid
    {
      var ps := Pids(s.ring);
      assert ps == ps[..i] + [ps[i]] + ps[i + 1..j] + [ps[j]] + ps[j + 1..];
      assert multiset(ps)[ps[i]] >= 1 && Account(s)[ps[i]] >= multiset(ps)[ps[i]];
      assert s.ring[i].pid == s.ring[j].pid ==> multiset(ps)[ps[i]] >= 2;
    }
  }

  lemma IndexOfIs(infos: seq<Info>, pid: nat, k: nat)
    requires PidsDistinct(infos) && k < |infos| && infos[k].pid == pid
    ensures IndexOf(infos, pid) == k
  {
  }

  ghost predicate Killable(infos: seq<Info>, pid: nat) {
    pid != IDLE && exists i :: 0 <= i < |infos| && infos[i].pid == pid && infos[i].state != Dead
  }

  ghost predicate NotQueued(infos: seq<Info>, pid: nat) {
    forall i | 0 <= i < |infos| :: infos[i].pid != pid
  }

  lemma KillCases(s: Sched, pid: nat, k: nat)
    requires PidsDistinct(s.ring) && k < |s.ring| && s.ring[k].pid == pid != IDLE
    ensures Killable(s.ring, pid) <==> s.ring[k].state != Dead
    ensures !Killable(s.ring, pid) ==> Kill(s, pid) == s
    ensures Killable(s.ring, pid) && k == 0 ==> Kill(s, pid) == Exit(s, 0)
    ensures Killable(s.ring, pid) && k > 0 ==>
              Kill(s, pid) == s.(ring := Without(s.ring, k), dead := [Corpse(s.ring[k]).(exitCode := -1)] + s.dead)
  {
    IndexOfIs(s.ring, pid, k);
  }

  lemma KillMisses(s: Sched, pid: nat)
    requires s.ring != [] && (pid == IDLE || NotQueued(s.ring, pid))
    ensures !Killable(s.ring, pid) && Kill(s, pid) == s
  {
  }

  /** Searching the run queue in either order finds the same. */
  lemma SameSearch(mem: Memory, ring: seq<nat>, ts: seq<nat>, parent: nat, arg: int)
    requires ring != [] && Distinct(ring) && forall t :: t in ts <==> t in ring
    ensures (exists i :: 0 <= i < |ts| && ts[i] != ring[0] && Matches(InfoAt(mem, ts[i]), parent, arg))
        <==> (exists i :: 0 < i < |ring| && Matches(Infos(mem, ring)[i], parent, arg))
  {
    if i :| 0 <= i < |ts| && ts[i] != ring[0] && Matches(InfoAt(mem, ts[i]), parent, arg) {
      assert ts[i] in ring;
      var j :| 0 <= j < |ring| && ring[j] == ts[i];
      assert Matches(Infos(mem, ring)[j], parent, arg);
    }
    if i :| 0 < i < |ring| && Matches(Infos(mem, ring)[i], parent, arg) {
      assert ring[i] in ts;
      var j :| 0 <= j < |ts| && ts[j] == ring[i];
      assert Matches(InfoAt(mem, ts[j]), parent, arg);
    }
  }
}
