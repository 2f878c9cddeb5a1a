/** Task structs linked through `next` (src/sched/sched.h), and what pointer and field writes do
    to the lists they form. Memory keeps a freed struct's bytes until it is reused. */
module SchedLinks {
  import opened SchedSpec

  const NIL: nat := 0

  datatype Tcb = Tcb(info: Info, next: nat)

  type Memory = map<nat, Tcb>

  /** ts is linked in order and its last element points at `end`. */
  ghost predicate Linked(mem: Memory, ts: seq<nat>, end: nat) {
    && (forall i {:trigger ts[i]} | 0 <= i < |ts| :: ts[i] in mem)
    && (forall i {:trigger Link(mem, ts, i, end)} | 0 <= i < |ts| :: Link(mem, ts, i, end))
  }

  ghost predicate Link(mem: Memory, ts: seq<nat>, i: nat, end: nat)
    requires i < |ts|
  {
    ts[i] in mem && mem[ts[i]].next == if i + 1 < |ts| then ts[i + 1] else end
  }

  function Head(ts: seq<nat>, end: nat): nat {
    if ts == [] then end else ts[0]
  }

  ghost predicate Distinct(ts: seq<nat>) {
    forall i, j | 0 <= i < j < |ts| :: ts[i] != ts[j]
  }

  function InfoAt(mem: Memory, t: nat): Info {
    if t in mem then mem[t].info else Info(0, Dead, 0, 0, 0)
  }

  function Infos(mem: Memory, ts: seq<nat>): (r: seq<Info>)
    ensures |r| == |ts| && forall i | 0 <= i < |ts| :: r[i] == InfoAt(mem, ts[i])
  {
    seq(|ts|, i requires 0 <= i < |ts| => InfoAt(mem, ts[i]))
  }

  lemma InfosConcat(mem: Memory, a: seq<nat>, b: seq<nat>)
    ensures Infos(mem, a + b) == Infos(mem, a) + Infos(mem, b)
  {
  }

  function SetNext(mem: Memory, t: nat, next: nat): Memory
    requires t in mem
  {
    mem[t := mem[t].(next := next)]
  }

  function SetInfo(mem: Memory, t: nat, info: Info): Memory
    requires t in mem
  {
    mem[t := mem[t].(info := info)]
  }

  lemma SetNextKeepsInfos(mem: Memory, t: nat, next: nat, ts: seq<nat>)
    requires t in mem
    ensures Infos(SetNext(mem, t, next), ts) == Infos(mem, ts)
  {
  }

  lemma SetNextElsewhere(mem: Memory, t: nat, next: nat, ts: seq<nat>, end: nat)
    requires t in mem && Linked(mem, ts, end) && t !in ts
    ensures Linked(SetNext(mem, t, next), ts, end)
  {
    forall i | 0 <= i < |ts|
      ensures Link(SetNext(mem, t, next), ts, i, end)
    {
      assert Link(mem, ts, i, end);
    }
  }

  lemma SetInfoKeepsLinks(mem: Memory, t: nat, info: Info, ts: seq<nat>, end: nat)
    requires t in mem && Linked(mem, ts, end)
    ensures Linked(SetInfo(mem, t, info), ts, end)
  {
    forall i | 0 <= i < |ts|
      ensures Link(SetInfo(mem, t, info), ts, i, end)
    {
      assert Link(mem, ts, i, end);
    }
  }

  lemma SetInfoElsewhere(mem: Memory, t: nat, info: Info, ts: seq<nat>)
    requires t in mem && t !in ts
    ensures Infos(SetInfo(mem, t, info), ts) == Infos(mem, ts)
  {
  }

  lemma SetInfoAt(mem: Memory, t: nat, info: Info, ts: seq<nat>, i: nat)
    requires t in mem && i < |ts| && ts[i] == t && Distinct(ts)
    ensures Infos(SetInfo(mem, t, info), ts) == Infos(mem, ts)[i := info]
  {
  }

  // ---- list surgery ----

  /** Two linked pieces make one list. */
  lemma LinkedJoin(mem: Memory, a: seq<nat>, b: seq<nat>, end: nat)
    requires Linked(mem, a, Head(b, end)) && Linked(mem, b, end)
    ensures Linked(mem, a + b, end)
  {
    forall i | 0 <= i < |a + b|
      ensures Link(mem, a + b, i, end)
    {
      if i < |a| {
        assert Link(mem, a, i, Head(b, end));
      } else {
        assert Link(mem, b, i - |a|, end);
      }
    }
  }

  lemma LinkedSplit(mem: Memory, ts: seq<nat>, k: nat, end: nat)
    requires Linked(mem, ts, end) && k <= |ts|
    ensures Linked(mem, ts[..k], Head(ts[k..], end)) && Linked(mem, ts[k..], end)
  {
    forall i | 0 <= i < k
      ensures Link(mem, ts[..k], i, Head(ts[k..], end))
    {
      assert Link(mem, ts, i, end);
    }
    forall i | 0 <= i < |ts| - k
      ensures Link(mem, ts[k..], i, end)
    {
      assert Link(mem, ts, k + i, end);
    }
  }

  lemma LinkedOne(mem: Memory, t: nat, end: nat)
    requires t in mem && mem[t].next == end
    ensures Linked(mem, [t], end)
  {
    assert Link(mem, [t], 0, end);
  }

  /** Redirecting the last element of a list. */
  lemma Relink(mem: Memory, ts: seq<nat>, end: nat, end': nat)
    requires Linked(mem, ts, end) && Distinct(ts) && ts != []
    ensures Linked(SetNext(mem, ts[|ts| - 1], end'), ts, end')
  {
    var mem' := SetNext(mem, ts[|ts| - 1], end');
    forall i | 0 <= i < |ts|
      ensures Link(mem', ts, i, end')
    {
      assert Link(mem, ts, i, end);
    }
  }

  /** The run queue read from another of its tasks. */
  lemma Rotate(mem: Memory, ts: seq<nat>, k: nat)
    requires k < |ts| && Linked(mem, ts, ts[0])
    ensures Linked(mem, ts[k..] + ts[..k], ts[k])
  {
    LinkedSplit(mem, ts, k, ts[0]);
    assert Head(ts[..k], ts[k]) == ts[0];
    assert Head(ts[k..], ts[0]) == ts[k];
    LinkedJoin(mem, ts[k..], ts[..k], ts[k]);
  }

  // ---- sched_orphan_children on memory ----

  function AdoptIn(mem: Memory, ts: seq<nat>, pid: nat): Memory {
    map t | t in mem :: if t in ts then mem[t].(info := Adopt(mem[t].info, pid)) else mem[t]
  }

  lemma AdoptKeepsLinks(mem: Memory, swept: seq<nat>, pid: nat, ts: seq<nat>, end: nat)
    requires Linked(mem, ts, end)
    ensures Linked(AdoptIn(mem, swept, pid), ts, end)
  {
    forall i | 0 <= i < |ts|
      ensures Link(AdoptIn(mem, swept, pid), ts, i, end)
    {
      assert Link(mem, ts, i, end);
    }
  }

  /** A list inside the swept one is orphaned as a whole. */
  lemma AdoptedInfos(mem: Memory, swept: seq<nat>, pid: nat, ts: seq<nat>)
    requires forall t | t in ts :: t in swept && t in mem
    ensures Infos(AdoptIn(mem, swept, pid), ts) == Orphaned(Infos(mem, ts), pid)
  {
    forall i | 0 <= i < |ts|
      ensures Infos(AdoptIn(mem, swept, pid), ts)[i] == Adopt(Infos(mem, ts)[i], pid)
    {
      assert ts[i] in ts;
    }
  }

  lemma UntouchedInfos(mem: Memory, swept: seq<nat>, pid: nat, ts: seq<nat>)
    requires forall t | t in ts :: t !in swept
    ensures Infos(AdoptIn(mem, swept, pid), ts) == Infos(mem, ts)
  {
    forall i | 0 <= i < |ts|
      ensures Infos(AdoptIn(mem, swept, pid), ts)[i] == Infos(mem, ts)[i]
    {
      assert ts[i] in ts;
    }
  }

  lemma AdoptOneMore(mem: Memory, ts: seq<nat>, i: nat, pid: nat)
    requires i < |ts| && ts[i] in mem && Distinct(ts)
    ensures ts[i] in AdoptIn(mem, ts[..i], pid) && AdoptIn(mem, ts[..i], pid)[ts[i]] == mem[ts[i]]
    ensures SetInfo(AdoptIn(mem, ts[..i], pid), ts[i], Adopt(mem[ts[i]].info, pid)) == AdoptIn(mem, ts[..i + 1], pid)
  {
    assert ts[..i + 1] == ts[..i] + [ts[i]];
    assert ts[i] !in ts[..i];
  }

  /** No struct is twice on either list or on both. */
  ghost predicate Apart(a: seq<nat>, b: seq<nat>) {
    && Distinct(a) && Distinct(b)
    && (forall i, j {:trigger a[i], b[j]} | 0 <= i < |a| && 0 <= j < |b| :: a[i] != b[j])
  }

  lemma ApartMember(a: seq<nat>, b: seq<nat>, t: nat)
    requires Apart(a, b)
    ensures t in a ==> t !in b
  {
  }

  lemma ApartAppend(a: seq<nat>, b: seq<nat>, t: nat)
    requires Apart(a, b) && t !in a && t !in b
    ensures Apart(a + [t], b)
  {
  }

  /** A struct that is on no list can be written freely. */
  lemma WriteFresh(mem: Memory, t: nat, x: Tcb, ts: seq<nat>, end: nat)
    requires t !in ts && Linked(mem, ts, end)
    ensures Linked(mem[t := x], ts, end) && Infos(mem[t := x], ts) == Infos(mem, ts)
  {
    var mem' := mem[t := x];
    forall i | 0 <= i < |ts|
      ensures Link(mem', ts, i, end)
    {
      assert Link(mem, ts, i, end);
    }
  }

  /** tail->next = t; t->next = end. */
  lemma AppendLinked(mem: Memory, ts: seq<nat>, end: nat, t: nat)
    requires ts != [] && Linked(mem, ts, end) && Distinct(ts) && t !in ts && t in mem && mem[t].next == end
    ensures Linked(SetNext(mem, ts[|ts| - 1], t), ts + [t], end)
    ensures Infos(SetNext(mem, ts[|ts| - 1], t), ts + [t]) == Infos(mem, ts) + [mem[t].info]
  {
    var mem' := SetNext(mem, ts[|ts| - 1], t);
    Relink(mem, ts, end, t);
    LinkedOne(mem', t, end);
    LinkedJoin(mem', ts, [t], end);
    InfosConcat(mem', ts, [t]);
    SetNextKeepsInfos(mem, ts[|ts| - 1], t, ts);
  }

  lemma ApartRotate(a: seq<nat>, b: seq<nat>, k: nat)
    requires Apart(a, b) && k <= |a|
    ensures Apart(a[k..] + a[..k], b)
    ensures forall t :: t in a[k..] + a[..k] <==> t in a
  {
    assert a == a[..k] + a[k..];
  }

  /** Taking the first task off the cycle: the last one now points at the second. */
  lemma UnlinkFirst(mem: Memory, ts: seq<nat>)
    requires |ts| > 1 && Distinct(ts) && Linked(mem, ts, ts[0])
    ensures ts[|ts| - 1] in mem && Linked(SetNext(mem, ts[|ts| - 1], ts[1]), ts[1..], ts[1])
  {
    LinkedSplit(mem, ts, 1, ts[0]);
    assert ts[1..][|ts| - 2] == ts[|ts| - 1];
    DistinctSlice(ts, 1);
    Relink(mem, ts[1..], ts[0], ts[1]);
  }

  lemma DistinctSlice(ts: seq<nat>, k: nat)
    requires Distinct(ts) && k <= |ts|
    ensures Distinct(ts[..k]) && Distinct(ts[k..])
    ensures forall t | t in ts[..k] :: t !in ts[k..]
  {
    assert ts == ts[..k] + ts[k..];
  }

  /** Pushing a struct that is on neither list onto a null-terminated one. */
  lemma PushLinked(mem: Memory, t: nat, ts: seq<nat>)
    requires t in mem && t !in ts && Linked(mem, ts, NIL)
    ensures Linked(SetNext(mem, t, Head(ts, NIL)), [t] + ts, NIL)
  {
    var mem' := SetNext(mem, t, Head(ts, NIL));
    SetNextElsewhere(mem, t, Head(ts, NIL), ts, NIL);
    LinkedOne(mem', t, Head(ts, NIL));
    LinkedJoin(mem', [t], ts, NIL);
  }

  lemma AdoptSameMembers(mem: Memory, a: seq<nat>, b: seq<nat>, pid: nat)
    requires forall t :: t in a <==> t in b
    ensures AdoptIn(mem, a, pid) == AdoptIn(mem, b, pid)
  {
  }

  lemma AdoptNobody(mem: Memory, ts: seq<nat>)
    ensures AdoptIn(mem, ts, 0) == mem && AdoptIn(mem, [], 0) == mem
  {
  }

  lemma AdoptNothing(mem: Memory, pid: nat)
    ensures AdoptIn(mem, [], pid) == mem
  {
  }

  lemma ApartDropMiddle(a: seq<nat>, x: seq<nat>, y: seq<nat>, z: seq<nat>)
    requires Apart(a, x + y + z)
    ensures Apart(a, x + z) && Apart(a, x) && Apart(a, z) && Distinct(x)
    ensures forall t | t in x :: t !in z && t !in y
  {
    var w := x + y + z;
    assert x == w[..|x|] && z == w[|x| + |y|..] && y == w[|x|..|x| + |y|];
    forall i, j | 0 <= i < j < |x + z|
      ensures (x + z)[i] != (x + z)[j]
    {
      assert w[if i < |x| then i else i + |y|] != w[if j < |x| then j else j + |y|];
    }
    forall i, j | 0 <= i < |a| && 0 <= j < |x + z|
      ensures a[i] != (x + z)[j]
    {
      assert a[i] != w[if j < |x| then j else j + |y|];
    }
    forall i, j | 0 <= i < |a| && 0 <= j < |x|
      ensures a[i] != x[j]
    {
      assert a[i] != w[j];
    }
    forall i, j | 0 <= i < |a| && 0 <= j < |z|
      ensures a[i] != z[j]
    {
      assert a[i] != w[|x| + |y| + j];
    }
    forall i, j | 0 <= i < |x| && 0 <= j < |y| + |z|
      ensures x[i] != (y + z)[j]
    {
      assert w[i] != w[|x| + j];
    }
    assert forall t | t in y || t in z :: t in y + z;
  }

  // ---- sched_wake_sleepers on memory ----

  function WakeIn(mem: Memory, ts: seq<nat>, now: nat): Memory {
    map t | t in mem :: if t in ts then mem[t].(info := Roused(mem[t].info, now)) else mem[t]
  }

  function Roused(t: Info, now: nat): Info {
    if t.state == Sleeping && now >= t.sleepUntil then t.(state := Ready, sleepUntil := 0) else t
  }

  lemma WakeKeepsLinks(mem: Memory, woken: seq<nat>, now: nat, ts: seq<nat>, end: nat)
    requires Linked(mem, ts, end)
    ensures Linked(WakeIn(mem, woken, now), ts, end)
  {
    forall i | 0 <= i < |ts|
      ensures Link(WakeIn(mem, woken, now), ts, i, end)
    {
      assert Link(mem, ts, i, end);
    }
  }

  lemma WakeOneMore(mem: Memory, ts: seq<nat>, i: nat, now: nat)
    requires i < |ts| && ts[i] in mem && Distinct(ts)
    ensures ts[i] in WakeIn(mem, ts[..i], now) && WakeIn(mem, ts[..i], now)[ts[i]] == mem[ts[i]]
    ensures SetInfo(WakeIn(mem, ts[..i], now), ts[i], Roused(mem[ts[i]].info, now)) == WakeIn(mem, ts[..i + 1], now)
  {
    assert ts[..i + 1] == ts[..i] + [ts[i]];
    assert ts[i] !in ts[..i];
  }

  lemma WakeNothing(mem: Memory, now: nat)
    ensures WakeIn(mem, [], now) == mem
  {
  }

  /** Taking the k-th element out of a null-terminated list. */
  lemma UnlinkAt(mem: Memory, ts: seq<nat>, k: nat)
    requires k < |ts| && Linked(mem, ts, NIL) && Distinct(ts)
    ensures ts[k] in mem && mem[ts[k]].next == Head(ts[k + 1..], NIL) && Distinct(ts[..k] + ts[k + 1..])
    ensures k == 0 ==> Linked(mem, ts[..k] + ts[k + 1..], NIL)
    ensures k > 0 ==> ts[k - 1] in mem && Linked(SetNext(mem, ts[k - 1], mem[ts[k]].next), ts[..k] + ts[k + 1..], NIL)
  {
    LinkedSplit(mem, ts, k + 1, NIL);
    assert Link(mem, ts, k, NIL);
    DistinctSlice(ts, k + 1);
    if k == 0 {
      assert ts[..k] + ts[k + 1..] == ts[1..];
    } else {
      LinkedSplit(mem, ts, k, NIL);
      DistinctSlice(ts, k);
      assert ts[..k][k - 1] == ts[k - 1];
      var mem' := SetNext(mem, ts[k - 1], mem[ts[k]].next);
      Relink(mem, ts[..k], Head(ts[k..], NIL), mem[ts[k]].next);
      assert ts[k - 1] in ts[..k + 1];
      SetNextElsewhere(mem, ts[k - 1], mem[ts[k]].next, ts[k + 1..], NIL);
      LinkedJoin(mem', ts[..k], ts[k + 1..], NIL);
    }
  }
}
