/** The driver's receive path (virtqueue_submit, net_rx_init, net_rx_poll) and the device's steps on
    the shared rings, seen as a queue of packets. */
module ReceiveQueue {
  import opened RxRing
  import opened Values

  class ReceiveQueue {
    const size: nat
    // shared memory
    const desc: array<Desc>
    const avail: array<nat>
    const used: array<Used>
    const bufs: array<seq<Byte>>
    var availIdx: nat
    var usedIdx: nat
    // the driver's own
    const descToBuf: array<int>
    var freeHead: nat
    var lastUsed: nat
    var initialized: bool
    // the device's own: where it reads the available ring, and the buffers it is filling
    var deviceIdx: nat
    var filling: seq<nat>
    ghost var counts: Counts
    // packets completed and not yet drained, oldest first
    ghost var pending: seq<seq<Byte>>

    ghost predicate Valid()
      reads this, desc, avail, used, bufs, descToBuf
    {
      && bufs.Length == BUF_COUNT
      && StateOk(size, desc[..], avail[..], used[..], descToBuf[..], bufs[..],
         Regs(availIdx, usedIdx, freeHead, lastUsed, deviceIdx, filling),
                 initialized, counts, pending)
    }

    constructor (queueSize: nat)
      requires BUF_COUNT <= queueSize <= VIRTQ_MAX_SIZE && WRAP % queueSize == 0
      ensures Valid() && !initialized && pending == [] && size == queueSize
      ensures fresh(desc) && fresh(avail) && fresh(used) && fresh(bufs) && fresh(descToBuf)
    {
      size := queueSize;
      desc := new Desc[VIRTQ_MAX_SIZE](_ => Desc(0, 0, false));
      avail := new nat[VIRTQ_MAX_SIZE](_ => 0);
      used := new Used[VIRTQ_MAX_SIZE](_ => Used(0, 0));
      descToBuf := new int[VIRTQ_MAX_SIZE](_ => -1);
      bufs := new seq<Byte>[BUF_COUNT](_ => []);
      availIdx, usedIdx, freeHead, lastUsed, deviceIdx := 0, 0, 0, 0, 0;
      initialized, filling, counts, pending := false, [], Counts(0, 0, 0, 0), [];
    }

    /** net_rx_submit_buf over virtqueue_submit. */
    method SubmitBuf(buf: nat)
      requires RingsOk(size, desc[..], avail[..], used[..], descToBuf[..], counts) && WRAP % size == 0
      requires availIdx == counts.posted % WRAP && freeHead == Slot(size, counts.posted)
      requires counts.posted < counts.drained + BUF_COUNT && buf == Buf(counts.posted)
      modifies `availIdx, `freeHead, `counts, desc, avail, descToBuf
      ensures counts == old(counts).(posted := old(counts).posted + 1)
      ensures RingsOk(size, desc[..], avail[..], used[..], descToBuf[..], counts)
      ensures availIdx == counts.posted % WRAP && freeHead == Slot(size, counts.posted)
    {
      PostKeeps(size, desc[..], avail[..], used[..], descToBuf[..], counts);
      NextIndices(size, counts.posted);
      var idx := freeHead;
      freeHead := (idx + 1) % size;
      desc[idx] := Desc(buf, BUF_SIZE, true);
      avail[availIdx % size] := idx;
      availIdx := (availIdx + 1) % WRAP;
      descToBuf[idx] := buf;
      counts := counts.(posted := counts.posted + 1);
      assert desc[..] == old(desc[..])[idx := Desc(buf, BUF_SIZE, true)];
      assert avail[..] == old(avail[..])[idx := idx];
      assert descToBuf[..] == old(descToBuf[..])[idx := buf];
    }

    /** net_rx_init. */
    method Init()
      requires Valid() && !initialized
      modifies this, desc, avail, descToBuf
      ensures Valid() && initialized && pending == old(pending) && counts.drained == 0
    {
      var i := 0;
      while i < BUF_COUNT
        invariant 0 <= i <= BUF_COUNT && counts == Counts(0, 0, 0, i) && pending == [] && filling == []
        invariant RingsOk(size, desc[..], avail[..], used[..], descToBuf[..], counts)
        invariant availIdx == i % WRAP && freeHead == Slot(size, i) && usedIdx == lastUsed == deviceIdx == 0
      {
        SubmitBuf(i);
        i := i + 1;
      }
      initialized := true;
    }

    /** The device picks up the next available buffer. */
    method DeviceFetch() returns (fetched: bool)
      requires Valid()
      modifies `deviceIdx, `filling, `counts
      ensures Valid() && fetched == (old(counts).fetched < old(counts).posted)
      ensures counts == if fetched then old(counts).(fetched := old(counts).fetched + 1) else old(counts)
    {
      FetchStep(size, desc[..], avail[..], used[..], descToBuf[..], bufs[..],
        Regs(availIdx, usedIdx, freeHead, lastUsed, deviceIdx, filling),
                initialized, counts, pending);
      if deviceIdx == availIdx {
        return false;
      }
      filling := filling + [avail[deviceIdx % size]];
      deviceIdx := (deviceIdx + 1) % WRAP;
      counts := counts.(fetched := counts.fetched + 1);
      return true;
    }

    /** The device writes a packet into the oldest buffer it holds and reports it used. */
    method DeviceComplete(packet: seq<Byte>) returns (completed: bool)
      requires Valid() && |packet| <= BUF_SIZE
      modifies `usedIdx, `filling, `counts, `pending, used, bufs
      ensures Valid() && completed == (old(filling) != [])
      ensures pending == if completed then old(pending) + [packet] else old(pending)
    {
      if filling == [] {
        return false;
      }
      CompleteStep(size, desc[..], avail[..], used[..], descToBuf[..], bufs[..],
        Regs(availIdx, usedIdx, freeHead, lastUsed, deviceIdx, filling),
                   initialized, counts, pending, packet);
      var d := filling[0];
      Store(desc[d].buf, packet, usedIdx % size, d);
      usedIdx := (usedIdx + 1) % WRAP;
      filling := filling[1..];
      pending := pending + [packet];
      counts := counts.(completed := counts.completed + 1);
      return true;
    }

    method Store(buf: nat, packet: seq<Byte>, slot: nat, id: nat)
      requires buf < bufs.Length && slot < used.Length
      modifies used, bufs
      ensures bufs[..] == old(bufs[..])[buf := packet] && used[..] == old(used[..])[slot := Used(id, |packet|)]
    {
      bufs[buf] := packet;
      used[slot] := Used(id, |packet|);
    }

    /** net_rx_poll: the oldest packet without its header, cut to the caller's buffer; -1 before
        net_rx_init, 0 when there is none. The device only ever reports descriptors that are
        outstanding, so the check for unmapped ones never fires. */
    method Poll(maxLen: nat) returns (n: int, data: seq<Byte>)
      requires Valid()
      modifies this, desc, avail, descToBuf
      ensures Valid() && initialized == old(initialized)
      ensures !old(initialized) ==> n == -1 && unchanged(this)
      ensures old(initialized) && old(pending) == [] ==> n == 0 && unchanged(this)
      ensures old(initialized) && old(pending) != [] ==>
                pending == old(pending)[1..] && n == |data| && data == Frame(old(pending)[0], maxLen)
    {
      data := [];
      if !initialized {
        return -1, [];
      }
      DrainStep(size, desc[..], avail[..], used[..], descToBuf[..], bufs[..],
        Regs(availIdx, usedIdx, freeHead, lastUsed, deviceIdx, filling), counts, pending);
      if lastUsed == usedIdx {
        return 0, [];
      }
      var buf, len := TakeUsed();
      data := CopyOut(bufs[buf], len, maxLen);
      Rearm(buf, old(desc[..]), old(avail[..]), old(descToBuf[..]), old(counts), old(lastUsed));
      n := |data|;
    }

    /** The used entry at last_used, and the buffer its descriptor stands for. */
    method TakeUsed() returns (buf: nat, len: nat)
      requires Valid() && initialized && pending != []
      modifies `lastUsed, `counts, descToBuf
      ensures buf == Buf(counts.posted) && buf < BUF_COUNT && bufs[buf] == pending[0] && len == |pending[0]|
      ensures counts == old(counts).(drained := old(counts).drained + 1) && lastUsed == counts.drained % WRAP
      ensures RingsOk(size, desc[..], avail[..], used[..], descToBuf[..], counts)
    {
      DrainStep(size, desc[..], avail[..], used[..], descToBuf[..], bufs[..],
        Regs(availIdx, usedIdx, freeHead, lastUsed, deviceIdx, filling), counts, pending);
      var slot := lastUsed % size;
      var id := used[slot].id;
      len := used[slot].len;
      lastUsed := (lastUsed + 1) % WRAP;
      assert id < VIRTQ_MAX_SIZE && descToBuf[id] >= 0;
      buf := Unmap(id);
      counts := counts.(drained := counts.drained + 1);
    }

    /** Post the drained buffer again. */
    method Rearm(buf: nat, ghost desc0: seq<Desc>, ghost avail0: seq<nat>, ghost owner0: seq<int>,
                 ghost counts0: Counts, ghost lastUsed0: nat)
      requires bufs.Length == BUF_COUNT && initialized && pending != [] && buf == Buf(counts.posted)
      requires StateOk(size, desc0, avail0, used[..], owner0, bufs[..],
               Regs(availIdx, usedIdx, freeHead, lastUsed0, deviceIdx, filling), true, counts0, pending)
      requires RingsOk(size, desc[..], avail[..], used[..], descToBuf[..], counts)
      requires counts == counts0.(drained := counts0.drained + 1) && lastUsed == counts.drained % WRAP
      modifies this, desc, avail, descToBuf
      ensures Valid() && initialized && pending == old(pending)[1..]
    {
      SubmitBuf(buf);
      RearmStep(size, desc0, avail0, used[..], owner0, bufs[..],
        Regs(old(availIdx), usedIdx, old(freeHead), lastUsed0, deviceIdx, filling), counts0, pending,
                desc[..], avail[..], descToBuf[..], Regs(availIdx, usedIdx, freeHead, lastUsed, deviceIdx, filling));
      pending := pending[1..];
    }

    method Unmap(id: nat) returns (buf: int)
      requires id < descToBuf.Length
      modifies descToBuf
      ensures buf == old(descToBuf[id]) && descToBuf[..] == old(descToBuf[..])[id := -1]
    {
      buf := descToBuf[id];
      descToBuf[id] := -1;
    }
  }

  method CopyOut(buf: seq<Byte>, len: nat, maxLen: nat) returns (data: seq<Byte>)
    requires len == |buf|
    ensures data == Frame(buf, maxLen)
  {
    data := [];
    if len >= HDR_LEN {
      var toCopy := if len - HDR_LEN < maxLen then len - HDR_LEN else maxLen;
      data := buf[HDR_LEN..HDR_LEN + toCopy];
    }
  }

  /** What the caller of net_rx_poll gets of a packet. */
  function Frame(packet: seq<Byte>, maxLen: nat): seq<Byte> {
    if |packet| < HDR_LEN then [] else if |packet| - HDR_LEN < maxLen then packet[HDR_LEN..]
      else packet[HDR_LEN..HDR_LEN + maxLen]
  }

  /** What is left of a packet behind the 12 bytes of its header, cut to the caller's buffer. */
  lemma FrameIs(packet: seq<Byte>, maxLen: nat, k: nat)
    ensures |packet| <= 12 ==> Frame(packet, maxLen) == []
    ensures |packet| > 12 ==> |Frame(packet, maxLen)| == if |packet| - 12 < maxLen then |packet| - 12 else maxLen
    ensures k < |Frame(packet, maxLen)| ==> 12 + k < |packet| && Frame(packet, maxLen)[k] == packet[12 + k]
  {
  }

  datatype Regs = Regs(availIdx: nat, usedIdx: nat, freeHead: nat, lastUsed: nat, deviceIdx: nat, filling: seq<nat>)

  ghost predicate StateOk(size: nat, desc: seq<Desc>, avail: seq<nat>, used: seq<Used>, owner: seq<int>,
                          bufs: seq<seq<Byte>>, r: Regs,
                          initialized: bool, c: Counts, pending: seq<seq<Byte>>)
    requires |bufs| == BUF_COUNT
  {
    && RingsOk(size, desc, avail, used, owner, c) && WRAP % size == 0
    && IndicesOk(size, r, c) && FillingOk(size, r.filling, c)
    && (initialized ==> c.posted == c.drained + BUF_COUNT)
    && (!initialized ==> c == Counts(0, 0, 0, 0))
    && PendingOk(size, used, bufs, c, pending)
  }

  /** The ring indices are the counts, wrapped. */
  ghost predicate IndicesOk(size: nat, r: Regs, c: Counts)
    requires size > 0
  {
    && r.availIdx == c.posted % WRAP && r.usedIdx == c.completed % WRAP
    && r.freeHead == Slot(size, c.posted) && r.lastUsed == c.drained % WRAP && r.deviceIdx == c.fetched % WRAP
  }

  lemma CompleteStep(size: nat, desc: seq<Desc>, avail: seq<nat>, used: seq<Used>, owner: seq<int>,
                     bufs: seq<seq<Byte>>, r: Regs,
                     initialized: bool, c: Counts, pending: seq<seq<Byte>>, packet: seq<Byte>)
    requires |bufs| == BUF_COUNT && StateOk(size, desc, avail, used, owner, bufs, r, initialized, c, pending)
    requires r.filling != [] && |packet| <= BUF_SIZE
    ensures var d := r.filling[0];
            && d < |desc| && d == r.usedIdx % size && desc[d].buf < BUF_COUNT
            && StateOk(size, desc, avail, used[d := Used(d, |packet|)], owner, bufs[desc[d].buf := packet],
                       r.(usedIdx := (r.usedIdx + 1) % WRAP, filling := r.filling[1..]),
                       initialized, c.(completed := c.completed + 1), pending + [packet])
  {
    NextIndices(size, c.completed);
    CompleteKeeps(size, desc, avail, used, owner, c, |packet|);
    assert DescOk(size, desc, owner, c.completed);
    FillingShrinks(size, r.filling, c);
    PendingGrows(size, used, bufs, c, pending, packet);
  }

  lemma FetchStep(size: nat, desc: seq<Desc>, avail: seq<nat>, used: seq<Used>, owner: seq<int>, bufs: seq<seq<Byte>>,
                  r: Regs,
                  initialized: bool, c: Counts, pending: seq<seq<Byte>>)
    requires |bufs| == BUF_COUNT && StateOk(size, desc, avail, used, owner, bufs, r, initialized, c, pending)
    ensures r.deviceIdx == r.availIdx <==> c.fetched == c.posted
    ensures r.deviceIdx != r.availIdx ==>
              StateOk(size, desc, avail, used, owner, bufs,
                r.(deviceIdx := (r.deviceIdx + 1) % WRAP, filling := r.filling + [avail[r.deviceIdx % size]]),
                      initialized, c.(fetched := c.fetched + 1), pending)
  {
    SameIndex(c.fetched, c.posted);
    NextIndices(size, c.fetched);
    InUseSame(size, owner, c, c.(fetched := c.fetched + 1));
    if c.fetched < c.posted {
      assert avail[Slot(size, c.fetched)] == Slot(size, c.fetched);
      FillingGrows(size, r.filling, c);
    }
  }

  lemma FillingGrows(size: nat, filling: seq<nat>, c: Counts)
    requires size > 0 && Ordered(c) && FillingOk(size, filling, c)
    ensures FillingOk(size, filling + [Slot(size, c.fetched)], c.(fetched := c.fetched + 1))
  {
  }

  /** Taking the oldest used entry: everything but the repost. */
  lemma DrainStep(size: nat, desc: seq<Desc>, avail: seq<nat>, used: seq<Used>, owner: seq<int>, bufs: seq<seq<Byte>>,
                  r: Regs,
                  c: Counts, pending: seq<seq<Byte>>)
    requires |bufs| == BUF_COUNT && StateOk(size, desc, avail, used, owner, bufs, r, true, c, pending)
    ensures r.lastUsed == r.usedIdx <==> pending == []
    ensures r.lastUsed != r.usedIdx ==>
              var s := r.lastUsed % size;
              && s == Slot(size, c.drained) && used[s].id == s && owner[s] == Buf(c.drained) == Buf(c.posted)
              && bufs[Buf(c.drained)] == pending[0] && used[s].len == |pending[0]|
              && RingsOk(size, desc, avail, used, owner[s := -1], c.(drained := c.drained + 1))
              && (r.lastUsed + 1) % WRAP == (c.drained + 1) % WRAP
  {
    SameIndex(c.drained, c.completed);
    if c.drained < c.completed {
      NextIndices(size, c.drained);
      DrainKeeps(size, desc, avail, used, owner, c);
      PendingShrinks(size, used, bufs, c, pending);
      SameBuffer(c.drained);
    }
  }

  /** After the repost. */
  lemma RearmStep(size: nat, desc: seq<Desc>, avail: seq<nat>, used: seq<Used>, owner: seq<int>, bufs: seq<seq<Byte>>,
                  r: Regs,
                  c: Counts, pending: seq<seq<Byte>>, desc': seq<Desc>, avail': seq<nat>, owner': seq<int>, r': Regs)
    requires |bufs| == BUF_COUNT && StateOk(size, desc, avail, used, owner, bufs, r, true, c, pending) && pending != []
    requires var c' := c.(drained := c.drained + 1, posted := c.posted + 1);
             && RingsOk(size, desc', avail', used, owner', c')
             && r' == r.(availIdx := c'.posted % WRAP, freeHead := Slot(size, c'.posted), lastUsed := c'.drained % WRAP)
    ensures StateOk(size, desc', avail', used, owner', bufs, r', true,
            c.(drained := c.drained + 1, posted := c.posted + 1), pending[1..])
  {
    PendingShrinks(size, used, bufs, c, pending);
    FillingSame(size, r.filling, c);
  }

  /** The device is filling the buffers it fetched, oldest first. */
  ghost predicate FillingOk(size: nat, filling: seq<nat>, c: Counts)
    requires size > 0
  {
    |filling| == c.fetched - c.completed && forall k | 0 <= k < |filling| :: filling[k] == Slot(size, c.completed + k)
  }

  /** Every completed packet is still in its buffer, with its length in its used entry. */
  ghost predicate PendingOk(size: nat, used: seq<Used>, bufs: seq<seq<Byte>>, c: Counts, pending: seq<seq<Byte>>)
    requires 0 < size <= |used| && |bufs| == BUF_COUNT
  {
    && |pending| == c.completed - c.drained
    && forall k | 0 <= k < |pending| ::
         bufs[Buf(c.drained + k)] == pending[k] && used[Slot(size, c.drained + k)].len == |pending[k]| <= BUF_SIZE
  }

  /** One more posted: the wrapped indices follow the count. */
  lemma NextIndices(size: nat, n: nat)
    requires BUF_COUNT <= size <= VIRTQ_MAX_SIZE && WRAP % size == 0
    ensures n % WRAP % size == Slot(size, n)
    ensures (Slot(size, n) + 1) % size == Slot(size, n + 1)
    ensures (n % WRAP + 1) % WRAP == (n + 1) % WRAP
  {
    SoundSizes(size);
    WrappedSlot(size, n);
    NextSlot(n);
  }

  lemma NextSlot(n: nat)
    ensures (n % 8 + 1) % 8 == (n + 1) % 8 && (n % 16 + 1) % 16 == (n + 1) % 16
            && (n % WRAP + 1) % WRAP == (n + 1) % WRAP
  {
    Next8(n);
    Next16(n);
    NextWrap(n);
  }

  lemma Next8(n: nat)
    ensures (n % 8 + 1) % 8 == (n + 1) % 8
  {
  }

  lemma Next16(n: nat)
    ensures (n % 16 + 1) % 16 == (n + 1) % 16
  {
  }

  lemma NextWrap(n: nat)
    ensures (n % WRAP + 1) % WRAP == (n + 1) % WRAP
  {
  }

  lemma FillingShrinks(size: nat, filling: seq<nat>, c: Counts)
    requires size > 0 && FillingOk(size, filling, c) && filling != []
    ensures filling[0] == Slot(size, c.completed) && FillingOk(size, filling[1..], c.(completed := c.completed + 1))
  {
    assert c.completed + 0 == c.completed;
    forall k | 0 <= k < |filling[1..]|
      ensures filling[1..][k] == Slot(size, c.completed + 1 + k)
    {
      assert filling[1..][k] == filling[k + 1];
      assert c.completed + (k + 1) == c.completed + 1 + k;
    }
  }

  lemma FillingSame(size: nat, filling: seq<nat>, c: Counts)
    requires size > 0 && FillingOk(size, filling, c)
    ensures forall c': Counts | c'.completed == c.completed && c'.fetched == c.fetched :: FillingOk(size, filling, c')
  {
  }

  /** Two wrapped counts less than a wrap apart are equal only if the counts are. */
  lemma SameIndex(n: nat, m: nat)
    requires n <= m <= n + BUF_COUNT
    ensures n % WRAP == m % WRAP <==> n == m
  {
  }

  /** A drained buffer goes back as the one posted eight later. */
  lemma SameBuffer(n: nat)
    ensures Buf(n + BUF_COUNT) == Buf(n)
  {
  }

  lemma PendingGrows(size: nat, used: seq<Used>, bufs: seq<seq<Byte>>, c: Counts, pending: seq<seq<Byte>>,
                     packet: seq<Byte>)
    requires BUF_COUNT <= size <= |used| && |bufs| == BUF_COUNT && Ordered(c) && c.completed < c.fetched
             && |packet| <= BUF_SIZE
    requires PendingOk(size, used, bufs, c, pending)
    ensures var s := Slot(size, c.completed);
            PendingOk(size, used[s := Used(s, |packet|)], bufs[Buf(c.completed) := packet],
              c.(completed := c.completed + 1), pending + [packet])
  {
    forall k {:trigger pending[k]} | 0 <= k < |pending|
      ensures Slot(size, c.drained + k) != Slot(size, c.completed) && Buf(c.drained + k) != Buf(c.completed)
    {
      SlotsDiffer(size, c.drained + k, c.completed);
      SlotsDiffer(BUF_COUNT, c.drained + k, c.completed);
    }
  }

  lemma PendingShrinks(size: nat, used: seq<Used>, bufs: seq<seq<Byte>>, c: Counts, pending: seq<seq<Byte>>)
    requires 0 < size <= |used| && |bufs| == BUF_COUNT && Ordered(c) && c.drained < c.completed
    requires PendingOk(size, used, bufs, c, pending)
    ensures bufs[Buf(c.drained)] == pending[0] && used[Slot(size, c.drained)].len == |pending[0]|
    ensures forall c': Counts | c'.drained == c.drained + 1
            && c'.completed == c.completed :: PendingOk(size, used, bufs, c', pending[1..])
  {
    assert c.drained + 0 == c.drained;
    forall c': Counts | c'.drained == c.drained + 1 && c'.completed == c.completed
      ensures PendingOk(size, used, bufs, c', pending[1..])
    {
      forall k | 0 <= k < |pending[1..]|
        ensures bufs[Buf(c'.drained + k)] == pending[1..][k]
                && used[Slot(size, c'.drained + k)].len == |pending[1..][k]| <= BUF_SIZE
      {
        assert c'.drained + k == c.drained + (k + 1);
      }
    }
  }
}
