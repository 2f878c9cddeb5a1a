/** The virtio-net receive queue (src/pci/virtio/virtqueue.c, src/pci/virtio/net/net.c): a split
    virtqueue (section 2.6 of VirtIO 1.1) shared by the driver and a device that uses buffers in
    order. Driver and device move in any interleaving, one step at a time. */
module RxRing {
  const VIRTQ_MAX_SIZE: nat := 16
  const BUF_COUNT: nat := 8
  const BUF_SIZE: nat := 1600
  const HDR_LEN: nat := 12
  const WRAP: nat := 0x1_0000

  datatype Desc = Desc(buf: nat, len: nat, write: bool)

  datatype Used = Used(id: nat, len: nat)

  /** How many buffers have ever been drained by the driver, completed and fetched by the device,
      and posted by the driver. The 16-bit ring indices are these counts modulo 65536. */
  datatype Counts = Counts(drained: nat, completed: nat, fetched: nat, posted: nat)

  ghost predicate Ordered(c: Counts) {
    c.drained <= c.completed <= c.fetched <= c.posted <= c.drained + BUF_COUNT
  }

  function Slot(size: nat, n: nat): nat
    requires size > 0
  {
    n % size
  }

  function Buf(n: nat): nat {
    n % BUF_COUNT
  }

  // ---- index arithmetic ----

  /** The queue sizes the negotiation can produce under which the index arithmetic is sound. */
  lemma SoundSizes(size: nat)
    requires 0 < size <= VIRTQ_MAX_SIZE
    ensures size >= BUF_COUNT && WRAP % size == 0 <==> size == 8 || size == 16
  {
  }

  /** Taking a slot from the wrapped index agrees with taking it from the count, at every count, if
      and only if the size divides 65536. */
  lemma WrapHarmless(size: nat)
    requires 0 < size <= VIRTQ_MAX_SIZE
    ensures (forall n: nat {:trigger Slot(size, n)} :: n % WRAP % size == Slot(size, n)) <==> WRAP % size == 0
  {
    if WRAP % size == 0 {
      forall n: nat {:trigger Slot(size, n)}
        ensures n % WRAP % size == Slot(size, n)
      {
        WrappedSlot(size, n);
      }
    } else {
      assert WRAP % WRAP % size != Slot(size, WRAP);
    }
  }

  lemma WrappedSlot(size: nat, n: nat)
    requires 0 < size <= VIRTQ_MAX_SIZE && WRAP % size == 0
    ensures n % WRAP % size == n % size
  {
    PowersOfTwo(size);
    EverySize(n);
  }

  lemma EverySize(n: nat)
    ensures n % WRAP % 1 == n % 1 && n % WRAP % 2 == n % 2 && n % WRAP % 4 == n % 4
    ensures n % WRAP % 8 == n % 8 && n % WRAP % 16 == n % 16
  {
    Sixteen(n);
    Halves(n);
    Halves(n % WRAP);
  }

  lemma Sixteen(n: nat)
    ensures n % WRAP % 16 == n % 16
  {
  }

  lemma Halves(n: nat)
    ensures n % 8 == n % 16 % 8 && n % 4 == n % 16 % 4 && n % 2 == n % 16 % 2
  {
    Eighth(n);
    Fourth(n);
    Half(n);
  }

  lemma Eighth(n: nat)
    ensures n % 8 == n % 16 % 8
  {
  }

  lemma Fourth(n: nat)
    ensures n % 4 == n % 16 % 4
  {
  }

  lemma Half(n: nat)
    ensures n % 2 == n % 16 % 2
  {
  }

  lemma PowersOfTwo(size: nat)
    requires 0 < size <= VIRTQ_MAX_SIZE && WRAP % size == 0
    ensures size == 1 || size == 2 || size == 4 || size == 8 || size == 16
  {
  }

  /** Eight buffers outstanding at once never share a slot, if and only if there are eight slots. */
  lemma EnoughSlots(size: nat)
    requires 0 < size <= VIRTQ_MAX_SIZE
    ensures (forall n: nat, m: nat {:trigger Slot(size, n), Slot(size, m)} | n < m < n + BUF_COUNT ::
            Slot(size, n) != Slot(size, m)) <==> size >= BUF_COUNT
  {
    if size >= BUF_COUNT {
      forall n: nat, m: nat {:trigger Slot(size, n), Slot(size, m)} | n < m < n + BUF_COUNT
        ensures Slot(size, n) != Slot(size, m)
      {
        SlotsDiffer(size, n, m);
      }
    } else {
      assert Slot(size, 0) == Slot(size, size);
    }
  }

  lemma SlotsDiffer(size: nat, n: nat, m: nat)
    requires size > 0 && n < m < n + size
    ensures n % size != m % size
  {
    var q, p, r := n / size, m / size, n % size;
    assert n == q * size + r;
    if n % size == m % size {
      assert m == p * size + r;
      QuotientStep(q, p, size);
    }
  }

  lemma QuotientStep(q: nat, p: nat, size: nat)
    requires q * size < p * size
    ensures q * size + size <= p * size
  {
    if p <= q {
      Scale(p, q, size);
    } else {
      Scale(q + 1, p, size);
      assert (q + 1) * size == q * size + size;
    }
  }

  lemma Scale(a: nat, b: nat, m: nat)
    requires a <= b
    ensures a * m <= b * m
  {
  }

  // ---- the rings ----

  /** The n-th posted buffer's descriptor and its entry in rx_desc_to_buf. */
  ghost predicate DescOk(size: nat, desc: seq<Desc>, owner: seq<int>, n: nat)
    requires 0 < size <= |desc| == |owner|
  {
    desc[Slot(size, n)] == Desc(Buf(n), BUF_SIZE, true) && owner[Slot(size, n)] == Buf(n)
  }

  /** Every outstanding descriptor still names its buffer, rx_desc_to_buf maps the outstanding
      descriptors one to one onto their buffers and nothing else, and no ring entry that the other
      side has yet to read has been overwritten. */
  ghost predicate RingsOk(size: nat, desc: seq<Desc>, avail: seq<nat>, used: seq<Used>, owner: seq<int>, c: Counts) {
    && BUF_COUNT <= size <= VIRTQ_MAX_SIZE == |desc| == |avail| == |used| == |owner|
    && Ordered(c)
    && (forall n {:trigger DescOk(size, desc, owner, n)} | c.drained <= n < c.posted :: DescOk(size, desc, owner, n))
    && (forall n {:trigger avail[Slot(size, n)]} | c.fetched <= n < c.posted :: avail[Slot(size, n)] == Slot(size, n))
    && (forall n {:trigger used[Slot(size, n)]} | c.drained <= n < c.completed ::
       used[Slot(size, n)].id == Slot(size, n))
    && (forall d {:trigger owner[d]} | 0 <= d < |owner| && owner[d] >= 0 :: InUse(size, c, d))
  }

  ghost predicate InUse(size: nat, c: Counts, d: nat)
    requires size > 0
  {
    exists n :: c.drained <= n < c.posted && Slot(size, n) == d
  }

  /** Posting the next buffer into the next slot: nothing outstanding is touched. */
  lemma PostKeeps(size: nat, desc: seq<Desc>, avail: seq<nat>, used: seq<Used>, owner: seq<int>, c: Counts)
    requires RingsOk(size, desc, avail, used, owner, c) && c.posted < c.drained + BUF_COUNT
    ensures var s := Slot(size, c.posted);
            RingsOk(size, desc[s := Desc(Buf(c.posted), BUF_SIZE, true)], avail[s := s], used,
              owner[s := Buf(c.posted)], c.(posted := c.posted + 1))
  {
    var s, c' := Slot(size, c.posted), c.(posted := c.posted + 1);
    var desc', avail', owner' := desc[s := Desc(Buf(c.posted), BUF_SIZE, true)], avail[s := s],
      owner[s := Buf(c.posted)];
    forall n {:trigger DescOk(size, desc', owner', n)} | c.drained <= n < c'.posted
      ensures DescOk(size, desc', owner', n)
    {
      if n < c.posted {
        assert DescOk(size, desc, owner, n);
        SlotsDiffer(size, n, c.posted);
      }
    }
    forall n {:trigger avail'[Slot(size, n)]} | c.fetched <= n < c'.posted
      ensures avail'[Slot(size, n)] == Slot(size, n)
    {
      if n < c.posted {
        SlotsDiffer(size, n, c.posted);
      }
    }
    forall d {:trigger owner'[d]} | 0 <= d < |owner'| && owner'[d] >= 0
      ensures InUse(size, c', d)
    {
      if d == s {
        assert Slot(size, c.posted) == d;
      } else {
        assert owner[d] >= 0;
        var n :| c.drained <= n < c.posted && Slot(size, n) == d;
      }
    }
  }

  /** Completing the oldest fetched buffer. */
  lemma CompleteKeeps(size: nat, desc: seq<Desc>, avail: seq<nat>, used: seq<Used>, owner: seq<int>, c: Counts,
                      len: nat)
    requires RingsOk(size, desc, avail, used, owner, c) && c.completed < c.fetched
    ensures var s := Slot(size, c.completed);
            RingsOk(size, desc, avail, used[s := Used(s, len)], owner, c.(completed := c.completed + 1))
  {
    var s := Slot(size, c.completed);
    var used' := used[s := Used(s, len)];
    forall n {:trigger used'[Slot(size, n)]} | c.drained <= n < c.completed + 1
      ensures used'[Slot(size, n)].id == Slot(size, n)
    {
      if n < c.completed {
        SlotsDiffer(size, n, c.completed);
        assert used[Slot(size, n)].id == Slot(size, n);
      }
    }
    InUseSame(size, owner, c, c.(completed := c.completed + 1));
  }

  lemma InUseSame(size: nat, owner: seq<int>, c: Counts, c': Counts)
    requires size > 0 && c.drained == c'.drained && c.posted == c'.posted
    requires forall d {:trigger owner[d]} | 0 <= d < |owner| && owner[d] >= 0 :: InUse(size, c, d)
    ensures forall d {:trigger owner[d]} | 0 <= d < |owner| && owner[d] >= 0 :: InUse(size, c', d)
  {
    forall d {:trigger owner[d]} | 0 <= d < |owner| && owner[d] >= 0
      ensures InUse(size, c', d)
    {
      var n :| c.drained <= n < c.posted && Slot(size, n) == d;
    }
  }

  /** Draining the oldest completed buffer. */
  lemma DrainKeeps(size: nat, desc: seq<Desc>, avail: seq<nat>, used: seq<Used>, owner: seq<int>, c: Counts)
    requires RingsOk(size, desc, avail, used, owner, c) && c.drained < c.completed
    ensures var s := Slot(size, c.drained);
            && used[s].id == s && owner[s] == Buf(c.drained)
            && RingsOk(size, desc, avail, used, owner[s := -1], c.(drained := c.drained + 1))
  {
    var s, c' := Slot(size, c.drained), c.(drained := c.drained + 1);
    var owner' := owner[s := -1];
    assert DescOk(size, desc, owner, c.drained);
    forall n {:trigger DescOk(size, desc, owner', n)} | c'.drained <= n < c.posted
      ensures DescOk(size, desc, owner', n)
    {
      assert DescOk(size, desc, owner, n);
      SlotsDiffer(size, c.drained, n);
    }
    forall d {:trigger owner'[d]} | 0 <= d < |owner'| && owner'[d] >= 0
      ensures InUse(size, c', d)
    {
      assert d != s && owner[d] >= 0;
      var n :| c.drained <= n < c.posted && Slot(size, n) == d;
    }
  }

  /** The outstanding descriptors map one to one onto buffers. */
  lemma OneToOne(size: nat, desc: seq<Desc>, avail: seq<nat>, used: seq<Used>, owner: seq<int>, c: Counts, n: nat,
                 m: nat)
    requires RingsOk(size, desc, avail, used, owner, c) && c.drained <= n < m < c.posted
    ensures Slot(size, n) != Slot(size, m) && owner[Slot(size, n)] != owner[Slot(size, m)]
    ensures 0 <= owner[Slot(size, n)] < BUF_COUNT
  {
    assert DescOk(size, desc, owner, n) && DescOk(size, desc, owner, m);
    SlotsDiffer(size, n, m);
    SlotsDiffer(BUF_COUNT, n, m);
  }
}
