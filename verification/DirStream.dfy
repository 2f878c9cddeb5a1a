/** The resumable directory stream: getdents64 over the slot iterator (src/syscall/syscall.c), and
    readdir() over getdents64 (user/lib/dirent.c). */
module DirStream {
  import opened DirSlots
  import opened DirRecords
  import opened Values

  const BUF_SIZE: nat := 1024

  /** Records getdents64 can express. */
  ghost predicate DirOk(slots: seq<Slot>) {
    |slots| < 0x8000_0000_0000_0000 && forall i | 0 <= i < |slots| :: slots[i].cluster < 0x1_0000_0000
  }

  lemma {:induction false} AllEncodable(slots: seq<Slot>, i: nat)
    requires DirOk(slots)
    ensures forall r | r in LiveFrom(slots, i) :: Encodable(r)
    decreases |slots| - i
  {
    if i < |slots| {
      AllEncodable(slots, i + 1);
    }
  }

  /** How many records, taken greedily, fit in len bytes. */
  function Fit(recs: seq<Rec>, len: nat): (k: nat)
    ensures k <= |recs|
  {
    if recs == [] || RecLen(|recs[0].name|) > len then 0 else 1 + Fit(recs[1..], len - RecLen(|recs[0].name|))
  }

  class Stream {
    // the directory and the kernel's descriptor
    const dir: seq<seq<Sector>>
    var offset: nat
    // the libc's DIR
    const buf: array<Byte>
    var bufLen: nat
    var bufPos: nat
    var eof: bool
    // the records left in the buffer
    ghost var batch: seq<Rec>

    ghost function Slots(): seq<Slot> {
      Flat(dir)
    }

    ghost predicate Valid()
      reads this, buf
    {
      && DirOk(Slots()) && buf.Length == BUF_SIZE && bufPos <= bufLen <= BUF_SIZE
      && Batch(buf[bufPos..bufLen], batch) && (forall r | r in batch :: Encodable(r))
      && (eof ==> batch == [] && LiveFrom(Slots(), offset) == [])
    }

    /** What the stream has yet to deliver. */
    ghost function Rest(): seq<Rec>
      reads this
    {
      batch + LiveFrom(Slots(), offset)
    }

    /** memcpy into the caller's buffer. */
    method Store(out: array<Byte>, at: nat, bytes: seq<Byte>)
      requires at + |bytes| <= out.Length
      modifies out
      ensures out[at..at + |bytes|] == bytes
      ensures forall k | 0 <= k < out.Length && !(at <= k < at + |bytes|) :: out[k] == old(out[k])
    {
      forall k | 0 <= k < |bytes| {
        out[at + k] := bytes[k];
      }
    }

    /** One record: header, name, NUL. */
    method PutRecord(out: array<Byte>, at: nat, r: Rec)
      requires at + RecLen(|r.name|) <= out.Length
      modifies out
      ensures Holds(out[at..at + RecLen(|r.name|)], r) && out[..at] == old(out[..at])
    {
      Store(out, at, Header(r));
      Store(out, at + NAME_OFFSET, r.name);
      out[at + NAME_OFFSET + |r.name|] := 0;
      ghost var n := |r.name|;
      assert out[at..at + NAME_OFFSET] == Header(r);
      assert out[at + NAME_OFFSET..at + NAME_OFFSET + n] == r.name;
      Pieces(out[..], at, RecLen(n), n);
    }

    /** getdents64: the records that fit, in slot order, and the cursor behind them. */
    method GetDents(out: array<Byte>, len: nat) returns (used: nat, ghost recs: seq<Rec>)
      requires DirOk(Slots()) && len <= out.Length
      modifies `offset, out
      ensures used <= len && Batch(out[..used], recs)
      ensures LiveFrom(Slots(), old(offset)) == recs + LiveFrom(Slots(), offset)
      ensures |recs| == Fit(LiveFrom(Slots(), old(offset)), len)
      ensures forall r | r in recs :: Encodable(r)
    {
      used, recs := 0, [];
      ghost var all, left := LiveFrom(Slots(), offset), LiveFrom(Slots(), offset);
      AllEncodable(Slots(), offset);
      var off := offset;
      ghost var acc: seq<Byte> := [];
      while used < len
        invariant Filling(all, recs, left, len, used, acc) && acc == out[..used] && left == LiveFrom(Slots(), off)
        decreases len - used
      {
        var found, r, next := NextRecord(off);
        if !found {
          off := next;
          break;
        }
        if used + RecLen(|r.name|) > len {
          break;
        }
        ghost var rest := left[1..];
        ghost var acc' := AppendRecord(out, used, r, acc, recs);
        Advance(all, recs, left, len, used, acc, r, rest, acc');
        acc, recs, left := acc', recs + [r], rest;
        used, off := used + RecLen(|r.name|), next;
      }
      FillDone(all, recs, left, len, used, acc);
      offset := off;
    }

    /** fat32_readdir for one entry. */
    method NextRecord(off: nat) returns (found: bool, r: Rec, next: nat)
      ensures found ==> LiveFrom(Slots(), off) == [r] + LiveFrom(Slots(), next)
      ensures !found ==> LiveFrom(Slots(), off) == [] && LiveFrom(Slots(), next) == []
    {
      var step := Iterate(dir, off);
      next := step.next;
      found := step.Found?;
      r := if step.Found? then RecOf(step.slot, step.next - 1) else Rec(0, 0, false, []);
    }

    method AppendRecord(out: array<Byte>, used: nat, r: Rec, ghost acc: seq<Byte>, ghost recs: seq<Rec>)
      returns (ghost acc': seq<Byte>)
      requires used + RecLen(|r.name|) <= out.Length && acc == out[..used] && Batch(acc, recs)
      modifies out
      ensures acc' == out[..used + RecLen(|r.name|)] && Batch(acc', recs + [r])
    {
      PutRecord(out, used, r);
      ghost var rec := out[used..used + RecLen(|r.name|)];
      BatchAppend(acc, recs, rec, r);
      acc' := acc + rec;
    }

    /** opendir's first read. */
    constructor (slots: seq<seq<Sector>>)
      requires DirOk(Flat(slots))
      ensures Valid() && fresh(buf) && dir == slots && Rest() == LiveFrom(Flat(slots), 0)
    {
      dir, offset, bufLen, bufPos, eof, batch := slots, 0, 0, 0, false, [];
      buf := new Byte[BUF_SIZE](_ => 0);
      new;
      var got, recs := GetDents(buf, BUF_SIZE);
      bufLen, batch := got, recs;
    }

    /** The next batch; there is one unless the directory is exhausted. */
    method Refill() returns (got: nat)
      requires Valid() && batch == []
      modifies this, buf
      ensures Valid() && Rest() == old(Rest()) && (got == 0 <==> Rest() == []) && (got > 0 ==> batch != [])
              && eof == old(eof)
    {
      ghost var recs;
      got, recs := GetDents(buf, BUF_SIZE);
      SomeFits(LiveFrom(Slots(), old(offset)), Slots(), old(offset));
      bufPos := 0;
      bufLen, batch := got, recs;
      assert buf[0..got] == buf[..got];
    }

    /** readdir: the entries one at a time, then NULL for ever. */
    method Readdir() returns (d: Option<Dirent>)
      requires Valid()
      modifies this, buf
      ensures Valid()
      ensures old(Rest()) == [] ==> d == None && Rest() == [] && eof
      ensures old(Rest()) != [] ==> Rest() == old(Rest())[1..] && d == Some(DirentOf(old(Rest())[0]))
    {
      if eof {
        return None;
      }
      if bufPos == bufLen {
        EmptyBatch(buf[bufPos..bufLen], batch);
        var got := Refill();
        if got == 0 {
          eof := true;
          return None;
        }
      }
      d := Serve();
    }

    /** Take one record off the buffer. */
    method Serve() returns (d: Option<Dirent>)
      requires Valid() && bufPos < bufLen
      modifies `bufPos, `batch
      ensures Valid() && old(Rest()) != [] && Rest() == old(Rest())[1..] && d == Some(DirentOf(old(Rest())[0]))
    {
      var n, cur := Peek();
      d := Some(cur);
      FrontOff(batch, LiveFrom(Slots(), offset));
      bufPos := bufPos + n;
      batch := batch[1..];
    }

    /** Decode the record at the front of the buffer. */
    method Peek() returns (n: nat, d: Dirent)
      requires bufPos < bufLen <= buf.Length && Batch(buf[bufPos..bufLen], batch)
               && forall r | r in batch :: Encodable(r)
      ensures batch != [] && d == DirentOf(batch[0]) && 0 < n && bufPos + n <= bufLen
              && Batch(buf[bufPos + n..bufLen], batch[1..])
    {
      ghost var bytes := buf[..];
      ghost var r := PeekFront(bytes, bufPos, bufLen, batch);
      assert buf[bufPos + 16..bufPos + 18] == bytes[bufPos + 16..bufPos + 18];
      n := UnLe(buf[bufPos + 16..bufPos + 18]);
      assert buf[bufPos..bufPos + n] == bytes[bufPos..bufPos + n]
        && buf[bufPos + n..bufLen] == bytes[bufPos + n..bufLen];
      d := Decode(buf[bufPos..bufPos + n]);
    }

    /** Any sequence of getdents64 calls on one descriptor, with any buffer sizes. Each answers with as
        many of the records still left as fit; one answers with nothing exactly when nothing is left
        or the next record is too long for it. Read back, the answers together are the live entries
        in slot order, each once, up to the new cursor. */
    method ReadBatches(out: array<Byte>, sizes: seq<nat>) returns (batches: seq<seq<Byte>>)
      requires DirOk(Slots()) && forall i | 0 <= i < |sizes| :: sizes[i] <= out.Length
      modifies `offset, out
      ensures Answers(LiveFrom(Slots(), old(offset)), sizes, batches)
      ensures forall i | 0 <= i < |sizes| :: batches[i] == [] <==> Stuck(LiveFrom(Slots(), old(offset)), sizes, i)
      ensures LiveFrom(Slots(), offset) == Left(LiveFrom(Slots(), old(offset)), sizes)
      ensures Dirents(LiveFrom(Slots(), old(offset))) == ReadBack(batches) + Dirents(LiveFrom(Slots(), offset))
    {
      ghost var all := LiveFrom(Slots(), offset);
      AllEncodable(Slots(), offset);
      batches := [];
      var i := 0;
      while i < |sizes|
        invariant 0 <= i <= |sizes| && Answers(all, sizes[..i], batches)
        invariant LiveFrom(Slots(), offset) == Left(all, sizes[..i])
      {
        ghost var recs;
        var used;
        used, recs := GetDents(out, sizes[i]);
        AnswerMore(all, sizes[..i], batches, sizes[i], out[..used], recs, LiveFrom(Slots(), offset));
        assert sizes[..i] + [sizes[i]] == sizes[..i + 1];
        batches := batches + [out[..used]];
        i := i + 1;
      }
      assert sizes[..i] == sizes;
      EmptyExactly(all, sizes, batches);
      AnswersReadBack(all, sizes, batches);
    }

    /** rewinddir. */
    method Rewind()
      requires Valid()
      modifies this
      ensures Valid() && Rest() == LiveFrom(Slots(), 0)
    {
      offset, bufPos, bufLen, eof, batch := 0, 0, 0, false, [];
    }
  }

  /** The buffer holds the records so far, and greedy filling goes on with the rest. */
  ghost predicate Filling(all: seq<Rec>, recs: seq<Rec>, left: seq<Rec>, len: nat, used: nat, acc: seq<Byte>) {
    used <= len && |acc| == used && Batch(acc, recs) && all == recs + left
      && Fit(all, len) == |recs| + Fit(left, len - used)
  }

  lemma Advance(all: seq<Rec>, recs: seq<Rec>, left: seq<Rec>, len: nat, used: nat, acc: seq<Byte>,
                r: Rec, rest: seq<Rec>, acc': seq<Byte>)
    requires Filling(all, recs, left, len, used, acc) && left == [r] + rest && used + RecLen(|r.name|) <= len
    requires |acc'| == used + RecLen(|r.name|) && Batch(acc', recs + [r])
    ensures Filling(all, recs + [r], rest, len, used + RecLen(|r.name|), acc')
  {
    FitOne(left, r, rest, len - used);
    assert recs + left == recs + [r] + rest;
  }

  lemma FitOne(left: seq<Rec>, r: Rec, rest: seq<Rec>, room: nat)
    requires left == [r] + rest && RecLen(|r.name|) <= room
    ensures Fit(left, room) == 1 + Fit(rest, room - RecLen(|r.name|))
  {
    assert left[1..] == rest;
  }

  lemma FillDone(all: seq<Rec>, recs: seq<Rec>, left: seq<Rec>, len: nat, used: nat, acc: seq<Byte>)
    requires Filling(all, recs, left, len, used, acc)
    requires left == [] || used == len || used + RecLen(|left[0].name|) > len
    ensures |recs| == Fit(all, len) && all == recs + left && forall r | r in recs :: r in all
  {
  }

  /** What readdir() fills in for a record. */
  function DirentOf(r: Rec): Dirent {
    Dirent(r.ino, r.cookie, RecLen(|r.name|), if r.isDir then DT_DIR else DT_REG, r.name)
  }

  function Dirents(recs: seq<Rec>): seq<Dirent> {
    if recs == [] then [] else [DirentOf(recs[0])] + Dirents(recs[1..])
  }

  lemma {:induction false} DirentsSplit(recs: seq<Rec>, k: nat)
    requires k <= |recs|
    ensures Dirents(recs) == Dirents(recs[..k]) + Dirents(recs[k..])
  {
    if k > 0 {
      DirentsSplit(recs[1..], k - 1);
      assert recs[..k][1..] == recs[1..][..k - 1] && recs[k..] == recs[1..][k - 1..];
    } else {
      assert recs[..0] == [] && recs[0..] == recs;
    }
  }

  /** Walking an answer by its record lengths, as readdir() does. */
  function DecodeAll(bytes: seq<Byte>): seq<Dirent> {
    if |bytes| < NAME_OFFSET || !(NAME_OFFSET <= UnLe(bytes[16..18]) <= |bytes|) then []
    else [Decode(bytes[..UnLe(bytes[16..18])])] + DecodeAll(bytes[UnLe(bytes[16..18])..])
  }

  lemma {:induction false} DecodeBatch(bytes: seq<Byte>, recs: seq<Rec>)
    requires Batch(bytes, recs) && forall r | r in recs :: Encodable(r)
    ensures DecodeAll(bytes) == Dirents(recs)
  {
    if recs != [] {
      var n := FrontRecord(bytes, recs);
      DecodeBatch(bytes[n..], recs[1..]);
    }
  }

  lemma FrontRecord(bytes: seq<Byte>, recs: seq<Rec>) returns (n: nat)
    requires recs != [] && Batch(bytes, recs) && Encodable(recs[0])
    ensures NAME_OFFSET <= n <= |bytes| && UnLe(bytes[16..18]) == n
    ensures Decode(bytes[..n]) == DirentOf(recs[0]) && Batch(bytes[n..], recs[1..])
  {
    n := RecLen(|recs[0].name|);
    RecLenRead(bytes, recs[0]);
    DecodeEncoded(bytes, recs[0]);
  }

  /** The answers of several calls, read back one after the other. */
  function ReadBack(batches: seq<seq<Byte>>): seq<Dirent> {
    if batches == [] then [] else ReadBack(batches[..|batches| - 1]) + DecodeAll(batches[|batches| - 1])
  }

  /** What is left of the records after calls with these sizes. */
  function Left(all: seq<Rec>, sizes: seq<nat>): (r: seq<Rec>) {
    if sizes == [] then all
    else
      var before := Left(all, sizes[..|sizes| - 1]);
      before[Fit(before, sizes[|sizes| - 1])..]
  }

  /** Call i answers with the records, of those left by the calls before it, that fit. */
  ghost predicate Answer(all: seq<Rec>, sizes: seq<nat>, i: nat, bytes: seq<Byte>)
    requires i < |sizes|
  {
    var before := Left(all, sizes[..i]);
    |bytes| <= sizes[i] && Batch(bytes, before[..Fit(before, sizes[i])])
  }

  ghost predicate Answers(all: seq<Rec>, sizes: seq<nat>, batches: seq<seq<Byte>>) {
    |batches| == |sizes| && forall i | 0 <= i < |sizes| :: Answer(all, sizes, i, batches[i])
  }

  /** At call i nothing is left, or the next record does not fit. */
  predicate Stuck(all: seq<Rec>, sizes: seq<nat>, i: nat)
    requires i < |sizes|
  {
    var before := Left(all, sizes[..i]);
    before == [] || RecLen(|before[0].name|) > sizes[i]
  }

  lemma AnswerMore(all: seq<Rec>, sizes: seq<nat>, batches: seq<seq<Byte>>, size: nat,
                   bytes: seq<Byte>, recs: seq<Rec>, rest: seq<Rec>)
    requires Answers(all, sizes, batches) && |bytes| <= size && Batch(bytes, recs)
    requires Left(all, sizes) == recs + rest && |recs| == Fit(Left(all, sizes), size)
    ensures Answers(all, sizes + [size], batches + [bytes]) && Left(all, sizes + [size]) == rest
  {
    var sizes', batches' := sizes + [size], batches + [bytes];
    AnswerLast(all, sizes, size, bytes, recs, rest);
    forall i | 0 <= i < |sizes'|
      ensures Answer(all, sizes', i, batches'[i])
    {
      if i < |sizes| {
        AnswerKept(all, sizes, size, i, batches[i]);
      }
    }
  }

  lemma AnswerKept(all: seq<Rec>, sizes: seq<nat>, size: nat, i: nat, bytes: seq<Byte>)
    requires i < |sizes|
    ensures Answer(all, sizes + [size], i, bytes) <==> Answer(all, sizes, i, bytes)
  {
    assert (sizes + [size])[..i] == sizes[..i];
  }

  lemma AnswerLast(all: seq<Rec>, sizes: seq<nat>, size: nat, bytes: seq<Byte>, recs: seq<Rec>, rest: seq<Rec>)
    requires |bytes| <= size && Batch(bytes, recs)
    requires Left(all, sizes) == recs + rest && |recs| == Fit(Left(all, sizes), size)
    ensures Answer(all, sizes + [size], |sizes|, bytes) && Left(all, sizes + [size]) == rest
  {
    assert (sizes + [size])[..|sizes|] == sizes;
    assert (recs + rest)[..|recs|] == recs && (recs + rest)[|recs|..] == rest;
  }

  lemma EmptyExactly(all: seq<Rec>, sizes: seq<nat>, batches: seq<seq<Byte>>)
    requires Answers(all, sizes, batches)
    ensures forall i | 0 <= i < |sizes| :: batches[i] == [] <==> Stuck(all, sizes, i)
  {
    forall i | 0 <= i < |sizes|
      ensures batches[i] == [] <==> Stuck(all, sizes, i)
    {
      assert Answer(all, sizes, i, batches[i]);
      var before := Left(all, sizes[..i]);
      if before[..Fit(before, sizes[i])] != [] {
        assert Holds(batches[i], before[0]);
      }
    }
  }

  /** Reading the answers back gives what was there, up to what is left. */
  lemma {:induction false} AnswersReadBack(all: seq<Rec>, sizes: seq<nat>, batches: seq<seq<Byte>>)
    requires Answers(all, sizes, batches) && forall r | r in all :: Encodable(r)
    ensures Dirents(all) == ReadBack(batches) + Dirents(Left(all, sizes))
    ensures forall r | r in Left(all, sizes) :: Encodable(r)
  {
    if sizes != [] {
      var n := |sizes| - 1;
      var before := Left(all, sizes[..n]);
      var k := Fit(before, sizes[n]);
      AnswersShorter(all, sizes, batches);
      AnswersReadBack(all, sizes[..n], batches[..n]);
      assert Answer(all, sizes, n, batches[n]);
      DecodeBatch(batches[n], before[..k]);
      DirentsSplit(before, k);
    }
  }

  lemma AnswersShorter(all: seq<Rec>, sizes: seq<nat>, batches: seq<seq<Byte>>)
    requires Answers(all, sizes, batches) && sizes != []
    ensures Answers(all, sizes[..|sizes| - 1], batches[..|sizes| - 1])
  {
    var n := |sizes| - 1;
    forall i | 0 <= i < n
      ensures Answer(all, sizes[..n], i, batches[..n][i])
    {
      assert Answer(all, sizes, i, batches[i]) && sizes[..n][..i] == sizes[..i];
    }
  }

  /** With room for the longest record in every buffer, as many calls as there are entries empty the
      directory. */
  lemma {:induction false} EnoughCalls(all: seq<Rec>, sizes: seq<nat>)
    requires (forall r | r in all :: Encodable(r)) && forall i | 0 <= i < |sizes| :: sizes[i] >= RecLen(12)
    ensures |Left(all, sizes)| <= if |all| > |sizes| then |all| - |sizes| else 0
    ensures forall r | r in Left(all, sizes) :: r in all
  {
    if sizes != [] {
      var n := |sizes| - 1;
      EnoughCalls(all, sizes[..n]);
      var before := Left(all, sizes[..n]);
      if before != [] {
        assert before[0] in before && before[0] in all && Encodable(before[0]);
        assert sizes[n] >= RecLen(12);
      }
    }
  }

  lemma EmptyBatch(bytes: seq<Byte>, recs: seq<Rec>)
    requires Batch(bytes, recs) && bytes == []
    ensures recs == []
  {
  }

  lemma NonEmptyBatch(bytes: seq<Byte>, recs: seq<Rec>)
    requires Batch(bytes, recs) && bytes != []
    ensures recs != [] && Holds(bytes, recs[0]) && Batch(bytes[RecLen(|recs[0].name|)..], recs[1..])
  {
  }

  lemma PeekLen(buf: seq<Byte>, from: nat, to: nat, r: Rec)
    requires from < to <= |buf| && Holds(buf[from..to], r) && Encodable(r)
    ensures from + RecLen(|r.name|) <= to && UnLe(buf[from + 16..from + 18]) == RecLen(|r.name|)
  {
    RecLenRead(buf[from..to], r);
    Header16(buf, from, to);
  }

  lemma PeekRecord(buf: seq<Byte>, from: nat, to: nat, r: Rec)
    requires from < to <= |buf| && Holds(buf[from..to], r) && Encodable(r)
    ensures from + RecLen(|r.name|) <= to && Decode(buf[from..from + RecLen(|r.name|)]) == DirentOf(r)
  {
    DecodeEncoded(buf[from..to], r);
    Dropped(buf, from, to, RecLen(|r.name|));
  }

  /** The record at the front: its length, what it decodes to, and the batch behind it. */
  lemma PeekFront(buf: seq<Byte>, from: nat, to: nat, recs: seq<Rec>) returns (len: nat)
    requires from < to <= |buf| && Batch(buf[from..to], recs) && forall r | r in recs :: Encodable(r)
    ensures recs != [] && NAME_OFFSET <= len && from + len <= to && UnLe(buf[from + 16..from + 18]) == len
    ensures Decode(buf[from..from + len]) == DirentOf(recs[0]) && Batch(buf[from + len..to], recs[1..])
  {
    PeekRest(buf, from, to, recs);
    PeekLen(buf, from, to, recs[0]);
    PeekRecord(buf, from, to, recs[0]);
    len := RecLen(|recs[0].name|);
  }

  lemma PeekRest(buf: seq<Byte>, from: nat, to: nat, recs: seq<Rec>)
    requires from < to <= |buf| && Batch(buf[from..to], recs)
    ensures recs != [] && Holds(buf[from..to], recs[0]) && from + RecLen(|recs[0].name|) <= to
    ensures Batch(buf[from + RecLen(|recs[0].name|)..to], recs[1..])
  {
    NonEmptyBatch(buf[from..to], recs);
    Dropped(buf, from, to, RecLen(|recs[0].name|));
  }

  lemma FrontOff(batch: seq<Rec>, more: seq<Rec>)
    requires batch != []
    ensures (batch + more)[0] == batch[0] && (batch + more)[1..] == batch[1..] + more
  {
  }

  lemma Dropped(buf: seq<Byte>, from: nat, to: nat, n: nat)
    requires from + n <= to <= |buf|
    ensures buf[from..to][n..] == buf[from + n..to] && buf[from..to][..n] == buf[from..from + n]
  {
  }

  /** A record's pieces in the buffer. */
  lemma Pieces(buf: seq<Byte>, at: nat, len: nat, n: nat)
    requires at + len <= |buf| && NAME_OFFSET + n < len
    ensures buf[at..at + len][..NAME_OFFSET] == buf[at..at + NAME_OFFSET]
    ensures buf[at..at + len][NAME_OFFSET..NAME_OFFSET + n] == buf[at + NAME_OFFSET..at + NAME_OFFSET + n]
    ensures buf[at..at + len][NAME_OFFSET + n] == buf[at + NAME_OFFSET + n]
  {
  }

  lemma Header16(buf: seq<Byte>, from: nat, to: nat)
    requires from + 18 <= to <= |buf|
    ensures buf[from + 16..from + 18] == buf[from..to][16..18]
  {
    assert buf[from..to][16..18] == [buf[from + 16], buf[from + 17]];
    assert buf[from + 16..from + 18] == [buf[from + 16], buf[from + 17]];
  }

  lemma RecLenRead(bytes: seq<Byte>, r: Rec)
    requires Encodable(r) && Holds(bytes, r)
    ensures UnLe(bytes[16..18]) == RecLen(|r.name|)
  {
    assert bytes[16..18] == bytes[..NAME_OFFSET][16..18] == Le(RecLen(|r.name|), 2);
    Pows();
    LeRoundTrip(RecLen(|r.name|), 2);
  }

  /** A full-sized buffer always takes at least one record. */
  lemma SomeFits(recs: seq<Rec>, slots: seq<Slot>, i: nat)
    requires DirOk(slots) && recs == LiveFrom(slots, i)
    ensures Fit(recs, BUF_SIZE) == 0 <==> recs == []
  {
    AllEncodable(slots, i);
    if recs != [] {
      assert Encodable(recs[0]);
    }
  }
}
