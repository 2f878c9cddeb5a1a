/** linux_dirent64 records: how getdents64 lays them out (src/syscall/syscall.c) and how the libc
    takes them apart again (user/lib/dirent.c). */
module DirRecords {
  import opened DirSlots
  import opened Values

  const NAME_OFFSET: nat := 19
  const NAME_MAX: nat := 255
  const DT_DIR: nat := 4
  const DT_REG: nat := 8

  // ---- little-endian numbers ----

  function Pow(n: nat): (p: nat)
    ensures p > 0
  {
    if n == 0 then 1 else 256 * Pow(n - 1)
  }

  function Le(x: nat, n: nat): (r: seq<Byte>)
    ensures |r| == n
  {
    if n == 0 then [] else [x % 256] + Le(x / 256, n - 1)
  }

  function UnLe(bs: seq<Byte>): nat {
    if bs == [] then 0 else (bs[0] as nat) + 256 * UnLe(bs[1..])
  }

  lemma {:induction false} LeRoundTrip(x: nat, n: nat)
    requires x < Pow(n)
    ensures UnLe(Le(x, n)) == x
  {
    if n > 0 {
      LeRoundTrip(x / 256, n - 1);
      assert Le(x, n)[1..] == Le(x / 256, n - 1);
    }
  }

  lemma Pows()
    ensures Pow(2) == 0x1_0000 && Pow(8) == 0x1_0000_0000_0000_0000
  {
    assert Pow(4) == 0x1_0000_0000;
    assert Pow(6) == 0x1_0000_0000_0000;
  }

  // ---- records ----

  /** Header, name and NUL, rounded up to 8. */
  function RecLen(nameLen: nat): (r: nat)
    ensures r % 8 == 0 && NAME_OFFSET + nameLen + 1 <= r < NAME_OFFSET + nameLen + 9
  {
    (NAME_OFFSET + nameLen + 1 + 7) / 8 * 8
  }

  /** The fields a record must be able to hold. */
  predicate Encodable(r: Rec) {
    r.ino < 0x1_0000_0000_0000_0000 && r.cookie < 0x8000_0000_0000_0000 && |r.name| <= 12 && 0 !in r.name
  }

  function Header(r: Rec): (h: seq<Byte>)
    ensures |h| == NAME_OFFSET
  {
    Le(r.ino, 8) + Le(r.cookie, 8) + Le(RecLen(|r.name|), 2) + [if r.isDir then 4 else 8]
  }

  /** The bytes hold r at their start; what follows the NUL up to the record's length is whatever
      the buffer held before. */
  ghost predicate Holds(bytes: seq<Byte>, r: Rec) {
    && RecLen(|r.name|) <= |bytes|
    && bytes[..NAME_OFFSET] == Header(r)
    && bytes[NAME_OFFSET..NAME_OFFSET + |r.name|] == r.name
    && bytes[NAME_OFFSET + |r.name|] == 0
  }

  /** The bytes are exactly these records, end to end. */
  ghost predicate Batch(bytes: seq<Byte>, recs: seq<Rec>) {
    if recs == [] then bytes == []
    else Holds(bytes, recs[0]) && Batch(bytes[RecLen(|recs[0].name|)..], recs[1..])
  }

  lemma {:induction false} BatchAppend(bytes: seq<Byte>, recs: seq<Rec>, more: seq<Byte>, r: Rec)
    requires Batch(bytes, recs) && Holds(more, r) && |more| == RecLen(|r.name|)
    ensures Batch(bytes + more, recs + [r])
  {
    if recs == [] {
      assert bytes + more == more && recs + [r] == [r];
    } else {
      var n := RecLen(|recs[0].name|);
      BatchAppend(bytes[n..], recs[1..], more, r);
      assert (bytes + more)[n..] == bytes[n..] + more;
      assert (recs + [r])[1..] == recs[1..] + [r];
      HoldsLonger(bytes, more, recs[0]);
    }
  }

  lemma HoldsLonger(bytes: seq<Byte>, more: seq<Byte>, r: Rec)
    requires Holds(bytes, r)
    ensures Holds(bytes + more, r)
  {
    assert (bytes + more)[..NAME_OFFSET] == bytes[..NAME_OFFSET];
    assert (bytes + more)[NAME_OFFSET..NAME_OFFSET + |r.name|] == bytes[NAME_OFFSET..NAME_OFFSET + |r.name|];
  }

  // ---- readdir's side ----

  datatype Dirent = Dirent(ino: nat, off: nat, recLen: nat, dtype: nat, name: seq<Byte>)

  /** The name as the copy loop reads it. */
  function NameIn(bytes: seq<Byte>, limit: nat): (r: seq<Byte>)
    ensures |r| <= limit
  {
    if bytes == [] || bytes[0] == 0 || limit == 0 then [] else [bytes[0]] + NameIn(bytes[1..], limit - 1)
  }

  function Decode(bytes: seq<Byte>): Dirent
    requires |bytes| >= NAME_OFFSET
  {
    Dirent(UnLe(bytes[..8]), UnLe(bytes[8..16]), UnLe(bytes[16..18]), bytes[18], NameIn(bytes[NAME_OFFSET..], NAME_MAX))
  }

  lemma {:induction false} NameIsIn(bytes: seq<Byte>, name: seq<Byte>, limit: nat)
    requires |name| < |bytes| && |name| <= limit && bytes[..|name|] == name && bytes[|name|] == 0 && 0 !in name
    ensures NameIn(bytes, limit) == name
  {
    if name != [] {
      assert bytes[0] == name[0] && name[0] in name;
      NameIsIn(bytes[1..], name[1..], limit - 1);
    }
  }

  /** Decoding a record gives back exactly the inode, cookie, type and name it was made from. */
  lemma DecodeEncoded(bytes: seq<Byte>, r: Rec)
    requires Encodable(r) && Holds(bytes, r)
    ensures Decode(bytes[..RecLen(|r.name|)]) == Dirent(r.ino, r.cookie, RecLen(|r.name|),
            if r.isDir then DT_DIR else DT_REG, r.name)
  {
    var n := RecLen(|r.name|);
    var rec, h := bytes[..n], Header(r);
    Pows();
    assert rec[..NAME_OFFSET] == h;
    assert rec[..8] == h[..8] == Le(r.ino, 8);
    assert rec[8..16] == h[8..16] == Le(r.cookie, 8);
    assert rec[16..18] == h[16..18] == Le(n, 2);
    assert rec[18] == h[18];
    LeRoundTrip(r.ino, 8);
    LeRoundTrip(r.cookie, 8);
    LeRoundTrip(n, 2);
    assert rec[NAME_OFFSET..][..|r.name|] == r.name;
    NameIsIn(rec[NAME_OFFSET..], r.name, NAME_MAX);
  }
}
