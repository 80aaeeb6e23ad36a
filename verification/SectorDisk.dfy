/** The disk behind ahci_read_sectors and ahci_write_sectors: an array of
    512-byte sectors and transfers that may fail. */
module SectorDisk {
  import opened Basics

  const SECTOR: nat := 512

  type Sector = s: seq<byte> | |s| == SECTOR witness ZeroBytes(SECTOR)

  /** The bytes of consecutive sectors. */
  function Flatten(ss: seq<Sector>): (b: seq<byte>)
    ensures |b| == SECTOR * |ss|
  {
    if ss == [] then [] else ss[0] + Flatten(ss[1..])
  }

  /** Byte `i` of consecutive sectors is byte i mod 512 of sector i / 512. */
  lemma {:induction false} FlattenAt(ss: seq<Sector>, i: nat)
    requires i < SECTOR * |ss|
    ensures Flatten(ss)[i] == ss[i / SECTOR][i % SECTOR]
  {
    if i >= SECTOR {
      FlattenAt(ss[1..], i - SECTOR);
    }
  }

  /** A buffer cut into sectors. */
  function Chop(buf: seq<byte>): (ss: seq<Sector>)
    requires |buf| % SECTOR == 0
    ensures SECTOR * |ss| == |buf|
  {
    if buf == [] then [] else [buf[..SECTOR]] + Chop(buf[SECTOR..])
  }

  lemma {:induction false} FlattenChop(buf: seq<byte>)
    requires |buf| % SECTOR == 0
    ensures Flatten(Chop(buf)) == buf
  {
    if buf != [] {
      FlattenChop(buf[SECTOR..]);
      assert Chop(buf)[1..] == Chop(buf[SECTOR..]);
      assert buf == buf[..SECTOR] + buf[SECTOR..];
    }
  }

  function Overwrite(ss: seq<Sector>, start: nat, buf: seq<byte>): (ss': seq<Sector>)
    requires |buf| % SECTOR == 0 && start + |buf| / SECTOR <= |ss|
    ensures |ss'| == |ss|
  {
    var written := Chop(buf);
    ss[..start] + written + ss[start + |written|..]
  }

  /** A write is read back, and nothing outside its range changes. */
  lemma OverwriteMeaning(ss: seq<Sector>, start: nat, buf: seq<byte>)
    requires |buf| % SECTOR == 0 && start + |buf| / SECTOR <= |ss|
    ensures Flatten(Overwrite(ss, start, buf)[start..start + |buf| / SECTOR]) == buf
    ensures SameOutside(ss, Overwrite(ss, start, buf), start, |buf| / SECTOR)
  {
    FlattenChop(buf);
    assert Overwrite(ss, start, buf)[start..start + |buf| / SECTOR] == Chop(buf);
  }

  ghost predicate SameOutside(ss: seq<Sector>, ss': seq<Sector>, start: nat, n: nat) {
    |ss'| == |ss| && forall i | 0 <= i < |ss| && !(start <= i < start + n) :: ss'[i] == ss[i]
  }

  /** Ranges that do not meet the written one read the same. */
  lemma RangeUntouched(ss: seq<Sector>, ss': seq<Sector>, start: nat, n: nat, a: nat, k: nat)
    requires SameOutside(ss, ss', start, n) && a + k <= |ss|
    requires a + k <= start || start + n <= a
    ensures ss'[a..a + k] == ss[a..a + k]
  {
  }

  /** How many transfers have failed so far. */
  class TransferLog {
    ghost var failures: nat

    constructor ()
      ensures failures == 0
    {
      failures := 0;
    }
  }

  class Disk {
    var sectors: seq<Sector>
    const log: TransferLog

    constructor (sectors: seq<Sector>)
      ensures this.sectors == sectors && fresh(log) && log.failures == 0
    {
      this.sectors := sectors;
      log := new TransferLog();
    }

    /** Succeeds or fails as the hardware pleases; what a failed read leaves in
        the buffer is unknown. */
    method Read(start: nat, n: nat) returns (ok: bool, buf: seq<byte>)
      modifies log
      ensures |buf| == SECTOR * n
      ensures log.failures == old(log.failures) + (if ok then 0 else 1)
      ensures ok ==> start + n <= |sectors| && buf == Flatten(sectors[start..start + n])
    {
      ok := *;
      if ok && start + n <= |sectors| {
        buf := Flatten(sectors[start..start + n]);
      } else {
        assert |ZeroBytes(SECTOR * n)| == SECTOR * n;
        ok := false;
        buf :| |buf| == SECTOR * n;
        log.failures := log.failures + 1;
      }
    }

    /** A failed write may have reached any of its sectors. */
    method Write(start: nat, buf: seq<byte>) returns (ok: bool)
      requires |buf| % SECTOR == 0
      modifies this, log
      ensures log.failures == old(log.failures) + (if ok then 0 else 1)
      ensures SameOutside(old(sectors), sectors, start, |buf| / SECTOR)
      ensures ok ==> start + |buf| / SECTOR <= |sectors|
                     && Flatten(sectors[start..start + |buf| / SECTOR]) == buf
    {
      ok := *;
      if start + |buf| / SECTOR > |sectors| {
        log.failures := log.failures + 1;
        return false;
      }
      OverwriteMeaning(sectors, start, buf);
      if ok {
        sectors := Overwrite(sectors, start, buf);
      } else {
        log.failures := log.failures + 1;
        var written := Overwrite(sectors, start, buf);
        for i := 0 to |buf| / SECTOR
          invariant SameOutside(old(sectors), sectors, start, |buf| / SECTOR)
          invariant log.failures == old(log.failures) + 1
        {
          var reached := *;
          if reached {
            sectors := sectors[start + i := written[start + i]];
          }
        }
      }
    }
  }
}
