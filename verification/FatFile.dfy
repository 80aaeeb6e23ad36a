/** Reading and writing FAT32 files (fat32_vfs.c): clusters on the disk, cluster
    allocation through the FAT cache, and the byte sequence a chain stands for. */
module FatFile {
  import opened Basics
  import opened SectorDisk
  import opened FatTable

  const FAT_ENTRIES: nat := 1024

  // ---------------------------------------------------------------------------
  // Products and quotients by the cluster size, named so that proofs can hide them
  // ---------------------------------------------------------------------------

  function Times(a: nat, p: nat): nat { assert a * p >= 0; a * p }
  function Quot(i: nat, p: nat): nat requires p > 0 { i / p }
  function Rem(i: nat, p: nat): (r: nat) requires p > 0 ensures r < p { i % p }

  lemma TimesNext(a: nat, p: nat)
    ensures Times(a + 1, p) == Times(a, p) + p && Times(0, p) == 0
  {
  }

  lemma TimesMono(a: nat, b: nat, p: nat)
    requires a <= b
    ensures Times(a, p) <= Times(b, p)
  {
    assert b * p == a * p + (b - a) * p;
    assert (b - a) * p >= 0;
  }

  lemma Split(i: nat, p: nat)
    requires p > 0
    ensures i == Times(Quot(i, p), p) + Rem(i, p)
  {
  }

  lemma SplitUnique(i: nat, j: nat, o: nat, p: nat)
    requires o < p && i == Times(j, p) + o
    ensures Quot(i, p) == j && Rem(i, p) == o
  {
    Split(i, p);
    var q := Quot(i, p);
    if q < j {
      TimesMono(q + 1, j, p);
      TimesNext(q, p);
    } else if j < q {
      TimesMono(j + 1, q, p);
      TimesNext(j, p);
    }
  }

  lemma QuotBelow(i: nat, n: nat, p: nat)
    requires p > 0 && i < Times(n, p)
    ensures Quot(i, p) < n
  {
    Split(i, p);
    if n <= Quot(i, p) {
      TimesMono(n, Quot(i, p), p);
    }
  }

  // ---------------------------------------------------------------------------
  // Geometry
  // ---------------------------------------------------------------------------

  /** Where things are on the disk.  `total` is the source's cluster count,
      total_sectors_32 / sectors_per_cluster. */
  datatype Geometry = Geometry(fatStart: nat, fatSectors: nat, dataStart: nat, perCluster: nat, total: nat) {
    function ClusterSize(): nat { SECTOR * perCluster }

    /** One-page buffers and a one-page FAT cache suffice, and every cluster
        number below `total` is on the disk. */
    predicate Fits(sectors: nat) {
      && 1 <= perCluster <= 8
      && fatSectors <= 8 && 2 <= total <= 128 * fatSectors
      && fatStart + fatSectors <= dataStart
      && dataStart + Times(total - 2, perCluster) <= sectors
    }

    /** fat32_cluster_to_sector */
    function SectorOf(c: nat): nat
      requires 2 <= c
    {
      dataStart + Times(c - 2, perCluster)
    }
  }

  /** Cluster ranges lie in the data area and do not overlap. */
  lemma ClustersApart(g: Geometry, n: nat, c: nat, d: nat)
    requires g.Fits(n) && 2 <= c < g.total && 2 <= d < g.total
    ensures g.fatStart + g.fatSectors <= g.dataStart <= g.SectorOf(c) && g.SectorOf(c) + g.perCluster <= n
    ensures c != d ==> g.SectorOf(c) + g.perCluster <= g.SectorOf(d) || g.SectorOf(d) + g.perCluster <= g.SectorOf(c)
  {
    hide Times;
    var p := g.perCluster;
    TimesNext(c - 2, p);
    TimesNext(d - 2, p);
    TimesMono(c - 1, g.total - 2, p);
    if c < d {
      TimesMono(c - 1, d - 2, p);
    } else if d < c {
      TimesMono(d - 1, c - 2, p);
    }
  }

  /** The clusters tile the data area from its start: cluster 2 is its first. */
  lemma ClustersTile(g: Geometry, c: nat)
    requires 2 <= c
    ensures g.SectorOf(2) == g.dataStart && g.SectorOf(c + 1) == g.SectorOf(c) + g.perCluster
    ensures g.SectorOf(c) == g.dataStart + (c - 2) * g.perCluster
  {
    TimesNext(c - 2, g.perCluster);
  }

  ghost function ClusterBytes(g: Geometry, ss: seq<Sector>, c: nat): (b: seq<byte>)
    requires g.Fits(|ss|) && 2 <= c < g.total
    ensures |b| == g.ClusterSize()
  {
    ClustersApart(g, |ss|, c, c);
    Flatten(ss[g.SectorOf(c)..g.SectorOf(c) + g.perCluster])
  }

  /** Writing the FAT moves no file byte. */
  lemma FatWriteKeepsClusters(g: Geometry, ss: seq<Sector>, ss': seq<Sector>, c: nat)
    requires g.Fits(|ss|) && 2 <= c < g.total
    requires SameOutside(ss, ss', g.fatStart, g.fatSectors)
    ensures ClusterBytes(g, ss', c) == ClusterBytes(g, ss, c)
  {
    hide Times;
    ClustersApart(g, |ss|, c, c);
    RangeUntouched(ss, ss', g.fatStart, g.fatSectors, g.SectorOf(c), g.perCluster);
  }

  /** Writing a cluster moves no other cluster. */
  lemma ClusterWriteKeeps(g: Geometry, ss: seq<Sector>, ss': seq<Sector>, c: nat, d: nat)
    requires g.Fits(|ss|) && 2 <= c < g.total && 2 <= d < g.total && c != d
    requires SameOutside(ss, ss', g.SectorOf(c), g.perCluster)
    ensures ClusterBytes(g, ss', d) == ClusterBytes(g, ss, d)
  {
    hide Times;
    ClustersApart(g, |ss|, c, d);
    ClustersApart(g, |ss|, d, d);
    RangeUntouched(ss, ss', g.SectorOf(c), g.perCluster, g.SectorOf(d), g.perCluster);
  }

  // ---------------------------------------------------------------------------
  // Bytes of a chain
  // ---------------------------------------------------------------------------

  predicate InData(g: Geometry, ch: Chain) {
    forall i :: 0 <= i < |ch| ==> 2 <= ch[i] < g.total
  }

  /** Byte `i` of the data a chain holds. */
  ghost function Locate(g: Geometry, ss: seq<Sector>, ch: Chain, i: nat): byte
    requires g.Fits(|ss|) && InData(g, ch) && i < Times(|ch|, g.ClusterSize())
  {
    QuotBelow(i, |ch|, g.ClusterSize());
    ClusterBytes(g, ss, ch[Quot(i, g.ClusterSize())])[Rem(i, g.ClusterSize())]
  }

  lemma LocateAt(g: Geometry, ss: seq<Sector>, ch: Chain, j: nat, o: nat)
    requires g.Fits(|ss|) && InData(g, ch) && j < |ch| && o < g.ClusterSize()
    ensures Times(j, g.ClusterSize()) + o < Times(|ch|, g.ClusterSize())
    ensures Locate(g, ss, ch, Times(j, g.ClusterSize()) + o) == ClusterBytes(g, ss, ch[j])[o]
  {
    hide Times, Quot, Rem, ClusterBytes;
    var cs := g.ClusterSize();
    TimesMono(j + 1, |ch|, cs);
    TimesNext(j, cs);
    SplitUnique(Times(j, cs) + o, j, o, cs);
  }

  /** Where on the disk byte `i` of a file lies whose chain is `ch`: 512 bytes a
      sector, cluster 2 at the start of the data area. */
  ghost predicate LiesAt(g: Geometry, ss: seq<Sector>, ch: Chain, i: nat, b: byte) {
    var cs := 512 * g.perCluster;
    && cs > 0 && i / cs < |ch| && 2 <= ch[i / cs]
    && var s: int := g.dataStart + (ch[i / cs] - 2) * g.perCluster + i % cs / 512;
       0 <= s < |ss| && b == ss[s][i % cs % 512]
  }

  lemma LocateLies(g: Geometry, ss: seq<Sector>, ch: Chain, i: nat)
    requires g.Fits(|ss|) && InData(g, ch) && i < Times(|ch|, g.ClusterSize())
    ensures LiesAt(g, ss, ch, i, Locate(g, ss, ch, i))
  {
    hide Times;
    var cs := g.ClusterSize();
    QuotBelow(i, |ch|, cs);
    var c, o := ch[i / cs], i % cs;
    ClustersApart(g, |ss|, c, c);
    ClustersTile(g, c);
    FlattenAt(ss[g.SectorOf(c)..g.SectorOf(c) + g.perCluster], o);
  }

  /** The byte sequence a file stands for. */
  ghost function FileBytes(g: Geometry, ss: seq<Sector>, ch: Chain, size: nat): (b: seq<byte>)
    requires g.Fits(|ss|) && InData(g, ch) && size <= Times(|ch|, g.ClusterSize())
    ensures |b| == size && forall i :: 0 <= i < size ==> b[i] == Locate(g, ss, ch, i)
  {
    seq(size, i requires 0 <= i < size => Locate(g, ss, ch, i))
  }

  /** Rewriting one cluster of a chain of distinct clusters changes exactly the
      bytes at that place in the chain. */
  lemma RewriteCluster(g: Geometry, ss: seq<Sector>, ss': seq<Sector>, ch: Chain, j: nat, i: nat)
    requires g.Fits(|ss|) && InData(g, ch) && j < |ch| && i < Times(|ch|, g.ClusterSize())
    requires forall a, b :: 0 <= a < b < |ch| ==> ch[a] != ch[b]
    requires SameOutside(ss, ss', g.SectorOf(ch[j]), g.perCluster)
    ensures Locate(g, ss', ch, i) == if Quot(i, g.ClusterSize()) == j
                                     then ClusterBytes(g, ss', ch[j])[Rem(i, g.ClusterSize())]
                                     else Locate(g, ss, ch, i)
  {
    hide Times, Quot, Rem, ClusterBytes;
    var m := Quot(i, g.ClusterSize());
    QuotBelow(i, |ch|, g.ClusterSize());
    if m != j {
      assert ch[m] != ch[j];
      ClusterWriteKeeps(g, ss, ss', ch[j], ch[m]);
    }
  }

  // ---------------------------------------------------------------------------
  // The FAT on disk
  // ---------------------------------------------------------------------------

  /** The cache as the bytes ahci_write_sectors transfers. */
  function FatBytes(fat: seq<u32>, n: nat): (b: seq<byte>)
    requires 128 * n <= |fat|
    ensures |b| == SECTOR * n
  {
    seq(SECTOR * n, i requires 0 <= i < SECTOR * n => LittleByte(fat[i / 4], i % 4))
  }

  /** Entry `c` of the FAT that starts at sector `start`: four bytes, least
      significant first. */
  ghost predicate EntryIs(ss: seq<Sector>, start: nat, c: nat, e: nat)
    requires start + c / 128 < |ss|
  {
    var s, o := ss[start + c / 128], c % 128 * 4;
    e == s[o] as nat + 256 * (s[o + 1] as nat) + 0x1_0000 * (s[o + 2] as nat) + 0x100_0000 * (s[o + 3] as nat)
  }

  /** The first FAT on the disk holds what the cache holds. */
  ghost predicate OnDisk(g: Geometry, ss: seq<Sector>, fat: seq<u32>)
    requires g.Fits(|ss|) && |fat| == FAT_ENTRIES
  {
    assert Times(g.total - 2, g.perCluster) >= 0;
    forall c | 0 <= c < 128 * g.fatSectors :: EntryIs(ss, g.fatStart, c, fat[c])
  }

  /** Writing the bytes of the cache puts it on the disk. */
  lemma FatBytesOnDisk(g: Geometry, ss: seq<Sector>, fat: seq<u32>)
    requires g.Fits(|ss|) && |fat| == FAT_ENTRIES && g.fatStart + g.fatSectors <= |ss|
    requires Flatten(ss[g.fatStart..g.fatStart + g.fatSectors]) == FatBytes(fat, g.fatSectors)
    ensures OnDisk(g, ss, fat)
  {
    hide Times, LittleByte, Flatten;
    var part := ss[g.fatStart..g.fatStart + g.fatSectors];
    forall c | 0 <= c < 128 * g.fatSectors
      ensures EntryIs(ss, g.fatStart, c, fat[c])
    {
      forall k | 0 <= k < 4
        ensures ss[g.fatStart + c / 128][c % 128 * 4 + k] == LittleByte(fat[c], k)
      {
        FlattenAt(part, 4 * c + k);
        assert (4 * c + k) / 512 == c / 128 && (4 * c + k) % 512 == c % 128 * 4 + k;
        assert (4 * c + k) / 4 == c && (4 * c + k) % 4 == k;
      }
      LittleBytes(fat[c]);
    }
  }

  /** Writing a cluster moves no FAT sector. */
  lemma ClusterWriteKeepsFat(g: Geometry, ss: seq<Sector>, ss': seq<Sector>, c: nat, fat: seq<u32>)
    requires g.Fits(|ss|) && 2 <= c < g.total && |fat| == FAT_ENTRIES
    requires SameOutside(ss, ss', g.SectorOf(c), g.perCluster)
    ensures OnDisk(g, ss', fat) <==> OnDisk(g, ss, fat)
  {
    hide Times;
    ClustersApart(g, |ss|, c, c);
    forall d | 0 <= d < 128 * g.fatSectors
      ensures EntryIs(ss', g.fatStart, d, fat[d]) <==> EntryIs(ss, g.fatStart, d, fat[d])
    {
      assert ss'[g.fatStart + d / 128] == ss[g.fatStart + d / 128];
    }
  }

  // ---------------------------------------------------------------------------
  // The mounted volume
  // ---------------------------------------------------------------------------

  /** Relation of the tables before and after an allocation that took cluster
      `taken` (0: none was free). */
  ghost predicate Allocated(g: Geometry, fat: seq<u32>, chains: seq<Chain>,
                            fat': seq<u32>, chains': seq<Chain>, taken: nat)
    requires |fat| == |fat'| == FAT_ENTRIES && g.total <= FAT_ENTRIES
  {
    if taken == 0 then
      fat' == fat && chains' == chains && forall c :: 2 <= c < g.total ==> Get(fat, c) != 0
    else
      && 2 <= taken < g.total && Get(fat, taken) == 0
      && (forall c :: 2 <= c < taken ==> Get(fat, c) != 0)
      && fat' == Set(fat, taken, 0x0FFF_FFFF) && chains' == chains + [[taken]]
  }

  class Volume {
    const disk: Disk
    const g: Geometry
    /** The FAT cache, written in place. */
    const fat: array<u32>
    /** The chains of the files and directories in use. */
    ghost var chains: seq<Chain>

    ghost predicate Valid()
      reads this, disk, fat
    {
      && g.Fits(|disk.sectors|) && fat.Length == FAT_ENTRIES
      && Forest(fat[..], g.total, chains)
    }

    /** The first FAT on the disk is the cache. */
    ghost predicate Synced()
      reads disk, fat
    {
      g.Fits(|disk.sectors|) && fat.Length == FAT_ENTRIES && OnDisk(g, disk.sectors, fat[..])
    }

    /** Every cluster in use is on a chain. */
    ghost predicate NothingLost()
      reads this, fat
    {
      g.total <= fat.Length && Complete(fat[..], g.total, chains)
    }

    /** No cluster is free. */
    ghost predicate Full()
      reads fat
    {
      g.total <= fat.Length && forall c :: 2 <= c < g.total ==> Get(fat[..], c) != 0
    }

    /** No transfer has failed since. */
    twostate predicate Quiet()
      reads disk.log
    {
      disk.log.failures == old(disk.log.failures)
    }

    /** What every operation keeps: failures only add up, without one the FAT
        on the disk stays the cache, and no cluster gets lost. */
    twostate predicate Steady()
      reads this, disk, disk.log, fat
    {
      && old(disk.log.failures) <= disk.log.failures
      && (Quiet() && old(Synced()) ==> Synced())
      && (old(NothingLost()) ==> NothingLost())
    }

    constructor (disk: Disk, g: Geometry, fat: array<u32>, ghost chains: seq<Chain>)
      requires g.Fits(|disk.sectors|) && fat.Length == FAT_ENTRIES && Forest(fat[..], g.total, chains)
      ensures Valid() && this.disk == disk && this.g == g && this.fat == fat && this.chains == chains
    {
      this.disk, this.g, this.fat, this.chains := disk, g, fat, chains;
    }

    /** fat32_get_fat_entry */
    method GetEntry(c: nat) returns (v: nat)
      requires c < fat.Length
      ensures v == Get(fat[..], c) == fat[c] % 0x1000_0000
    {
      v := fat[c] % NIBBLE;
    }

    /** fat32_set_fat_entry */
    method SetEntry(c: nat, v: nat)
      requires c < fat.Length
      modifies fat
      ensures fat[..] == Set(old(fat[..]), c, v)
    {
      fat[c] := fat[c] / NIBBLE * NIBBLE + v % NIBBLE;
    }

    method WriteFat() returns (ok: bool)
      requires g.Fits(|disk.sectors|) && fat.Length == FAT_ENTRIES
      modifies disk, disk.log
      ensures SameOutside(old(disk.sectors), disk.sectors, g.fatStart, g.fatSectors)
      ensures ok ==> Synced()
      ensures disk.log.failures == old(disk.log.failures) + (if ok then 0 else 1)
    {
      hide Times, OnDisk, FatBytes, Flatten;
      ok := disk.Write(g.fatStart, FatBytes(fat[..], g.fatSectors));
      if ok {
        FatBytesOnDisk(g, disk.sectors, fat[..]);
      }
    }

    /** fat32_alloc_cluster: 0 when no cluster is free or the FAT cannot be
        written; in the second case the cluster stays marked. */
    method AllocCluster() returns (c: nat, ghost taken: nat)
      requires Valid()
      modifies this, disk, disk.log, fat
      ensures Valid() && Allocated(g, old(fat[..]), old(chains), fat[..], chains, taken)
      ensures c == (if Quiet() then taken else 0) && (taken == 0 ==> Full() && Quiet())
      ensures taken == 0 ==> disk.sectors == old(disk.sectors)
      ensures SameOutside(old(disk.sectors), disk.sectors, g.fatStart, g.fatSectors)
      ensures c != 0 ==> Synced()
      ensures Steady()
    {
      hide Times, Linked, Disjoint, OnDisk, Complete;
      taken := 0;
      for i := 2 to g.total
        invariant fat[..] == old(fat[..]) && chains == old(chains) && disk.sectors == old(disk.sectors)
        invariant Quiet()
        invariant forall d :: 2 <= d < i ==> Get(fat[..], d) != 0
      {
        var v := GetEntry(i);
        if v == 0 {
          taken := i;
          AllocKeepsForest(fat[..], g.total, chains, i);
          SetEntry(i, END_MARK);
          chains := chains + [[i]];
          var ok := WriteFat();
          return if ok then i else 0, taken;
        }
      }
      return 0, taken;
    }

    /** fat32_extend_chain; the second write of the FAT goes unchecked. */
    method ExtendChain(last: nat, ghost k: nat) returns (c: nat, ghost taken: nat)
      requires Valid() && k < |chains| && chains[k] != [] && last == chains[k][|chains[k]| - 1]
      modifies this, disk, disk.log, fat
      ensures Valid() && (c == 0 || c == taken)
      ensures last < FAT_ENTRIES
      ensures c == 0 ==> !Quiet() || Full()
      ensures SameOutside(old(disk.sectors), disk.sectors, g.fatStart, g.fatSectors)
      ensures c == 0 ==> Allocated(g, old(fat[..]), old(chains), fat[..], chains, taken)
      ensures c != 0 ==> 2 <= c < g.total && Get(old(fat[..]), c) == 0
                         && (forall d :: 2 <= d < c ==> Get(old(fat[..]), d) != 0)
                         && fat[..] == Set(Set(old(fat[..]), c, 0x0FFF_FFFF), last, c)
      ensures c != 0 ==> !OnSome(old(chains), c)
                         && chains == old(chains)[k := old(chains)[k] + [c]]
      ensures Quiet() && c != 0 ==> Synced()
      ensures Steady()
    {
      assert Linked(fat[..], g.total, chains[k]) && last < FAT_ENTRIES;
      hide Times, Linked, Disjoint, OnDisk, Complete;
      ghost var fat0, chains0 := fat[..], chains;
      c, taken := AllocCluster();
      if c == 0 {
        return 0, taken;
      }
      FreeIsOnNoChain(fat0, g.total, chains0, c);
      LinkKeepsForest(fat[..], g.total, chains0, k, c);
      SetEntry(last, c);
      chains := chains0[k := chains0[k] + [c]];
      var _ := WriteFat();
    }
  }
}
