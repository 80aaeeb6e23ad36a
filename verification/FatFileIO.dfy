/** fat32_read and fat32_write (fat32_vfs.c) against the byte sequence of a file. */
module FatFileIO {
  import opened Basics
  import opened SectorDisk
  import opened FatTable
  import opened FatFile

  class Node {
    var size: nat
    var firstCluster: nat

    constructor (size: nat, firstCluster: nat)
      ensures this.size == size && this.firstCluster == firstCluster
    {
      this.size, this.firstCluster := size, firstCluster;
    }
  }

  /** Chain `k` belongs to a file of the given first cluster and size. */
  predicate OwnsChain(g: Geometry, chains: seq<Chain>, k: nat, first: nat, size: nat) {
    k < |chains| && chains[k] != [] && chains[k][0] == first && size <= Times(|chains[k]|, g.ClusterSize())
  }

  lemma NextInChain(fat: seq<u32>, total: nat, ch: Chain, j: nat)
    requires Linked(fat, total, ch) && j < |ch|
    ensures ch[j] < |fat| && 2 <= ch[j] < total && total <= BAD_CLUSTER && ch[j] < END_OF_CHAIN
    ensures j + 1 < |ch| ==> Get(fat, ch[j]) == ch[j + 1]
    ensures j + 1 == |ch| ==> Get(fat, ch[j]) >= END_OF_CHAIN
  {
  }

  lemma NextBelow(fat: seq<u32>, total: nat, ch: Chain, j: nat)
    requires Linked(fat, total, ch) && j < |ch|
    ensures j + 1 < |ch| ==> 2 <= ch[j + 1] < total && total <= BAD_CLUSTER
  {
  }

  lemma ChainFacts(g: Geometry, fat: seq<u32>, chains: seq<Chain>, k: nat)
    requires Forest(fat, g.total, chains) && k < |chains|
    ensures Linked(fat, g.total, chains[k]) && InData(g, chains[k])
    ensures forall a, b :: 0 <= a < b < |chains[k]| ==> chains[k][a] != chains[k][b]
  {
  }

  /** `buf` is the part of the file that starts at `offset`. */
  ghost predicate ReadSoFar(g: Geometry, ss: seq<Sector>, ch: Chain, size: nat, offset: nat, buf: seq<byte>) {
    && g.Fits(|ss|) && InData(g, ch) && size <= Times(|ch|, g.ClusterSize())
    && offset + |buf| <= size && buf == FileBytes(g, ss, ch, size)[offset..offset + |buf|]
  }

  lemma ReadMore(g: Geometry, ss: seq<Sector>, ch: Chain, size: nat, offset: nat, got: seq<byte>,
                 j: nat, co: nat, n: nat)
    requires ReadSoFar(g, ss, ch, size, offset, got)
    requires offset + |got| + n <= size && j < |ch| && co + n <= g.ClusterSize()
    requires offset + |got| == Times(j, g.ClusterSize()) + co
    ensures ReadSoFar(g, ss, ch, size, offset, got + ClusterBytes(g, ss, ch[j])[co..co + n])
  {
    hide Times, Locate, ClusterBytes, Quot, Rem;
    var more := ClusterBytes(g, ss, ch[j])[co..co + n];
    var file := FileBytes(g, ss, ch, size);
    forall b | 0 <= b < n
      ensures more[b] == file[offset + |got| + b]
    {
      LocateAt(g, ss, ch, j, co + b);
      assert Times(j, g.ClusterSize()) + (co + b) == offset + |got| + b;
    }
    assert file[offset..offset + |got| + n] == file[offset..offset + |got|] + file[offset + |got|..offset + |got| + n];
  }

  /** Bytes a read can reach: the file size, or less if the chain is short. */
  function Reachable(g: Geometry, ch: Chain, size: nat): nat {
    Min(size, Times(|ch|, g.ClusterSize()))
  }

  /** The skip loop: follow `n` links, unless the chain ends first. */
  method SkipClusters(v: Volume, first: nat, n: nat, ghost ch: Chain) returns (found: bool, c: nat)
    requires v.fat.Length == FAT_ENTRIES && Linked(v.fat[..], v.g.total, ch) && ch[0] == first
    ensures found <==> n < |ch|
    ensures found ==> c == ch[n] && c < BAD_CLUSTER
  {
    assert ch != [];
    hide Linked;
    c := first;
    NextInChain(v.fat[..], v.g.total, ch, 0);
    for i := 0 to n
      invariant i < |ch| && c == ch[i] && c < BAD_CLUSTER
    {
      NextInChain(v.fat[..], v.g.total, ch, i);
      NextBelow(v.fat[..], v.g.total, ch, i);
      c := v.GetEntry(c);
      if c >= END_OF_CHAIN {
        return false, c;
      }
    }
    found := true;
  }

  /** fat32_read: an I/O error cuts the result short. */
  method ReadFile(v: Volume, node: Node, offset: nat, size: nat, ghost k: nat)
    returns (buf: seq<byte>)
    requires v.Valid()
    requires node.size > 0 ==> k < |v.chains| && v.chains[k] != [] && v.chains[k][0] == node.firstCluster
    modifies v.disk.log
    ensures v.Valid() && v.Steady()
    ensures node.size == 0 ==> buf == []
    ensures node.size > 0 ==> InData(v.g, v.chains[k])
    ensures node.size > 0 ==>
              var n := Reachable(v.g, v.chains[k], node.size);
              var want := Slice(FileBytes(v.g, v.disk.sectors, v.chains[k], n), offset, size);
              buf <= want && (v.Quiet() ==> buf == want)
    ensures node.size > 0 ==>
              forall i | 0 <= i < |buf| :: LiesAt(v.g, v.disk.sectors, v.chains[k], offset + i, buf[i])
  {
    hide Times, Locate, ClusterBytes, Quot, Rem, Linked, Disjoint, FileBytes, LiesAt;
    var cs := v.g.ClusterSize();
    buf := [];
    if node.size > 0 {
      ChainFacts(v.g, v.fat[..], v.chains, k);
    }
    if offset >= node.size {
      return;
    }
    assert v.g.Fits(|v.disk.sectors|) && v.fat.Length == FAT_ENTRIES;
    hide Forest, InData, Volume.Valid, OnDisk, Complete;
    ghost var ch := v.chains[k];
    ghost var reach := Reachable(v.g, ch, node.size);
    var left: nat := if offset + size > node.size then node.size - offset else size;
    var skip := Quot(offset, cs);
    Split(offset, cs);
    var found, current := SkipClusters(v, node.firstCluster, skip, ch);
    if !found {
      TimesMono(|ch|, skip, cs);
      return;
    }
    LocateAt(v.g, v.disk.sectors, ch, skip, Rem(offset, cs));
    buf := ReadRun(v, current, Rem(offset, cs), left, ch, skip, reach, offset);
    ReadLies(v.g, v.disk.sectors, ch, reach, offset, buf);
    PartOfSlice(v.g, v.disk.sectors, ch, reach, offset, size, buf);
  }

  lemma PartOfSlice(g: Geometry, ss: seq<Sector>, ch: Chain, reach: nat, offset: nat, size: nat, buf: seq<byte>)
    requires ReadSoFar(g, ss, ch, reach, offset, buf) && offset < reach && |buf| <= size
    ensures var want := Slice(FileBytes(g, ss, ch, reach), offset, size);
            buf <= want && (offset + |buf| == Min(offset + size, reach) ==> buf == want)
  {
    hide FileBytes;
  }

  lemma ReadLies(g: Geometry, ss: seq<Sector>, ch: Chain, reach: nat, offset: nat, buf: seq<byte>)
    requires ReadSoFar(g, ss, ch, reach, offset, buf)
    ensures forall i | 0 <= i < |buf| :: LiesAt(g, ss, ch, offset + i, buf[i])
  {
    hide Times, Locate, LiesAt;
    forall i | 0 <= i < |buf|
      ensures LiesAt(g, ss, ch, offset + i, buf[i])
    {
      LocateLies(g, ss, ch, offset + i);
    }
  }

  /** The read loop: cluster after cluster until enough bytes or the chain's end. */
  method ReadRun(v: Volume, first: nat, within: nat, wanted: nat,
                 ghost ch: Chain, ghost j0: nat, ghost reach: nat, ghost offset: nat)
    returns (buf: seq<byte>)
    requires v.Valid() && Linked(v.fat[..], v.g.total, ch) && InData(v.g, ch)
    requires j0 < |ch| && ch[j0] == first && within < v.g.ClusterSize()
    requires offset == Times(j0, v.g.ClusterSize()) + within
    requires reach <= Times(|ch|, v.g.ClusterSize())
    requires offset <= reach && (offset + wanted <= reach || reach == Times(|ch|, v.g.ClusterSize()))
    modifies v.disk.log
    ensures v.Steady()
    ensures ReadSoFar(v.g, v.disk.sectors, ch, reach, offset, buf)
    ensures |buf| <= wanted && (v.Quiet() ==> offset + |buf| == Min(offset + wanted, reach))
  {
    hide Times, Linked, Volume.Valid, ClusterBytes, InData, ReadSoFar, Volume.Synced, Volume.NothingLost, Geometry.Fits;
    ValidFits(v);
    var cs := v.g.ClusterSize();
    buf := [];
    var current, co: nat, left: nat := first, within, wanted;
    ghost var j: nat := j0;
    NextInChain(v.fat[..], v.g.total, ch, j);
    NothingRead(v.g, v.disk.sectors, ch, reach, offset);
    while left > 0 && current < END_OF_CHAIN
      invariant |buf| + left == wanted && co < cs
      invariant v.Quiet()
      invariant ReadSoFar(v.g, v.disk.sectors, ch, reach, offset, buf)
      invariant left > 0 ==> if current < END_OF_CHAIN
                             then j < |ch| && current == ch[j] && offset + |buf| == Times(j, cs) + co
                             else offset + |buf| == Times(|ch|, cs)
      decreases left
    {
      NextInChain(v.fat[..], v.g.total, ch, j);
      var copy := cs - co;
      if copy > left {
        copy := left;
      }
      StepFits(j, |ch|, cs);
      var ok, more := ReadPiece(v, current, co, copy, ch, j, reach, offset, buf);
      if !ok {
        return;
      }
      buf := buf + more;
      left := left - copy;
      co := 0;
      j := j + 1;
      current := v.GetEntry(current);
      if j < |ch| {
        NextInChain(v.fat[..], v.g.total, ch, j);
      }
    }
    EndsInside(v.g, v.disk.sectors, ch, reach, offset, buf);
  }

  lemma ValidFits(v: Volume)
    requires v.Valid()
    ensures v.g.Fits(|v.disk.sectors|) && v.fat.Length == FAT_ENTRIES
  {
  }

  lemma NothingRead(g: Geometry, ss: seq<Sector>, ch: Chain, size: nat, offset: nat)
    requires g.Fits(|ss|) && InData(g, ch) && offset <= size <= Times(|ch|, g.ClusterSize())
    ensures ReadSoFar(g, ss, ch, size, offset, [])
  {
    hide FileBytes;
  }

  /** One turn of the read loop. */
  method ReadPiece(v: Volume, current: nat, co: nat, copy: nat, ghost ch: Chain, ghost j: nat, ghost reach: nat,
                   ghost offset: nat, ghost buf: seq<byte>)
    returns (ok: bool, more: seq<byte>)
    requires v.g.Fits(|v.disk.sectors|) && ReadSoFar(v.g, v.disk.sectors, ch, reach, offset, buf)
    requires j < |ch| && current == ch[j] && 2 <= current < v.g.total
    requires co + copy <= v.g.ClusterSize() && offset + |buf| == Times(j, v.g.ClusterSize()) + co
    requires offset + |buf| + copy <= reach
    modifies v.disk.log
    ensures v.Steady() && (ok <==> v.Quiet())
    ensures ok ==> |more| == copy && ReadSoFar(v.g, v.disk.sectors, ch, reach, offset, buf + more)
  {
    hide Times, ClusterBytes, FileBytes, Locate;
    var cbuf;
    ok, cbuf := ReadCluster(v, current);
    more := cbuf[co..co + copy];
    if ok {
      ReadMore(v.g, v.disk.sectors, ch, reach, offset, buf, j, co, copy);
    }
  }

  lemma EndsInside(g: Geometry, ss: seq<Sector>, ch: Chain, size: nat, offset: nat, buf: seq<byte>)
    requires ReadSoFar(g, ss, ch, size, offset, buf)
    ensures offset + |buf| <= size
  {
  }

  lemma StepFits(j: nat, n: nat, cs: nat)
    requires j < n
    ensures Times(j + 1, cs) == Times(j, cs) + cs <= Times(n, cs)
  {
    TimesNext(j, cs);
    TimesMono(j + 1, n, cs);
  }

  /** fat32_read_cluster */
  method ReadCluster(v: Volume, c: nat) returns (ok: bool, buf: seq<byte>)
    requires v.g.Fits(|v.disk.sectors|) && 2 <= c < v.g.total
    modifies v.disk.log
    ensures v.Steady() && (ok <==> v.Quiet())
    ensures |buf| == v.g.ClusterSize()
    ensures ok ==> buf == ClusterBytes(v.g, v.disk.sectors, c)
  {
    ok, buf := v.disk.Read(v.g.SectorOf(c), v.g.perCluster);
  }

  /** fat32_write_cluster */
  method WriteCluster(v: Volume, c: nat, buf: seq<byte>) returns (ok: bool)
    requires v.g.Fits(|v.disk.sectors|) && 2 <= c < v.g.total && |buf| == v.g.ClusterSize()
    modifies v.disk, v.disk.log
    ensures v.Steady() && (ok <==> v.Quiet())
    ensures v.g.Fits(|v.disk.sectors|)
    ensures SameOutside(old(v.disk.sectors), v.disk.sectors, v.g.SectorOf(c), v.g.perCluster)
    ensures ok ==> ClusterBytes(v.g, v.disk.sectors, c) == buf
  {
    hide Times, OnDisk;
    ghost var ss := v.disk.sectors;
    ok := v.disk.Write(v.g.SectorOf(c), buf);
    if v.fat.Length == FAT_ENTRIES {
      ClusterWriteKeepsFat(v.g, ss, v.disk.sectors, c, v.fat[..]);
    }
  }
}
