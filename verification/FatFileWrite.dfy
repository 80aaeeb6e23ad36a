/** fat32_write (fat32_vfs.c). */
module FatFileWrite {
  import opened Basics
  import opened SectorDisk
  import opened FatTable
  import opened FatFile
  import opened FatFileIO

  /** Chains only grow: chain `k` at its end, the others not at all. */
  ghost predicate Grew(chains: seq<Chain>, chains': seq<Chain>, k: nat) {
    && |chains| <= |chains'|
    && (forall l | 0 <= l < |chains| && l != k :: chains'[l] == chains[l])
    && (k < |chains| ==> chains[k] <= chains'[k])
  }

  /** Every file but number `k` has the chain and the bytes it had. */
  ghost predicate OthersKept(g: Geometry, ss: seq<Sector>, chains: seq<Chain>,
                             ss': seq<Sector>, chains': seq<Chain>, k: nat)
  {
    && g.Fits(|ss|) && |ss'| == |ss|
    && Grew(chains, chains', k)
    && (forall l, i | 0 <= l < |chains| && l != k && 0 <= i < |chains[l]| && 2 <= chains[l][i] < g.total ::
          ClusterBytes(g, ss', chains[l][i]) == ClusterBytes(g, ss, chains[l][i]))
  }

  /** The data of chain `ch` is that of `ch0` with `done` laid over it at `offset`. */
  ghost predicate Overlaid(g: Geometry, ss0: seq<Sector>, ch0: Chain, ss: seq<Sector>, ch: Chain,
                           offset: nat, done: seq<byte>)
  {
    && g.Fits(|ss0|) && |ss| == |ss0| && InData(g, ch0) && InData(g, ch) && ch0 <= ch
    && (forall i: nat | i < Times(|ch|, g.ClusterSize()) && offset <= i < offset + |done| ::
          Locate(g, ss, ch, i) == done[i - offset])
    && (forall i: nat | i < Times(|ch|, g.ClusterSize()) && !(offset <= i < offset + |done|)
                        && i < Times(|ch0|, g.ClusterSize()) ::
          Locate(g, ss, ch, i) == Locate(g, ss0, ch0, i))
  }

  lemma GrewTrans(a: seq<Chain>, b: seq<Chain>, c: seq<Chain>, k: nat)
    requires Grew(a, b, k) && Grew(b, c, k)
    ensures Grew(a, c, k)
  {
  }

  /** Growing the chain by FAT writes keeps both relations. */
  lemma FatStep(g: Geometry, ss0: seq<Sector>, chains0: seq<Chain>, ch0: Chain, ss: seq<Sector>, chains: seq<Chain>,
                ss': seq<Sector>, chains': seq<Chain>, k: nat, offset: nat, done: seq<byte>)
    requires OthersKept(g, ss0, chains0, ss, chains, k) && Grew(chains, chains', k)
    requires SameOutside(ss, ss', g.fatStart, g.fatSectors)
    requires k < |chains|
    ensures OthersKept(g, ss0, chains0, ss', chains', k)
    ensures Overlaid(g, ss0, ch0, ss, chains[k], offset, done) && InData(g, chains'[k])
            && Times(|ch0|, g.ClusterSize()) <= Times(|chains[k]|, g.ClusterSize())
            && (done == [] || offset + |done| <= Times(|chains[k]|, g.ClusterSize())) ==>
              Overlaid(g, ss0, ch0, ss', chains'[k], offset, done)
  {
    hide Times, ClusterBytes;
    GrewTrans(chains0, chains, chains', k);
    forall c: nat | 2 <= c < g.total
      ensures ClusterBytes(g, ss', c) == ClusterBytes(g, ss, c)
    {
      FatWriteKeepsClusters(g, ss, ss', c);
    }
    if Overlaid(g, ss0, ch0, ss, chains[k], offset, done) && InData(g, chains'[k]) {
      forall i: nat | i < Times(|chains[k]|, g.ClusterSize())
        ensures i < Times(|chains'[k]|, g.ClusterSize())
        ensures Locate(g, ss', chains'[k], i) == Locate(g, ss, chains[k], i)
      {
        TimesMono(|chains[k]|, |chains'[k]|, g.ClusterSize());
        SameLocate(g, ss, chains[k], ss', chains'[k], i);
      }
    }
  }

  lemma SameLocate(g: Geometry, ss: seq<Sector>, ch: Chain, ss': seq<Sector>, ch': Chain, i: nat)
    requires g.Fits(|ss|) && |ss'| == |ss| && InData(g, ch) && InData(g, ch') && ch <= ch'
    requires i < Times(|ch|, g.ClusterSize()) && i < Times(|ch'|, g.ClusterSize())
    requires forall c: nat | 2 <= c < g.total :: ClusterBytes(g, ss', c) == ClusterBytes(g, ss, c)
    ensures Locate(g, ss', ch', i) == Locate(g, ss, ch, i)
  {
    hide Times, ClusterBytes, Quot, Rem;
    QuotBelow(i, |ch|, g.ClusterSize());
  }

  /** Rewriting cluster `j` of chain `k` with the next `n` bytes in place. */
  lemma ClusterStep(g: Geometry, ss0: seq<Sector>, ch0: Chain, ss: seq<Sector>, ss': seq<Sector>, ch: Chain, j: nat,
                    offset: nat, done: seq<byte>, more: seq<byte>, co: nat)
    requires Overlaid(g, ss0, ch0, ss, ch, offset, done) && j < |ch|
    requires forall a, b :: 0 <= a < b < |ch| ==> ch[a] != ch[b]
    requires SameOutside(ss, ss', g.SectorOf(ch[j]), g.perCluster)
    requires co + |more| <= g.ClusterSize() && offset + |done| == Times(j, g.ClusterSize()) + co
    requires var was := ClusterBytes(g, ss, ch[j]);
             ClusterBytes(g, ss', ch[j]) == was[..co] + more + was[co + |more|..]
    ensures Overlaid(g, ss0, ch0, ss', ch, offset, done + more)
  {
    hide Times, Locate, Quot, Rem, ClusterBytes, SameOutside;
    var cs := g.ClusterSize();
    assert |ss'| == |ss| by { SameSize(ss, ss', g.SectorOf(ch[j]), g.perCluster); }
    forall i: nat | i < Times(|ch|, cs)
      ensures Locate(g, ss', ch, i) == if offset + |done| <= i < offset + |done| + |more|
                                       then more[i - offset - |done|] else Locate(g, ss, ch, i)
    {
      PatchedByte(g, ss, ss', ch, j, offset + |done|, more, co, i);
    }
  }

  lemma SameSize(ss: seq<Sector>, ss': seq<Sector>, start: nat, n: nat)
    requires SameOutside(ss, ss', start, n)
    ensures |ss'| == |ss|
  {
  }

  lemma PatchedByte(g: Geometry, ss: seq<Sector>, ss': seq<Sector>, ch: Chain, j: nat, pos: nat,
                    more: seq<byte>, co: nat, i: nat)
    requires g.Fits(|ss|) && InData(g, ch) && j < |ch| && i < Times(|ch|, g.ClusterSize())
    requires forall a, b :: 0 <= a < b < |ch| ==> ch[a] != ch[b]
    requires SameOutside(ss, ss', g.SectorOf(ch[j]), g.perCluster)
    requires co + |more| <= g.ClusterSize() && pos == Times(j, g.ClusterSize()) + co
    requires var was := ClusterBytes(g, ss, ch[j]);
             ClusterBytes(g, ss', ch[j]) == was[..co] + more + was[co + |more|..]
    ensures Locate(g, ss', ch, i) == if pos <= i < pos + |more| then more[i - pos] else Locate(g, ss, ch, i)
  {
    hide Times, Quot, Rem, ClusterBytes, SameOutside;
    var cs := g.ClusterSize();
    RewriteCluster(g, ss, ss', ch, j, i);
    Split(i, cs);
    QuotBelow(i, |ch|, cs);
    var m, o := Quot(i, cs), Rem(i, cs);
    if m < j {
      StepFits(m, j, cs);
    } else if j < m {
      StepFits(j, m, cs);
    }
  }

  lemma OtherChainsApart(g: Geometry, ss0: seq<Sector>, chains0: seq<Chain>, ss: seq<Sector>, chains: seq<Chain>,
                         ss': seq<Sector>, k: nat, j: nat)
    requires OthersKept(g, ss0, chains0, ss, chains, k) && Disjoint(chains)
    requires k < |chains| && j < |chains[k]| && 2 <= chains[k][j] < g.total
    requires SameOutside(ss, ss', g.SectorOf(chains[k][j]), g.perCluster)
    ensures OthersKept(g, ss0, chains0, ss', chains, k)
  {
    hide Times, ClusterBytes;
    forall l, i | 0 <= l < |chains0| && l != k && 0 <= i < |chains0[l]| && 2 <= chains0[l][i] < g.total
      ensures ClusterBytes(g, ss', chains0[l][i]) == ClusterBytes(g, ss0, chains0[l][i])
    {
      assert chains[l][i] != chains[k][j];
      ClusterWriteKeeps(g, ss, ss', chains[k][j], chains[l][i]);
    }
  }

  // ---------------------------------------------------------------------------
  // The write
  // ---------------------------------------------------------------------------

  lemma ForestFacts(g: Geometry, fat: seq<u32>, chains: seq<Chain>)
    requires Forest(fat, g.total, chains)
    ensures Disjoint(chains)
    ensures forall k | 0 <= k < |chains| :: Linked(fat, g.total, chains[k]) && InData(g, chains[k])
                                          && forall a, b :: 0 <= a < b < |chains[k]| ==> chains[k][a] != chains[k][b]
  {
  }

  lemma AllocatedGrows(g: Geometry, fat: seq<u32>, chains: seq<Chain>, fat': seq<u32>, chains': seq<Chain>,
                       taken: nat, k: nat)
    requires |fat| == |fat'| == FAT_ENTRIES && g.total <= FAT_ENTRIES
    requires Allocated(g, fat, chains, fat', chains', taken)
    ensures Grew(chains, chains', k)
  {
  }

  /** The cluster after `current`, allocating one at the end of the chain; 0
      when that fails. */
  method NextCluster(v: Volume, current: nat, ghost k: nat, ghost j: nat) returns (c: nat)
    requires v.Valid() && k < |v.chains| && j < |v.chains[k]| && v.chains[k][j] == current
    modifies v, v.disk, v.disk.log, v.fat
    ensures v.Valid() && Grew(old(v.chains), v.chains, k) && k < |v.chains|
    ensures v.Steady() && (c == 0 ==> !v.Quiet() || v.Full())
    ensures SameOutside(old(v.disk.sectors), v.disk.sectors, v.g.fatStart, v.g.fatSectors)
    ensures c != 0 ==> j + 1 < |v.chains[k]| && v.chains[k][j + 1] == c
  {
    hide Times, Disjoint, Complete, OnDisk, OnSome;
    ghost var fat0, chains0 := v.fat[..], v.chains;
    ForestFacts(v.g, fat0, chains0);
    NextInChain(fat0, v.g.total, chains0[k], j);
    c := v.GetEntry(current);
    if c >= END_OF_CHAIN {
      assert j + 1 == |chains0[k]| by {
        NextBelow(fat0, v.g.total, chains0[k], j);
      }
      hide Linked, Forest, Allocated;
      ghost var taken;
      c, taken := v.ExtendChain(current, k);
      if c == 0 {
        AllocatedGrows(v.g, fat0, chains0, v.fat[..], v.chains, taken, k);
      }
    } else {
      NextBelow(fat0, v.g.total, chains0[k], j);
    }
  }

  predicate HasChain(first: nat) { first != 0 && first < END_OF_CHAIN }

  /** `f` is where the chain of a file without one will appear. */
  ghost predicate FileChain(g: Geometry, chains: seq<Chain>, k: nat, first: nat, size: nat) {
    if HasChain(first) then OwnsChain(g, chains, k, first, size)
    else size == 0 && k == |chains|
  }

  ghost function ChainOf(chains: seq<Chain>, k: nat): Chain {
    if k < |chains| then chains[k] else []
  }

  /** Everything the write loop maintains about the file being written. */
  ghost predicate Progress(v: Volume, ss0: seq<Sector>, chains0: seq<Chain>, k: nat, offset: nat,
                           done: seq<byte>, clean: bool)
    reads v, v.disk, v.fat
  {
    && v.Valid() && k < |v.chains|
    && OthersKept(v.g, ss0, chains0, v.disk.sectors, v.chains, k)
    && InData(v.g, ChainOf(chains0, k)) && ChainOf(chains0, k) <= v.chains[k]
    && (clean ==> Overlaid(v.g, ss0, ChainOf(chains0, k), v.disk.sectors, v.chains[k], offset, done))
  }

  /** One turn of the write loop: `copy` bytes of `data` from `written` on. */
  method WriteChunk(v: Volume, current: nat, co: nat, data: seq<byte>, written: nat, copy: nat, ghost k: nat,
                    ghost j: nat, ghost ss0: seq<Sector>, ghost chains0: seq<Chain>, ghost offset: nat, ghost clean: bool)
    returns (ok: bool, ghost clean': bool)
    requires written + copy <= |data| && Progress(v, ss0, chains0, k, offset, data[..written], clean)
    requires j < |v.chains[k]| && v.chains[k][j] == current && co + copy <= v.g.ClusterSize()
    requires offset + written == Times(j, v.g.ClusterSize()) + co
    requires copy == v.g.ClusterSize() - co || written + copy == |data|
    modifies v.disk, v.disk.log
    ensures v.Steady() && (!ok ==> !v.Quiet()) && (v.Quiet() && clean ==> clean')
    ensures Progress(v, ss0, chains0, k, offset, data[..written + copy], ok && clean')
    ensures v.chains == old(v.chains)
  {
    ForestFacts(v.g, v.fat[..], v.chains);
    hide Times, Disjoint, Linked, Forest, ClusterBytes, Overlaid, OthersKept, Volume.Synced, Volume.NothingLost;
    var cs := v.g.ClusterSize();
    clean' := clean;
    var cbuf := ZeroBytes(cs);
    if co != 0 || |data| - written < cs {
      var readOk;
      readOk, cbuf := ReadCluster(v, current);
      clean' := clean' && readOk;
    }
    ghost var ss := v.disk.sectors;
    var more := data[written..written + copy];
    ok := WriteCluster(v, current, cbuf[..co] + more + cbuf[co + copy..]);
    assert data[..written] + more == data[..written + copy];
    ChunkDone(v, ss0, chains0, k, j, offset, data[..written], more, co, cbuf, ss, ok && clean');
  }

  /** Progress after the cluster has been written. */
  lemma ChunkDone(v: Volume, ss0: seq<Sector>, chains0: seq<Chain>, k: nat, j: nat, offset: nat, done: seq<byte>,
                  more: seq<byte>, co: nat, cbuf: seq<byte>, ss: seq<Sector>, clean: bool)
    requires v.Valid() && k < |v.chains| && OthersKept(v.g, ss0, chains0, ss, v.chains, k)
    requires InData(v.g, ChainOf(chains0, k)) && ChainOf(chains0, k) <= v.chains[k] && InData(v.g, v.chains[k])
    requires j < |v.chains[k]| && SameOutside(ss, v.disk.sectors, v.g.SectorOf(v.chains[k][j]), v.g.perCluster)
    requires |cbuf| == v.g.ClusterSize() && co + |more| <= |cbuf| && |ss| == |v.disk.sectors|
    requires clean ==> Overlaid(v.g, ss0, ChainOf(chains0, k), ss, v.chains[k], offset, done)
                       && offset + |done| == Times(j, v.g.ClusterSize()) + co
                       && (cbuf == ClusterBytes(v.g, ss, v.chains[k][j]) || (co == 0 && |more| == |cbuf|))
                       && ClusterBytes(v.g, v.disk.sectors, v.chains[k][j]) == cbuf[..co] + more + cbuf[co + |more|..]
    ensures Progress(v, ss0, chains0, k, offset, done + more, clean)
  {
    ForestFacts(v.g, v.fat[..], v.chains);
    hide Times, Disjoint, Linked, Forest, ClusterBytes, Overlaid, OthersKept;
    OtherChainsApart(v.g, ss0, chains0, ss, v.chains, v.disk.sectors, k, j);
    if clean {
      WholeOrRead(ClusterBytes(v.g, ss, v.chains[k][j]), cbuf, more, co);
      ClusterStep(v.g, ss0, ChainOf(chains0, k), ss, v.disk.sectors, v.chains[k], j, offset, done, more, co);
    }
  }

  lemma WholeOrRead(was: seq<byte>, cbuf: seq<byte>, more: seq<byte>, co: nat)
    requires |was| == |cbuf| && co + |more| <= |was|
    requires cbuf == was || (co == 0 && |more| == |was|)
    ensures cbuf[..co] + more + cbuf[co + |more|..] == was[..co] + more + was[co + |more|..]
  {
  }

  /** The file holds `data` at `offset` and elsewhere the bytes it had; a gap
      between the old end and `offset` holds anything. */
  ghost predicate Written(g: Geometry, ss0: seq<Sector>, ch0: Chain, size0: nat, ss: seq<Sector>, ch: Chain, size: nat,
                          offset: nat, data: seq<byte>)
  {
    && g.Fits(|ss0|) && InData(g, ch0) && size0 <= Times(|ch0|, g.ClusterSize())
    && g.Fits(|ss|) && InData(g, ch) && size <= Times(|ch|, g.ClusterSize())
    && size == Max(size0, offset + |data|)
    && var was, now := FileBytes(g, ss0, ch0, size0), FileBytes(g, ss, ch, size);
       && now[offset..offset + |data|] == data
       && (forall i: nat | i < size0 && !(offset <= i < offset + |data|) :: now[i] == was[i])
       && (offset <= size0 ==> now == Patch(was, offset, data))
  }

  lemma OverlayIsPatch(g: Geometry, ss0: seq<Sector>, ch0: Chain, ss: seq<Sector>, ch: Chain,
                       offset: nat, data: seq<byte>, size: nat, size': nat)
    requires Overlaid(g, ss0, ch0, ss, ch, offset, data) && size <= Times(|ch0|, g.ClusterSize())
    requires size' == Max(size, offset + |data|) && size' <= Times(|ch|, g.ClusterSize())
    ensures Written(g, ss0, ch0, size, ss, ch, size', offset, data)
  {
    hide Times, Locate;
    TimesMono(|ch0|, |ch|, g.ClusterSize());
    assert forall i: nat | i < size && !(offset <= i < offset + |data|) ::
        i < Times(|ch|, g.ClusterSize()) && Locate(g, ss, ch, i) == Locate(g, ss0, ch0, i);
  }

  lemma StartProgress(v: Volume, k: nat, offset: nat)
    requires v.Valid()
    ensures OthersKept(v.g, v.disk.sectors, v.chains, v.disk.sectors, v.chains, k)
    ensures InData(v.g, ChainOf(v.chains, k))
    ensures k < |v.chains| ==> Progress(v, v.disk.sectors, v.chains, k, offset, [], true)
  {
    hide Times, Locate, ClusterBytes;
    ForestFacts(v.g, v.fat[..], v.chains);
  }

  lemma ProgressFacts(v: Volume, ss0: seq<Sector>, chains0: seq<Chain>, k: nat, offset: nat,
                      done: seq<byte>, clean: bool)
    requires Progress(v, ss0, chains0, k, offset, done, clean)
    ensures v.Valid() && OthersKept(v.g, ss0, chains0, v.disk.sectors, v.chains, k)
    ensures k < |v.chains| && v.chains[k] != []
  {
    ForestFacts(v.g, v.fat[..], v.chains);
  }

  lemma EndOfSlot(pos: nat, j: nat, co: nat, n: nat, cs: nat)
    requires pos == Times(j, cs) + co && co < cs && j < n
    ensures pos <= Times(n, cs)
  {
    StepFits(j, n, cs);
  }

  /** The first cluster of a file that has none. */
  method FirstCluster(v: Volume, ghost ss0: seq<Sector>, ghost chains0: seq<Chain>, ghost k: nat, ghost offset: nat)
    returns (c: nat)
    requires v.Valid() && v.disk.sectors == ss0 && v.chains == chains0 && k == |chains0|
    requires OthersKept(v.g, ss0, chains0, ss0, chains0, k)
    modifies v, v.disk, v.disk.log, v.fat
    ensures v.Valid() && OthersKept(v.g, ss0, chains0, v.disk.sectors, v.chains, k)
    ensures c != 0 ==> Progress(v, ss0, chains0, k, offset, [], true) && v.chains[k] == [c]
    ensures v.Steady() && (c == 0 ==> !v.Quiet() || v.Full())
  {
    hide Times, Disjoint, Complete, OnDisk, OnSome, ClusterBytes, Linked;
    ghost var taken;
    c, taken := v.AllocCluster();
    GrownByFat(v.g, ss0, chains0, v.disk.sectors, v.chains, k);
    if c != 0 {
      ForestFacts(v.g, v.fat[..], v.chains);
      TimesNext(0, v.g.ClusterSize());
    }
  }

  lemma GrownByFat(g: Geometry, ss: seq<Sector>, chains: seq<Chain>, ss': seq<Sector>, chains': seq<Chain>, k: nat)
    requires g.Fits(|ss|) && SameOutside(ss, ss', g.fatStart, g.fatSectors) && Grew(chains, chains', k)
    ensures OthersKept(g, ss, chains, ss', chains', k)
  {
    hide Times, ClusterBytes;
    forall c: nat | 2 <= c < g.total
      ensures ClusterBytes(g, ss', c) == ClusterBytes(g, ss, c)
    {
      FatWriteKeepsClusters(g, ss, ss', c);
    }
  }

  /** NextCluster inside the write loops. */
  method Follow(v: Volume, current: nat, ghost k: nat, ghost j: nat, ghost ss0: seq<Sector>,
                ghost chains0: seq<Chain>, ghost offset: nat, ghost done: seq<byte>, ghost clean: bool)
    returns (c: nat)
    requires Progress(v, ss0, chains0, k, offset, done, clean)
    requires j < |v.chains[k]| && v.chains[k][j] == current
    requires done == [] || offset + |done| <= Times(|v.chains[k]|, v.g.ClusterSize())
    modifies v, v.disk, v.disk.log, v.fat
    ensures Progress(v, ss0, chains0, k, offset, done, clean)
    ensures v.Steady() && (c == 0 ==> !v.Quiet() || v.Full())
    ensures old(v.chains[k]) <= v.chains[k]
    ensures c != 0 ==> j + 1 < |v.chains[k]| && v.chains[k][j + 1] == c
  {
    hide Times, Disjoint, Linked, Forest, Overlaid, OthersKept, ClusterBytes, SameOutside;
    ghost var ss, chains := v.disk.sectors, v.chains;
    c := NextCluster(v, current, k, j);
    ForestFacts(v.g, v.fat[..], v.chains);
    TimesMono(|ChainOf(chains0, k)|, |chains[k]|, v.g.ClusterSize());
    FatStep(v.g, ss0, chains0, ChainOf(chains0, k), ss, chains, v.disk.sectors, v.chains, k, offset, done);
  }

  lemma FinishWrite(v: Volume, ss0: seq<Sector>, chains0: seq<Chain>, k: nat, offset: nat,
                    data: seq<byte>, clean: bool, size: nat, size': nat)
    requires Progress(v, ss0, chains0, k, offset, data, clean)
    requires size <= Times(|ChainOf(chains0, k)|, v.g.ClusterSize())
    requires size' == Max(size, offset + |data|) && offset + |data| <= Times(|v.chains[k]|, v.g.ClusterSize())
    ensures size' <= Times(|v.chains[k]|, v.g.ClusterSize())
    ensures clean ==> Written(v.g, ss0, ChainOf(chains0, k), size, v.disk.sectors, v.chains[k], size', offset, data)
  {
    ForestFacts(v.g, v.fat[..], v.chains);
    TimesMono(|ChainOf(chains0, k)|, |v.chains[k]|, v.g.ClusterSize());
    if clean {
      hide *;
      OverlayIsPatch(v.g, ss0, ChainOf(chains0, k), v.disk.sectors, v.chains[k], offset, data, size, size');
    }
  }

  /** The first cluster of the file, allocated if it has none. */
  method HeadOf(v: Volume, node: Node, ghost k: nat, ghost offset: nat) returns (c: nat)
    requires v.Valid() && FileChain(v.g, v.chains, k, node.firstCluster, node.size)
    modifies v, v.disk, v.disk.log, v.fat, node`firstCluster
    ensures OthersKept(v.g, old(v.disk.sectors), old(v.chains), v.disk.sectors, v.chains, k) && v.Valid()
    ensures v.Steady() && (c == 0 ==> !v.Quiet() || v.Full())
    ensures node.size <= Times(|ChainOf(old(v.chains), k)|, v.g.ClusterSize())
    ensures c == 0 ==> node.firstCluster == old(node.firstCluster)
    ensures c != 0 ==> Progress(v, old(v.disk.sectors), old(v.chains), k, offset, [], true)
                       && v.chains[k] != [] && v.chains[k][0] == node.firstCluster == c
  {
    ForestFacts(v.g, v.fat[..], v.chains);
    StartProgress(v, k, offset);
    hide Disjoint, Linked, Forest, Volume.Valid, OthersKept, InData, Volume.Steady, Volume.Full;
    c := node.firstCluster;
    if c == 0 || c >= END_OF_CHAIN {
      c := FirstCluster(v, v.disk.sectors, v.chains, k, offset);
      if c != 0 {
        node.firstCluster := c;
      }
    }
  }

  /** What a uint32_t keeps. */
  function Cut32(n: nat): (r: nat)
    ensures r < WORD32 && (n < WORD32 ==> r == n) && r <= n && (n - r) % 0x1_0000_0000 == 0
  {
    n % WORD32
  }

  /** Where a write at `offset` goes: the code keeps the number of clusters to
      skip in 32 bits. */
  function Place(offset: nat, cs: nat): nat
    requires cs > 0
  {
    Times(Cut32(Quot(offset, cs)), cs) + Rem(offset, cs)
  }

  /** Exactly the offsets whose cluster number fits are written to. */
  lemma PlaceIs(offset: nat, cs: nat)
    requires cs > 0
    ensures Place(offset, cs) == offset <==> Quot(offset, cs) < WORD32
    ensures Place(offset, cs) == Times(Cut32(Quot(offset, cs)), cs) + Rem(offset, cs)
    ensures Quot(offset, cs) == WORD32 ==> Place(offset, cs) == Rem(offset, cs) < offset
  {
    Split(offset, cs);
    var q := Quot(offset, cs);
    if q >= WORD32 {
      TimesMono(Cut32(q) + 1, q, cs);
      TimesNext(Cut32(q), cs);
      TimesNext(0, cs);
    }
    hide Times, Quot, Rem;
  }

  /** The size field after a complete write. */
  function SizeAfter(size: nat, end: nat): nat { if end > size then Cut32(end) else size }

  lemma SizeIsEnd(size: nat, end: nat, bound: nat)
    requires Max(size, end) <= bound < WORD32
    ensures SizeAfter(size, end) == Max(size, end)
  {
  }

  lemma ChainIsShort(v: Volume, k: nat)
    requires v.Valid() && k < |v.chains|
    ensures Times(|v.chains[k]|, v.g.ClusterSize()) < WORD32
  {
    ChainLength(v.fat[..], v.g.total, v.chains, k);
    TimesMono(|v.chains[k]|, FAT_ENTRIES, v.g.ClusterSize());
  }

  /** The outcome of a complete write: the data is where the offset was taken to
      lie.  That is the offset itself exactly if its cluster number fits 32 bits,
      and then the size and the chain fit too. */
  ghost predicate Stored(g: Geometry, ss0: seq<Sector>, chains0: seq<Chain>, size0: nat,
                         ss: seq<Sector>, chains: seq<Chain>, size: nat, k: nat, offset: nat, data: seq<byte>, clean: bool)
  {
    && k < |chains| && g.ClusterSize() > 0
    && size == SizeAfter(size0, offset + |data|)
    && var place := Place(offset, g.ClusterSize());
       && (clean ==> Written(g, ss0, ChainOf(chains0, k), size0, ss, chains[k], Max(size0, place + |data|), place, data))
       && (Quot(offset, g.ClusterSize()) < WORD32 <==> place == offset)
       && (place == offset ==> size == Max(size0, offset + |data|) && size <= Times(|chains[k]|, g.ClusterSize()))
  }

  method StoreSize(node: Node, end: nat)
    modifies node`size
    ensures node.size == SizeAfter(old(node.size), end)
  {
    if end > node.size {
      node.size := Cut32(end);
    }
  }

  /** fat32_write: -1 without a first cluster, otherwise the bytes written.
      `complete` means no early return, `clean` that no read failed. */
  method WriteFile(v: Volume, node: Node, offset: nat, data: seq<byte>, ghost k: nat)
    returns (n: int, complete: bool, ghost clean: bool)
    requires v.Valid() && FileChain(v.g, v.chains, k, node.firstCluster, node.size) && |data| < WORD32
    modifies v, v.disk, v.disk.log, v.fat, node
    ensures v.Valid() && v.Steady() && -1 <= n <= |data|
    ensures OthersKept(v.g, old(v.disk.sectors), old(v.chains), v.disk.sectors, v.chains, k)
    ensures n == -1 ==> node.firstCluster == old(node.firstCluster)
    ensures n >= 0 ==> k < |v.chains| && v.chains[k] != [] && v.chains[k][0] == node.firstCluster
    ensures complete ==> n == |data|
    ensures n == |data| > 0 ==> complete
    ensures !complete ==> node.size == old(node.size) && (!v.Quiet() || v.Full())
    ensures v.Quiet() ==> clean
    ensures complete ==> Stored(v.g, old(v.disk.sectors), old(v.chains), old(node.size),
                                v.disk.sectors, v.chains, node.size, k, offset, data, clean)
  {
    hide Times, Quot, Rem, Progress, Written, OthersKept, Volume.Valid, FileChain, ChainOf, Volume.NothingLost,
         Volume.Synced, Overlaid, Forest, Place, Cut32, SizeAfter, Stored, Geometry.Fits, Linked, Disjoint;
    SomeCluster(v);
    ghost var ss0, chains0, size0 := v.disk.sectors, v.chains, node.size;
    var cs: nat := v.g.ClusterSize();
    complete, clean := false, true;
    ghost var place := Place(offset, cs);
    PlaceIs(offset, cs);
    var current := HeadOf(v, node, k, place);
    if current == 0 {
      return -1, complete, clean;
    }
    n, complete, clean := WriteAt(v, current, Cut32(Quot(offset, cs)), Rem(offset, cs), data, k, ss0, chains0, place);
    if n < |data| || !complete {
      return;
    }
    StoredIs(v, ss0, chains0, k, offset, data, clean, size0);
    StoreSize(node, offset + |data|);
  }

  lemma SomeCluster(v: Volume)
    requires v.Valid()
    ensures v.g.ClusterSize() > 0
  {
  }

  lemma StoredIs(v: Volume, ss0: seq<Sector>, chains0: seq<Chain>, k: nat, offset: nat,
                 data: seq<byte>, clean: bool, size: nat)
    requires v.g.ClusterSize() > 0 && Progress(v, ss0, chains0, k, Place(offset, v.g.ClusterSize()), data, clean)
    requires size <= Times(|ChainOf(chains0, k)|, v.g.ClusterSize())
    requires Place(offset, v.g.ClusterSize()) + |data| <= Times(|v.chains[k]|, v.g.ClusterSize())
    ensures Stored(v.g, ss0, chains0, size, v.disk.sectors, v.chains, SizeAfter(size, offset + |data|), k, offset, data, clean)
  {
    var cs := v.g.ClusterSize();
    var place := Place(offset, cs);
    ProgressFacts(v, ss0, chains0, k, place, data, clean);
    hide Times, Quot, Rem, Progress, Written, OthersKept, Volume.Valid, ChainOf, Place, Cut32, SizeAfter;
    PlaceIs(offset, cs);
    FinishWrite(v, ss0, chains0, k, place, data, clean, size, Max(size, place + |data|));
    ChainIsShort(v, k);
    if place == offset {
      SizeIsEnd(size, offset + |data|, Times(|v.chains[k]|, cs));
    }
  }

  /** From the skip loop on. */
  method WriteAt(v: Volume, first: nat, skip: nat, within: nat, data: seq<byte>, ghost k: nat,
                 ghost ss0: seq<Sector>, ghost chains0: seq<Chain>, ghost place: nat)
    returns (n: nat, complete: bool, ghost clean: bool)
    requires Progress(v, ss0, chains0, k, place, [], true)
    requires v.chains[k] != [] && v.chains[k][0] == first && first != 0
    requires within < v.g.ClusterSize() && place == Times(skip, v.g.ClusterSize()) + within
    modifies v, v.disk, v.disk.log, v.fat
    ensures v.Valid() && v.Steady() && n <= |data|
    ensures OthersKept(v.g, ss0, chains0, v.disk.sectors, v.chains, k)
    ensures k < |v.chains| && v.chains[k] != [] && v.chains[k][0] == first
    ensures complete ==> n == |data| && Progress(v, ss0, chains0, k, place, data, clean)
                         && place + |data| <= Times(|v.chains[k]|, v.g.ClusterSize())
    ensures n == |data| > 0 ==> complete
    ensures (v.Quiet() ==> clean) && (!complete ==> !v.Quiet() || v.Full())
  {
    hide Times, Progress, OthersKept, Volume.Valid, ChainOf, Volume.NothingLost, Volume.Synced, Overlaid, Forest;
    n, complete, clean := 0, false, true;
    var current := SkipOrExtend(v, first, skip, k, ss0, chains0, place);
    ProgressFacts(v, ss0, chains0, k, place, [], true);
    if current == 0 {
      return;
    }
    n, clean := WriteRun(v, current, within, data, k, skip, ss0, chains0, place);
    ProgressFacts(v, ss0, chains0, k, place, data[..n], clean);
    complete := n == |data|;
    assert complete ==> data[..n] == data;
  }

  /** The skip loop of fat32_write: follow `n` links, extending the chain. */
  method SkipOrExtend(v: Volume, first: nat, n: nat, ghost k: nat, ghost ss0: seq<Sector>,
                      ghost chains0: seq<Chain>, ghost offset: nat) returns (c: nat)
    requires Progress(v, ss0, chains0, k, offset, [], true)
    requires v.chains[k] != [] && v.chains[k][0] == first && first != 0
    modifies v, v.disk, v.disk.log, v.fat
    ensures Progress(v, ss0, chains0, k, offset, [], true)
    ensures v.Steady() && (c == 0 ==> !v.Quiet() || v.Full())
    ensures v.chains[k] != [] && v.chains[k][0] == first
    ensures c != 0 ==> n < |v.chains[k]| && v.chains[k][n] == c
  {
    hide Times, Disjoint, Linked, Forest, Volume.Valid, Overlaid, OthersKept, InData;
    c := first;
    for i := 0 to n
      invariant Progress(v, ss0, chains0, k, offset, [], true) && v.Steady()
      invariant c != 0
      invariant i < |v.chains[k]| && v.chains[k][i] == c && v.chains[k][0] == first
    {
      c := Follow(v, c, k, i, ss0, chains0, offset, [], true);
      if c == 0 {
        return;
      }
    }
  }

  /** The write loop; fewer bytes than asked mean an early return. */
  method WriteRun(v: Volume, first: nat, within: nat, data: seq<byte>, ghost k: nat, ghost j0: nat,
                  ghost ss0: seq<Sector>, ghost chains0: seq<Chain>, ghost offset: nat)
    returns (written: nat, ghost clean: bool)
    requires Progress(v, ss0, chains0, k, offset, [], true)
    requires j0 < |v.chains[k]| && v.chains[k][j0] == first && within < v.g.ClusterSize()
    requires offset == Times(j0, v.g.ClusterSize()) + within
    modifies v, v.disk, v.disk.log, v.fat
    ensures v.Steady() && (v.Quiet() ==> clean) && (written < |data| ==> !v.Quiet() || v.Full())
    ensures written <= |data| && Progress(v, ss0, chains0, k, offset, data[..written], clean)
    ensures v.chains[k] != [] && v.chains[k][0] == old(v.chains[k][0])
    ensures offset + written <= Times(|v.chains[k]|, v.g.ClusterSize())
  {
    hide Times, Disjoint, Linked, Forest, Volume.Valid, Overlaid, OthersKept, InData;
    var cs := v.g.ClusterSize();
    written, clean := 0, true;
    var current, co: nat := first, within;
    ghost var j: nat := j0;
    ghost var head := v.chains[k][0];
    assert data[..0] == [];
    EndOfSlot(offset, j, co, |v.chains[k]|, cs);
    while written < |data|
      invariant 0 <= written <= |data| && co < cs
      invariant Progress(v, ss0, chains0, k, offset, data[..written], clean)
      invariant v.chains[k] != [] && v.chains[k][0] == head
      invariant v.Steady() && (v.Quiet() ==> clean)
      invariant offset + written <= Times(|v.chains[k]|, cs)
      invariant written < |data| ==> j < |v.chains[k]| && v.chains[k][j] == current
                                     && offset + written == Times(j, cs) + co
      decreases |data| - written
    {
      var copy := cs - co;
      if copy > |data| - written {
        copy := |data| - written;
      }
      var ok;
      ok, clean := WriteChunk(v, current, co, data, written, copy, k, j, ss0, chains0, offset, clean);
      if !ok {
        // The bytes of this turn may be half written: claim nothing of them.
        clean := false;
        Unclean(v, ss0, chains0, k, offset, data[..written + copy], data[..written]);
        return;
      }
      StepFits(j, |v.chains[k]|, cs);
      written := written + copy;
      co := 0;
      if written < |data| {
        current := Follow(v, current, k, j, ss0, chains0, offset, data[..written], clean);
        TimesMono(j + 1, |v.chains[k]|, cs);
        if current == 0 {
          return;
        }
        j := j + 1;
      }
    }
  }

  lemma Unclean(v: Volume, ss0: seq<Sector>, chains0: seq<Chain>, k: nat, offset: nat,
                done: seq<byte>, done': seq<byte>)
    requires Progress(v, ss0, chains0, k, offset, done, false)
    ensures Progress(v, ss0, chains0, k, offset, done', false)
  {
  }

  /** A write to file `k` leaves the bytes of every other file alone. */
  lemma OtherFileUnchanged(g: Geometry, ss: seq<Sector>, chains: seq<Chain>, ss': seq<Sector>, chains': seq<Chain>,
                           k: nat, l: nat, first: nat, size: nat)
    requires OthersKept(g, ss, chains, ss', chains', k) && l != k
    requires OwnsChain(g, chains, l, first, size) && InData(g, chains[l])
    ensures OwnsChain(g, chains', l, first, size) && InData(g, chains'[l])
    ensures FileBytes(g, ss', chains'[l], size) == FileBytes(g, ss, chains[l], size)
  {
    hide Times, ClusterBytes, Quot, Rem;
    forall i: nat | i < size
      ensures Locate(g, ss', chains'[l], i) == Locate(g, ss, chains[l], i)
    {
      QuotBelow(i, |chains[l]|, g.ClusterSize());
    }
  }

  /** fat32_write and then fat32_read of any range: without a failed transfer a read
      after a complete write sees the old bytes patched, and the range written in
      any case. */
  method WriteThenRead(v: Volume, node: Node, offset: nat, data: seq<byte>, at: nat, size: nat, ghost k: nat)
    returns (n: int, buf: seq<byte>)
    requires v.Valid() && FileChain(v.g, v.chains, k, node.firstCluster, node.size) && |data| < WORD32
    modifies v, v.disk, v.disk.log, v.fat, node
    ensures v.Valid() && v.g.ClusterSize() > 0 && -1 <= n <= |data|
    ensures n < |data| ==> !v.Quiet() || v.Full()
    ensures n == |data| && v.Quiet() && Quot(offset, v.g.ClusterSize()) < WORD32 && at == offset && size == |data| ==>
              buf == data
    ensures n == |data| > 0 && v.Quiet() && Quot(offset, v.g.ClusterSize()) < WORD32 ==>
              && OldBytes(v.g, old(v.disk.sectors), ChainOf(old(v.chains), k), old(node.size))
              && var was := FileBytes(v.g, old(v.disk.sectors), ChainOf(old(v.chains), k), old(node.size));
                 && (offset <= |was| ==> buf == Slice(Patch(was, offset, data), at, size))
                 && (at + size <= |was| && (at + size <= offset || offset + |data| <= at) ==> buf == Slice(was, at, size))
  {
    hide Times, Quot, Rem, Written, OthersKept, Volume.Valid, FileChain, ChainOf, FileBytes, Volume.Synced, Volume.NothingLost,
         Place, Cut32, SizeAfter, Stored, Geometry.Fits, InData, OldBytes, Patch, Slice;
    ghost var ss0, chains0, size0 := v.disk.sectors, v.chains, node.size;
    SomeCluster(v);
    var complete;
    ghost var clean;
    n, complete, clean := WriteFile(v, node, offset, data, k);
    buf := [];
    if n == |data| {
      if complete && clean && Quot(offset, v.g.ClusterSize()) < WORD32 {
        StoredReads(v.g, ss0, chains0, size0, v.disk.sectors, v.chains, node.size, k, offset, data, at, size);
      }
      buf := ReadFile(v, node, at, size, k);
      EmptySlices();
    }
  }

  lemma EmptySlices()
    ensures forall bytes: seq<byte>, at: nat :: Slice(bytes, at, 0) == []
  {
  }

  /** What FileBytes asks for. */
  ghost predicate OldBytes(g: Geometry, ss: seq<Sector>, ch: Chain, size: nat) {
    g.Fits(|ss|) && InData(g, ch) && size <= Times(|ch|, g.ClusterSize())
  }

  /** Any range of the file just written. */
  lemma StoredReads(g: Geometry, ss0: seq<Sector>, chains0: seq<Chain>, size0: nat,
                    ss: seq<Sector>, chains: seq<Chain>, size: nat, k: nat, offset: nat, data: seq<byte>, at: nat, n: nat)
    requires Stored(g, ss0, chains0, size0, ss, chains, size, k, offset, data, true)
    requires Quot(offset, g.ClusterSize()) < WORD32
    ensures k < |chains| && g.Fits(|ss|) && InData(g, chains[k]) && Reachable(g, chains[k], size) == size
    ensures OldBytes(g, ss0, ChainOf(chains0, k), size0) && size == Max(size0, offset + |data|)
    ensures var was, now := FileBytes(g, ss0, ChainOf(chains0, k), size0), FileBytes(g, ss, chains[k], size);
            && Slice(now, offset, |data|) == data
            && (offset <= |was| ==> now == Patch(was, offset, data))
            && (at + n <= |was| && (at + n <= offset || offset + |data| <= at) ==> Slice(now, at, n) == Slice(was, at, n))
  {
    hide Times, Quot, Rem, FileBytes, Place, Cut32, SizeAfter, Geometry.Fits, InData, ChainOf, Patch;
    var was, now := FileBytes(g, ss0, ChainOf(chains0, k), size0), FileBytes(g, ss, chains[k], size);
    assert |now| == size && now[offset..offset + |data|] == data;
    if at + n <= |was| && (at + n <= offset || offset + |data| <= at) {
      assert forall i :: 0 <= i < n ==> Slice(now, at, n)[i] == now[at + i] == was[at + i] == Slice(was, at, n)[i];
    }
  }
}
