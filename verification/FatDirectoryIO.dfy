/** fat32_finddir and fat32_create_entry over the clusters of a directory
    (fat32_vfs.c). */
module FatDirectoryIO {
  import opened Basics
  import opened SectorDisk
  import opened FatTable
  import opened FatFile
  import opened FatFileIO
  import opened FatFileWrite
  import opened FatNames
  import opened FatDirectory
  import opened FatCreateEntry

  function SlotsPer(g: Geometry): nat { 16 * g.perCluster }

  /** A cluster buffer seen as directory slots, and back. */
  function Slots(buf: seq<byte>): (c: seq<Slot>)
    requires |buf| % SLOT == 0
    ensures SLOT * |c| == |buf|
  {
    seq(|buf| / SLOT, i requires 0 <= i < |buf| / SLOT => buf[i * SLOT..i * SLOT + SLOT])
  }

  function Unslots(c: seq<Slot>): (b: seq<byte>)
    ensures |b| == SLOT * |c|
  {
    seq(SLOT * |c|, i requires 0 <= i < SLOT * |c| => c[i / SLOT][i % SLOT])
  }

  lemma SlotsTrip(c: seq<Slot>)
    ensures Slots(Unslots(c)) == c
  {
    var b := Unslots(c);
    forall i | 0 <= i < |c|
      ensures Slots(b)[i] == c[i]
    {
      forall o | 0 <= o < SLOT
        ensures b[i * SLOT + o] == c[i][o]
      {
      }
    }
  }

  ghost function ClusterSlots(g: Geometry, ss: seq<Sector>, c: nat): (s: seq<Slot>)
    requires g.Fits(|ss|) && 2 <= c < g.total
    ensures |s| == SlotsPer(g)
  {
    Slots(ClusterBytes(g, ss, c))
  }

  ghost function DirOf(g: Geometry, ss: seq<Sector>, ch: Chain): (d: Dir)
    requires g.Fits(|ss|) && InData(g, ch)
    ensures |d| == |ch| && Uniform(d, SlotsPer(g))
    ensures forall i :: 0 <= i < |ch| ==> d[i] == ClusterSlots(g, ss, ch[i])
  {
    seq(|ch|, i requires 0 <= i < |ch| => ClusterSlots(g, ss, ch[i]))
  }

  lemma {:induction false} FlatAt(d: Dir, e: nat, k: nat, i: nat)
    requires Uniform(d, e) && k < |d| && i < e
    ensures Times(k, e) + i < |Flat(d)| == Times(|d|, e) && Flat(d)[Times(k, e) + i] == d[k][i]
    decreases |d|
  {
    hide Times;
    assert Uniform(d[1..], e);
    FlatLength(d[1..], e);
    TimesNext(|d| - 1, e);
    TimesMono(k + 1, |d|, e);
    TimesNext(k, e);
    if k > 0 {
      TimesNext(k - 1, e);
      FlatAt(d[1..], e, k - 1, i);
    }
  }

  lemma {:induction false} FlatLength(d: Dir, e: nat)
    requires Uniform(d, e)
    ensures |Flat(d)| == Times(|d|, e)
  {
    hide Times;
    if d != [] {
      FlatLength(d[1..], e);
      TimesNext(|d| - 1, e);
    } else {
      TimesNext(0, e);
    }
  }

  /** Slot `i` of the directory's cluster number `k` is bytes 32 * i to 32 * i + 31 of
      that cluster on the disk. */
  lemma SlotLies(g: Geometry, ss: seq<Sector>, ch: Chain, k: nat, i: nat, o: nat)
    requires g.Fits(|ss|) && InData(g, ch) && k < |ch| && i < SlotsPer(g) && o < 32
    ensures Times(k, SlotsPer(g)) + i < |Flat(DirOf(g, ss, ch))|
    ensures LiesAt(g, ss, ch, Times(k, 512 * g.perCluster) + (32 * i + o),
                   Flat(DirOf(g, ss, ch))[Times(k, SlotsPer(g)) + i][o])
  {
    hide LiesAt, Flat, ClusterBytes, DirOf, Geometry.Fits, InData, Times;
    SlotOf(g, ss, ch, k, i, o);
    LocateAt(g, ss, ch, k, 32 * i + o);
    LocateLies(g, ss, ch, Times(k, g.ClusterSize()) + (32 * i + o));
  }

  lemma SlotOf(g: Geometry, ss: seq<Sector>, ch: Chain, k: nat, i: nat, o: nat)
    requires g.Fits(|ss|) && InData(g, ch) && k < |ch| && i < SlotsPer(g) && o < 32
    ensures Times(k, SlotsPer(g)) + i < |Flat(DirOf(g, ss, ch))|
    ensures Flat(DirOf(g, ss, ch))[Times(k, SlotsPer(g)) + i][o] == ClusterBytes(g, ss, ch[k])[32 * i + o]
  {
    hide Flat, ClusterBytes, Slots, Geometry.Fits, Times;
    FlatAt(DirOf(g, ss, ch), SlotsPer(g), k, i);
    SlotByte(ClusterBytes(g, ss, ch[k]), i, o);
  }

  lemma SlotByte(buf: seq<byte>, i: nat, o: nat)
    requires |buf| % SLOT == 0 && i < |buf| / SLOT && o < SLOT
    ensures Slots(buf)[i][o] == buf[32 * i + o]
  {
  }

  // ---------------------------------------------------------------------------
  // fat32_finddir
  // ---------------------------------------------------------------------------

  method Clear(lfn: array<byte>)
    requires lfn.Length == LFN_BUF
    modifies lfn
    ensures lfn[..] == ZeroBytes(LFN_BUF)
  {
    for i := 0 to LFN_BUF
      invariant forall k :: 0 <= k < i ==> lfn[k] == 0
    {
      lfn[i] := 0;
    }
  }

  /** The copy loops for one chunk of a long name. */
  method CopyChunk(s: Slot, lfn: array<byte>, idx: nat)
    requires lfn.Length == LFN_BUF && idx < LFN_LIMIT
    modifies lfn
    ensures lfn[..] == StoreChunk(old(lfn[..]), idx, DecodeChunk(s))
  {
    ghost var chunk := DecodeChunk(s);
    hide DecodeChunk, DecodeChar;
    for k := 0 to CHUNK
      invariant forall i :: 0 <= i < k ==> lfn[idx + i] == chunk[i]
      invariant forall i :: 0 <= i < LFN_BUF && !(idx <= i < idx + k) ==> lfn[i] == old(lfn[i])
    {
      lfn[idx + k] := DecodeChar(s, k);
    }
    assert lfn[..idx] == old(lfn[..])[..idx];
    assert lfn[idx..idx + CHUNK] == chunk;
    assert lfn[idx + CHUNK..] == old(lfn[..])[idx + CHUNK..];
    assert lfn[..] == lfn[..idx] + lfn[idx..idx + CHUNK] + lfn[idx + CHUNK..];
  }

  /** The long-name branch of the slot loop. */
  method TakeLongName(s: Slot, lfn: array<byte>, sum: int) returns (sum': int)
    requires lfn.Length == LFN_BUF
    modifies lfn
    ensures ScanState(lfn[..], sum') == LongName(s, ScanState(old(lfn[..]), sum))
  {
    sum' := sum;
    if s[0] / 64 % 2 == 1 {
      Clear(lfn);
      sum' := s[13];
    }
    var idx := (s[0] % 64 - 1) * CHUNK;
    if 0 <= idx < LFN_LIMIT {
      CopyChunk(s, lfn, idx);
    }
  }

  /** One turn of the slot loop. */
  method VisitSlot(s: Slot, lfn: array<byte>, sum: int, name: Name) returns (stop: bool, hit: bool, sum': int)
    requires lfn.Length == LFN_BUF
    modifies lfn
    ensures var v := ScanSlot(s, ScanState(old(lfn[..]), sum), name);
            && (stop <==> v.Stop?) && (hit <==> v.Hit?)
            && (v.Next? ==> v.st == ScanState(lfn[..], sum'))
  {
    stop, hit, sum' := false, false, sum;
    if s[0] == 0 {
      stop := true;
    } else if SignedChar(s[0]) == 0xE5 {
      sum' := -1;
      Clear(lfn);
    } else if IsLongName(s) {
      sum' := TakeLongName(s, lfn, sum);
    } else if IsVolume(s) {
      sum' := -1;
    } else {
      hide LongName;
      var check := LfnChecksum(s[..11]);
      if lfn[0] != 0 && check == sum {
        hit := StrCaseCmpIsZero(name, CString(lfn[..]));
      }
      if !hit {
        hit := StrCaseCmpIsZero(name, CString(ToNormal(s[..11])));
      }
      if !hit {
        sum' := -1;
        Clear(lfn);
      }
    }
  }

  /** The slot loop over one cluster. */
  method ScanCluster(c: seq<Slot>, lfn: array<byte>, sum: int, name: Name)
    returns (done: bool, hit: Option<nat>, sum': int)
    requires lfn.Length == LFN_BUF
    modifies lfn
    ensures var r := Scan(c, 0, ScanState(old(lfn[..]), sum), name);
            match r
            case Found(at) => done && hit == Some(at)
            case Ended => done && hit == None
            case Exhausted(st) => !done && st == ScanState(lfn[..], sum')
  {
    sum' := sum;
    for i := 0 to |c|
      invariant Scan(c, 0, ScanState(old(lfn[..]), sum), name) == Scan(c, i, ScanState(lfn[..], sum'), name)
    {
      var stop, found;
      stop, found, sum' := VisitSlot(c[i], lfn, sum', name);
      if stop {
        return true, None, sum';
      }
      if found {
        return true, Some(i), sum';
      }
      hide ScanSlot;
    }
    done, hit := false, None;
  }

  lemma {:induction false} FlatSplit(a: Dir, b: Dir)
    ensures Flat(a + b) == Flat(a) + Flat(b)
  {
    hide Flat;
    FlatCons(a);
    FlatCons(a + b);
    if a == [] {
      assert a + b == b;
    } else {
      FlatSplit(a[1..], b);
      assert (a + b)[0] == a[0] && (a + b)[1..] == a[1..] + b;
      Regroup(a[0], Flat(a[1..]), Flat(b));
    }
  }

  lemma FlatCons(a: Dir)
    ensures Flat(a) == if a == [] then [] else a[0] + Flat(a[1..])
  {
  }

  function Shift(r: Outcome, n: nat): Outcome {
    if r.Found? then Found(n + r.at) else r
  }

  lemma {:induction false} ScanShift(a: seq<Slot>, c: seq<Slot>, i: nat, st: ScanState, name: Name)
    requires GoodState(st) && i <= |c|
    ensures Scan(a + c, |a| + i, st, name) == Shift(Scan(c, i, st, name), |a|)
    decreases |c| - i
  {
    if i < |c| {
      assert (a + c)[|a| + i] == c[i];
      match ScanSlot(c[i], st, name)
      case Next(st') => ScanShift(a, c, i + 1, st', name);
      case _ =>
    }
  }

  /** One cluster further in the scan of a whole directory. */
  lemma ScanOneMore(dir: Dir, j: nat, st: ScanState, name: Name)
    requires j < |dir| && GoodState(st) && Lookup(Flat(dir[..j]), name) == Exhausted(st)
    ensures var r := Scan(dir[j], 0, st, name);
            && (r.Exhausted? ==> Lookup(Flat(dir[..j + 1]), name) == r)
            && (r.Ended? ==> Lookup(Flat(dir), name) == Ended)
            && (r.Found? ==>
                  var at := |Flat(dir[..j])| + r.at;
                  Lookup(Flat(dir), name) == Found(at) && at < |Flat(dir)| && Flat(dir)[at] == dir[j][r.at])
  {
    hide ScanSlot;
    var a, c, b := Flat(dir[..j]), dir[j], Flat(dir[j + 1..]);
    FlatSplit(dir[..j], [c]);
    assert dir[..j] + [c] == dir[..j + 1] && Flat([c]) == c + Flat([]) == c;
    FlatSplit(dir[..j + 1], dir[j + 1..]);
    assert dir[..j + 1] + dir[j + 1..] == dir;
    ScanPrefix(a, c, 0, Fresh(), name);
    ScanShift(a, c, 0, st, name);
    ScanPrefix(a + c, b, 0, Fresh(), name);
  }

  method ReadSlots(v: Volume, c: nat) returns (ok: bool, slots: seq<Slot>)
    requires v.g.Fits(|v.disk.sectors|) && 2 <= c < v.g.total
    modifies v.disk.log
    ensures v.Steady() && (ok <==> v.Quiet())
    ensures |slots| == SlotsPer(v.g)
    ensures ok ==> slots == ClusterSlots(v.g, v.disk.sectors, c)
  {
    hide Geometry.Fits, ClusterBytes;
    var buf;
    ok, buf := ReadCluster(v, c);
    slots := Slots(buf);
  }

  method FollowLink(v: Volume, c: nat, ghost ch: Chain, ghost j: nat) returns (next: nat)
    requires v.fat.Length == FAT_ENTRIES && Linked(v.fat[..], v.g.total, ch) && j < |ch| && ch[j] == c
    ensures if next < END_OF_CHAIN then j + 1 < |ch| && next == ch[j + 1] && 2 <= next < v.g.total else j + 1 == |ch|
  {
    hide Linked;
    NextInChain(v.fat[..], v.g.total, ch, j);
    next := v.GetEntry(c);
    if j + 1 < |ch| {
      NextInChain(v.fat[..], v.g.total, ch, j + 1);
    }
  }

  /** fat32_finddir; a failed read gives up. */
  method FindDir(v: Volume, first: nat, name: Name, ghost k: nat)
    returns (found: bool, entry: Slot)
    requires v.Valid() && k < |v.chains| && v.chains[k] != [] && v.chains[k][0] == first
    modifies v.disk.log
    ensures v.Valid() && v.Steady() && InData(v.g, v.chains[k])
    ensures var f := Flat(DirOf(v.g, v.disk.sectors, v.chains[k]));
            && (found ==> IsEntry(f, name, entry))
            && (!found && v.Quiet() ==> !Lookup(f, name).Found?)
  {
    ChainFacts(v.g, v.fat[..], v.chains, k);
    assert v.g.Fits(|v.disk.sectors|) && v.fat.Length == FAT_ENTRIES;
    hide *;
    var lfn := new byte[LFN_BUF];
    found, entry := FindInChain(v, first, name, lfn, v.chains[k], DirOf(v.g, v.disk.sectors, v.chains[k]));
  }

  /** `entry` is the slot the scan of `f` finds. */
  ghost predicate IsEntry(f: seq<Slot>, name: Name, entry: Slot) {
    var r := Lookup(f, name);
    r.Found? && r.at < |f| && entry == f[r.at]
  }

  /** One turn of the cluster loop. */
  method ScanNext(c: seq<Slot>, lfn: array<byte>, sum: int, name: Name, ghost dir: Dir, ghost j: nat)
    returns (done: bool, found: bool, entry: Slot, sum': int)
    requires lfn.Length == LFN_BUF && j < |dir| && c == dir[j]
    requires Lookup(Flat(dir[..j]), name) == Exhausted(ScanState(lfn[..], sum))
    modifies lfn
    ensures found ==> done && IsEntry(Flat(dir), name, entry)
    ensures done && !found ==> Lookup(Flat(dir), name) == Ended
    ensures !done ==> Lookup(Flat(dir[..j + 1]), name) == Exhausted(ScanState(lfn[..], sum'))
  {
    hide *;
    ScanOneMore(dir, j, ScanState(lfn[..], sum), name);
    var hit;
    done, hit, sum' := ScanCluster(c, lfn, sum, name);
    found, entry := false, ZeroBytes(SLOT);
    if done && hit.Some? {
      found, entry := true, c[hit.value];
      EntryAt(Flat(dir), name, |Flat(dir[..j])| + hit.value, entry);
    }
  }

  lemma EntryAt(f: seq<Slot>, name: Name, at: nat, entry: Slot)
    requires Lookup(f, name) == Found(at) && at < |f| && entry == f[at]
    ensures IsEntry(f, name, entry)
  {
  }

  /** The cluster loop. */
  method FindInChain(v: Volume, first: nat, name: Name, lfn: array<byte>, ghost ch: Chain, ghost dir: Dir)
    returns (found: bool, entry: Slot)
    requires v.g.Fits(|v.disk.sectors|) && v.fat.Length == FAT_ENTRIES && lfn.Length == LFN_BUF
    requires Linked(v.fat[..], v.g.total, ch) && InData(v.g, ch) && ch[0] == first
    requires dir == DirOf(v.g, v.disk.sectors, ch)
    modifies lfn, v.disk.log
    ensures v.Steady()
    ensures found ==> IsEntry(Flat(dir), name, entry)
    ensures !found && v.Quiet() ==> !Lookup(Flat(dir), name).Found?
  {
    assert 0 < |ch| && 2 <= first < v.g.total && first < END_OF_CHAIN;
    hide *;
    Clear(lfn);
    var sum := -1;
    entry := ZeroBytes(SLOT);
    found := false;
    var current := first;
    ghost var j: nat := 0;
    assert dir[..0] == [];
    NothingScanned(name);
    while current < END_OF_CHAIN
      invariant if current < END_OF_CHAIN then j < |ch| && current == ch[j] && 2 <= current < v.g.total else j == |ch|
      invariant v.Steady() && v.Quiet()
      invariant !found && Lookup(Flat(dir[..j]), name) == Exhausted(ScanState(lfn[..], sum))
      decreases |ch| - j
    {
      var ok, c := ReadSlots(v, current);
      if !ok {
        return;
      }
      var done;
      done, found, entry, sum := ScanNext(c, lfn, sum, name, dir, j);
      if done {
        return;
      }
      current := FollowLink(v, current, ch, j);
      j := j + 1;
    }
    assert dir[..|ch|] == dir;
  }

  lemma NothingScanned(name: Name)
    ensures Lookup(Flat([]), name) == Exhausted(ScanState(ZeroBytes(LFN_BUF), -1))
  {
  }

  /** What the node made from an entry carries. */
  datatype Child = Child(size: nat, firstCluster: nat, directory: bool)

  function ChildOf(s: Slot): Child {
    Child(Little(s[28], s[29], s[30], s[31]), Little(s[26], s[27], s[20], s[21]), s[11] / 16 % 2 == 1)
  }

  /** Every field of the node, from the bytes of the entry. */
  lemma ChildFields(s: Slot, b: bv8)
    requires s[11] == b as nat
    ensures var c := ChildOf(s);
            && c.size == s[28] + 0x100 * (s[29] as nat) + 0x1_0000 * (s[30] as nat) + 0x100_0000 * (s[31] as nat)
            && c.firstCluster == s[26] + 0x100 * (s[27] as nat) + 0x1_0000 * (s[20] as nat) + 0x100_0000 * (s[21] as nat)
            && (c.directory <==> b & 0x10 != 0)
  {
    AttributeBits(s, b);
  }

  /** The bytes of an entry that a new node gets its fields from: no size, and the
      first cluster in two halves. */
  predicate NewEntry(s: Slot, attr: byte, first: nat) {
    && s[11] == attr && s[28] == s[29] == s[30] == s[31] == 0
    && s[26] == LittleByte(first, 0) && s[27] == LittleByte(first, 1) && s[20] == LittleByte(first, 2) && s[21] == LittleByte(first, 3)
  }

  lemma EntryBytes(short: seq<byte>, attr: byte, first: nat)
    requires |short| == 11
    ensures NewEntry(ShortSlot(short, attr, first), attr, first)
  {
    hide LittleByte;
  }

  /** A new entry reads back as an empty file or directory at `first`. */
  lemma EntryReadsBack(s: Slot, attr: byte, first: nat)
    requires NewEntry(s, attr, first) && attr in ENTRY_ATTRS && first < 0x1_0000_0000
    ensures ChildOf(s) == Child(0, first, attr == FAT_ATTR_DIRECTORY)
  {
    hide LittleByte, Little;
    LittleBytes(first);
    NoBytes();
  }

  lemma NoBytes()
    ensures Little(0, 0, 0, 0) == 0
  {
  }

  // ---------------------------------------------------------------------------
  // fat32_create_entry
  // ---------------------------------------------------------------------------

  /** The search for consecutive free slots in one cluster. */
  method FindFree(c: seq<Slot>, needed: nat) returns (r: Option<nat>)
    requires 1 <= needed
    ensures r == FindRun(c, 0, needed)
  {
    hide IsFree;
    for i := 0 to |c|
      invariant FindRun(c, 0, needed) == FindRun(c, i, needed)
    {
      if IsFree(c[i]) {
        var free, j: nat := 0, i;
        while j < |c|
          invariant i <= j <= |c| && free < needed && FreeRun(c, i) == free + FreeRun(c, j)
        {
          if !IsFree(c[j]) {
            break;
          }
          free, j := free + 1, j + 1;
          if free == needed {
            return Some(i);
          }
        }
      }
    }
    r := None;
  }

  /** The entry goes to slot `start` of cluster `j` of `dir1`, which is the
      directory or the directory and a zeroed cluster. */
  ghost predicate Target(dir: Dir, needed: nat, e: nat, dir1: Dir, j: nat, start: nat) {
    && 1 <= needed && j < |dir1|
    && (forall i :: 0 <= i < j && i < |dir| ==> FindRun(dir[i], 0, needed) == None)
    && if j < |dir| then dir1 == dir && FindRun(dir[j], 0, needed) == Some(start)
       else j == |dir| && dir1 == dir + [EmptyCluster(e)] && start == 0
  }

  lemma {:induction false} CreatedAt(dir: Dir, slots: seq<Slot>, e: nat, dir1: Dir, j: nat, start: nat)
    requires Target(dir, |slots|, e, dir1, j, start)
    ensures start <= |dir1[j]| && Created(dir, slots, e) == dir1[j := Put(dir1[j], start, slots)]
    decreases |dir|
  {
    hide Put, FreeRun, EmptyCluster;
    if dir == [] {
      assert dir1 == [EmptyCluster(e)];
    } else if j == 0 {
      assert dir1 == [dir[0]] + dir[1..];
    } else {
      var dir2 := dir1[1..];
      assert j == |dir| ==> dir2 == dir[1..] + [EmptyCluster(e)];
      forall i | 0 <= i < j - 1 && i < |dir| - 1
        ensures FindRun(dir[1..][i], 0, |slots|) == None
      {
        assert dir[1..][i] == dir[i + 1];
      }
      CreatedAt(dir[1..], slots, e, dir2, j - 1, start);
      assert FindRun(dir[0], 0, |slots|) == None;
      assert dir1 == [dir[0]] + dir2;
    }
  }

  method SearchCluster(v: Volume, current: nat, needed: nat, ghost ch: Chain, ghost dir: Dir, ghost j: nat)
    returns (ok: bool, free: Option<nat>)
    requires v.g.Fits(|v.disk.sectors|) && InData(v.g, ch) && dir == DirOf(v.g, v.disk.sectors, ch)
    requires 1 <= needed && j < |ch| && current == ch[j] && 2 <= current < v.g.total
    modifies v.disk.log
    ensures v.Steady() && (ok <==> v.Quiet()) && |dir| == |ch|
    ensures ok ==> free == FindRun(dir[j], 0, needed)
  {
    hide FindRun, FreeRun, ClusterSlots;
    var c;
    ok, c := ReadSlots(v, current);
    free := FindFree(c, needed);
  }

  lemma TargetHere(g: Geometry, dir: Dir, needed: nat, j: nat, start: nat)
    requires 1 <= needed && j < |dir| && FindRun(dir[j], 0, needed) == Some(start)
    requires forall i :: 0 <= i < j ==> FindRun(dir[i], 0, needed) == None
    ensures Target(dir, needed, SlotsPer(g), dir, j, start)
  {
  }

  lemma ChainHead(fat: seq<u32>, total: nat, ch: Chain)
    requires Linked(fat, total, ch)
    ensures 0 < |ch| && 2 <= ch[0] < total && ch[0] < END_OF_CHAIN
  {
  }

  datatype SearchResult = Spot(target: nat, start: nat) | Full(last: nat) | ReadError

  /** The cluster loop of the search. */
  method Search(v: Volume, first: nat, needed: nat, ghost ch: Chain, ghost dir: Dir)
    returns (r: SearchResult, ghost j: nat)
    requires v.g.Fits(|v.disk.sectors|) && v.fat.Length == FAT_ENTRIES && 1 <= needed
    requires Linked(v.fat[..], v.g.total, ch) && InData(v.g, ch) && ch[0] == first
    requires dir == DirOf(v.g, v.disk.sectors, ch)
    modifies v.disk.log
    ensures v.Steady() && (v.Quiet() ==> !r.ReadError?)
    ensures r.Spot? ==> j < |ch| && ch[j] == r.target && Target(dir, needed, SlotsPer(v.g), dir, j, r.start)
    ensures r.Full? ==> r.last == ch[|ch| - 1]
                        && forall i :: 0 <= i < |ch| ==> FindRun(dir[i], 0, needed) == None
  {
    hide Linked, InData, Geometry.Fits, ClusterSlots, FindRun, FreeRun, DirOf, Target, SlotsPer, Volume.Synced,
         Volume.NothingLost;
    ChainHead(v.fat[..], v.g.total, ch);
    var current := first;
    j := 0;
    while current < END_OF_CHAIN
      invariant j < |ch| && current == ch[j] && 2 <= current < v.g.total && current < END_OF_CHAIN
      invariant v.Steady() && v.Quiet()
      invariant forall i :: 0 <= i < j ==> FindRun(dir[i], 0, needed) == None
      decreases |ch| - j
    {
      var ok, free := SearchCluster(v, current, needed, ch, dir, j);
      if !ok {
        return ReadError, j;
      }
      if free.Some? {
        TargetHere(v.g, dir, needed, j, free.value);
        return Spot(current, free.value), j;
      }
      var next := FollowLink(v, current, ch, j);
      if next >= END_OF_CHAIN {
        return Full(current), j;
      }
      current, j := next, j + 1;
    }
    r := ReadError;
  }

  /** Nothing the volume held has changed but for chain `k` growing. */
  ghost predicate Laid(v: Volume, ss0: seq<Sector>, chains0: seq<Chain>, k: nat)
    reads v, v.disk, v.fat
  {
    && v.Valid() && k < |chains0| && k < |v.chains|
    && OthersKept(v.g, ss0, chains0, v.disk.sectors, v.chains, k)
    && InData(v.g, chains0[k]) && InData(v.g, v.chains[k])
    && DirOf(v.g, ss0, chains0[k]) <= DirOf(v.g, v.disk.sectors, v.chains[k])
  }

  lemma SameDir(g: Geometry, ss: seq<Sector>, ss': seq<Sector>, ch: Chain, ch': Chain)
    requires g.Fits(|ss|) && |ss'| == |ss| && InData(g, ch) && InData(g, ch') && ch <= ch'
    requires forall i :: 0 <= i < |ch| ==> ClusterBytes(g, ss', ch[i]) == ClusterBytes(g, ss, ch[i])
    ensures DirOf(g, ss, ch) <= DirOf(g, ss', ch')
  {
    hide Geometry.Fits, ClusterBytes;
  }

  /** FAT writes that grow chains. */
  lemma LaidByFat(v: Volume, ss0: seq<Sector>, chains0: seq<Chain>, k: nat, ss: seq<Sector>, chains: seq<Chain>)
    requires v.Valid() && k < |chains0| && k < |chains|
    requires OthersKept(v.g, ss0, chains0, ss, chains, k) && InData(v.g, chains0[k]) && InData(v.g, chains[k])
    requires DirOf(v.g, ss0, chains0[k]) <= DirOf(v.g, ss, chains[k])
    requires SameOutside(ss, v.disk.sectors, v.g.fatStart, v.g.fatSectors) && Grew(chains, v.chains, k)
    ensures Laid(v, ss0, chains0, k)
    ensures DirOf(v.g, ss, chains[k]) <= DirOf(v.g, v.disk.sectors, v.chains[k])
  {
    hide Times, ClusterBytes;
    ForestFacts(v.g, v.fat[..], v.chains);
    hide Forest;
    GrewTrans(chains0, chains, v.chains, k);
    forall c: nat | 2 <= c < v.g.total
      ensures ClusterBytes(v.g, v.disk.sectors, c) == ClusterBytes(v.g, ss, c)
    {
      FatWriteKeepsClusters(v.g, ss, v.disk.sectors, c);
    }
    SameDir(v.g, ss, v.disk.sectors, chains[k], v.chains[k]);
  }

  /** Writing cluster `j` of chain `m` moves no other cluster of any chain. */
  lemma WriteApart(g: Geometry, chains: seq<Chain>, ss: seq<Sector>, ss': seq<Sector>, m: nat, j: nat, l: nat, i: nat)
    requires g.Fits(|ss|) && Disjoint(chains) && m < |chains| && j < |chains[m]| && l < |chains| && i < |chains[l]|
    requires 2 <= chains[m][j] < g.total && 2 <= chains[l][i] < g.total && (l != m || i != j)
    requires SameOutside(ss, ss', g.SectorOf(chains[m][j]), g.perCluster)
    ensures |ss'| == |ss| && ClusterBytes(g, ss', chains[l][i]) == ClusterBytes(g, ss, chains[l][i])
  {
    assert chains[l][i] != chains[m][j];
    hide ClusterBytes, Times;
    ClusterWriteKeeps(g, ss, ss', chains[m][j], chains[l][i]);
  }

  /** Writing a cluster that no chain of the start owns. */
  lemma LaidByWrite(v: Volume, ss0: seq<Sector>, chains0: seq<Chain>, k: nat, ss: seq<Sector>, m: nat, j: nat)
    requires v.Valid() && k < |chains0| && k < |v.chains|
    requires OthersKept(v.g, ss0, chains0, ss, v.chains, k) && InData(v.g, chains0[k]) && InData(v.g, v.chains[k])
    requires DirOf(v.g, ss0, chains0[k]) <= DirOf(v.g, ss, v.chains[k])
    requires m < |v.chains| && j < |v.chains[m]| && 2 <= v.chains[m][j] < v.g.total
    requires m >= |chains0| || (m == k && j >= |chains0[k]|)
    requires SameOutside(ss, v.disk.sectors, v.g.SectorOf(v.chains[m][j]), v.g.perCluster)
    ensures Laid(v, ss0, chains0, k)
    ensures m != k ==> DirOf(v.g, v.disk.sectors, v.chains[k]) == DirOf(v.g, ss, v.chains[k])
    ensures m == k ==> DirOf(v.g, ss, v.chains[k])[..j] <= DirOf(v.g, v.disk.sectors, v.chains[k])
  {
    ForestFacts(v.g, v.fat[..], v.chains);
    hide Times, ClusterBytes, Forest, Linked, Disjoint;
    var g, ss' := v.g, v.disk.sectors;
    forall l, i | 0 <= l < |v.chains| && 0 <= i < |v.chains[l]| && (l != m || i != j)
      ensures ClusterBytes(g, ss', v.chains[l][i]) == ClusterBytes(g, ss, v.chains[l][i])
    {
      assert InData(g, v.chains[l]);
      WriteApart(g, v.chains, ss, ss', m, j, l, i);
    }
    var d, d' := DirOf(g, ss, v.chains[k]), DirOf(g, ss', v.chains[k]);
    assert forall i :: 0 <= i < |v.chains[k]| && (m != k || i != j) ==> d'[i] == d[i];
  }

  lemma StartLaid(v: Volume, k: nat)
    requires v.Valid() && k < |v.chains|
    ensures Laid(v, v.disk.sectors, v.chains, k)
  {
    StartProgress(v, k, 0);
    hide OthersKept, ClusterSlots;
  }

  lemma ZeroSlots(n: nat)
    ensures Slots(ZeroBytes(SLOT * n)) == EmptyCluster(n)
  {
    forall i | 0 <= i < n
      ensures Slots(ZeroBytes(SLOT * n))[i] == EmptyCluster(n)[i]
    {
      assert Slots(ZeroBytes(SLOT * n))[i] == ZeroBytes(SLOT);
    }
  }

  /** A new cluster at the end of the directory; the zeroing write goes
      unchecked. */
  method ExtendDirectory(v: Volume, last: nat, ghost k: nat) returns (c: nat, ghost clean: bool)
    requires v.Valid() && k < |v.chains| && v.chains[k] != [] && last == v.chains[k][|v.chains[k]| - 1]
    modifies v, v.disk, v.disk.log, v.fat
    ensures Laid(v, old(v.disk.sectors), old(v.chains), k)
    ensures v.Steady() && (v.Quiet() ==> if c == 0 then v.Full() else clean)
    ensures c != 0 ==> v.chains[k] == old(v.chains[k]) + [c] && InData(v.g, old(v.chains[k]))
    ensures c != 0 && clean ==>
              DirOf(v.g, v.disk.sectors, v.chains[k])
              == DirOf(v.g, old(v.disk.sectors), old(v.chains[k])) + [EmptyCluster(SlotsPer(v.g))]
  {
    hide Times, ClusterBytes, Linked, Disjoint, OnDisk, Complete, Forest, OthersKept;
    ghost var ss0, chains0, fat0 := v.disk.sectors, v.chains, v.fat[..];
    StartLaid(v, k);
    clean := false;
    ghost var taken;
    c, taken := v.ExtendChain(last, k);
    if c == 0 {
      AllocatedGrows(v.g, fat0, chains0, v.fat[..], v.chains, taken, k);
    }
    LaidByFat(v, ss0, chains0, k, ss0, chains0);
    if c == 0 {
      return;
    }
    ghost var ss1 := v.disk.sectors;
    ghost var j := |chains0[k]|;
    clean := WriteCluster(v, c, ZeroBytes(v.g.ClusterSize()));
    LaidByWrite(v, ss0, chains0, k, ss1, k, j);
    if clean {
      ZeroSlots(SlotsPer(v.g));
      assert DirOf(v.g, v.disk.sectors, v.chains[k])[j] == EmptyCluster(SlotsPer(v.g));
    }
  }

  /** The search and, where it fails, the new cluster; target 0 means neither. */
  method FindTarget(v: Volume, first: nat, needed: nat, ghost k: nat)
    returns (target: nat, start: nat, ghost j: nat, ghost clean: bool)
    requires v.Valid() && k < |v.chains| && v.chains[k] != [] && v.chains[k][0] == first && 1 <= needed
    modifies v, v.disk, v.disk.log, v.fat
    ensures Laid(v, old(v.disk.sectors), old(v.chains), k)
    ensures v.Steady() && (v.Quiet() ==> if target == 0 then v.Full() else clean)
    ensures target != 0 ==> j < |v.chains[k]| && v.chains[k][j] == target
    ensures target != 0 ==> start + needed <= SlotsPer(v.g) || start == 0
    ensures target != 0 && clean ==>
              InData(v.g, old(v.chains[k])) &&
              Target(DirOf(v.g, old(v.disk.sectors), old(v.chains[k])), needed, SlotsPer(v.g),
                     DirOf(v.g, v.disk.sectors, v.chains[k]), j, start)
  {
    hide Times, ClusterBytes, Linked, Disjoint, Forest, OthersKept, FindRun, FreeRun, InData, DirOf, Target, SlotsPer,
         Geometry.Fits, EmptyCluster, Complete, OnDisk;
    StartLaid(v, k);
    DirectoryChain(v, k);
    ghost var ch := v.chains[k];
    ghost var dir := DirOf(v.g, v.disk.sectors, ch);
    var found;
    found, j := Search(v, first, needed, ch, dir);
    match found
    case Spot(at, i) =>
      TargetFits(dir, needed, SlotsPer(v.g), dir, j, i);
      target, start, clean := at, i, true;
    case ReadError =>
      target, start, clean := 0, 0, false;
    case Full(last) =>
      TargetAtEnd(dir, needed, SlotsPer(v.g));
      target, clean := ExtendDirectory(v, last, k);
      start, j := 0, |ch|;
  }

  lemma DirectoryChain(v: Volume, k: nat)
    requires v.Valid() && k < |v.chains| && v.chains[k] != []
    ensures v.g.Fits(|v.disk.sectors|) && v.fat.Length == FAT_ENTRIES
    ensures Linked(v.fat[..], v.g.total, v.chains[k]) && InData(v.g, v.chains[k])
    ensures |DirOf(v.g, v.disk.sectors, v.chains[k])| == |v.chains[k]|
    ensures Uniform(DirOf(v.g, v.disk.sectors, v.chains[k]), SlotsPer(v.g))
    ensures forall i :: 0 <= i < |v.chains[k]| ==> v.chains[k][i] >= 2
  {
    ForestFacts(v.g, v.fat[..], v.chains);
    hide Times, ClusterSlots;
  }

  lemma TargetFits(dir: Dir, needed: nat, e: nat, dir1: Dir, j: nat, start: nat)
    requires Uniform(dir, e) && Target(dir, needed, e, dir1, j, start)
    ensures start + needed <= e || start == 0
  {
    hide FreeRun;
  }

  lemma TargetAtEnd(dir: Dir, needed: nat, e: nat)
    requires 1 <= needed && forall i :: 0 <= i < |dir| ==> FindRun(dir[i], 0, needed) == None
    ensures Target(dir, needed, e, dir + [EmptyCluster(e)], |dir|, 0)
  {
  }

  /** First cluster of a new directory: "." and "..". */
  function DotSlots(fc: nat, parent: nat, e: nat): (c: seq<Slot>)
    requires 2 <= e
    ensures |c| == e
  {
    Put(EmptyCluster(e), 0, [ShortSlot([DOT] + Spaces(10), FAT_ATTR_DIRECTORY, fc),
                             ShortSlot([DOT, DOT] + Spaces(9), FAT_ATTR_DIRECTORY, parent)])
  }

  const SELF: Name := [0x2E]
  const PARENT: Name := [0x2E, 0x2E]

  /** In a new directory "." is found and leads to the directory itself, ".." is found
      and leads to the cluster given for the parent, and nothing else is. */
  lemma DotsFound(fc: nat, parent: nat, e: nat, name: Name)
    requires 2 <= e && fc < 0x1_0000_0000 && parent < 0x1_0000_0000
    ensures Lookup(DotSlots(fc, parent, e), name).Found? <==> name == SELF || name == PARENT
    ensures LeadsTo(DotSlots(fc, parent, e), SELF, Child(0, fc, true))
    ensures LeadsTo(DotSlots(fc, parent, e), PARENT, Child(0, parent, true))
  {
    hide *;
    DotSlotsAre(fc, parent, e);
    var one, two := [0x2E] + Spaces(10), [0x2E, 0x2E] + Spaces(9);
    var c := DotSlots(fc, parent, e);
    DotReadsBack(one, fc);
    DotReadsBack(two, parent);
    DotSlotShape(one, fc);
    DotSlotShape(two, parent);
    DotsRead();
    DotsDiffer();
    DotsScan(c, name);
    DotsScan(c, SELF);
    DotsScan(c, PARENT);
    Leads(c, SELF, 0);
    Leads(c, PARENT, 1);
  }

  predicate LeadsTo(slots: seq<Slot>, name: Name, child: Child) {
    var r := Lookup(slots, name);
    r.Found? && ChildOf(slots[r.at]) == child
  }

  lemma Leads(slots: seq<Slot>, name: Name, at: nat)
    requires at < |slots| && Lookup(slots, name) == Found(at)
    ensures LeadsTo(slots, name, ChildOf(slots[at]))
  {
    hide Lookup, ChildOf;
  }

  lemma DotSlotsAre(fc: nat, parent: nat, e: nat)
    requires 2 <= e
    ensures var c := DotSlots(fc, parent, e);
            && c[0] == ShortSlot([0x2E] + Spaces(10), FAT_ATTR_DIRECTORY, fc)
            && c[1] == ShortSlot([0x2E, 0x2E] + Spaces(9), FAT_ATTR_DIRECTORY, parent) && (e > 2 ==> IsEnd(c[2]))
  {
    hide LittleByte;
  }

  lemma DotReadsBack(short: seq<byte>, first: nat)
    requires |short| == 11 && first < 0x1_0000_0000
    ensures ChildOf(ShortSlot(short, FAT_ATTR_DIRECTORY, first)) == Child(0, first, true)
  {
    EntryBytes(short, FAT_ATTR_DIRECTORY, first);
    EntryReadsBack(ShortSlot(short, FAT_ATTR_DIRECTORY, first), FAT_ATTR_DIRECTORY, first);
    hide ShortSlot, ChildOf, NewEntry;
  }

  lemma DotSlotShape(short: seq<byte>, first: nat)
    requires |short| == 11 && short[0] == 0x2E
    ensures var s := ShortSlot(short, FAT_ATTR_DIRECTORY, first);
            s[..11] == short && s[0] == 0x2E && !IsLongName(s) && !IsVolume(s)
  {
    hide LittleByte;
  }

  lemma DotsRead()
    ensures CString(ToNormal([0x2E] + Spaces(10))) == SELF && CString(ToNormal([0x2E, 0x2E] + Spaces(9))) == PARENT
  {
    var one, two := [0x2E] + Spaces(10), [0x2E, 0x2E] + Spaces(9);
    RunUnique(one[..8], SPACE, 1);
    RunUnique(two[..8], SPACE, 2);
    assert ToNormal(one) == SELF && ToNormal(two) == PARENT;
    RunUnique(SELF, 0, 1);
    RunUnique(PARENT, 0, 2);
  }

  /** The scan of two plain slots that read as "." and "..", and an end mark or nothing. */
  lemma DotsScan(c: seq<Slot>, name: Name)
    requires |c| >= 2 && (|c| > 2 ==> IsEnd(c[2]))
    requires forall i :: 0 <= i < 2 ==> c[i][0] == 0x2E && !IsLongName(c[i]) && !IsVolume(c[i])
    requires CString(ToNormal(c[0][..11])) == SELF && CString(ToNormal(c[1][..11])) == PARENT
    ensures Lookup(c, name) == if name == SELF then Found(0) else if name == PARENT then Found(1)
                               else if |c| > 2 then Ended else Exhausted(Fresh())
  {
    hide IsLongName, IsVolume, ToNormal, CString, Checksum, Up;
    DotsAlone(name);
    var st := Fresh();
    assert st.buf[0] == 0;
    assert Scan(c, 2, st, name) == if |c| > 2 then Ended else Exhausted(st);
    assert Matches(c[1], st, name) <==> name == PARENT;
    assert Scan(c, 1, st, name) == if name == PARENT then Found(1) else Scan(c, 2, st, name);
    assert Matches(c[0], st, name) <==> name == SELF;
  }

  lemma DotsDiffer()
    ensures SELF != PARENT
  {
  }

  lemma DotsAlone(name: Name)
    ensures SameNoCase(name, SELF) <==> name == SELF
    ensures SameNoCase(name, PARENT) <==> name == PARENT
  {
  }

  function Spaces(n: nat): (s: seq<byte>)
    ensures |s| == n
  {
    seq(n, _ => SPACE)
  }

  /** The content cluster of a new directory. */
  method NewDirectory(v: Volume, parent: nat, ghost k: nat, ghost ss0: seq<Sector>, ghost chains0: seq<Chain>)
    returns (fc: nat, ghost clean: bool)
    requires Laid(v, ss0, chains0, k)
    modifies v, v.disk, v.disk.log, v.fat
    ensures Laid(v, ss0, chains0, k) && InData(v.g, old(v.chains[k]))
    ensures v.Steady() && (v.Quiet() ==> if fc == 0 then v.Full() else clean)
    ensures v.chains[k] == old(v.chains[k])
    ensures DirOf(v.g, v.disk.sectors, v.chains[k]) == DirOf(v.g, old(v.disk.sectors), old(v.chains[k]))
    ensures fc != 0 ==> 2 <= fc < v.g.total && [fc] in v.chains && fc !in v.chains[k]
    ensures fc != 0 && clean ==> ClusterSlots(v.g, v.disk.sectors, fc) == DotSlots(fc, parent, SlotsPer(v.g))
  {
    hide Times, ClusterBytes, Linked, Disjoint, OnDisk, Complete, Forest, OthersKept;
    ghost var ss, chains, fat := v.disk.sectors, v.chains, v.fat[..];
    clean := false;
    ghost var taken;
    fc, taken := v.AllocCluster();
    AllocatedGrows(v.g, fat, chains, v.fat[..], v.chains, taken, k);
    LaidByFat(v, ss0, chains0, k, ss, chains);
    if fc == 0 {
      return;
    }
    ghost var ss1 := v.disk.sectors;
    ghost var m := |chains|;
    assert v.chains[m] == [fc];
    NotOnOther(v.g, v.fat[..], v.chains, m, k, fc);
    KeptLength(v, ss0, chains0, k, ss, chains);
    var slots := DotSlots(fc, parent, SlotsPer(v.g));
    clean := WriteCluster(v, fc, Unslots(slots));
    LaidByWrite(v, ss0, chains0, k, ss1, m, 0);
    SlotsTrip(slots);
  }

  lemma KeptLength(v: Volume, ss0: seq<Sector>, chains0: seq<Chain>, k: nat, ss: seq<Sector>, chains: seq<Chain>)
    requires OthersKept(v.g, ss0, chains0, ss, chains, k)
    ensures |chains0| <= |chains|
  {
  }

  lemma NotOnOther(g: Geometry, fat: seq<u32>, chains: seq<Chain>, m: nat, k: nat, c: nat)
    requires Forest(fat, g.total, chains) && m < |chains| && k < |chains| && m != k && chains[m] == [c]
    ensures c !in chains[k]
  {
    assert chains[m][0] == c;
  }

  const PAGE_SLOTS: nat := 128

  /** The long-name slots, last chunk first. */
  method FillLong(entries: array<Slot>, start: nat, name: Name, n: nat, sum: byte)
    requires n < 64 && start + n <= entries.Length
    modifies entries
    ensures entries[start..start + n] == LongSlots(name, n, n, sum)
    ensures entries[..start] == old(entries[..start]) && entries[start + n..] == old(entries[start + n..])
  {
    hide LongSlot;
    var i: nat, current := n, start;
    ghost var done: seq<Slot> := [];
    while i > 0
      invariant i <= n && current == start + n - i && |done| == n - i
      invariant done + LongSlots(name, i, n, sum) == LongSlots(name, n, n, sum)
      invariant forall k :: 0 <= k < n - i ==> entries[start + k] == done[k]
      invariant forall k :: 0 <= k < entries.Length && !(start <= k < current) ==> entries[k] == old(entries[k])
    {
      ghost var s := LongSlot(name, i, n, sum);
      Regroup(done, [s], LongSlots(name, i - 1, n, sum));
      entries[current] := LongSlot(name, i, n, sum);
      done := done + [s];
      current, i := current + 1, i - 1;
    }
  }

  /** Filling the entry into the slots of the page buffer. */
  method FillEntries(entries: array<Slot>, start: nat, name: Name, attr: byte, first: nat)
    requires |name| <= 255 && start + LongCount(name) + 1 <= entries.Length
    modifies entries
    ensures entries[..] == old(entries[..start]) + NewSlots(name, attr, first)
                           + old(entries[start + LongCount(name) + 1..])
  {
    hide *;
    var short := ShortName(name);
    var sum := LfnChecksum(short);
    var n: nat := LongCount(name);
    ghost var was, all := entries[..], LongSlots(name, n, n, sum);
    NewSlotsSplit(name, attr, first);
    FillLong(entries, start, name, n, sum);
    entries[start + n] := ShortSlot(short, attr, first);
    assert entries[start..start + n] == all;
    assert entries[start + n + 1..] == was[start + n + 1..] by {
      assert forall k :: start + n <= k < entries.Length ==> was[k] == was[start + n..][k - start - n];
    }
    assert entries[..] == entries[..start] + (entries[start..start + n] + [entries[start + n]]) + entries[start + n + 1..];
  }

  lemma PutIs(page: seq<Slot>, page': seq<Slot>, start: nat, added: seq<Slot>, e: nat)
    requires start <= e <= |page| && start + |added| <= |page|
    requires page' == page[..start] + added + page[start + |added|..]
    ensures |page'| == |page| && page'[..e] == Put(page[..e], start, added)
  {
  }

  /** Rewriting cluster `j` of a directory replaces its slots and no others. */
  lemma PutCluster(g: Geometry, ss: seq<Sector>, ss': seq<Sector>, ch: Chain, j: nat, slots: seq<Slot>)
    requires g.Fits(|ss|) && InData(g, ch) && j < |ch|
    requires forall a, b :: 0 <= a < b < |ch| ==> ch[a] != ch[b]
    requires SameOutside(ss, ss', g.SectorOf(ch[j]), g.perCluster)
    requires |ss'| == |ss| && ClusterSlots(g, ss', ch[j]) == slots
    ensures DirOf(g, ss', ch) == DirOf(g, ss, ch)[j := slots]
  {
    hide Times, ClusterBytes, Slots;
    forall i | 0 <= i < |ch| && i != j
      ensures ClusterBytes(g, ss', ch[i]) == ClusterBytes(g, ss, ch[i])
    {
      ClusterWriteKeeps(g, ss, ss', ch[j], ch[i]);
    }
  }

  /** The page buffer after reading a cluster into it; what lies behind is not
      transferred. */
  function SlotOrZero(c: seq<Slot>, i: int): Slot {
    if 0 <= i < |c| then c[i] else ZeroBytes(SLOT)
  }

  lemma OthersSame(g: Geometry, ss: seq<Sector>, ss': seq<Sector>, c: nat, d: nat)
    requires g.Fits(|ss|) && 2 <= c < g.total && 2 <= d < g.total && c != d
    requires SameOutside(ss, ss', g.SectorOf(c), g.perCluster)
    ensures |ss'| == |ss| && ClusterSlots(g, ss', d) == ClusterSlots(g, ss, d)
  {
    ClusterWriteKeeps(g, ss, ss', c, d);
    hide Times, ClusterBytes;
  }

  /** The slots of a cluster with the entry filled in, in a page buffer. */
  method FillPage(c: seq<Slot>, start: nat, name: Name, attr: byte, first: nat) returns (slots: seq<Slot>)
    requires |c| <= PAGE_SLOTS && |name| <= 255 && (start + LongCount(name) + 1 <= |c| || start == 0)
    ensures |slots| == |c| && start <= |c| && slots == Put(c, start, NewSlots(name, attr, first))
  {
    hide NewSlots, LongCount;
    var entries := new Slot[PAGE_SLOTS](i => SlotOrZero(c, i));
    ghost var page := entries[..];
    assert page[..|c|] == c;
    FillEntries(entries, start, name, attr, first);
    PutIs(page, entries[..], start, NewSlots(name, attr, first), |c|);
    slots := entries[..|c|];
  }

  /** Writing the slots of cluster `j` of the directory. */
  method WriteSlots(v: Volume, target: nat, slots: seq<Slot>, ghost k: nat, ghost j: nat,
                    ghost ss0: seq<Sector>, ghost chains0: seq<Chain>, ghost keep: nat)
    returns (ok: bool)
    requires Laid(v, ss0, chains0, k) && j < |v.chains[k]| && v.chains[k][j] == target
    requires |slots| == SlotsPer(v.g)
    modifies v.disk, v.disk.log
    ensures Entered(v, ss0, chains0, k) && v.Steady() && (ok <==> v.Quiet())
    ensures keep != target && 2 <= keep < v.g.total ==>
              ClusterSlots(v.g, v.disk.sectors, keep) == ClusterSlots(v.g, old(v.disk.sectors), keep)
    ensures ok ==> DirOf(v.g, v.disk.sectors, v.chains[k]) == DirOf(v.g, old(v.disk.sectors), v.chains[k])[j := slots]
  {
    ForestFacts(v.g, v.fat[..], v.chains);
    hide Times, ClusterBytes, Forest, Linked, Disjoint, OthersKept, Slots, Unslots;
    ghost var ss := v.disk.sectors;
    ok := WriteCluster(v, target, Unslots(slots));
    OtherChainsApart(v.g, ss0, chains0, ss, v.chains, v.disk.sectors, k, j);
    if keep != target && 2 <= keep < v.g.total {
      OthersSame(v.g, ss, v.disk.sectors, target, keep);
    }
    if ok {
      SlotsTrip(slots);
      PutCluster(v.g, ss, v.disk.sectors, v.chains[k], j, slots);
    }
  }

  /** The final read, fill and write of the target cluster. */
  method WriteBack(v: Volume, target: nat, start: nat, name: Name, attr: byte, first: nat,
                   ghost k: nat, ghost j: nat, ghost ss0: seq<Sector>, ghost chains0: seq<Chain>, ghost keep: nat)
    returns (ghost clean: bool)
    requires Laid(v, ss0, chains0, k) && j < |v.chains[k]| && v.chains[k][j] == target
    requires |name| <= 255 && (start + LongCount(name) + 1 <= SlotsPer(v.g) || start == 0)
    modifies v.disk, v.disk.log
    ensures Entered(v, ss0, chains0, k) && v.Steady() && (v.Quiet() ==> clean)
    ensures keep != target && 2 <= keep < v.g.total ==>
              ClusterSlots(v.g, v.disk.sectors, keep) == ClusterSlots(v.g, old(v.disk.sectors), keep)
    ensures clean ==>
              var d := DirOf(v.g, old(v.disk.sectors), v.chains[k]);
              DirOf(v.g, v.disk.sectors, v.chains[k]) == d[j := Put(d[j], start, NewSlots(name, attr, first))]
  {
    LaidFits(v, ss0, chains0, k);
    assert 2 <= target < v.g.total;
    FitsPage(v.g, |v.disk.sectors|);
    hide Times, OthersKept, NewSlots, LongCount, Laid, DirOf, Geometry.Fits, InData, ClusterSlots, SlotsPer, Put,
         Volume.Valid;
    var ok, c := ReadSlots(v, target);
    var slots := FillPage(c, start, name, attr, first);
    clean := WriteSlots(v, target, slots, k, j, ss0, chains0, keep);
    clean := clean && ok;
  }

  /** Only the directory itself has changed. */
  ghost predicate Entered(v: Volume, ss0: seq<Sector>, chains0: seq<Chain>, k: nat)
    reads v, v.disk, v.fat
  {
    && v.Valid() && k < |v.chains|
    && OthersKept(v.g, ss0, chains0, v.disk.sectors, v.chains, k) && InData(v.g, v.chains[k])
  }

  lemma LaidFits(v: Volume, ss0: seq<Sector>, chains0: seq<Chain>, k: nat)
    requires Laid(v, ss0, chains0, k)
    ensures v.Valid() && v.g.Fits(|v.disk.sectors|) && k < |v.chains| && InData(v.g, v.chains[k])
  {
  }

  lemma LaidMeans(v: Volume, ss0: seq<Sector>, chains0: seq<Chain>, k: nat)
    requires Laid(v, ss0, chains0, k)
    ensures Entered(v, ss0, chains0, k) && KeepsSlots(v, ss0, chains0, k)
  {
  }

  /** Every slot the directory had is still there. */
  ghost predicate KeepsSlots(v: Volume, ss0: seq<Sector>, chains0: seq<Chain>, k: nat)
    reads v, v.disk
  {
    && k < |chains0| && k < |v.chains|
    && v.g.Fits(|ss0|) && v.g.Fits(|v.disk.sectors|) && InData(v.g, chains0[k]) && InData(v.g, v.chains[k])
    && DirOf(v.g, ss0, chains0[k]) <= DirOf(v.g, v.disk.sectors, v.chains[k])
  }

  /** The directory is the old one with the entry created. */
  ghost predicate HasCreated(v: Volume, ss0: seq<Sector>, chains0: seq<Chain>, k: nat, name: Name, attr: byte, fc: nat)
    reads v, v.disk
  {
    && |name| <= 255 && k < |chains0| && k < |v.chains|
    && v.g.Fits(|ss0|) && v.g.Fits(|v.disk.sectors|) && InData(v.g, chains0[k]) && InData(v.g, v.chains[k])
    && DirOf(v.g, v.disk.sectors, v.chains[k])
       == Created(DirOf(v.g, ss0, chains0[k]), NewSlots(name, attr, fc), SlotsPer(v.g))
  }

  /** `fc` is a new empty directory. */
  ghost predicate NewDir(v: Volume, fc: nat, parent: nat)
    reads v, v.disk
  {
    && v.g.Fits(|v.disk.sectors|) && 2 <= fc < v.g.total && [fc] in v.chains
    && ClusterSlots(v.g, v.disk.sectors, fc) == DotSlots(fc, parent, SlotsPer(v.g))
  }

  lemma FitsPage(g: Geometry, n: nat)
    requires g.Fits(n)
    ensures SlotsPer(g) <= PAGE_SLOTS
  {
  }

  /** The directory is `dir1` with the new slots put into cluster `j`. */
  ghost predicate HasSlots(v: Volume, k: nat, dir1: Dir, j: nat, start: nat, name: Name, attr: byte, fc: nat)
    reads v, v.disk
  {
    && |name| <= 255 && k < |v.chains| && v.g.Fits(|v.disk.sectors|) && InData(v.g, v.chains[k])
    && j < |dir1| && start <= |dir1[j]|
    && DirOf(v.g, v.disk.sectors, v.chains[k]) == dir1[j := Put(dir1[j], start, NewSlots(name, attr, fc))]
  }

  /** From the found place on; -1 when a new directory gets no cluster. */
  method Enter(v: Volume, target: nat, start: nat, name: Name, attr: byte, parent: nat,
               ghost k: nat, ghost j: nat, ghost ss0: seq<Sector>, ghost chains0: seq<Chain>, ghost dir1: Dir)
    returns (r: int, fc: nat, ghost clean: bool)
    requires Laid(v, ss0, chains0, k) && j < |v.chains[k]| && v.chains[k][j] == target
    requires v.g.Fits(|v.disk.sectors|) && InData(v.g, v.chains[k])
    requires dir1 == DirOf(v.g, v.disk.sectors, v.chains[k])
    requires |name| <= 255 && (start + LongCount(name) + 1 <= SlotsPer(v.g) || start == 0)
    modifies v, v.disk, v.disk.log, v.fat
    ensures r == 0 || r == -1
    ensures v.Steady() && (v.Quiet() ==> if r == -1 then attr == FAT_ATTR_DIRECTORY && v.Full() else clean)
    ensures r == -1 ==> Laid(v, ss0, chains0, k)
    ensures r == 0 ==> Entered(v, ss0, chains0, k)
    ensures r == 0 && clean ==> HasSlots(v, k, dir1, j, start, name, attr, fc)
    ensures r == 0 && clean && attr == FAT_ATTR_DIRECTORY ==> NewDir(v, fc, parent)
    ensures r == 0 && attr != FAT_ATTR_DIRECTORY ==> fc == 0
  {
    LaidFits(v, ss0, chains0, k);
    hide Times, ClusterSlots, LongCount, NewSlots, OthersKept, InData, Volume.Valid, DirOf, Put, Laid, Entered,
         Geometry.Fits, SlotsPer, DotSlots;
    r, fc, clean := -1, 0, true;
    if attr == FAT_ATTR_DIRECTORY {
      fc, clean := NewDirectory(v, parent, k, ss0, chains0);
      if fc == 0 {
        return;
      }
    }
    ghost var written := WriteBack(v, target, start, name, attr, fc, k, j, ss0, chains0, fc);
    r, clean := 0, clean && written;
  }

  /** fat32_create_entry.  0 means created, provided every transfer succeeded:
      the code does not check those after the search. */
  method CreateEntry(v: Volume, first: nat, name: Name, attr: byte, root: nat, ghost k: nat)
    returns (r: int, fc: nat)
    requires v.Valid() && k < |v.chains| && v.chains[k] != [] && v.chains[k][0] == first
    requires |name| <= 255 && attr in ENTRY_ATTRS
    modifies v, v.disk, v.disk.log, v.fat
    ensures Entered(v, old(v.disk.sectors), old(v.chains), k) && v.Steady()
    ensures r == 0 || r == -1
    ensures r == -1 ==> KeepsSlots(v, old(v.disk.sectors), old(v.chains), k) && (v.Quiet() ==> v.Full())
    ensures r == 0 && v.Quiet() ==> HasCreated(v, old(v.disk.sectors), old(v.chains), k, name, attr, fc)
    ensures r == 0 && v.Quiet() && attr == FAT_ATTR_DIRECTORY ==> NewDir(v, fc, if first == root then 0 else first)
    ensures r == 0 && attr != FAT_ATTR_DIRECTORY ==> fc == 0
  {
    ghost var ss0, chains0 := v.disk.sectors, v.chains;
    StartLaid(v, k);
    LaidFits(v, ss0, chains0, k);
    ghost var dir := DirOf(v.g, ss0, chains0[k]);
    hide *;
    var needed: nat := LongCount(name) + 1;
    var target, start;
    ghost var j, found;
    target, start, j, found := FindTarget(v, first, needed, k);
    if target == 0 {
      LaidMeans(v, ss0, chains0, k);
      return -1, 0;
    }
    LaidFits(v, ss0, chains0, k);
    ghost var dir1 := DirOf(v.g, v.disk.sectors, v.chains[k]);
    ghost var clean;
    r, fc, clean := Enter(v, target, start, name, attr, if first == root then 0 else first, k, j, ss0, chains0, dir1);
    clean := clean && found;
    if r == -1 {
      LaidMeans(v, ss0, chains0, k);
    } else if clean {
      Finish(v, ss0, chains0, k, name, attr, fc, dir, dir1, j, start);
    }
  }

  lemma Finish(v: Volume, ss0: seq<Sector>, chains0: seq<Chain>, k: nat, name: Name, attr: byte, fc: nat,
               dir: Dir, dir1: Dir, j: nat, start: nat)
    requires |name| <= 255 && Entered(v, ss0, chains0, k) && k < |chains0| && v.g.Fits(|ss0|) && InData(v.g, chains0[k])
    requires dir == DirOf(v.g, ss0, chains0[k])
    requires Target(dir, LongCount(name) + 1, SlotsPer(v.g), dir1, j, start)
    requires HasSlots(v, k, dir1, j, start, name, attr, fc)
    ensures HasCreated(v, ss0, chains0, k, name, attr, fc)
  {
    hide Target, Entered, LongCount, DirOf, Geometry.Fits, InData, SlotsPer, Created, Put, NewSlots;
    CreatedAt(dir, NewSlots(name, attr, fc), SlotsPer(v.g), dir1, j, start);
  }

  /** fat32_create and fat32_mkdir_op: an existing name is refused. */
  method Create(v: Volume, first: nat, name: Name, directory: bool, root: nat, ghost k: nat)
    returns (r: int, fc: nat)
    requires v.Valid() && k < |v.chains| && v.chains[k] != [] && v.chains[k][0] == first && |name| <= 255
    modifies v, v.disk, v.disk.log, v.fat
    ensures Entered(v, old(v.disk.sectors), old(v.chains), k) && v.Steady() && (r == 0 || r == -1)
    ensures InData(v.g, old(v.chains[k]))
    ensures r == -1 ==> KeepsSlots(v, old(v.disk.sectors), old(v.chains), k)
    ensures r == -1 && v.Quiet() && !v.Full() ==>
              Lookup(Flat(DirOf(v.g, old(v.disk.sectors), old(v.chains[k]))), name).Found?
    ensures r == 0 && v.Quiet() ==>
              && !Lookup(Flat(DirOf(v.g, old(v.disk.sectors), old(v.chains[k]))), name).Found?
              && HasCreated(v, old(v.disk.sectors), old(v.chains), k, name, if directory then 0x10 else 0x20, fc)
              && (directory ==> NewDir(v, fc, if first == root then 0 else first))
              && (!directory ==> fc == 0)
  {
    StartLaid(v, k);
    LaidMeans(v, v.disk.sectors, v.chains, k);
    hide *;
    r, fc := -1, 0;
    var found, entry := FindDir(v, first, name, k);
    if !found {
      AttrIsOne(directory);
      r, fc := CreateEntry(v, first, name, AttrOf(directory), root, k);
    }
  }

  function AttrOf(directory: bool): byte { if directory then FAT_ATTR_DIRECTORY else FAT_ATTR_ARCHIVE }

  lemma AttrIsOne(directory: bool)
    ensures AttrOf(directory) in ENTRY_ATTRS
    ensures AttrOf(directory) == FAT_ATTR_DIRECTORY <==> directory
  {
  }

  /** Where the short slot of a new entry goes. */
  function EntryPlace(dir: Dir, name: Name): nat { PlacedAt(dir, LongCount(name) + 1) + LongCount(name) }

  /** Whether an entry about to be made will be found. */
  predicate WillBeFound(dir: Dir, name: Name, e: nat) {
    RoomAtEnd(dir, LongCount(name) + 1, e) && (Findable(name) || StaleAtEnd(Flat(dir), name))
  }

  /** After a create without failed transfers, fat32_finddir yields the new node
      exactly when the entry can be found, otherwise nothing unless a slot in use
      lies behind the entry, and whatever was found before is still found. */
  lemma CreatedIsFound(v: Volume, ss0: seq<Sector>, chains0: seq<Chain>, k: nat, name: Name, directory: bool, fc: nat)
    requires HasCreated(v, ss0, chains0, k, name, AttrOf(directory), fc) && fc < 0x1_0000_0000
    requires !Lookup(Flat(DirOf(v.g, ss0, chains0[k])), name).Found?
    ensures var dir, f := DirOf(v.g, ss0, chains0[k]), Flat(DirOf(v.g, v.disk.sectors, v.chains[k]));
            && (Lookup(f, name) == Found(EntryPlace(dir, name)) <==> WillBeFound(dir, name, SlotsPer(v.g)))
            && (!WillBeFound(dir, name, SlotsPer(v.g))
                && (RoomAtEnd(dir, LongCount(name) + 1, SlotsPer(v.g)) ==> NothingAt(f, EntryPlace(dir, name) + 1)) ==>
                  !Lookup(f, name).Found?)
            && (WillBeFound(dir, name, SlotsPer(v.g)) ==> ChildOf(f[EntryPlace(dir, name)]) == Child(0, fc, directory))
            && (forall other: Name | Lookup(Flat(dir), other).Found? ::
                  Lookup(f, other) == Lookup(Flat(dir), other) && f[Lookup(f, other).at] == Flat(dir)[Lookup(f, other).at])
  {
    hide *;
    CreatedMeans(v, ss0, chains0, k, name, AttrOf(directory), fc);
    var dir, dir' := DirOf(v.g, ss0, chains0[k]), DirOf(v.g, v.disk.sectors, v.chains[k]);
    FoundAfter(dir, dir', name, directory, fc, SlotsPer(v.g));
    forall other: Name | Lookup(Flat(dir), other).Found? {
      KeptAfter(dir, name, directory, fc, SlotsPer(v.g), other);
    }
  }

  lemma CreatedMeans(v: Volume, ss0: seq<Sector>, chains0: seq<Chain>, k: nat, name: Name, attr: byte, fc: nat)
    requires HasCreated(v, ss0, chains0, k, name, attr, fc)
    ensures |name| <= 255 && k < |chains0| && k < |v.chains|
    ensures v.g.Fits(|ss0|) && v.g.Fits(|v.disk.sectors|) && InData(v.g, chains0[k]) && InData(v.g, v.chains[k])
    ensures Uniform(DirOf(v.g, ss0, chains0[k]), SlotsPer(v.g))
    ensures DirOf(v.g, v.disk.sectors, v.chains[k])
            == Created(DirOf(v.g, ss0, chains0[k]), NewSlots(name, attr, fc), SlotsPer(v.g))
  {
    hide Created, NewSlots, InData;
  }

  lemma KeptAfter(dir: Dir, name: Name, directory: bool, fc: nat, e: nat, other: Name)
    requires Uniform(dir, e) && |name| <= 255 && Lookup(Flat(dir), other).Found?
    ensures var f := Flat(Created(dir, NewSlots(name, AttrOf(directory), fc), e));
            Lookup(f, other) == Lookup(Flat(dir), other) && f[Lookup(f, other).at] == Flat(dir)[Lookup(f, other).at]
  {
    hide *;
    CreateKeepsFound(dir, NewSlots(name, AttrOf(directory), fc), e, other);
  }

  lemma FoundAfter(dir: Dir, dir': Dir, name: Name, directory: bool, fc: nat, e: nat)
    requires Uniform(dir, e) && |name| <= 255 && fc < 0x1_0000_0000
    requires !Lookup(Flat(dir), name).Found? && dir' == Created(dir, NewSlots(name, AttrOf(directory), fc), e)
    ensures var f, at := Flat(dir'), EntryPlace(dir, name);
            && (Lookup(f, name) == Found(at) <==> WillBeFound(dir, name, e))
            && (!WillBeFound(dir, name, e) && (RoomAtEnd(dir, LongCount(name) + 1, e) ==> NothingAt(f, at + 1)) ==>
                  !Lookup(f, name).Found?)
            && (Lookup(f, name) == Found(at) ==> at < |f| && ChildOf(f[at]) == Child(0, fc, directory))
  {
    hide RoomAtEnd, Findable, StaleAtEnd, Flat, Created, NewSlots, Lookup, LongCount, PlacedAt, ShortSlot, ShortFor,
         ChildOf, NewEntry, NothingAt, NeedsLong, AttrOf, Orphan, Uniform;
    AttrIsOne(directory);
    CreateThenFind(dir, name, AttrOf(directory), fc, e);
    EntryBytes(ShortFor(name), AttrOf(directory), fc);
    EntryReadsBack(ShortSlot(ShortFor(name), AttrOf(directory), fc), AttrOf(directory), fc);
  }
}
