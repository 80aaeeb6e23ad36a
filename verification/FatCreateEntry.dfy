/** Where fat32_create_entry puts its slots, and when fat32_finddir then finds
    them (fat32_vfs.c). */
module FatCreateEntry {
  import opened Basics
  import opened SectorDisk
  import opened FatNames
  import opened FatDirectory

  // ---------------------------------------------------------------------------
  // Where the new slots go
  // ---------------------------------------------------------------------------

  /** Consecutive free slots from index `i` on. */
  function FreeRun(c: seq<Slot>, i: nat): (n: nat)
    requires i <= |c|
    ensures i + n <= |c|
    decreases |c| - i
  {
    if i == |c| || !IsFree(c[i]) then 0 else 1 + FreeRun(c, i + 1)
  }

  /** First index with `needed` free slots in a row. */
  function FindRun(c: seq<Slot>, i: nat, needed: nat): (r: Option<nat>)
    requires i <= |c| && 1 <= needed
    ensures r.Some? ==> i <= r.value < |c| && FreeRun(c, r.value) >= needed && r.value + needed <= |c|
    ensures r.Some? ==> forall j :: i <= j < r.value ==> FreeRun(c, j) < needed
    ensures r.None? ==> forall j :: i <= j < |c| ==> FreeRun(c, j) < needed
    decreases |c| - i
  {
    if i == |c| then None
    else if FreeRun(c, i) >= needed then Some(i)
    else FindRun(c, i + 1, needed)
  }

  /** A directory: one list of slots per cluster of its chain. */
  type Dir = seq<seq<Slot>>

  predicate Uniform(dir: Dir, e: nat) { forall k :: 0 <= k < |dir| ==> |dir[k]| == e }

  function Flat(dir: Dir): seq<Slot> {
    if dir == [] then [] else dir[0] + Flat(dir[1..])
  }

  function EmptyCluster(e: nat): (c: seq<Slot>)
    ensures |c| == e
  {
    seq(e, _ => ZeroBytes(SLOT))
  }

  function Put(c: seq<Slot>, i: nat, slots: seq<Slot>): (c': seq<Slot>)
    requires i <= |c|
    ensures |c'| == |c|
    ensures i + |slots| <= |c| ==> c' == c[..i] + slots + c[i + |slots|..]
  {
    if i + |slots| <= |c| then c[..i] + slots + c[i + |slots|..] else c[..i] + slots[..|c| - i]
  }

  /** The directory after fat32_create_entry: the first cluster with a run of
      free slots takes the entry, and without one a zeroed cluster is added
      (slots past its end are lost). */
  function Created(dir: Dir, slots: seq<Slot>, e: nat): Dir
    requires 1 <= |slots|
  {
    if dir == [] then [Put(EmptyCluster(e), 0, slots)]
    else
      match FindRun(dir[0], 0, |slots|)
      case Some(i) => [Put(dir[0], i, slots)] + dir[1..]
      case None => [dir[0]] + Created(dir[1..], slots, e)
  }

  /** Index of the first new slot among all slots. */
  function PlacedAt(dir: Dir, needed: nat): nat
    requires 1 <= needed
  {
    if dir == [] then 0
    else
      match FindRun(dir[0], 0, needed)
      case Some(i) => i
      case None => |dir[0]| + PlacedAt(dir[1..], needed)
  }

  /** The first end marker is followed by enough room in its cluster; without an
      end marker there is a whole new cluster. */
  predicate RoomAtEnd(dir: Dir, needed: nat, e: nat) {
    if dir == [] then needed <= e
    else
      var end := EndAt(dir[0]);
      if end < |dir[0]| then needed <= FreeRun(dir[0], end) else RoomAtEnd(dir[1..], needed, e)
  }

  lemma EndAtConcat(a: seq<Slot>, b: seq<Slot>)
    ensures EndAt(a + b) == if EndAt(a) < |a| then EndAt(a) else |a| + EndAt(b)
  {
    EndUnique(a + b, if EndAt(a) < |a| then EndAt(a) else |a| + EndAt(b));
  }

  lemma EndUnique(slots: seq<Slot>, n: nat)
    requires n <= |slots| && (forall i :: 0 <= i < n ==> !IsEnd(slots[i])) && (n < |slots| ==> IsEnd(slots[n]))
    ensures EndAt(slots) == n
  {
    var m := EndAt(slots);
    assert m < |slots| ==> IsEnd(slots[m]);
  }

  lemma NoRunBeforeEnd(c: seq<Slot>, j: nat)
    requires j < EndAt(c)
    ensures FreeRun(c, j) == 0
  {
    DeletedNeverSeen(c[j]);
  }

  /** The entry goes where the scan will meet it exactly when there is room at
      the first end marker, and never in front of it. */
  lemma {:induction false} PlacedVsEnd(dir: Dir, needed: nat, e: nat)
    requires 1 <= needed && Uniform(dir, e)
    ensures PlacedAt(dir, needed) <= |Flat(dir)| && EndAt(Flat(dir)) <= PlacedAt(dir, needed)
    ensures PlacedAt(dir, needed) == EndAt(Flat(dir)) && needed <= e <==> RoomAtEnd(dir, needed, e)
  {
    if dir != [] {
      PlacedVsEnd(dir[1..], needed, e);
      EndAtConcat(dir[0], Flat(dir[1..]));
      FirstCluster(dir[0], needed);
    }
  }

  lemma FirstCluster(c: seq<Slot>, needed: nat)
    requires 1 <= needed
    ensures var r := FindRun(c, 0, needed);
            && (r.Some? ==> EndAt(c) <= r.value && needed <= |c|)
            && (EndAt(c) < |c| ==> (r == Some(EndAt(c)) <==> needed <= FreeRun(c, EndAt(c))))
            && (EndAt(c) == |c| ==> r.None?)
  {
    var r := FindRun(c, 0, needed);
    forall j: nat | j < EndAt(c)
      ensures FreeRun(c, j) == 0
    {
      NoRunBeforeEnd(c, j);
    }
  }

  lemma {:induction false} CreatedShape(dir: Dir, slots: seq<Slot>, e: nat)
    requires 1 <= |slots| && Uniform(dir, e)
    ensures var p := PlacedAt(dir, |slots|); var f, f' := Flat(dir), Flat(Created(dir, slots, e));
            && p <= |f| && p <= |f'| && f'[..p] == f[..p]
            && (|slots| <= e ==> p + |slots| <= |f'| && f'[p..p + |slots|] == slots)
            && (|slots| > e ==> |f'| < p + |slots| && f'[p..] == slots[..|f'| - p])
    decreases |dir|
  {
    hide *;
    if dir == [] {
      AddedCluster(slots, e);
    } else {
      var rest := dir[1..];
      CreatedCases(dir, slots, e);
      match FindRun(dir[0], 0, |slots|)
      case Some(i) =>
        PutShape(dir[0], i, slots, Flat(rest));
        UniformRest(dir, e);
      case None =>
        UniformRest(dir, e);
        CreatedShape(rest, slots, e);
        Shifted(dir[0], Flat(rest), Flat(Created(rest, slots, e)), PlacedAt(rest, |slots|), slots, e);
    }
  }

  lemma UniformRest(dir: Dir, e: nat)
    requires Uniform(dir, e) && dir != []
    ensures |dir[0]| == e && Uniform(dir[1..], e)
  {
  }

  lemma AddedCluster(slots: seq<Slot>, e: nat)
    requires 1 <= |slots|
    ensures var f' := Flat(Created([], slots, e));
            && PlacedAt([], |slots|) == 0 && Flat([]) == []
            && |f'| == e && (if |slots| <= e then f'[..|slots|] == slots else f' == slots[..e])
  {
    var c := Put(EmptyCluster(e), 0, slots);
    assert Created([], slots, e) == [c];
    assert Flat([c]) == c + Flat([]) == c;
  }

  lemma CreatedCases(dir: Dir, slots: seq<Slot>, e: nat)
    requires 1 <= |slots| && dir != []
    ensures var rest := dir[1..];
            && Flat(dir) == dir[0] + Flat(rest)
            && match FindRun(dir[0], 0, |slots|)
               case Some(i) => PlacedAt(dir, |slots|) == i && Flat(Created(dir, slots, e)) == Put(dir[0], i, slots) + Flat(rest)
               case None => PlacedAt(dir, |slots|) == |dir[0]| + PlacedAt(rest, |slots|)
                            && Flat(Created(dir, slots, e)) == dir[0] + Flat(Created(rest, slots, e))
  {
    hide Put, FreeRun, EmptyCluster;
    match FindRun(dir[0], 0, |slots|)
    case Some(i) =>
      assert ([Put(dir[0], i, slots)] + dir[1..])[1..] == dir[1..];
    case None =>
      assert ([dir[0]] + Created(dir[1..], slots, e))[1..] == Created(dir[1..], slots, e);
  }

  lemma PutShape(c: seq<Slot>, i: nat, slots: seq<Slot>, rest: seq<Slot>)
    requires i + |slots| <= |c|
    ensures var f' := Put(c, i, slots) + rest;
            f'[..i] == (c + rest)[..i] && f'[i..i + |slots|] == slots
  {
    var c' := Put(c, i, slots);
    assert (c' + rest)[..i] == c'[..i] == c[..i] == (c + rest)[..i];
    assert (c' + rest)[i..i + |slots|] == c'[i..i + |slots|] == slots;
  }

  lemma Shifted(c: seq<Slot>, f: seq<Slot>, f': seq<Slot>, p: nat, slots: seq<Slot>, e: nat)
    requires p <= |f| && p <= |f'| && f'[..p] == f[..p]
    requires |slots| <= e ==> p + |slots| <= |f'| && f'[p..p + |slots|] == slots
    requires |slots| > e ==> |f'| < p + |slots| && f'[p..] == slots[..|f'| - p]
    ensures |slots| > e ==> (c + f')[|c| + p..] == slots[..|c + f'| - (|c| + p)]
    ensures (c + f')[..|c| + p] == (c + f)[..|c| + p]
    ensures |slots| <= e ==> (c + f')[|c| + p..|c| + p + |slots|] == slots
  {
    assert (c + f')[..|c| + p] == c + f'[..p];
    assert (c + f)[..|c| + p] == c + f[..p];
    if |slots| <= e {
      assert (c + f')[|c| + p..|c| + p + |slots|] == f'[p..p + |slots|];
    }
  }

  // ---------------------------------------------------------------------------
  // Create, then find
  // ---------------------------------------------------------------------------

  const ENTRY_ATTRS: set<byte> := {FAT_ATTR_DIRECTORY, FAT_ATTR_ARCHIVE}

  /** Names fat32_finddir can recognise in the slots made for them: a long ASCII
      name of at most 19 chunks, or a name that its short form reads as. */
  predicate Findable(name: Name) {
    if |name| > 8 || exists i :: 0 <= i < |name| && 0x61 <= name[i] <= 0x7A then
      (|name| <= 247 && Ascii(name)) || FitsMade(name)
    else Fits83(name)
  }

  lemma ShortSlotShape(short: seq<byte>, attr: byte, first: nat)
    requires |short| == 11 && attr in ENTRY_ATTRS
    ensures var s := ShortSlot(short, attr, first);
            s[..11] == short && s[0] == short[0] && !IsLongName(s) && !IsVolume(s)
  {
    var s := ShortSlot(short, attr, first);
    assert s[11] == attr;
  }

  /** The short slot is recognised, or the scan goes on behind it. */
  lemma AtShortSlot(slots: seq<Slot>, at: nat, st: ScanState, name: Name, attr: byte, first: nat)
    requires GoodState(st) && at < |slots| && attr in ENTRY_ATTRS
    requires slots[at] == ShortSlot(ShortFor(name), attr, first)
    ensures Scan(slots, at, st, name) == if Matches(slots[at], st, name) then Found(at) else Scan(slots, at + 1, Fresh(), name)
  {
    hide Matches, ShortFor, ShortSlot, IsLongName, IsVolume;
    ShortSlotShape(ShortFor(name), attr, first);
    ShortStartsNonZero(name);
    DeletedNeverSeen(slots[at]);
  }

  lemma LongChunks(name: Name)
    requires NeedsLong(name) && |name| <= 255
    ensures var n := LongCount(name); 1 <= n <= 20 && (n - 1) * CHUNK < |name| <= n * CHUNK
    ensures LongCount(name) <= 19 <==> |name| <= 247
    ensures Findable(name) <==> (|name| <= 247 && Ascii(name)) || FitsMade(name)
    ensures FitsMade(name) ==> |name| <= 247
  {
  }

  lemma StoredElsewhere(buf: seq<byte>, at: nat, c: seq<byte>, q: nat)
    requires |buf| == LFN_BUF && |c| == CHUNK && q < LFN_BUF && (at + CHUNK <= q || LFN_LIMIT <= at)
    ensures StoreChunk(buf, at, c)[q] == buf[q]
  {
  }

  lemma {:induction false} TailStaysZero(st: ScanState, name: Name, i: nat, sum: byte)
    requires GoodState(st) && i <= 20 && (i < 20 ==> st.buf[247] == 0)
    ensures i < 20 || 0 < i ==> Absorb(st, name, i, 20, sum).buf[247] == 0
    decreases i
  {
    hide LongSlot, DecodeChunk, LongName, StoreChunk, IsLongName;
    if i > 0 {
      var s := LongSlot(name, i, 20, sum);
      LongSlotHeader(name, i, 20, sum);
      LongNameOf(s, st, i, i == 20);
      StoredElsewhere(if i == 20 then ZeroBytes(LFN_BUF) else st.buf, (i - 1) * CHUNK, DecodeChunk(s), 247);
      TailStaysZero(LongName(s, st), name, i - 1, sum);
    }
  }

  lemma ZeroEndsString(buf: seq<byte>, at: nat)
    requires at < |buf| && buf[at] == 0
    ensures |CString(buf)| <= at
  {
  }

  lemma WholeCString(s: seq<byte>)
    requires forall i :: 0 <= i < |s| ==> s[i] != 0
    ensures CString(s) == s
  {
    RunUnique(s, 0, |s|);
  }

  /** The generated short name of a name that gets long-name slots. */
  lemma MadeMatches(s: Slot, name: Name, attr: byte, first: nat)
    requires NeedsLong(name) && attr in ENTRY_ATTRS && s == ShortSlot(ShortFor(name), attr, first)
    ensures s[..11] == ShortFor(name)
    ensures SameNoCase(name, CString(ToNormal(s[..11]))) <==> FitsMade(name)
  {
    ShortSlotShape(ShortFor(name), attr, first);
    MadeRoundTrip(name);
    MadeNonZero(name);
    WholeCString(ToNormal(MakeShort(name)));
    hide FitsMade, ShortSlot, MakeShort, ToNormal, SameNoCase, NeedsLong;
  }

  /** A name with long-name slots is recognised exactly if it is ASCII and has at
      most 247 characters, or its generated short name reads as it does. */
  lemma LongMatches(s: Slot, st: ScanState, name: Name, attr: byte, first: nat)
    requires GoodState(st) && NeedsLong(name) && |name| <= 255 && attr in ENTRY_ATTRS
    requires s == ShortSlot(ShortFor(name), attr, first)
    ensures var n := LongCount(name);
            Matches(s, Absorb(st, name, n, n, Checksum(ShortFor(name))), name) <==> Findable(name)
  {
    hide Findable, Absorb, ShortFor, ShortSlot, Checksum, NeedsLong, LongCount, CString, FitsMade, ToNormal, Ascii;
    var n, sum := LongCount(name), Checksum(ShortFor(name));
    var st' := Absorb(st, name, n, n, sum);
    LongChunks(name);
    MadeMatches(s, name, attr, first);
    if n <= 19 {
      AbsorbHolds(st, name, n, n, sum);
      HeldNameReads(st', Shown(name), sum);
      ShownIsSame(name);
      assert st'.buf[0] == Shown(name)[0];
    } else {
      TailStaysZero(st, name, 20, sum);
      ZeroEndsString(st'.buf, 247);
    }
  }

  /** An unfinished long name in the scan state is the name looked up, and carries
      the checksum of its short form. */
  predicate Stale(st: ScanState, name: Name)
    requires GoodState(st)
  {
    !NeedsLong(name) && st.buf[0] != 0 && Checksum(ShortFor(name)) == st.sum && SameNoCase(name, CString(st.buf))
  }

  /** Nothing of an unfinished long name is left in the scan state. */
  predicate Clean(st: ScanState)
    requires GoodState(st)
  {
    st.sum == -1
  }

  lemma ShortMatches(s: Slot, st: ScanState, name: Name, attr: byte, first: nat)
    requires GoodState(st) && !NeedsLong(name) && attr in ENTRY_ATTRS
    requires s == ShortSlot(ShortFor(name), attr, first)
    ensures Matches(s, st, name) <==> Findable(name) || Stale(st, name)
    ensures LongCount(name) == 0 && Absorb(st, name, 0, 0, Checksum(ShortFor(name))) == st
  {
    ShortSlotShape(ShortFor(name), attr, first);
    ShortRoundTrip(name);
    ShortNonZero(name);
    WholeCString(ToNormal(ToFat(name)));
    hide Fits83, ShortSlot, ToFat, ToNormal, SameNoCase, Checksum;
  }

  /** Scanning the new slots from any state. */
  lemma ScanNew(slots: seq<Slot>, p: nat, st: ScanState, name: Name, attr: byte, first: nat)
    requires GoodState(st) && |name| <= 255 && attr in ENTRY_ATTRS
    requires p + LongCount(name) + 1 <= |slots|
    requires slots[p..p + LongCount(name) + 1] == NewSlots(name, attr, first)
    ensures Scan(slots, p, st, name) == if Findable(name) || Stale(st, name) then Found(p + LongCount(name))
                                        else Scan(slots, p + LongCount(name) + 1, Fresh(), name)
  {
    hide *;
    OnlyShortStale(st, name);
    var n, sum := LongCount(name), Checksum(ShortFor(name));
    var s := slots[p + n];
    NewSlotsAre(slots, p, name, attr, first);
    var st' := Absorb(st, name, n, n, sum);
    ScanAbsorbs(slots, p, st, name, name, n, n, sum);
    AtShortSlot(slots, p + n, st', name, attr, first);
    if NeedsLong(name) {
      LongMatches(s, st, name, attr, first);
    } else {
      ShortMatches(s, st, name, attr, first);
    }
  }

  lemma OnlyShortStale(st: ScanState, name: Name)
    requires GoodState(st)
    ensures NeedsLong(name) || Clean(st) ==> !Stale(st, name)
  {
  }

  lemma NewSlotsSplit(name: Name, attr: byte, first: nat)
    requires |name| <= 255
    ensures var n := LongCount(name);
            NewSlots(name, attr, first)
            == LongSlots(name, n, n, Checksum(ShortFor(name))) + [ShortSlot(ShortFor(name), attr, first)]
  {
    hide LongCount, LongSlots, Checksum, ShortFor, ShortSlot;
  }

  lemma NewSlotsAre(slots: seq<Slot>, p: nat, name: Name, attr: byte, first: nat)
    requires |name| <= 255 && p + LongCount(name) + 1 <= |slots|
    requires slots[p..p + LongCount(name) + 1] == NewSlots(name, attr, first)
    ensures slots[p..p + LongCount(name)] == LongSlots(name, LongCount(name), LongCount(name), Checksum(ShortFor(name)))
    ensures slots[p + LongCount(name)] == ShortSlot(ShortFor(name), attr, first)
  {
    hide *;
    NewSlotsSplit(name, attr, first);
    var n := LongCount(name);
    Unappend(slots, p, n, LongSlots(name, n, n, Checksum(ShortFor(name))), ShortSlot(ShortFor(name), attr, first));
  }

  lemma Unappend<T>(s: seq<T>, p: nat, n: nat, a: seq<T>, x: T)
    requires |a| == n && p + n + 1 <= |s| && s[p..p + n + 1] == a + [x]
    ensures s[p..p + n] == a && s[p + n] == x
  {
    assert s[p..p + n] == s[p..p + n + 1][..n];
    assert s[p + n] == s[p..p + n + 1][n];
  }

  /** The slot in front of the end marker belongs to an unfinished long name. */
  predicate Orphan(slots: seq<Slot>) {
    var e := EndAt(slots);
    e > 0 && IsLongName(slots[e - 1])
  }

  /** The slots in front of the end marker end with a long name that was never
      finished, and it would pass for `name`. */
  predicate StaleAtEnd(f: seq<Slot>, name: Name) {
    var r := Scan(f[..EndAt(f)], 0, Fresh(), name);
    r.Exhausted? && Stale(r.st, name)
  }

  lemma {:induction false} CleanAfter(slots: seq<Slot>, i: nat, st: ScanState, name: Name)
    requires GoodState(st) && i <= |slots| && (if i == |slots| then Clean(st) else !IsLongName(slots[|slots| - 1]))
    ensures var r := Scan(slots, i, st, name); r.Exhausted? ==> Clean(r.st)
    decreases |slots| - i
  {
    if i < |slots| {
      match ScanSlot(slots[i], st, name)
      case Next(st') => CleanAfter(slots, i + 1, st', name);
      case _ =>
    }
  }

  /** A directory up to its end marker: a name found is found there, any other
      leaves the scan in a state that has nothing pending unless a long name was
      left unfinished. */
  lemma UpToEnd(f: seq<Slot>, name: Name)
    ensures var r := Scan(f[..EndAt(f)], 0, Fresh(), name);
            && !r.Ended?
            && (r.Found? <==> Lookup(f, name).Found?)
            && (r.Found? ==> Lookup(f, name) == r)
            && (r.Exhausted? && !Orphan(f) ==> Clean(r.st))
            && (!Lookup(f, name).Found? ==> (StaleAtEnd(f, name) <==> Stale(r.st, name)))
  {
    var e := EndAt(f);
    var head := f[..e];
    assert f == head + f[e..];
    ScanNeverEnds(head, 0, Fresh(), name);
    ScanPrefix(head, f[e..], 0, Fresh(), name);
    if !Orphan(f) {
      CleanAfter(head, 0, Fresh(), name);
    }
    hide ScanSlot, Fresh;
  }

  lemma NoOrphanNoStale(f: seq<Slot>, name: Name)
    ensures !Orphan(f) ==> !StaleAtEnd(f, name)
  {
    hide Orphan, Stale;
    UpToEnd(f, name);
    var r := Scan(f[..EndAt(f)], 0, Fresh(), name);
    if r.Exhausted? {
      OnlyShortStale(r.st, name);
    }
  }

  /** Scanning any directory that starts with the same slots. */
  lemma SameHead(f: seq<Slot>, f': seq<Slot>, name: Name)
    requires EndAt(f) <= |f'| && f'[..EndAt(f)] == f[..EndAt(f)]
    ensures var r := Scan(f[..EndAt(f)], 0, Fresh(), name);
            Lookup(f', name) == if r.Exhausted? then Scan(f', EndAt(f), r.st, name) else r
  {
    var e := EndAt(f);
    assert f' == f[..e] + f'[e..];
    ScanPrefix(f[..e], f'[e..], 0, Fresh(), name);
  }

  /** Long-name slots alone match nothing. */
  lemma {:induction false} OnlyLong(slots: seq<Slot>, i: nat, st: ScanState, name: Name)
    requires GoodState(st) && i <= |slots|
    requires forall k :: i <= k < |slots| ==> !IsFree(slots[k]) && IsLongName(slots[k])
    ensures Scan(slots, i, st, name).Exhausted?
    decreases |slots| - i
  {
    hide IsLongName, LongName, Matches, IsVolume;
    if i < |slots| {
      DeletedNeverSeen(slots[i]);
      assert ScanSlot(slots[i], st, name) == Next(LongName(slots[i], st));
      OnlyLong(slots, i + 1, LongName(slots[i], st), name);
    }
  }

  lemma {:induction false} LongSlotsAt(name: Name, i: nat, n: nat, sum: byte, k: nat)
    requires k < i <= n < 64
    ensures !IsFree(LongSlots(name, i, n, sum)[k]) && IsLongName(LongSlots(name, i, n, sum)[k])
    decreases i
  {
    hide LongSlot, IsLongName;
    LongSlotHeader(name, i, n, sum);
    if k > 0 {
      LongSlotsAt(name, i - 1, n, sum, k - 1);
    }
  }

  /** An entry cut off in front of its short slot matches nothing. */
  lemma CutShort(slots: seq<Slot>, p: nat, st: ScanState, name: Name, attr: byte, first: nat)
    requires GoodState(st) && |name| <= 255 && p <= |slots| < p + LongCount(name) + 1
    requires slots[p..] == NewSlots(name, attr, first)[..|slots| - p]
    ensures !Scan(slots, p, st, name).Found?
  {
    hide LongSlots, LongCount, ShortFor, Checksum, IsFree, IsLongName, Scan;
    var n, sum := LongCount(name), Checksum(ShortFor(name));
    NewSlotsSplit(name, attr, first);
    forall k | p <= k < |slots|
      ensures !IsFree(slots[k]) && IsLongName(slots[k])
    {
      assert slots[k] == slots[p..][k - p] == LongSlots(name, n, n, sum)[k - p];
      LongSlotsAt(name, n, n, sum, k - p);
    }
    OnlyLong(slots, p, st, name);
  }

  /** Exactly when fat32_finddir finds what fat32_create_entry wrote.  Writing
      behind an end marker, a long name of more than 247 characters or with a byte
      from 128 on, and a short name that does not survive the 8.3 form all lose the
      entry, unless the short form reads as the name or an unfinished long name in
      front happens to be the short name.  Without room nothing is found at all; with
      room the scan goes on behind the entry, and finds nothing if there is no slot
      in use. */
  lemma CreateThenFind(dir: Dir, name: Name, attr: byte, first: nat, e: nat)
    requires Uniform(dir, e) && |name| <= 255 && attr in ENTRY_ATTRS
    requires !Lookup(Flat(dir), name).Found?
    ensures var n := LongCount(name) + 1;
            var at := PlacedAt(dir, n) + LongCount(name);
            var f' := Flat(Created(dir, NewSlots(name, attr, first), e));
            var found := Lookup(f', name) == Found(at);
            && (found <==> RoomAtEnd(dir, n, e) && (Findable(name) || StaleAtEnd(Flat(dir), name)))
            && (found ==> at < |f'| && f'[at] == ShortSlot(ShortFor(name), attr, first))
            && (!found && RoomAtEnd(dir, n, e) ==> at < |f'| && Lookup(f', name) == Scan(f', at + 1, Fresh(), name))
            && (!found && (RoomAtEnd(dir, n, e) ==> NothingAt(f', at + 1)) ==> !Lookup(f', name).Found?)
            && (!Orphan(Flat(dir)) ==> !StaleAtEnd(Flat(dir), name))
  {
    hide *;
    var slots := NewSlots(name, attr, first);
    var f, f' := Flat(dir), Flat(Created(dir, slots, e));
    var p, end := PlacedAt(dir, |slots|), EndAt(f);
    CreatedShape(dir, slots, e);
    PlacedVsEnd(dir, |slots|, e);
    NoOrphanNoStale(f, name);
    assert f'[..end] == f[..end] by { SubPrefix(f, f', p, end); }
    if end < p {
      SubPrefix(f, f', p, end + 1);
      BehindTheEnd(f, f', name);
    } else {
      UpToEnd(f, name);
      SameHead(f, f', name);
      var st := Scan(f[..end], 0, Fresh(), name).st;
      if |slots| <= e {
        NewSlotsAre(f', p, name, attr, first);
        ScanNew(f', p, st, name, attr, first);
        ScanBounds(f', p + |slots|, Fresh(), name);
        if NothingAt(f', p + |slots|) {
          NothingFoundAt(f', p + |slots|, name);
        }
      } else {
        CutShort(f', p, st, name, attr, first);
      }
    }
  }

  /** Slot `i` is an end marker, or there is none. */
  predicate NothingAt(slots: seq<Slot>, i: nat) {
    i < |slots| ==> IsEnd(slots[i])
  }

  lemma NothingFoundAt(slots: seq<Slot>, i: nat, name: Name)
    requires i <= |slots| && NothingAt(slots, i)
    ensures !Scan(slots, i, Fresh(), name).Found?
  {
  }

  lemma ScanBounds(slots: seq<Slot>, i: nat, st: ScanState, name: Name)
    requires GoodState(st) && i <= |slots|
    ensures var r := Scan(slots, i, st, name); r.Found? ==> i <= r.at < |slots|
  {
  }

  lemma SubPrefix<T>(f: seq<T>, f': seq<T>, p: nat, n: nat)
    requires n <= p <= |f| && p <= |f'| && f'[..p] == f[..p]
    ensures f'[..n] == f[..n]
  {
    assert f'[..n] == f'[..p][..n] && f[..n] == f[..p][..n];
  }

  /** Creating an entry never changes what an existing name is found as. */
  lemma CreateKeepsFound(dir: Dir, slots: seq<Slot>, e: nat, other: Name)
    requires Uniform(dir, e) && 1 <= |slots| && Lookup(Flat(dir), other).Found?
    ensures var f, f' := Flat(dir), Flat(Created(dir, slots, e));
            var r := Lookup(f, other);
            Lookup(f', other) == r && r.at < |f'| && f'[r.at] == f[r.at]
  {
    var f, f' := Flat(dir), Flat(Created(dir, slots, e));
    var p, end := PlacedAt(dir, |slots|), EndAt(f);
    CreatedShape(dir, slots, e);
    PlacedVsEnd(dir, |slots|, e);
    hide *;
    SubPrefix(f, f', p, end);
    UpToEnd(f, other);
    SameHead(f, f', other);
    var at := Lookup(f, other).at;
    assert f'[at] == f'[..end][at] && f[at] == f[..end][at];
  }

  lemma {:induction false} AllFree(e: nat, i: nat)
    requires i <= e
    ensures FreeRun(EmptyCluster(e), i) == e - i
    decreases e - i
  {
    if i < e {
      AllFree(e, i + 1);
    }
  }

  lemma CreatedInEmpty(slots: seq<Slot>)
    requires 1 <= |slots| < 64
    ensures var f' := Flat(Created([EmptyCluster(64)], slots, 64));
            |f'| == 64 && f'[0..|slots|] == slots && IsEnd(f'[|slots|])
  {
    AllFree(64, 0);
    var c := Put(EmptyCluster(64), 0, slots);
    assert Created([EmptyCluster(64)], slots, 64) == [c] + [EmptyCluster(64)][1..] == [c];
    assert Flat([c]) == c + Flat([c][1..]) == c;
  }

  /** In an empty directory a name that is not findable is created and then not
      found, so it can be created again. */
  lemma LostInEmpty(name: Name, attr: byte, first: nat)
    requires |name| <= 255 && attr in ENTRY_ATTRS && !Findable(name)
    ensures !Lookup(Flat(Created([EmptyCluster(64)], NewSlots(name, attr, first), 64)), name).Found?
  {
    hide *;
    var slots := NewSlots(name, attr, first);
    var f' := Flat(Created([EmptyCluster(64)], slots, 64));
    CreatedInEmpty(slots);
    ScanNew(f', 0, Fresh(), name, attr, first);
    NotStaleFresh(name);
    EndsAt(f', |slots|, name);
    LookupIs(f', name);
  }

  lemma NotStaleFresh(name: Name)
    ensures !Stale(Fresh(), name)
  {
  }

  lemma EndsAt(slots: seq<Slot>, i: nat, name: Name)
    requires i < |slots| && IsEnd(slots[i])
    ensures Scan(slots, i, Fresh(), name) == Ended
  {
  }

  lemma LookupIs(slots: seq<Slot>, name: Name)
    ensures Lookup(slots, name) == Scan(slots, 0, Fresh(), name)
  {
  }

  /** A lower-case name of 248 characters. */
  lemma TooLongIsLost(name: Name, attr: byte, first: nat)
    requires |name| == 248 && (forall i :: 0 <= i < |name| ==> name[i] == 0x61) && attr in ENTRY_ATTRS
    ensures !Lookup(Flat(Created([EmptyCluster(64)], NewSlots(name, attr, first), 64)), name).Found?
  {
    LongChunks(name);
    LostInEmpty(name, attr, first);
  }

  /** Nine times the byte 0xE9. */
  lemma NonAsciiIsLost(name: Name, attr: byte, first: nat)
    requires |name| == 9 && (forall i :: 0 <= i < |name| ==> name[i] == 0xE9) && attr in ENTRY_ATTRS
    ensures !Lookup(Flat(Created([EmptyCluster(64)], NewSlots(name, attr, first), 64)), name).Found?
  {
    hide Run;
    LongChunks(name);
    RunUnique(name, DOT, 9);
    assert name[0] >= 128;
    LostInEmpty(name, attr, first);
  }

  // ---------------------------------------------------------------------------
  // Behind an end marker
  // ---------------------------------------------------------------------------

  /** A cluster of 16 slots: 15 times the entry "X", and one free slot. */
  function AlmostFull(): (c: seq<Slot>)
    ensures |c| == 16
  {
    seq(15, _ => ShortSlot(X_SHORT, FAT_ATTR_ARCHIVE, 0)) + [ZeroBytes(SLOT)]
  }

  const X_SHORT: seq<byte> := Pad([0x58], 11)

  /** The name "abcdefghi" gets two slots. */
  predicate NineLetters(name: Name) {
    name == [0x61, 0x62, 0x63, 0x64, 0x65, 0x66, 0x67, 0x68, 0x69]
  }

  lemma NineLettersAre(name: Name)
    requires NineLetters(name)
    ensures |name| == 9 && NeedsLong(name) && Ascii(name) && LongCount(name) == 1 && Findable(name)
  {
    assert IsLower(name[0]);
  }

  lemma NotX(st: ScanState, name: Name, s: Slot)
    requires |name| == 9 && st == Fresh() && s == ShortSlot(X_SHORT, FAT_ATTR_ARCHIVE, 0)
    ensures !IsEnd(s) && ScanSlot(s, st, name) == Next(Fresh())
  {
    assert X_SHORT[0] == 0x58 && X_SHORT[1] == SPACE && X_SHORT[8] == SPACE;
    ShortSlotShape(X_SHORT, FAT_ATTR_ARCHIVE, 0);
    assert Run(X_SHORT[..8], SPACE) <= 1 by {
      RunUnique(X_SHORT[..8], SPACE, 1);
    }
    hide ShortSlot, Pad;
  }

  lemma {:induction false} OnlyX(f: seq<Slot>, i: nat, name: Name)
    requires |name| == 9 && i <= 15 && f == AlmostFull()
    ensures Scan(f, i, Fresh(), name) == Ended
    decreases 15 - i
  {
    hide ScanSlot, ShortSlot, Fresh;
    if i < 15 {
      NotX(Fresh(), name, f[i]);
      OnlyX(f, i + 1, name);
    } else {
      EndsAt(f, i, name);
    }
  }

  lemma OneFreeSlot(name: Name)
    requires |name| == 9
    ensures var c := AlmostFull(); EndAt(c) == 15 && FreeRun(c, 15) == 1
  {
    hide ShortSlot, ScanSlot, FreeRun;
    var c := AlmostFull();
    forall i | 0 <= i < 15
      ensures !IsEnd(c[i])
    {
      NotX(Fresh(), name, c[i]);
    }
    EndUnique(c, 15);
    LastFree(c);
  }

  lemma LastFree(c: seq<Slot>)
    requires |c| == 16 && IsEnd(c[15])
    ensures FreeRun(c, 15) == 1
  {
    assert FreeRun(c, 16) == 0;
  }

  lemma AlmostFullIs(name: Name)
    requires |name| == 9
    ensures var dir := [AlmostFull()];
            && Flat(dir) == AlmostFull() && EndAt(AlmostFull()) == 15 && |AlmostFull()| == 16
            && PlacedAt(dir, 2) == 16 && !RoomAtEnd(dir, 2, 16) && Uniform(dir, 16)
  {
    hide AlmostFull, FreeRun, FindRun, IsEnd;
    var c := AlmostFull();
    OneFreeSlot(name);
    FirstCluster(c, 2);
    assert Flat([c]) == c + Flat([c][1..]) == c;
  }

  /** With one free slot left in the only cluster, two slots go into a new one, and
      the free slot in front hides them: "abcdefghi" is created and not found. */
  lemma BehindOneFreeSlot(name: Name, attr: byte, first: nat)
    requires NineLetters(name) && attr in ENTRY_ATTRS
    ensures var dir := [AlmostFull()];
            && Findable(name) && !RoomAtEnd(dir, LongCount(name) + 1, 16)
            && !Lookup(Flat(dir), name).Found?
            && !Lookup(Flat(Created(dir, NewSlots(name, attr, first), 16)), name).Found?
  {
    hide *;
    NineLettersAre(name);
    AlmostFullIs(name);
    var dir, slots := [AlmostFull()], NewSlots(name, attr, first);
    var f, f' := Flat(dir), Flat(Created(dir, slots, 16));
    OnlyX(f, 0, name);
    LookupIs(f, name);
    CreatedShape(dir, slots, 16);
    PlacedVsEnd(dir, 2, 16);
    SubPrefix(f, f', PlacedAt(dir, 2), 16);
    BehindTheEnd(f, f', name);
  }
}
