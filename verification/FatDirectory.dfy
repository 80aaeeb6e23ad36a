/** Directory slots of fat32_vfs.c: how fat32_finddir scans them, what
    fat32_create_entry writes, and when the first finds what the second wrote. */
module FatDirectory {
  import opened Basics
  import opened SectorDisk
  import opened FatNames

  const SLOT: nat := 32
  /** The long-name buffer of the scan. */
  const LFN_BUF: nat := 256
  /** Chunks that start here or later are not stored. */
  const LFN_LIMIT: nat := 242
  const CHUNK: nat := 13

  type Slot = s: seq<byte> | |s| == SLOT witness ZeroBytes(SLOT)

  /** Directory fields are plain chars: bytes from 128 on read as negative. */
  function SignedChar(b: byte): int { if b < 128 then b else b - 256 }

  lemma SignedCharIs(b: byte)
    ensures -128 <= SignedChar(b) <= 127 && (b - SignedChar(b)) % 256 == 0
  {
  }

  predicate IsFree(s: Slot) { s[0] == 0 || SignedChar(s[0]) == 0xE5 }
  predicate IsEnd(s: Slot) { s[0] == 0 }
  predicate IsLongName(s: Slot) { s[11] % 16 == 15 }
  predicate IsVolume(s: Slot) { s[11] / 8 % 2 == 1 }

  /** The deleted mark 0xE5 is compared as a signed char and never matches: a
      deleted slot is neither free nor skipped. */
  lemma DeletedNeverSeen(s: Slot)
    ensures IsFree(s) <==> IsEnd(s)
  {
  }

  /** The attribute tests as the code spells them, with `b` the attribute byte: all of
      0x0F marks a long-name slot, 0x08 a volume label, 0x10 a directory. */
  lemma AttributeBits(s: Slot, b: bv8)
    requires s[11] == b as nat
    ensures IsLongName(s) <==> b & 0x0F == 0x0F
    ensures IsVolume(s) <==> b & 0x08 != 0
    ensures s[11] / 16 % 2 == 1 <==> b & 0x10 != 0
  {
    LowNibble(b);
    BitThree(b);
    BitFour(b);
  }

  lemma LowNibble(b: bv8)
    ensures b as nat % 16 == 15 <==> b & 0x0F == 0x0F
  {
  }

  lemma BitThree(b: bv8)
    ensures b as nat / 8 % 2 == 1 <==> b & 0x08 != 0
  {
  }

  lemma BitFour(b: bv8)
    ensures b as nat / 16 % 2 == 1 <==> b & 0x10 != 0
  {
  }

  /** Byte position of long-name character `k` in a slot. */
  function CharAt(k: nat): nat
    requires k < CHUNK
  {
    if k < 5 then 1 + 2 * k else if k < 11 then 14 + 2 * (k - 5) else 28 + 2 * (k - 11)
  }

  /** UCS-2 to ASCII, as the scan does it. */
  function DecodeChar(s: Slot, k: nat): byte
    requires k < CHUNK
  {
    if s[CharAt(k)] < 0x80 && s[CharAt(k) + 1] == 0 then s[CharAt(k)] else QUESTION
  }

  function DecodeChunk(s: Slot): (c: seq<byte>)
    ensures |c| == CHUNK && forall k :: 0 <= k < CHUNK ==> c[k] == DecodeChar(s, k)
  {
    seq(CHUNK, k requires 0 <= k < CHUNK => DecodeChar(s, k))
  }

  // ---------------------------------------------------------------------------
  // Scanning
  // ---------------------------------------------------------------------------

  /** What the scan carries from slot to slot: the long-name buffer and its
      checksum, -1 when there is none. */
  datatype ScanState = ScanState(buf: seq<byte>, sum: int)

  predicate GoodState(st: ScanState) { |st.buf| == LFN_BUF }

  function Fresh(): (st: ScanState)
    ensures GoodState(st)
  {
    ScanState(ZeroBytes(LFN_BUF), -1)
  }

  datatype Verdict = Stop | Hit | Next(st: ScanState)

  function StoreChunk(buf: seq<byte>, at: int, chunk: seq<byte>): (b: seq<byte>)
    requires |buf| == LFN_BUF && |chunk| == CHUNK
    ensures |b| == LFN_BUF
  {
    if 0 <= at < LFN_LIMIT then buf[..at] + chunk + buf[at + CHUNK..] else buf
  }

  function LongName(s: Slot, st: ScanState): (st': ScanState)
    requires GoodState(st)
    ensures GoodState(st')
  {
    var st1 := if s[0] / 64 % 2 == 1 then ScanState(ZeroBytes(LFN_BUF), s[13]) else st;
    st1.(buf := StoreChunk(st1.buf, (s[0] % 64 - 1) * CHUNK, DecodeChunk(s)))
  }

  /** The C string at the start of a buffer. */
  function CString(buf: seq<byte>): (n: Name)
    ensures |n| <= |buf| && n == buf[..|n|] && (|n| < |buf| ==> buf[|n|] == 0)
  {
    buf[..Run(buf, 0)]
  }

  predicate Matches(s: Slot, st: ScanState, name: Name)
    requires GoodState(st)
  {
    || (st.buf[0] != 0 && Checksum(s[..11]) == st.sum && SameNoCase(name, CString(st.buf)))
    || SameNoCase(name, CString(ToNormal(s[..11])))
  }

  /** One turn of the slot loop of fat32_finddir. */
  function ScanSlot(s: Slot, st: ScanState, name: Name): (v: Verdict)
    requires GoodState(st)
    ensures v.Next? ==> GoodState(v.st)
  {
    if s[0] == 0 then Stop
    else if SignedChar(s[0]) == 0xE5 then Next(Fresh())
    else if IsLongName(s) then Next(LongName(s, st))
    else if IsVolume(s) then Next(st.(sum := -1))
    else if Matches(s, st, name) then Hit
    else Next(Fresh())
  }

  datatype Outcome = Found(at: nat) | Ended | Exhausted(st: ScanState)

  function Scan(slots: seq<Slot>, i: nat, st: ScanState, name: Name): (r: Outcome)
    requires GoodState(st) && i <= |slots|
    ensures r.Exhausted? ==> GoodState(r.st)
    ensures r.Found? ==> i <= r.at < |slots|
    decreases |slots| - i
  {
    if i == |slots| then Exhausted(st)
    else
      match ScanSlot(slots[i], st, name)
      case Stop => Ended
      case Hit => Found(i)
      case Next(st') => Scan(slots, i + 1, st', name)
  }

  /** fat32_finddir over the slots of a directory: the index of the match. */
  function Lookup(slots: seq<Slot>, name: Name): (r: Outcome)
    ensures r.Exhausted? ==> GoodState(r.st)
    ensures r.Found? ==> r.at < |slots|
  {
    Scan(slots, 0, Fresh(), name)
  }

  /** The scan depends on nothing behind the slots it has seen. */
  lemma {:induction false} ScanPrefix(a: seq<Slot>, b: seq<Slot>, i: nat, st: ScanState, name: Name)
    requires GoodState(st) && i <= |a|
    ensures !Scan(a, i, st, name).Exhausted? ==> Scan(a + b, i, st, name) == Scan(a, i, st, name)
    ensures Scan(a, i, st, name).Exhausted? ==>
              Scan(a + b, i, st, name) == Scan(a + b, |a|, Scan(a, i, st, name).st, name)
    decreases |a| - i
  {
    if i < |a| {
      assert (a + b)[i] == a[i];
      match ScanSlot(a[i], st, name)
      case Next(st') => ScanPrefix(a, b, i + 1, st', name);
      case _ =>
    }
  }

  /** Index of the first end marker; the length when there is none. */
  function EndAt(slots: seq<Slot>): (e: nat)
    ensures e <= |slots| && (forall i :: 0 <= i < e ==> !IsEnd(slots[i])) && (e < |slots| ==> IsEnd(slots[e]))
  {
    if slots == [] || IsEnd(slots[0]) then 0 else 1 + EndAt(slots[1..])
  }

  lemma {:induction false} ScanNeverEnds(slots: seq<Slot>, i: nat, st: ScanState, name: Name)
    requires GoodState(st) && i <= |slots| && forall k :: i <= k < |slots| ==> !IsEnd(slots[k])
    ensures !Scan(slots, i, st, name).Ended?
    decreases |slots| - i
  {
    if i < |slots| {
      match ScanSlot(slots[i], st, name)
      case Next(st') => ScanNeverEnds(slots, i + 1, st', name);
      case _ =>
    }
  }

  /** Whatever lies behind an end marker is invisible. */
  lemma BehindTheEnd(slots: seq<Slot>, other: seq<Slot>, name: Name)
    requires EndAt(slots) < |slots| && EndAt(slots) < |other|
    requires other[..EndAt(slots) + 1] == slots[..EndAt(slots) + 1]
    ensures Lookup(other, name) == Lookup(slots, name)
  {
    hide *;
    var e := EndAt(slots);
    CommonPrefix(slots, other, e + 1);
    var seen := slots[..e + 1];
    assert seen[|seen| - 1] == slots[e];
    ScanBoth(seen, slots[e + 1..], other[e + 1..], name);
  }

  lemma CommonPrefix<T>(s: seq<T>, t: seq<T>, n: nat)
    requires n <= |s| && n <= |t| && s[..n] == t[..n]
    ensures s == s[..n] + s[n..] && t == s[..n] + t[n..]
  {
  }

  lemma ScanBoth(seen: seq<Slot>, a: seq<Slot>, b: seq<Slot>, name: Name)
    requires seen != [] && IsEnd(seen[|seen| - 1])
    ensures Lookup(seen + a, name) == Lookup(seen + b, name)
  {
    hide IsEnd, ScanSlot, Scan;
    ScanToEnd(seen, 0, Fresh(), name);
    ScanPrefix(seen, a, 0, Fresh(), name);
    ScanPrefix(seen, b, 0, Fresh(), name);
  }

  lemma {:induction false} ScanToEnd(seen: seq<Slot>, i: nat, st: ScanState, name: Name)
    requires GoodState(st) && i < |seen| && IsEnd(seen[|seen| - 1])
    ensures !Scan(seen, i, st, name).Exhausted?
    decreases |seen| - i
  {
    match ScanSlot(seen[i], st, name)
    case Next(st') => ScanToEnd(seen, i + 1, st', name);
    case _ =>
  }

  // ---------------------------------------------------------------------------
  // Writing an entry
  // ---------------------------------------------------------------------------

  /** Low and high byte of long-name character `k` of chunk `i` (from 1). */
  function LongChar(name: Name, i: nat, k: nat): (byte, byte)
    requires 1 <= i
  {
    var at := (i - 1) * CHUNK + k;
    if at < |name| then (name[at], if name[at] < 128 then 0 else 0xFF)
    else if at == |name| then (0, 0)
    else (0xFF, 0xFF)
  }

  /** Long-name slot `i` of `n`. */
  function LongSlot(name: Name, i: nat, n: nat, sum: byte): (s: Slot)
    requires 1 <= i <= n < 64
  {
    [if i == n then i + 0x40 else i]
    + Char(name, i, 0) + Char(name, i, 1) + Char(name, i, 2) + Char(name, i, 3) + Char(name, i, 4)
    + [0x0F, 0, sum]
    + Char(name, i, 5) + Char(name, i, 6) + Char(name, i, 7) + Char(name, i, 8) + Char(name, i, 9)
    + Char(name, i, 10) + [0, 0] + Char(name, i, 11) + Char(name, i, 12)
  }

  function Char(name: Name, i: nat, k: nat): (c: seq<byte>)
    requires 1 <= i
    ensures |c| == 2
  {
    [LongChar(name, i, k).0, LongChar(name, i, k).1]
  }

  const FAT_ATTR_DIRECTORY: byte := 0x10
  const FAT_ATTR_ARCHIVE: byte := 0x20

  function ShortSlot(short: seq<byte>, attr: byte, first: nat): (s: Slot)
    requires |short| == 11
  {
    short + [attr] + ZeroBytes(8) + [LittleByte(first, 2), LittleByte(first, 3)] + ZeroBytes(4)
    + [LittleByte(first, 0), LittleByte(first, 1)] + ZeroBytes(4)
  }

  function LongCount(name: Name): (n: nat)
    ensures |name| <= 255 ==> n <= 20
  {
    if NeedsLong(name) then (|name| + 12) / CHUNK else 0
  }

  /** One long-name slot for each 13 characters begun, for names of more than eight
      characters or with a lower-case letter. */
  lemma LongCountIs(name: Name)
    ensures LongCount(name) ==
            if |name| > 8 || exists i :: 0 <= i < |name| && 0x61 <= name[i] <= 0x7A then (|name| + 12) / 13 else 0
  {
  }

  /** The long-name slots, last chunk first. */
  function LongSlots(name: Name, i: nat, n: nat, sum: byte): (ss: seq<Slot>)
    requires i <= n < 64
    ensures |ss| == i
    decreases i
  {
    if i == 0 then [] else [LongSlot(name, i, n, sum)] + LongSlots(name, i - 1, n, sum)
  }

  /** Everything fat32_create_entry writes. */
  function NewSlots(name: Name, attr: byte, first: nat): (ss: seq<Slot>)
    requires |name| <= 255
    ensures |ss| == LongCount(name) + 1
  {
    var short := ShortFor(name);
    LongSlots(name, LongCount(name), LongCount(name), Checksum(short)) + [ShortSlot(short, attr, first)]
  }

  /** The layout the FAT specification asks of long-name slot `i`: its number, with bit
      6 for the last one, attribute 0x0F, type 0, the checksum, and 13 characters of two
      bytes: the name's, a zero behind them, and 0xFFFF.  A byte from 128 on is extended
      with 0xFF, for the code reads it as a negative char. */
  lemma LongSlotLayout(name: Name, i: nat, n: nat, sum: byte, k: nat)
    requires 1 <= i <= n < 64 && k < 13
    ensures var s := LongSlot(name, i, n, sum);
            && s[0] == (if i == n then 0x40 + i else i) && s[11] == 0x0F && s[12] == 0 && s[13] == sum
            && s[26] == s[27] == 0
    ensures var s, p := LongSlot(name, i, n, sum), 13 * (i - 1) + k;
            var at := if k < 5 then 1 + 2 * k else if k < 11 then 4 + 2 * k else 6 + 2 * k;
            if p < |name| then s[at] == name[p] && s[at + 1] == (if name[p] < 128 then 0x00 else 0xFF)
            else if p == |name| then s[at] == s[at + 1] == 0x00
            else s[at] == s[at + 1] == 0xFF
  {
    hide LongSlot;
    LongSlotEnds(name, i, n, sum);
    LongSlotBytes(name, i, n, sum, k);
  }

  lemma LongSlotEnds(name: Name, i: nat, n: nat, sum: byte)
    requires 1 <= i <= n < 64
    ensures var s := LongSlot(name, i, n, sum);
            && s[0] == (if i == n then 0x40 + i else i) && s[11] == 0x0F && s[12] == 0 && s[13] == sum
            && s[26] == s[27] == 0
  {
    hide LongChar;
  }

  /** The slots come last chunk first. */
  lemma {:induction false} LongSlotsOrder(name: Name, i: nat, n: nat, sum: byte, j: nat)
    requires j < i <= n < 64
    ensures LongSlots(name, i, n, sum)[j] == LongSlot(name, i - j, n, sum)
    decreases i
  {
    hide LongSlot;
    if j > 0 {
      LongSlotsOrder(name, i - 1, n, sum, j - 1);
    }
  }

  // ---------------------------------------------------------------------------
  // Decoding undoes encoding
  // ---------------------------------------------------------------------------

  predicate Ascii(name: Name) { forall i :: 0 <= i < |name| ==> name[i] < 128 }

  /** What a long name reads back as: a byte from 128 on becomes '?'. */
  function Shown(name: Name): (n: Name)
    ensures |n| == |name| && forall i :: 0 <= i < |n| ==> n[i] == if name[i] < 128 then name[i] else QUESTION
  {
    seq(|name|, i requires 0 <= i < |name| => if name[i] < 128 then name[i] else QUESTION)
  }

  lemma ShownIsSame(name: Name)
    ensures SameNoCase(name, Shown(name)) <==> Ascii(name)
  {
    if SameNoCase(name, Shown(name)) {
      forall i | 0 <= i < |name|
        ensures name[i] < 128
      {
        assert Up(name[i]) == Up(Shown(name)[i]);
      }
    }
  }

  function ChunkChar(name: Name, i: nat, k: nat): byte
    requires 1 <= i
  {
    var at := (i - 1) * CHUNK + k;
    if at < |name| then name[at] else if at == |name| then 0 else QUESTION
  }

  lemma LongSlotBytes(name: Name, i: nat, n: nat, sum: byte, k: nat)
    requires 1 <= i <= n < 64 && k < CHUNK
    ensures var s := LongSlot(name, i, n, sum);
            s[CharAt(k)] == LongChar(name, i, k).0 && s[CharAt(k) + 1] == LongChar(name, i, k).1
  {
    hide LongChar;
  }

  lemma LongSlotHeader(name: Name, i: nat, n: nat, sum: byte)
    requires 1 <= i <= n < 64
    ensures var s := LongSlot(name, i, n, sum);
            && s[0] != 0 && s[0] % 64 == i && (s[0] / 64 % 2 == 1 <==> i == n)
            && SignedChar(s[0]) != 0xE5 && IsLongName(s) && s[13] == sum
  {
    hide LongChar;
  }

  lemma LongSlotDecodes(name: Name, i: nat, n: nat, sum: byte)
    requires 1 <= i <= n < 64
    ensures forall k :: 0 <= k < CHUNK ==> DecodeChunk(LongSlot(name, i, n, sum))[k] == ChunkChar(Shown(name), i, k)
  {
    forall k | 0 <= k < CHUNK
      ensures DecodeChunk(LongSlot(name, i, n, sum))[k] == ChunkChar(Shown(name), i, k)
    {
      hide LongSlot;
      LongSlotBytes(name, i, n, sum, k);
    }
  }

  /** The scan state after the long-name slots `i`, ..., 1 of `n`. */
  function Absorb(st: ScanState, name: Name, i: nat, n: nat, sum: byte): (st': ScanState)
    requires GoodState(st) && i <= n < 64
    ensures GoodState(st')
    decreases i
  {
    if i == 0 then st else Absorb(LongName(LongSlot(name, i, n, sum), st), name, i - 1, n, sum)
  }

  lemma {:induction false} ScanAbsorbs(slots: seq<Slot>, at: nat, st: ScanState, search: Name,
                                       name: Name, i: nat, n: nat, sum: byte)
    requires GoodState(st) && i <= n < 64 && at + i <= |slots|
    requires slots[at..at + i] == LongSlots(name, i, n, sum)
    ensures Scan(slots, at, st, search) == Scan(slots, at + i, Absorb(st, name, i, n, sum), search)
    decreases i
  {
    hide LongSlot, LongName, IsVolume, Matches, DecodeChunk;
    if i > 0 {
      LongSlotHeader(name, i, n, sum);
      assert slots[at] == slots[at..at + i][0] == LongSlot(name, i, n, sum);
      assert slots[at + 1..at + i] == slots[at..at + i][1..] == LongSlots(name, i - 1, n, sum);
      assert ScanSlot(slots[at], st, search) == Next(LongName(slots[at], st));
      hide ScanSlot;
      ScanAbsorbs(slots, at + 1, LongName(slots[at], st), search, name, i - 1, n, sum);
    }
  }

  /** The buffer holds the name from position 13 * i on, and its terminator. */
  predicate Holds(st: ScanState, name: Name, i: nat, sum: byte) {
    && GoodState(st) && st.sum == sum && |name| < LFN_BUF
    && (forall p :: i * CHUNK <= p < |name| ==> st.buf[p] == name[p])
    && st.buf[|name|] == 0
  }

  lemma AbsorbStep(st: ScanState, name: Name, i: nat, n: nat, sum: byte)
    requires GoodState(st) && 1 <= i <= n <= 19
    requires (n - 1) * CHUNK < |name| <= n * CHUNK
    requires i < n ==> Holds(st, Shown(name), i, sum)
    ensures Holds(LongName(LongSlot(name, i, n, sum), st), Shown(name), i - 1, sum)
  {
    var s := LongSlot(name, i, n, sum);
    LongSlotHeader(name, i, n, sum);
    LongSlotDecodes(name, i, n, sum);
    LongNameOf(s, st, i, i == n);
    var st1 := if i == n then ScanState(ZeroBytes(LFN_BUF), sum) else st;
    hide *;
    ChunkStored(st1.buf, DecodeChunk(s), Shown(name), i);
    StepHolds(LongName(s, st), Shown(name), i, sum);
  }

  lemma StepHolds(st': ScanState, name: Name, i: nat, sum: byte)
    requires 1 <= i && |name| < LFN_BUF && GoodState(st') && st'.sum == sum
    requires (forall p :: (i - 1) * CHUNK <= p < |name| ==> st'.buf[p] == name[p])
    requires st'.buf[|name|] == 0
    ensures Holds(st', name, i - 1, sum)
  {
  }

  lemma LongNameOf(s: Slot, st: ScanState, i: nat, last: bool)
    requires GoodState(st) && 1 <= i && s[0] % 64 == i && (s[0] / 64 % 2 == 1 <==> last)
    ensures var st1 := if last then ScanState(ZeroBytes(LFN_BUF), s[13]) else st;
            LongName(s, st) == st1.(buf := StoreChunk(st1.buf, (i - 1) * CHUNK, DecodeChunk(s)))
  {
  }

  lemma ChunkStored(buf: seq<byte>, c: seq<byte>, name: Name, i: nat)
    requires |buf| == LFN_BUF && |c| == CHUNK && 1 <= i <= 19 && |name| < LFN_BUF
    requires (i - 1) * CHUNK <= |name|
    requires forall k :: 0 <= k < CHUNK ==> c[k] == ChunkChar(name, i, k)
    requires forall p :: i * CHUNK <= p < |name| ==> buf[p] == name[p]
    requires i * CHUNK <= |name| ==> buf[|name|] == 0
    ensures var b := StoreChunk(buf, (i - 1) * CHUNK, c);
            && (forall p :: (i - 1) * CHUNK <= p < |name| ==> b[p] == name[p])
            && b[|name|] == 0
  {
    var at := (i - 1) * CHUNK;
    var b := StoreChunk(buf, at, c);
    assert b == buf[..at] + c + buf[at + CHUNK..];
    forall p | at <= p <= |name|
      ensures b[p] == if p < |name| then name[p] else 0
    {
      if p < at + CHUNK {
        assert b[p] == c[p - at] == ChunkChar(name, i, p - at);
      } else {
        assert b[p] == buf[p];
      }
    }
  }

  lemma {:induction false} AbsorbHolds(st: ScanState, name: Name, i: nat, n: nat, sum: byte)
    requires GoodState(st) && i <= n <= 19 && 1 <= n
    requires (n - 1) * CHUNK < |name| <= n * CHUNK
    requires i < n ==> Holds(st, Shown(name), i, sum)
    ensures Holds(Absorb(st, name, i, n, sum), Shown(name), 0, sum)
    decreases i
  {
    hide LongSlot, LongName, Holds;
    if i > 0 {
      AbsorbStep(st, name, i, n, sum);
      AbsorbHolds(LongName(LongSlot(name, i, n, sum), st), name, i - 1, n, sum);
    }
  }

  lemma HeldNameReads(st: ScanState, name: Name, sum: byte)
    requires Holds(st, name, 0, sum)
    ensures CString(st.buf) == name
  {
    RunUnique(st.buf, 0, |name|);
    assert st.buf[..|name|] == name;
  }
}
