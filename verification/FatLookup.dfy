/** What fat32_finddir (fat32_vfs.c) finds in directories written by any driver. */
module FatLookup {
  import opened Basics
  import opened FatNames
  import opened FatDirectory

  /** The name of up to eight characters, and the extension of up to three behind a
      dot, each up to its first space, in any case. */
  predicate ReadsAs(s: Slot, name: Name) {
    var b, e := Run(s[..8], 0x20), Run(s[8..11], 0x20);
    && |name| == b + (if e > 0 then 1 + e else 0)
    && (forall i :: 0 <= i < b ==> Up(name[i]) == Up(s[i]))
    && (e > 0 ==> name[b] == 0x2E && forall i :: b < i < |name| ==> Up(name[i]) == Up(s[7 - b + i]))
  }

  lemma NormalBytes(f: seq<byte>)
    requires |f| == 11
    ensures var n, b, e := ToNormal(f), Run(f[..8], 0x20), Run(f[8..], 0x20);
            && |n| == b + (if e > 0 then 1 + e else 0)
            && (forall i :: 0 <= i < b ==> n[i] == Low(f[i]))
            && (e > 0 ==> n[b] == 0x2E && forall i :: b < i < |n| ==> n[i] == Low(f[7 - b + i]))
  {
    hide Lowers, Low;
    var b, e := Run(f[..8], 0x20), Run(f[8..], 0x20);
    assert f[8..][0] == f[8];
    assert e > 0 <==> f[8] != SPACE;
  }

  lemma CapitalOfLow(b: byte)
    ensures Up(Low(b)) == Up(b) && (Up(b) == Up(0x2E) <==> b == 0x2E)
  {
  }

  /** fat32_to_normal_name reads exactly that, for names without a zero byte. */
  lemma ReadsAsIs(s: Slot, name: Name)
    requires forall i :: 0 <= i < 11 ==> s[i] != 0
    ensures ReadsAs(s, name) <==> SameNoCase(name, CString(ToNormal(s[..11])))
  {
    var f := s[..11];
    NormalBytes(f);
    assert f[..8] == s[..8] && f[8..] == s[8..11];
    hide *;
    var n, b, e := ToNormal(f), Run(s[..8], 0x20), Run(s[8..11], 0x20);
    RunBounds(s[..8]);
    RunBounds(s[8..11]);
    NoZeros(s, n, b, e);
    WholeString(n);
    SameAsRead(s, n, b, e, name);
  }

  lemma SameAsRead(s: Slot, n: seq<byte>, b: nat, e: nat, name: Name)
    requires b == Run(s[..8], 0x20) <= 8 && e == Run(s[8..11], 0x20) <= 3
    requires |n| == b + (if e > 0 then 1 + e else 0) && forall i :: 0 <= i < b ==> n[i] == Low(s[i])
    requires e > 0 ==> n[b] == 0x2E && forall i :: b < i < |n| ==> n[i] == Low(s[7 - b + i])
    ensures ReadsAs(s, name) <==> SameNoCase(name, n)
  {
    forall b: byte
      ensures Up(Low(b)) == Up(b) && (Up(b) == Up(0x2E) <==> b == 0x2E)
    {
      CapitalOfLow(b);
    }
    hide Run, Up, Low;
    forall i | 0 <= i < |n|
      ensures Up(n[i]) == if i < b then Up(s[i]) else if i == b then Up(0x2E) else Up(s[7 - b + i])
    {
    }
  }

  lemma RunBounds(s: seq<byte>)
    ensures Run(s, 0x20) <= |s|
  {
  }

  lemma NoZeros(s: Slot, n: seq<byte>, b: nat, e: nat)
    requires (forall i :: 0 <= i < 11 ==> s[i] != 0) && b <= 8 && e <= 3
    requires |n| == b + (if e > 0 then 1 + e else 0) && forall i :: 0 <= i < b ==> n[i] == Low(s[i])
    requires e > 0 ==> n[b] == 0x2E && forall i :: b < i < |n| ==> n[i] == Low(s[7 - b + i])
    ensures forall i :: 0 <= i < |n| ==> n[i] != 0
  {
  }

  lemma WholeString(n: seq<byte>)
    requires forall i :: 0 <= i < |n| ==> n[i] != 0
    ensures CString(n) == n
  {
    RunUnique(n, 0, |n|);
  }

  // ---------------------------------------------------------------------------
  // What is there is found
  // ---------------------------------------------------------------------------

  /** A slot of a file or directory: volume bit clear. */
  predicate Plain(s: Slot) { s[11] / 8 % 2 == 0 }

  lemma {:induction false} ScanFinds(slots: seq<Slot>, j: nat, st: ScanState, name: Name, i: nat)
    requires GoodState(st) && j <= i < EndAt(slots) && Plain(slots[i])
    requires SameNoCase(name, CString(ToNormal(slots[i][..11])))
    ensures Scan(slots, j, st, name).Found? && j <= Scan(slots, j, st, name).at <= i
    decreases i - j
  {
    hide LongName, Checksum, SameNoCase;
    assert !IsEnd(slots[j]);
    if j < i {
      match ScanSlot(slots[j], st, name)
      case Stop => assert false;
      case Hit =>
      case Next(st') => ScanFinds(slots, j + 1, st', name, i);
    } else {
      assert !IsLongName(slots[i]) && !IsVolume(slots[i]);
    }
  }

  /** A file or directory in front of the first end mark is found under its 8.3 name,
      unless an earlier one is, whatever long-name slots lie between. */
  lemma ShortNameIsFound(slots: seq<Slot>, i: nat, name: Name)
    requires i < EndAt(slots) && Plain(slots[i]) && (forall k :: 0 <= k < 11 ==> slots[i][k] != 0)
    requires ReadsAs(slots[i], name)
    ensures Lookup(slots, name).Found? && Lookup(slots, name).at <= i
  {
    ReadsAsIs(slots[i], name);
    ScanFinds(slots, 0, Fresh(), name, i);
  }

  lemma {:induction false} ScanReaches(slots: seq<Slot>, j: nat, st: ScanState, name: Name, i: nat)
    requires GoodState(st) && j <= i <= EndAt(slots)
    ensures var r := Scan(slots, j, st, name);
            (r.Found? && j <= r.at < i) || exists st' :: GoodState(st') && r == Scan(slots, i, st', name)
    decreases i - j
  {
    hide ScanSlot;
    if j < i {
      NotStop(slots[j], st, name);
      match ScanSlot(slots[j], st, name)
      case Stop => assert false;
      case Hit =>
      case Next(st') => ScanReaches(slots, j + 1, st', name, i);
    }
  }

  lemma NotStop(s: Slot, st: ScanState, name: Name)
    requires GoodState(st) && !IsEnd(s)
    ensures !ScanSlot(s, st, name).Stop?
  {
  }

  /** An ASCII name of up to 247 characters in long-name slots of the standard layout,
      last chunk first and with the checksum of the short name behind them, is found
      there, unless an earlier one is. */
  lemma LongNameIsFound(slots: seq<Slot>, i: nat, n: nat, name: Name)
    requires 1 <= n <= 19 && i + n < EndAt(slots) && (n - 1) * 13 < |name| <= n * 13 && Ascii(name)
    requires slots[i..i + n] == LongSlots(name, n, n, Checksum(slots[i + n][..11])) && Plain(slots[i + n])
    ensures Lookup(slots, name).Found? && Lookup(slots, name).at <= i + n
  {
    hide LongSlots, LongName, LongSlot, Checksum, SameNoCase, Ascii, Shown, Absorb, CString, Holds, Scan, ScanSlot, EndAt, Plain;
    ScanReaches(slots, 0, Fresh(), name, i);
    if !(Lookup(slots, name).Found? && Lookup(slots, name).at < i) {
      var st :| GoodState(st) && Lookup(slots, name) == Scan(slots, i, st, name);
      var sum := Checksum(slots[i + n][..11]);
      ScanAbsorbs(slots, i, st, name, name, n, n, sum);
      AbsorbHolds(st, name, n, n, sum);
      var st' := Absorb(st, name, n, n, sum);
      HeldNameReads(st', Shown(name), sum);
      ShownIsSame(name);
      ShownStarts(name);
      HeldStarts(st', Shown(name), sum);
      LongHit(slots, i + n, st', name);
    }
  }

  lemma LongHit(slots: seq<Slot>, i: nat, st: ScanState, name: Name)
    requires i < EndAt(slots) && Plain(slots[i]) && GoodState(st)
    requires st.buf[0] != 0 && st.sum == Checksum(slots[i][..11]) && SameNoCase(name, CString(st.buf))
    ensures Scan(slots, i, st, name) == Found(i)
  {
    hide Checksum, SameNoCase, CString, ToNormal;
    assert !IsEnd(slots[i]) && !IsLongName(slots[i]) && !IsVolume(slots[i]);
  }

  lemma HeldStarts(st: ScanState, name: Name, sum: byte)
    requires Holds(st, name, 0, sum) && name != []
    ensures GoodState(st) && st.buf[0] != 0 && st.sum == sum
  {
  }

  lemma ShownStarts(name: Name)
    requires name != []
    ensures Shown(name) != []
  {
  }

  // ---------------------------------------------------------------------------
  // What is found is there
  // ---------------------------------------------------------------------------

  /** Slots `k` to `i` are long-name slots, and the first of them alone has bit 6 set,
      which marks the last chunk of a name. */
  ghost predicate OneLongName(slots: seq<Slot>, k: nat, i: nat) {
    && k < i <= |slots| && slots[k][0] / 64 % 2 == 1
    && (forall j :: k <= j < i ==> slots[j][11] % 16 == 15)
    && (forall j :: k < j < i ==> slots[j][0] / 64 % 2 == 0)
  }

  /** One of those slots has character `p` of the name, as its number says. */
  ghost predicate HasChar(slots: seq<Slot>, k: nat, i: nat, p: nat, c: byte)
    requires i <= |slots|
  {
    exists j :: k <= j < i && IsCharOf(slots[j], p, c)
  }

  predicate IsCharOf(s: Slot, p: nat, c: byte) {
    var order: int := s[0] % 64;
    var q := p + 13 - 13 * order;
    && 0 <= q < 13
    && var at := if q < 5 then 1 + 2 * q else if q < 11 then 4 + 2 * q else 6 + 2 * q;
       c == if s[at] < 0x80 && s[at + 1] == 0 then s[at] else 0x3F
  }

  /** What the scan carries comes from the long-name slots right behind it. */
  ghost predicate Carried(slots: seq<Slot>, i: nat, st: ScanState)
    requires i <= |slots| && GoodState(st)
  {
    st.sum == -1 || exists k: nat :: CarriedFrom(slots, k, i, st)
  }

  ghost predicate CarriedFrom(slots: seq<Slot>, k: nat, i: nat, st: ScanState)
    requires i <= |slots| && GoodState(st)
  {
    && OneLongName(slots, k, i) && st.sum == slots[k][13]
    && forall p :: 0 <= p < LFN_BUF && st.buf[p] != 0 ==> HasChar(slots, k, i, p, st.buf[p])
  }

  lemma ChunkComes(s: Slot, buf: seq<byte>, p: nat)
    requires |buf| == LFN_BUF && p < LFN_BUF
    ensures var b := StoreChunk(buf, (s[0] % 64 - 1) * CHUNK, DecodeChunk(s));
            b[p] == buf[p] || IsCharOf(s, p, b[p])
  {
    var at := (s[0] % 64 - 1) * CHUNK;
    hide DecodeChunk;
    var c := DecodeChunk(s);
    if 0 <= at < LFN_LIMIT && at <= p < at + CHUNK {
      assert StoreChunk(buf, at, c)[p] == c[p - at];
      CharComes(s, p - at);
    }
  }

  lemma CharComes(s: Slot, k: nat)
    requires k < CHUNK
    ensures var at := if k < 5 then 1 + 2 * k else if k < 11 then 4 + 2 * k else 6 + 2 * k;
            DecodeChunk(s)[k] == if s[at] < 0x80 && s[at + 1] == 0 then s[at] else 0x3F
  {
  }

  lemma LongNameCarries(slots: seq<Slot>, i: nat, st: ScanState)
    requires i < |slots| && GoodState(st) && Carried(slots, i, st) && IsLongName(slots[i])
    ensures Carried(slots, i + 1, LongName(slots[i], st))
  {
    var s := slots[i];
    var st' := LongName(s, st);
    var last := s[0] / 64 % 2 == 1;
    if last || st.sum != -1 {
      var k: nat := if last then i else var k: nat :| CarriedFrom(slots, k, i, st); k;
      var buf := if last then ZeroBytes(LFN_BUF) else st.buf;
      hide StoreChunk, DecodeChunk;
      forall p | 0 <= p < LFN_BUF && st'.buf[p] != 0
        ensures HasChar(slots, k, i + 1, p, st'.buf[p])
      {
        ChunkComes(s, buf, p);
        if IsCharOf(s, p, st'.buf[p]) {
          assert IsCharOf(slots[i], p, st'.buf[p]);
        } else {
          assert HasChar(slots, k, i, p, buf[p]);
        }
      }
      assert CarriedFrom(slots, k, i + 1, st');
    }
  }

  /** Why slot `at` matches: its 8.3 name, or the long name in the slots in front, whose
      checksum is that of the 8.3 name. */
  ghost predicate Justified(slots: seq<Slot>, at: nat, name: Name)
    requires at < |slots|
  {
    || SameNoCase(name, CString(ToNormal(slots[at][..11])))
    || exists k: nat :: OneLongName(slots, k, at) && slots[k][13] == Checksum(slots[at][..11]) && Spelled(slots, k, at, name)
  }

  ghost predicate Spelled(slots: seq<Slot>, k: nat, at: nat, name: Name)
    requires at <= |slots|
  {
    forall p: nat :: p < |name| ==> SpelledAt(slots, k, at, p, name[p])
  }

  ghost predicate SpelledAt(slots: seq<Slot>, k: nat, at: nat, p: nat, letter: byte)
    requires at <= |slots|
  {
    exists c: byte :: HasChar(slots, k, at, p, c) && Up(c) == Up(letter)
  }

  lemma BufferSpells(slots: seq<Slot>, k: nat, i: nat, st: ScanState, name: Name)
    requires i <= |slots| && GoodState(st) && CarriedFrom(slots, k, i, st) && SameNoCase(name, CString(st.buf))
    ensures Spelled(slots, k, i, name)
  {
    hide OneLongName, HasChar, Up;
    var n := CString(st.buf);
    forall p: nat | p < |name|
      ensures SpelledAt(slots, k, i, p, name[p])
    {
      assert n[p] == st.buf[p] != 0;
      assert HasChar(slots, k, i, p, n[p]) && Up(n[p]) == Up(name[p]);
    }
  }

  lemma HitIsJustified(slots: seq<Slot>, i: nat, st: ScanState, name: Name)
    requires i < |slots| && GoodState(st) && Carried(slots, i, st) && Matches(slots[i], st, name)
    ensures Justified(slots, i, name)
  {
    hide Checksum, ToNormal, OneLongName, HasChar, Spelled, SameNoCase, CString;
    if !SameNoCase(name, CString(ToNormal(slots[i][..11]))) {
      var k: nat :| CarriedFrom(slots, k, i, st);
      BufferSpells(slots, k, i, st, name);
    }
  }

  lemma {:induction false} ScanJustified(slots: seq<Slot>, i: nat, st: ScanState, name: Name)
    requires i <= EndAt(slots) && GoodState(st) && Carried(slots, i, st)
    ensures var r := Scan(slots, i, st, name);
            r.Found? ==> r.at < EndAt(slots) && Plain(slots[r.at]) && Justified(slots, r.at, name)
    decreases |slots| - i
  {
    hide Carried, Justified, LongName, Matches;
    if i < |slots| && !IsEnd(slots[i]) {
      assert i < EndAt(slots);
      if IsLongName(slots[i]) {
        LongNameCarries(slots, i, st);
      } else if !IsVolume(slots[i]) && Matches(slots[i], st, name) {
        HitIsJustified(slots, i, st, name);
      }
      NothingCarried(slots, i + 1);
      match ScanSlot(slots[i], st, name)
      case Stop =>
      case Hit =>
      case Next(st') => ScanJustified(slots, i + 1, st', name);
    }
  }

  lemma NothingCarried(slots: seq<Slot>, i: nat)
    requires i <= |slots|
    ensures forall st :: GoodState(st) && st.sum == -1 ==> Carried(slots, i, st)
  {
  }

  /** What is found is a file or directory in front of the first end mark, and its 8.3
      name or the long name spelled in the slots right in front of it, with its
      checksum, is the name looked for. */
  lemma FoundIsEntry(slots: seq<Slot>, name: Name)
    ensures var r := Lookup(slots, name);
            r.Found? ==> r.at < EndAt(slots) && Plain(slots[r.at]) && Justified(slots, r.at, name)
  {
    NothingCarried(slots, 0);
    ScanJustified(slots, 0, Fresh(), name);
  }
}
