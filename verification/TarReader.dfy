/** tar_extract_all (tar_extract.c) inverts writing an archive (POSIX.1 pax utility,
    "ustar Interchange Format"). */
module TarReader {
  import opened Basics

  const BLOCK: nat := 512
  const SIZE_AT: nat := 124
  const SIZE_DIGITS: nat := 11
  const TYPE_AT: nat := 156
  const MAGIC_AT: nat := 257

  const ZERO_CHAR: byte := 0x30
  const DIRECTORY: byte := 0x35
  const FIFO: byte := 0x36

  // ---------------------------------------------------------------------------
  // Reading
  // ---------------------------------------------------------------------------

  predicate IsOctal(b: byte) { 0x30 <= b <= 0x37 }

  /** octal_to_uint64 on a field: digits up to the first other character. */
  function Octal(s: seq<byte>, result: nat): nat
    decreases |s|
  {
    if s == [] || !IsOctal(s[0]) then result else Octal(s[1..], result * 8 + (s[0] - ZERO_CHAR))
  }

  /** Length of the C string at the start of `s`. */
  function StrLen(s: seq<byte>): (n: nat)
    ensures n <= |s| && (forall i :: 0 <= i < n ==> s[i] != 0) && (n < |s| ==> s[n] == 0)
  {
    if s == [] || s[0] == 0 then 0 else 1 + StrLen(s[1..])
  }

  /** A callback: name, and where the data pointer and size point. */
  datatype Event = File(name: seq<byte>, at: nat, size: nat) | Dir(name: seq<byte>)

  /** A whole number of blocks. */
  predicate Aligned(n: nat) { n % 512 == 0 }

  function Padded(size: nat): (p: nat)
    ensures Aligned(p) && size <= p < size + 512
  {
    PaddedIs(size);
    (size + BLOCK - 1) / BLOCK * BLOCK
  }

  lemma PaddedIs(size: nat)
    ensures var p := (size + BLOCK - 1) / BLOCK * BLOCK; Aligned(p) && size <= p < size + 512
  {
    var q := (size + BLOCK - 1) / BLOCK;
    assert q * BLOCK % BLOCK == 0;
  }

  /** Where the next header starts. */
  function NextHeader(offset: nat, size: nat): (next: nat)
    ensures Aligned(offset) ==> Aligned(next)
    ensures offset + 512 + size <= next < offset + 1024 + size
  {
    Sum(offset, Padded(size));
    offset + BLOCK + Padded(size)
  }

  lemma Sum(a: nat, b: nat)
    ensures Aligned(a) && Aligned(b) ==> Aligned(a + BLOCK + b)
  {
  }

  function NameAt(data: seq<byte>, offset: nat): seq<byte>
    requires offset <= |data|
  {
    data[offset..offset + StrLen(data[offset..])]
  }

  function SizeAt(data: seq<byte>, offset: nat): nat
    requires offset + BLOCK <= |data|
  {
    Octal(data[offset + SIZE_AT..offset + SIZE_AT + SIZE_DIGITS], 0)
  }

  function EventAt(data: seq<byte>, offset: nat): Option<Event>
    requires offset + BLOCK <= |data|
  {
    var kind := data[offset + TYPE_AT];
    if kind == ZERO_CHAR || kind == 0 then Some(File(NameAt(data, offset), offset + BLOCK, SizeAt(data, offset)))
    else if kind == DIRECTORY then Some(Dir(NameAt(data, offset)))
    else None
  }

  /** The headers visited from `offset` on. */
  function Scan(data: seq<byte>, offset: nat): (evs: seq<Event>)
    requires Aligned(offset)
    decreases |data| - offset
  {
    if offset + BLOCK > |data| || data[offset] == 0 then []
    else
      var rest := Scan(data, NextHeader(offset, SizeAt(data, offset)));
      match EventAt(data, offset)
      case None => rest
      case Some(ev) => [ev] + rest
  }

  /** Calls up to and including the first that returns nonzero, and the result. */
  function Calls(evs: seq<Event>, callback: Event -> int): (seq<Event>, int) {
    if evs == [] then ([], 0)
    else if callback(evs[0]) != 0 then ([evs[0]], callback(evs[0]))
    else
      var (calls, r) := Calls(evs[1..], callback);
      ([evs[0]] + calls, r)
  }

  /** The magic number decides nothing: the all-zero block it looks for has
      already ended the loop. */
  lemma MagicIgnored(data: seq<byte>, offset: nat)
    requires offset + BLOCK <= |data| && data[offset] != 0
    ensures data[offset..offset + BLOCK] != seq(BLOCK, _ => 0)
  {
    assert data[offset..offset + BLOCK][0] == data[offset];
  }

  lemma ScanStep(data: seq<byte>, offset: nat)
    requires Aligned(offset)
    ensures offset + BLOCK > |data| || data[offset] == 0 ==> Scan(data, offset) == []
    ensures offset + BLOCK <= |data| && data[offset] != 0 ==>
              Scan(data, offset) == Listed(EventAt(data, offset)) + Scan(data, NextHeader(offset, SizeAt(data, offset)))
  {
    hide EventAt, SizeAt;
  }

  function Listed(ev: Option<Event>): seq<Event> { if ev.None? then [] else [ev.value] }

  lemma {:induction false} CallsSplit(a: seq<Event>, b: seq<Event>, callback: Event -> int)
    requires forall i :: 0 <= i < |a| ==> callback(a[i]) == 0
    ensures Calls(a + b, callback) == (a + Calls(b, callback).0, Calls(b, callback).1)
  {
    if a == [] {
      assert a + b == b && [] + Calls(b, callback).0 == Calls(b, callback).0;
    } else {
      CallsSplit(a[1..], b, callback);
      assert (a + b)[1..] == a[1..] + b;
      assert a + Calls(b, callback).0 == [a[0]] + (a[1..] + Calls(b, callback).0);
    }
  }

  lemma StopsHere(a: seq<Event>, ev: Event, b: seq<Event>, callback: Event -> int)
    requires (forall i :: 0 <= i < |a| ==> callback(a[i]) == 0) && callback(ev) != 0
    ensures Calls(a + ([ev] + b), callback) == (a + [ev], callback(ev))
  {
    CallsSplit(a, [ev] + b, callback);
  }

  /** octal_to_uint64 */
  method OctalToNumber(s: seq<byte>) returns (result: nat)
    ensures result == Octal(s, 0)
  {
    result := 0;
    var i := 0;
    while i < |s| && IsOctal(s[i])
      invariant 0 <= i <= |s| && Octal(s, 0) == Octal(s[i..], result)
    {
      assert s[i..][1..] == s[i + 1..];
      result := result * 8 + (s[i] - ZERO_CHAR);
      i := i + 1;
    }
  }

  /** tar_extract_all: the callbacks made, in order, and the result. */
  method ExtractAll(data: seq<byte>, callback: Event -> int) returns (result: int, calls: seq<Event>)
    ensures |data| < BLOCK ==> result == -1 && calls == []
    ensures |data| >= BLOCK ==> (calls, result) == Calls(Scan(data, 0), callback)
  {
    calls := [];
    if |data| < BLOCK {
      return -1, calls;
    }
    hide Calls, EventAt, Scan, SizeAt, Octal, NextHeader, Padded;
    assert Aligned(0);
    hide Aligned;
    var offset: nat := 0;
    while offset + BLOCK <= |data|
      invariant Aligned(offset) && Scan(data, 0) == calls + Scan(data, offset)
      invariant forall i :: 0 <= i < |calls| ==> callback(calls[i]) == 0
      decreases |data| - offset
    {
      ScanStep(data, offset);
      if data[offset] == 0 {
        break;
      }
      var size := OctalToNumber(data[offset + SIZE_AT..offset + SIZE_AT + SIZE_DIGITS]);
      var ev := EventAt(data, offset);
      assert size == SizeAt(data, offset) by { SizeIs(data, offset); }
      ghost var rest := Scan(data, NextHeader(offset, size));
      Regroup(calls, Listed(ev), rest);
      if ev.Some? {
        if callback(ev.value) != 0 {
          StopsHere(calls, ev.value, rest, callback);
          return callback(ev.value), calls + [ev.value];
        }
        calls := calls + [ev.value];
      }
      offset := NextHeader(offset, size);
    }
    ScanStep(data, offset);
    CallsSplit(calls, [], callback);
    NoCalls(callback);
    Regroup(calls, [], []);
    result := 0;
  }

  lemma SizeIs(data: seq<byte>, offset: nat)
    requires offset + BLOCK <= |data|
    ensures SizeAt(data, offset) == Octal(data[offset + SIZE_AT..offset + SIZE_AT + SIZE_DIGITS], 0)
  {
  }

  lemma NoCalls(callback: Event -> int)
    ensures Calls([], callback) == ([], 0)
  {
  }

  // ---------------------------------------------------------------------------
  // Writing
  // ---------------------------------------------------------------------------

  /** Character and block devices and FIFOs: like a directory they have no data,
      whatever their size field says. */
  predicate IsDevice(kind: byte) { kind == 0x33 || kind == 0x34 || kind == FIFO }

  /** What an archive member is: a file, a directory, or a type the reader does not
      know. */
  datatype Member = Regular(name: seq<byte>, content: seq<byte>) | Directory(name: seq<byte>, size: nat)
                  | Other(name: seq<byte>, kind: byte, size: nat, content: seq<byte>)
  {
    function Data(): seq<byte> { if Directory? then [] else content }
    function SizeField(): nat { if Regular? then |content| else size }

    predicate WithoutData() { Directory? || (Other? && IsDevice(kind)) }

    /** Names under 100 bytes, sizes below 8^11; a record that has data says how
        much. */
    predicate Storable() {
      && 0 < |name| < 100 && (forall i :: 0 <= i < |name| ==> name[i] != 0)
      && SizeField() < 0x2_0000_0000
      && (Other? ==> kind != 0x30 && kind != 0 && kind != 0x35)
      && if WithoutData() then Data() == [] else SizeField() == |Data()|
    }
  }

  /** Records without data have size field 0, as the reader needs it. */
  predicate NoFreeSizes(ms: seq<Member>) {
    forall i :: 0 <= i < |ms| && ms[i].WithoutData() ==> ms[i].SizeField() == 0
  }

  /** The last `n` octal digits of `v`, most significant first. */
  function Digits(v: nat, n: nat): (s: seq<byte>)
    ensures |s| == n
  {
    if n == 0 then [] else Digits(v / 8, n - 1) + [0x30 + v % 8]
  }

  function Power8(n: nat): (p: nat)
    ensures p > 0
  {
    if n == 0 then 1 else 8 * Power8(n - 1)
  }

  lemma {:induction false} OctalAppend(s: seq<byte>, d: byte, r: nat)
    requires (forall i :: 0 <= i < |s| ==> IsOctal(s[i])) && IsOctal(d)
    ensures Octal(s + [d], r) == Octal(s, r) * 8 + (d - ZERO_CHAR)
    decreases |s|
  {
    if s == [] {
      assert (s + [d])[1..] == [];
    } else {
      assert (s + [d])[1..] == s[1..] + [d];
      OctalAppend(s[1..], d, r * 8 + (s[0] - ZERO_CHAR));
    }
  }

  /** Any other character ends the number, whatever lies behind it. */
  lemma {:induction false} OctalEnds(s: seq<byte>, x: byte, rest: seq<byte>, r: nat)
    requires (forall i :: 0 <= i < |s| ==> 0x30 <= s[i] <= 0x37) && (x < 0x30 || x > 0x37)
    ensures Octal(s + [x] + rest, r) == Octal(s, r)
    decreases |s|
  {
    if s != [] {
      assert (s + [x] + rest)[1..] == s[1..] + [x] + rest;
      OctalEnds(s[1..], x, rest, r * 8 + (s[0] - 0x30));
    }
  }

  lemma {:induction false} DigitsAreOctal(v: nat, n: nat)
    ensures forall i :: 0 <= i < n ==> 0x30 <= Digits(v, n)[i] <= 0x37
  {
    if n > 0 {
      DigitsAreOctal(v / 8, n - 1);
    }
  }

  /** Octal digits read back. */
  lemma {:induction false} OctalTrip(v: nat, n: nat)
    requires v < Power8(n)
    ensures Octal(Digits(v, n), 0) == v
    decreases n
  {
    if n > 0 {
      OctalTrip(v / 8, n - 1);
      DigitsAreOctal(v / 8, n - 1);
      OctalAppend(Digits(v / 8, n - 1), ZERO_CHAR + v % 8, 0);
    }
  }

  lemma ElevenDigits()
    ensures Power8(SIZE_DIGITS) == 0x2_0000_0000
  {
    assert Power8(4) == 4096;
    assert Power8(8) == 8 * (8 * (8 * (8 * Power8(4))));
    assert Power8(11) == 8 * (8 * (8 * Power8(8)));
  }

  /** A header block for `m`: name padded with zeros, size in octal, type flag;
      every other byte is free. */
  predicate IsHeader(h: seq<byte>, m: Member) {
    && |h| == 512 && m.Storable()
    && h[..|m.name|] == m.name && (forall i :: |m.name| <= i < 100 ==> h[i] == 0)
    && h[124..135] == Digits(m.SizeField(), 11)
    && match m
       case Regular(_, _) => h[156] == 0x30 || h[156] == 0
       case Directory(_, _) => h[156] == 0x35
       case Other(_, kind, _, _) => h[156] == kind
  }

  /** From `offset` on the bytes are an archive of `ms`: headers, data padded to
      whole blocks, and a zero byte or too little for a block behind the last. */
  ghost predicate Archive(data: seq<byte>, offset: nat, ms: seq<Member>)
    decreases |ms|
  {
    && Aligned(offset) && offset <= |data|
    && if ms == [] then offset + BLOCK > |data| || data[offset] == 0
       else
         && NextHeader(offset, |ms[0].Data()|) <= |data|
         && IsHeader(data[offset..offset + BLOCK], ms[0])
         && data[offset + BLOCK..offset + BLOCK + |ms[0].Data()|] == ms[0].Data()
         && Archive(data, NextHeader(offset, |ms[0].Data()|), ms[1..])
  }

  /** Where the data of the members lie, as the callbacks should see them. */
  function Expected(ms: seq<Member>, offset: nat): seq<Event> {
    if ms == [] then []
    else Listed(EventOf(ms[0], offset)) + Expected(ms[1..], NextHeader(offset, |ms[0].Data()|))
  }

  function EventOf(m: Member, offset: nat): Option<Event> {
    match m
    case Regular(name, content) => Some(File(name, offset + BLOCK, |content|))
    case Directory(name, _) => Some(Dir(name))
    case Other(_, _, _, _) => None
  }

  lemma StrLenIs(s: seq<byte>, n: nat)
    requires n <= |s| && (forall i :: 0 <= i < n ==> s[i] != 0) && (n < |s| ==> s[n] == 0)
    ensures StrLen(s) == n
  {
    var m := StrLen(s);
    assert m < |s| ==> s[m] == 0;
  }

  /** What the reader finds in a header. */
  lemma HeaderReads(data: seq<byte>, offset: nat, m: Member)
    requires offset + BLOCK <= |data| && IsHeader(data[offset..offset + BLOCK], m)
    ensures data[offset] != 0 && NameAt(data, offset) == m.name && SizeAt(data, offset) == m.SizeField()
    ensures EventAt(data, offset) == EventOf(m, offset)
  {
    var h := data[offset..offset + BLOCK];
    assert forall i :: 0 <= i < BLOCK ==> h[i] == data[offset + i];
    assert h[0] == m.name[0];
    HeaderName(data, offset, m);
    assert data[offset + SIZE_AT..offset + SIZE_AT + SIZE_DIGITS] == h[SIZE_AT..SIZE_AT + SIZE_DIGITS];
    ElevenDigits();
    OctalTrip(m.SizeField(), SIZE_DIGITS);
  }

  lemma HeaderName(data: seq<byte>, offset: nat, m: Member)
    requires offset + BLOCK <= |data| && IsHeader(data[offset..offset + BLOCK], m)
    ensures NameAt(data, offset) == m.name
  {
    var h := data[offset..offset + BLOCK];
    var s := data[offset..];
    assert forall i :: 0 <= i < BLOCK ==> h[i] == s[i];
    assert forall i :: 0 <= i < |m.name| ==> h[..|m.name|][i] == s[i];
    StrLenIs(s, |m.name|);
    assert data[offset..offset + |m.name|] == h[..|m.name|];
  }

  /** The callbacks are exactly the regular files and directories, in order. */
  lemma {:induction false} ScanInvertsWriting(data: seq<byte>, offset: nat, ms: seq<Member>)
    requires Archive(data, offset, ms) && NoFreeSizes(ms)
    ensures Scan(data, offset) == Expected(ms, offset)
    decreases |ms|
  {
    ScanStep(data, offset);
    if ms != [] {
      HeaderReads(data, offset, ms[0]);
      hide NameAt, SizeAt, EventAt, EventOf, IsHeader, Scan, NextHeader, Padded, Aligned;
      ScanInvertsWriting(data, NextHeader(offset, |ms[0].Data()|), ms[1..]);
    }
  }

  lemma ArchiveFirst(data: seq<byte>, offset: nat, ms: seq<Member>)
    requires Archive(data, offset, ms) && ms != []
    ensures offset + BLOCK + |ms[0].Data()| <= |data| && IsHeader(data[offset..offset + BLOCK], ms[0])
    ensures data[offset + BLOCK..offset + BLOCK + |ms[0].Data()|] == ms[0].Data()
    ensures Archive(data, NextHeader(offset, |ms[0].Data()|), ms[1..])
  {
    hide IsHeader, Padded;
  }

  lemma ExpectedCons(ms: seq<Member>, offset: nat)
    requires ms != []
    ensures Expected(ms, offset) == Listed(EventOf(ms[0], offset)) + Expected(ms[1..], NextHeader(offset, |ms[0].Data()|))
    ensures forall at :: Expected([], at) == []
  {
  }

  lemma RegularEvent(m: Member, offset: nat)
    requires m.Regular?
    ensures m.Data() == m.content && Listed(EventOf(m, offset)) == [File(m.name, offset + BLOCK, |m.content|)]
  {
  }

  /** Every file callback points at exactly the file's data. */
  lemma {:induction false} ExactSlices(data: seq<byte>, offset: nat, ms: seq<Member>, k: nat) returns (at: nat)
    requires Archive(data, offset, ms) && k < |ms| && ms[k].Regular?
    ensures at + |ms[k].content| <= |data| && data[at..at + |ms[k].content|] == ms[k].content
    ensures File(ms[k].name, at, |ms[k].content|) in Expected(ms, offset)
    decreases |ms|
  {
    hide *;
    ArchiveFirst(data, offset, ms);
    ExpectedCons(ms, offset);
    if k == 0 {
      at := offset + BLOCK;
      RegularEvent(ms[0], offset);
      assert Expected(ms, offset)[0] == File(ms[0].name, at, |ms[0].content|);
    } else {
      at := ExactSlices(data, NextHeader(offset, |ms[0].Data()|), ms[1..], k - 1);
    }
  }

  /** Extracting an archive with a callback that never refuses. */
  lemma ExtractInvertsWriting(data: seq<byte>, ms: seq<Member>, callback: Event -> int)
    requires Archive(data, 0, ms) && NoFreeSizes(ms) && forall ev: Event :: callback(ev) == 0
    ensures Calls(Scan(data, 0), callback) == (Expected(ms, 0), 0)
  {
    ScanInvertsWriting(data, 0, ms);
    CallsSplit(Expected(ms, 0), [], callback);
    NoCalls(callback);
    assert Expected(ms, 0) + [] == Expected(ms, 0);
  }

  // ---------------------------------------------------------------------------
  // A writer
  // ---------------------------------------------------------------------------

  /** "ustar", NUL, version "00" */
  const MAGIC: seq<byte> := [0x75, 0x73, 0x74, 0x61, 0x72, 0, 0x30, 0x30]

  function TypeFlag(m: Member): byte {
    match m
    case Regular(_, _) => ZERO_CHAR
    case Directory(_, _) => DIRECTORY
    case Other(_, kind, _, _) => kind
  }

  /** A header with name, size, type and magic, and zeros elsewhere. */
  function HeaderBlock(m: Member): (h: seq<byte>)
    requires m.Storable()
    ensures |h| == BLOCK
  {
    m.name + ZeroBytes(SIZE_AT - |m.name|) + Digits(m.SizeField(), SIZE_DIGITS) + ZeroBytes(TYPE_AT - SIZE_AT - SIZE_DIGITS)
    + [TypeFlag(m)] + ZeroBytes(MAGIC_AT - TYPE_AT - 1) + MAGIC + ZeroBytes(BLOCK - MAGIC_AT - |MAGIC|)
  }

  lemma HeaderBlockIs(m: Member)
    requires m.Storable()
    ensures IsHeader(HeaderBlock(m), m)
  {
    var h := HeaderBlock(m);
    hide Member.Storable, Digits;
    var front := m.name + ZeroBytes(SIZE_AT - |m.name|);
    assert h[..SIZE_AT] == front;
    assert front[..|m.name|] == m.name;
    assert h[SIZE_AT..SIZE_AT + SIZE_DIGITS] == Digits(m.SizeField(), SIZE_DIGITS);
    assert h[TYPE_AT] == TypeFlag(m);
  }

  /** Members one after the other, and two zero blocks. */
  function Write(ms: seq<Member>): seq<byte>
    requires forall i :: 0 <= i < |ms| ==> ms[i].Storable()
  {
    if ms == [] then ZeroBytes(2 * BLOCK)
    else
      HeaderBlock(ms[0]) + ms[0].Data() + ZeroBytes(Padded(|ms[0].Data()|) - |ms[0].Data()|) + Write(ms[1..])
  }

  lemma {:induction false} WriteIsArchive(before: seq<byte>, ms: seq<Member>)
    requires Aligned(|before|) && forall i :: 0 <= i < |ms| ==> ms[i].Storable()
    ensures Archive(before + Write(ms), |before|, ms)
    decreases |ms|
  {
    hide *;
    if ms == [] {
      EndIsArchive(before);
    } else {
      var m := ms[0];
      HeaderBlockIs(m);
      var h, d := HeaderBlock(m), m.Data();
      var z := ZeroBytes(Padded(|d|) - |d|);
      var next := before + h + d + z;
      WriteCons(ms);
      Blocks(before, h, d, z, Write(ms[1..]));
      NextHeaderIs(|before|, |d|);
      WriteIsArchive(next, ms[1..]);
      ArchiveCons(before + Write(ms), |before|, ms);
    }
  }

  lemma WrittenArchive(ms: seq<Member>)
    requires forall i :: 0 <= i < |ms| ==> ms[i].Storable()
    ensures Aligned(0) && Archive(Write(ms), 0, ms)
  {
    WriteIsArchive([], ms);
    assert [] + Write(ms) == Write(ms);
  }

  lemma EndIsArchive(before: seq<byte>)
    requires Aligned(|before|)
    ensures Archive(before + Write([]), |before|, [])
  {
    assert (before + Write([]))[|before|] == ZeroBytes(2 * BLOCK)[0];
  }

  lemma WriteCons(ms: seq<Member>)
    requires ms != [] && forall i :: 0 <= i < |ms| ==> ms[i].Storable()
    ensures var d := ms[0].Data();
            Write(ms) == HeaderBlock(ms[0]) + d + ZeroBytes(Padded(|d|) - |d|) + Write(ms[1..])
  {
    hide HeaderBlock, Padded, Member.Storable;
  }

  lemma NextHeaderIs(offset: nat, size: nat)
    ensures NextHeader(offset, size) == offset + BLOCK + Padded(size)
  {
    hide Padded;
  }

  lemma ArchiveCons(data: seq<byte>, offset: nat, ms: seq<Member>)
    requires ms != [] && Aligned(offset) && NextHeader(offset, |ms[0].Data()|) <= |data|
    requires IsHeader(data[offset..offset + BLOCK], ms[0])
    requires data[offset + BLOCK..offset + BLOCK + |ms[0].Data()|] == ms[0].Data()
    requires Archive(data, NextHeader(offset, |ms[0].Data()|), ms[1..])
    ensures Archive(data, offset, ms)
  {
    hide IsHeader, NextHeader;
  }

  lemma Blocks(a: seq<byte>, h: seq<byte>, d: seq<byte>, z: seq<byte>, rest: seq<byte>)
    ensures var all := a + (h + d + z + rest);
            && all == (a + h + d + z) + rest
            && all[|a|..|a| + |h|] == h && all[|a| + |h|..|a| + |h| + |d|] == d
  {
  }

  /** Reading a written archive: result 0, and exactly the files and directories
      in order. */
  lemma ReadInvertsWrite(ms: seq<Member>, callback: Event -> int)
    requires (forall i :: 0 <= i < |ms| ==> ms[i].Storable()) && NoFreeSizes(ms)
    requires forall ev: Event :: callback(ev) == 0
    ensures Calls(Scan(Write(ms), 0), callback) == (Expected(ms, 0), 0)
  {
    WrittenArchive(ms);
    ExtractInvertsWriting(Write(ms), ms, callback);
  }

  /** Behind a record without data the reader goes on with the next header exactly
      if the size field is 0; otherwise it skips as many bytes as the field says. */
  lemma EmptyRecordSize(data: seq<byte>, offset: nat, m: Member)
    requires offset + BLOCK <= |data| && IsHeader(data[offset..offset + BLOCK], m) && m.WithoutData()
    ensures NextHeader(offset, SizeAt(data, offset)) == offset + BLOCK <==> m.SizeField() == 0
    ensures offset + BLOCK + m.SizeField() <= NextHeader(offset, SizeAt(data, offset))
  {
    HeaderReads(data, offset, m);
    hide IsHeader, SizeAt;
  }

  /** Archives of which the reader sees only half: a record without data but with
      size field 512, and an empty file `e`. */
  lemma FileSkipped(m: Member, e: Member)
    requires m.Storable() && m.WithoutData() && m.SizeField() == BLOCK
    requires e.Storable() && e.Regular? && e.content == []
    ensures (forall k :: 0 <= k < |[m, e]| ==> [m, e][k].Storable())
    ensures Expected([m, e], 0) == Listed(EventOf(m, 0)) + [File(e.name, 2 * BLOCK, 0)]
    ensures Scan(Write([m, e]), 0) == Listed(EventOf(m, 0))
  {
    var ms := [m, e];
    hide *;
    assert ms[1..] == [e] && [e][1..] == [];
    WrittenArchive(ms);
    var data := Write(ms);
    ArchiveFirst(data, 0, ms);
    Skip(0, m, e);
    ArchiveFirst(data, BLOCK, [e]);
    ArchiveEnd(data, 2 * BLOCK);
    HeaderReads(data, 0, m);
    ScanStep(data, 0);
    ScanStep(data, 2 * BLOCK);
    ExpectedCons(ms, 0);
    ExpectedCons([e], BLOCK);
    assert ms[0] == m && [File(e.name, 2 * BLOCK, 0)] + [] == [File(e.name, 2 * BLOCK, 0)];
    assert Listed(EventOf(m, 0)) + [] == Listed(EventOf(m, 0));
  }

  lemma ArchiveEnd(data: seq<byte>, offset: nat)
    requires Archive(data, offset, [])
    ensures offset + BLOCK > |data| || data[offset] == 0
  {
  }

  /** Where the writer puts the next headers, and where the reader looks. */
  lemma Skip(offset: nat, m: Member, e: Member)
    requires m.Storable() && m.WithoutData() && m.SizeField() == BLOCK
    requires e.Regular? && e.content == [] && Aligned(offset)
    ensures |m.Data()| == |e.Data()| == 0
    ensures NextHeader(offset, 0) == offset + BLOCK && NextHeader(offset + BLOCK, 0) == offset + 2 * BLOCK
    ensures NextHeader(offset, BLOCK) == offset + 2 * BLOCK && Aligned(offset + 2 * BLOCK)
    ensures Listed(EventOf(e, offset + BLOCK)) == [File(e.name, offset + 2 * BLOCK, 0)]
  {
  }

  /** A FIFO whose size field says 512, in front of the empty file "f": the reader
      calls nothing back. */
  lemma FifoSkipped()
    ensures var p, f := Other([0x70], FIFO, BLOCK, []), Regular([0x66], []);
            && (forall k :: 0 <= k < |[p, f]| ==> [p, f][k].Storable())
            && Expected([p, f], 0) == [File([0x66], 2 * BLOCK, 0)]
            && Scan(Write([p, f]), 0) == []
  {
    var p, f := Other([0x70], FIFO, BLOCK, []), Regular([0x66], []);
    FifoStorable();
    hide *;
    FileSkipped(p, f);
    NoEvent(p, 0);
    assert [] + [File([0x66], 2 * BLOCK, 0)] == [File([0x66], 2 * BLOCK, 0)];
  }

  lemma FifoStorable()
    ensures var p, f := Other([0x70], FIFO, BLOCK, []), Regular([0x66], []);
            p.Storable() && p.WithoutData() && p.SizeField() == BLOCK && f.Storable()
  {
  }

  lemma NoEvent(m: Member, offset: nat)
    requires m.Other?
    ensures Listed(EventOf(m, offset)) == []
  {
  }
}
