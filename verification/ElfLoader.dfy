/** The segment loop and the stack mapping of elf64_load_and_run (elf.c). */
module ElfLoader {
  import opened Basics
  import opened PageTables
  import opened AddressSpace
  import opened UserImage
  import FrameAllocator

  const EHDR_SIZE: nat := 64
  const PHDR_SIZE: nat := 56
  const PT_LOAD: nat := 1
  const INIT_STACK_PAGES: nat := 4
  const INIT_STACK_TOP: nat := 0x7000_0000_0000
  const STACK_BOTTOM_PAGE: nat := INIT_STACK_TOP / 4096 - INIT_STACK_PAGES
  /** Pages of the lower half of the address space. */
  const USER_PAGES: nat := 0x8_0000_0000

  /** Little-endian field of `n` bytes. */
  function Field(data: seq<byte>, off: nat, n: nat): nat
    requires off + n <= |data|
    decreases n
  {
    if n == 0 then 0 else data[off] + 256 * Field(data, off + 1, n - 1)
  }

  datatype Segment = Segment(kind: nat, flags: nat, offset: nat, vaddr: nat, filesz: nat, memsz: nat) {
    predicate Executable() { flags % 2 == 1 }
    function FirstPage(): nat { vaddr / 4096 }
    /** First page past the segment. */
    function EndPage(): nat { (vaddr + memsz + 0xFFF) / 4096 }
    function LeafFlags(): Flags {
      Flags(PRESENT | RW | USER, if Executable() then 0 else NO_EXEC)
    }
    /** Byte `k` of the segment: file bytes, then zeros. */
    function Content(data: seq<byte>, k: nat): byte
      requires offset + filesz <= |data|
    {
      if k < filesz then data[offset + k] else 0
    }
  }

  function HeaderCount(data: seq<byte>): nat
    requires EHDR_SIZE <= |data|
  {
    Field(data, 56, 2)
  }

  function HeaderOffset(data: seq<byte>, i: nat): nat
    requires EHDR_SIZE <= |data|
  {
    var stride: nat := Field(data, 54, 2);
    assert i * stride >= 0;
    Field(data, 32, 8) + i * stride
  }

  function SegmentAt(data: seq<byte>, i: nat): Segment
    requires EHDR_SIZE <= |data| && HeaderOffset(data, i) + PHDR_SIZE <= |data|
  {
    var o := HeaderOffset(data, i);
    Segment(Field(data, o, 4), Field(data, o + 4, 4), Field(data, o + 8, 8),
            Field(data, o + 16, 8), Field(data, o + 32, 8), Field(data, o + 40, 8))
  }

  predicate IsLoad(data: seq<byte>, i: nat)
    requires EHDR_SIZE <= |data| && HeaderOffset(data, i) + PHDR_SIZE <= |data|
  {
    SegmentAt(data, i).kind == 1
  }

  /** The program headers lie inside the file; the loader does not check it. */
  predicate HeadersInside(data: seq<byte>) {
    EHDR_SIZE <= |data| ==>
      forall i :: 0 <= i < HeaderCount(data) ==> HeaderOffset(data, i) + PHDR_SIZE <= |data|
  }

  predicate StackPage(n: nat) {
    STACK_BOTTOM_PAGE <= n < STACK_BOTTOM_PAGE + INIT_STACK_PAGES
  }

  /** What the System V gABI asks of a loadable segment, in the user half. */
  predicate GoodSegment(s: Segment) {
    s.filesz <= s.memsz && s.EndPage() <= USER_PAGES
  }

  /** Loadable segments are well formed. */
  predicate Loadable(data: seq<byte>) {
    HeadersInside(data) && (EHDR_SIZE <= |data| ==>
      forall i :: 0 <= i < HeaderCount(data) && IsLoad(data, i) ==> GoodSegment(SegmentAt(data, i)))
  }

  /** Page `n` belongs to segment `i`. */
  predicate PageOf(data: seq<byte>, i: nat, n: nat)
    requires EHDR_SIZE <= |data| && HeaderOffset(data, i) + PHDR_SIZE <= |data|
  {
    SegmentAt(data, i).FirstPage() <= n < SegmentAt(data, i).EndPage()
  }

  /** One of the segments behind `j` and in front of `i` has page `n` too. */
  predicate Retaken(data: seq<byte>, j: nat, i: nat, n: nat)
    requires EHDR_SIZE <= |data| && HeadersInside(data) && i <= HeaderCount(data)
  {
    exists l :: j < l < i && IsLoad(data, l) && PageOf(data, l, n)
  }

  /** Page `n` of segment `i` is mapped again, for a later segment or the stack. */
  predicate Buried(data: seq<byte>, i: nat, n: nat)
    requires EHDR_SIZE <= |data| && HeadersInside(data)
  {
    StackPage(n) || Retaken(data, i, HeaderCount(data), n)
  }

  /** No two segments share a page, and none has a page of the stack. */
  ghost predicate Apart(data: seq<byte>)
    requires EHDR_SIZE <= |data| && HeadersInside(data)
  {
    forall i: nat, n: nat | i < HeaderCount(data) && IsLoad(data, i) && PageOf(data, i, n) :: !Buried(data, i, n)
  }

  /** Error code, page fault while copying, a copy that leaves the file, where the
      model ends, or the jump to `entry`; `stack` tells whether every stack page
      was mapped. */
  datatype Outcome = Rejected(code: int) | Faulted | LeavesFile | Entered(entry: nat, rsp: nat, stack: bool)

  // ---------------------------------------------------------------------------
  // One page, one run of pages
  // ---------------------------------------------------------------------------

  datatype Status = Ok | NoFrame | NoTable

  /** The user part of the address space holds no huge page. */
  ghost predicate UserPlain(ram: Ram, root: FrameNo) {
    forall n: nat | n < USER_PAGES :: NoHugeOn(ram, root, PathOf(PageBase(n)))
  }

  /** A page fresh from pfa_alloc_low mapped at page `n`. */
  method MapFresh(m: Machine, n: nat, flags: Flags, ghost ram0: Ram, ghost image: Image)
    returns (st: Status, ghost image': Image)
    requires m.Valid() && n < VA_PAGES && flags.low & PRESENT != 0 && flags.low & USER != 0
    requires Built(ram0, m.ram, m.cr3.frame, m.Free(), image)
    requires NoHugeOn(m.ram, m.cr3.frame, PathOf(PageBase(n)))
    modifies m`ram, m.pfa, m.pfa.lowBitmap
    ensures m.Valid()
    ensures st == Ok ==> Built(ram0, m.ram, m.cr3.frame, m.Free(), image')
                         && n in image' && image' == image[n := image'[n]]
                         && image'[n].low == flags.low && image'[n].high == flags.high
    ensures st == NoTable ==> image' == image && Built(ram0, m.ram, m.cr3.frame, m.Free(), image)
    ensures st != NoFrame ==> SameBytes(old(m.ram), m.ram, image, PageBase(n), PageBase(n + 1))
    ensures |old(m.pfa.state.low)| > 3 ==> st == Ok && |m.pfa.state.low| >= |old(m.pfa.state.low)| - 4
  {
    hide *;
    image' := image;
    ValidTree(m);
    var ok, f := m.TakeFrame();
    if !ok {
      return NoFrame, image';
    }
    FreshFrame(ram0, m.ram, m.cr3.frame, old(m.Free()), m.Free(), image, f);
    st, image' := MapTaken(m, n, f, flags, ram0, image);
  }

  /** map_page of a frame in no other use. */
  method MapTaken(m: Machine, n: nat, f: FrameNo, flags: Flags, ghost ram0: Ram, ghost image: Image)
    returns (st: Status, ghost image': Image)
    requires m.Valid() && n < VA_PAGES && flags.low & PRESENT != 0 && flags.low & USER != 0
    requires Built(ram0, m.ram, m.cr3.frame, m.Free(), image)
    requires NoHugeOn(m.ram, m.cr3.frame, PathOf(PageBase(n)))
    requires f < |m.ram| && f !in m.Free() && !IsTable(m.ram, m.cr3.frame, f)
    requires forall i | i in image :: image[i].frame != f
    modifies m`ram, m.pfa, m.pfa.lowBitmap
    ensures m.Valid() && st != NoFrame
    ensures st == Ok ==> Built(ram0, m.ram, m.cr3.frame, m.Free(), image')
                         && n in image' && image' == image[n := image'[n]]
                         && image'[n].low == flags.low && image'[n].high == flags.high
    ensures st == NoTable ==> image' == image && Built(ram0, m.ram, m.cr3.frame, m.Free(), image)
    ensures SameBytes(old(m.ram), m.ram, image, PageBase(n), PageBase(n + 1))
    ensures |old(m.pfa.state.low)| >= 3 ==> st == Ok && |m.pfa.state.low| >= |old(m.pfa.state.low)| - 3
  {
    hide *;
    ghost var ram, free := m.ram, m.Free();
    ValidTree(m);
    var ok := MapUser(m, n, f, flags);
    image' := if ok then image[n := Word(f, flags.low, flags.high)] else image;
    MapEffect(ram0, ram, free, m.ram, m.Free(), m.cr3.frame, image, n, f, flags, ok);
    st := if ok then Ok else NoTable;
  }

  /** map_page of a whole frame for user mode. */
  method MapUser(m: Machine, n: nat, f: FrameNo, flags: Flags) returns (ok: bool)
    requires m.Valid() && NoHugeOn(m.ram, m.cr3.frame, PathOf(PageBase(n)))
    requires flags.low & PRESENT != 0 && flags.low & USER != 0
    modifies m`ram, m.pfa, m.pfa.lowBitmap
    ensures m.Valid()
    ensures MapsPage(old(m.ram), old(m.Free()), m.ram, m.Free(), m.cr3.frame, PathOf(PageBase(n)),
                     Word(f, flags.low, flags.high), flags, ok)
    ensures ok ==> UserAccess(m.ram, m.cr3.frame, PathOf(PageBase(n)))
    ensures |old(m.pfa.state.low)| >= 3 ==> ok && |m.pfa.state.low| >= |old(m.pfa.state.low)| - 3
    ensures PageBase(n) <= PageBase(n + 1)
  {
    hide *;
    PageBits(f, flags);
    PageBounds(m.ram, m.cr3.frame, n);
    ok := m.MapPage(Word(f, 0, 0), PageBase(n), flags);
  }

  lemma MapEffect(ram0: Ram, ram: Ram, free: set<nat>, ram': Ram, free': set<nat>, root: FrameNo,
                  image: Image, n: nat, f: FrameNo, flags: Flags, ok: bool)
    requires Tree(ram, root, free) && Built(ram0, ram, root, free, image) && n < VA_PAGES
    requires f < |ram| && f !in free && !IsTable(ram, root, f) && forall i | i in image :: image[i].frame != f
    requires flags.low & PRESENT != 0
    requires MapsPage(ram, free, ram', free', root, PathOf(PageBase(n)), Word(f, flags.low, flags.high), flags, ok)
    requires ok ==> UserAccess(ram', root, PathOf(PageBase(n)))
    ensures Built(ram0, ram', root, free', if ok then image[n := Word(f, flags.low, flags.high)] else image)
    ensures SameBytes(ram, ram', image, PageBase(n), PageBase(n + 1))
  {
    hide *;
    PageBits(f, flags);
    var e := Word(f, flags.low, flags.high);
    if ok {
      MapExtendsImage(ram0, ram, free, ram', free', root, image, n, e, flags);
    } else {
      FailedMapKeepsImage(ram0, ram, free, ram', free', root, image, n, e, flags);
      SameBytesLess(ram, ram', image, PageBase(n), PageBase(n + 1));
    }
  }

  lemma PageBits(f: FrameNo, flags: Flags)
    requires flags.low & PRESENT != 0
    ensures Word(f, 0 | flags.low, 0 | flags.high) == Word(f, flags.low, flags.high)
    ensures Present(Word(f, flags.low, flags.high))
  {
  }

  lemma PageBounds(ram: Ram, root: FrameNo, n: nat)
    ensures TablesMissing(ram, root, PathOf(PageBase(n))) <= 3 && PageBase(n) <= PageBase(n + 1)
  {
    MissingBound(ram, root, PathOf(PageBase(n)));
  }

  /** A frame just taken from the free set is in no other use. */
  lemma FreshFrame(ram0: Ram, ram: Ram, root: FrameNo, free: set<nat>, free': set<nat>, image: Image, f: FrameNo)
    requires Tree(ram, root, free) && Built(ram0, ram, root, free, image)
    requires f in free && free' == free - {f}
    ensures Built(ram0, ram, root, free', image)
    ensures !IsTable(ram, root, f) && forall m | m in image :: image[m].frame != f
  {
    hide PathOf;
    forall n | n in image
      ensures OwnsPage(ram, root, free', n, image[n]) && image[n].frame != f
    {
      assert OwnsPage(ram, root, free, n, image[n]);
    }
  }

  /** `image'` is `image` with the pages [first, end) mapped anew, all with `flags`. */
  ghost predicate Grown(image: Image, image': Image, first: nat, end: nat, flags: Flags) {
    && SameElsewhere(image, image', first, end)
    && (forall n: nat | n in image' :: n in image || first <= n < end)
    && (forall n: nat | first <= n < end ::
          n in image' && image'[n].low == flags.low && image'[n].high == flags.high)
  }

  /** The pages outside [first, end) are the same. */
  ghost predicate SameElsewhere(image: Image, image': Image, first: nat, end: nat) {
    forall n: nat | n in image && !(first <= n < end) :: n in image' && image'[n] == image[n]
  }

  lemma PlainPage(ram0: Ram, ram: Ram, root: FrameNo, free: set<nat>, image: Image, n: nat)
    requires UserPlain(ram0, root) && Built(ram0, ram, root, free, image)
    requires n < USER_PAGES
    ensures NoHugeOn(ram, root, PathOf(PageBase(n)))
  {
    hide PathOf;
    hide NoHugeOn;
  }

  lemma SameBytesLess(ram: Ram, ram': Ram, image: Image, lo: nat, hi: nat)
    requires SameBytes(ram, ram', image, 0, 0)
    ensures SameBytes(ram, ram', image, lo, hi)
  {
  }

  /** Bytes outside the pages [a, b) survive two steps that stay inside them. */
  lemma SameBytesGrow(ram: Ram, ram1: Ram, ram2: Ram, image: Image, image1: Image,
                      a1: nat, b1: nat, a2: nat, b2: nat, a: nat, b: nat)
    requires SameBytes(ram, ram1, image, PageBase(a1), PageBase(b1))
    requires SameBytes(ram1, ram2, image1, PageBase(a2), PageBase(b2))
    requires a <= a1 <= b1 <= b && a <= a2 <= b2 <= b && SameElsewhere(image, image1, a, b)
    ensures SameBytes(ram, ram2, image, PageBase(a), PageBase(b))
  {
    hide AsBytes;
    forall va: nat | Inside(ram, image, va) && !(PageBase(a) <= va < PageBase(b))
      ensures Inside(ram2, image, va) && ByteAt(ram2, image, va) == ByteAt(ram, image, va)
    {
      assert !(a <= va / 4096 < b);
      assert Inside(ram1, image, va) && Inside(ram1, image1, va);
    }
  }

  /** The mapping loop over the pages of one segment. */
  method MapRun(m: Machine, first: nat, end: nat, flags: Flags, ghost ram0: Ram, ghost image: Image)
    returns (st: Status, ghost image': Image)
    requires m.Valid() && end <= USER_PAGES && flags.low & PRESENT != 0 && flags.low & USER != 0
    requires Built(ram0, m.ram, m.cr3.frame, m.Free(), image) && UserPlain(ram0, m.cr3.frame)
    modifies m`ram, m.pfa, m.pfa.lowBitmap
    ensures m.Valid()
    ensures st == Ok ==> Built(ram0, m.ram, m.cr3.frame, m.Free(), image')
                         && SameBytes(old(m.ram), m.ram, image, PageBase(first), PageBase(Max(first, end)))
                         && Grown(image, image', first, Max(first, end), flags)
    ensures |old(m.pfa.state.low)| >= 4 * (Max(first, end) - first) ==>
              st == Ok && |m.pfa.state.low| >= |old(m.pfa.state.low)| - 4 * (Max(first, end) - first)
  {
    hide Machine.Valid, Built, UserPlain, SameBytes, NoHugeOn, PathOf;
    image' := image;
    SameBytesAny(m.ram, image, PageBase(first), PageBase(first));
    var n := first;
    while n < end
      invariant first <= n <= Max(first, end)
      invariant m.Valid()
      invariant Built(ram0, m.ram, m.cr3.frame, m.Free(), image')
      invariant SameBytes(old(m.ram), m.ram, image, PageBase(first), PageBase(n))
      invariant Grown(image, image', first, n, flags)
      invariant |old(m.pfa.state.low)| >= 4 * (Max(first, end) - first) ==>
                  |m.pfa.state.low| >= |old(m.pfa.state.low)| - 4 * (n - first)
    {
      PlainPage(ram0, m.ram, m.cr3.frame, m.Free(), image', n);
      ghost var before, grown := m.ram, image';
      st, image' := MapFresh(m, n, flags, ram0, image');
      if st != Ok {
        return;
      }
      SameBytesGrow(old(m.ram), before, m.ram, image, grown, first, n, n, n + 1, first, n + 1);
      n := n + 1;
    }
    st := Ok;
  }

  // ---------------------------------------------------------------------------
  // Copying and zeroing through the mapping
  // ---------------------------------------------------------------------------

  predicate MappedAt(image: Image, v: nat) { v / 4096 in image }

  ghost predicate Covers(image: Image, va: nat, len: nat) {
    va + len <= VA_LIMIT && forall v: nat | va <= v < va + len :: MappedAt(image, v)
  }

  ghost predicate Contains(ram: Ram, image: Image, va: nat, bytes: seq<byte>) {
    forall v: nat | va <= v < va + |bytes| :: Inside(ram, image, v) && ByteAt(ram, image, v) == bytes[v - va]
  }

  /** One store through the user mapping. */
  method PutByte(m: Machine, va: nat, b: byte, ghost ram0: Ram, ghost image: Image)
    requires m.Valid() && va < VA_LIMIT && MappedAt(image, va)
    requires Built(ram0, m.ram, m.cr3.frame, m.Free(), image)
    modifies m`ram
    ensures m.Valid() && Built(ram0, m.ram, m.cr3.frame, m.Free(), image)
    ensures SameBytes(old(m.ram), m.ram, image, va, va + 1)
    ensures Inside(m.ram, image, va) && ByteAt(m.ram, image, va) == b
  {
    hide PathOf, Built, SameBytes, ByteAt, IsTable;
    StoreInImage(ram0, m.ram, m.cr3.frame, m.Free(), image, va, b);
    m.StoreByte(va, b);
  }

  /** elf_memcpy: the destination is a virtual address. */
  method CopyIn(m: Machine, va: nat, src: seq<byte>, ghost ram0: Ram, ghost image: Image)
    requires m.Valid() && Covers(image, va, |src|)
    requires Built(ram0, m.ram, m.cr3.frame, m.Free(), image)
    modifies m`ram
    ensures m.Valid() && Built(ram0, m.ram, m.cr3.frame, m.Free(), image)
    ensures SameBytes(old(m.ram), m.ram, image, va, va + |src|)
    ensures Contains(m.ram, image, va, src)
  {
    hide *;
    SameBytesAny(m.ram, image, va, va);
    ContainsNothing(m.ram, image, va);
    var k := 0;
    while k < |src|
      invariant 0 <= k <= |src|
      invariant m.Valid() && Built(ram0, m.ram, m.cr3.frame, m.Free(), image)
      invariant SameBytes(old(m.ram), m.ram, image, va, va + k)
      invariant Contains(m.ram, image, va, src[..k])
    {
      ghost var before := m.ram;
      CoversAt(image, va, |src|, k);
      PutByte(m, va + k, src[k], ram0, image);
      OneMore(old(m.ram), before, m.ram, image, va, src[..k], src[k]);
      assert src[..k + 1] == src[..k] + [src[k]];
      k := k + 1;
    }
    assert src[..|src|] == src;
  }

  lemma CoversAt(image: Image, va: nat, len: nat, k: nat)
    requires Covers(image, va, len) && k < len
    ensures va + k < VA_LIMIT && MappedAt(image, va + k)
  {
  }

  lemma SameBytesAny(ram: Ram, image: Image, lo: nat, hi: nat)
    ensures SameBytes(ram, ram, image, lo, hi)
  {
  }

  lemma ContainsNothing(ram: Ram, image: Image, va: nat)
    ensures Contains(ram, image, va, [])
  {
  }

  lemma OneMore(ram: Ram, ram1: Ram, ram2: Ram, image: Image, va: nat, done: seq<byte>, b: byte)
    requires SameBytes(ram, ram1, image, va, va + |done|) && Contains(ram1, image, va, done)
    requires SameBytes(ram1, ram2, image, va + |done|, va + |done| + 1)
    requires Inside(ram2, image, va + |done|) && ByteAt(ram2, image, va + |done|) == b
    ensures SameBytes(ram, ram2, image, va, va + |done| + 1)
    ensures Contains(ram2, image, va, done + [b])
  {
  }

  /** elf_memset with zero. */
  method ZeroFill(m: Machine, va: nat, n: nat, ghost ram0: Ram, ghost image: Image)
    requires m.Valid() && Covers(image, va, n)
    requires Built(ram0, m.ram, m.cr3.frame, m.Free(), image)
    modifies m`ram
    ensures m.Valid() && Built(ram0, m.ram, m.cr3.frame, m.Free(), image)
    ensures SameBytes(old(m.ram), m.ram, image, va, va + n)
    ensures Contains(m.ram, image, va, ZeroBytes(n))
  {
    hide *;
    SameBytesAny(m.ram, image, va, va);
    ContainsNothing(m.ram, image, va);
    var k := 0;
    assert ZeroBytes(0) == [];
    while k < n
      invariant 0 <= k <= n
      invariant m.Valid() && Built(ram0, m.ram, m.cr3.frame, m.Free(), image)
      invariant SameBytes(old(m.ram), m.ram, image, va, va + k)
      invariant Contains(m.ram, image, va, ZeroBytes(k))
    {
      ghost var before := m.ram;
      CoversAt(image, va, n, k);
      PutByte(m, va + k, 0, ram0, image);
      OneMore(old(m.ram), before, m.ram, image, va, ZeroBytes(k), 0);
      assert ZeroBytes(k + 1) == ZeroBytes(k) + [0];
      k := k + 1;
    }
  }

  // ---------------------------------------------------------------------------
  // One segment
  // ---------------------------------------------------------------------------

  /** The memory image the gABI prescribes for a segment. */
  function SegmentBytes(data: seq<byte>, s: Segment): (b: seq<byte>)
    requires s.offset + s.filesz <= |data| && s.filesz <= s.memsz
    ensures |b| == s.memsz
    ensures forall k :: 0 <= k < s.memsz ==> b[k] == s.Content(data, k)
  {
    data[s.offset..s.offset + s.filesz] + ZeroBytes(s.memsz - s.filesz)
  }

  ghost predicate SegmentLoaded(ram: Ram, image: Image, data: seq<byte>, s: Segment) {
    && s.filesz <= s.memsz && s.offset + s.filesz <= |data|
    && Contains(ram, image, s.vaddr, SegmentBytes(data, s))
    && forall n: nat | s.FirstPage() <= n < s.EndPage() ::
         n in image && image[n].low == s.LeafFlags().low && image[n].high == s.LeafFlags().high
  }

  method LoadSegment(m: Machine, data: seq<byte>, s: Segment, ghost ram0: Ram, ghost image: Image)
    returns (st: Status, ghost image': Image)
    requires m.Valid() && GoodSegment(s) && s.offset + s.filesz <= |data|
    requires Built(ram0, m.ram, m.cr3.frame, m.Free(), image) && UserPlain(ram0, m.cr3.frame)
    modifies m`ram, m.pfa, m.pfa.lowBitmap
    ensures m.Valid()
    ensures st == Ok ==> Built(ram0, m.ram, m.cr3.frame, m.Free(), image')
                         && SameBytes(old(m.ram), m.ram, image, PageBase(s.FirstPage()), PageBase(s.EndPage()))
                         && Grown(image, image', s.FirstPage(), s.EndPage(), s.LeafFlags())
                         && SegmentLoaded(m.ram, image', data, s)
    ensures |old(m.pfa.state.low)| >= 4 * (s.EndPage() - s.FirstPage()) ==>
              st == Ok && |m.pfa.state.low| >= |old(m.pfa.state.low)| - 4 * (s.EndPage() - s.FirstPage())
  {
    hide Machine.Valid, Built, UserPlain, SameBytes, NoHugeOn, PathOf, Contains, Covers, ZeroBytes;
    FlagsPresent(s);
    st, image' := MapRun(m, s.FirstPage(), s.EndPage(), s.LeafFlags(), ram0, image);
    if st != Ok {
      return;
    }
    ghost var mapped := m.ram;
    SegmentCovered(image, image', s);
    CopyIn(m, s.vaddr, data[s.offset..s.offset + s.filesz], ram0, image');
    ghost var copied := m.ram;
    if s.memsz > s.filesz {
      ZeroFill(m, s.vaddr + s.filesz, s.memsz - s.filesz, ram0, image');
    } else {
      NothingToZero(m.ram, image', s);
    }
    SegmentDone(old(m.ram), mapped, copied, m.ram, image, image', data, s);
  }

  lemma FlagsPresent(s: Segment)
    ensures s.LeafFlags().low & PRESENT != 0 && s.LeafFlags().low & USER != 0
    ensures s.FirstPage() <= s.EndPage()
  {
  }

  lemma SegmentCovered(image: Image, image': Image, s: Segment)
    requires GoodSegment(s) && Grown(image, image', s.FirstPage(), s.EndPage(), s.LeafFlags())
    ensures Covers(image', s.vaddr, s.filesz)
    ensures Covers(image', s.vaddr + s.filesz, s.memsz - s.filesz)
  {
    forall v: nat | s.vaddr <= v < s.vaddr + s.memsz
      ensures MappedAt(image', v)
    {
      assert s.FirstPage() <= v / 4096 < s.EndPage();
    }
  }

  lemma SegmentDone(ram: Ram, mapped: Ram, copied: Ram, zeroed: Ram, image: Image, image': Image,
                    data: seq<byte>, s: Segment)
    requires GoodSegment(s) && s.offset + s.filesz <= |data|
    requires Grown(image, image', s.FirstPage(), s.EndPage(), s.LeafFlags())
    requires SameBytes(ram, mapped, image, PageBase(s.FirstPage()), PageBase(s.EndPage()))
    requires SameBytes(mapped, copied, image', s.vaddr, s.vaddr + s.filesz)
    requires SameBytes(copied, zeroed, image', s.vaddr + s.filesz, s.vaddr + s.memsz)
    requires Contains(copied, image', s.vaddr, data[s.offset..s.offset + s.filesz])
    requires Contains(zeroed, image', s.vaddr + s.filesz, ZeroBytes(s.memsz - s.filesz))
    ensures SameBytes(ram, zeroed, image, PageBase(s.FirstPage()), PageBase(s.EndPage()))
    ensures SegmentLoaded(zeroed, image', data, s)
  {
    hide ZeroBytes, AsBytes;
    assert Contains(zeroed, image', s.vaddr, SegmentBytes(data, s)) by {
      TwoParts(copied, zeroed, image', data, s);
    }
    hide Contains;
    forall va: nat | Inside(ram, image, va) && !(PageBase(s.FirstPage()) <= va < PageBase(s.EndPage()))
      ensures Inside(zeroed, image, va) && ByteAt(zeroed, image, va) == ByteAt(ram, image, va)
    {
      assert !(s.FirstPage() <= va / 4096 < s.EndPage());
      assert Inside(mapped, image, va) && Inside(mapped, image', va) && Inside(copied, image', va);
    }
  }

  lemma TwoParts(copied: Ram, zeroed: Ram, image: Image, data: seq<byte>, s: Segment)
    requires GoodSegment(s) && s.offset + s.filesz <= |data|
    requires SameBytes(copied, zeroed, image, s.vaddr + s.filesz, s.vaddr + s.memsz)
    requires Contains(copied, image, s.vaddr, data[s.offset..s.offset + s.filesz])
    requires Contains(zeroed, image, s.vaddr + s.filesz, ZeroBytes(s.memsz - s.filesz))
    ensures Contains(zeroed, image, s.vaddr, SegmentBytes(data, s))
  {
    hide AsBytes, ByteAt;
  }

  lemma NothingToZero(ram: Ram, image: Image, s: Segment)
    ensures SameBytes(ram, ram, image, s.vaddr + s.filesz, s.vaddr + s.memsz)
    ensures Contains(ram, image, s.vaddr + s.filesz, ZeroBytes(0))
  {
  }

  // ---------------------------------------------------------------------------
  // The whole file
  // ---------------------------------------------------------------------------

  /** What is in memory of segment `j` once the first `i` headers are loaded: all of
      it but the pages that later ones have too. */
  ghost predicate SegmentKept(ram: Ram, image: Image, data: seq<byte>, j: nat, i: nat)
    requires EHDR_SIZE <= |data| && HeadersInside(data) && j < i <= HeaderCount(data)
  {
    var s := SegmentAt(data, j);
    && s.filesz <= s.memsz && s.offset + s.filesz <= |data|
    && (forall v: nat | s.vaddr <= v < s.vaddr + s.memsz && !Retaken(data, j, i, v / 4096) ::
          Inside(ram, image, v) && ByteAt(ram, image, v) == s.Content(data, v - s.vaddr))
    && (forall n: nat | PageOf(data, j, n) && !Retaken(data, j, i, n) ::
          n in image && image[n].low == s.LeafFlags().low && image[n].high == s.LeafFlags().high)
  }

  /** That much of every loadable segment among the first `i` headers is in memory,
      and the image consists of their pages. */
  ghost predicate LoadedUpTo(ram: Ram, image: Image, data: seq<byte>, i: nat)
    requires EHDR_SIZE <= |data| && HeadersInside(data) && i <= HeaderCount(data)
  {
    && (forall j | 0 <= j < i && IsLoad(data, j) :: SegmentKept(ram, image, data, j, i))
    && (forall n | n in image :: PageOfSegment(data, i, n))
  }

  predicate PageOfSegment(data: seq<byte>, i: nat, n: nat)
    requires EHDR_SIZE <= |data| && HeadersInside(data) && i <= HeaderCount(data)
  {
    exists j :: 0 <= j < i && IsLoad(data, j) && PageOf(data, j, n)
  }

  /** Pages the first `i` headers ask for. */
  function PagesUpTo(data: seq<byte>, i: nat): nat
    requires EHDR_SIZE <= |data| && HeadersInside(data) && i <= HeaderCount(data)
  {
    if i == 0 then 0
    else
      var s := SegmentAt(data, i - 1);
      FlagsPresent(s);
      PagesUpTo(data, i - 1) + if s.kind == PT_LOAD then s.EndPage() - s.FirstPage() else 0
  }

  /** They are the pages of each loadable segment, in a row. */
  lemma PagesCounted(data: seq<byte>, i: nat)
    requires EHDR_SIZE <= |data| && HeadersInside(data) && i < HeaderCount(data)
    ensures PagesUpTo(data, 0) == 0 && PagesUpTo(data, i) <= PagesUpTo(data, i + 1)
    ensures var more := PagesUpTo(data, i + 1) - PagesUpTo(data, i);
            if IsLoad(data, i) then
              var first := SegmentAt(data, i).vaddr / 4096;
              forall n: nat :: PageOf(data, i, n) <==> first <= n < first + more
            else more == 0
  {
    hide SegmentAt;
    FlagsPresent(SegmentAt(data, i));
  }

  lemma {:induction false} PagesMonotone(data: seq<byte>, i: nat, j: nat)
    requires EHDR_SIZE <= |data| && HeadersInside(data) && i <= j <= HeaderCount(data)
    ensures PagesUpTo(data, i) <= PagesUpTo(data, j)
    decreases j
  {
    hide SegmentAt, Field;
    if i < j {
      PagesMonotone(data, i, j - 1);
    }
  }

  predicate InFile(data: seq<byte>, i: nat)
    requires EHDR_SIZE <= |data| && HeaderOffset(data, i) + PHDR_SIZE <= |data|
  {
    SegmentAt(data, i).offset + SegmentAt(data, i).filesz <= |data|
  }

  /** The test in front of the copy, in 64 bits. */
  predicate PassesTest(data: seq<byte>, i: nat)
    requires EHDR_SIZE <= |data| && HeaderOffset(data, i) + PHDR_SIZE <= |data|
  {
    (SegmentAt(data, i).offset + SegmentAt(data, i).filesz) % WORD64 <= |data|
  }

  lemma {:induction false} FieldBound(data: seq<byte>, off: nat, n: nat)
    requires off + n <= |data| && n <= 8
    ensures Field(data, off, n) < Pow256(n)
    decreases n
  {
    if n > 0 {
      FieldBound(data, off + 1, n - 1);
    }
  }

  /** The test tells a segment inside the file from one that is not, exactly if
      the sum of offset and size does not wrap to a position inside the file. */
  lemma TestExactly(data: seq<byte>, i: nat)
    requires EHDR_SIZE <= |data| < WORD64 && HeaderOffset(data, i) + PHDR_SIZE <= |data|
    ensures var end := SegmentAt(data, i).offset + SegmentAt(data, i).filesz;
            (PassesTest(data, i) <==> InFile(data, i)) <==> end < WORD64 || end - WORD64 > |data|
  {
    hide Field, HeaderOffset, Pow256;
    var o := HeaderOffset(data, i);
    FieldBound(data, o + 8, 8);
    FieldBound(data, o + 32, 8);
    EightBytes();
    WrapTest(SegmentAt(data, i).offset, SegmentAt(data, i).filesz, |data|);
  }

  lemma WrapTest(a: nat, b: nat, size: nat)
    requires a < WORD64 && b < WORD64 && size < WORD64
    ensures ((a + b) % WORD64 <= size <==> a + b <= size) <==> a + b < WORD64 || a + b - WORD64 > size
  {
    assert (a + b) % WORD64 == if a + b < WORD64 then a + b else a + b - WORD64;
  }

  lemma {:induction false} FieldZero(data: seq<byte>, off: nat, n: nat)
    requires off + n <= |data| && forall i :: off <= i < off + n ==> data[i] == 0
    ensures Field(data, off, n) == 0
    decreases n
  {
    if n > 0 {
      FieldZero(data, off + 1, n - 1);
    }
  }

  lemma FieldSmall(data: seq<byte>, off: nat)
    requires off + 8 <= |data| && forall i :: off < i < off + 8 ==> data[i] == 0
    ensures Field(data, off, 8) == data[off]
  {
    FieldZero(data, off + 1, 7);
  }

  lemma {:induction false} FieldFull(data: seq<byte>, off: nat, n: nat)
    requires off + n <= |data| && forall i :: off <= i < off + n ==> data[i] == 0xFF
    ensures Field(data, off, n) == Pow256(n) - 1
    decreases n
  {
    if n > 0 {
      FieldFull(data, off + 1, n - 1);
    }
  }

  /** A file of 120 bytes with its one program header at byte 64: one byte from
      offset 2^64 - 1 on. */
  predicate WrappingFile(data: seq<byte>) {
    && |data| == EHDR_SIZE + PHDR_SIZE
    && data[32] == 64 && (forall i :: 33 <= i < 40 ==> data[i] == 0)
    && (forall i :: 72 <= i < 80 ==> data[i] == 0xFF)
    && data[96] == 1 && (forall i :: 97 <= i < 104 ==> data[i] == 0)
  }

  /** The sum wraps around to 0: the test passes and the segment is not in the
      file. */
  lemma WrappedSumPasses(data: seq<byte>)
    requires WrappingFile(data)
    ensures HeaderOffset(data, 0) == 64 && PassesTest(data, 0) && !InFile(data, 0)
  {
    hide Field, Pow256;
    FieldSmall(data, 32);
    FieldSmall(data, 96);
    FieldFull(data, 72, 8);
    EightBytes();
    assert HeaderOffset(data, 0) == 64;
    assert SegmentAt(data, 0).offset == WORD64 - 1 && SegmentAt(data, 0).filesz == 1;
  }

  lemma EightBytes()
    ensures Pow256(8) == WORD64
  {
    assert Pow256(4) == 0x1_0000_0000;
    assert Pow256(8) == 256 * (256 * (256 * (256 * Pow256(4))));
  }

  /** What is left of a segment after the next one is loaded. */
  lemma KeptOneMore(ram: Ram, ram': Ram, image: Image, image': Image, data: seq<byte>, j: nat, i: nat)
    requires EHDR_SIZE <= |data| && HeadersInside(data) && j < i < HeaderCount(data) && IsLoad(data, i)
    requires SegmentKept(ram, image, data, j, i)
    requires var s := SegmentAt(data, i);
             && SameElsewhere(image, image', s.FirstPage(), s.EndPage())
             && SameBytes(ram, ram', image, PageBase(s.FirstPage()), PageBase(s.EndPage()))
    ensures SegmentKept(ram', image', data, j, i + 1)
  {
    hide SegmentAt, AsBytes;
    var s, t := SegmentAt(data, j), SegmentAt(data, i);
    forall n: nat
      ensures Retaken(data, j, i + 1, n) <==> Retaken(data, j, i, n) || PageOf(data, i, n)
    {
      RetakenMore(data, j, i, n);
    }
    hide Retaken;
    forall v: nat | s.vaddr <= v < s.vaddr + s.memsz && !Retaken(data, j, i + 1, v / 4096)
      ensures Inside(ram', image', v) && ByteAt(ram', image', v) == s.Content(data, v - s.vaddr)
    {
      assert Inside(ram, image, v) && !(PageBase(t.FirstPage()) <= v < PageBase(t.EndPage()));
    }
  }

  lemma RetakenMore(data: seq<byte>, j: nat, i: nat, n: nat)
    requires EHDR_SIZE <= |data| && HeadersInside(data) && j < i < HeaderCount(data)
    ensures Retaken(data, j, i + 1, n) <==> Retaken(data, j, i, n) || (IsLoad(data, i) && PageOf(data, i, n))
    ensures !Retaken(data, i, i + 1, n)
  {
    hide PageOf, IsLoad;
  }

  lemma KeptNow(ram: Ram, image: Image, data: seq<byte>, i: nat)
    requires EHDR_SIZE <= |data| && HeadersInside(data) && i < HeaderCount(data)
    requires SegmentLoaded(ram, image, data, SegmentAt(data, i))
    ensures SegmentKept(ram, image, data, i, i + 1)
  {
    hide SegmentAt, Retaken, AsBytes, ByteAt;
  }

  lemma LoadedOneMore(ram: Ram, ram': Ram, image: Image, image': Image, data: seq<byte>, i: nat)
    requires EHDR_SIZE <= |data| && HeadersInside(data) && i < HeaderCount(data) && IsLoad(data, i)
    requires LoadedUpTo(ram, image, data, i)
    requires var s := SegmentAt(data, i);
             && Grown(image, image', s.FirstPage(), s.EndPage(), s.LeafFlags())
             && SegmentLoaded(ram', image', data, s)
             && SameBytes(ram, ram', image, PageBase(s.FirstPage()), PageBase(s.EndPage()))
    ensures LoadedUpTo(ram', image', data, i + 1)
  {
    hide SegmentAt, SegmentKept, SegmentLoaded, SameBytes, SameElsewhere, Retaken, IsLoad;
    forall j | 0 <= j < i && IsLoad(data, j)
      ensures SegmentKept(ram', image', data, j, i + 1)
    {
      KeptOneMore(ram, ram', image, image', data, j, i);
    }
    KeptNow(ram', image', data, i);
    forall n | n in image'
      ensures PageOfSegment(data, i + 1, n)
    {
      if n in image {
        assert PageOfSegment(data, i, n);
      } else {
        assert PageOf(data, i, n);
      }
    }
  }

  /** The segment loop. */
  method LoadSegments(m: Machine, data: seq<byte>) returns (out: Outcome, ghost image: Image)
    requires m.Valid() && UserPlain(m.ram, m.cr3.frame) && Loadable(data) && EHDR_SIZE <= |data|
    modifies m`ram, m.pfa, m.pfa.lowBitmap
    ensures m.Valid()
    ensures out.Entered? ==> Built(old(m.ram), m.ram, m.cr3.frame, m.Free(), image)
                             && LoadedUpTo(m.ram, image, data, HeaderCount(data))
                             && forall i | 0 <= i < HeaderCount(data) && IsLoad(data, i) :: InFile(data, i)
    ensures out == Rejected(-4) ==> exists i :: 0 <= i < HeaderCount(data) && IsLoad(data, i) && !PassesTest(data, i)
    ensures out == LeavesFile ==>
              exists i :: 0 <= i < HeaderCount(data) && IsLoad(data, i) && PassesTest(data, i) && !InFile(data, i)
    ensures out in {Rejected(-4), Rejected(-5), Faulted, LeavesFile, Entered(0, 0, true)}
    ensures |old(m.pfa.state.low)| >= 4 * PagesUpTo(data, HeaderCount(data)) ==>
              out in {Rejected(-4), LeavesFile, Entered(0, 0, true)}
              && (out.Entered? ==>
                    |m.pfa.state.low| >= |old(m.pfa.state.low)| - 4 * PagesUpTo(data, HeaderCount(data)))
  {
    hide Machine.Valid, Built, UserPlain, SameBytes, NoHugeOn, PathOf, SegmentLoaded, Grown, Loadable, SegmentAt;
    hide HeaderOffset, Field, LoadedUpTo;
    ghost var ram0 := m.ram;
    image := map[];
    LoadableHeaders(data);
    ValidTree(m);
    NothingLoaded(m.ram, m.cr3.frame, m.Free(), data);
    var n := HeaderCount(data);
    for i := 0 to n
      invariant m.Valid()
      invariant Built(ram0, m.ram, m.cr3.frame, m.Free(), image)
      invariant LoadedUpTo(m.ram, image, data, i)
      invariant forall j | 0 <= j < i && IsLoad(data, j) :: InFile(data, j)
      invariant |old(m.pfa.state.low)| >= 4 * PagesUpTo(data, n) ==>
                  |m.pfa.state.low| >= |old(m.pfa.state.low)| - 4 * PagesUpTo(data, i)
    {
      LoadableAt(data, i);
      var s := SegmentAt(data, i);
      ghost var before, grown := m.ram, image;
      PagesMonotone(data, i + 1, n);
      if s.kind == PT_LOAD {
        if (s.offset + s.filesz) % WORD64 > |data| {
          return Rejected(-4), image;
        }
        if s.offset + s.filesz > |data| {
          return LeavesFile, image;
        }
        var st;
        st, image := LoadSegment(m, data, s, ram0, image);
        if st != Ok {
          return if st == NoFrame then Rejected(-5) else Faulted, image;
        }
        LoadedOneMore(before, m.ram, grown, image, data, i);
      } else {
        LoadedSkip(m.ram, image, data, i);
      }
    }
    out := Entered(0, 0, true);
  }

  lemma LoadableHeaders(data: seq<byte>)
    requires Loadable(data) && EHDR_SIZE <= |data|
    ensures HeadersInside(data)
    ensures forall i :: 0 <= i < HeaderCount(data) ==> HeaderOffset(data, i) + PHDR_SIZE <= |data|
  {
  }

  lemma ValidTree(m: Machine)
    requires m.Valid()
    ensures Tree(m.ram, m.cr3.frame, m.Free())
  {
  }

  lemma NothingLoaded(ram: Ram, root: FrameNo, free: set<nat>, data: seq<byte>)
    requires Tree(ram, root, free) && Loadable(data) && EHDR_SIZE <= |data|
    ensures Built(ram, ram, root, free, map[])
    ensures LoadedUpTo(ram, map[], data, 0)
  {
    hide PathOf;
  }

  lemma LoadableAt(data: seq<byte>, i: nat)
    requires Loadable(data) && EHDR_SIZE <= |data| && i < HeaderCount(data)
    ensures HeadersInside(data) && HeaderOffset(data, i) + PHDR_SIZE <= |data|
    ensures var s := SegmentAt(data, i);
            s.kind == PT_LOAD ==> IsLoad(data, i) && GoodSegment(s)
  {
  }

  lemma LoadedSkip(ram: Ram, image: Image, data: seq<byte>, i: nat)
    requires Loadable(data) && EHDR_SIZE <= |data| && i < HeaderCount(data) && !IsLoad(data, i)
    requires LoadedUpTo(ram, image, data, i)
    ensures LoadedUpTo(ram, image, data, i + 1)
  {
    hide SegmentAt, PageOf, IsLoad, Retaken;
    forall j, n: nat | 0 <= j < i
      ensures Retaken(data, j, i + 1, n) <==> Retaken(data, j, i, n)
    {
      RetakenMore(data, j, i, n);
    }
    forall n | n in image
      ensures PageOfSegment(data, i + 1, n)
    {
      assert PageOfSegment(data, i, n);
    }
  }

  // ---------------------------------------------------------------------------
  // The stack, and the whole load
  // ---------------------------------------------------------------------------

  /** `image'` has the topmost `p` stack pages mapped anew, except those whose
      tables could not be allocated. */
  ghost predicate WithStack(image: Image, image': Image, p: nat, all: bool)
    requires p <= INIT_STACK_PAGES
  {
    && SameElsewhere(image, image', STACK_BOTTOM_PAGE + INIT_STACK_PAGES - p, STACK_BOTTOM_PAGE + INIT_STACK_PAGES)
    && (forall n: nat | n in image' :: n in image || STACK_BOTTOM_PAGE + INIT_STACK_PAGES - p <= n < STACK_BOTTOM_PAGE + INIT_STACK_PAGES)
    && (all ==> forall n: nat | STACK_BOTTOM_PAGE + INIT_STACK_PAGES - p <= n < STACK_BOTTOM_PAGE + INIT_STACK_PAGES ::
          n in image' && image'[n].low == PRESENT | RW | USER && image'[n].high == NO_EXEC)
  }

  method MapStack(m: Machine, ghost ram0: Ram, ghost image: Image)
    returns (ok: bool, all: bool, ghost image': Image)
    requires m.Valid() && Built(ram0, m.ram, m.cr3.frame, m.Free(), image) && UserPlain(ram0, m.cr3.frame)
    modifies m`ram, m.pfa, m.pfa.lowBitmap
    ensures m.Valid()
    ensures ok ==> Built(ram0, m.ram, m.cr3.frame, m.Free(), image')
                   && SameBytes(old(m.ram), m.ram, image, PageBase(STACK_BOTTOM_PAGE),
                                PageBase(STACK_BOTTOM_PAGE + INIT_STACK_PAGES))
                   && WithStack(image, image', INIT_STACK_PAGES, all)
    ensures |old(m.pfa.state.low)| >= 4 * INIT_STACK_PAGES ==> ok && all
  {
    hide Machine.Valid, Built, UserPlain, SameBytes, NoHugeOn, PathOf, WithStack, SameElsewhere, PageBase;
    image', all := image, true;
    NoStackYet(image);
    ghost var top: nat := STACK_BOTTOM_PAGE + INIT_STACK_PAGES;
    SameBytesAny(m.ram, image, PageBase(top), PageBase(top));
    for p := 0 to INIT_STACK_PAGES
      invariant m.Valid() && Built(ram0, m.ram, m.cr3.frame, m.Free(), image')
      invariant SameBytes(old(m.ram), m.ram, image, PageBase(top - p), PageBase(top))
      invariant WithStack(image, image', p, all)
      invariant |old(m.pfa.state.low)| >= 4 * INIT_STACK_PAGES ==>
                  all && |m.pfa.state.low| >= |old(m.pfa.state.low)| - 4 * p
    {
      var page := INIT_STACK_TOP / 4096 - (p + 1);
      PlainPage(ram0, m.ram, m.cr3.frame, m.Free(), image', page);
      ghost var before, grown := m.ram, image';
      StackFlags();
      var st;
      st, image' := MapFresh(m, page, Flags(PRESENT | RW | USER, NO_EXEC), ram0, image');
      if st == NoFrame {
        return false, all, image';
      }
      StackOneMore(image, grown, image', p, all, st == Ok);
      SameBytesGrow(old(m.ram), before, m.ram, image, grown, top - p, top, page, page + 1, page, top);
      all := all && st == Ok;
    }
    ok := true;
  }

  lemma NoStackYet(image: Image)
    ensures WithStack(image, image, 0, true)
  {
  }

  /** One stack page more, or none when its tables could not be allocated. */
  lemma StackOneMore(image: Image, grown: Image, image': Image, p: nat, all: bool, mapped: bool)
    requires p < INIT_STACK_PAGES && WithStack(image, grown, p, all)
    requires var n := STACK_BOTTOM_PAGE + INIT_STACK_PAGES - (p + 1);
             if mapped then n in image' && image' == grown[n := image'[n]]
                            && image'[n].low == PRESENT | RW | USER && image'[n].high == NO_EXEC
             else image' == grown
    ensures WithStack(image, image', p + 1, all && mapped)
    ensures SameElsewhere(image, grown, STACK_BOTTOM_PAGE + INIT_STACK_PAGES - (p + 1), STACK_BOTTOM_PAGE + INIT_STACK_PAGES)
  {
  }

  lemma StackFlags()
    ensures (PRESENT | RW | USER) & PRESENT != 0 && (PRESENT | RW | USER) & USER != 0
  {
  }

  /** User mode reaches page `n`; its entry is PRESENT | RW | USER, without NO_EXEC
      if and only if code may run there. */
  ghost predicate UserPage(ram: Ram, root: FrameNo, n: nat, code: bool) {
    var t := Translate(ram, root, PathOf(PageBase(n)));
    && t.Page? && t.entry.low == 0x007 && t.entry.high == (if code then 0x000 else 0x800)
    && UserAccess(ram, root, PathOf(PageBase(n)))
  }

  /** PF_X, bit 0 of the flag field of header `i`. */
  predicate CodeBit(data: seq<byte>, i: nat)
    requires EHDR_SIZE <= |data| && HeaderOffset(data, i) + PHDR_SIZE <= |data|
  {
    data[HeaderOffset(data, i) + 4] % 2 == 1
  }

  lemma LeafFlagsAre(data: seq<byte>, i: nat)
    requires EHDR_SIZE <= |data| && HeaderOffset(data, i) + PHDR_SIZE <= |data|
    ensures SegmentAt(data, i).LeafFlags() == Flags(0x007, if CodeBit(data, i) then 0x000 else 0x800)
  {
    FlagsEven(data, i);
    UserFlagBits();
    hide SegmentAt, HeaderOffset, CodeBit;
  }

  lemma UserFlagBits()
    ensures PRESENT | RW | USER == 0x007
  {
  }

  lemma FlagsEven(data: seq<byte>, i: nat)
    requires EHDR_SIZE <= |data| && HeaderOffset(data, i) + PHDR_SIZE <= |data|
    ensures SegmentAt(data, i).flags % 2 == 1 <==> CodeBit(data, i)
  {
    hide Field, HeaderOffset, Little;
    var o := HeaderOffset(data, i);
    FieldBytes(data, o + 4);
    LittleEven(data[o + 4], data[o + 5], data[o + 6], data[o + 7]);
  }

  lemma LittleEven(b0: nat, b1: nat, b2: nat, b3: nat)
    ensures Little(b0, b1, b2, b3) % 2 == b0 % 2
  {
  }

  /** Bytes `off` on as little-endian numbers. */
  lemma FieldBytes(data: seq<byte>, off: nat)
    requires off <= |data|
    ensures off + 2 <= |data| ==> Field(data, off, 2) == Little(data[off], data[off + 1], 0, 0)
    ensures off + 4 <= |data| ==>
              Field(data, off, 4) == Little(data[off], data[off + 1], data[off + 2], data[off + 3])
    ensures off + 8 <= |data| ==>
              Field(data, off, 8) == Little(data[off], data[off + 1], data[off + 2], data[off + 3])
                + 0x1_0000_0000 * Little(data[off + 4], data[off + 5], data[off + 6], data[off + 7])
  {
    if off + 2 <= |data| {
      FieldTwo(data, off);
    }
    if off + 4 <= |data| {
      FieldFour(data, off);
    }
    if off + 8 <= |data| {
      FieldFour(data, off + 4);
      FieldSplit(data, off, 4, 8);
      assert Pow256(4) == 256 * (256 * Pow256(2)) && Pow256(2) == 0x1_0000;
    }
  }

  lemma FieldTwo(data: seq<byte>, off: nat)
    requires off + 2 <= |data|
    ensures Field(data, off, 2) == Little(data[off], data[off + 1], 0, 0)
  {
    assert Field(data, off, 2) == data[off] + 256 * Field(data, off + 1, 1);
  }

  lemma FieldFour(data: seq<byte>, off: nat)
    requires off + 4 <= |data|
    ensures Field(data, off, 4) == Little(data[off], data[off + 1], data[off + 2], data[off + 3])
  {
    FieldTwo(data, off);
    FieldTwo(data, off + 2);
    FieldSplit(data, off, 2, 4);
    assert Pow256(2) == 0x1_0000;
  }

  lemma {:induction false} FieldSplit(data: seq<byte>, off: nat, k: nat, n: nat)
    requires k <= n && off + n <= |data|
    ensures Field(data, off, n) == Field(data, off, k) + Pow256(k) * Field(data, off + k, n - k)
    decreases k
  {
    if k > 0 {
      FieldSplit(data, off + 1, k - 1, n - 1);
      Shifted(data[off], Field(data, off + 1, k - 1), Pow256(k - 1), Field(data, off + k, n - k));
    }
  }

  lemma Shifted(b: nat, low: nat, p: nat, f: nat)
    ensures b + 256 * (low + p * f) == b + 256 * low + 256 * p * f
  {
  }

  /** Where a program header keeps its fields, and where the file keeps its headers. */
  lemma HeaderFields(data: seq<byte>, i: nat)
    requires EHDR_SIZE <= |data| && HeaderOffset(data, i) + PHDR_SIZE <= |data|
    ensures HeaderCount(data) == Little(data[56], data[57], 0, 0)
    ensures HeaderOffset(data, i) ==
            Little(data[32], data[33], data[34], data[35])
            + 0x1_0000_0000 * Little(data[36], data[37], data[38], data[39]) + i * Little(data[54], data[55], 0, 0)
    ensures var s, h := SegmentAt(data, i), data[HeaderOffset(data, i)..];
            && s.kind == Little(h[0], h[1], h[2], h[3]) && s.flags == Little(h[4], h[5], h[6], h[7])
            && s.offset == Little(h[8], h[9], h[10], h[11]) + 0x1_0000_0000 * Little(h[12], h[13], h[14], h[15])
            && s.vaddr == Little(h[16], h[17], h[18], h[19]) + 0x1_0000_0000 * Little(h[20], h[21], h[22], h[23])
            && s.filesz == Little(h[32], h[33], h[34], h[35]) + 0x1_0000_0000 * Little(h[36], h[37], h[38], h[39])
            && s.memsz == Little(h[40], h[41], h[42], h[43]) + 0x1_0000_0000 * Little(h[44], h[45], h[46], h[47])
  {
    hide Field, Little;
    FieldBytes(data, 56);
    FieldBytes(data, 54);
    FieldBytes(data, 32);
    var o := HeaderOffset(data, i);
    FieldBytes(data, o);
    FieldBytes(data, o + 4);
    FieldBytes(data, o + 8);
    FieldBytes(data, o + 16);
    FieldBytes(data, o + 32);
    FieldBytes(data, o + 40);
  }

  /** The pages of a segment are those that meet its bytes, and for an empty segment
      the page it points into. */
  lemma SegmentPages(data: seq<byte>, i: nat, n: nat)
    requires EHDR_SIZE <= |data| && HeaderOffset(data, i) + PHDR_SIZE <= |data|
    ensures var s := SegmentAt(data, i);
            PageOf(data, i, n) <==> s.vaddr < (n + 1) * 4096 && n * 4096 < s.vaddr + s.memsz
  {
    hide SegmentAt, HeaderOffset;
  }

  /** What a reader of the new address space sees of segment `i`. */
  ghost predicate Visible(ram: Ram, root: FrameNo, data: seq<byte>, i: nat)
    requires EHDR_SIZE <= |data| && HeaderOffset(data, i) + PHDR_SIZE <= |data| && InFile(data, i)
  {
    var s := SegmentAt(data, i);
    && (forall k: nat | k < s.memsz :: ReadByte(ram, root, s.vaddr + k) == Some(s.Content(data, k)))
    && (forall n: nat | PageOf(data, i, n) :: UserPage(ram, root, n, CodeBit(data, i)))
  }

  /** What a reader sees of segment `i`: all of it but the pages mapped again. */
  ghost predicate Seen(ram: Ram, root: FrameNo, data: seq<byte>, i: nat)
    requires EHDR_SIZE <= |data| && HeadersInside(data) && i < HeaderCount(data) && InFile(data, i)
  {
    var s := SegmentAt(data, i);
    && (forall k: nat | k < s.memsz && !Buried(data, i, (s.vaddr + k) / 4096) ::
          ReadByte(ram, root, s.vaddr + k) == Some(s.Content(data, k)))
    && (forall n: nat | PageOf(data, i, n) && !Buried(data, i, n) :: UserPage(ram, root, n, CodeBit(data, i)))
  }

  lemma SeenWhole(ram: Ram, root: FrameNo, data: seq<byte>, i: nat)
    requires EHDR_SIZE <= |data| && HeadersInside(data) && i < HeaderCount(data) && IsLoad(data, i) && InFile(data, i)
    requires Seen(ram, root, data, i) && Apart(data)
    ensures Visible(ram, root, data, i)
  {
    hide Buried, SegmentAt, PathOf, Translate, ReadByte, UserPage, IsLoad, HeaderOffset;
    var s := SegmentAt(data, i);
    forall k: nat | k < s.memsz
      ensures ReadByte(ram, root, s.vaddr + k) == Some(s.Content(data, k))
    {
      assert PageOf(data, i, (s.vaddr + k) / 4096);
    }
  }

  /** elf64_load_and_run up to the jump. */
  method Load(m: Machine, data: seq<byte>) returns (out: Outcome, ghost image: Image)
    requires m.Valid() && UserPlain(m.ram, m.cr3.frame) && Loadable(data)
    modifies m`ram, m.pfa, m.pfa.lowBitmap
    ensures m.Valid()
    ensures out == Rejected(-1) <==> |data| < EHDR_SIZE
    ensures out == Rejected(-2) <==> EHDR_SIZE <= |data| && data[..4] != [0x7F, 0x45, 0x4C, 0x46]
    ensures out == Rejected(-3) <==> EHDR_SIZE <= |data| && data[..4] == [0x7F, 0x45, 0x4C, 0x46] && data[4] != 2
    ensures out.Rejected? && out.code >= -3 ==> m.ram == old(m.ram)
    ensures out == Rejected(-4) ==>
              EHDR_SIZE <= |data| && exists i :: 0 <= i < HeaderCount(data) && IsLoad(data, i) && !PassesTest(data, i)
    ensures out == LeavesFile ==>
              EHDR_SIZE <= |data|
              && exists i :: 0 <= i < HeaderCount(data) && IsLoad(data, i) && PassesTest(data, i) && !InFile(data, i)
    ensures out.Entered? ==>
              && EHDR_SIZE <= |data| && out.rsp == 0x7000_0000_0000
              && out.entry == Little(data[24], data[25], data[26], data[27])
                              + 0x1_0000_0000 * Little(data[28], data[29], data[30], data[31])
              && (forall i | 0 <= i < HeaderCount(data) && IsLoad(data, i) ::
                    InFile(data, i) && Seen(m.ram, m.cr3.frame, data, i))
    ensures out.Entered? && Apart(data) ==>
              forall i | 0 <= i < HeaderCount(data) && IsLoad(data, i) ::
                Visible(m.ram, m.cr3.frame, data, i)
    ensures out.Entered? && out.stack ==>
              forall n: nat | 0x6_FFFF_FFFC <= n < 0x7_0000_0000 :: UserPage(m.ram, m.cr3.frame, n, false)
    ensures out.Entered? ==> Built(old(m.ram), m.ram, m.cr3.frame, m.Free(), image)
    ensures out.Entered? ==> forall n | n in image :: StackPage(n) || PageOfSegment(data, HeaderCount(data), n)
    ensures EHDR_SIZE <= |data|
            && |old(m.pfa.state.low)| >= 4 * (PagesUpTo(data, HeaderCount(data)) + INIT_STACK_PAGES) ==>
              (out.Rejected? && out.code >= -4) || out == LeavesFile || (out.Entered? && out.stack)
  {
    hide Machine.Valid, Built, UserPlain, SameBytes, NoHugeOn, PathOf, Loadable, SegmentAt;
    hide HeaderOffset, Field, LoadedUpTo, Visible, Seen, Apart, PageOfSegment, Translate, UserPage, Little;
    image := map[];
    if |data| < EHDR_SIZE {
      return Rejected(-1), image;
    }
    if data[0] != 0x7F || data[1] != 0x45 || data[2] != 0x4C || data[3] != 0x46 {
      return Rejected(-2), image;
    }
    if data[4] != 2 {
      return Rejected(-3), image;
    }
    LoadableHeaders(data);
    ghost var ram0 := m.ram;
    out, image := LoadSegments(m, data);
    if !out.Entered? {
      return;
    }
    ghost var ram1, image1 := m.ram, image;
    var ok, all;
    ok, all, image := MapStack(m, ram0, image);
    if !ok {
      return Rejected(-6), image;
    }
    out := Entered(Field(data, 24, 8), INIT_STACK_TOP, all);
    FieldBytes(data, 24);
    EverythingVisible(ram0, ram1, m.ram, m.cr3.frame, m.Free(), image1, image, data, all);
  }

  lemma EverythingVisible(ram0: Ram, ram1: Ram, ram: Ram, root: FrameNo, free: set<nat>,
                          image1: Image, image: Image, data: seq<byte>, all: bool)
    requires EHDR_SIZE <= |data| && HeadersInside(data)
    requires LoadedUpTo(ram1, image1, data, HeaderCount(data))
    requires forall i | 0 <= i < HeaderCount(data) && IsLoad(data, i) :: InFile(data, i)
    requires Built(ram0, ram, root, free, image)
    requires SameBytes(ram1, ram, image1, PageBase(STACK_BOTTOM_PAGE), PageBase(STACK_BOTTOM_PAGE + INIT_STACK_PAGES))
    requires WithStack(image1, image, INIT_STACK_PAGES, all)
    ensures forall i | 0 <= i < HeaderCount(data) && IsLoad(data, i) :: Seen(ram, root, data, i)
    ensures Apart(data) ==> forall i | 0 <= i < HeaderCount(data) && IsLoad(data, i) ::
              Visible(ram, root, data, i)
    ensures all ==> forall n: nat | StackPage(n) :: UserPage(ram, root, n, false)
    ensures forall n | n in image :: StackPage(n) || PageOfSegment(data, HeaderCount(data), n)
  {
    hide PathOf, SegmentAt, Field, Translate, SameBytes, SegmentKept, Visible, NoHugeOn, Seen, Apart, PageOfSegment, UserAccess;
    forall i | 0 <= i < HeaderCount(data) && IsLoad(data, i)
      ensures Seen(ram, root, data, i) && (Apart(data) ==> Visible(ram, root, data, i))
    {
      LoadedIsVisible(ram1, ram, root, free, image1, image, data, i);
      if Apart(data) {
        SeenWhole(ram, root, data, i);
      }
    }
    if all {
      forall n: nat | StackPage(n)
        ensures UserPage(ram, root, n, false)
      {
        assert OwnsPage(ram, root, free, n, image[n]);
      }
    }
  }

  /** What is in memory of a segment behind the loop is what a reader sees behind
      the stack mapping. */
  lemma LoadedIsVisible(ram1: Ram, ram: Ram, root: FrameNo, free: set<nat>, image1: Image, image: Image,
                        data: seq<byte>, i: nat)
    requires EHDR_SIZE <= |data| && HeadersInside(data) && i < HeaderCount(data) && InFile(data, i)
    requires Owns(ram, root, free, image) && SegmentKept(ram1, image1, data, i, HeaderCount(data))
    requires SameElsewhere(image1, image, STACK_BOTTOM_PAGE, STACK_BOTTOM_PAGE + INIT_STACK_PAGES)
    requires SameBytes(ram1, ram, image1, PageBase(STACK_BOTTOM_PAGE), PageBase(STACK_BOTTOM_PAGE + INIT_STACK_PAGES))
    ensures Seen(ram, root, data, i)
  {
    hide PathOf, Translate, ReadByte, Inside, ByteAt, SegmentAt, Retaken, Owns, SameBytes, UserAccess, CodeBit, HeaderOffset;
    var s := SegmentAt(data, i);
    forall k: nat | k < s.memsz && !Buried(data, i, (s.vaddr + k) / 4096)
      ensures ReadByte(ram, root, s.vaddr + k) == Some(s.Content(data, k))
    {
      var v := s.vaddr + k;
      assert Inside(ram1, image1, v) && ByteAt(ram1, image1, v) == s.Content(data, k);
      ByteStays(ram1, ram, root, free, image1, image, v);
    }
    forall n: nat | PageOf(data, i, n) && !Buried(data, i, n)
      ensures UserPage(ram, root, n, CodeBit(data, i))
    {
      OwnedBelow(ram, root, free, image, n);
      LeafFlagsAre(data, i);
    }
  }

  /** A byte off the stack. */
  lemma ByteStays(ram1: Ram, ram: Ram, root: FrameNo, free: set<nat>, image1: Image, image: Image, v: nat)
    requires Owns(ram, root, free, image) && Inside(ram1, image1, v) && !StackPage(v / 4096)
    requires SameElsewhere(image1, image, STACK_BOTTOM_PAGE, STACK_BOTTOM_PAGE + INIT_STACK_PAGES)
    requires SameBytes(ram1, ram, image1, PageBase(STACK_BOTTOM_PAGE), PageBase(STACK_BOTTOM_PAGE + INIT_STACK_PAGES))
    ensures ReadByte(ram, root, v) == Some(ByteAt(ram1, image1, v))
  {
    hide PathOf, Translate, ReadByte, AsBytes, Owns, IsTable;
    assert !(PageBase(STACK_BOTTOM_PAGE) <= v < PageBase(STACK_BOTTOM_PAGE + INIT_STACK_PAGES));
    OwnedBelow(ram, root, free, image, v / 4096);
    ReadSeesImage(ram, root, free, image, v);
  }

  lemma OwnedBelow(ram: Ram, root: FrameNo, free: set<nat>, image: Image, n: nat)
    requires Owns(ram, root, free, image) && n in image
    ensures n < VA_PAGES && Translate(ram, root, PathOf(PageBase(n))) == Page(image[n])
    ensures UserAccess(ram, root, PathOf(PageBase(n)))
  {
    hide PathOf, Translate, IsTable, UserAccess;
    assert OwnsPage(ram, root, free, n, image[n]);
  }
}
