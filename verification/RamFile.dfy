/** File data of ramfs (ramfs.c): pages from pfa_alloc_low behind a table of page
    pointers, against the byte sequence they stand for. */
module RamFile {
  import opened Basics
  import FrameAllocator

  const PAGE: nat := 4096
  const FILE_PAGES: nat := 128
  const MAX_FILES: nat := 64

  type Page = s: seq<byte> | |s| == PAGE witness seq(PAGE, _ => 0)

  /** ramfs_file_data_t: frame numbers, 0 for NULL. */
  datatype FileData = FileData(pages: seq<nat>, numPages: nat) {
    predicate Good() { |pages| == 128 && numPages <= 128 }
    function Capacity(): nat { numPages * 4096 }
  }

  /** Page `i` of file `f` is a live frame. */
  predicate Live(files: seq<FileData>, f: nat, i: nat) {
    f < |files| && files[f].Good() && i < files[f].numPages
  }

  /** No frame serves two pages, of one file or of two. */
  ghost predicate FramesDistinct(files: seq<FileData>) {
    forall f: nat, i: nat, g: nat, j: nat | Live(files, f, i) && Live(files, g, j) ::
      files[f].pages[i] == files[g].pages[j] ==> f == g && i == j
  }

  ghost predicate FramesTaken(files: seq<FileData>, low: set<nat>, frames: nat) {
    forall f: nat, i: nat | Live(files, f, i) ::
      0 < files[f].pages[i] < frames && files[f].pages[i] !in low
  }

  ghost predicate PoolOk(files: seq<FileData>, low: set<nat>, frames: nat) {
    && |files| <= 64 && (forall f :: 0 <= f < |files| ==> files[f].Good())
    && FramesDistinct(files) && FramesTaken(files, low, frames)
  }

  /** Every page of the file is a frame of memory. */
  predicate Mapped(mem: seq<Page>, d: FileData) {
    d.Good() && forall i :: 0 <= i < d.numPages ==> d.pages[i] < |mem|
  }

  function ByteAt(mem: seq<Page>, d: FileData, i: nat): byte
    requires Mapped(mem, d) && i < d.Capacity()
  {
    mem[d.pages[i / 4096]][i % 4096]
  }

  /** The bytes a file stands for. */
  function Content(mem: seq<Page>, d: FileData, size: nat): (b: seq<byte>)
    requires Mapped(mem, d) && size <= d.Capacity()
    ensures |b| == size && forall i :: 0 <= i < size ==> b[i] == ByteAt(mem, d, i)
  {
    seq(size, i requires 0 <= i < size => ByteAt(mem, d, i))
  }

  /** The bytes a reader gets: a file may count fewer pages than its size needs. */
  function Visible(mem: seq<Page>, d: FileData, size: nat): (b: seq<byte>)
    requires Mapped(mem, d)
    ensures |b| == Min(size, d.Capacity())
  {
    Content(mem, d, Min(size, d.Capacity()))
  }

  /** `bytes'` has the data at `offset`, and the bytes of `bytes` everywhere else. */
  predicate LaidOver(bytes: seq<byte>, offset: nat, data: seq<byte>, bytes': seq<byte>) {
    && |bytes| <= |bytes'| && (data != [] ==> offset + |data| <= |bytes'|)
    && (forall i :: 0 <= i < |data| ==> bytes'[offset + i] == data[i])
    && (forall i :: 0 <= i < |bytes| && !(offset <= i < offset + |data|) ==> bytes'[i] == bytes[i])
  }

  /** Within the old bytes or right behind them that is patching. */
  lemma LaidIsPatch(bytes: seq<byte>, offset: nat, data: seq<byte>, bytes': seq<byte>)
    requires LaidOver(bytes, offset, data, bytes') && offset <= |bytes| && |bytes'| == Max(|bytes|, offset + |data|)
    ensures bytes' == Patch(bytes, offset, data)
  {
    var p := Patch(bytes, offset, data);
    forall i | 0 <= i < |p|
      ensures p[i] == bytes'[i]
    {
      if offset <= i < offset + |data| {
        assert bytes'[offset + (i - offset)] == data[i - offset];
      }
    }
  }

  // ---------------------------------------------------------------------------
  // Steps of a write
  // ---------------------------------------------------------------------------

  /** A fresh frame becomes page `i`, which is not live yet. */
  lemma PageAdded(files: seq<FileData>, low: set<nat>, frames: nat, f: nat, i: nat, frame: nat)
    requires PoolOk(files, low, frames) && f < |files| && files[f].numPages <= i < FILE_PAGES
    ensures PoolOk(files[f := files[f].(pages := files[f].pages[i := frame])], low, frames)
  {
    var files' := files[f := files[f].(pages := files[f].pages[i := frame])];
    assert forall g: nat, j: nat :: Live(files', g, j) <==> Live(files, g, j);
    assert forall g: nat, j: nat | Live(files, g, j) :: files'[g].pages[j] == files[g].pages[j];
  }

  /** The page count catches up with pages that hold fresh frames. */
  lemma PagesCounted(files: seq<FileData>, low: set<nat>, low': set<nat>, frames: nat, f: nat, n: nat)
    requires PoolOk(files, low, frames) && f < |files| && files[f].numPages <= n <= FILE_PAGES && low' <= low
    requires FreshPages(files[f].pages, files[f].numPages, n, low, low', frames)
    ensures PoolOk(files[f := files[f].(numPages := n)], low', frames)
  {
    var files' := files[f := files[f].(numPages := n)];
    var before := files[f].numPages;
    assert forall g: nat, j: nat :: Live(files', g, j) <==> Live(files, g, j) || (g == f && before <= j < n);
    forall g: nat, j: nat | Live(files', g, j)
      ensures 0 < files'[g].pages[j] < frames && files'[g].pages[j] !in low'
    {
      assert Live(files, g, j) || (g == f && before <= j < n);
    }
  }

  /** Entries `a` to `b` hold distinct frames taken out of `low`. */
  predicate FreshPages(pages: seq<nat>, a: nat, b: nat, low: set<nat>, low': set<nat>, frames: nat) {
    && |pages| == FILE_PAGES && a <= b <= FILE_PAGES
    && (forall i :: a <= i < b ==> pages[i] in low && pages[i] !in low' && 0 < pages[i] < frames)
    && (forall i, j :: a <= i < j < b ==> pages[i] != pages[j])
  }

  /** Taking frames out of the free set keeps the pool in order. */
  lemma LowShrinks(files: seq<FileData>, low: set<nat>, low': set<nat>, frames: nat)
    requires PoolOk(files, low, frames) && low' <= low
    ensures PoolOk(files, low', frames)
  {
  }

  lemma NewFile(files: seq<FileData>, low: set<nat>, frames: nat)
    requires PoolOk(files, low, frames) && |files| < MAX_FILES
    ensures PoolOk(files + [EmptyFile()], low, frames)
  {
    var files' := files + [EmptyFile()];
    assert forall g: nat, j: nat :: Live(files', g, j) <==> Live(files, g, j);
  }

  function EmptyFile(): FileData {
    FileData(seq(FILE_PAGES, _ => 0), 0)
  }

  function Store(mem: seq<Page>, frame: nat, at: nat, data: seq<byte>): (mem': seq<Page>)
    requires frame < |mem| && at + |data| <= PAGE
    ensures |mem'| == |mem|
  {
    mem[frame := mem[frame][..at] + data + mem[frame][at + |data|..]]
  }

  /** The pages of the file hold the bytes of `mem0` with `done` laid over them;
      no other frame has changed. */
  ghost predicate Overlaid(mem0: seq<Page>, mem: seq<Page>, d: FileData, offset: nat, done: seq<byte>) {
    && Mapped(mem0, d) && |mem| == |mem0|
    && (forall i: nat | i < d.Capacity() ::
          ByteAt(mem, d, i) == if offset <= i < offset + |done| then done[i - offset] else ByteAt(mem0, d, i))
    && (forall p | 0 <= p < |mem| && p !in d.pages[..d.numPages] :: mem[p] == mem0[p])
  }

  lemma ChunkStored(mem0: seq<Page>, mem: seq<Page>, d: FileData, offset: nat, done: seq<byte>, more: seq<byte>)
    requires Overlaid(mem0, mem, d, offset, done)
    requires forall i, j :: 0 <= i < j < d.numPages ==> d.pages[i] != d.pages[j]
    requires var pos := offset + |done|; pos < d.Capacity() && pos % PAGE + |more| <= PAGE
    ensures var pos := offset + |done|;
            Overlaid(mem0, Store(mem, d.pages[pos / PAGE], pos % PAGE, more), d, offset, done + more)
  {
    var pos := offset + |done|;
    var q, at := pos / PAGE, pos % PAGE;
    var mem' := Store(mem, d.pages[q], at, more);
    assert d.pages[q] in d.pages[..d.numPages];
    forall i: nat | i < d.Capacity()
      ensures ByteAt(mem', d, i) == if pos <= i < pos + |more| then more[i - pos] else ByteAt(mem, d, i)
    {
      if i / PAGE == q {
        assert i - pos == i % PAGE - at;
      } else {
        assert d.pages[i / PAGE] != d.pages[q];
      }
    }
  }

  lemma NothingLaid(mem: seq<Page>, d: FileData, offset: nat)
    requires d.Good() && forall i :: 0 <= i < d.numPages ==> d.pages[i] < |mem|
    ensures Overlaid(mem, mem, d, offset, []) && Mapped(mem, d)
  {
  }

  // ---------------------------------------------------------------------------
  // The pool and its operations
  // ---------------------------------------------------------------------------

  /** Files other than `f` are as they were, page contents included. */
  ghost predicate OthersSame(mem: seq<Page>, files: seq<FileData>, mem': seq<Page>, files': seq<FileData>, f: nat) {
    && |files| <= |files'| && |mem'| == |mem|
    && (forall g :: 0 <= g < |files| && g != f ==> files'[g] == files[g])
    && (forall g: nat, i: nat | Live(files, g, i) && g != f && files[g].pages[i] < |mem| ::
          mem'[files[g].pages[i]] == mem[files[g].pages[i]])
  }

  /** `d` has the live pages of `d0`, and perhaps more. */
  predicate Extends(d0: FileData, d: FileData) {
    && d0.Good() && d.Good() && d0.numPages <= d.numPages
    && d.pages[..d0.numPages] == d0.pages[..d0.numPages]
  }

  lemma ContentExtends(mem: seq<Page>, d0: FileData, d: FileData)
    requires Mapped(mem, d0) && Mapped(mem, d) && Extends(d0, d)
    ensures d0.Capacity() <= d.Capacity()
    ensures forall i: nat | i < d0.Capacity() :: ByteAt(mem, d, i) == ByteAt(mem, d0, i)
    ensures forall size: nat :: d.numPages == d0.numPages ==> Visible(mem, d, size) == Visible(mem, d0, size)
  {
    forall i: nat | i < d0.Capacity()
      ensures ByteAt(mem, d, i) == ByteAt(mem, d0, i)
    {
      assert d.pages[..d0.numPages][i / PAGE] == d0.pages[..d0.numPages][i / PAGE];
    }
  }

  /** The new visible bytes over the old ones, whose file had fewer pages. */
  lemma OverlaidContent(mem0: seq<Page>, mem: seq<Page>, d0: FileData, d: FileData, offset: nat, data: seq<byte>, size: nat)
    requires Mapped(mem0, d0) && Extends(d0, d) && Overlaid(mem0, mem, d, offset, data) && offset + |data| <= d.Capacity()
    ensures Mapped(mem, d)
    ensures LaidOver(Visible(mem0, d0, size), offset, data, Visible(mem, d, Max(size, offset + |data|)))
  {
    ContentExtends(mem0, d0, d);
    hide ByteAt;
    var b, b' := Visible(mem0, d0, size), Visible(mem, d, Max(size, offset + |data|));
    forall i | 0 <= i < |data|
      ensures b'[offset + i] == data[i]
    {
      assert b'[offset + i] == ByteAt(mem, d, offset + i);
    }
  }

  lemma OverlaidOthers(mem0: seq<Page>, mem: seq<Page>, files: seq<FileData>, low: set<nat>, f: nat,
                       offset: nat, data: seq<byte>)
    requires PoolOk(files, low, |mem0|) && f < |files| && Overlaid(mem0, mem, files[f], offset, data)
    ensures OthersSame(mem0, files, mem, files, f)
  {
    forall g: nat, i: nat | Live(files, g, i) && g != f && files[g].pages[i] < |mem0|
      ensures mem[files[g].pages[i]] == mem0[files[g].pages[i]]
    {
      forall j: nat | j < files[f].numPages
        ensures files[f].pages[j] != files[g].pages[i]
      {
        assert Live(files, f, j);
      }
    }
  }

  /** The allocation loop has filled the entries up to `i`. */
  ghost predicate Growing(files0: seq<FileData>, low0: set<nat>, files: seq<FileData>, low: set<nat>, frames: nat,
                          f: nat, i: nat)
  {
    && |files| == |files0| && f < |files| && PoolOk(files, low0, frames) && low <= low0
    && Extends(files0[f], files[f]) && files[f].numPages == files0[f].numPages <= i
    && (forall g :: 0 <= g < |files| && g != f ==> files[g] == files0[g])
    && FreshPages(files[f].pages, files[f].numPages, i, low0, low, frames)
    && |low| == |low0| - (i - files[f].numPages)
  }

  /** A frame that is neither free nor the page of any file. */
  ghost predicate Unowned(files: seq<FileData>, low: set<nat>, frame: nat) {
    frame !in low && forall f: nat, i: nat | Live(files, f, i) :: files[f].pages[i] != frame
  }

  /** Growing takes pages from the free frames only, so a frame nobody owns stays
      so; what an unfinished run of allocations has taken belongs to nobody. */
  lemma GrowOwns(files0: seq<FileData>, low0: set<nat>, files: seq<FileData>, low: set<nat>, frames: nat,
                 f: nat, n: nat, i: nat)
    requires Growing(files0, low0, files, low, frames, f, i) && PoolOk(files0, low0, frames)
    requires n == files[f].numPages || n == i
    ensures var files' := files[f := files[f].(numPages := n)];
            && (forall p :: Unowned(files0, low0, p) ==> Unowned(files', low, p))
            && (n == files[f].numPages ==> forall p :: p in low0 && p !in low ==> Unowned(files', low, p))
  {
    var files' := files[f := files[f].(numPages := n)];
    forall g: nat, j: nat | Live(files', g, j)
      ensures (Live(files0, g, j) && files'[g].pages[j] == files0[g].pages[j])
              || (n == i && files'[g].pages[j] in low0)
    {
      if g == f && j < files0[f].numPages {
        assert files[f].pages[..files0[f].numPages][j] == files0[f].pages[..files0[f].numPages][j];
      }
    }
  }

  /** A file that counts no pages any more owns none, neither those it had nor any
      it has just taken. */
  lemma PagesDropped(files0: seq<FileData>, low0: set<nat>, files: seq<FileData>, low: set<nat>, frames: nat, f: nat)
    requires PoolOk(files0, low0, frames) && PoolOk(files, low, frames) && f < |files| == |files0| && low <= low0
    requires forall g :: 0 <= g < |files| && g != f ==> files[g] == files0[g]
    ensures var files' := files[f := files[f].(numPages := 0)];
            && PoolOk(files', low, frames) && files0[f].Good()
            && (forall i :: 0 <= i < files0[f].numPages ==> Unowned(files', low, files0[f].pages[i]))
            && (forall p :: p in low0 && p !in low ==> Unowned(files', low, p))
            && (forall p :: Unowned(files0, low0, p) ==> Unowned(files', low, p))
  {
    var files' := files[f := files[f].(numPages := 0)];
    assert forall g: nat, j: nat :: Live(files', g, j) <==> Live(files0, g, j) && g != f;
    assert forall g: nat, j: nat :: Live(files', g, j) <==> Live(files, g, j) && g != f;
    forall i: nat | i < files0[f].numPages
      ensures Unowned(files', low, files0[f].pages[i])
    {
      assert Live(files0, f, i);
    }
  }

  lemma GrowMeans(files0: seq<FileData>, low0: set<nat>, files: seq<FileData>, low: set<nat>, frames: nat, f: nat, i: nat)
    requires Growing(files0, low0, files, low, frames, f, i)
    ensures |files| == |files0| && f < |files| && PoolOk(files, low0, frames) && low <= low0
    ensures Extends(files0[f], files[f]) && files[f].numPages == files0[f].numPages && |files[f].pages| == FILE_PAGES
    ensures forall g :: 0 <= g < |files| && g != f ==> files[g] == files0[g]
    ensures |low| == |low0| - (i - files[f].numPages)
  {
  }

  lemma GrowStart(files: seq<FileData>, low: set<nat>, frames: nat, f: nat)
    requires PoolOk(files, low, frames) && f < |files|
    ensures Growing(files, low, files, low, frames, f, files[f].numPages) && files[f].Good()
  {
  }

  lemma GrowStep(files0: seq<FileData>, low0: set<nat>, files: seq<FileData>, low: set<nat>, frames: nat,
                 f: nat, i: nat, frame: nat)
    requires Growing(files0, low0, files, low, frames, f, i)
    requires frame in low && i < FILE_PAGES && 0 < frame < frames && PoolOk(files, low - {frame}, frames)
    ensures var files' := files[f := files[f].(pages := files[f].pages[i := frame])];
            Growing(files0, low0, files', low - {frame}, frames, f, i + 1) && PoolOk(files', low - {frame}, frames)
  {
    var files' := files[f := files[f].(pages := files[f].pages[i := frame])];
    PageAdded(files, low0, frames, f, i, frame);
    PageAdded(files, low - {frame}, frames, f, i, frame);
    hide PoolOk;
    assert files'[f].pages[..files[f].numPages] == files[f].pages[..files[f].numPages];
    assert |low - {frame}| == |low| - 1;
  }

  lemma GrowEnd(files0: seq<FileData>, low0: set<nat>, files: seq<FileData>, low: set<nat>, frames: nat, f: nat, n: nat)
    requires Growing(files0, low0, files, low, frames, f, n) && files[f].numPages <= n <= FILE_PAGES
    ensures var files' := files[f := files[f].(numPages := n)];
            PoolOk(files', low, frames) && Extends(files0[f], files'[f])
  {
    PagesCounted(files, low0, low, frames, f, n);
  }

  /** The pages of a node's data; none before its first write. */
  function PagesOf(files: seq<FileData>, file: Option<nat>): nat
    requires file.Some? ==> file.value < |files|
  {
    if file.None? then 0 else files[file.value].numPages
  }

  /** The last page a write that ends at `end` asks for.  For an empty write at
      offset 0 its number wraps around, and the loop stops at the last page a file
      can have. */
  function LastWanted(end: nat): nat { if end == 0 then FILE_PAGES - 1 else (end - 1) / PAGE }

  lemma LastWantedIs(end: nat)
    ensures if end == 0 then LastWanted(end) == 127
            else LastWanted(end) * 4096 < end <= (LastWanted(end) + 1) * 4096
  {
  }

  /** The page count after a write that ends at `end`: that number plus one, which
      wraps around to 0, if it is not below the count. */
  function PagesAfter(n: nat, end: nat): nat { if end == 0 then 0 else Max(n, LastWanted(end) + 1) }

  /** There is file data and there are frames for a write that ends at `end`. */
  predicate Fits(files: seq<FileData>, low: set<nat>, file: Option<nat>, end: nat)
    requires file.Some? ==> file.value < |files|
  {
    (file.Some? || |files| < 64) && Missing(PagesOf(files, file), LastWanted(end)) <= |low|
  }

  /** Pages up to `last` that a file of `n` pages lacks. */
  function Missing(n: nat, last: nat): nat { if last + 1 > n then last + 1 - n else 0 }

  class FileStore {
    const pfa: FrameAllocator.Allocator
    var mem: seq<Page>
    /** file_data_pool up to file_data_count. */
    var files: seq<FileData>

    ghost predicate Valid()
      reads this, pfa, pfa.lowBitmap, pfa.bitmap
    {
      && pfa.Valid() && 0 !in pfa.state.low && (forall p :: p in pfa.state.low ==> p < |mem|)
      && PoolOk(files, pfa.state.low, |mem|)
    }

    constructor (pfa: FrameAllocator.Allocator, mem: seq<Page>)
      requires pfa.Valid() && 0 !in pfa.state.low && forall p :: p in pfa.state.low ==> p < |mem|
      ensures Valid() && this.pfa == pfa && this.mem == mem && files == []
    {
      this.pfa, this.mem, files := pfa, mem, [];
    }

    /** pfa_alloc_low: a frame number, 0 for failure. */
    method TakePage() returns (frame: nat)
      requires Valid()
      modifies pfa, pfa.lowBitmap
      ensures Valid()
      ensures frame == 0 <==> old(pfa.state.low) == {}
      ensures frame == 0 ==> pfa.state.low == old(pfa.state.low)
      ensures frame != 0 ==> frame in old(pfa.state.low) && frame < |mem| && pfa.state.low == old(pfa.state.low) - {frame}
    {
      ghost var s := pfa.state;
      if s.low != {} {
        FrameAllocator.AllocLowTakes(s);
      }
      var phys := pfa.AllocLow();
      frame := phys / FrameAllocator.PAGE_SIZE;
      LowShrinks(files, s.low, pfa.state.low, |mem|);
    }

    /** One turn of the allocation loop. */
    method AddPage(f: nat, i: nat, ghost files0: seq<FileData>, ghost low0: set<nat>) returns (ok: bool)
      requires Valid() && i < FILE_PAGES && Growing(files0, low0, files, pfa.state.low, |mem|, f, i)
      modifies this`files, pfa, pfa.lowBitmap
      ensures Valid()
      ensures ok ==> Growing(files0, low0, files, pfa.state.low, |mem|, f, i + 1)
      ensures !ok ==> Growing(files0, low0, files, pfa.state.low, |mem|, f, i) && pfa.state.low == {}
    {
      hide PoolOk, FrameAllocator.Allocator.Valid, FreshPages, Extends;
      GrowMeans(files0, low0, files, pfa.state.low, |mem|, f, i);
      ghost var low := pfa.state.low;
      var frame := TakePage();
      if frame == 0 {
        return false;
      }
      GrowStep(files0, low0, files, low, |mem|, f, i, frame);
      files := files[f := files[f].(pages := files[f].pages[i := frame])];
      ok := true;
    }

    /** The allocation loop of ramfs_write.  A failed allocation leaves pointers
        behind the page count: the next write takes new frames for those pages
        and the old ones are lost. */
    method AddPages(f: nat, last: nat) returns (ok: bool, ghost i: nat)
      requires Valid() && f < |files| && last < FILE_PAGES
      modifies this`files, pfa, pfa.lowBitmap
      ensures Valid() && Growing(old(files), old(pfa.state.low), files, pfa.state.low, |mem|, f, i)
      ensures ok ==> i == Max(old(files[f].numPages), last + 1)
      ensures !ok ==> i <= last && pfa.state.low == {}
    {
      hide PoolOk, FrameAllocator.Allocator.Valid, FileData.Good, FreshPages;
      GrowStart(files, pfa.state.low, |mem|, f);
      ghost var np := files[f].numPages;
      var n: nat := files[f].numPages;
      hide Growing, Valid;
      while n <= last
        invariant np <= n <= Max(np, last + 1) && Valid()
        invariant Growing(old(files), old(pfa.state.low), files, pfa.state.low, |mem|, f, n)
        decreases last + 1 - n
      {
        ok := AddPage(f, n, old(files), old(pfa.state.low));
        if !ok {
          return false, n;
        }
        n := n + 1;
      }
      ok, i := true, n;
    }

    /** The allocation loop and the page count after it. */
    method Grow(f: nat, last: nat) returns (ok: bool)
      requires Valid() && f < |files| && last < FILE_PAGES
      modifies this`files, pfa, pfa.lowBitmap
      ensures Valid() && |files| == |old(files)| && Extends(old(files[f]), files[f]) && pfa.state.low <= old(pfa.state.low)
      ensures forall g :: 0 <= g < |files| && g != f ==> files[g] == old(files[g])
      ensures ok <==> Missing(old(files[f].numPages), last) <= |old(pfa.state.low)|
      ensures ok ==> files[f].numPages == Max(old(files[f].numPages), last + 1)
      ensures ok ==> |pfa.state.low| == |old(pfa.state.low)| - Missing(old(files[f].numPages), last)
      ensures !ok ==> files[f].numPages == old(files[f].numPages) && pfa.state.low == {}
      ensures !ok ==> forall p :: p in old(pfa.state.low) ==> Unowned(files, pfa.state.low, p)
      ensures forall p :: old(Unowned(files, pfa.state.low, p)) ==> Unowned(files, pfa.state.low, p)
    {
      hide PoolOk, FrameAllocator.Allocator.Valid, Extends, FreshPages, Unowned;
      ghost var files0, low0, i := files, pfa.state.low, 0;
      ok, i := AddPages(f, last);
      GrowMeans(files0, low0, files, pfa.state.low, |mem|, f, i);
      GrowOwns(files0, low0, files, pfa.state.low, |mem|, f, files[f].numPages, i);
      GrowOwns(files0, low0, files, pfa.state.low, |mem|, f, i, i);
      assert files[f := files[f].(numPages := files[f].numPages)] == files;
      if ok && last >= files[f].numPages {
        GrowEnd(files0, low0, files, pfa.state.low, |mem|, f, last + 1);
        files := files[f := files[f].(numPages := last + 1)];
      }
    }

    /** A node's data pointer and size fit the pool. */
    ghost predicate NodeOk(file: Option<nat>, size: nat)
      reads this
    {
      if file.None? then size == 0 else file.value < |files| && Mapped(mem, files[file.value])
    }

    /** The bytes a reader of a node gets. */
    ghost function BytesOf(file: Option<nat>, size: nat): (b: seq<byte>)
      requires NodeOk(file, size)
      reads this
      ensures |b| == Min(size, PagesOf(files, file) * PAGE)
    {
      if file.None? then [] else Visible(mem, files[file.value], size)
    }

    /** The copy loop of ramfs_write. */
    method CopyIn(f: nat, offset: nat, data: seq<byte>)
      requires Valid() && f < |files| && offset + |data| <= files[f].Capacity()
      modifies this`mem
      ensures Valid() && Overlaid(old(mem), mem, files[f], offset, data)
      ensures OthersSame(old(mem), files, mem, files, f)
    {
      hide FrameAllocator.Allocator.Valid, PoolOk, Overlaid, OthersSame;
      PoolFacts(files, pfa.state.low, |mem|, f);
      NothingLaid(mem, files[f], offset);
      ghost var mem0, d := mem, files[f];
      var written: nat := 0;
      while written < |data|
        invariant written <= |data| && Overlaid(mem0, mem, d, offset, data[..written])
        decreases |data| - written
      {
        var pos: nat := offset + written;
        var n := Min(PAGE - pos % PAGE, |data| - written);
        var more := data[written..written + n];
        ChunkStored(mem0, mem, d, offset, data[..written], more);
        mem := Store(mem, files[f].pages[pos / PAGE], pos % PAGE, more);
        assert data[..written] + more == data[..written + n];
        written := written + n;
      }
      assert data[..written] == data;
      OverlaidOthers(mem0, mem, files, pfa.state.low, f, offset, data);
    }

    /** ramfs_read on a file node. */
    method Read(file: Option<nat>, size: nat, offset: nat, n: nat) returns (buf: seq<byte>)
      requires Valid() && NodeOk(file, size)
      ensures buf == Slice(BytesOf(file, size), offset, n)
    {
      hide Content, FrameAllocator.Allocator.Valid, PoolOk, Mapped;
      buf := [];
      ghost var bytes := BytesOf(file, size);
      if file.None? || offset >= size {
        return;
      }
      var d := files[file.value];
      var left: nat := if offset + n > size then size - offset else n;
      ghost var wanted := left;
      var pos := offset;
      while left > 0 && pos < size
        invariant pos + left == offset + wanted && offset <= pos <= Max(offset, d.Capacity())
        invariant buf == if pos == offset then [] else bytes[offset..pos]
        decreases left
      {
        PageOf(pos, d.numPages);
        if pos / PAGE >= d.numPages {
          break;
        }
        var k := Min(PAGE - pos % PAGE, left);
        PageSlice(mem, d, Min(size, d.Capacity()), offset, pos, k);
        buf := buf + mem[d.pages[pos / PAGE]][pos % PAGE..pos % PAGE + k];
        left, pos := left - k, pos + k;
      }
    }

    /** The file of a node, taken from the pool on the first write. */
    method Claim(file: Option<nat>, size: nat) returns (file': Option<nat>)
      requires Valid() && NodeOk(file, size)
      modifies this`files
      ensures Valid() && (file.Some? ==> file' == file && files == old(files))
      ensures file.None? && |old(files)| == MAX_FILES ==> file' == None && files == old(files)
      ensures file.None? && |old(files)| < MAX_FILES ==>
                file' == Some(|old(files)|) && files == old(files) + [EmptyFile()]
    {
      file' := file;
      if file.None? && |files| < MAX_FILES {
        NewFile(files, pfa.state.low, |mem|);
        file' := Some(|files|);
        files := files + [EmptyFile()];
      }
    }

    /** ramfs_write from the page allocation on. */
    method WriteTo(f: nat, ghost size: nat, offset: nat, data: seq<byte>) returns (r: int)
      requires Valid() && f < |files| && 1 <= offset + |data| <= FILE_PAGES * PAGE
      modifies this, pfa, pfa.lowBitmap
      ensures Valid() && |files| == |old(files)| && Mapped(mem, files[f]) && (r == -1 || r == |data|)
      ensures Mapped(old(mem), old(files)[f])
      ensures r == -1 <==> Missing(old(files[f].numPages), (offset + |data| - 1) / PAGE) > |old(pfa.state.low)|
      ensures r == -1 ==> pfa.state.low == {} && files[f].numPages == old(files[f].numPages)
      ensures r == -1 ==> Visible(mem, files[f], size) == old(Visible(mem, files[f], size))
      ensures r == -1 ==> forall p :: p in old(pfa.state.low) ==> Unowned(files, pfa.state.low, p)
      ensures forall p :: old(Unowned(files, pfa.state.low, p)) ==> Unowned(files, pfa.state.low, p)
      ensures r != -1 ==>
                var last := (offset + |data| - 1) / PAGE;
                && files[f].numPages == Max(old(files[f].numPages), last + 1)
                && |pfa.state.low| == |old(pfa.state.low)| - Missing(old(files[f].numPages), last)
      ensures r != -1 ==>
                LaidOver(old(Visible(mem, files[f], size)), offset, data, Visible(mem, files[f], Max(size, offset + |data|)))
      ensures OthersSame(old(mem), old(files), mem, files, f)
    {
      PoolMapped(files, pfa.state.low, mem, f);
      hide FrameAllocator.Allocator.Valid, PoolOk, Visible, LaidOver, Overlaid, OthersSame, Unowned, Missing, Mapped;
      ghost var mem0, files0 := mem, files;
      LastPage(offset + |data|);
      var ok := Grow(f, (offset + |data| - 1) / PAGE);
      PoolMapped(files, pfa.state.low, mem, f);
      ContentExtends(mem, files0[f], files[f]);
      GrowOthers(mem, files0, files, f);
      if !ok {
        return -1;
      }
      ghost var files1 := files;
      CopyIn(f, offset, data);
      OthersChain(mem0, files0, files1, mem, f);
      r := |data|;
      OverlaidContent(mem0, mem, files0[f], files[f], offset, data, size);
    }

    /** ramfs_write of nothing at offset 0: the number of the last page wraps
        around, so the file takes every page it can have and then counts none.
        Every frame it had and every frame it takes is lost, and a reader gets
        nothing any more. */
    method WriteNothing(f: nat) returns (r: int)
      requires Valid() && f < |files|
      modifies this`files, pfa, pfa.lowBitmap
      ensures Valid() && |files| == |old(files)| && (r == -1 || r == 0)
      ensures r == -1 <==> Missing(old(files[f].numPages), FILE_PAGES - 1) > |old(pfa.state.low)|
      ensures r == -1 ==> pfa.state.low == {} && files[f].numPages == old(files[f].numPages)
      ensures Mapped(mem, old(files)[f]) && Mapped(mem, files[f])
      ensures r == -1 ==> forall size: nat :: Visible(mem, files[f], size) == Visible(mem, old(files)[f], size)
      ensures r == 0 ==> files[f].numPages == 0 && forall size: nat :: Visible(mem, files[f], size) == []
      ensures r == 0 ==> |pfa.state.low| == |old(pfa.state.low)| - Missing(old(files[f].numPages), FILE_PAGES - 1)
      ensures r == 0 ==> forall i :: 0 <= i < old(files[f].numPages) ==>
                                       i < |old(files[f].pages)| && Unowned(files, pfa.state.low, old(files[f].pages[i]))
      ensures forall p :: p in old(pfa.state.low) && p !in pfa.state.low ==> Unowned(files, pfa.state.low, p)
      ensures forall p :: old(Unowned(files, pfa.state.low, p)) ==> Unowned(files, pfa.state.low, p)
      ensures forall g :: 0 <= g < |files| && g != f ==> files[g] == old(files[g])
    {
      PoolMapped(files, pfa.state.low, mem, f);
      hide FrameAllocator.Allocator.Valid, PoolOk, Unowned, Missing, Mapped, Content;
      ghost var files0, low0 := files, pfa.state.low;
      var ok := Grow(f, FILE_PAGES - 1);
      PoolMapped(files, pfa.state.low, mem, f);
      ContentExtends(mem, files0[f], files[f]);
      if !ok {
        return -1;
      }
      PagesDropped(files0, low0, files, pfa.state.low, |mem|, f);
      files := files[f := files[f].(numPages := 0)];
      PoolMapped(files, pfa.state.low, mem, f);
      r := 0;
    }

    /** ramfs_write on a file node. */
    method Write(file: Option<nat>, size: nat, offset: nat, data: seq<byte>)
      returns (r: int, file': Option<nat>, size': nat)
      requires Valid() && NodeOk(file, size) && offset + |data| <= FILE_PAGES * PAGE
      modifies this, pfa, pfa.lowBitmap
      ensures Valid() && NodeOk(file', size') && (r == -1 || r == |data|)
      ensures file.Some? ==> file' == file
      ensures file.None? && file'.Some? ==> file'.value == |old(files)|
      ensures r != -1 <==> old(Fits(files, pfa.state.low, file, offset + |data|))
      ensures r == -1 && file'.Some? ==> pfa.state.low == {}
      ensures r == -1 || offset + |data| == 0 ==>
                forall p :: p in old(pfa.state.low) && p !in pfa.state.low ==> Unowned(files, pfa.state.low, p)
      ensures forall p :: old(Unowned(files, pfa.state.low, p)) ==> Unowned(files, pfa.state.low, p)
      ensures r != -1 ==>
                var n, end := old(PagesOf(files, file)), offset + |data|;
                && file'.Some? && PagesOf(files, file') == PagesAfter(n, end)
                && |pfa.state.low| == |old(pfa.state.low)| - Missing(n, LastWanted(end))
      ensures size' == if r == -1 then size else Max(size, offset + |data|)
      ensures r == -1 ==> BytesOf(file', size') == old(BytesOf(file, size))
      ensures r != -1 && offset + |data| > 0 ==> LaidOver(old(BytesOf(file, size)), offset, data, BytesOf(file', size'))
      ensures r != -1 && offset + |data| == 0 ==> BytesOf(file', size') == []
      ensures OthersSame(old(mem), old(files), mem, files, if file'.Some? then file'.value else |old(files)|)
    {
      hide FrameAllocator.Allocator.Valid, PoolOk, Mapped, Visible, LaidOver, Unowned, OthersSame, Missing;
      ghost var files0 := files;
      PoolBound(files, pfa.state.low, |mem|);
      file' := Claim(file, size);
      r, size' := -1, size;
      if file'.None? {
        SelfSame(mem, files);
        return;
      }
      var f := file'.value;
      ClaimKeeps(mem, files0, files, file, f, size, pfa.state.low);
      if offset + |data| == 0 {
        ghost var files1 := files;
        r := WriteNothing(f);
        GrowOthers(mem, files1, files, f);
        OthersClaimed(mem, files0, files1, mem, files, f);
      } else {
        ghost var mem1, files1 := mem, files;
        r := WriteTo(f, size, offset, data);
        OthersClaimed(mem1, files0, files1, mem, files, f);
      }
      if r != -1 && offset + |data| > size {
        size' := offset + |data|;
      }
    }
  }

  lemma GrowOthers(mem: seq<Page>, files: seq<FileData>, files': seq<FileData>, f: nat)
    requires |files'| == |files| && forall g :: 0 <= g < |files| && g != f ==> files'[g] == files[g]
    ensures OthersSame(mem, files, mem, files', f)
  {
  }

  lemma OthersChain(mem: seq<Page>, files: seq<FileData>, files': seq<FileData>, mem': seq<Page>, f: nat)
    requires OthersSame(mem, files, mem, files', f) && OthersSame(mem, files', mem', files', f)
    ensures OthersSame(mem, files, mem', files', f)
  {
    assert forall g: nat, i: nat :: Live(files, g, i) && g != f ==> Live(files', g, i);
  }

  lemma SelfSame(mem: seq<Page>, files: seq<FileData>)
    ensures OthersSame(mem, files, mem, files, |files|)
  {
  }

  /** The file written is an old one or the one just claimed. */
  lemma OthersClaimed(mem: seq<Page>, files0: seq<FileData>, files: seq<FileData>, mem': seq<Page>, files': seq<FileData>,
                      f: nat)
    requires files == files0 || (files == files0 + [EmptyFile()] && f == |files0|)
    requires OthersSame(mem, files, mem', files', f)
    ensures OthersSame(mem, files0, mem', files', f)
  {
    assert forall g: nat, i: nat :: Live(files0, g, i) && g != f ==> Live(files, g, i);
  }

  lemma ClaimKeeps(mem: seq<Page>, files0: seq<FileData>, files: seq<FileData>, file: Option<nat>, f: nat, size: nat,
                   low: set<nat>)
    requires if file.Some? then files == files0 && f == file.value < |files|
             else files == files0 + [EmptyFile()] && f == |files0| && size == 0
    requires PoolOk(files, low, |mem|)
    requires file.Some? ==> Mapped(mem, files[f])
    ensures f < |files| && Mapped(mem, files[f])
    ensures files[f].numPages == if file.None? then 0 else files0[file.value].numPages
    ensures Visible(mem, files[f], size) == if file.None? then [] else Visible(mem, files0[file.value], size)
    ensures forall g :: 0 <= g < |files0| ==> files[g] == files0[g]
    ensures forall p :: Unowned(files0, low, p) <==> Unowned(files, low, p)
  {
    assert forall g: nat, i: nat :: Live(files0, g, i) <==> Live(files, g, i);
  }

  /** A file that is not written keeps its bytes. */
  lemma OtherBytes(mem: seq<Page>, files: seq<FileData>, mem': seq<Page>, files': seq<FileData>, f: nat, g: nat, size: nat)
    requires OthersSame(mem, files, mem', files', f) && g < |files| && g != f
    requires Mapped(mem, files[g])
    ensures Mapped(mem', files'[g]) && Visible(mem', files'[g], size) == Visible(mem, files[g], size)
  {
    forall i: nat | i < files[g].Capacity()
      ensures ByteAt(mem', files'[g], i) == ByteAt(mem, files[g], i)
    {
      assert Live(files, g, i / PAGE);
    }
  }

  lemma PageSlice(mem: seq<Page>, d: FileData, size: nat, from: nat, pos: nat, n: nat)
    requires Mapped(mem, d) && from <= pos && pos + n <= size <= d.Capacity() && pos % PAGE + n <= PAGE && n > 0
    ensures pos / PAGE < |d.pages| && d.pages[pos / PAGE] < |mem|
    ensures var bytes := Content(mem, d, size);
            bytes[from..pos] + mem[d.pages[pos / PAGE]][pos % PAGE..pos % PAGE + n] == bytes[from..pos + n]
  {
    var page, at, bytes := mem[d.pages[pos / PAGE]], pos % PAGE, Content(mem, d, size);
    forall i | at <= i < at + n
      ensures page[i] == bytes[pos - at + i]
    {
      InPage(pos, i);
    }
    assert page[at..at + n] == bytes[pos..pos + n];
    hide Content, Mapped;
  }

  lemma InPage(pos: nat, i: nat)
    requires i < PAGE
    ensures pos % PAGE <= pos && (pos - pos % PAGE + i) / PAGE == pos / PAGE && (pos - pos % PAGE + i) % PAGE == i
  {
  }

  lemma PageOf(pos: nat, pages: nat)
    ensures pos / PAGE < pages <==> pos < pages * PAGE
    ensures pos / PAGE < pages ==> pos + (PAGE - pos % PAGE) <= pages * PAGE
  {
  }

  lemma LastPage(n: nat)
    requires n >= 1
    ensures n <= ((n - 1) / PAGE + 1) * PAGE
  {
  }

  lemma PoolBound(files: seq<FileData>, low: set<nat>, frames: nat)
    requires PoolOk(files, low, frames)
    ensures |files| <= MAX_FILES
  {
  }

  lemma PoolMapped(files: seq<FileData>, low: set<nat>, mem: seq<Page>, f: nat)
    requires PoolOk(files, low, |mem|) && f < |files|
    ensures files[f].Good() && Mapped(mem, files[f])
  {
    PoolFacts(files, low, |mem|, f);
    hide PoolOk;
  }

  lemma PoolFacts(files: seq<FileData>, low: set<nat>, frames: nat, f: nat)
    requires PoolOk(files, low, frames) && f < |files|
    ensures files[f].Good()
    ensures forall i :: 0 <= i < files[f].numPages ==> 0 < files[f].pages[i] < frames
    ensures forall i, j :: 0 <= i < j < files[f].numPages ==> files[f].pages[i] != files[f].pages[j]
  {
    assert forall i: nat :: i < files[f].numPages ==> Live(files, f, i);
  }
}
