/** mmio_remap (mm.c): a bump allocator of uncached windows in kernel space. */
module MmioRegion {
  import opened Basics
  import opened PageTables
  import opened AddressSpace

  const MMIO_BASE: nat := 0xFFFF_FFFF_8000_0000
  /** The kernel image starts 2 MB above the region. */
  const MMIO_PAGES: nat := 512
  const MMIO_END: nat := MMIO_BASE + MMIO_PAGES * 4096
  const WINDOW_CAP: nat := 64
  /** Physical addresses have 52 bits. */
  const PHYS_LIMIT: nat := 0x10_0000_0000_0000

  const MMIO_FLAGS := Flags(PRESENT | RW | PCD | PWT, NO_EXEC)

  /** Pages one request gets: at least 1, at most 64. */
  function PagesNeeded(phys: nat, size: nat): (n: nat)
    ensures 1 <= n <= WINDOW_CAP
  {
    var n := (size + phys % 4096 + 4095) % WORD64 / 4096;
    if n == 0 then 1 else if n > WINDOW_CAP then WINDOW_CAP else n
  }

  /** A finished request: `pages` pages at `virt` showing physical memory from
      the page of `phys` on. */
  datatype Window = Window(virt: nat, phys: nat, pages: nat) {
    function End(): nat { virt + pages * 4096 }
  }

  /** PRESENT, RW, PWT, PCD and NO_EXEC. */
  function MmioWord(frame: FrameNo): Word { Word(frame, 0x01B, 0x800) }

  function PageAt(w: Window, i: nat): nat { w.virt + i * 4096 }

  /** Page `i` of the window is mapped uncached to page `i` of the device. */
  ghost predicate PageShown(ram: Ram, root: FrameNo, w: Window, i: nat) {
    && (w.phys / 4096 + i) * 4096 < PHYS_LIMIT
    && Translate(ram, root, PathOf(PageAt(w, i))) == Page(MmioWord(w.phys / 4096 + i))
  }

  ghost predicate Shown(ram: Ram, root: FrameNo, w: Window, n: nat) {
    forall i: nat | i < n :: PageShown(ram, root, w, i)
  }

  ghost predicate GoodWindow(ram: Ram, root: FrameNo, w: Window, next: nat) {
    && w.virt % 4096 == 0 && MMIO_BASE <= w.virt && w.End() <= next
    && Shown(ram, root, w, w.pages)
  }

  ghost predicate AllGood(ram: Ram, root: FrameNo, windows: seq<Window>, next: nat) {
    && (forall i | 0 <= i < |windows| :: GoodWindow(ram, root, windows[i], next))
    && (forall i, j | 0 <= i < j < |windows| :: windows[i].End() <= windows[j].virt)
  }

  /** No huge page in the region. */
  ghost predicate RegionPlain(ram: Ram, root: FrameNo) {
    forall va: nat | MMIO_BASE <= va < MMIO_END :: NoHugeOn(ram, root, PathOf(va))
  }

  /** Pages of the region have table indices of their own. */
  lemma RegionPages(a: nat, b: nat)
    requires MMIO_BASE <= a < MMIO_END && MMIO_BASE <= b < MMIO_END
    ensures PathOf(a) == PathOf(b) <==> a / 4096 == b / 4096
  {
    SamePath(a, b);
  }

  class Region {
    const machine: Machine
    var next: nat
    /** Windows handed out completely mapped. */
    ghost var windows: seq<Window>

    ghost predicate Valid()
      reads this, machine, machine.pfa, machine.pfa.lowBitmap, machine.pfa.bitmap
    {
      && machine.Valid() && RegionPlain(machine.ram, machine.cr3.frame)
      && next % 4096 == 0 && MMIO_BASE <= next <= MMIO_END
      && AllGood(machine.ram, machine.cr3.frame, windows, next)
    }

    constructor (machine: Machine)
      requires machine.Valid() && RegionPlain(machine.ram, machine.cr3.frame)
      ensures Valid() && this.machine == machine && next == 0xFFFF_FFFF_8000_0000 && windows == []
    {
      this.machine, next, windows := machine, MMIO_BASE, [];
    }

    /** Returns the pointer, and whether every page was mapped: the C function
        does not learn of a map_page that ran out of frames. */
    method Remap(phys: nat, size: nat) returns (va: nat, complete: bool)
      requires Valid()
      requires phys / 4096 * 4096 + PagesNeeded(phys, size) * 4096 <= 0x10_0000_0000_0000
      requires next + PagesNeeded(phys, size) * 4096 <= 0xFFFF_FFFF_8020_0000
      modifies this, machine`ram, machine.pfa, machine.pfa.lowBitmap
      ensures Valid()
      ensures va == old(next) + phys % 4096 && next == old(next) + PagesNeeded(phys, size) * 4096
      ensures windows == if complete then old(windows) + [Window(old(next), phys, PagesNeeded(phys, size))]
                         else old(windows)
      ensures |old(machine.pfa.state.low)| >= 3 * PagesNeeded(phys, size) ==> complete
    {
      hide Machine.Valid, RegionPlain, AllGood, Shown, PathOf, NoHugeOn, MapsPage, TablesMissing, UserAccess, MmioWord;
      var physBase, offset := phys / 4096 * 4096, phys % 4096;
      var pages := (size + offset + 4095) % WORD64 / 4096;
      if pages == 0 {
        pages := 1;
      }
      if pages > WINDOW_CAP {
        pages := WINDOW_CAP;
      }
      assert pages == PagesNeeded(phys, size);
      ghost var w := Window(next, phys, pages);
      complete := true;
      NothingShown(machine.ram, machine.cr3.frame, w);
      for i := 0 to pages
        invariant machine.Valid() && RegionPlain(machine.ram, machine.cr3.frame)
        invariant AllGood(machine.ram, machine.cr3.frame, windows, next)
        invariant next == old(next) && windows == old(windows)
        invariant complete ==> Shown(machine.ram, machine.cr3.frame, w, i)
        invariant |old(machine.pfa.state.low)| >= 3 * pages ==>
                    complete && |machine.pfa.state.low| >= |old(machine.pfa.state.low)| - 3 * i
      {
        ghost var ram, free := machine.ram, machine.Free();
        PlainAt(ram, machine.cr3.frame, next + i * 4096);
        FewTables(ram, machine.cr3.frame, PathOf(next + i * 4096));
        var frame: FrameNo := physBase / 4096 + i;
        var ok := machine.MapPage(Word(frame, 0, 0), next + i * 4096, MMIO_FLAGS);
        WordPresent(frame);
        MapKeepsWindows(ram, free, machine.ram, machine.Free(), machine.cr3.frame, windows, w, i, ok, complete);
        complete := complete && ok;
      }
      va := next + offset;
      next := next + pages * 4096;
      if complete {
        WindowAdded(machine.ram, machine.cr3.frame, windows, w, next);
        windows := windows + [w];
      } else {
        NextGrows(machine.ram, machine.cr3.frame, windows, old(next), next);
      }
    }
  }

  lemma NothingShown(ram: Ram, root: FrameNo, w: Window)
    ensures Shown(ram, root, w, 0)
  {
  }

  lemma PlainAt(ram: Ram, root: FrameNo, va: nat)
    requires RegionPlain(ram, root) && MMIO_BASE <= va < MMIO_END
    ensures NoHugeOn(ram, root, PathOf(va))
  {
  }

  lemma FewTables(ram: Ram, root: FrameNo, p: Path)
    requires IsPage(p)
    ensures TablesMissing(ram, root, p) <= 3
  {
    MissingBound(ram, root, p);
  }

  lemma MapKeepsWindows(ram: Ram, free: set<nat>, ram': Ram, free': set<nat>, root: FrameNo,
                        windows: seq<Window>, w: Window, i: nat, ok: bool, complete: bool)
    requires w.virt % 4096 == 0 && MMIO_BASE <= w.virt && PageAt(w, i) < MMIO_END
    requires (w.phys / 4096 + i) * 4096 < PHYS_LIMIT
    requires MapsPage(ram, free, ram', free', root, PathOf(PageAt(w, i)),
                      MmioWord(w.phys / 4096 + i), MMIO_FLAGS, ok)
    requires RegionPlain(ram, root) && AllGood(ram, root, windows, w.virt)
    requires complete ==> Shown(ram, root, w, i)
    ensures RegionPlain(ram', root) && AllGood(ram', root, windows, w.virt)
    ensures complete && ok ==> Shown(ram', root, w, i + 1)
  {
    hide PathOf, NoHugeOn, Tree, TablesOnlyGrow, UpperEntries, MmioWord;
    forall v, j: nat | v in windows && j < v.pages
      ensures PageShown(ram', root, v, j)
    {
      assert PageShown(ram, root, v, j);
      RegionPages(PageAt(v, j), PageAt(w, i));
    }
    if complete {
      forall j: nat | j < i
        ensures PageShown(ram', root, w, j)
      {
        assert PageShown(ram, root, w, j);
        RegionPages(PageAt(w, j), PageAt(w, i));
      }
    }
    WordPresent(w.phys / 4096 + i);
  }

  lemma WordPresent(frame: FrameNo)
    ensures Present(MmioWord(frame)) && MmioWord(frame).frame == frame
    ensures MmioWord(frame) == Word(frame, 0 | MMIO_FLAGS.low, 0 | MMIO_FLAGS.high)
  {
  }

  lemma WindowAdded(ram: Ram, root: FrameNo, windows: seq<Window>, w: Window, next: nat)
    requires AllGood(ram, root, windows, w.virt) && Shown(ram, root, w, w.pages)
    requires w.virt % 4096 == 0 && MMIO_BASE <= w.virt && next == w.End()
    ensures AllGood(ram, root, windows + [w], next)
  {
    hide Shown;
  }

  lemma NextGrows(ram: Ram, root: FrameNo, windows: seq<Window>, next: nat, next': nat)
    requires AllGood(ram, root, windows, next) && next <= next'
    ensures AllGood(ram, root, windows, next')
  {
    hide Shown;
  }

  /** Physical address a byte of the window stands for; the page is PRESENT, RW and
      uncached (PWT, PCD), for the kernel only and without code. */
  ghost predicate Reaches(ram: Ram, root: FrameNo, va: nat, pa: nat) {
    var t := Translate(ram, root, PathOf(va));
    t.Page? && t.entry.frame * 4096 + va % 4096 == pa && t.entry.low == 0x01B && t.entry.high == 0x800
  }

  /** Byte `k` of a request is byte `phys + k` of the device, for every byte the
      window holds; that is all of them exactly when the request needs at most
      64 pages. */
  lemma WindowBytes(ram: Ram, root: FrameNo, windows: seq<Window>, next: nat, i: nat, k: nat)
    requires AllGood(ram, root, windows, next) && next <= MMIO_END && i < |windows|
    requires windows[i].phys % 4096 + k < windows[i].pages * 4096
    ensures Reaches(ram, root, windows[i].virt + windows[i].phys % 4096 + k, windows[i].phys + k)
  {
    hide PathOf;
    var w := windows[i];
    var va := w.virt + w.phys % 4096 + k;
    var j := (w.phys % 4096 + k) / 4096;
    assert j < w.pages;
    assert PageShown(ram, root, w, j);
    RegionPages(va, PageAt(w, j));
    WordPresent(w.phys / 4096 + j);
    assert va % 4096 == (w.phys % 4096 + k) % 4096;
  }

  lemma CapDecidesCoverage(phys: nat, size: nat)
    ensures phys % 4096 + size <= PagesNeeded(phys, size) * 4096 <==> phys % 4096 + size <= 64 * 4096
  {
  }

  /** A device of 64 pages and one byte: the window covers all but the last
      byte. */
  lemma BigDeviceCut(phys: nat)
    requires phys % 4096 == 0
    ensures PagesNeeded(phys, 0x4_0001) * 4096 == 0x4_0000
  {
    CapDecidesCoverage(phys, 0x4_0001);
  }

  /** Windows never overlap. */
  lemma WindowsDisjoint(ram: Ram, root: FrameNo, windows: seq<Window>, next: nat, i: nat, j: nat, va: nat)
    requires AllGood(ram, root, windows, next) && i < j < |windows|
    ensures windows[i].virt <= va < windows[i].virt + windows[i].pages * 4096 ==>
              !(windows[j].virt <= va < windows[j].virt + windows[j].pages * 4096)
  {
  }
}
