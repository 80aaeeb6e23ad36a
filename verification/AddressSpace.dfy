/** map_page (mm.c) on a machine: physical memory, CR3 and the frame allocator. */
module AddressSpace {
  import opened Basics
  import opened PageTables
  import FrameAllocator

  class Machine {
    const pfa: FrameAllocator.Allocator
    var cr3: Word
    var ram: Ram

    /** Free frames are memory, and no live table is free.  mm_init releases
        bootloader-reclaimable memory, so the second part is an assumption on
        the state map_page starts from. */
    ghost predicate Valid()
      reads this, pfa, pfa.lowBitmap, pfa.bitmap
    {
      && pfa.Valid() && 0 !in pfa.state.low
      && (forall f :: f in pfa.state.low ==> f < |ram|)
      && Tree(ram, cr3.frame, pfa.state.Frames())
    }

    constructor (pfa: FrameAllocator.Allocator, cr3: Word, ram: Ram)
      requires pfa.Valid() && 0 !in pfa.state.low
      requires forall f :: f in pfa.state.low ==> f < |ram|
      requires Tree(ram, cr3.frame, pfa.state.Frames())
      ensures Valid() && this.pfa == pfa && this.cr3 == cr3 && this.ram == ram
    {
      this.pfa, this.cr3, this.ram := pfa, cr3, ram;
    }

    ghost function Free(): set<nat>
      reads this, pfa
    {
      pfa.state.Frames()
    }

    /** pfa_alloc_low, as its callers use it: a frame number, or failure. */
    method TakeFrame() returns (ok: bool, f: FrameNo)
      requires Valid()
      modifies pfa, pfa.lowBitmap
      ensures Valid() && ram == old(ram) && cr3 == old(cr3)
      ensures ok <==> old(pfa.state.low) != {}
      ensures ok ==> f in old(pfa.state.low) && f in old(Free()) && f < |ram| && f != 0
                     && pfa.state.low == old(pfa.state.low) - {f} && Free() == old(Free()) - {f}
      ensures !ok ==> pfa.state == old(pfa.state)
    {
      ghost var s := pfa.state;
      if s.low != {} {
        FrameAllocator.AllocLowTakes(s);
      }
      var phys := pfa.AllocLow();
      ok := phys != 0;
      f := if ok then phys / FrameAllocator.PAGE_SIZE else 0;
      ShrinkFree(ram, cr3.frame, s.Frames(), Free());
    }

    /** One level of map_page: make entry `i` of table `t` point to a table. */
    method EnsureTable(ghost p: Path, t: FrameNo, i: nat, flags: Flags) returns (ok: bool, child: FrameNo)
      requires Valid() && |p| <= 2 && Indices(p) && i < 512 && Walk(ram, cr3.frame, p) == Some(t)
      requires NotHuge(Entry(ram, t, i))
      modifies this`ram, pfa, pfa.lowBitmap
      ensures Valid()
      ensures Level(old(ram), old(Free()), old(pfa.state.low), ram, Free(), pfa.state.low,
                    cr3.frame, p, t, i, flags, ok, child)
    {
      assert ToTable(p);
      ghost var free, low := Free(), pfa.state.low;
      if ram[t].words[i].low & PRESENT == 0 {
        var taken;
        taken, child := TakeFrame();
        if !taken {
          LevelOutOfMemory(ram, free, cr3.frame, p, t, i, flags);
          return false, 0;
        }
        LevelHung(ram, free, low, cr3.frame, p, t, i, child, flags);
        ram := HangTable(ram, t, i, child, Gained(flags));
      } else {
        LevelGained(ram, free, low, cr3.frame, p, t, i, flags);
        child := ram[t].words[i].frame;
        ram := Put(ram, t, i, Gain(ram[t].words[i], Gained(flags)));
      }
      ok := true;
    }

    /** map_page: returns false where the C function gives up for want of a
        frame (it reports that only on the console). */
    method MapPage(phys: Word, va: nat, flags: Flags) returns (ok: bool)
      requires Valid() && NoHugeOn(ram, cr3.frame, PathOf(va))
      modifies this`ram, pfa, pfa.lowBitmap
      ensures Valid()
      ensures MapsPage(old(ram), old(Free()), ram, Free(), cr3.frame, PathOf(va),
                       Word(phys.frame, phys.low | flags.low, phys.high | flags.high), flags, ok)
      ensures ok && phys.low == 0 && flags.low & PRESENT != 0 ==>
                (UserAccess(ram, cr3.frame, PathOf(va)) <==> flags.low & USER != 0)
      ensures AccessStaysBut(old(ram), ram, cr3.frame, PathOf(va), ok)
      ensures ok <==> TablesMissing(old(ram), cr3.frame, PathOf(va)) <= |old(pfa.state.low)|
      ensures pfa.state.low <= old(pfa.state.low)
      ensures ok ==> |pfa.state.low| == |old(pfa.state.low)|
                                        - TablesMissing(old(ram), cr3.frame, PathOf(va))
    {
      hide *;
      var page := PathOf(va);
      ghost var ram0, free0, low0 := ram, Free(), pfa.state.low;
      ghost var leaf := Word(phys.frame, phys.low | flags.low, phys.high | flags.high);
      NoneReached(page, flags);
      var pdpt, pdt, pt;
      ok, pdpt := DescendOne(ram0, free0, low0, page, 0, cr3.frame, flags, leaf);
      if ok {
        ok, pdt := DescendOne(ram0, free0, low0, page, 1, pdpt, flags, leaf);
        if ok {
          ok, pt := DescendOne(ram0, free0, low0, page, 2, pdt, flags, leaf);
          if ok {
            PutLeaf(ram0, free0, low0, page, pt, phys, flags);
            return;
          }
        }
      }
      GaveUp(ram0, free0, low0, ram, Free(), pfa.state.low, cr3.frame, page, leaf, flags);
    }

    lemma NoneReached(page: Path, flags: Flags)
      requires Valid() && IsPage(page) && NoHugeOn(ram, cr3.frame, page)
      ensures Reached(ram, Free(), pfa.state.low, ram, Free(), pfa.state.low, cr3.frame, page, 0, cr3.frame, flags)
    {
      hide Reached, Tree, NoHugeOn, FrameAllocator.Allocator.Valid;
      NothingReached(ram, Free(), pfa.state.low, cr3.frame, page, flags);
    }

    /** The leaf write of map_page. */
    method PutLeaf(ghost ram0: Ram, ghost free0: set<nat>, ghost low0: set<nat>,
                   page: Path, pt: FrameNo, phys: Word, flags: Flags)
      requires Valid() && IsPage(page)
      requires Reached(ram0, free0, low0, ram, Free(), pfa.state.low, cr3.frame, page, 3, pt, flags)
      modifies this`ram
      ensures Valid()
      ensures MapsPage(ram0, free0, ram, Free(), cr3.frame, page,
                       Word(phys.frame, phys.low | flags.low, phys.high | flags.high), flags, true)
      ensures phys.low == 0 && flags.low & PRESENT != 0 ==>
                (UserAccess(ram, cr3.frame, page) <==> flags.low & USER != 0)
      ensures AccessStaysBut(ram0, ram, cr3.frame, page, true)
      ensures pfa.state.low <= low0 && |pfa.state.low| == |low0| - TablesMissing(ram0, cr3.frame, page)
    {
      hide Reached, MapsPage, TablesMissing, Tree, Put, PathOf, Present, UserAccess, FrameAllocator.Allocator.Valid;
      LeafReached(ram0, free0, low0, ram, Free(), pfa.state.low, cr3.frame, page, pt, Or(phys, flags), flags);
      ReachedTree(ram0, free0, low0, ram, Free(), pfa.state.low, cr3.frame, page, pt, flags);
      ram := Put(ram, pt, page[3], Or(phys, flags));
      AccessStays(ram0, free0, ram, Free(), cr3.frame, page, Or(phys, flags), flags, true);
      AccessGiven(ram0, free0, ram, Free(), cr3.frame, page, phys, flags);
    }

    /** Level `k` of map_page, with what the levels so far have used. */
    method DescendOne(ghost ram0: Ram, ghost free0: set<nat>, ghost low0: set<nat>,
                      page: Path, k: nat, t: FrameNo, flags: Flags, ghost leaf: Word)
      returns (ok: bool, child: FrameNo)
      requires Valid() && IsPage(page) && k < 3
      requires Reached(ram0, free0, low0, ram, Free(), pfa.state.low, cr3.frame, page, k, t, flags)
      modifies this`ram, pfa, pfa.lowBitmap
      ensures Valid()
      ensures ok ==> Reached(ram0, free0, low0, ram, Free(), pfa.state.low, cr3.frame, page, k + 1, child, flags)
      ensures !ok ==> Failed(ram0, free0, low0, ram, Free(), pfa.state.low, cr3.frame, page, leaf, flags)
    {
      ghost var ram1, free1, low1 := ram, Free(), pfa.state.low;
      ok, child := EnsureTable(page[..k], t, page[k], flags);
      LevelStep(ram0, free0, low0, ram1, free1, low1, ram, Free(), pfa.state.low,
                cr3.frame, page, k, t, flags, ok, child, leaf);
    }

    /** A byte store through a 4 KB mapping of a frame that holds no table. */
    method StoreByte(va: nat, b: byte)
      requires Valid() && Translate(ram, cr3.frame, PathOf(va)).Page?
      requires var f := Translate(ram, cr3.frame, PathOf(va)).entry.frame;
               f < |ram| && !IsTable(ram, cr3.frame, f)
      modifies this`ram
      ensures Valid()
      ensures var f := Translate(old(ram), cr3.frame, PathOf(va)).entry.frame;
              ram == Stored(old(ram), f, va % 4096, b) && SameTables(old(ram), ram, cr3.frame)
    {
      var f := Translate(ram, cr3.frame, PathOf(va)).entry.frame;
      StoreKeeps(ram, cr3.frame, Free(), f, va % 4096, b);
      ram := Stored(ram, f, va % 4096, b);
    }
  }

  function Stored(ram: Ram, f: nat, off: nat, b: byte): (ram': Ram)
    requires f < |ram| && off < 4096
    ensures |ram'| == |ram|
    ensures forall g :: 0 <= g < |ram| ==> AsBytes(ram'[g]) == if g == f then AsBytes(ram[f])[off := b] else AsBytes(ram[g])
  {
    ram[f := Data(AsBytes(ram[f])[off := b])]
  }

  ghost predicate SameTables(ram: Ram, ram': Ram, root: FrameNo) {
    && (forall q: Path | ToTable(q) :: Walk(ram', root, q) == Walk(ram, root, q))
    && (forall q: Path | IsPage(q) :: Translate(ram', root, q) == Translate(ram, root, q))
  }

  lemma {:induction false} StoreWalk(ram: Ram, root: FrameNo, f: nat, off: nat, b: byte, q: Path)
    requires f < |ram| && off < 4096 && !IsTable(ram, root, f) && ToTable(q)
    ensures Walk(Stored(ram, f, off, b), root, q) == Walk(ram, root, q)
  {
    if q != [] {
      StoreWalk(ram, root, f, off, b, q[..|q| - 1]);
      assert ToTable(q[..|q| - 1]);
    }
  }

  lemma StoreKeeps(ram: Ram, root: FrameNo, free: set<nat>, f: nat, off: nat, b: byte)
    requires Tree(ram, root, free) && f < |ram| && off < 4096 && !IsTable(ram, root, f)
    ensures Tree(Stored(ram, f, off, b), root, free)
    ensures SameTables(ram, Stored(ram, f, off, b), root)
  {
    var ram' := Stored(ram, f, off, b);
    forall q: Path | ToTable(q)
      ensures Walk(ram', root, q) == Walk(ram, root, q)
      ensures Walk(ram, root, q) != Some(f)
    {
      StoreWalk(ram, root, f, off, b, q);
    }
    forall q: Path | IsPage(q)
      ensures Translate(ram', root, q) == Translate(ram, root, q)
    {
      forall j | 0 <= j <= 3
        ensures LevelAgrees(ram, ram', root, q, j)
      {
        assert ToTable(q[..j]);
      }
      SameTranslation(ram, ram', root, q);
    }
  }

  lemma NothingReached(ram: Ram, free: set<nat>, low: set<nat>, root: FrameNo, page: Path, flags: Flags)
    requires Tree(ram, root, free) && IsPage(page) && NoHugeOn(ram, root, page)
    ensures Reached(ram, free, low, ram, free, low, root, page, 0, root, flags)
  {
    ExtendsRefl(ram, free, root, Gained(flags));
    assert page[..0] == [] && page[0..] == page;
  }

  /** Giving up: fewer frames than tables missing, and no translation changed. */
  ghost predicate Failed(ram0: Ram, free0: set<nat>, low0: set<nat>, ram: Ram, free: set<nat>, low: set<nat>,
                         root: FrameNo, page: Path, leaf: Word, flags: Flags)
    requires IsPage(page)
  {
    && Tree(ram0, root, free0)
    && TablesMissing(ram0, root, page) > |low0| && low <= low0
    && MapsPage(ram0, free0, ram, free, root, page, leaf, flags, false)
  }

  /** The first `k` levels of `page` are in place: what has been used so far
      and what the rest of the walk still lacks add up. */
  ghost predicate Reached(ram0: Ram, free0: set<nat>, low0: set<nat>, ram: Ram, free: set<nat>, low: set<nat>,
                          root: FrameNo, page: Path, k: nat, t: FrameNo, flags: Flags)
    requires IsPage(page) && k <= 3
  {
    && Tree(ram0, root, free0)
    && Extends(ram0, free0, ram, free, root, Gained(flags))
    && NoHugeOn(ram, root, page)
    && Walk(ram, root, page[..k]) == Some(t)
    && PassedTo(ram0, ram, root, page, k, flags.low & 0x01C)
    && low <= low0
    && |low0| - |low| + TablesMissing(ram, t, page[k..]) == TablesMissing(ram0, root, page)
  }

  lemma ReachedTree(ram0: Ram, free0: set<nat>, low0: set<nat>, ram: Ram, free: set<nat>, low: set<nat>,
                    root: FrameNo, page: Path, t: FrameNo, flags: Flags)
    requires IsPage(page) && Reached(ram0, free0, low0, ram, free, low, root, page, 3, t, flags)
    ensures Tree(ram0, root, free0)
  {
    hide Tree;
  }

  lemma GaveUp(ram0: Ram, free0: set<nat>, low0: set<nat>, ram: Ram, free: set<nat>, low: set<nat>,
               root: FrameNo, page: Path, leaf: Word, flags: Flags)
    requires IsPage(page) && Failed(ram0, free0, low0, ram, free, low, root, page, leaf, flags)
    ensures TablesMissing(ram0, root, page) > |low0| && low <= low0
    ensures MapsPage(ram0, free0, ram, free, root, page, leaf, flags, false)
    ensures AccessStaysBut(ram0, ram, root, page, false)
  {
    hide MapsPage, Tree, UserAccess;
    AccessStays(ram0, free0, ram, free, root, page, leaf, flags, false);
  }

  lemma LeafReached(ram0: Ram, free0: set<nat>, low0: set<nat>, ram: Ram, free: set<nat>, low: set<nat>,
                    root: FrameNo, page: Path, t: FrameNo, leaf: Word, flags: Flags)
    requires IsPage(page)
    requires Reached(ram0, free0, low0, ram, free, low, root, page, 3, t, flags)
    ensures t < |ram| && ram[t].Table?
    ensures MapsPage(ram0, free0, Put(ram, t, page[3], leaf), free, root, page, leaf, flags, true)
    ensures low <= low0 && |low| == |low0| - TablesMissing(ram0, root, page) && |low| <= |low0|
    ensures Tree(Put(ram, t, page[3], leaf), root, free)
  {
    LeafMapsPage(ram0, free0, ram, free, root, page, t, leaf, flags);
  }

  lemma LevelStep(ram0: Ram, free0: set<nat>, low0: set<nat>, ram: Ram, free: set<nat>, low: set<nat>,
                  ram': Ram, free': set<nat>, low': set<nat>, root: FrameNo, page: Path, k: nat,
                  t: FrameNo, flags: Flags, ok: bool, child: FrameNo, leaf: Word)
    requires IsPage(page) && k < 3
    requires Reached(ram0, free0, low0, ram, free, low, root, page, k, t, flags)
    requires Level(ram, free, low, ram', free', low', root, page[..k], t, page[k], flags, ok, child)
    ensures ok ==> Reached(ram0, free0, low0, ram', free', low', root, page, k + 1, child, flags)
    ensures !ok ==> Failed(ram0, free0, low0, ram', free', low', root, page, leaf, flags)
  {
    hide MissingBelow, MapsPage, Extends, NoHugeOn, Walk, TablesMissing, Tree, PassedTo, OneEntry, UpperEntries, Present;
    ExtendsTrans(ram0, free0, ram, free, ram', free', root, flags);
    StillPlain(ram, free, ram', free', root, Gained(flags), page);
    MissingStep(ram, ram', page, k, t, ok, child);
    PlainEntry(ram, root, page, k, t);
    if ok {
      assert page[..k] + [page[k]] == page[..k + 1];
      WalksKept(ram, free, ram', free', root, Gained(flags));
      WalksKept(ram0, free0, ram, free, root, Gained(flags));
      ChildIs(ram, ram', t, page[k], child);
      PassOneMore(ram0, ram, free, ram', root, page, k, t, child, flags.low & 0x01C);
    } else {
      StoppedHere(ram, root, page, k, t);
      StoppedPassed(ram0, ram, root, page, k, flags.low & 0x01C);
      ExtendsMapsNothing(ram0, free0, ram', free', root, page, leaf, flags);
    }
  }

  lemma PlainEntry(ram: Ram, root: FrameNo, page: Path, k: nat, t: FrameNo)
    requires IsPage(page) && k < 3 && NoHugeOn(ram, root, page) && Walk(ram, root, page[..k]) == Some(t)
    ensures NotHuge(Entry(ram, t, page[k]))
  {
  }

  lemma WalksKept(ram: Ram, free: set<nat>, ram': Ram, free': set<nat>, root: FrameNo, g: bv12)
    requires Extends(ram, free, ram', free', root, g)
    ensures forall q: Path | ToTable(q) && Walk(ram, root, q).Some? :: Walk(ram', root, q) == Walk(ram, root, q)
    ensures Tree(ram', root, free')
  {
    hide Walk, Tree;
  }

  lemma ChildIs(ram: Ram, ram': Ram, t: FrameNo, i: nat, child: FrameNo)
    requires MissingBelow(ram, ram', t, i, child)
    ensures Present(Entry(ram, t, i)) ==> child == Entry(ram, t, i).frame
  {
    hide TablesMissing, Present;
  }

  lemma StoppedHere(ram: Ram, root: FrameNo, page: Path, k: nat, t: FrameNo)
    requires IsPage(page) && k < 3 && Walk(ram, root, page[..k]) == Some(t) && !Present(Entry(ram, t, page[k]))
    ensures !Present(WalkWord(ram, root, page, k))
  {
    hide Walk, Present;
  }

  lemma StillPlain(ram: Ram, free: set<nat>, ram': Ram, free': set<nat>, root: FrameNo, g: bv12, page: Path)
    requires IsPage(page) && Extends(ram, free, ram', free', root, g) && NoHugeOn(ram, root, page)
    ensures NoHugeOn(ram', root, page) && free' <= free && Tree(ram', root, free')
  {
    hide NoHugeOn, Tree;
  }

  lemma MissingStep(ram: Ram, ram': Ram, page: Path, k: nat, t: FrameNo, ok: bool, child: FrameNo)
    requires IsPage(page) && k < 3
    requires ok ==> MissingBelow(ram, ram', t, page[k], child)
    requires !ok ==> !Present(Entry(ram, t, page[k]))
    ensures ok ==> TablesMissing(ram, t, page[k..]) == TablesMissing(ram', child, page[k + 1..])
                                                       + (if Present(Entry(ram, t, page[k])) then 0 else 1)
    ensures !ok ==> TablesMissing(ram, t, page[k..]) > 0
  {
    assert page[k..][0] == page[k] && page[k..][1..] == page[k + 1..];
  }

  /** What map_page does to memory and the free frames: exactly one page changes
      its translation, and none when a table could not be allocated. */
  ghost predicate MapsPage(ram: Ram, free: set<nat>, ram': Ram, free': set<nat>, root: FrameNo,
                           page: Path, leaf: Word, flags: Flags, ok: bool)
    requires IsPage(page)
  {
    && Tree(ram', root, free') && free' <= free && |ram'| == |ram|
    && (forall q: Path | IsPage(q) ::
          Translate(ram', root, q) ==
          if ok && q == page then (if Present(leaf) then Page(leaf) else NotMapped)
          else Translate(ram, root, q))
    && (forall q: Path | IsPage(q) && NoHugeOn(ram, root, q) :: NoHugeOn(ram', root, q))
    && TablesOnlyGrow(ram, free, ram', root)
    && (forall f | 0 <= f < |ram| && f !in free && !IsTable(ram, root, f) :: ram'[f] == ram[f])
    && UpperEntries(ram, ram', root, page, flags.low & 0x01C, ok)
    && (ok ==> WalkWord(ram', root, page, 3) == leaf)
  }

  ghost predicate TablesOnlyGrow(ram: Ram, free: set<nat>, ram': Ram, root: FrameNo) {
    && (forall q: Path | ToTable(q) && Walk(ram, root, q).Some? :: Walk(ram', root, q) == Walk(ram, root, q))
    && (forall q: Path | ToTable(q) && Walk(ram', root, q).Some? ::
          Walk(ram, root, q) == Walk(ram', root, q) || Walk(ram', root, q).value in free)
  }

  lemma ExtendsMapsNothing(ram: Ram, free: set<nat>, ram': Ram, free': set<nat>, root: FrameNo,
                           page: Path, leaf: Word, flags: Flags)
    requires Tree(ram, root, free) && IsPage(page)
    requires Extends(ram, free, ram', free', root, Gained(flags))
    requires UpperEntries(ram, ram', root, page, flags.low & 0x01C, false)
    ensures MapsPage(ram, free, ram', free', root, page, leaf, flags, false)
  {
    hide UpperEntries, Walk, WalkWord, Translate, NoHugeOn, LiveTable;
  }

  lemma LeafMapsPage(ram: Ram, free: set<nat>, ram1: Ram, free1: set<nat>, root: FrameNo,
                     page: Path, t: FrameNo, leaf: Word, flags: Flags)
    requires Tree(ram, root, free) && IsPage(page)
    requires Extends(ram, free, ram1, free1, root, Gained(flags))
    requires Walk(ram1, root, page[..3]) == Some(t) && PassedTo(ram, ram1, root, page, 3, flags.low & 0x01C)
    ensures t < |ram1| && ram1[t].Table?
    ensures MapsPage(ram, free, Put(ram1, t, page[3], leaf), free1, root, page, leaf, flags, true)
  {
    hide UpperEntries, PassedTo, WalkWord, Present, Tree, NoHugeOn, Translate, Put, IsTable, TablesOnlyGrow, Walk;
    WalksKept(ram, free, ram1, free1, root, Gained(flags));
    LeafWrite(ram1, root, free1, page, leaf);
    LeafPassed(ram, ram1, free1, root, page, leaf, flags.low & 0x01C);
    LeafKeepsPlain(ram, free, ram1, free1, root, page, t, leaf, flags);
    LeafKeepsFrames(ram, free, ram1, free1, root, page, t, leaf, flags);
  }

  lemma LeafKeepsFrames(ram: Ram, free: set<nat>, ram1: Ram, free1: set<nat>, root: FrameNo,
                        page: Path, t: FrameNo, leaf: Word, flags: Flags)
    requires IsPage(page) && Walk(ram1, root, page[..3]) == Some(t) && t < |ram1| && ram1[t].Table?
    requires Extends(ram, free, ram1, free1, root, Gained(flags))
    requires forall q: Path | ToTable(q) :: Walk(Put(ram1, t, page[3], leaf), root, q) == Walk(ram1, root, q)
    ensures forall f | 0 <= f < |ram| && f !in free && !IsTable(ram, root, f) ::
              Put(ram1, t, page[3], leaf)[f] == ram[f]
    ensures TablesOnlyGrow(ram, free, Put(ram1, t, page[3], leaf), root)
  {
    hide Walk, Translate, NoHugeOn, Tree;
    assert ToTable(page[..3]);
    forall f | 0 <= f < |ram| && f !in free && !IsTable(ram, root, f)
      ensures Put(ram1, t, page[3], leaf)[f] == ram[f]
    {
      assert f != t;
    }
  }

  lemma LeafKeepsPlain(ram: Ram, free: set<nat>, ram1: Ram, free1: set<nat>, root: FrameNo,
                       page: Path, t: FrameNo, leaf: Word, flags: Flags)
    requires IsPage(page) && Walk(ram1, root, page[..3]) == Some(t)
    requires Tree(ram1, root, free1) && t < |ram1| && ram1[t].Table?
    requires Extends(ram, free, ram1, free1, root, Gained(flags))
    requires forall q: Path | ToTable(q) ::
               Walk(Put(ram1, t, page[3], leaf), root, q) == Walk(ram1, root, q)
    ensures forall q: Path | IsPage(q) && NoHugeOn(ram, root, q) :: NoHugeOn(Put(ram1, t, page[3], leaf), root, q)
  {
    var ram' := Put(ram1, t, page[3], leaf);
    assert ToTable(page[..3]);
    forall q: Path | |q| <= 2 && Indices(q) && Walk(ram1, root, q).Some?
      ensures Walk(ram1, root, q).value != t
    {
      assert ToTable(q);
    }
    forall q: Path | IsPage(q) && NoHugeOn(ram, root, q)
      ensures NoHugeOn(ram', root, q)
    {
      assert NoHugeOn(ram1, root, q);
      forall k | 0 <= k < 3 && Walk(ram', root, q[..k]).Some?
        ensures NotHuge(Entry(ram', Walk(ram', root, q[..k]).value, q[k]))
      {
        assert ToTable(q[..k]);
      }
    }
  }

  /** User mode still reaches what it reached, but for `page` once that is mapped anew. */
  ghost predicate AccessStaysBut(ram: Ram, ram': Ram, root: FrameNo, page: Path, ok: bool) {
    forall q: Path | IsPage(q) && (ok ==> q != page) && UserAccess(ram, root, q) :: UserAccess(ram', root, q)
  }

  /** Mapping one page takes user access to no other. */
  lemma AccessStays(ram: Ram, free: set<nat>, ram': Ram, free': set<nat>, root: FrameNo,
                    page: Path, leaf: Word, flags: Flags, ok: bool)
    requires Tree(ram, root, free) && IsPage(page)
    requires MapsPage(ram, free, ram', free', root, page, leaf, flags, ok)
    ensures AccessStaysBut(ram, ram', root, page, ok)
  {
    hide UserAccess, UpperEntries, Walk, Translate, NoHugeOn, WalkWord, Tree;
    forall q: Path | IsPage(q) && (ok ==> q != page) && UserAccess(ram, root, q)
      ensures UserAccess(ram', root, q)
    {
      UserAccessStays(ram, free, ram', root, page, flags.low & 0x01C, ok, q);
    }
  }

  lemma AccessGiven(ram: Ram, free: set<nat>, ram': Ram, free': set<nat>, root: FrameNo,
                    page: Path, phys: Word, flags: Flags)
    requires IsPage(page) && MapsPage(ram, free, ram', free', root, page, Or(phys, flags), flags, true)
    ensures phys.low == 0 && flags.low & PRESENT != 0 ==>
              (UserAccess(ram', root, page) <==> flags.low & USER != 0)
  {
    hide UserAccess, UpperEntries, Walk, Translate, NoHugeOn, WalkWord, Tree, Present, Or;
    if phys.low == 0 && flags.low & PRESENT != 0 {
      MappedForUser(ram, ram', root, page, phys, flags);
    }
  }

  lemma ShrinkFree(ram: Ram, root: FrameNo, free: set<nat>, free': set<nat>)
    requires Tree(ram, root, free) && free' <= free
    ensures Tree(ram, root, free')
  {
  }

  /** What one level of map_page does, from (ram, free, low) to (ram', free', low'). */
  ghost predicate Level(ram: Ram, free: set<nat>, low: set<nat>, ram': Ram, free': set<nat>, low': set<nat>,
                        root: FrameNo, p: Path, t: FrameNo, i: nat, flags: Flags, ok: bool, child: FrameNo)
  {
    var present := Present(Entry(ram, t, i));
    && Extends(ram, free, ram', free', root, Gained(flags))
    && (ok <==> present || low != {})
    && low' <= low && |low'| == |low| - (if ok && !present then 1 else 0)
    && (ok ==> Walk(ram', root, p + [i]) == Some(child) && MissingBelow(ram, ram', t, i, child)
               && OneEntry(ram, free, ram', t, i, child, flags.low & 0x01C))
    && (!ok ==> ram' == ram)
  }

  /** A table that was there lacks what it lacked; a new one lacks everything. */
  ghost predicate MissingBelow(ram: Ram, ram': Ram, t: FrameNo, i: nat, child: FrameNo) {
    if Present(Entry(ram, t, i)) then
      child == Entry(ram, t, i).frame
      && forall rest: Path | rest != [] :: TablesMissing(ram', child, rest) == TablesMissing(ram, child, rest)
    else
      forall rest: Path | rest != [] :: TablesMissing(ram', child, rest) == |rest| - 1
  }

  lemma LevelOutOfMemory(ram: Ram, free: set<nat>, root: FrameNo, p: Path, t: FrameNo, i: nat, flags: Flags)
    requires Tree(ram, root, free) && !Present(Entry(ram, t, i))
    ensures Level(ram, free, {}, ram, free, {}, root, p, t, i, flags, false, 0)
  {
    ExtendsRefl(ram, free, root, Gained(flags));
  }

  lemma LevelHung(ram: Ram, free: set<nat>, low: set<nat>, root: FrameNo, p: Path, t: FrameNo, i: nat,
                  f: FrameNo, flags: Flags)
    requires Tree(ram, root, free) && |p| <= 2 && Indices(p) && i < 512 && Walk(ram, root, p) == Some(t)
    requires !Present(Entry(ram, t, i)) && f in low && low <= free && f < |ram|
    ensures t < |ram| && ram[t].Table? && t != f
    ensures Level(ram, free, low, HangTable(ram, t, i, f, Gained(flags)), free - {f}, low - {f},
                  root, p, t, i, flags, true, f)
  {
    HangExtends(ram, root, free, p, i, f, flags);
    OneEntryHung(ram, free, t, i, f, flags);
    forall rest: Path | rest != []
      ensures TablesMissing(HangTable(ram, t, i, f, Gained(flags)), f, rest) == |rest| - 1
    {
      HangMissing(ram, t, i, f, Gained(flags), rest);
    }
  }

  lemma LevelGained(ram: Ram, free: set<nat>, low: set<nat>, root: FrameNo, p: Path, t: FrameNo, i: nat,
                    flags: Flags)
    requires Tree(ram, root, free) && |p| <= 2 && Indices(p) && i < 512 && Walk(ram, root, p) == Some(t)
    requires PointsToTable(Entry(ram, t, i))
    ensures t < |ram| && ram[t].Table?
    ensures Level(ram, free, low, Put(ram, t, i, Gain(Entry(ram, t, i), Gained(flags))), free, low,
                  root, p, t, i, flags, true, Entry(ram, t, i).frame)
  {
    assert ToTable(p);
    GainExtends(ram, root, free, p, i, flags);
    OneEntryGained(ram, free, t, i, flags);
    forall rest: Path | rest != []
      ensures TablesMissing(Put(ram, t, i, Gain(Entry(ram, t, i), Gained(flags))), Entry(ram, t, i).frame, rest)
              == TablesMissing(ram, Entry(ram, t, i).frame, rest)
    {
      GainMissing(ram, t, i, flags, Entry(ram, t, i).frame, rest);
    }
  }

  /** At most one table per level is missing on a path. */
  lemma {:induction false} MissingBound(ram: Ram, t: nat, p: Path)
    requires p != []
    ensures TablesMissing(ram, t, p) <= |p| - 1
    decreases |p|
  {
    if |p| > 1 && Present(Entry(ram, t, p[0])) {
      MissingBound(ram, Entry(ram, t, p[0]).frame, p[1..]);
    }
  }
}
