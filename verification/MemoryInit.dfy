/** mm_init: which frames the boot memory map hands to the allocator. */
module MemoryInit {
  import opened FrameAllocator

  const BITMAP_FRAMES: nat := 2 * BITMAP_SIZE / PAGE_SIZE

  datatype Kind = Usable | BootloaderReclaimable | OtherKind

  datatype Entry = Entry(base: nat, length: nat, kind: Kind) {
    predicate Offered() {
      kind == Usable || kind == BootloaderReclaimable
    }

    /** Rounded inward to whole pages. */
    function FirstPage(): nat { (base + PAGE_SIZE - 1) / PAGE_SIZE }
    function LastPage(): nat { (base + length) / PAGE_SIZE }

    predicate Covers(f: nat) {
      Offered() && FirstPage() <= f < LastPage()
    }

    predicate Fits(reserve: nat) {
      Offered() && FirstPage() < LastPage() && reserve <= LastPage() - FirstPage()
    }

    /** The whole of page `f` lies in memory of a kind that may be used. */
    predicate Holds(f: nat) {
      (kind == Usable || kind == BootloaderReclaimable) && base <= f * 4096 && f * 4096 + 4096 <= base + length
    }
  }

  /** The sums mm_init forms stay below 2^64. */
  predicate Addressable(entries: seq<Entry>) {
    forall e :: e in entries ==> e.base + e.length + PAGE_SIZE <= 0x1_0000_0000_0000_0000
  }

  /** Rounding inward keeps exactly the pages that lie wholly in the entry, and the
      reserve fits if that many of them, and one at least, follow its first. */
  lemma WholePages(e: Entry, f: nat, reserve: nat)
    ensures e.Covers(f) <==> e.Holds(f)
    ensures e.base <= e.FirstPage() * 4096 < e.base + 4096
    ensures e.Fits(reserve) <==>
            e.Holds(e.FirstPage()) && (reserve > 0 ==> e.Holds(e.FirstPage() + reserve - 1))
  {
  }

  /** Page where the bitmaps go: the first fitting region that does not start
      at page 0; 0 stands for none. */
  function Placement(entries: seq<Entry>, reserve: nat): (page: nat)
  {
    if entries == [] then 0
    else if entries[0].Fits(reserve) && entries[0].FirstPage() != 0 then entries[0].FirstPage()
    else Placement(entries[1..], reserve)
  }

  lemma {:induction false} PlacementMeaning(entries: seq<Entry>, reserve: nat)
    ensures Placement(entries, reserve) == 0 <==>
            forall e :: e in entries && e.Fits(reserve) ==> e.FirstPage() == 0
    ensures Placement(entries, reserve) != 0 ==>
            exists k :: 0 <= k < |entries| && entries[k].Fits(reserve)
                        && entries[k].FirstPage() == Placement(entries, reserve)
                        && forall j :: 0 <= j < k && entries[j].Fits(reserve) ==> entries[j].FirstPage() == 0
  {
    if entries != [] {
      var rest := entries[1..];
      PlacementMeaning(rest, reserve);
      assert forall e :: e in entries ==> e == entries[0] || e in rest;
      if Placement(rest, reserve) != 0 && !(entries[0].Fits(reserve) && entries[0].FirstPage() != 0) {
        var k :| 0 <= k < |rest| && rest[k].Fits(reserve) && rest[k].FirstPage() == Placement(rest, reserve)
                 && forall j :: 0 <= j < k && rest[j].Fits(reserve) ==> rest[j].FirstPage() == 0;
        assert entries[k + 1] == rest[k];
        assert forall j :: 1 <= j < k + 1 ==> entries[j] == rest[j - 1];
      }
    }
  }

  ghost predicate Covered(entries: seq<Entry>, f: nat) {
    exists k :: 0 <= k < |entries| && entries[k].Covers(f)
  }

  lemma CoveredIs(entries: seq<Entry>, f: nat)
    ensures Covered(entries, f) <==> exists k :: 0 <= k < |entries| && entries[k].Holds(f)
  {
    forall k | 0 <= k < |entries|
      ensures entries[k].Covers(f) <==> entries[k].Holds(f)
    {
      WholePages(entries[k], f, 0);
    }
  }

  /** What mm_init leaves free: covered, not frame 0, not reserved. */
  ghost predicate Granted(entries: seq<Entry>, reserve: nat, f: nat) {
    var at := Placement(entries, reserve);
    Covered(entries, f) && f != 0 && !(at <= f < at + reserve)
  }

  method FindPlacement(entries: seq<Entry>, reserve: nat) returns (page: nat)
    requires Addressable(entries)
    ensures page == Placement(entries, reserve)
  {
    page := 0;
    for i := 0 to |entries|
      invariant Placement(entries, reserve) == if page != 0 then page else Placement(entries[i..], reserve)
    {
      var regionStart, regionEnd := entries[i].FirstPage(), entries[i].LastPage();
      if entries[i].Offered() && regionEnd > regionStart && regionEnd - regionStart >= reserve {
        if page == 0 {
          page := regionStart;
        }
      }
    }
  }

  method Init(entries: seq<Entry>, reserve: nat) returns (ok: bool, pfa: Allocator)
    requires Addressable(entries)
    ensures fresh(pfa) && fresh(pfa.lowBitmap) && fresh(pfa.bitmap) && pfa.Valid()
    ensures ok <==> Placement(entries, reserve) != 0
    ensures !ok ==> pfa.state == BOOT
    ensures ok ==> forall f: nat :: f in pfa.state.low <==> f < LOW_FRAMES && Granted(entries, reserve, f)
    ensures ok ==> forall f: nat :: f in pfa.state.high <==>
                               LOW_FRAMES <= f < LOW_FRAMES + MAX_PAGES && Granted(entries, reserve, f)
    ensures ok ==> FreeAfterInit(entries, reserve, pfa.state.Frames())
    ensures ok ==> forall f: nat :: f in pfa.state.Frames() <==>
                     f < 0x30_0000 && f != 0 && (exists k :: 0 <= k < |entries| && entries[k].Holds(f))
                     && !(Placement(entries, reserve) <= f < Placement(entries, reserve) + reserve)
    ensures pfa.state.lowTotal == pfa.state.lowFree == |pfa.state.low|
    ensures pfa.state.highTotal == pfa.state.highFree == |pfa.state.high|
  {
    hide FreeSoFar, Granted, FreeAfterInit, Placement, Allocator.Valid, Pfa.Frames;
    pfa := new Allocator();
    NothingCounted(pfa);
    var at := FindPlacement(entries, reserve);
    if at == 0 {
      return false, pfa;
    }
    NothingFreed(pfa.state, entries, at, reserve);
    for i := 0 to |entries|
      invariant fresh(pfa) && fresh(pfa.lowBitmap) && fresh(pfa.bitmap) && pfa.Valid()
      invariant FreeSoFar(pfa.state, entries[..i], at, reserve)
    {
      assert entries[..i + 1] == entries[..i] + [entries[i]];
      if entries[i].Offered() {
        FreeRegion(pfa, entries, i, at, reserve);
      } else {
        SkipEntry(pfa.state, entries, i, at, reserve);
      }
    }
    assert entries[..|entries|] == entries;
    AllFreed(pfa.state, entries, at, reserve);
    return true, pfa;
  }

  lemma NothingCounted(pfa: Allocator)
    requires pfa.Valid()
    ensures pfa.state.lowFree == |pfa.state.low| && pfa.state.highFree == |pfa.state.high|
  {
  }

  lemma NothingFreed(s: Pfa, entries: seq<Entry>, at: nat, reserve: nat)
    requires s == BOOT
    ensures FreeSoFar(s, entries[..0], at, reserve)
    ensures s.lowTotal == s.lowFree == |s.low| && s.highTotal == s.highFree == |s.high|
  {
  }

  lemma AllFreed(s: Pfa, entries: seq<Entry>, at: nat, reserve: nat)
    requires FreeSoFar(s, entries, at, reserve) && at == Placement(entries, reserve)
    ensures forall f: nat :: f in s.low <==> f < LOW_FRAMES && Granted(entries, reserve, f)
    ensures forall f: nat :: f in s.high <==>
                             LOW_FRAMES <= f < LOW_FRAMES + MAX_PAGES && Granted(entries, reserve, f)
    ensures FreeAfterInit(entries, reserve, s.Frames())
    ensures forall f: nat :: f in s.Frames() <==>
              f < 0x30_0000 && f != 0 && (exists k :: 0 <= k < |entries| && entries[k].Holds(f)) && !(at <= f < at + reserve)
    ensures s.lowTotal == s.lowFree == |s.low| && s.highTotal == s.highFree == |s.high|
  {
    forall f: nat
      ensures f in s.low || f in s.high <==> f < LOW_FRAMES + MAX_PAGES && Granted(entries, reserve, f)
    {
      assert f in s.Frames() <==> f in FreedFrames(entries, at, reserve);
    }
    forall f: nat
      ensures Covered(entries, f) <==> exists k :: 0 <= k < |entries| && entries[k].Holds(f)
    {
      CoveredIs(entries, f);
    }
  }

  /** The frames of the entries seen so far are free and nothing else is. */
  ghost predicate FreeSoFar(s: Pfa, entries: seq<Entry>, at: nat, reserve: nat) {
    && s.Frames() == FreedFrames(entries, at, reserve)
    && s.Counted() && s.InRange()
    && s.lowTotal == s.lowFree && s.highTotal == s.highFree
  }

  ghost function FreedFrames(entries: seq<Entry>, at: nat, reserve: nat): set<nat> {
    set f: nat | f < LOW_FRAMES + MAX_PAGES && Keeps(entries, at, reserve, f)
  }

  ghost predicate Keeps(entries: seq<Entry>, at: nat, reserve: nat, f: nat) {
    Covered(entries, f) && f != 0 && !(at <= f < at + reserve)
  }

  lemma CoveredOneMore(entries: seq<Entry>, i: nat, f: nat)
    requires i < |entries|
    ensures Covered(entries[..i + 1], f) <==> Covered(entries[..i], f) || entries[i].Covers(f)
  {
    if entries[i].Covers(f) {
      assert entries[..i + 1][i].Covers(f);
    }
    if Covered(entries[..i], f) {
      var k :| 0 <= k < i && entries[..i][k].Covers(f);
      assert entries[..i + 1][k].Covers(f);
    }
  }

  lemma SkipEntry(s: Pfa, entries: seq<Entry>, i: nat, at: nat, reserve: nat)
    requires i < |entries| && !entries[i].Offered()
    requires FreeSoFar(s, entries[..i], at, reserve)
    ensures FreeSoFar(s, entries[..i + 1], at, reserve)
  {
    forall f: nat
      ensures Keeps(entries[..i + 1], at, reserve, f) <==> Keeps(entries[..i], at, reserve, f)
    {
      CoveredOneMore(entries, i, f);
    }
  }

  /** The inner loop: pages of one entry, from the last down to the first. */
  method FreeRegion(pfa: Allocator, entries: seq<Entry>, i: nat, at: nat, reserve: nat)
    requires pfa.Valid() && i < |entries| && entries[i].Offered()
    requires FreeSoFar(pfa.state, entries[..i], at, reserve)
    modifies pfa, pfa.lowBitmap, pfa.bitmap
    ensures pfa.Valid()
    ensures FreeSoFar(pfa.state, entries[..i + 1], at, reserve)
  {
    var e := entries[i];
    var page: nat := e.LastPage();
    NothingYet(pfa.state, entries[..i], e, at, reserve);
    while page > e.FirstPage()
      invariant page <= e.LastPage()
      invariant pfa.Valid()
      invariant PartlyFreed(pfa.state, entries[..i], e, page, at, reserve)
    {
      page := page - 1;
      FreePage(pfa, page * PAGE_SIZE, page, entries[..i], e, at, reserve);
    }
    RegionFreed(pfa.state, entries, i, page, at, reserve);
  }

  /** The body of the inner loop, for the page at address `p`. */
  method FreePage(pfa: Allocator, p: nat, ghost page: nat, ghost done: seq<Entry>, ghost e: Entry,
                  at: nat, reserve: nat)
    requires p == page * PAGE_SIZE && e.Covers(page)
    requires pfa.Valid() && PartlyFreed(pfa.state, done, e, page + 1, at, reserve)
    modifies pfa, pfa.lowBitmap, pfa.bitmap
    ensures pfa.Valid() && PartlyFreed(pfa.state, done, e, page, at, reserve)
  {
    ghost var before := pfa.state;
    if p == 0 || (p < (at + reserve) * PAGE_SIZE && p + PAGE_SIZE > at * PAGE_SIZE) {
      SkipOne(before, done, e, page, at, reserve);
      return;
    }
    FreeOne(before, done, e, page, at, reserve);
    pfa.Free(p);
  }

  lemma NothingYet(s: Pfa, done: seq<Entry>, e: Entry, at: nat, reserve: nat)
    requires FreeSoFar(s, done, at, reserve)
    ensures PartlyFreed(s, done, e, e.LastPage(), at, reserve)
  {
  }

  lemma SkipOne(s: Pfa, done: seq<Entry>, e: Entry, page: nat, at: nat, reserve: nat)
    requires PartlyFreed(s, done, e, page + 1, at, reserve)
    requires page == 0 || at <= page < at + reserve
    ensures PartlyFreed(s, done, e, page, at, reserve)
  {
  }

  lemma RegionFreed(s: Pfa, entries: seq<Entry>, i: nat, page: nat, at: nat, reserve: nat)
    requires i < |entries| && entries[i].Offered() && page <= entries[i].FirstPage()
    requires PartlyFreed(s, entries[..i], entries[i], page, at, reserve)
    ensures FreeSoFar(s, entries[..i + 1], at, reserve)
  {
    forall f: nat
      ensures Keeps(entries[..i + 1], at, reserve, f) <==>
              (Covered(entries[..i], f) || entries[i].Covers(f)) && f != 0 && !(at <= f < at + reserve)
    {
      CoveredOneMore(entries, i, f);
    }
  }

  ghost predicate PartlyFreed(s: Pfa, done: seq<Entry>, e: Entry, page: nat, at: nat, reserve: nat) {
    && s.Counted() && s.InRange()
    && s.lowTotal == s.lowFree && s.highTotal == s.highFree
    && forall f: nat :: f in s.Frames() <==>
         f < LOW_FRAMES + MAX_PAGES && f != 0 && !(at <= f < at + reserve)
         && (Covered(done, f) || (page <= f && e.Covers(f)))
  }

  lemma FreeOne(s: Pfa, done: seq<Entry>, e: Entry, page: nat, at: nat, reserve: nat)
    requires PartlyFreed(s, done, e, page + 1, at, reserve)
    requires page != 0 && !(at <= page < at + reserve) && e.Covers(page)
    ensures PartlyFreed(FreeStep(s, page * PAGE_SIZE), done, e, page, at, reserve)
  {
    FreeFrame(s, page);
  }

  lemma FreeFrame(s: Pfa, page: nat)
    requires page != 0 && s.Counted() && s.InRange()
    requires s.lowTotal == s.lowFree && s.highTotal == s.highFree
    ensures var t := FreeStep(s, page * PAGE_SIZE);
            && t.Counted() && t.InRange()
            && t.lowTotal == t.lowFree && t.highTotal == t.highFree
            && forall f :: f in t.Frames() <==>
                           f in s.Frames() || (f == page && page < LOW_FRAMES + MAX_PAGES)
  {
    assert page * PAGE_SIZE / PAGE_SIZE == page;
    FreeStepCases(s, page * PAGE_SIZE);
    if page < LOW_FRAMES {
      FreeLowKeeps(s, page);
    } else if page < LOW_FRAMES + MAX_PAGES {
      FreeHighKeeps(s, page);
    }
  }

  // ---------------------------------------------------------------------------
  // The bitmaps themselves
  // ---------------------------------------------------------------------------

  /** No frame the allocator has free overlaps the bytes of the two bitmaps. */
  ghost predicate BitmapsSafe(entries: seq<Entry>, reserve: nat, free: set<nat>) {
    var at := Placement(entries, reserve);
    forall f: nat :: f in free ==> !(at <= f < at + BITMAP_FRAMES)
  }

  /** The bytes of the two bitmaps lie in memory the machine offers. */
  ghost predicate BitmapsInside(entries: seq<Entry>, reserve: nat) {
    var at := Placement(entries, reserve);
    forall f :: at <= f < at + BITMAP_FRAMES ==> Covered(entries, f)
  }

  /** The frames mm_init leaves free. */
  ghost predicate FreeAfterInit(entries: seq<Entry>, reserve: nat, free: set<nat>) {
    forall f: nat :: f in free <==> f < LOW_FRAMES + MAX_PAGES && Granted(entries, reserve, f)
  }

  /** Exactly when a memory map is safe: no frame the allocator manages between
      the end of the reserve and the end of the bitmaps is offered. */
  lemma BitmapsSafeExactly(entries: seq<Entry>, reserve: nat, free: set<nat>)
    requires Placement(entries, reserve) != 0 && FreeAfterInit(entries, reserve, free)
    ensures var at := Placement(entries, reserve);
            BitmapsSafe(entries, reserve, free) <==>
            forall f :: at + reserve <= f < at + BITMAP_FRAMES && f < LOW_FRAMES + MAX_PAGES ==> !Covered(entries, f)
  {
    var at := Placement(entries, reserve);
    if BitmapsSafe(entries, reserve, free) {
      forall f | at + reserve <= f < at + BITMAP_FRAMES && f < LOW_FRAMES + MAX_PAGES
        ensures !Covered(entries, f)
      {
        assert f !in free;
      }
    }
  }

  /** A hundred usable pages at 13 gigabytes. */
  const FAR_MACHINE: seq<Entry> := [Entry(0x3_4000_0000, 100 * PAGE_SIZE, Usable)]

  /** Behind the bitmaps' range nothing becomes free, so no free frame overlaps the
      bitmaps; they still reach 28 pages past the only region. */
  lemma FarMachineFreesNothing(reserve: nat, free: set<nat>)
    requires reserve <= 100 && FreeAfterInit(FAR_MACHINE, reserve, free)
    ensures Placement(FAR_MACHINE, reserve) == 0x34_0000 && free == {} && BitmapsSafe(FAR_MACHINE, reserve, free)
    ensures !BitmapsInside(FAR_MACHINE, reserve)
    ensures forall f :: 0x34_0000 + 100 <= f < 0x34_0000 + BITMAP_FRAMES ==> !Covered(FAR_MACHINE, f)
  {
    var e := FAR_MACHINE[0];
    assert e.FirstPage() == 0x34_0000 && e.LastPage() == 0x34_0000 + 100;
    assert !Covered(FAR_MACHINE, 0x34_0000 + 100);
  }

  const REQ_PAGES: nat := 32

  /** One usable region of 200 pages starting at page 1. */
  const SMALL_MACHINE: seq<Entry> := [Entry(PAGE_SIZE, 200 * PAGE_SIZE, Usable)]

  lemma SmallMachineUnsafe(reserve: nat, free: set<nat>)
    requires reserve < BITMAP_FRAMES && FreeAfterInit(SMALL_MACHINE, reserve, free)
    ensures Addressable(SMALL_MACHINE) && Placement(SMALL_MACHINE, reserve) == 1
    ensures 1 + reserve in free && !BitmapsSafe(SMALL_MACHINE, reserve, free)
  {
    var e := SMALL_MACHINE[0];
    assert e.FirstPage() == 1 && e.LastPage() == 201;
    assert SMALL_MACHINE[0].Covers(1 + reserve);
    assert Covered(SMALL_MACHINE, 1 + reserve);
    assert Granted(SMALL_MACHINE, reserve, 1 + reserve);
    assert 1 + reserve in free && 1 <= 1 + reserve < 1 + BITMAP_FRAMES;
  }

  /** The free frames of some memory map, as a set. */
  lemma FreeSet(entries: seq<Entry>, reserve: nat) returns (free: set<nat>)
    ensures FreeAfterInit(entries, reserve, free)
  {
    free := set f: nat | f < LOW_FRAMES + MAX_PAGES && Granted(entries, reserve, f);
  }

  /** The bitmaps are protected on every memory map exactly when the reserve
      covers them; the 32 pages of the source do not. */
  lemma ReserveMustCoverBitmaps(reserve: nat)
    ensures (forall entries, free | Addressable(entries) && Placement(entries, reserve) != 0
                                    && FreeAfterInit(entries, reserve, free) ::
               BitmapsSafe(entries, reserve, free))
            <==> BITMAP_FRAMES <= reserve
    ensures REQ_PAGES < BITMAP_FRAMES
  {
    if reserve < BITMAP_FRAMES {
      var free := FreeSet(SMALL_MACHINE, reserve);
      SmallMachineUnsafe(reserve, free);
    }
  }

  /** With a covering reserve the bitmaps lie inside one offered region. */
  lemma BitmapsInsideRegion(entries: seq<Entry>, reserve: nat)
    requires BITMAP_FRAMES <= reserve && Placement(entries, reserve) != 0
    ensures BitmapsInside(entries, reserve)
  {
    PlacementMeaning(entries, reserve);
    var at := Placement(entries, reserve);
    var k :| 0 <= k < |entries| && entries[k].Fits(reserve) && entries[k].FirstPage() == at;
    forall f | at <= f < at + BITMAP_FRAMES
      ensures Covered(entries, f)
    {
      assert entries[k].Covers(f);
    }
  }

  /** One usable region of `n` pages starting at page 1. */
  function OneRegion(n: nat): seq<Entry> { [Entry(PAGE_SIZE, n * PAGE_SIZE, Usable)] }

  lemma OneRegionIs(n: nat, reserve: nat)
    requires 1 <= n < BITMAP_FRAMES && reserve <= n
    ensures Addressable(OneRegion(n)) && Placement(OneRegion(n), reserve) == 1 && !BitmapsInside(OneRegion(n), reserve)
  {
    var e := OneRegion(n)[0];
    assert e.FirstPage() == 1 && e.LastPage() == 1 + n;
    assert !Covered(OneRegion(n), 1 + n);
  }

  /** The bitmaps lie in offered memory on every memory map exactly when the reserve
      covers them. */
  lemma ReserveMustHoldBitmaps(reserve: nat)
    ensures (forall entries | Addressable(entries) && Placement(entries, reserve) != 0 :: BitmapsInside(entries, reserve))
            <==> BITMAP_FRAMES <= reserve
  {
    hide BitmapsInside, Addressable, Placement, OneRegion;
    if reserve < BITMAP_FRAMES {
      OneRegionIs(if reserve == 0 then 1 else reserve, reserve);
    } else {
      forall entries | Addressable(entries) && Placement(entries, reserve) != 0
        ensures BitmapsInside(entries, reserve)
      {
        BitmapsInsideRegion(entries, reserve);
      }
    }
  }
}
