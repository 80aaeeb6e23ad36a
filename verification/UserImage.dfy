/** Pages the ELF loader has mapped so far, and the bytes seen through them. */
module UserImage {
  import opened Basics
  import opened PageTables
  import opened AddressSpace

  const VA_LIMIT: nat := 0x1_0000_0000_0000

  /** Page number -> leaf entry, for the pages mapped since `ram0`. */
  type Image = map<nat, Word>

  function PageBase(n: nat): nat { n * 4096 }

  ghost predicate OwnsPage(ram: Ram, root: FrameNo, free: set<nat>, n: nat, e: Word) {
    && n < VA_PAGES
    && Translate(ram, root, PathOf(PageBase(n))) == Page(e)
    && UserAccess(ram, root, PathOf(PageBase(n)))
    && e.frame < |ram| && e.frame !in free && !IsTable(ram, root, e.frame)
  }

  /** Every page of the image has a data frame of its own, and user mode reaches it. */
  ghost predicate Owns(ram: Ram, root: FrameNo, free: set<nat>, image: Image) {
    && (forall n | n in image :: OwnsPage(ram, root, free, n, image[n]))
    && (forall m, n | m in image && n in image && m != n :: image[m].frame != image[n].frame)
  }

  ghost predicate OutsideSame(ram0: Ram, ram: Ram, root: FrameNo, image: Image) {
    && (forall n: nat | n < VA_PAGES && n !in image ::
          Translate(ram, root, PathOf(PageBase(n))) == Translate(ram0, root, PathOf(PageBase(n))))
    && (forall q: Path | IsPage(q) && NoHugeOn(ram0, root, q) :: NoHugeOn(ram, root, q))
  }

  ghost predicate Built(ram0: Ram, ram: Ram, root: FrameNo, free: set<nat>, image: Image) {
    Owns(ram, root, free, image) && OutsideSame(ram0, ram, root, image)
  }

  ghost predicate Inside(ram: Ram, image: Image, va: nat) {
    va / 4096 in image && image[va / 4096].frame < |ram|
  }

  ghost function ByteAt(ram: Ram, image: Image, va: nat): byte
    requires Inside(ram, image, va)
  {
    AsBytes(ram[image[va / 4096].frame])[va % 4096]
  }

  /** Reading through the page tables sees the image. */
  lemma ReadSeesImage(ram: Ram, root: FrameNo, free: set<nat>, image: Image, va: nat)
    requires Owns(ram, root, free, image) && va < VA_LIMIT && va / 4096 in image
    ensures Inside(ram, image, va)
    ensures ReadByte(ram, root, va) == Some(ByteAt(ram, image, va))
  {
    hide PathOf;
    var n := va / 4096;
    assert OwnsPage(ram, root, free, n, image[n]);
    assert PageNumber(va) == PageNumber(PageBase(n)) == n;
    SamePath(va, PageBase(n));
  }

  /** Bytes of `image` outside [lo, hi) are the same in both memories. */
  ghost predicate SameBytes(ram: Ram, ram': Ram, image: Image, lo: nat, hi: nat) {
    forall va: nat | Inside(ram, image, va) && !(lo <= va < hi) ::
      Inside(ram', image, va) && ByteAt(ram', image, va) == ByteAt(ram, image, va)
  }

  /** Mapping a fresh frame at a page, inside the image or outside: every other page
      keeps its bytes. */
  lemma MapExtendsImage(ram0: Ram, ram: Ram, free: set<nat>, ram': Ram, free': set<nat>, root: FrameNo,
                        image: Image, n: nat, e: Word, flags: Flags)
    requires Tree(ram, root, free)
    requires Built(ram0, ram, root, free, image) && n < VA_PAGES
    requires MapsPage(ram, free, ram', free', root, PathOf(PageBase(n)), e, flags, true)
    requires Present(e) && e.frame < |ram| && e.frame !in free && !IsTable(ram, root, e.frame)
    requires UserAccess(ram', root, PathOf(PageBase(n)))
    requires forall m | m in image :: image[m].frame != e.frame
    ensures Built(ram0, ram', root, free', image[n := e])
    ensures SameBytes(ram, ram', image, PageBase(n), PageBase(n + 1))
  {
    hide PathOf, MapsPage, NoHugeOn, UserAccess;
    OtherPagesStay(ram, free, ram', free', root, n, e, flags, true);
    NoNewUseOfTaken(ram, free, ram', free', root, n, e, flags, true);
    forall m | m in image
      ensures (m != n ==> OwnsPage(ram', root, free', m, image[m])) && ram'[image[m].frame] == ram[image[m].frame]
    {
      assert OwnsPage(ram, root, free, m, image[m]);
    }
    assert OwnsPage(ram', root, free', n, e);
  }

  /** Mapping a fresh frame at a page of the image, as two segments on one page do:
      reads there see what the fresh frame held, and no page leads to the old frame
      any more. */
  lemma RemapLosesPage(ram0: Ram, ram: Ram, free: set<nat>, ram': Ram, free': set<nat>, root: FrameNo,
                       image: Image, n: nat, e: Word, flags: Flags)
    requires Tree(ram, root, free) && Built(ram0, ram, root, free, image) && n < VA_PAGES && n in image
    requires MapsPage(ram, free, ram', free', root, PathOf(PageBase(n)), e, flags, true)
    requires Present(e) && e.frame < |ram| && e.frame !in free && !IsTable(ram, root, e.frame)
    requires UserAccess(ram', root, PathOf(PageBase(n)))
    requires forall m | m in image :: image[m].frame != e.frame
    ensures forall va: nat | va / 4096 == n :: ReadByte(ram', root, va) == Some(AsBytes(ram[e.frame])[va % 4096])
    ensures Owns(ram', root, free', image[n := e]) && forall m | m in image :: image[n := e][m].frame != image[n].frame
  {
    hide PathOf, MapsPage, NoHugeOn, ReadByte, SameBytes, IsTable, Translate, OutsideSame, UserAccess;
    MapExtendsImage(ram0, ram, free, ram', free', root, image, n, e, flags);
    NoNewUseOfTaken(ram, free, ram', free', root, n, e, flags, true);
    var image' := image[n := e];
    forall va: nat | va / 4096 == n
      ensures ReadByte(ram', root, va) == Some(AsBytes(ram[e.frame])[va % 4096])
    {
      ReadSeesImage(ram', root, free', image', va);
    }
  }

  /** A map_page call that ran out of frames leaves the image alone. */
  lemma FailedMapKeepsImage(ram0: Ram, ram: Ram, free: set<nat>, ram': Ram, free': set<nat>, root: FrameNo,
                            image: Image, n: nat, e: Word, flags: Flags)
    requires Tree(ram, root, free) && Built(ram0, ram, root, free, image) && n < VA_PAGES && Present(e)
    requires MapsPage(ram, free, ram', free', root, PathOf(PageBase(n)), e, flags, false)
    ensures Built(ram0, ram', root, free', image)
    ensures SameBytes(ram, ram', image, 0, 0)
  {
    hide PathOf, MapsPage, NoHugeOn, UserAccess;
    OtherPagesStay(ram, free, ram', free', root, n, e, flags, false);
    NoNewUseOfTaken(ram, free, ram', free', root, n, e, flags, false);
    forall m | m in image
      ensures OwnsPage(ram', root, free', m, image[m]) && ram'[image[m].frame] == ram[image[m].frame]
    {
      assert OwnsPage(ram, root, free, m, image[m]);
    }
  }

  lemma OtherPagesStay(ram: Ram, free: set<nat>, ram': Ram, free': set<nat>, root: FrameNo,
                       n: nat, e: Word, flags: Flags, ok: bool)
    requires n < VA_PAGES && Present(e) && Tree(ram, root, free)
    requires MapsPage(ram, free, ram', free', root, PathOf(PageBase(n)), e, flags, ok)
    ensures forall m: nat | m < VA_PAGES && (ok ==> m != n) ::
              Translate(ram', root, PathOf(PageBase(m))) == Translate(ram, root, PathOf(PageBase(m)))
              && (UserAccess(ram, root, PathOf(PageBase(m))) ==> UserAccess(ram', root, PathOf(PageBase(m))))
    ensures ok ==> Translate(ram', root, PathOf(PageBase(n))) == Page(e)
    ensures forall q: Path | IsPage(q) && NoHugeOn(ram, root, q) :: NoHugeOn(ram', root, q)
  {
    hide PathOf, UserAccess, UpperEntries;
    AccessStays(ram, free, ram', free', root, PathOf(PageBase(n)), e, flags, ok);
    forall m: nat | m < VA_PAGES && (ok ==> m != n)
      ensures Translate(ram', root, PathOf(PageBase(m))) == Translate(ram, root, PathOf(PageBase(m)))
      ensures UserAccess(ram, root, PathOf(PageBase(m))) ==> UserAccess(ram', root, PathOf(PageBase(m)))
    {
      assert PageNumber(PageBase(m)) == m && PageNumber(PageBase(n)) == n;
      SamePath(PageBase(m), PageBase(n));
    }
  }

  /** A frame that was neither free nor a table is still neither, and untouched. */
  lemma NoNewUseOfTaken(ram: Ram, free: set<nat>, ram': Ram, free': set<nat>, root: FrameNo,
                        n: nat, e: Word, flags: Flags, ok: bool)
    requires MapsPage(ram, free, ram', free', root, PathOf(PageBase(n)), e, flags, ok)
    ensures |ram'| == |ram|
    ensures forall f | 0 <= f < |ram| && f !in free && !IsTable(ram, root, f) ::
              f !in free' && !IsTable(ram', root, f) && ram'[f] == ram[f]
  {
    hide PathOf;
  }

  /** A store at `va` changes that byte of the image and no other. */
  lemma StoreInImage(ram0: Ram, ram: Ram, root: FrameNo, free: set<nat>, image: Image, va: nat, b: byte)
    requires Tree(ram, root, free)
    requires Built(ram0, ram, root, free, image) && va < VA_LIMIT && va / 4096 in image
    ensures Translate(ram, root, PathOf(va)) == Page(image[va / 4096])
    ensures var f := image[va / 4096].frame;
            && f < |ram| && !IsTable(ram, root, f)
            && var ram' := Stored(ram, f, va % 4096, b);
               && Built(ram0, ram', root, free, image)
               && SameBytes(ram, ram', image, va, va + 1)
               && Inside(ram', image, va) && ByteAt(ram', image, va) == b
  {
    hide PathOf;
    hide SameBytes, OutsideSame, ByteAt;
    var n := va / 4096;
    assert OwnsPage(ram, root, free, n, image[n]);
    assert PageNumber(va) == n && PageNumber(PageBase(n)) == n;
    SamePath(va, PageBase(n));
    var f := image[n].frame;
    var ram' := Stored(ram, f, va % 4096, b);
    StoreKeeps(ram, root, free, f, va % 4096, b);
    StoreOwns(ram, ram', root, free, image);
    StoreOutside(ram0, ram, ram', root, image);
    StoreBytes(ram, root, free, image, va, b);
  }

  lemma StoreBytes(ram: Ram, root: FrameNo, free: set<nat>, image: Image, va: nat, b: byte)
    requires Owns(ram, root, free, image) && va / 4096 in image && image[va / 4096].frame < |ram|
    ensures var ram' := Stored(ram, image[va / 4096].frame, va % 4096, b);
            && SameBytes(ram, ram', image, va, va + 1)
            && Inside(ram', image, va) && ByteAt(ram', image, va) == b
  {
    hide PathOf;
    hide OwnsPage;
    var f := image[va / 4096].frame;
    var ram' := Stored(ram, f, va % 4096, b);
    forall v: nat | Inside(ram, image, v) && v != va
      ensures Inside(ram', image, v) && ByteAt(ram', image, v) == ByteAt(ram, image, v)
    {
      if v / 4096 == va / 4096 {
        assert v % 4096 != va % 4096;
      } else {
        assert image[v / 4096].frame != f;
      }
    }
  }

  lemma AccessKept(ram: Ram, ram': Ram, root: FrameNo, page: Path)
    requires IsPage(page) && SameTables(ram, ram', root) && UserAccess(ram, root, page)
    requires forall t, i | IsTable(ram, root, t) :: Entry(ram', t, i) == Entry(ram, t, i)
    ensures UserAccess(ram', root, page)
  {
    hide Walk, Translate;
    forall k | 0 <= k <= 3
      ensures WalkWord(ram', root, page, k) == WalkWord(ram, root, page, k)
    {
      assert ToTable(page[..k]);
    }
  }

  lemma StoreOwns(ram: Ram, ram': Ram, root: FrameNo, free: set<nat>, image: Image)
    requires Owns(ram, root, free, image) && SameTables(ram, ram', root) && |ram'| == |ram|
    requires forall t, i | IsTable(ram, root, t) :: Entry(ram', t, i) == Entry(ram, t, i)
    ensures Owns(ram', root, free, image)
  {
    forall n | n in image
      ensures OwnsPage(ram', root, free, n, image[n])
    {
      assert OwnsPage(ram, root, free, n, image[n]);
      assert !IsTable(ram, root, image[n].frame);
      AccessKept(ram, ram', root, PathOf(PageBase(n)));
    }
  }

  lemma StoreOutside(ram0: Ram, ram: Ram, ram': Ram, root: FrameNo, image: Image)
    requires OutsideSame(ram0, ram, root, image) && SameTables(ram, ram', root)
    requires |ram'| == |ram|
    requires forall t, i | IsTable(ram, root, t) :: Entry(ram', t, i) == Entry(ram, t, i)
    ensures OutsideSame(ram0, ram', root, image)
  {
    forall q: Path | IsPage(q) && NoHugeOn(ram, root, q)
      ensures NoHugeOn(ram', root, q)
    {
      forall k | 0 <= k < 3 && Walk(ram', root, q[..k]).Some?
        ensures NotHuge(Entry(ram', Walk(ram', root, q[..k]).value, q[k]))
      {
        assert ToTable(q[..k]);
        assert IsTable(ram, root, Walk(ram, root, q[..k]).value);
      }
    }
  }
}
