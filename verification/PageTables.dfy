/** Four-level page tables as map_page (mm.c) builds them: words, frames, the
    pure walk, and what each of its writes does to every walk. */
module PageTables {
  import opened Basics

  type FrameNo = n: nat | n < 0x100_0000_0000

  /** A 64-bit table entry at its field boundaries: bits 12-51 hold a frame
      number, bits 0-11 and 52-63 hold flags. */
  datatype Word = Word(frame: FrameNo, low: bv12, high: bv12)

  /** The flag argument of map_page: no address bits. */
  datatype Flags = Flags(low: bv12, high: bv12)

  const PRESENT: bv12 := 0x001
  const RW: bv12 := 0x002
  const USER: bv12 := 0x004
  const PWT: bv12 := 0x008
  const PCD: bv12 := 0x010
  const NO_EXEC: bv12 := 0x800

  /** A 4 KB frame, seen as 512 entries or as 4096 bytes. */
  datatype FrameView = Table(words: seq<Word>) | Data(bytes: seq<byte>)

  type Frame = f: FrameView | (f.Table? ==> |f.words| == 512) && (f.Data? ==> |f.bytes| == 4096)
    witness Table(seq(512, _ => ZERO_WORD))

  type Ram = seq<Frame>

  const ZERO_WORD := Word(0, 0, 0)

  function ZeroTable(): (f: Frame)
    ensures f.Table? && forall i :: 0 <= i < 512 ==> f.words[i] == ZERO_WORD
  {
    Table(seq(512, _ => ZERO_WORD))
  }

  predicate Present(e: Word) { e.low & 0x001 != 0 }
  predicate Huge(e: Word) { e.low & 0x080 != 0 }
  predicate PointsToTable(e: Word) { Present(e) && !Huge(e) }
  predicate NotHuge(e: Word) { Present(e) ==> PointsToTable(e) }

  /** phys | flags */
  function Or(phys: Word, flags: Flags): Word {
    Word(phys.frame, phys.low | flags.low, phys.high | flags.high)
  }

  /** The bits map_page passes on to the intermediate levels. */
  function Gained(flags: Flags): bv12 {
    (flags.low & USER) | (flags.low & (PWT | PCD))
  }

  function Gain(e: Word, g: bv12): Word { e.(low := e.low | g) }

  function TableWord(f: FrameNo, g: bv12): Word { Word(f, PRESENT | RW | g, 0) }

  lemma GainedBits(flags: Flags, e: Word, f: FrameNo)
    ensures var g := Gained(flags);
            && Present(Gain(e, g)) == Present(e) && Huge(Gain(e, g)) == Huge(e)
            && PointsToTable(TableWord(f, g))
  {
  }

  lemma ZeroWord()
    ensures !Present(ZERO_WORD)
  {
  }

  // ---------------------------------------------------------------------------
  // Walking
  // ---------------------------------------------------------------------------

  /** Table indices from the top level down; four of them name a page. */
  type Path = seq<nat>

  predicate Indices(p: Path) { forall i :: 0 <= i < |p| ==> p[i] < 512 }
  predicate IsPage(p: Path) { |p| == 4 && Indices(p) }
  predicate ToTable(p: Path) { |p| <= 3 && Indices(p) }

  function PathOf(va: nat): (p: Path)
    ensures IsPage(p)
  {
    [va / 0x80_0000_0000 % 512, va / 0x4000_0000 % 512, va / 0x20_0000 % 512, va / 0x1000 % 512]
  }

  function Entry(ram: Ram, t: nat, i: nat): Word {
    if t < |ram| && ram[t].Table? && i < 512 then ram[t].words[i] else ZERO_WORD
  }

  function Put(ram: Ram, t: nat, i: nat, w: Word): (ram': Ram)
    requires t < |ram| && ram[t].Table? && i < 512
    ensures |ram'| == |ram|
    ensures forall u :: 0 <= u < |ram| && u != t ==> ram'[u] == ram[u]
    ensures ram'[t].Table?
    ensures forall u, j :: Entry(ram', u, j) == if u == t && j == i then w else Entry(ram, u, j)
  {
    ram[t := Table(ram[t].words[i := w])]
  }

  /** The table frame a path leads to, if every entry on it points to a table. */
  function Walk(ram: Ram, root: FrameNo, p: Path): Option<FrameNo>
    decreases |p|
  {
    if p == [] then Some(root)
    else
      var up := Walk(ram, root, p[..|p| - 1]);
      if up.None? then None
      else
        var e := Entry(ram, up.value, p[|p| - 1]);
        if PointsToTable(e) then Some(e.frame) else None
  }

  datatype Translation = NotMapped | Page(entry: Word) | HugePage(level: nat, leaf: Word)

  /** What the processor does with the remaining indices, starting at table `t`. */
  function TranslateFrom(ram: Ram, t: nat, p: Path): Translation
    requires p != []
    decreases |p|
  {
    var e := Entry(ram, t, p[0]);
    if !Present(e) then NotMapped
    else if |p| == 1 then Page(e)
    else if Huge(e) then HugePage(|p|, e)
    else TranslateFrom(ram, e.frame, p[1..])
  }

  function Translate(ram: Ram, root: FrameNo, p: Path): Translation
    requires IsPage(p)
  {
    TranslateFrom(ram, root, p)
  }

  ghost predicate IsTable(ram: Ram, root: FrameNo, f: nat) {
    exists p: Path :: ToTable(p) && Walk(ram, root, p) == Some(f)
  }

  ghost predicate LiveTable(ram: Ram, free: set<nat>, t: nat) {
    t < |ram| && ram[t].Table? && t !in free
  }

  /** The tables form a tree of distinct frames, none of them free. */
  ghost predicate Tree(ram: Ram, root: FrameNo, free: set<nat>) {
    && (forall p: Path | ToTable(p) && Walk(ram, root, p).Some? ::
          LiveTable(ram, free, Walk(ram, root, p).value))
    && (forall p: Path, q: Path | ToTable(p) && ToTable(q) && Walk(ram, root, p).Some?
                                  && Walk(ram, root, p) == Walk(ram, root, q) :: p == q)
  }

  /** No huge-page entry on the upper three levels of the walk to `p`. */
  ghost predicate NoHugeOn(ram: Ram, root: FrameNo, p: Path)
    requires IsPage(p)
  {
    forall k | 0 <= k < 3 && Walk(ram, root, p[..k]).Some? ::
      Present(Entry(ram, Walk(ram, root, p[..k]).value, p[k])) ==>
        PointsToTable(Entry(ram, Walk(ram, root, p[..k]).value, p[k]))
  }

  // ---------------------------------------------------------------------------
  // The three writes
  // ---------------------------------------------------------------------------

  /** Adding flag bits to an entry leaves every walk alone. */
  lemma {:induction false} GainWalk(ram: Ram, root: FrameNo, t: nat, i: nat, flags: Flags, q: Path)
    requires t < |ram| && ram[t].Table? && i < 512
    ensures Walk(Put(ram, t, i, Gain(Entry(ram, t, i), Gained(flags))), root, q) == Walk(ram, root, q)
  {
    if q != [] {
      GainWalk(ram, root, t, i, flags, q[..|q| - 1]);
      GainedBits(flags, Entry(ram, t, i), 0);
    }
  }

  function HangTable(ram: Ram, t: nat, i: nat, f: FrameNo, g: bv12): (ram': Ram)
    requires t < |ram| && ram[t].Table? && i < 512 && f < |ram| && f != t
    ensures |ram'| == |ram|
    ensures forall j :: Entry(ram', f, j) == ZERO_WORD
    ensures forall u, j :: u != f ==>
                           Entry(ram', u, j) == if u == t && j == i then TableWord(f, g) else Entry(ram, u, j)
    ensures forall u :: 0 <= u < |ram| && u != t && u != f ==> ram'[u] == ram[u]
    ensures ram'[t].Table? && ram'[f].Table?
  {
    Put(ram[f := ZeroTable()], t, i, TableWord(f, g))
  }

  /** Hanging a free, zeroed frame below an empty entry adds exactly one walk. */
  lemma {:induction false} HangWalk(ram: Ram, root: FrameNo, free: set<nat>, p: Path, i: nat,
                                    f: FrameNo, flags: Flags, q: Path)
    requires Tree(ram, root, free) && |p| <= 2 && Indices(p) && i < 512 && ToTable(q)
    requires Walk(ram, root, p).Some? && !Present(Entry(ram, Walk(ram, root, p).value, i))
    requires f in free && f < |ram|
    ensures var t := Walk(ram, root, p).value;
            Walk(HangTable(ram, t, i, f, Gained(flags)), root, q) ==
            if q == p + [i] then Some(f) else Walk(ram, root, q)
  {
    hide PointsToTable, Present, TableWord, Gained;
    var t := Walk(ram, root, p).value;
    HangBits(Entry(ram, t, i), f, flags);
    assert Walk(ram, root, p + [i]) == None by {
      assert (p + [i])[..|p|] == p;
    }
    if q != [] {
      var q0, j := q[..|q| - 1], q[|q| - 1];
      LastSame(q0, j, p, i);
      HangWalk(ram, root, free, p, i, f, flags, q0);
      if Walk(ram, root, q0).Some? {
        assert Walk(ram, root, q0).value == t <==> q0 == p;
      }
    }
  }

  lemma LastSame(q: Path, j: nat, p: Path, i: nat)
    ensures q + [j] == p + [i] <==> q == p && j == i
  {
    assert (q + [j])[..|q|] == q && (p + [i])[..|p|] == p;
  }

  lemma HangBits(e: Word, f: FrameNo, flags: Flags)
    requires !Present(e)
    ensures !PointsToTable(e) && !PointsToTable(ZERO_WORD)
    ensures PointsToTable(TableWord(f, Gained(flags))) && TableWord(f, Gained(flags)).frame == f
  {
    GainedBits(flags, ZERO_WORD, f);
    ZeroWord();
  }

  /** Writing a leaf entry changes no walk to a table. */
  lemma {:induction false} LeafWalk(ram: Ram, root: FrameNo, free: set<nat>, p: Path, i: nat, w: Word, q: Path)
    requires Tree(ram, root, free) && |p| == 3 && Indices(p) && i < 512 && ToTable(q)
    requires Walk(ram, root, p).Some?
    ensures Walk(Put(ram, Walk(ram, root, p).value, i, w), root, q) == Walk(ram, root, q)
  {
    if q != [] {
      LeafWalk(ram, root, free, p, i, w, q[..|q| - 1]);
    }
  }

  // ---------------------------------------------------------------------------
  // What a change of the tables keeps
  // ---------------------------------------------------------------------------

  /** Level `k` of the walk to page `q` reads alike before and after. */
  ghost predicate LevelAgrees(ram: Ram, ram': Ram, root: FrameNo, q: Path, k: nat)
    requires IsPage(q) && k <= 3
  {
    && Walk(ram', root, q[..k]) == Walk(ram, root, q[..k])
    && (Walk(ram, root, q[..k]).Some? ==>
          EntryAgrees(Entry(ram, Walk(ram, root, q[..k]).value, q[k]),
                      Entry(ram', Walk(ram, root, q[..k]).value, q[k]), k < 3))
  }

  predicate EntryAgrees(e: Word, e': Word, upper: bool) {
    e' == e || (upper && PointsToTable(e) && PointsToTable(e') && e.frame == e'.frame)
  }

  lemma {:induction false} TranslateAgrees(ram: Ram, ram': Ram, root: FrameNo, q: Path, k: nat)
    requires IsPage(q) && k <= 3 && Walk(ram, root, q[..k]).Some?
    requires forall j :: k <= j <= 3 ==> LevelAgrees(ram, ram', root, q, j)
    ensures var u := Walk(ram, root, q[..k]).value;
            TranslateFrom(ram', u, q[k..]) == TranslateFrom(ram, u, q[k..])
    decreases 3 - k
  {
    var u := Walk(ram, root, q[..k]).value;
    assert LevelAgrees(ram, ram', root, q, k);
    var e := Entry(ram, u, q[k]);
    if k < 3 && PointsToTable(e) {
      assert q[..k + 1][..k] == q[..k];
      assert q[k..][1..] == q[k + 1..];
      TranslateAgrees(ram, ram', root, q, k + 1);
    }
  }

  /** The state after some writes of map_page, against the state before:
      same tree shape plus fresh tables, same translations, nothing else
      touched; entries that were present at most gained the bits `g`. */
  ghost predicate Extends(ram: Ram, free: set<nat>, ram': Ram, free': set<nat>, root: FrameNo, g: bv12) {
    && Tree(ram', root, free')
    && free' <= free && |ram'| == |ram|
    && (forall q: Path | IsPage(q) :: Translate(ram', root, q) == Translate(ram, root, q))
    && (forall q: Path | IsPage(q) && NoHugeOn(ram, root, q) :: NoHugeOn(ram', root, q))
    && (forall q: Path | ToTable(q) && Walk(ram, root, q).Some? :: Walk(ram', root, q) == Walk(ram, root, q))
    && (forall q: Path | ToTable(q) && Walk(ram', root, q).Some? ::
          Walk(ram, root, q) == Walk(ram', root, q) || Walk(ram', root, q).value in free)
    && (forall f | 0 <= f < |ram| && f !in free && !IsTable(ram, root, f) :: ram'[f] == ram[f])
    && (forall t, i | t !in free && Present(Entry(ram, t, i)) ::
          Entry(ram', t, i) == Entry(ram, t, i) || Entry(ram', t, i) == Gain(Entry(ram, t, i), g))
  }

  lemma GainTwice(e: Word, g: bv12)
    ensures Gain(Gain(e, g), g) == Gain(e, g)
  {
  }

  lemma ExtendsRefl(ram: Ram, free: set<nat>, root: FrameNo, g: bv12)
    requires Tree(ram, root, free)
    ensures Extends(ram, free, ram, free, root, g)
  {
  }

  lemma ExtendsTrans(ram: Ram, free: set<nat>, ram1: Ram, free1: set<nat>, ram2: Ram, free2: set<nat>,
                     root: FrameNo, flags: Flags)
    requires Extends(ram, free, ram1, free1, root, Gained(flags))
    requires Extends(ram1, free1, ram2, free2, root, Gained(flags))
    ensures Extends(ram, free, ram2, free2, root, Gained(flags))
  {
    forall f | 0 <= f < |ram| && f !in free && !IsTable(ram, root, f)
      ensures ram2[f] == ram[f]
    {
      assert !IsTable(ram1, root, f);
    }
    forall t, i | t !in free && Present(Entry(ram, t, i))
      ensures Entry(ram2, t, i) == Entry(ram, t, i) || Entry(ram2, t, i) == Gain(Entry(ram, t, i), Gained(flags))
    {
      var e := Entry(ram, t, i);
      GainTwice(e, Gained(flags));
      GainedBits(flags, e, 0);
      assert Present(Entry(ram1, t, i));
    }
  }

  /** The walk can be resumed at any level it reaches. */
  lemma {:induction false} TranslateAt(ram: Ram, root: FrameNo, q: Path, k: nat)
    requires IsPage(q) && k <= 3 && Walk(ram, root, q[..k]).Some?
    ensures Translate(ram, root, q) == TranslateFrom(ram, Walk(ram, root, q[..k]).value, q[k..])
  {
    if k == 0 {
      assert q[..0] == [] && q[0..] == q;
    } else {
      assert q[..k][..k - 1] == q[..k - 1];
      assert q[k - 1..][1..] == q[k..];
      TranslateAt(ram, root, q, k - 1);
    }
  }

  lemma SameTranslation(ram: Ram, ram': Ram, root: FrameNo, q: Path)
    requires IsPage(q) && forall j :: 0 <= j <= 3 ==> LevelAgrees(ram, ram', root, q, j)
    ensures Translate(ram', root, q) == Translate(ram, root, q)
  {
    assert q[..0] == [] && q[0..] == q;
    TranslateAgrees(ram, ram', root, q, 0);
  }

  /** Second branch of each level of map_page: the entry already points to a table. */
  lemma GainExtends(ram: Ram, root: FrameNo, free: set<nat>, p: Path, i: nat, flags: Flags)
    requires Tree(ram, root, free) && |p| <= 2 && Indices(p) && i < 512
    requires Walk(ram, root, p).Some? && PointsToTable(Entry(ram, Walk(ram, root, p).value, i))
    ensures var t := Walk(ram, root, p).value;
            var ram' := Put(ram, t, i, Gain(Entry(ram, t, i), Gained(flags)));
            && Extends(ram, free, ram', free, root, Gained(flags))
            && Walk(ram', root, p + [i]) == Some(Entry(ram, t, i).frame)
  {
    hide Translate, NoHugeOn, Gain, Gained, Present, Huge, PointsToTable, LiveTable, Walk, Tree;
    TableAt(ram, root, free, p);
    var t := Walk(ram, root, p).value;
    var e := Entry(ram, t, i);
    var ram' := Put(ram, t, i, Gain(e, Gained(flags)));
    forall q: Path
      ensures Walk(ram', root, q) == Walk(ram, root, q)
    {
      GainWalk(ram, root, t, i, flags, q);
    }
    forall q | IsPage(q)
      ensures Translate(ram', root, q) == Translate(ram, root, q)
    {
      GainTranslation(ram, ram', root, free, p, i, flags, q);
    }
    WalkNext(ram, root, p, i);
    GainTree(ram, ram', root, free, t, i, Gain(e, Gained(flags)));
    GainNoHuge(ram, ram', root, t, i, flags);
  }

  lemma WalkNext(ram: Ram, root: FrameNo, p: Path, i: nat)
    requires Walk(ram, root, p).Some? && PointsToTable(Entry(ram, Walk(ram, root, p).value, i))
    ensures Walk(ram, root, p + [i]) == Some(Entry(ram, Walk(ram, root, p).value, i).frame)
  {
    assert (p + [i])[..|p|] == p;
  }

  lemma GainTree(ram: Ram, ram': Ram, root: FrameNo, free: set<nat>, t: nat, i: nat, w: Word)
    requires Tree(ram, root, free) && t < |ram| && ram[t].Table? && i < 512 && ram' == Put(ram, t, i, w)
    requires forall q: Path :: Walk(ram', root, q) == Walk(ram, root, q)
    ensures Tree(ram', root, free)
  {
    hide Walk;
  }

  lemma TableAt(ram: Ram, root: FrameNo, free: set<nat>, p: Path)
    requires Tree(ram, root, free) && |p| <= 2 && Indices(p) && Walk(ram, root, p).Some?
    ensures ToTable(p) && IsTable(ram, root, Walk(ram, root, p).value)
    ensures var t := Walk(ram, root, p).value; LiveTable(ram, free, t) && t < |ram| && ram[t].Table? && t !in free
  {
    assert ToTable(p);
  }

  lemma GainNoHuge(ram: Ram, ram': Ram, root: FrameNo, t: nat, i: nat, flags: Flags)
    requires t < |ram| && ram[t].Table? && i < 512
    requires ram' == Put(ram, t, i, Gain(Entry(ram, t, i), Gained(flags)))
    requires forall q: Path :: Walk(ram', root, q) == Walk(ram, root, q)
    ensures forall q: Path | IsPage(q) && NoHugeOn(ram, root, q) :: NoHugeOn(ram', root, q)
  {
    GainedBits(flags, Entry(ram, t, i), 0);
  }

  lemma GainTranslation(ram: Ram, ram': Ram, root: FrameNo, free: set<nat>, p: Path, i: nat, flags: Flags, q: Path)
    requires Tree(ram, root, free) && |p| <= 2 && Indices(p) && i < 512 && IsPage(q)
    requires Walk(ram, root, p).Some? && PointsToTable(Entry(ram, Walk(ram, root, p).value, i))
    requires LiveTable(ram, free, Walk(ram, root, p).value)
    requires var t := Walk(ram, root, p).value;
             ram' == Put(ram, t, i, Gain(Entry(ram, t, i), Gained(flags)))
    ensures Translate(ram', root, q) == Translate(ram, root, q)
  {
    var t := Walk(ram, root, p).value;
    GainedBits(flags, Entry(ram, t, i), 0);
    LeafLevelDiffers(ram, root, free, p, q);
    forall j | 0 <= j <= 3
      ensures LevelAgrees(ram, ram', root, q, j)
    {
      GainWalk(ram, root, t, i, flags, q[..j]);
    }
    SameTranslation(ram, ram', root, q);
  }

  /** A table at a level above the last is not a last-level table. */
  lemma LeafLevelDiffers(ram: Ram, root: FrameNo, free: set<nat>, p: Path, q: Path)
    requires Tree(ram, root, free) && |p| <= 2 && Indices(p) && Walk(ram, root, p).Some? && IsPage(q)
    ensures Walk(ram, root, q[..3]) != Walk(ram, root, p)
  {
    assert ToTable(p) && ToTable(q[..3]);
  }

  /** First branch of each level: a fresh zeroed frame is hung below the entry. */
  lemma HangExtends(ram: Ram, root: FrameNo, free: set<nat>, p: Path, i: nat, f: FrameNo, flags: Flags)
    requires Tree(ram, root, free) && |p| <= 2 && Indices(p) && i < 512
    requires Walk(ram, root, p).Some? && !Present(Entry(ram, Walk(ram, root, p).value, i))
    requires f in free && f < |ram|
    ensures var t := Walk(ram, root, p).value;
            && t != f && t < |ram| && ram[t].Table?
            && var ram' := HangTable(ram, t, i, f, Gained(flags));
               Extends(ram, free, ram', free - {f}, root, Gained(flags))
               && Walk(ram', root, p + [i]) == Some(f)
  {
    hide Translate, TableWord, Gained, Gain, NoHugeOn, Put, Tree, Walk, IsTable, Indices, HangTable, Entry, Present;
    HangAt(ram, root, free, p, i, f);
    var t := Walk(ram, root, p).value;
    var ram' := HangTable(ram, t, i, f, Gained(flags));
    HangWalks(ram, root, free, p, i, f, flags);
    HangTree(ram, ram', root, free, p, i, f, flags);
    HangPages(ram, ram', root, free, p, i, f, flags);
    HangFrames(ram, ram', root, free, p, i, f, flags);
  }

  lemma HangAt(ram: Ram, root: FrameNo, free: set<nat>, p: Path, i: nat, f: FrameNo)
    requires Tree(ram, root, free) && |p| <= 2 && Indices(p) && i < 512 && Walk(ram, root, p).Some? && f in free
    ensures ToTable(p) && ToTable(p + [i]) && LiveTable(ram, free, Walk(ram, root, p).value)
    ensures Walk(ram, root, p).value != f && IsTable(ram, root, Walk(ram, root, p).value)
  {
    hide Walk;
    assert ToTable(p);
  }

  /** Frames and entries that hanging a table leaves alone. */
  lemma HangFrames(ram: Ram, ram': Ram, root: FrameNo, free: set<nat>, p: Path, i: nat, f: FrameNo, flags: Flags)
    requires Walk(ram, root, p).Some? && IsTable(ram, root, Walk(ram, root, p).value) && i < 512
    requires LiveTable(ram, free, Walk(ram, root, p).value) && f in free && f < |ram|
    requires !Present(Entry(ram, Walk(ram, root, p).value, i))
    requires ram' == HangTable(ram, Walk(ram, root, p).value, i, f, Gained(flags))
    ensures forall u | 0 <= u < |ram| && u !in free && !IsTable(ram, root, u) :: ram'[u] == ram[u]
    ensures forall u, j | u !in free && Present(Entry(ram, u, j)) :: Entry(ram', u, j) == Entry(ram, u, j)
  {
    hide Walk, TableWord, Gained, Put, IsTable;
  }

  lemma HangWalks(ram: Ram, root: FrameNo, free: set<nat>, p: Path, i: nat, f: FrameNo, flags: Flags)
    requires Tree(ram, root, free) && |p| <= 2 && Indices(p) && i < 512 && Walk(ram, root, p).Some?
    requires LiveTable(ram, free, Walk(ram, root, p).value)
    requires !Present(Entry(ram, Walk(ram, root, p).value, i)) && f in free && f < |ram|
    ensures forall q: Path | ToTable(q) ::
              Walk(HangTable(ram, Walk(ram, root, p).value, i, f, Gained(flags)), root, q)
              == if q == p + [i] then Some(f) else Walk(ram, root, q)
    ensures Walk(ram, root, p + [i]) == None
  {
    forall q: Path | ToTable(q)
      ensures Walk(HangTable(ram, Walk(ram, root, p).value, i, f, Gained(flags)), root, q)
              == if q == p + [i] then Some(f) else Walk(ram, root, q)
    {
      HangWalk(ram, root, free, p, i, f, flags, q);
    }
    assert (p + [i])[..|p|] == p;
  }

  lemma HangPages(ram: Ram, ram': Ram, root: FrameNo, free: set<nat>, p: Path, i: nat, f: FrameNo, flags: Flags)
    requires Tree(ram, root, free) && |p| <= 2 && Indices(p) && i < 512 && Walk(ram, root, p).Some?
    requires LiveTable(ram, free, Walk(ram, root, p).value)
    requires !Present(Entry(ram, Walk(ram, root, p).value, i)) && f in free && f < |ram|
    requires ram' == HangTable(ram, Walk(ram, root, p).value, i, f, Gained(flags))
    requires forall q: Path | ToTable(q) ::
               Walk(ram', root, q) == if q == p + [i] then Some(f) else Walk(ram, root, q)
    ensures forall q: Path | IsPage(q) :: Translate(ram', root, q) == Translate(ram, root, q)
    ensures forall q: Path | IsPage(q) && NoHugeOn(ram, root, q) :: NoHugeOn(ram', root, q)
  {
    hide Translate, NoHugeOn;
    forall q: Path | IsPage(q)
      ensures Translate(ram', root, q) == Translate(ram, root, q)
      ensures NoHugeOn(ram, root, q) ==> NoHugeOn(ram', root, q)
    {
      HangTranslation(ram, root, free, p, i, f, flags, q);
      if NoHugeOn(ram, root, q) {
        HangNoHuge(ram, ram', root, free, p, i, f, flags, q);
      }
    }
  }

  lemma HangNoHuge(ram: Ram, ram': Ram, root: FrameNo, free: set<nat>, p: Path, i: nat, f: FrameNo,
                   flags: Flags, q: Path)
    requires Tree(ram, root, free) && |p| <= 2 && Indices(p) && i < 512 && Walk(ram, root, p).Some?
    requires f in free && f < |ram| && IsPage(q) && NoHugeOn(ram, root, q)
    requires LiveTable(ram, free, Walk(ram, root, p).value)
    requires ram' == HangTable(ram, Walk(ram, root, p).value, i, f, Gained(flags))
    requires forall q: Path | ToTable(q) ::
               Walk(ram', root, q) == if q == p + [i] then Some(f) else Walk(ram, root, q)
    ensures NoHugeOn(ram', root, q)
  {
    ZeroWord();
    GainedBits(flags, ZERO_WORD, f);
    forall k | 0 <= k < 3 && Walk(ram', root, q[..k]).Some?
      ensures Present(Entry(ram', Walk(ram', root, q[..k]).value, q[k])) ==>
                PointsToTable(Entry(ram', Walk(ram', root, q[..k]).value, q[k]))
    {
      assert ToTable(q[..k]);
      if q[..k] != p + [i] {
        assert LiveTable(ram, free, Walk(ram, root, q[..k]).value);
      }
    }
  }

  lemma HangTree(ram: Ram, ram': Ram, root: FrameNo, free: set<nat>, p: Path, i: nat, f: FrameNo, flags: Flags)
    requires Tree(ram, root, free) && |p| <= 2 && Indices(p) && i < 512 && Walk(ram, root, p).Some?
    requires f in free && f < |ram| && Walk(ram, root, p).value != f
    requires LiveTable(ram, free, Walk(ram, root, p).value)
    requires ram' == HangTable(ram, Walk(ram, root, p).value, i, f, Gained(flags))
    requires forall q: Path | ToTable(q) ::
               Walk(ram', root, q) == if q == p + [i] then Some(f) else Walk(ram, root, q)
    ensures Tree(ram', root, free - {f})
  {
    forall q: Path | ToTable(q) && Walk(ram', root, q).Some?
      ensures LiveTable(ram', free - {f}, Walk(ram', root, q).value)
    {
      if q != p + [i] {
        assert LiveTable(ram, free, Walk(ram, root, q).value);
      }
    }
  }

  lemma HangTranslation(ram: Ram, root: FrameNo, free: set<nat>, p: Path, i: nat, f: FrameNo,
                        flags: Flags, q: Path)
    requires Tree(ram, root, free) && |p| <= 2 && Indices(p) && i < 512 && Walk(ram, root, p).Some?
    requires !Present(Entry(ram, Walk(ram, root, p).value, i))
    requires f in free && f < |ram| && IsPage(q)
    requires LiveTable(ram, free, Walk(ram, root, p).value)
    ensures Translate(HangTable(ram, Walk(ram, root, p).value, i, f, Gained(flags)), root, q)
            == Translate(ram, root, q)
  {
    hide TableWord, Gained;
    var t := Walk(ram, root, p).value;
    var ram' := HangTable(ram, t, i, f, Gained(flags));
    var n := |p|;
    forall k | 0 <= k <= 3
      ensures ToTable(q[..k]) && Walk(ram', root, q[..k]) == if q[..k] == p + [i] then Some(f) else Walk(ram, root, q[..k])
    {
      HangWalk(ram, root, free, p, i, f, flags, q[..k]);
    }
    if q[..n + 1] == p + [i] {
      HangBelow(ram, ram', root, p, i, f, flags, q);
    } else {
      HangBeside(ram, ram', root, free, p, i, f, flags, q);
    }
  }

  /** Pages below the new table: not mapped before, not mapped now. */
  lemma HangBelow(ram: Ram, ram': Ram, root: FrameNo, p: Path, i: nat, f: FrameNo, flags: Flags, q: Path)
    requires |p| <= 2 && i < 512 && Walk(ram, root, p).Some? && IsPage(q) && q[..|p| + 1] == p + [i]
    requires !Present(Entry(ram, Walk(ram, root, p).value, i))
    requires var t := Walk(ram, root, p).value;
             t < |ram| && ram[t].Table? && f < |ram| && f != t && ram' == HangTable(ram, t, i, f, Gained(flags))
    requires Walk(ram', root, q[..|p| + 1]) == Some(f)
    ensures Translate(ram', root, q) == Translate(ram, root, q) == NotMapped
  {
    var n := |p|;
    assert q[..n] == (p + [i])[..n] == p;
    assert q[n] == (p + [i])[n] == i;
    TranslateAt(ram, root, q, n);
    TranslateAt(ram', root, q, n + 1);
    ZeroWord();
  }

  lemma HangBeside(ram: Ram, ram': Ram, root: FrameNo, free: set<nat>, p: Path, i: nat, f: FrameNo,
                   flags: Flags, q: Path)
    requires Tree(ram, root, free) && |p| <= 2 && Indices(p) && i < 512 && Walk(ram, root, p).Some?
    requires f in free && f < |ram| && IsPage(q) && q[..|p| + 1] != p + [i]
    requires LiveTable(ram, free, Walk(ram, root, p).value)
    requires ram' == HangTable(ram, Walk(ram, root, p).value, i, f, Gained(flags))
    requires forall k | 0 <= k <= 3 ::
               Walk(ram', root, q[..k]) == if q[..k] == p + [i] then Some(f) else Walk(ram, root, q[..k])
    ensures Translate(ram', root, q) == Translate(ram, root, q)
  {
    assert ToTable(p);
    forall j | 0 <= j <= 3
      ensures LevelAgrees(ram, ram', root, q, j)
    {
      assert ToTable(q[..j]);
      if q[..j] == p {
        assert q[..j + 1] == p + [q[j]];
      }
    }
    SameTranslation(ram, ram', root, q);
  }

  /** The last write: the leaf entry of page `p` becomes `w`. */
  lemma LeafWrite(ram: Ram, root: FrameNo, free: set<nat>, p: Path, w: Word)
    requires Tree(ram, root, free) && IsPage(p) && Walk(ram, root, p[..3]).Some?
    ensures var t := Walk(ram, root, p[..3]).value;
            && t < |ram| && ram[t].Table?
            && var ram' := Put(ram, t, p[3], w);
               && Tree(ram', root, free)
               && (forall q: Path | ToTable(q) :: Walk(ram', root, q) == Walk(ram, root, q))
               && Translate(ram', root, p) == (if Present(w) then Page(w) else NotMapped)
               && (forall q: Path | IsPage(q) && q != p :: Translate(ram', root, q) == Translate(ram, root, q))
  {
    assert ToTable(p[..3]);
    var t := Walk(ram, root, p[..3]).value;
    var ram' := Put(ram, t, p[3], w);
    forall q: Path | ToTable(q)
      ensures Walk(ram', root, q) == Walk(ram, root, q)
    {
      LeafWalk(ram, root, free, p[..3], p[3], w, q);
    }
    TranslateAt(ram', root, p, 3);
    forall q | IsPage(q) && q != p
      ensures Translate(ram', root, q) == Translate(ram, root, q)
    {
      forall j | 0 <= j <= 3
        ensures LevelAgrees(ram, ram', root, q, j)
      {
        assert ToTable(q[..j]);
        if q[..j] == p[..3] {
          assert j == 3;
          assert q == q[..3] + [q[3]] && p == p[..3] + [p[3]];
        }
      }
      SameTranslation(ram, ram', root, q);
    }
  }

  // ---------------------------------------------------------------------------
  // What the entries above the leaf hold
  // ---------------------------------------------------------------------------

  /** Entry `k` on the way to a page, 0 where no table is. */
  function WalkWord(ram: Ram, root: FrameNo, page: Path, k: nat): Word
    requires IsPage(page) && k <= 3
  {
    var t := Walk(ram, root, page[..k]);
    if t.Some? then Entry(ram, t.value, page[k]) else ZERO_WORD
  }

  /** An upper-level entry behind map_page against the one before: the bits of `m`
      are added to one that was present; one that is new has them, PRESENT and RW. */
  predicate Passed(e: Word, e': Word, m: bv12) {
    e' == if Present(e) then Word(e.frame, e.low | m, e.high) else Word(e'.frame, 0x003 | m, 0)
  }

  /** One level of map_page: of the entries in taken frames only entry `i` of table
      `t` changes; a new table is all zero. */
  ghost predicate OneEntry(ram: Ram, free: set<nat>, ram': Ram, t: nat, i: nat, child: FrameNo, m: bv12) {
    var e := Entry(ram, t, i);
    && Entry(ram', t, i) == (if Present(e) then Word(e.frame, e.low | m, e.high) else Word(child, 0x003 | m, 0))
    && (forall u, j | u !in free && !(u == t && j == i) :: Entry(ram', u, j) == Entry(ram, u, j))
    && (!Present(e) ==> child in free && forall j :: Entry(ram', child, j) == ZERO_WORD)
  }

  /** Of the entries on the way to `page` the first `k` are passed; no other entry
      above the last level has changed. */
  ghost predicate PassedTo(ram0: Ram, ram: Ram, root: FrameNo, page: Path, k: nat, m: bv12)
    requires IsPage(page) && k <= 3
  {
    && (forall j | 0 <= j < k :: Passed(WalkWord(ram0, root, page, j), WalkWord(ram, root, page, j), m))
    && (forall j | k <= j < 3 :: WalkWord(ram, root, page, j) == WalkWord(ram0, root, page, j))
    && OffPathSame(ram0, ram, root, page)
  }

  ghost predicate OffPathSame(ram0: Ram, ram: Ram, root: FrameNo, page: Path)
    requires IsPage(page)
  {
    forall q: Path, i | |q| <= 2 && Indices(q) && Walk(ram0, root, q).Some? && i < 512 && q + [i] != page[..|q| + 1] ::
      Entry(ram, Walk(ram0, root, q).value, i) == Entry(ram0, Walk(ram0, root, q).value, i)
  }

  /** User mode reaches a page if all four entries are present and carry USER. */
  ghost predicate UserAccess(ram: Ram, root: FrameNo, page: Path)
    requires IsPage(page)
  {
    forall k | 0 <= k <= 3 :: WalkWord(ram, root, page, k).low & 0x005 == 0x005
  }

  lemma GainedIs(flags: Flags)
    ensures Gained(flags) == flags.low & 0x01C
  {
  }

  lemma OneEntryHung(ram: Ram, free: set<nat>, t: nat, i: nat, f: FrameNo, flags: Flags)
    requires t < |ram| && ram[t].Table? && i < 512 && f < |ram| && f != t && f in free
    requires !Present(Entry(ram, t, i))
    ensures OneEntry(ram, free, HangTable(ram, t, i, f, Gained(flags)), t, i, f, flags.low & 0x01C)
  {
    GainedIs(flags);
    hide Present, Gained;
  }

  lemma OneEntryGained(ram: Ram, free: set<nat>, t: nat, i: nat, flags: Flags)
    requires t < |ram| && ram[t].Table? && i < 512 && Present(Entry(ram, t, i))
    ensures OneEntry(ram, free, Put(ram, t, i, Gain(Entry(ram, t, i), Gained(flags))), t, i,
                     Entry(ram, t, i).frame, flags.low & 0x01C)
  {
    GainedIs(flags);
    hide Present, Gained;
  }

  lemma {:induction false} WalkUp(ram: Ram, root: FrameNo, page: Path, j: nat, k: nat)
    requires IsPage(page) && j <= k <= 3 && Walk(ram, root, page[..k]).Some?
    ensures Walk(ram, root, page[..j]).Some?
    decreases k
  {
    if j < k {
      assert page[..k][..k - 1] == page[..k - 1];
      WalkUp(ram, root, page, j, k - 1);
    }
  }

  lemma WalkDown(ram: Ram, root: FrameNo, page: Path, j: nat)
    requires IsPage(page) && j < 3
    ensures var w := WalkWord(ram, root, page, j);
            Walk(ram, root, page[..j + 1]) == if PointsToTable(w) then Some(w.frame) else None
  {
    assert page[..j + 1][..j] == page[..j];
    ZeroWord();
  }

  lemma ChildTaken(ram: Ram, root: FrameNo, free: set<nat>, p: Path, q: Path)
    requires Tree(ram, root, free) && ToTable(p) && ToTable(q) && Walk(ram, root, p).Some? && Walk(ram, root, q).Some?
    ensures Walk(ram, root, p).value !in free && (Walk(ram, root, p) == Walk(ram, root, q) ==> p == q)
  {
  }

  /** Below the entry that one level of map_page changes nothing is different on the
      way to the page. */
  lemma {:induction false} BelowSame(ram: Ram, free: set<nat>, ram': Ram, root: FrameNo, page: Path, k: nat,
                                     t: FrameNo, child: FrameNo, m: bv12, j: nat)
    requires Tree(ram, root, free) && IsPage(page) && k < j <= 3
    requires Walk(ram, root, page[..k]) == Some(t) && Walk(ram', root, page[..k + 1]) == Some(child)
    requires NotHuge(Entry(ram, t, page[k])) && OneEntry(ram, free, ram', t, page[k], child, m)
    requires Present(Entry(ram, t, page[k])) ==> child == Entry(ram, t, page[k]).frame
    ensures WalkWord(ram', root, page, j) == WalkWord(ram, root, page, j)
    ensures Present(Entry(ram, t, page[k])) ==> Walk(ram', root, page[..j]) == Walk(ram, root, page[..j])
    ensures !Present(Entry(ram, t, page[k])) ==> WalkWord(ram', root, page, j) == ZERO_WORD
  {
    hide Walk, Tree;
    ZeroWord();
    WalkDown(ram, root, page, k);
    if j > k + 1 {
      BelowSame(ram, free, ram', root, page, k, t, child, m, j - 1);
      WalkDown(ram, root, page, j - 1);
      WalkDown(ram', root, page, j - 1);
    }
    if Present(Entry(ram, t, page[k])) && Walk(ram, root, page[..j]).Some? {
      ChildTaken(ram, root, free, page[..j], page[..k]);
    }
  }

  lemma AboveSame(ram: Ram, free: set<nat>, ram': Ram, root: FrameNo, page: Path, k: nat,
                  t: FrameNo, child: FrameNo, m: bv12, j: nat)
    requires Tree(ram, root, free) && IsPage(page) && j < k < 3
    requires Walk(ram, root, page[..k]) == Some(t) && OneEntry(ram, free, ram', t, page[k], child, m)
    requires forall q: Path | ToTable(q) && Walk(ram, root, q).Some? :: Walk(ram', root, q) == Walk(ram, root, q)
    ensures WalkWord(ram', root, page, j) == WalkWord(ram, root, page, j)
  {
    hide Walk, Tree, Present;
    WalkUp(ram, root, page, j, k);
    ChildTaken(ram, root, free, page[..j], page[..k]);
    assert ToTable(page[..j]);
  }

  lemma OffPathMore(ram0: Ram, ram: Ram, free: set<nat>, ram': Ram, root: FrameNo, page: Path, k: nat,
                    t: FrameNo, child: FrameNo, m: bv12)
    requires Tree(ram, root, free) && IsPage(page) && k < 3
    requires Walk(ram, root, page[..k]) == Some(t) && OneEntry(ram, free, ram', t, page[k], child, m)
    requires forall q: Path | ToTable(q) && Walk(ram0, root, q).Some? :: Walk(ram, root, q) == Walk(ram0, root, q)
    requires OffPathSame(ram0, ram, root, page)
    ensures OffPathSame(ram0, ram', root, page)
  {
    hide Walk, Tree, Present;
    assert page[..k + 1] == page[..k] + [page[k]];
    forall q: Path, i | |q| <= 2 && Indices(q) && Walk(ram0, root, q).Some? && i < 512 && q + [i] != page[..|q| + 1]
      ensures Entry(ram', Walk(ram0, root, q).value, i) == Entry(ram, Walk(ram0, root, q).value, i)
    {
      assert ToTable(q);
      ChildTaken(ram, root, free, q, page[..k]);
    }
  }

  /** One level of map_page passes one entry more. */
  lemma PassOneMore(ram0: Ram, ram: Ram, free: set<nat>, ram': Ram, root: FrameNo, page: Path, k: nat,
                    t: FrameNo, child: FrameNo, m: bv12)
    requires Tree(ram, root, free) && IsPage(page) && k < 3
    requires Walk(ram, root, page[..k]) == Some(t) && Walk(ram', root, page[..k + 1]) == Some(child)
    requires NotHuge(Entry(ram, t, page[k])) && OneEntry(ram, free, ram', t, page[k], child, m)
    requires Present(Entry(ram, t, page[k])) ==> child == Entry(ram, t, page[k]).frame
    requires forall q: Path | ToTable(q) && Walk(ram, root, q).Some? :: Walk(ram', root, q) == Walk(ram, root, q)
    requires forall q: Path | ToTable(q) && Walk(ram0, root, q).Some? :: Walk(ram, root, q) == Walk(ram0, root, q)
    requires PassedTo(ram0, ram, root, page, k, m)
    ensures PassedTo(ram0, ram', root, page, k + 1, m)
  {
    hide *;
    HerePassed(ram, free, ram', root, page, k, t, child, m);
    forall j | 0 <= j < 3 && j != k
      ensures WalkWord(ram', root, page, j) == WalkWord(ram, root, page, j)
    {
      if j < k {
        AboveSame(ram, free, ram', root, page, k, t, child, m, j);
      } else {
        BelowSame(ram, free, ram', root, page, k, t, child, m, j);
      }
    }
    PassedParts(ram0, ram, root, page, k, m);
    OffPathMore(ram0, ram, free, ram', root, page, k, t, child, m);
    PassedWhole(ram0, ram, ram', root, page, k, m);
  }

  lemma HerePassed(ram: Ram, free: set<nat>, ram': Ram, root: FrameNo, page: Path, k: nat,
                   t: FrameNo, child: FrameNo, m: bv12)
    requires Tree(ram, root, free) && IsPage(page) && k < 3 && Walk(ram, root, page[..k]) == Some(t)
    requires OneEntry(ram, free, ram', t, page[k], child, m)
    requires forall q: Path | ToTable(q) && Walk(ram, root, q).Some? :: Walk(ram', root, q) == Walk(ram, root, q)
    ensures Passed(WalkWord(ram, root, page, k), WalkWord(ram', root, page, k), m)
  {
    hide Walk, Tree, Present;
    assert ToTable(page[..k]);
  }

  lemma PassedParts(ram0: Ram, ram: Ram, root: FrameNo, page: Path, k: nat, m: bv12)
    requires IsPage(page) && k < 3 && PassedTo(ram0, ram, root, page, k, m)
    ensures OffPathSame(ram0, ram, root, page)
  {
  }

  lemma PassedWhole(ram0: Ram, ram: Ram, ram': Ram, root: FrameNo, page: Path, k: nat, m: bv12)
    requires IsPage(page) && k < 3 && PassedTo(ram0, ram, root, page, k, m)
    requires forall j | 0 <= j < 3 && j != k :: WalkWord(ram', root, page, j) == WalkWord(ram, root, page, j)
    requires Passed(WalkWord(ram, root, page, k), WalkWord(ram', root, page, k), m)
    requires OffPathSame(ram0, ram', root, page)
    ensures PassedTo(ram0, ram', root, page, k + 1, m)
  {
    hide WalkWord, Passed, OffPathSame;
  }

  /** What map_page leaves of the upper entries: on success all three are passed,
      without frames those up to the missing table. */
  ghost predicate UpperEntries(ram: Ram, ram': Ram, root: FrameNo, page: Path, m: bv12, ok: bool)
    requires IsPage(page)
  {
    && OffPathSame(ram, ram', root, page)
    && forall k | 0 <= k < 3 ::
         var e, e' := WalkWord(ram, root, page, k), WalkWord(ram', root, page, k);
         if ok || Present(e') then Passed(e, e', m) else e' == e
  }

  /** The leaf is in a table of its own level. */
  lemma LeafPassed(ram0: Ram, ram: Ram, free: set<nat>, root: FrameNo, page: Path, leaf: Word, m: bv12)
    requires Tree(ram, root, free) && IsPage(page) && PassedTo(ram0, ram, root, page, 3, m)
    requires forall q: Path | ToTable(q) && Walk(ram0, root, q).Some? :: Walk(ram, root, q) == Walk(ram0, root, q)
    requires Walk(ram, root, page[..3]).Some?
    ensures var t := Walk(ram, root, page[..3]).value;
            && t < |ram| && ram[t].Table?
            && UpperEntries(ram0, Put(ram, t, page[3], leaf), root, page, m, true)
            && WalkWord(Put(ram, t, page[3], leaf), root, page, 3) == leaf
  {
    hide Walk, Translate, Present;
    LeafWrite(ram, root, free, page, leaf);
    hide Tree;
    var t := Walk(ram, root, page[..3]).value;
    var ram' := Put(ram, t, page[3], leaf);
    forall k | 0 <= k < 3
      ensures WalkWord(ram', root, page, k) == WalkWord(ram, root, page, k)
    {
      assert ToTable(page[..k]);
      WalkUp(ram, root, page, k, 3);
      ChildTaken(ram, root, free, page[..k], page[..3]);
    }
    assert ToTable(page[..3]);
    forall q: Path, i | |q| <= 2 && Indices(q) && Walk(ram0, root, q).Some? && i < 512 && q + [i] != page[..|q| + 1]
      ensures Entry(ram', Walk(ram0, root, q).value, i) == Entry(ram, Walk(ram0, root, q).value, i)
    {
      assert ToTable(q);
      ChildTaken(ram, root, free, q, page[..3]);
    }
  }

  /** Without a frame for the table below entry `k` the walk ends there. */
  lemma StoppedPassed(ram0: Ram, ram: Ram, root: FrameNo, page: Path, k: nat, m: bv12)
    requires IsPage(page) && k < 3 && PassedTo(ram0, ram, root, page, k, m)
    requires !Present(WalkWord(ram, root, page, k))
    ensures UpperEntries(ram0, ram, root, page, m, false)
  {
    hide Walk;
    StoppedWord(ram, root, page, k, 2);
    if k < 2 {
      StoppedWord(ram, root, page, k, k + 1);
    }
  }

  lemma {:induction false} StoppedWord(ram: Ram, root: FrameNo, page: Path, k: nat, j: nat)
    requires IsPage(page) && k <= j < 3 && !Present(WalkWord(ram, root, page, k))
    ensures !Present(WalkWord(ram, root, page, j))
    decreases j
  {
    hide Walk;
    ZeroWord();
    if k < j {
      StoppedWord(ram, root, page, k, j - 1);
      WalkDown(ram, root, page, j - 1);
    }
  }

  /** A page mapped for user mode is reached by user mode, whatever tables were there
      before; one mapped for the kernel is not. */
  lemma MappedForUser(ram: Ram, ram': Ram, root: FrameNo, page: Path, phys: Word, flags: Flags)
    requires IsPage(page) && UpperEntries(ram, ram', root, page, flags.low & 0x01C, true)
    requires WalkWord(ram', root, page, 3) == Or(phys, flags)
    requires phys.low == 0 && flags.low & PRESENT != 0
    ensures UserAccess(ram', root, page) <==> flags.low & USER != 0
  {
    forall k | 0 <= k < 3 && flags.low & USER != 0
      ensures WalkWord(ram', root, page, k).low & 0x005 == 0x005
    {
      var e := WalkWord(ram, root, page, k);
      assert Passed(e, WalkWord(ram', root, page, k), flags.low & 0x01C);
      UserBits(e.low, flags.low);
    }
    LeafBits(flags.low);
  }

  lemma UserBits(low: bv12, flags: bv12)
    requires flags & USER != 0
    ensures (0x003 | (flags & 0x01C)) & 0x005 == 0x005
    ensures low & PRESENT != 0 ==> (low | (flags & 0x01C)) & 0x005 == 0x005
  {
  }

  lemma LeafBits(flags: bv12)
    requires flags & PRESENT != 0
    ensures (0 | flags) & 0x005 == 0x005 <==> flags & USER != 0
  {
  }

  /** What user mode reaches it goes on reaching when another page is mapped. */
  lemma UserAccessStays(ram: Ram, free: set<nat>, ram': Ram, root: FrameNo, page: Path, m: bv12, ok: bool, q: Path)
    requires Tree(ram, root, free) && IsPage(page) && IsPage(q) && (ok ==> q != page)
    requires UpperEntries(ram, ram', root, page, m, ok)
    requires forall p: Path | ToTable(p) && Walk(ram, root, p).Some? :: Walk(ram', root, p) == Walk(ram, root, p)
    requires Translate(ram', root, q) == Translate(ram, root, q)
    requires UserAccess(ram, root, q)
    ensures UserAccess(ram', root, q)
  {
    hide Walk, Tree, Translate;
    forall k | 0 <= k < 3
      ensures WalkWord(ram', root, q, k).low & 0x005 == 0x005
    {
      var w := WalkWord(ram, root, q, k);
      assert w.low & 0x005 == 0x005;
      ZeroBits();
      assert ToTable(q[..k]) && Walk(ram, root, q[..k]).Some?;
      UserBitsGrow(w, m);
      if q[..k] + [q[k]] == page[..k + 1] {
        assert q[..k] == page[..k] by { assert (q[..k] + [q[k]])[..k] == page[..k + 1][..k]; }
        assert q[k] == page[k] by { assert (q[..k] + [q[k]])[k] == page[..k + 1][k]; }
        assert w == WalkWord(ram, root, page, k);
      }
    }
    assert WalkWord(ram, root, q, 3).low & 0x005 == 0x005;
    ZeroBits();
    UserBitsGrow(WalkWord(ram, root, q, 3), m);
    assert ToTable(q[..3]);
    LeafSeen(ram, root, q);
    LeafSeen(ram', root, q);
  }

  lemma LeafSeen(ram: Ram, root: FrameNo, q: Path)
    requires IsPage(q) && Walk(ram, root, q[..3]).Some?
    ensures var e := WalkWord(ram, root, q, 3);
            Translate(ram, root, q) == if Present(e) then Page(e) else NotMapped
  {
    TranslateAt(ram, root, q, 3);
    hide Walk, Translate, Present;
    assert q[3..][0] == q[3];
  }

  lemma ZeroBits()
    ensures ZERO_WORD.low & 0x005 != 0x005
  {
  }

  lemma UserBitsGrow(w: Word, m: bv12)
    requires w.low & 0x005 == 0x005
    ensures Present(w) && (w.low | m) & 0x005 == 0x005
  {
  }

  // ---------------------------------------------------------------------------
  // How many tables a mapping needs
  // ---------------------------------------------------------------------------

  /** Tables map_page has to create on the way to the leaf, from table `t` on. */
  function TablesMissing(ram: Ram, t: nat, p: Path): nat
    requires p != []
    decreases |p|
  {
    var e := Entry(ram, t, p[0]);
    if |p| == 1 then 0
    else if !Present(e) then |p| - 1
    else TablesMissing(ram, e.frame, p[1..])
  }

  lemma {:induction false} GainMissing(ram: Ram, t: nat, i: nat, flags: Flags, u: nat, p: Path)
    requires t < |ram| && ram[t].Table? && i < 512 && p != []
    ensures TablesMissing(Put(ram, t, i, Gain(Entry(ram, t, i), Gained(flags))), u, p) == TablesMissing(ram, u, p)
    decreases |p|
  {
    GainedBits(flags, Entry(ram, t, i), 0);
    if |p| > 1 {
      GainMissing(ram, t, i, flags, Entry(ram, u, p[0]).frame, p[1..]);
    }
  }

  lemma HangMissing(ram: Ram, t: nat, i: nat, f: FrameNo, g: bv12, p: Path)
    requires t < |ram| && ram[t].Table? && i < 512 && f < |ram| && f != t && p != []
    ensures TablesMissing(HangTable(ram, t, i, f, g), f, p) == |p| - 1
  {
    ZeroWord();
  }

  // ---------------------------------------------------------------------------
  // Virtual addresses
  // ---------------------------------------------------------------------------

  const VA_PAGES: nat := 0x10_0000_0000

  /** The 36 bits of a virtual address that select a page. */
  function PageNumber(va: nat): nat { va / 0x1000 % VA_PAGES }

  lemma Digits(n: nat)
    requires n < VA_PAGES
    ensures n == (n / 0x800_0000 % 512) * 0x800_0000 + (n / 0x4_0000 % 512) * 0x4_0000
                 + (n / 0x200 % 512) * 0x200 + n % 512
  {
    assert n / 0x800_0000 < 512;
    var a := n / 0x200;
    assert n == a * 0x200 + n % 512;
    var b := a / 0x200;
    assert a == b * 0x200 + a % 512;
    var c := b / 0x200;
    assert b == c * 0x200 + b % 512;
    assert b == n / 0x4_0000;
    assert c == n / 0x800_0000;
  }

  lemma PathDigits(va: nat)
    ensures var n := PageNumber(va);
            PathOf(va) == [n / 0x800_0000 % 512, n / 0x4_0000 % 512, n / 0x200 % 512, n % 512]
  {
    var m := va / 0x1000;
    assert va / 0x80_0000_0000 == m / 0x800_0000;
    assert va / 0x4000_0000 == m / 0x4_0000;
    assert va / 0x20_0000 == m / 0x200;
    var n, h := m % VA_PAGES, m / VA_PAGES;
    assert m == h * VA_PAGES + n;
    assert m / 0x800_0000 == h * 512 + n / 0x800_0000;
    assert m / 0x4_0000 == h * 0x4_0000 + n / 0x4_0000;
    assert m / 0x200 == h * 0x800_0000 + n / 0x200;
    ModShift(n / 0x800_0000, h);
    ModShift(n / 0x4_0000, h * 0x200);
    ModShift(n / 0x200, h * 0x4_0000);
    ModShift(n, h * 0x800_0000);
  }

  lemma ModShift(a: nat, h: nat)
    ensures (h * 512 + a) % 512 == a % 512
  {
  }

  /** Two addresses share their table indices exactly when they are in the same page. */
  lemma SamePath(a: nat, b: nat)
    ensures PathOf(a) == PathOf(b) <==> PageNumber(a) == PageNumber(b)
  {
    PathDigits(a);
    PathDigits(b);
    Digits(PageNumber(a));
    Digits(PageNumber(b));
    if PathOf(a) == PathOf(b) {
      var m, n := PageNumber(a), PageNumber(b);
      assert m / 0x800_0000 % 512 == n / 0x800_0000 % 512 by { assert PathOf(a)[0] == PathOf(b)[0]; }
      assert m / 0x4_0000 % 512 == n / 0x4_0000 % 512 by { assert PathOf(a)[1] == PathOf(b)[1]; }
      assert m / 0x200 % 512 == n / 0x200 % 512 by { assert PathOf(a)[2] == PathOf(b)[2]; }
      assert m % 512 == n % 512 by { assert PathOf(a)[3] == PathOf(b)[3]; }
    }
  }

  /** The four indices, nine bits each from bit 39 down, and the place in the page
      make up the 48 bits of an address. */
  lemma PathIsAddress(va: nat)
    ensures var p := PathOf(va);
            va % 0x1_0000_0000_0000 ==
            p[0] * 0x80_0000_0000 + p[1] * 0x4000_0000 + p[2] * 0x20_0000 + p[3] * 0x1000 + va % 0x1000
  {
    var n := PageNumber(va);
    PathDigits(va);
    Digits(n);
    assert n / 0x800_0000 % 512 == PathOf(va)[0] && n / 0x4_0000 % 512 == PathOf(va)[1]
           && n / 0x200 % 512 == PathOf(va)[2] && n % 512 == PathOf(va)[3];
    hide PathOf;
    var m := va / 0x1000;
    assert m == m / VA_PAGES * VA_PAGES + n;
    assert va == m * 0x1000 + va % 0x1000;
    LowBits(m / VA_PAGES, n * 0x1000 + va % 0x1000);
  }

  lemma LowBits(h: nat, low: nat)
    requires low < 0x1_0000_0000_0000
    ensures (h * 0x1_0000_0000_0000 + low) % 0x1_0000_0000_0000 == low
  {
  }

  // ---------------------------------------------------------------------------
  // Bytes
  // ---------------------------------------------------------------------------

  function Pow256(k: nat): (p: nat)
    ensures p > 0
  {
    if k == 0 then 1 else 256 * Pow256(k - 1)
  }

  /** Byte `k` of a 64-bit word, least significant first. */
  function WordByte(w: Word, k: nat): byte
    requires k < 8
  {
    ((w.low as nat) + 0x1000 * w.frame + 0x10_0000_0000_0000 * (w.high as nat)) / Pow256(k) % 256
  }

  /** The 4096 bytes of a frame, whichever way it was last written. */
  function AsBytes(f: Frame): (b: seq<byte>)
    ensures |b| == 4096
  {
    if f.Data? then f.bytes
    else seq(4096, i requires 0 <= i < 4096 => WordByte(f.words[i / 8], i % 8))
  }

  /** The byte at virtual address `va`, read through a 4 KB mapping. */
  function ReadByte(ram: Ram, root: FrameNo, va: nat): Option<byte> {
    match Translate(ram, root, PathOf(va))
    case Page(e) => if e.frame < |ram| then Some(AsBytes(ram[e.frame])[va % 4096]) else None
    case _ => None
  }
}
