/** The physical frame allocator of mm.c: two bitmaps, four counters and a
    first-fit scan.  The bitmaps are arrays of bytes updated in place; what they
    mean is a set of free frame indices, and every method is proved against a
    step of the abstract state `Pfa`. */
module FrameAllocator {

  const PAGE_SIZE: nat := 4096
  const MAX_PAGES: nat := 2097152
  const BITMAP_SIZE: nat := 262144
  const FOUR_GB: nat := 0x1_0000_0000
  /** Frames below four gigabytes. */
  const LOW_FRAMES: nat := 0x10_0000

  // ---------------------------------------------------------------------------
  // Bits of one byte
  // ---------------------------------------------------------------------------

  /** 1 << k, by cases. */
  function BitMask(k: nat): bv8
    requires k < 8
  {
    if k == 0 then 1 else if k == 1 then 2 else if k == 2 then 4 else if k == 3 then 8
    else if k == 4 then 16 else if k == 5 then 32 else if k == 6 then 64 else 128
  }

  /** A set bit is a used frame. */
  predicate Used(b: bv8, k: nat)
    requires k < 8
  {
    b & BitMask(k) != 0
  }

  lemma SetBit(b: bv8, k: nat, j: nat)
    requires k < 8 && j < 8
    ensures Used(b | BitMask(k), j) == (j == k || Used(b, j))
  {
  }

  lemma ClearBit(b: bv8, k: nat, j: nat)
    requires k < 8 && j < 8
    ensures Used(b & !BitMask(k), j) == (j != k && Used(b, j))
  {
  }

  /** The byte the scan skips is the one with no free frame. */
  lemma FullByte(b: bv8)
    ensures b == 0xFF <==> forall k :: 0 <= k < 8 ==> Used(b, k)
  {
    if forall k :: 0 <= k < 8 ==> Used(b, k) {
      assert Used(b, 0) && Used(b, 1) && Used(b, 2) && Used(b, 3);
      assert Used(b, 4) && Used(b, 5) && Used(b, 6) && Used(b, 7);
    }
  }

  // ---------------------------------------------------------------------------
  // What the bitmaps mean
  // ---------------------------------------------------------------------------

  /** The free frame indices of a bitmap. */
  ghost function FreeIn(bits: seq<bv8>): set<nat> {
    set i: nat | i < 8 * |bits| && FreeAt(bits, i)
  }

  ghost predicate FreeAt(bits: seq<bv8>, i: nat)
    requires i < 8 * |bits|
  {
    !Used(bits[i / 8], i % 8)
  }

  lemma PutByte(bits: seq<bv8>, q: nat, b: bv8, j: nat)
    requires q < |bits| && j < 8 * |bits|
    ensures FreeAt(bits[q := b], j) == if j / 8 == q then !Used(b, j % 8) else FreeAt(bits, j)
  {
  }

  lemma ClearByte(bits: seq<bv8>, q: nat, k: nat, r: nat, m: nat)
    requires q < |bits| && r < |bits| && k < 8 && m < 8
    ensures Used(bits[q := bits[q] & !BitMask(k)][r], m) == (!(q == r && k == m) && Used(bits[r], m))
  {
    hide Used, BitMask;
    ClearBit(bits[q], k, m);
  }

  lemma SetByte(bits: seq<bv8>, q: nat, k: nat, r: nat, m: nat)
    requires q < |bits| && r < |bits| && k < 8 && m < 8
    ensures Used(bits[q := bits[q] | BitMask(k)][r], m) == ((q == r && k == m) || Used(bits[r], m))
  {
    hide Used, BitMask;
    SetBit(bits[q], k, m);
  }

  lemma SameBit(i: nat, j: nat)
    ensures i == j <==> i / 8 == j / 8 && i % 8 == j % 8
  {
  }

  lemma ClearAt(bits: seq<bv8>, i: nat, j: nat)
    requires i < 8 * |bits| && j < 8 * |bits|
    ensures FreeAt(bits[i / 8 := bits[i / 8] & !BitMask(i % 8)], j) == (j == i || FreeAt(bits, j))
  {
    hide Used, BitMask;
    ClearByte(bits, i / 8, i % 8, j / 8, j % 8);
    SameBit(i, j);
  }

  lemma SetAt(bits: seq<bv8>, i: nat, j: nat)
    requires i < 8 * |bits| && j < 8 * |bits|
    ensures FreeAt(bits[i / 8 := bits[i / 8] | BitMask(i % 8)], j) == (j != i && FreeAt(bits, j))
  {
    hide Used, BitMask;
    SetByte(bits, i / 8, i % 8, j / 8, j % 8);
    SameBit(i, j);
  }

  lemma UpdateFree(bits: seq<bv8>, i: nat, freed: seq<bv8>, taken: seq<bv8>)
    requires i < 8 * |bits|
    requires freed == bits[i / 8 := bits[i / 8] & !BitMask(i % 8)]
    requires taken == bits[i / 8 := bits[i / 8] | BitMask(i % 8)]
    ensures FreeIn(freed) == FreeIn(bits) + {i}
    ensures FreeIn(taken) == FreeIn(bits) - {i}
  {
    forall j: nat | j < 8 * |bits|
      ensures FreeAt(freed, j) == (j == i || FreeAt(bits, j))
      ensures FreeAt(taken, j) == (j != i && FreeAt(bits, j))
    {
      ClearAt(bits, i, j);
      SetAt(bits, i, j);
    }
  }

  ghost predicate HighFree(bits: seq<bv8>, f: nat) {
    LOW_FRAMES <= f && f - LOW_FRAMES in FreeIn(bits)
  }

  /** The frame numbers the bitmap for memory above four gigabytes stands for. */
  ghost function HighFrames(bits: seq<bv8>): set<nat> {
    set f: nat | f < LOW_FRAMES + 8 * |bits| && HighFree(bits, f)
  }

  lemma HighIn(bits: seq<bv8>, i: nat)
    requires i < 8 * |bits|
    ensures LOW_FRAMES + i in HighFrames(bits) <==> FreeAt(bits, i)
    ensures i in FreeIn(bits) <==> FreeAt(bits, i)
  {
    assert HighFree(bits, LOW_FRAMES + i) == (i in FreeIn(bits));
  }

  lemma HighUpdate(bits: seq<bv8>, bits': seq<bv8>, i: nat)
    requires |bits| == |bits'| && i < 8 * |bits|
    ensures FreeIn(bits') == FreeIn(bits) + {i} ==> HighFrames(bits') == HighFrames(bits) + {LOW_FRAMES + i}
    ensures FreeIn(bits') == FreeIn(bits) - {i} ==> HighFrames(bits') == HighFrames(bits) - {LOW_FRAMES + i}
  {
    forall f: nat
      ensures FreeIn(bits') == FreeIn(bits) + {i} ==>
                HighFree(bits', f) == (HighFree(bits, f) || f == LOW_FRAMES + i)
      ensures FreeIn(bits') == FreeIn(bits) - {i} ==>
                HighFree(bits', f) == (HighFree(bits, f) && f != LOW_FRAMES + i)
    {
    }
  }

  lemma LeastHigh(bits: seq<bv8>)
    ensures HighFrames(bits) == {} <==> FreeIn(bits) == {}
    ensures FreeIn(bits) != {} ==> Least(HighFrames(bits)) == LOW_FRAMES + Least(FreeIn(bits))
  {
    if FreeIn(bits) != {} {
      assert HighFree(bits, LOW_FRAMES + Least(FreeIn(bits)));
      assert LOW_FRAMES + Least(FreeIn(bits)) in HighFrames(bits);
      assert HighFree(bits, Least(HighFrames(bits)));
    }
  }

  ghost predicate IsLeast(m: nat, s: set<nat>) {
    m in s && forall x :: x in s ==> m <= x
  }

  lemma LeastExists(s: set<nat>)
    requires s != {}
    ensures exists m :: IsLeast(m, s)
    decreases |s|
  {
    var y :| y in s;
    var rest := s - {y};
    assert forall x :: x in s ==> x == y || x in rest;
    if rest == {} {
      assert IsLeast(y, s);
    } else {
      LeastExists(rest);
      var m :| IsLeast(m, rest);
      assert IsLeast(if m < y then m else y, s);
    }
  }

  ghost function Least(s: set<nat>): (m: nat)
    requires s != {}
    ensures m in s && forall x :: x in s ==> m <= x
  {
    LeastExists(s);
    var x :| IsLeast(x, s);
    x
  }

  // ---------------------------------------------------------------------------
  // The abstract allocator
  // ---------------------------------------------------------------------------

  /** `low` and `high` hold the free frame numbers (physical address / 4096) of
      the two bitmaps; the four counters are the ones mm.c keeps. */
  datatype Pfa = Pfa(low: set<nat>, high: set<nat>,
                     lowFree: nat, lowTotal: nat, highFree: nat, highTotal: nat)
  {
    ghost function Frames(): set<nat> { low + high }

    ghost predicate Counted() {
      lowFree == |low| && highFree == |high|
    }

    ghost predicate InRange() {
      && (forall f :: f in low ==> f < 0x10_0000)
      && (forall f :: f in high ==> 0x10_0000 <= f < 0x30_0000)
    }
  }

  const BOOT := Pfa({}, {}, 0, 0, 0, 0)

  datatype Call = Free(paddr: nat) | AllocLow | Alloc

  ghost function FreeLow(s: Pfa, f: nat): Pfa {
    if f in s.low then s
    else s.(low := s.low + {f}, lowFree := s.lowFree + 1, lowTotal := s.lowTotal + 1)
  }

  ghost function FreeHigh(s: Pfa, f: nat): Pfa {
    if f in s.high then s
    else s.(high := s.high + {f}, highFree := s.highFree + 1, highTotal := s.highTotal + 1)
  }

  /** Address 0 and addresses past the second bitmap are ignored, and so is a
      frame that is already free. */
  ghost function FreeStep(s: Pfa, paddr: nat): Pfa {
    var f := paddr / PAGE_SIZE;
    if paddr == 0 || LOW_FRAMES + MAX_PAGES <= f then s
    else if paddr < FOUR_GB then FreeLow(s, f)
    else FreeHigh(s, f)
  }

  lemma FreeLowKeeps(s: Pfa, f: nat)
    requires s.Counted() && s.InRange() && f < LOW_FRAMES
    ensures var t := FreeLow(s, f);
            && t.Counted() && t.InRange()
            && t.low == s.low + {f} && t.high == s.high
            && t.lowTotal - t.lowFree == s.lowTotal - s.lowFree
            && t.highTotal == s.highTotal && t.highFree == s.highFree
  {
    AddCard(s.low, f);
  }

  lemma FreeHighKeeps(s: Pfa, f: nat)
    requires s.Counted() && s.InRange() && LOW_FRAMES <= f < LOW_FRAMES + MAX_PAGES
    ensures var t := FreeHigh(s, f);
            && t.Counted() && t.InRange()
            && t.high == s.high + {f} && t.low == s.low
            && t.highTotal - t.highFree == s.highTotal - s.highFree
            && t.lowTotal == s.lowTotal && t.lowFree == s.lowFree
  {
    AddCard(s.high, f);
  }

  lemma AddCard(s: set<nat>, f: nat)
    ensures f in s ==> s + {f} == s
    ensures f !in s ==> |s + {f}| == |s| + 1
  {
  }

  lemma FreeStepCases(s: Pfa, paddr: nat)
    requires paddr != 0
    ensures var f := paddr / PAGE_SIZE;
            && (f < LOW_FRAMES <==> paddr < FOUR_GB)
            && (f < LOW_FRAMES ==> FreeStep(s, paddr) == FreeLow(s, f))
            && (LOW_FRAMES <= f < LOW_FRAMES + MAX_PAGES ==> FreeStep(s, paddr) == FreeHigh(s, f))
            && (LOW_FRAMES + MAX_PAGES <= f ==> FreeStep(s, paddr) == s)
  {
  }

  ghost function AllocLowStep(s: Pfa): Pfa
    requires s.Counted()
  {
    if s.low == {} then s
    else
      NonEmptyCard(s.low);
      s.(low := s.low - {Least(s.low)}, lowFree := s.lowFree - 1)
  }

  lemma AllocLowTakes(s: Pfa)
    requires s.Counted() && s.InRange() && s.low != {} && 0 !in s.low
    ensures var f := Least(s.low);
            && Returned(s, AllocLow) != 0 && Returned(s, AllocLow) / PAGE_SIZE == f
            && AllocLowStep(s).low == s.low - {f}
            && AllocLowStep(s).Frames() == s.Frames() - {f}
  {
  }

  ghost function AllocStep(s: Pfa): Pfa
    requires s.Counted()
  {
    if s.high == {} then s
    else
      NonEmptyCard(s.high);
      s.(high := s.high - {Least(s.high)}, highFree := s.highFree - 1)
  }

  lemma NonEmptyCard<T>(s: set<T>)
    requires s != {}
    ensures |s| > 0
  {
    var x :| x in s;
    assert s == (s - {x}) + {x};
  }

  ghost function Step(s: Pfa, c: Call): (s': Pfa)
    requires s.Counted()
  {
    match c
    case Free(p) => FreeStep(s, p)
    case AllocLow => AllocLowStep(s)
    case Alloc => AllocStep(s)
  }

  /** The physical address a call returns; 0 is the failure value. */
  ghost function Returned(s: Pfa, c: Call): nat {
    match c
    case Free(_) => 0
    case AllocLow => if s.low == {} then 0 else Least(s.low) * PAGE_SIZE
    case Alloc => if s.high == {} then 0 else Least(s.high) * PAGE_SIZE
  }

  // ---------------------------------------------------------------------------
  // The allocator object
  // ---------------------------------------------------------------------------

  class Allocator {
    const lowBitmap: array<bv8>
    const bitmap: array<bv8>
    var lowFreeCount: nat
    var lowTotalCount: nat
    var freePagesCount: nat
    var totalPagesCount: nat

    /** What the bitmaps and counters stand for. */
    ghost var state: Pfa

    ghost predicate Valid()
      reads this, lowBitmap, bitmap
    {
      && lowBitmap != bitmap
      && lowBitmap.Length == BITMAP_SIZE
      && bitmap.Length == BITMAP_SIZE
      && state == Meaning()
      && state.Counted()
      && state.InRange()
    }

    ghost function Meaning(): Pfa
      reads this, lowBitmap, bitmap
    {
      Pfa(FreeIn(lowBitmap[..]), HighFrames(bitmap[..]),
          lowFreeCount, lowTotalCount, freePagesCount, totalPagesCount)
    }

    /** Both bitmaps all ones: nothing is free until memory is handed over. */
    constructor ()
      ensures Valid() && fresh(lowBitmap) && fresh(bitmap)
      ensures state == BOOT
    {
      lowBitmap := new bv8[BITMAP_SIZE](_ => 0xFF);
      bitmap := new bv8[BITMAP_SIZE](_ => 0xFF);
      lowFreeCount, lowTotalCount := 0, 0;
      freePagesCount, totalPagesCount := 0, 0;
      state := BOOT;
      new;
      FullByte(0xFF);
      assert FreeIn(lowBitmap[..]) == {};
      assert FreeIn(bitmap[..]) == {};
    }

    static method SetUsed(bmap: array<bv8>, index: nat)
      requires index < 8 * bmap.Length
      modifies bmap
      ensures FreeIn(bmap[..]) == old(FreeIn(bmap[..])) - {index}
    {
      ghost var before := bmap[..];
      UpdateFree(before, index, before[index / 8 := before[index / 8] & !BitMask(index % 8)],
                 before[index / 8 := before[index / 8] | BitMask(index % 8)]);
      bmap[index / 8] := bmap[index / 8] | BitMask(index % 8);
      assert bmap[..] == before[index / 8 := before[index / 8] | BitMask(index % 8)];
    }

    static method SetFree(bmap: array<bv8>, index: nat)
      requires index < 8 * bmap.Length
      modifies bmap
      ensures FreeIn(bmap[..]) == old(FreeIn(bmap[..])) + {index}
    {
      ghost var before := bmap[..];
      UpdateFree(before, index, before[index / 8 := before[index / 8] & !BitMask(index % 8)],
                 before[index / 8 := before[index / 8] | BitMask(index % 8)]);
      bmap[index / 8] := bmap[index / 8] & !BitMask(index % 8);
      assert bmap[..] == before[index / 8 := before[index / 8] & !BitMask(index % 8)];
    }

    static method IsFree(bmap: array<bv8>, index: nat) returns (free: bool)
      requires index < 8 * bmap.Length
      ensures free == (index in FreeIn(bmap[..]))
    {
      free := bmap[index / 8] & BitMask(index % 8) == 0;
    }

    /** The two nested loops pfa_alloc_low and pfa_alloc share: whole bytes
        equal to 0xFF are skipped, otherwise the eight bits are tried in order. */
    static method TakeFirstFree(bmap: array<bv8>) returns (found: bool, index: nat)
      requires bmap.Length == BITMAP_SIZE
      modifies bmap
      ensures found == (old(FreeIn(bmap[..])) != {})
      ensures found ==> index == Least(old(FreeIn(bmap[..])))
      ensures found ==> FreeIn(bmap[..]) == old(FreeIn(bmap[..])) - {index}
      ensures !found ==> bmap[..] == old(bmap[..])
    {
      var byte := 0;
      while byte < BITMAP_SIZE
        invariant 0 <= byte <= BITMAP_SIZE
        invariant bmap[..] == old(bmap[..])
        invariant forall i :: i in FreeIn(bmap[..]) ==> 8 * byte <= i
      {
        if bmap[byte] == 0xFF {
          FullByte(0xFF);
          assert forall i | 8 * byte <= i < 8 * byte + 8 :: i !in FreeIn(bmap[..]) by {
            forall i | 8 * byte <= i < 8 * byte + 8
              ensures i !in FreeIn(bmap[..])
            {
              assert Used(bmap[..][i / 8], i % 8);
            }
          }
        } else {
          var bit := 0;
          while bit < 8
            invariant 0 <= bit <= 8
            invariant bmap[..] == old(bmap[..])
            invariant forall i :: i in FreeIn(bmap[..]) ==> 8 * byte + bit <= i
          {
            index := byte * 8 + bit;
            if index >= MAX_PAGES {
              break;
            }
            var free := IsFree(bmap, index);
            if free {
              SetUsed(bmap, index);
              return true, index;
            }
            bit := bit + 1;
          }
        }
        byte := byte + 1;
      }
      found, index := false, 0;
      assert FreeIn(bmap[..]) == {};
    }

    method Free(paddr: nat)
      requires Valid()
      modifies this, lowBitmap, bitmap
      ensures Valid()
      ensures state == FreeStep(old(state), paddr)
    {
      hide HighFrames, HighFree, FreeIn, FreeAt;
      if paddr == 0 {
        return;
      }
      FreeStepCases(state, paddr);
      if paddr < FOUR_GB {
        FreeLowFrame(paddr / PAGE_SIZE);
        return;
      }
      var index := (paddr - FOUR_GB) / PAGE_SIZE;
      assert paddr / PAGE_SIZE == LOW_FRAMES + index;
      if index >= MAX_PAGES {
        return;
      }
      FreeHighFrame(index);
    }

    method FreeLowFrame(index: nat)
      requires Valid() && index < LOW_FRAMES
      modifies this, lowBitmap
      ensures Valid()
      ensures state == FreeLow(old(state), index)
    {
      hide HighFrames, HighFree, FreeIn, FreeAt;
      var free := IsFree(lowBitmap, index);
      if !free {
        SetFree(lowBitmap, index);
        assert bitmap[..] == old(bitmap[..]);
        FreeLowKeeps(state, index);
        lowFreeCount := lowFreeCount + 1;
        lowTotalCount := lowTotalCount + 1;
        state := FreeLow(state, index);
      }
    }

    method FreeHighFrame(index: nat)
      requires Valid() && index < MAX_PAGES
      modifies this, bitmap
      ensures Valid()
      ensures state == FreeHigh(old(state), LOW_FRAMES + index)
    {
      hide HighFrames, HighFree, FreeIn, FreeAt;
      var marked := FreeHighBit(index);
      if marked {
        FreeHighKeeps(state, LOW_FRAMES + index);
        freePagesCount := freePagesCount + 1;
        totalPagesCount := totalPagesCount + 1;
        state := FreeHigh(state, LOW_FRAMES + index);
      }
    }

    method FreeHighBit(index: nat) returns (marked: bool)
      requires lowBitmap != bitmap && bitmap.Length == BITMAP_SIZE && index < MAX_PAGES
      modifies bitmap
      ensures lowBitmap[..] == old(lowBitmap[..])
      ensures marked <==> LOW_FRAMES + index !in old(HighFrames(bitmap[..]))
      ensures HighFrames(bitmap[..]) == old(HighFrames(bitmap[..])) + (if marked then {LOW_FRAMES + index} else {})
    {
      hide HighFrames, HighFree, FreeIn, FreeAt;
      ghost var bits := bitmap[..];
      HighIn(bits, index);
      var free := IsFree(bitmap, index);
      marked := !free;
      if marked {
        SetFree(bitmap, index);
        HighUpdate(bits, bitmap[..], index);
      }
    }

    method AllocLow() returns (paddr: nat)
      requires Valid()
      modifies this, lowBitmap
      ensures Valid()
      ensures state == AllocLowStep(old(state))
      ensures paddr == Returned(old(state), Call.AllocLow)
    {
      var found, index := TakeFirstFree(lowBitmap);
      assert bitmap[..] == old(bitmap[..]);
      if !found {
        return 0;
      }
      NonEmptyCard(state.low);
      lowFreeCount := lowFreeCount - 1;
      state := AllocLowStep(state);
      paddr := index * PAGE_SIZE;
    }

    method Alloc() returns (paddr: nat)
      requires Valid()
      modifies this, bitmap
      ensures Valid()
      ensures state == AllocStep(old(state))
      ensures paddr == Returned(old(state), Call.Alloc)
    {
      ghost var bits := bitmap[..];
      LeastHigh(bits);
      var found, index := TakeFirstFree(bitmap);
      assert lowBitmap[..] == old(lowBitmap[..]);
      if !found {
        return 0;
      }
      HighUpdate(bits, bitmap[..], index);
      NonEmptyCard(state.high);
      freePagesCount := freePagesCount - 1;
      state := AllocStep(state);
      paddr := FOUR_GB + index * PAGE_SIZE;
    }
  }
}
