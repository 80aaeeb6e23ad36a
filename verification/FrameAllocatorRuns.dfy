/** Properties of every run of pfa_free, pfa_alloc_low and pfa_alloc calls. */
module FrameAllocatorRuns {
  import opened FrameAllocator

  ghost function Run(s: Pfa, calls: seq<Call>): (s': Pfa)
    requires s.Counted()
    ensures s'.Counted()
  {
    if calls == [] then s
    else
      var before := Run(s, calls[..|calls| - 1]);
      StepCounted(before, calls[|calls| - 1]);
      Step(before, calls[|calls| - 1])
  }

  /** The state call number `i` finds. */
  ghost function Before(s: Pfa, calls: seq<Call>, i: nat): (s': Pfa)
    requires s.Counted() && i <= |calls|
    ensures s'.Counted()
  {
    Run(s, calls[..i])
  }

  ghost function Result(s: Pfa, calls: seq<Call>, i: nat): nat
    requires s.Counted() && i < |calls|
  {
    Returned(Before(s, calls, i), calls[i])
  }

  lemma BeforeNext(s: Pfa, calls: seq<Call>, i: nat)
    requires s.Counted() && i < |calls|
    ensures Before(s, calls, i + 1) == Step(Before(s, calls, i), calls[i])
  {
    assert calls[..i + 1][..i] == calls[..i];
  }

  lemma StepCounted(s: Pfa, c: Call)
    requires s.Counted()
    ensures Step(s, c).Counted()
  {
    if c.Free? {
      FreeCounted(s, c.paddr);
      hide FreeStep;
    }
  }

  lemma FreeCounted(s: Pfa, paddr: nat)
    requires s.Counted()
    ensures FreeStep(s, paddr).Counted()
  {
    var f := paddr / PAGE_SIZE;
    hide Pfa.InRange;
    AddCard(s.low, f);
    AddCard(s.high, f);
  }

  /** Every free pairs with the page-aligned address of its frame. */
  predicate Aligned(c: Call) {
    c.Free? ==> c.paddr % PAGE_SIZE == 0
  }

  ghost predicate Sound(s: Pfa) {
    s.Counted() && s.InRange() && 0 !in s.low
  }

  lemma StepSound(s: Pfa, c: Call)
    requires Sound(s) && Aligned(c)
    ensures Sound(Step(s, c))
  {
    if c.Free? && c.paddr != 0 {
      var f := c.paddr / PAGE_SIZE;
      assert f != 0;
      FreeStepCases(s, c.paddr);
      if f < LOW_FRAMES {
        FreeLowKeeps(s, f);
      } else if f < LOW_FRAMES + MAX_PAGES {
        FreeHighKeeps(s, f);
      }
    }
  }

  /** A frame is handed out only when free, and is not free afterwards. */
  lemma AllocTakes(s: Pfa, c: Call)
    requires Sound(s) && Returned(s, c) != 0
    ensures var f := Returned(s, c) / PAGE_SIZE;
            && Returned(s, c) == f * PAGE_SIZE
            && f in s.Frames() && f !in Step(s, c).Frames()
  {
  }

  lemma {:induction false} RunSound(s: Pfa, calls: seq<Call>)
    requires Sound(s) && forall c :: c in calls ==> Aligned(c)
    ensures Sound(Run(s, calls))
  {
    if calls != [] {
      RunSound(s, calls[..|calls| - 1]);
      StepSound(Run(s, calls[..|calls| - 1]), calls[|calls| - 1]);
    }
  }

  /** The counters, over every run from a state where they are right: each free
      counter is the number of free bits, and total - free has grown by the
      number of allocations that returned a frame. */
  ghost function Successes(s: Pfa, calls: seq<Call>, low: bool): nat
    requires s.Counted()
  {
    if calls == [] then 0
    else
      var c := calls[|calls| - 1];
      var before := Run(s, calls[..|calls| - 1]);
      Successes(s, calls[..|calls| - 1], low)
      + if c == (if low then AllocLow else Alloc) && Returned(before, c) != 0 then 1 else 0
  }

  lemma StepCounters(s: Pfa, c: Call)
    requires Sound(s) && Aligned(c)
    ensures var e := Step(s, c);
            && e.lowTotal - e.lowFree == s.lowTotal - s.lowFree
                 + (if c == AllocLow && Returned(s, c) != 0 then 1 else 0)
            && e.highTotal - e.highFree == s.highTotal - s.highFree
                 + (if c == Alloc && Returned(s, c) != 0 then 1 else 0)
  {
  }

  lemma {:induction false} CountersExact(s: Pfa, calls: seq<Call>)
    requires Sound(s) && forall c :: c in calls ==> Aligned(c)
    ensures var e := Run(s, calls);
            && e.lowFree == |e.low| && e.highFree == |e.high|
            && e.lowTotal - e.lowFree == s.lowTotal - s.lowFree + Successes(s, calls, true)
            && e.highTotal - e.highFree == s.highTotal - s.highFree + Successes(s, calls, false)
  {
    if calls != [] {
      CountersExact(s, calls[..|calls| - 1]);
      RunSound(s, calls[..|calls| - 1]);
      StepCounters(Run(s, calls[..|calls| - 1]), calls[|calls| - 1]);
    }
  }

  /** No call returns frame 0, low frames stay below four gigabytes although
      their bitmap spans eight, and high frames start there. */
  lemma {:induction false} ResultRange(s: Pfa, calls: seq<Call>, i: nat)
    requires Sound(s) && i < |calls| && forall c :: c in calls ==> Aligned(c)
    ensures var r := Result(s, calls, i);
            && r % 4096 == 0
            && (calls[i] == AllocLow ==> r < 0x1_0000_0000 && (r == 0 <==> Before(s, calls, i).low == {}))
            && (calls[i] == Alloc ==> (r == 0 || r >= 0x1_0000_0000)
                                      && (r == 0 <==> Before(s, calls, i).high == {}))
  {
    RunSound(s, calls[..i]);
    hide Run, Sound, Returned;
    ReturnedRange(Before(s, calls, i), calls[i]);
  }

  lemma ReturnedRange(s: Pfa, c: Call)
    requires Sound(s)
    ensures var r := Returned(s, c);
            && r % 4096 == 0
            && (c == AllocLow ==> r < 0x1_0000_0000 && (r == 0 <==> s.low == {}))
            && (c == Alloc ==> (r == 0 || r >= 0x1_0000_0000) && (r == 0 <==> s.high == {}))
  {
  }

  /** A free of an unaligned address below 4096 is the one way frame 0 becomes
      free; from then on pfa_alloc_low reports failure with frames left. */
  lemma FrameZeroLooksLikeFailure(s: Pfa)
    requires s.Counted()
    ensures Returned(s, AllocLow) == 0 <==> s.low == {} || 0 in s.low
    ensures forall p: nat :: 0 !in s.low ==> (0 in FreeStep(s, p).low <==> 0 < p < PAGE_SIZE)
  {
    if s.low != {} && 0 in s.low {
      assert Least(s.low) == 0;
    }
  }

  ghost predicate Frees(c: Call, frame: nat) {
    c.Free? && c.paddr / PAGE_SIZE == frame
  }

  lemma OnlyFreesAdd(s: Pfa, c: Call, f: nat)
    requires s.Counted() && f !in s.Frames() && !Frees(c, f)
    ensures f !in Step(s, c).Frames()
  {
  }

  /** A frame that is not free stays so until a call frees it. */
  lemma {:induction false} StaysTaken(s: Pfa, calls: seq<Call>, i: nat, j: nat, f: nat)
    requires s.Counted() && i <= j <= |calls|
    requires f !in Before(s, calls, i).Frames()
    requires forall k :: i <= k < j ==> !Frees(calls[k], f)
    ensures f !in Before(s, calls, j).Frames()
    decreases j
  {
    hide Before, Frees, Step, Pfa.Frames;
    if i < j {
      StaysTaken(s, calls, i, j - 1, f);
      BeforeNext(s, calls, j - 1);
      OnlyFreesAdd(Before(s, calls, j - 1), calls[j - 1], f);
    }
  }

  /** Between two calls that return the same frame somebody freed it. */
  lemma {:induction false} NoDoubleHandout(s: Pfa, calls: seq<Call>, i: nat, j: nat)
    requires Sound(s) && forall c :: c in calls ==> Aligned(c)
    requires i < j < |calls|
    requires Result(s, calls, i) == Result(s, calls, j) != 0
    ensures exists k :: i < k < j && Frees(calls[k], Result(s, calls, i) / PAGE_SIZE)
  {
    var f := Result(s, calls, i) / PAGE_SIZE;
    RunSound(s, calls[..i]);
    RunSound(s, calls[..j]);
    BeforeNext(s, calls, i);
    AllocTakes(Before(s, calls, i), calls[i]);
    AllocTakes(Before(s, calls, j), calls[j]);
    if forall k :: i + 1 <= k < j ==> !Frees(calls[k], f) {
      StaysTaken(s, calls, i + 1, j, f);
    }
  }

  /** `n` calls of pfa_alloc_low in a row. */
  function LowCalls(n: nat): seq<Call> {
    seq(n, _ => AllocLow)
  }

  lemma LowCallsPrefix(n: nat, i: nat)
    requires i <= n
    ensures LowCalls(n)[..i] == LowCalls(i)
  {
  }

  /** Allocating `n` times takes the `n` least frames: what is left is above
      every frame handed out. */
  lemma {:induction false} TakesSmallest(s: Pfa, n: nat)
    requires Sound(s) && n <= |s.low|
    ensures var e := Run(s, LowCalls(n));
            && e.low <= s.low && |e.low| == |s.low| - n
            && forall f, g :: f in s.low - e.low && g in e.low ==> f < g
    decreases n
  {
    if n > 0 {
      TakesSmallest(s, n - 1);
      LowCallsPrefix(n, n - 1);
      var before := Run(s, LowCalls(n - 1));
      var m := Least(before.low);
      var e := Run(s, LowCalls(n));
      assert e.low == before.low - {m};
      forall f, g | f in s.low - e.low && g in e.low
        ensures f < g
      {
        if f == m {
          assert m <= g;
        } else {
          assert f in s.low - before.low;
        }
      }
    }
  }

  /** Results come in increasing order, each a frame that was free at the start. */
  lemma {:induction false} IncreasingOrder(s: Pfa, n: nat, i: nat, j: nat)
    requires Sound(s) && i < j < n <= |s.low|
    ensures var r := Result(s, LowCalls(n), i); var t := Result(s, LowCalls(n), j);
            r < t && r / PAGE_SIZE in s.low && t / PAGE_SIZE in s.low
  {
    TakesSmallest(s, i);
    TakesSmallest(s, i + 1);
    TakesSmallest(s, j);
    LowCallsPrefix(n, i);
    LowCallsPrefix(n, i + 1);
    LowCallsPrefix(n, j);
    LowCallsPrefix(i + 1, i);
    BeforeNext(s, LowCalls(n), i);
    var b := Before(s, LowCalls(n), i);
    var c := Before(s, LowCalls(n), j);
    StillAbove(s, n, i + 1, j);
    assert Least(b.low) in s.low - Run(s, LowCalls(i + 1)).low;
    assert Least(c.low) in Run(s, LowCalls(i + 1)).low;
  }

  lemma {:induction false} StillAbove(s: Pfa, n: nat, i: nat, j: nat)
    requires Sound(s) && i <= j <= n <= |s.low|
    ensures Run(s, LowCalls(j)).low <= Run(s, LowCalls(i)).low
    decreases j
  {
    if i < j {
      StillAbove(s, n, i, j - 1);
      LowCallsPrefix(j, j - 1);
    }
  }

  /** When the least free frames are consecutive, so are the pages returned. */
  lemma {:induction false} ConsecutivePages(s: Pfa, n: nat, first: nat, i: nat)
    requires Sound(s) && i < n
    requires forall f :: f in s.low ==> first <= f
    requires forall k :: first <= k < first + n ==> k in s.low
    ensures Result(s, LowCalls(n), i) == (first + i) * PAGE_SIZE
    ensures forall f :: f in Before(s, LowCalls(n), i).low <==> f in s.low && first + i <= f
    decreases i
  {
    LowCallsPrefix(n, i);
    if i > 0 {
      ConsecutivePages(s, n, first, i - 1);
      BeforeNext(s, LowCalls(n), i - 1);
    }
    var b := Before(s, LowCalls(n), i);
    assert first + i in b.low;
    assert Least(b.low) == first + i;
  }

  lemma {:induction false} OnlyShrinks(s: Pfa, n: nat, i: nat)
    requires Sound(s) && i <= n
    ensures Sound(Before(s, LowCalls(n), i)) && Before(s, LowCalls(n), i).low <= s.low
    decreases i
  {
    if i > 0 {
      OnlyShrinks(s, n, i - 1);
      BeforeNext(s, LowCalls(n), i - 1);
      StepSound(Before(s, LowCalls(n), i - 1), AllocLow);
    }
  }

  lemma HandedOut(s: Pfa, n: nat, i: nat, k: nat)
    requires Sound(s) && i < n && k != 0 && Result(s, LowCalls(n), i) == k * PAGE_SIZE
    ensures k in s.low
  {
    OnlyShrinks(s, n, i);
    hide Before;
    AllocTakes(Before(s, LowCalls(n), i), AllocLow);
  }

  /** What the controller driver's multi-page pools lean on: pages allocated in a
      row are contiguous exactly if the least free frames are consecutive. */
  lemma ContiguousPool(s: Pfa, n: nat)
    requires Sound(s) && s.low != {} && n >= 1
    ensures (forall i :: 0 <= i < n ==> Result(s, LowCalls(n), i) == Result(s, LowCalls(n), 0) + i * PAGE_SIZE)
            <==> (forall k :: Least(s.low) <= k < Least(s.low) + n ==> k in s.low)
  {
    var calls, first := LowCalls(n), Least(s.low);
    assert Result(s, calls, 0) == first * PAGE_SIZE && first != 0;
    hide Result;
    if forall i :: 0 <= i < n ==> Result(s, calls, i) == Result(s, calls, 0) + i * PAGE_SIZE {
      forall k | first <= k < first + n
        ensures k in s.low
      {
        var i := k - first;
        assert Result(s, calls, i) == k * PAGE_SIZE;
        HandedOut(s, n, i, k);
      }
    }
    if forall k :: first <= k < first + n ==> k in s.low {
      forall i | 0 <= i < n
        ensures Result(s, calls, i) == Result(s, calls, 0) + i * PAGE_SIZE
      {
        ConsecutivePages(s, n, first, i);
      }
    }
  }
}
