/** The keyboard's EP1 transfer ring (xhci.c) as a producer and consumer protocol:
    the driver queues TRBs, a controller following section 4.9.2 of the xHCI
    specification fetches them. */
module TransferRing {
  import opened Basics

  const RING_SIZE: nat := 32
  /** The last slot holds the Link TRB. */
  const USABLE: nat := 31

  const TYPE_NORMAL: nat := 1
  const TYPE_LINK: nat := 6

  /** A transfer request block; `tc` and `cycle` are bits 1 and 0 of its control
      word, `ioc` is bit 5. */
  datatype Trb = Trb(parameter: nat, status: nat, kind: nat, ioc: bool, tc: bool, cycle: bool)

  const ZERO_TRB := Trb(0, 0, 0, false, false, false)

  function Normal(data: nat, cycle: bool): Trb { Trb(data, 8, TYPE_NORMAL, true, false, cycle) }
  function Link(base: nat, cycle: bool): Trb { Trb(base, 0, TYPE_LINK, false, true, cycle) }

  /** The driver's side: the ring at physical address `base`, the enqueue index
      and the producer cycle state. */
  datatype Driver = Driver(base: nat, ring: seq<Trb>, enqueue: nat, cycle: bool) {
    predicate Good() { |ring| == RING_SIZE && enqueue < USABLE }
  }

  /** The controller's side: dequeue index and consumer cycle state. */
  datatype Controller = Controller(dequeue: nat, cycle: bool)

  /** Both sides, and the TRBs queued and fetched so far. */
  datatype State = State(d: Driver, c: Controller, queued: seq<Trb>, seen: seq<Trb>) {
    function Outstanding(): int { |queued| - |seen| }
  }

  /** xhci_queue_kbd_transfer on the ring. */
  function QueueTrb(d: Driver, data: nat): (d': Driver)
    requires d.Good()
    ensures d'.Good()
  {
    var ring := d.ring[d.enqueue := Normal(data, d.cycle)];
    if d.enqueue + 1 >= USABLE then Driver(d.base, ring[USABLE := Link(d.base, d.cycle)], 0, !d.cycle)
    else Driver(d.base, ring, d.enqueue + 1, d.cycle)
  }

  function Queue(s: State, data: nat): State
    requires s.d.Good()
  {
    s.(d := QueueTrb(s.d, data), queued := s.queued + [Normal(data, s.d.cycle)])
  }

  /** One fetch: nothing when the cycle bit differs from the consumer's, a jump
      at a Link TRB, otherwise one TRB. */
  function Fetch(s: State): (s': State)
    requires s.d.Good() && s.c.dequeue < RING_SIZE
    ensures s'.d == s.d && s'.queued == s.queued && s'.c.dequeue < RING_SIZE
  {
    var trb := s.d.ring[s.c.dequeue];
    if trb.cycle != s.c.cycle then s
    else if trb.kind == 6 then
      s.(c := Controller(if trb.parameter == s.d.base then 0 else s.c.dequeue, s.c.cycle != trb.tc))
    else s.(c := Controller((s.c.dequeue + 1) % RING_SIZE, s.c.cycle), seen := s.seen + [trb])
  }

  /** xhci_configure_kbd_endpoint: a zeroed ring, both cycle states 1. */
  function Start(base: nat): State {
    State(Driver(base, seq(RING_SIZE, _ => ZERO_TRB), 0, true), Controller(0, true), [], [])
  }

  // ---------------------------------------------------------------------------
  // Positions
  // ---------------------------------------------------------------------------

  /** Slot and cycle bit of the k-th TRB ever queued. */
  function Slot(k: nat): (i: nat) ensures i < USABLE { k % USABLE }
  function Lap(k: nat): bool { k / USABLE % 2 == 0 }

  lemma NextSlot(k: nat)
    ensures Slot(k + 1) == if Slot(k) == USABLE - 1 then 0 else Slot(k) + 1
    ensures Lap(k + 1) == if Slot(k) == USABLE - 1 then !Lap(k) else Lap(k)
    ensures k < USABLE ==> Slot(k) == k && Lap(k)
  {
  }

  lemma SlotsApart(j: nat, k: nat)
    ensures j < k < j + USABLE ==> Slot(j) != Slot(k)
    ensures k == j + USABLE ==> Slot(j) == Slot(k) && Lap(k) != Lap(j)
    ensures j <= k < j + USABLE && Slot(j) == 0 ==> Lap(k) == Lap(j) && Slot(k) == k - j
  {
  }

  // ---------------------------------------------------------------------------
  // The invariant
  // ---------------------------------------------------------------------------

  /** A Normal TRB that moves 8 bytes and interrupts on completion. */
  predicate IsTransfer(t: Trb) { t.kind == 1 && t.status == 8 && t.ioc && !t.tc }

  /** The last 31 TRBs queued are in their slots; slots never used are zero. */
  ghost predicate RingHolds(ring: seq<Trb>, queued: seq<Trb>, base: nat) {
    var n := |queued|;
    && |ring| == RING_SIZE
    && (forall k: nat | n <= k + USABLE && k < n :: ring[Slot(k)] == queued[k])
    && (forall k: nat | k < n :: IsTransfer(queued[k]) && queued[k].cycle == Lap(k))
    && (forall i: nat | n <= i < USABLE :: ring[i] == ZERO_TRB)
    && ring[USABLE] == if n < USABLE then ZERO_TRB else Trb(base, 0, 6, false, true, !Lap(n))
  }

  /** The controller stands at the next TRB, or on the Link TRB in front of it. */
  predicate Stands(c: Controller, n: nat, m: nat) {
    || (c.dequeue == Slot(m) && c.cycle == Lap(m))
    || (c.dequeue == USABLE && m > 0 && Slot(m) == 0 && c.cycle == !Lap(m) && n < m + USABLE)
  }

  ghost predicate Inv(s: State) {
    var n, m := |s.queued|, |s.seen|;
    && m <= n <= m + USABLE && s.seen == s.queued[..m]
    && s.d.enqueue == Slot(n) && s.d.cycle == Lap(n)
    && RingHolds(s.d.ring, s.queued, s.d.base)
    && Stands(s.c, n, m)
  }

  lemma StartInv(base: nat)
    ensures Inv(Start(base))
  {
  }

  /** What a disciplined driver waits for: at most 30 TRBs outstanding, and not 30
      while the controller still has to follow the Link TRB. */
  predicate Room(s: State) {
    s.Outstanding() < 30 || (s.Outstanding() == 30 && s.c.dequeue != 31)
  }

  /** Queueing fills the next slot, with room or without. */
  lemma QueueHolds(s: State, data: nat)
    requires RingHolds(s.d.ring, s.queued, s.d.base) && s.d.enqueue == Slot(|s.queued|) && s.d.cycle == Lap(|s.queued|)
    ensures var s' := Queue(s, data);
            RingHolds(s'.d.ring, s'.queued, s'.d.base)
            && s'.d.enqueue == Slot(|s'.queued|) && s'.d.cycle == Lap(|s'.queued|)
  {
    hide Slot, Lap;
    var s', n := Queue(s, data), |s.queued|;
    NextSlot(n);
    NextSlot(0);
    forall k: nat | n + 1 <= k + USABLE && k < n + 1
      ensures s'.d.ring[Slot(k)] == s'.queued[k]
    {
      SlotsApart(k, n);
    }
    forall i: nat | n + 1 <= i < USABLE
      ensures s'.d.ring[i] == ZERO_TRB
    {
      NextSlot(i);
    }
    if n < USABLE {
      NextSlot(n);
    }
  }

  lemma QueueKeeps(s: State, data: nat)
    requires Inv(s) && Room(s)
    ensures Inv(Queue(s, data))
  {
    hide Slot, Lap, RingHolds;
    InvGood(s);
    QueueHolds(s, data);
    hide QueueTrb;
  }

  /** What the controller finds at its dequeue index. */
  lemma FetchMeaning(s: State)
    requires Inv(s)
    ensures s.c.dequeue < RING_SIZE
    ensures s.c.dequeue == USABLE ==> Fetch(s) == s.(c := Controller(0, Lap(|s.seen|)))
    ensures s.c.dequeue != USABLE && s.Outstanding() == 0 ==> Fetch(s) == s
    ensures s.c.dequeue != USABLE && s.Outstanding() > 0 ==>
              Fetch(s) == s.(c := Controller(s.c.dequeue + 1, s.c.cycle), seen := s.seen + [s.queued[|s.seen|]])
  {
    hide Slot, Lap;
    var n, m := |s.queued|, |s.seen|;
    if s.c.dequeue == USABLE {
      NextSlot(m);
      SlotsApart(m, n);
      assert n >= USABLE by { NextSlot(n); NextSlot(m); }
    } else if n == m {
      NextSlot(n);
      if n >= USABLE {
        SlotsApart(n - USABLE, n);
      }
    }
  }

  lemma FetchKeeps(s: State)
    requires Inv(s)
    ensures s.c.dequeue < RING_SIZE && Inv(Fetch(s))
  {
    hide Slot, Lap, RingHolds;
    FetchMeaning(s);
    hide Fetch;
    NextSlot(|s.seen|);
  }

  // ---------------------------------------------------------------------------
  // Runs
  // ---------------------------------------------------------------------------

  datatype Step = DriverQueues(data: nat) | ControllerFetches

  function Take(s: State, e: Step): State
    requires s.d.Good() && s.c.dequeue < RING_SIZE
  {
    match e
    case DriverQueues(data) => Queue(s, data)
    case ControllerFetches => Fetch(s)
  }

  /** The driver queues only when there is room. */
  ghost predicate Disciplined(s: State, run: seq<Step>)
    requires Inv(s)
    decreases |run|
  {
    run == [] ||
    (InvGood(s);
     (run[0].DriverQueues? ==> Room(s)) && (TakeKeeps(s, run[0]); Disciplined(Take(s, run[0]), run[1..])))
  }

  lemma InvGood(s: State)
    requires Inv(s)
    ensures s.d.Good() && s.c.dequeue < RING_SIZE
  {
  }

  lemma TakeKeeps(s: State, e: Step)
    requires Inv(s) && (e.DriverQueues? ==> Room(s))
    ensures s.d.Good() && s.c.dequeue < RING_SIZE && Inv(Take(s, e))
  {
    InvGood(s);
    match e
    case DriverQueues(data) => QueueKeeps(s, data);
    case ControllerFetches => FetchKeeps(s);
  }

  ghost function After(s: State, run: seq<Step>): (s': State)
    requires Inv(s) && Disciplined(s, run)
    ensures Inv(s')
    decreases |run|
  {
    if run == [] then s
    else
      InvGood(s);
      TakeKeeps(s, run[0]);
      After(Take(s, run[0]), run[1..])
  }

  function Submitted(run: seq<Step>): seq<nat> {
    if run == [] then []
    else if run[0].DriverQueues? then [run[0].data] + Submitted(run[1..])
    else Submitted(run[1..])
  }

  function Buffers(trbs: seq<Trb>): (b: seq<nat>)
    ensures |b| == |trbs| && forall i :: 0 <= i < |b| ==> b[i] == trbs[i].parameter
  {
    seq(|trbs|, i requires 0 <= i < |trbs| => trbs[i].parameter)
  }

  function Submission(e: Step): seq<nat> { if e.DriverQueues? then [e.data] else [] }

  lemma TakeSubmits(s: State, e: Step)
    requires s.d.Good() && s.c.dequeue < RING_SIZE
    ensures Buffers(Take(s, e).queued) == Buffers(s.queued) + Submission(e)
  {
    hide QueueTrb, Fetch;
    if e.DriverQueues? {
      assert Buffers(s.queued + [Normal(e.data, s.d.cycle)]) == Buffers(s.queued) + [e.data];
    }
  }

  lemma SubmittedStep(run: seq<Step>)
    requires run != []
    ensures Submitted(run) == Submission(run[0]) + Submitted(run[1..])
  {
  }

  /** Over any run, with any number of laps, the controller fetches what was
      submitted: each buffer once, in order, and nothing else. */
  lemma {:induction false} EachOnceInOrder(s: State, run: seq<Step>)
    requires Inv(s) && Disciplined(s, run)
    ensures Buffers(After(s, run).queued) == Buffers(s.queued) + Submitted(run)
    ensures Buffers(After(s, run).seen) <= Buffers(s.queued) + Submitted(run)
    ensures forall k :: 0 <= k < |After(s, run).seen| ==> IsTransfer(After(s, run).seen[k])
    decreases |run|
  {
    hide Inv, Fetch, QueueTrb, Driver.Good, Room, Take, Submission, Buffers, IsTransfer;
    if run == [] {
      assert Submitted(run) == [];
      assert Buffers(s.queued) + [] == Buffers(s.queued);
    } else {
      InvGood(s);
      TakeKeeps(s, run[0]);
      TakeSubmits(s, run[0]);
      SubmittedStep(run);
      EachOnceInOrder(Take(s, run[0]), run[1..]);
      Regroup(Buffers(s.queued), Submission(run[0]), Submitted(run[1..]));
      hide Submitted;
    }
    SeenPrefix(After(s, run));
  }

  lemma SeenPrefix(s: State)
    requires Inv(s)
    ensures Buffers(s.seen) <= Buffers(s.queued)
    ensures forall k :: 0 <= k < |s.seen| ==> IsTransfer(s.seen[k])
  {
  }

  /** A controller that follows the Link TRB as soon as it reaches it. */
  function EagerFetch(s: State): State
    requires s.d.Good() && s.c.dequeue < RING_SIZE
  {
    var t := Fetch(s);
    if t.c.dequeue == USABLE then Fetch(t) else t
  }

  /** For such a controller there is room exactly up to 30 outstanding TRBs, and
      every fetch of an outstanding TRB delivers it. */
  lemma EagerRoom(s: State)
    requires Inv(s) && s.c.dequeue != USABLE
    ensures s.d.Good() && s.c.dequeue < RING_SIZE
    ensures Room(s) <==> s.Outstanding() <= 30
    ensures var t := EagerFetch(s);
            && Inv(t) && t.c.dequeue != USABLE
            && t.seen == if s.Outstanding() > 0 then s.seen + [s.queued[|s.seen|]] else s.seen
  {
    hide Fetch, RingHolds, Slot, Lap;
    InvGood(s);
    FetchMeaning(s);
    FetchKeeps(s);
    if Fetch(s).c.dequeue == USABLE {
      FetchMeaning(Fetch(s));
      FetchKeeps(Fetch(s));
    }
  }

  /** Two fetches deliver the oldest outstanding TRB; with none outstanding any
      number of fetches delivers nothing. */
  lemma NextDelivered(s: State)
    requires Inv(s)
    ensures s.c.dequeue < RING_SIZE
    ensures s.Outstanding() > 0 ==> s.seen + [s.queued[|s.seen|]] <= Fetch(Fetch(s)).seen
    ensures s.Outstanding() == 0 ==> Fetch(Fetch(s)).seen == s.seen
  {
    hide Fetch, RingHolds, Slot, Lap;
    InvGood(s);
    FetchMeaning(s);
    FetchKeeps(s);
    FetchMeaning(Fetch(s));
  }

  // ---------------------------------------------------------------------------
  // A driver that does not wait for room
  // ---------------------------------------------------------------------------

  /** The controller stands at the place of TRB `m`, or on the Link TRB in front. */
  predicate StandsAt(c: Controller, m: nat) {
    || (c.dequeue == Slot(m) && c.cycle == Lap(m))
    || (c.dequeue == USABLE && m > 0 && Slot(m) == 0 && c.cycle == !Lap(m))
  }

  /** What holds however much the driver queues. */
  ghost predicate Loose(s: State) {
    var n := |s.queued|;
    && |s.seen| <= n && s.d.enqueue == Slot(n) && s.d.cycle == Lap(n)
    && RingHolds(s.d.ring, s.queued, s.d.base)
    && StandsAt(s.c, |s.seen|)
  }

  lemma LooseGood(s: State)
    requires Loose(s)
    ensures s.d.Good() && s.c.dequeue < RING_SIZE
  {
  }

  lemma InvLoose(s: State)
    requires Inv(s)
    ensures Loose(s)
  {
  }

  /** Full laps the driver is ahead, not counting its last `own` TRBs. */
  function Laps(s: State, own: nat): nat
    requires |s.seen| + own <= |s.queued|
  {
    (|s.queued| - own - |s.seen|) / USABLE
  }

  /** An even number of laps: the cycle bits agree. */
  predicate Ahead(s: State, own: nat)
    requires |s.seen| + own <= |s.queued|
  {
    Laps(s, own) % 2 == 0
  }

  lemma LapsAre(s: State)
    requires |s.seen| < |s.queued|
    ensures var k := |s.seen| + USABLE * Laps(s, 1); k < |s.queued| <= k + USABLE
  {
  }

  lemma SameSlot(m: nat, j: nat)
    ensures Slot(m + USABLE * j) == Slot(m) && (Lap(m + USABLE * j) == Lap(m) <==> j % 2 == 0)
  {
    assert (m + USABLE * j) / USABLE == m / USABLE + j;
  }

  lemma LinkLaps(n: nat, m: nat)
    requires m <= n && Slot(m) == 0
    ensures Lap(n) == Lap(m) <==> (n - m) / USABLE % 2 == 0
    ensures m > 0 ==> n >= USABLE
  {
    assert m == USABLE * (m / USABLE) && n / USABLE == m / USABLE + (n - m) / USABLE;
  }

  lemma FetchAtLink(s: State)
    requires Loose(s) && s.c.dequeue == USABLE
    ensures s.d.Good() && |s.seen| <= |s.queued|
    ensures Fetch(s) == if Ahead(s, 0) then s.(c := Controller(0, Lap(|s.seen|))) else s
  {
    hide Slot, Lap;
    LooseGood(s);
    LinkLaps(|s.queued|, |s.seen|);
  }

  lemma FetchAtEnd(s: State)
    requires Loose(s) && s.c.dequeue != USABLE && s.Outstanding() == 0
    ensures s.d.Good() && s.c.dequeue < RING_SIZE && Fetch(s) == s
  {
    hide Slot, Lap;
    LooseGood(s);
    var n := |s.queued|;
    if n >= USABLE {
      SlotsApart(n - USABLE, n);
    }
    NextSlot(n);
  }

  lemma FetchAtSlot(s: State)
    requires Loose(s) && s.c.dequeue != USABLE && s.Outstanding() > 0
    ensures s.d.Good() && s.c.dequeue < RING_SIZE
    ensures var k := |s.seen| + USABLE * Laps(s, 1);
            k < |s.queued|
            && Fetch(s) == if Ahead(s, 1) then s.(c := Controller(s.c.dequeue + 1, s.c.cycle), seen := s.seen + [s.queued[k]])
                           else s
  {
    hide Slot, Lap, Laps;
    LooseGood(s);
    LapsAre(s);
    SameSlot(|s.seen|, Laps(s, 1));
  }

  /** What a fetch delivers in general: the newest TRB in the controller's slot if
      that is an even number of laps ahead, nothing if it is an odd number. */
  lemma FetchAnyway(s: State)
    requires Loose(s)
    ensures s.d.Good() && s.c.dequeue < RING_SIZE && |s.seen| <= |s.queued|
    ensures s.c.dequeue != USABLE && s.Outstanding() > 0 ==> |s.seen| + USABLE * Laps(s, 1) < |s.queued|
    ensures Fetch(s) ==
            if s.c.dequeue == USABLE then if Ahead(s, 0) then s.(c := Controller(0, Lap(|s.seen|))) else s
            else if s.Outstanding() == 0 || !Ahead(s, 1) then s
            else s.(c := Controller(s.c.dequeue + 1, s.c.cycle),
                    seen := s.seen + [s.queued[|s.seen| + USABLE * Laps(s, 1)]])
  {
    hide *;
    LooseGood(s);
    OutstandingIs(s);
    if s.c.dequeue == USABLE {
      FetchAtLink(s);
    } else if s.Outstanding() == 0 {
      FetchAtEnd(s);
    } else {
      FetchAtSlot(s);
    }
  }

  lemma OutstandingIs(s: State)
    requires Loose(s)
    ensures 0 <= s.Outstanding() == |s.queued| - |s.seen|
  {
  }

  lemma LooseKeeps(s: State, e: Step)
    requires Loose(s)
    ensures s.d.Good() && s.c.dequeue < RING_SIZE && Loose(Take(s, e))
  {
    LooseGood(s);
    hide Slot, Lap, RingHolds;
    match e
    case DriverQueues(data) =>
      QueueHolds(s, data);
      hide QueueTrb;
    case ControllerFetches =>
      FetchAnyway(s);
      NextSlot(|s.seen|);
      hide Fetch;
  }

  /** Any run at all. */
  ghost function Anyway(s: State, run: seq<Step>): (s': State)
    requires Loose(s)
    ensures Loose(s')
    decreases |run|
  {
    if run == [] then s
    else
      LooseKeeps(s, run[0]);
      Anyway(Take(s, run[0]), run[1..])
  }

  /** The driver is a whole lap ahead of the controller. */
  ghost predicate Overtaken(s: State) {
    Loose(s) && (s.Outstanding() > USABLE || (s.Outstanding() == USABLE && s.c.dequeue == USABLE))
  }

  /** Queueing keeps the two in step exactly if there is room. */
  lemma OverrunExactly(s: State, data: nat)
    requires Inv(s)
    ensures s.d.Good()
    ensures Inv(Queue(s, data)) <==> Room(s)
    ensures Overtaken(Queue(s, data)) <==> !Room(s)
  {
    InvGood(s);
    InvLoose(s);
    if Room(s) {
      QueueKeeps(s, data);
    }
    LooseKeeps(s, DriverQueues(data));
    hide Slot, Lap, RingHolds, QueueTrb;
  }

  /** Delivery `i` is a TRB queued at least 62 after the one due. */
  ghost predicate Late(s: State, i: nat) {
    i < |s.seen| && exists k :: i + 2 * USABLE <= k < |s.queued| && s.seen[i] == s.queued[k]
  }

  /** A controller once overtaken stays so: it is given nothing until the driver is
      63 TRBs ahead, and then a TRB that comes late. */
  lemma OvertakenStep(s: State, e: Step)
    requires Overtaken(s)
    ensures s.d.Good() && s.c.dequeue < RING_SIZE && Overtaken(Take(s, e)) && s.queued <= Take(s, e).queued
    ensures var t := Take(s, e);
            || t.seen == s.seen
            || (s.Outstanding() > 2 * USABLE && t.queued == s.queued
                && s.seen <= t.seen && |t.seen| == |s.seen| + 1 && Late(t, |s.seen|))
  {
    LooseKeeps(s, e);
    FetchAnyway(s);
    hide Slot, Lap, RingHolds, QueueTrb, Fetch;
    var n, m := |s.queued|, |s.seen|;
    if e.ControllerFetches? && Fetch(s).seen != s.seen {
      var k := m + USABLE * Laps(s, 1);
      assert 2 <= Laps(s, 1) && k < n;
      assert m + 2 * USABLE <= k && Fetch(s).seen[m] == Fetch(s).queued[k];
    }
  }

  lemma OvertakenRun(s: State, run: seq<Step>)
    requires Overtaken(s) && run != []
    ensures s.d.Good() && s.c.dequeue < RING_SIZE && Overtaken(Take(s, run[0]))
    ensures Anyway(s, run) == Anyway(Take(s, run[0]), run[1..])
  {
    OvertakenStep(s, run[0]);
    hide Take;
  }

  lemma StaysLate(s: State, t: State, i: nat)
    requires Late(s, i) && s.seen <= t.seen && s.queued <= t.queued
    ensures Late(t, i)
  {
    var k :| i + 2 * USABLE <= k < |s.queued| && s.seen[i] == s.queued[k];
    assert t.seen[i] == t.queued[k];
  }

  /** The 62 TRBs due next are lost for good: in place of each TRB the controller
      is given one queued at least 62 later, if any. */
  lemma {:induction false} LostForGood(s: State, run: seq<Step>)
    requires Overtaken(s)
    ensures var t := Anyway(s, run);
            && Overtaken(t) && s.seen <= t.seen && s.queued <= t.queued
            && forall i :: |s.seen| <= i < |t.seen| ==> Late(t, i)
    decreases |run|
  {
    hide Loose, Take, Fetch, Late;
    if run != [] {
      OvertakenRun(s, run);
      OvertakenStep(s, run[0]);
      var u := Take(s, run[0]);
      LostForGood(u, run[1..]);
      if u.seen != s.seen {
        StaysLate(u, Anyway(s, run), |s.seen|);
      }
    }
  }

  /** Until the driver is 63 TRBs ahead, the controller sees nothing. */
  lemma {:induction false} StuckMeanwhile(s: State, run: seq<Step>)
    requires Overtaken(s) && |s.queued| + |Submitted(run)| <= |s.seen| + 2 * USABLE
    ensures Anyway(s, run).seen == s.seen
    decreases |run|
  {
    hide Loose, Fetch, QueueTrb;
    if run != [] {
      OvertakenRun(s, run);
      OvertakenStep(s, run[0]);
      StuckMeanwhile(Take(s, run[0]), run[1..]);
    }
  }

  lemma TwoLaps(s: State)
    requires 2 * USABLE < s.Outstanding() < 3 * USABLE
    ensures Laps(s, 0) == Laps(s, 1) == 2 && Ahead(s, 0) && Ahead(s, 1)
  {
  }

  /** Then it goes on, with the TRB 62 after the one due. */
  lemma ResumesLate(s: State)
    requires Overtaken(s) && 2 * USABLE < s.Outstanding() < 3 * USABLE
    ensures s.c.dequeue < RING_SIZE
    ensures s.seen + [s.queued[|s.seen| + 2 * USABLE]] <= Fetch(Fetch(s)).seen
  {
    TwoLaps(s);
    FetchAnyway(s);
    LooseKeeps(s, ControllerFetches);
    var t := Fetch(s);
    if s.c.dequeue == USABLE {
      TwoLaps(t);
    }
    FetchAnyway(t);
    hide Loose, Fetch, Laps, Ahead, Slot, Lap;
  }

  /** `n` TRBs queued from the start, none fetched. */
  ghost function Unfetched(base: nat, n: nat): (s: State)
    ensures Loose(s) && |s.queued| == n && s.seen == [] && s.c == Controller(0, true)
    ensures forall k :: 0 <= k < n ==> s.queued[k].parameter == k
  {
    if n == 0 then
      StartInv(base);
      InvLoose(Start(base));
      Start(base)
    else
      var before := Unfetched(base, n - 1);
      LooseKeeps(before, DriverQueues(n - 1));
      Queue(before, n - 1)
  }

  /** The first TRB delivered out of 63 is the last. */
  lemma SixtyThreeQueued(base: nat)
    ensures var s := Unfetched(base, 63);
            && s.d.Good() && s.c.dequeue < RING_SIZE && |Fetch(Fetch(s)).seen| > 0
            && Fetch(Fetch(s)).seen[0].parameter == 62
  {
    hide Loose, Fetch;
    var s := Unfetched(base, 63);
    LooseGood(s);
    ResumesLate(s);
  }

  /** So waiting for room is exactly what keeps the two in step. */
  lemma {:induction false} DisciplineDecides(s: State, run: seq<Step>)
    requires Inv(s)
    ensures (InvLoose(s); Disciplined(s, run) <==> Inv(Anyway(s, run)))
    decreases |run|
  {
    InvLoose(s);
    if run != [] {
      InvGood(s);
      if run[0].DriverQueues? && !Room(s) {
        OverrunExactly(s, run[0].data);
        LostForGood(Queue(s, run[0].data), run[1..]);
        OutOfStep(Anyway(s, run));
      } else {
        TakeKeeps(s, run[0]);
        DisciplineDecides(Take(s, run[0]), run[1..]);
      }
    }
  }

  lemma OutOfStep(s: State)
    requires Overtaken(s)
    ensures !Inv(s)
  {
  }

  // ---------------------------------------------------------------------------
  // Single stores
  // ---------------------------------------------------------------------------

  /** Ring memory after each store of xhci_queue_kbd_transfer to the TRB in front
      of the last: zeroed, with parameter, with status, with control but without
      the cycle bit. */
  function Partial(data: nat, stores: nat): Trb
    requires 1 <= stores <= 4
  {
    if stores == 1 then ZERO_TRB
    else if stores == 2 then ZERO_TRB.(parameter := data)
    else if stores == 3 then ZERO_TRB.(parameter := data, status := 8)
    else Normal(data, false)
  }

  function HalfQueued(s: State, data: nat, stores: nat): State
    requires s.d.Good() && 1 <= stores <= 4
  {
    s.(d := s.d.(ring := s.d.ring[s.d.enqueue := Partial(data, stores)]))
  }

  /** A controller that fetches between the stores is disturbed exactly when it
      waits at the slot being written and the producer cycle state is 0: then the
      cleared cycle bit already hands the unfinished TRB over. */
  lemma HalfQueuedSeen(s: State, data: nat, stores: nat)
    requires Inv(s) && Room(s) && 1 <= stores <= 4
    ensures s.d.Good() && s.c.dequeue < RING_SIZE
    ensures Fetch(HalfQueued(s, data, stores)).seen == Fetch(s).seen <==>
              s.d.cycle || s.Outstanding() > 0 || s.c.dequeue == USABLE
  {
    InvGood(s);
    FetchMeaning(s);
    hide Slot, Lap;
    var n, m := |s.queued|, |s.seen|;
    if s.Outstanding() > 0 && s.c.dequeue != USABLE {
      SlotsApart(m, n);
    }
  }

  /** The Link TRB after each store that rewrites it: zeroed, with the ring's
      address, with control but without the cycle bit. */
  function PartialLink(base: nat, stores: nat): Trb
    requires 1 <= stores <= 3
  {
    if stores == 1 then ZERO_TRB else if stores == 2 then ZERO_TRB.(parameter := base) else Link(base, false)
  }

  function HalfLinked(s: State, stores: nat): State
    requires s.d.Good() && 1 <= stores <= 3
  {
    s.(d := s.d.(ring := s.d.ring[USABLE := PartialLink(s.d.base, stores)]))
  }

  /** While the Link TRB is rewritten, a controller is given a TRB nobody queued
      exactly when it waits there with consumer cycle state 0 and the TRB is not a
      Link TRB yet. */
  lemma HalfLinkedSeen(s: State, stores: nat)
    requires Inv(s) && |s.queued| > 0 && s.d.enqueue == 0 && 1 <= stores <= 3
    ensures s.d.Good() && s.c.dequeue < RING_SIZE
    ensures Fetch(HalfLinked(s, stores)).seen == Fetch(s).seen <==>
              s.c.dequeue != USABLE || s.c.cycle || stores == 3
  {
    InvGood(s);
    FetchMeaning(s);
    hide Slot, Lap;
  }

  /** The state `n` TRBs after the start, each fetched before the next is queued. */
  ghost function Played(base: nat, n: nat): (s: State)
    ensures Inv(s) && |s.queued| == |s.seen| == n && s.c.dequeue != USABLE && s.d.Good()
  {
    StartInv(base);
    if n == 0 then Start(base)
    else
      var before := Played(base, n - 1);
      PlayOne(before, n);
      EagerFetch(Queue(before, n))
  }

  lemma PlayOne(s: State, data: nat)
    requires Inv(s) && s.Outstanding() == 0 && s.c.dequeue != USABLE
    ensures s.d.Good() && s.c.dequeue < RING_SIZE
    ensures var t := EagerFetch(Queue(s, data));
            Inv(t) && |t.queued| == |t.seen| == |s.queued| + 1 && t.c.dequeue != USABLE && t.d.Good()
  {
    hide Slot, Lap, RingHolds, Fetch, QueueTrb;
    InvGood(s);
    QueueKeeps(s, data);
    EagerRoom(Queue(s, data));
    InvGood(EagerFetch(Queue(s, data)));
  }

  /** In the second lap a fast controller takes the 32nd TRB before it is filled
      in. */
  lemma HalfQueuedFails(base: nat, data: nat)
    ensures var s := Played(base, USABLE);
            Inv(s) && Room(s) && Fetch(HalfQueued(s, data, 1)).seen != Fetch(s).seen
  {
    hide *;
    var s := Played(base, USABLE);
    SecondLap(s);
    HalfQueuedSeen(s, data, 1);
  }

  /** 62 TRBs queued, each fetched before the next, and the controller waiting on
      the Link TRB. */
  ghost function AtSecondLink(base: nat): (s: State)
    ensures Inv(s) && |s.queued| == |s.seen| == 2 * USABLE && s.d.enqueue == 0 && s.c == Controller(USABLE, false)
  {
    var before := Played(base, 2 * USABLE - 1);
    LinkReached(before);
    Fetch(Queue(before, 0))
  }

  lemma LinkReached(s: State)
    requires Inv(s) && |s.queued| == |s.seen| == 2 * USABLE - 1 && s.c.dequeue != USABLE && s.d.Good()
    ensures s.c.dequeue < RING_SIZE
    ensures var t := Fetch(Queue(s, 0));
            Inv(t) && |t.queued| == |t.seen| == 2 * USABLE && t.d.enqueue == 0 && t.c == Controller(USABLE, false)
  {
    hide RingHolds, Fetch, QueueTrb;
    QueueKeeps(s, 0);
    FetchMeaning(Queue(s, 0));
    FetchKeeps(Queue(s, 0));
  }

  /** While the Link TRB is rewritten for the second time a controller waiting there
      takes the cleared one for a TRB. */
  lemma HalfLinkedFails(base: nat)
    ensures var s := AtSecondLink(base);
            s.d.Good() && s.c.dequeue < RING_SIZE && Fetch(HalfLinked(s, 1)).seen != Fetch(s).seen
  {
    hide Inv, Fetch, HalfLinked, Played, AtSecondLink;
    HalfLinkedSeen(AtSecondLink(base), 1);
  }

  lemma SecondLap(s: State)
    requires Inv(s) && |s.queued| == |s.seen| == USABLE
    ensures Room(s) && !s.d.cycle && s.Outstanding() == 0
  {
  }

  // ---------------------------------------------------------------------------
  // The driver
  // ---------------------------------------------------------------------------

  class KeyboardRing {
    const base: nat
    const ring: array<Trb>
    var enqueue: nat
    var cycle: bool

    predicate Valid()
      reads this
    {
      ring.Length == RING_SIZE && enqueue < USABLE
    }

    ghost function Abstract(): (d: Driver)
      requires Valid()
      reads this, ring
      ensures d.Good()
    {
      Driver(base, ring[..], enqueue, cycle)
    }

    constructor (base: nat)
      ensures Valid() && fresh(ring) && Abstract() == Start(base).d
    {
      this.base, enqueue, cycle := base, 0, true;
      ring := new Trb[RING_SIZE](_ => ZERO_TRB);
      new;
      assert ring[..] == seq(RING_SIZE, _ => ZERO_TRB);
    }

    /** xhci_queue_kbd_transfer, store by store. */
    method QueueTransfer(data: nat)
      requires Valid()
      modifies this`enqueue, this`cycle, ring
      ensures Valid() && Abstract() == QueueTrb(old(Abstract()), data)
    {
      ring[enqueue] := ZERO_TRB;
      ring[enqueue] := ring[enqueue].(parameter := data);
      ring[enqueue] := ring[enqueue].(status := 8);
      ring[enqueue] := ring[enqueue].(kind := TYPE_NORMAL, ioc := true);
      if cycle {
        ring[enqueue] := ring[enqueue].(cycle := true);
      }
      enqueue := enqueue + 1;
      if enqueue >= USABLE {
        ring[USABLE] := ZERO_TRB;
        ring[USABLE] := ring[USABLE].(parameter := base);
        ring[USABLE] := ring[USABLE].(kind := TYPE_LINK, tc := true);
        if cycle {
          ring[USABLE] := ring[USABLE].(cycle := true);
        }
        enqueue := 0;
        cycle := !cycle;
      }
    }
  }
}
