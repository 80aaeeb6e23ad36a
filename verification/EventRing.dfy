/** The xHCI event ring (xhci.c): the controller posts, the driver's polling loops
    consume and publish how far they came (section 4.9.4 of the xHCI
    specification). */
module EventRing {
  import opened Basics

  const RING_SIZE: nat := 32

  const TRANSFER_EVENT: nat := 32

  /** The fields the driver looks at. */
  datatype Event = Event(kind: nat, code: nat, slot: nat, cycle: bool)

  const ZERO_EVENT := Event(0, 0, 0, false)

  /** Consumer side: event_ring_dequeue_ptr and event_ring_cycle_state. */
  datatype Consumer = Consumer(dequeue: nat, cycle: bool)

  /** The ring, the consumer, what was posted and consumed so far, and how many
      consumed events the dequeue-pointer register tells the controller about. */
  datatype State = State(ring: seq<Event>, c: Consumer, posted: seq<Event>, consumed: seq<Event>, published: nat)

  function Slot(k: nat): (i: nat) ensures i < RING_SIZE { k % RING_SIZE }
  function Lap(k: nat): bool { k / RING_SIZE % 2 == 0 }

  lemma NextSlot(k: nat)
    ensures Slot(k + 1) == (Slot(k) + 1) % RING_SIZE
    ensures Lap(k + 1) == if Slot(k + 1) == 0 then !Lap(k) else Lap(k)
    ensures k < RING_SIZE ==> Slot(k) == k && Lap(k)
  {
  }

  lemma SlotsApart(j: nat, k: nat)
    ensures j < k < j + RING_SIZE ==> Slot(j) != Slot(k)
    ensures k == j + RING_SIZE ==> Slot(j) == Slot(k) && Lap(k) != Lap(j)
  {
  }

  /** The controller posts into the next slot with its producer cycle bit. */
  function Post(s: State, kind: nat, code: nat, slot: nat): State
    requires |s.ring| == RING_SIZE
  {
    var ev := Event(kind, code, slot, Lap(|s.posted|));
    s.(ring := s.ring[Slot(|s.posted|) := ev], posted := s.posted + [ev])
  }

  /** A controller that respects the published pointer waits for this. */
  predicate Room(s: State) { |s.posted| < s.published + 32 }

  function Advance(c: Consumer): Consumer {
    var d := (c.dequeue + 1) % RING_SIZE;
    Consumer(d, if d == 0 then !c.cycle else c.cycle)
  }

  /** The event at the dequeue index, if it belongs to the consumer. */
  function Peek(ring: seq<Event>, c: Consumer): Option<Event>
    requires |ring| == RING_SIZE && c.dequeue < RING_SIZE
  {
    if ring[c.dequeue].cycle == c.cycle then Some(ring[c.dequeue]) else None
  }

  function Consume(s: State): State
    requires |s.ring| == RING_SIZE && s.c.dequeue < RING_SIZE
  {
    match Peek(s.ring, s.c)
    case None => s
    case Some(ev) => s.(c := Advance(s.c), consumed := s.consumed + [ev])
  }

  function Publish(s: State): State { s.(published := |s.consumed|) }

  function Start(): State {
    State(seq(RING_SIZE, _ => ZERO_EVENT), Consumer(0, true), [], [], 0)
  }

  ghost predicate RingHolds(ring: seq<Event>, posted: seq<Event>) {
    var p := |posted|;
    && |ring| == RING_SIZE
    && (forall k: nat | p <= k + RING_SIZE && k < p :: ring[Slot(k)] == posted[k])
    && (forall k: nat | k < p :: posted[k].cycle == Lap(k))
    && (forall i: nat | p <= i < RING_SIZE :: ring[i] == ZERO_EVENT)
  }

  /** Pointer and cycle state are functions of the number consumed. */
  ghost predicate Inv(s: State) {
    var p, c := |s.posted|, |s.consumed|;
    && s.published <= c <= p <= s.published + RING_SIZE && s.consumed == s.posted[..c]
    && s.c == Consumer(Slot(c), Lap(c))
    && RingHolds(s.ring, s.posted)
  }

  lemma StartInv()
    ensures Inv(Start())
  {
  }

  lemma PostKeeps(s: State, kind: nat, code: nat, slot: nat)
    requires Inv(s) && Room(s)
    ensures Inv(Post(s, kind, code, slot))
  {
    hide Slot, Lap;
    var s', p := Post(s, kind, code, slot), |s.posted|;
    NextSlot(p);
    forall k: nat | p + 1 <= k + RING_SIZE && k < p + 1
      ensures s'.ring[Slot(k)] == s'.posted[k]
    {
      SlotsApart(k, p);
    }
    forall i: nat | p + 1 <= i < RING_SIZE
      ensures s'.ring[i] == ZERO_EVENT
    {
      NextSlot(i);
    }
  }

  /** The consumer gets the oldest event it has not seen, and nothing when there
      is none. */
  lemma ConsumeMeaning(s: State)
    requires Inv(s)
    ensures Consume(s) == if |s.consumed| == |s.posted| then s
                          else s.(c := Advance(s.c), consumed := s.consumed + [s.posted[|s.consumed|]])
  {
    hide Slot, Lap;
    var p, c := |s.posted|, |s.consumed|;
    NextSlot(c);
    if c == p && p >= RING_SIZE {
      SlotsApart(p - RING_SIZE, p);
    }
  }

  lemma ConsumeKeeps(s: State)
    requires Inv(s)
    ensures Inv(Consume(s)) && Inv(Publish(s))
  {
    hide Slot, Lap, RingHolds, Peek;
    ConsumeMeaning(s);
    NextSlot(|s.consumed|);
    hide Consume;
  }

  /** One event too many: the consumer finds nothing although 33 are pending. */
  lemma OverrunHides(s: State, kind: nat, code: nat, slot: nat)
    requires Inv(s) && |s.posted| == |s.consumed| + RING_SIZE
    ensures !Room(s) && Consume(Post(s, kind, code, slot)) == Post(s, kind, code, slot)
  {
    hide Lap;
    SlotsApart(|s.consumed|, |s.posted|);
  }

  // ---------------------------------------------------------------------------
  // Runs
  // ---------------------------------------------------------------------------

  datatype Step = Posts(kind: nat, code: nat, slot: nat) | Consumes | Publishes

  function Take(s: State, e: Step): State
    requires |s.ring| == RING_SIZE && s.c.dequeue < RING_SIZE
  {
    match e
    case Posts(kind, code, slot) => Post(s, kind, code, slot)
    case Consumes => Consume(s)
    case Publishes => Publish(s)
  }

  lemma TakeKeeps(s: State, e: Step)
    requires Inv(s) && (e.Posts? ==> Room(s))
    ensures Inv(Take(s, e))
  {
    hide Slot, Lap, RingHolds, Peek;
    match e
    case Posts(kind, code, slot) => PostKeeps(s, kind, code, slot);
    case Consumes => ConsumeKeeps(s);
    case Publishes => ConsumeKeeps(s);
  }

  lemma InvGood(s: State)
    requires Inv(s)
    ensures |s.ring| == RING_SIZE && s.c.dequeue < RING_SIZE
  {
  }

  ghost predicate Respectful(s: State, run: seq<Step>)
    requires Inv(s)
    decreases |run|
  {
    run == [] ||
    (InvGood(s);
     (run[0].Posts? ==> Room(s)) && (TakeKeeps(s, run[0]); Respectful(Take(s, run[0]), run[1..])))
  }

  ghost function After(s: State, run: seq<Step>): (s': State)
    requires Inv(s) && Respectful(s, run)
    ensures Inv(s')
    decreases |run|
  {
    if run == [] then s
    else
      InvGood(s);
      TakeKeeps(s, run[0]);
      After(Take(s, run[0]), run[1..])
  }

  function Posted(run: seq<Step>): seq<(nat, nat, nat)> {
    if run == [] then [] else PostedBy(run[0]) + Posted(run[1..])
  }

  function PostedBy(e: Step): seq<(nat, nat, nat)> { if e.Posts? then [(e.kind, e.code, e.slot)] else [] }

  function Contents(evs: seq<Event>): (c: seq<(nat, nat, nat)>)
    ensures |c| == |evs| && forall i :: 0 <= i < |c| ==> c[i] == (evs[i].kind, evs[i].code, evs[i].slot)
  {
    seq(|evs|, i requires 0 <= i < |evs| => (evs[i].kind, evs[i].code, evs[i].slot))
  }

  lemma TakePosts(s: State, e: Step)
    requires |s.ring| == RING_SIZE && s.c.dequeue < RING_SIZE
    ensures Contents(Take(s, e).posted) == Contents(s.posted) + PostedBy(e)
  {
  }

  lemma SeenPrefix(s: State)
    requires Inv(s)
    ensures Contents(s.consumed) <= Contents(s.posted)
  {
  }

  /** Over any run in which the controller respects the published pointer, the
      polling loops consume each posted event once and in order, however their
      consuming and publishing steps interleave with the posts. */
  lemma {:induction false} EachEventOnce(s: State, run: seq<Step>)
    requires Inv(s) && Respectful(s, run)
    ensures Contents(After(s, run).posted) == Contents(s.posted) + Posted(run)
    ensures Contents(After(s, run).consumed) <= Contents(s.posted) + Posted(run)
    decreases |run|
  {
    hide Inv, Take, Room, Contents, PostedBy;
    if run == [] {
      assert Posted(run) == [];
      assert Contents(s.posted) + [] == Contents(s.posted);
    } else {
      InvGood(s);
      TakeKeeps(s, run[0]);
      TakePosts(s, run[0]);
      EachEventOnce(Take(s, run[0]), run[1..]);
      Regroup(Contents(s.posted), PostedBy(run[0]), Posted(run[1..]));
    }
    SeenPrefix(After(s, run));
  }

  // ---------------------------------------------------------------------------
  // The driver's loops
  // ---------------------------------------------------------------------------

  class Poller {
    const ring: array<Event>
    var dequeue: nat
    var cycle: bool
    /** Value last written to the dequeue-pointer register, as an index. */
    var erdp: nat

    predicate Valid()
      reads this
    {
      ring.Length == RING_SIZE && dequeue < RING_SIZE
    }

    ghost function Side(): Consumer
      reads this
    {
      Consumer(dequeue, cycle)
    }

    constructor (ring: array<Event>)
      requires ring.Length == RING_SIZE
      ensures Valid() && this.ring == ring && Side() == Consumer(0, true) && erdp == 0
    {
      this.ring, dequeue, cycle, erdp := ring, 0, true, 0;
    }

    /** The steps common to all the polling loops. */
    method Next() returns (ev: Option<Event>)
      requires Valid()
      modifies this`dequeue, this`cycle
      ensures Valid() && ev == Peek(ring[..], old(Side()))
      ensures Side() == if ev.Some? then Advance(old(Side())) else old(Side())
    {
      var e := ring[dequeue];
      if e.cycle != cycle {
        return None;
      }
      dequeue := (dequeue + 1) % RING_SIZE;
      if dequeue == 0 {
        cycle := !cycle;
      }
      ev := Some(e);
    }

    /** The flush loop in front of a port's commands: at most 32 events, published
        once. */
    method Flush(ghost s: State) returns (n: nat, ghost s': State)
      requires Valid() && Inv(s) && ring[..] == s.ring && Side() == s.c
      modifies this
      ensures Valid() && s'.c == Side() && erdp == dequeue && Inv(s')
      ensures s'.posted == s.posted && s'.ring == s.ring
      ensures s'.consumed == s.posted && s'.published == |s.posted| && n == |s.posted| - |s.consumed|
    {
      n, s' := 0, s;
      while n < RING_SIZE
        invariant n <= RING_SIZE && Valid() && Side() == s'.c && Inv(s')
        invariant s'.posted == s.posted && s'.ring == s.ring == ring[..] && s'.published == s.published
        invariant |s'.consumed| == |s.consumed| + n
      {
        ConsumeMeaning(s');
        ConsumeKeeps(s');
        var ev := Next();
        if ev.None? {
          break;
        }
        s' := Consume(s');
        n := n + 1;
      }
      erdp := dequeue;
      ConsumeKeeps(s');
      s' := Publish(s');
      assert s'.consumed == s.posted[..|s'.consumed|];
    }
  }
}
