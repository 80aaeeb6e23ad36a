/** The keyboard's ring buffer (ps2.c): input_add_char on one side, getchar and
    try_getchar on the other, interleaved at single loads and stores. */
module KeyboardBuffer {
  import opened Basics

  const SIZE: nat := 256

  /** Where the producer is inside input_add_char. */
  datatype Producer =
    | Away
    /** in_head loaded, `next` computed */
    | Computed(c: char, next: nat)
    /** in_tail loaded and found different */
    | Checked(c: char, next: nat)
    /** in_head loaded again */
    | Indexed(c: char, next: nat, i: nat)
    /** character stored, in_head still to be stored */
    | Stored(c: char, next: nat)

  /** Where the consumer is inside getchar; `at` is how many characters had been
      accepted when it loaded in_head. */
  datatype Consumer =
    | Idle
    /** in_head loaded */
    | Loaded(h: nat, at: nat)
    /** in_tail loaded and found different */
    | NonEmpty
    /** in_tail loaded as the index */
    | Picked(t: nat)
    /** character loaded */
    | Got(c: char)
    /** in_tail loaded to be advanced */
    | Advancing(c: char, t: nat)

  /** Shared memory, both sides, and what was offered, accepted, dropped and
      delivered so far. */
  datatype State = State(buf: seq<char>, head: nat, tail: nat, p: Producer, q: Consumer,
                         offered: seq<char>, accepted: seq<char>, dropped: seq<char>, delivered: seq<char>)
  {
    predicate Good() {
      && |buf| == SIZE && head < SIZE && tail < SIZE
      && (p.Indexed? ==> p.i < SIZE) && (p.Stored? || p.Indexed? || p.Checked? || p.Computed? ==> p.next < SIZE)
      && (q.Picked? ==> q.t < SIZE) && (q.Advancing? ==> q.t < SIZE)
    }
  }

  function Next(i: nat): (n: nat)
    ensures n < SIZE
  {
    (i + 1) % SIZE
  }

  /** Slot of the k-th character ever accepted. */
  function Slot(k: nat): (i: nat)
    ensures i < SIZE
  {
    k % SIZE
  }

  lemma NextSlot(k: nat)
    ensures Slot(k + 1) == Next(Slot(k)) && Slot(0) == 0
  {
  }

  datatype Step =
    /** input_add_char is entered, and loads in_head. */
    | Offer(c: char)
    | ProducerMoves
    /** getchar loads in_head. */
    | Ask
    | ConsumerMoves

  function MoveProducer(s: State): State
    requires s.Good()
  {
    match s.p
    case Away => s
    case Computed(c, next) =>
      if next != s.tail then s.(p := Checked(c, next)) else s.(p := Away, dropped := s.dropped + [c])
    case Checked(c, next) => s.(p := Indexed(c, next, s.head))
    case Indexed(c, next, i) => s.(p := Stored(c, next), buf := s.buf[i := c])
    case Stored(c, next) => s.(p := Away, head := next, accepted := s.accepted + [c])
  }

  function MoveConsumer(s: State): State
    requires s.Good()
  {
    match s.q
    case Idle => s
    case Loaded(h, at) => s.(q := if h == s.tail then Idle else NonEmpty)
    case NonEmpty => s.(q := Picked(s.tail))
    case Picked(t) => s.(q := Got(s.buf[t]))
    case Got(c) => s.(q := Advancing(c, s.tail))
    case Advancing(c, t) => s.(q := Idle, tail := Next(t), delivered := s.delivered + [c])
  }

  function Take(s: State, e: Step): State
    requires s.Good()
  {
    match e
    case Offer(c) => if s.p.Away? then s.(p := Computed(c, Next(s.head)), offered := s.offered + [c]) else s
    case ProducerMoves => MoveProducer(s)
    case Ask => if s.q.Idle? then s.(q := Loaded(s.head, |s.accepted|)) else s
    case ConsumerMoves => MoveConsumer(s)
  }

  function Start(): State {
    State(seq(SIZE, _ => '\0'), 0, 0, Away, Idle, [], [], [], [])
  }

  function Pending(s: State): int { |s.accepted| - |s.delivered| }

  predicate ProducerOk(s: State) {
    match s.p
    case Away => true
    case Computed(_, next) => next == Next(s.head)
    case Checked(_, next) => next == Next(s.head) && Pending(s) < SIZE - 1
    case Indexed(_, next, i) => next == Next(s.head) && Pending(s) < SIZE - 1 && i == s.head
    case Stored(c, next) => next == Next(s.head) && Pending(s) < SIZE - 1 && |s.buf| == SIZE && s.head < SIZE && s.buf[s.head] == c
  }

  predicate ConsumerOk(s: State) {
    match s.q
    case Idle => true
    case Loaded(h, at) => |s.delivered| <= at <= |s.accepted| && h == Slot(at)
    case NonEmpty => Pending(s) > 0
    case Picked(t) => Pending(s) > 0 && t == s.tail
    case Got(c) => Pending(s) > 0 && c == s.accepted[|s.delivered|]
    case Advancing(c, t) => Pending(s) > 0 && c == s.accepted[|s.delivered|] && t == s.tail
  }

  /** `all` is made of `a` and `b`, each in its order. */
  predicate Interleaved(all: seq<char>, a: seq<char>, b: seq<char>)
    decreases |all|
  {
    if all == [] then a == [] && b == []
    else
      var front, c := all[..|all| - 1], all[|all| - 1];
      || (a != [] && a[|a| - 1] == c && Interleaved(front, a[..|a| - 1], b))
      || (b != [] && b[|b| - 1] == c && Interleaved(front, a, b[..|b| - 1]))
  }

  lemma InterleavedNext(all: seq<char>, a: seq<char>, b: seq<char>, c: char)
    requires Interleaved(all, a, b)
    ensures Interleaved(all + [c], a + [c], b) && Interleaved(all + [c], a, b + [c])
  {
    assert (all + [c])[..|all|] == all && (a + [c])[..|a|] == a && (b + [c])[..|b|] == b;
  }

  /** Every character offered is accepted, dropped or being handled. */
  predicate Accounted(s: State) {
    if s.p.Away? then Interleaved(s.offered, s.accepted, s.dropped)
    else
      && s.offered != [] && s.p.c == s.offered[|s.offered| - 1]
      && Interleaved(s.offered[..|s.offered| - 1], s.accepted, s.dropped)
  }

  /** The step that settles a character. */
  lemma SettledAccounted(s: State, t: State)
    requires Accounted(s) && !s.p.Away? && t.p.Away? && t.offered == s.offered
    requires (t.accepted == s.accepted + [s.p.c] && t.dropped == s.dropped)
             || (t.accepted == s.accepted && t.dropped == s.dropped + [s.p.c])
    ensures Accounted(t)
  {
    var front := s.offered[..|s.offered| - 1];
    InterleavedNext(front, s.accepted, s.dropped, s.p.c);
    assert front + [s.p.c] == s.offered;
  }

  predicate Inv(s: State) {
    && s.Good()
    && s.head == Slot(|s.accepted|) && s.tail == Slot(|s.delivered|)
    && 0 <= Pending(s) <= SIZE - 1
    && s.delivered == s.accepted[..|s.delivered|]
    && (forall k :: |s.delivered| <= k < |s.accepted| ==> s.buf[Slot(k)] == s.accepted[k])
    && ProducerOk(s) && ConsumerOk(s)
    && Accounted(s)
  }

  lemma StartInv()
    ensures Inv(Start())
  {
  }

  lemma ProducerKeeps(s: State)
    requires Inv(s)
    ensures Inv(MoveProducer(s))
  {
    hide Slot, Next, Interleaved;
    if !s.p.Away? && MoveProducer(s).p.Away? {
      SettledAccounted(s, MoveProducer(s));
    }
    match s.p
    case Indexed(c, next, i) =>
      forall k: nat | |s.delivered| <= k < |s.accepted|
        ensures Slot(k) != i
      {
        Apart(k, |s.accepted|);
      }
    case Computed(c, next) => FullMeans(|s.accepted|, |s.delivered|);
    case Stored(c, next) => NextSlot(|s.accepted|);
    case _ =>
  }

  lemma Apart(j: nat, k: nat)
    requires j < k < j + SIZE
    ensures Slot(j) != Slot(k)
  {
  }

  /** The producer's test: the next index meets the tail exactly with 255
      characters pending. */
  lemma FullMeans(accepted: nat, delivered: nat)
    requires delivered <= accepted <= delivered + SIZE - 1
    ensures Next(Slot(accepted)) == Slot(delivered) <==> accepted - delivered == 255
  {
    NextSlot(accepted);
    if accepted + 1 < delivered + SIZE {
      Apart(delivered, accepted + 1);
    }
  }

  lemma ConsumerKeeps(s: State)
    requires Inv(s)
    ensures Inv(MoveConsumer(s))
  {
    hide Slot, Next;
    match s.q
    case Loaded(h, at) =>
      if |s.delivered| < at {
        Apart(|s.delivered|, at);
      }
    case Advancing(c, t) => NextSlot(|s.delivered|);
    case _ =>
  }

  lemma OfferAccounted(s: State, e: Step)
    requires Inv(s)
    ensures Accounted(Take(s, e))
  {
    hide Interleaved;
    match e
    case Offer(c) =>
      if s.p.Away? {
        assert (s.offered + [c])[..|s.offered|] == s.offered;
      }
    case ProducerMoves => ProducerKeeps(s);
    case _ =>
  }

  lemma TakeKeeps(s: State, e: Step)
    requires Inv(s)
    ensures Inv(Take(s, e))
  {
    assert Accounted(Take(s, e)) by { OfferAccounted(s, e); }
    hide Interleaved, Accounted;
    match e
    case ProducerMoves => ProducerKeeps(s);
    case ConsumerMoves => ConsumerKeeps(s);
    case _ =>
  }

  function After(s: State, run: seq<Step>): (s': State)
    requires Inv(s)
    ensures Inv(s')
    decreases |run|
  {
    if run == [] then s
    else
      TakeKeeps(s, run[0]);
      After(Take(s, run[0]), run[1..])
  }

  /** Under every interleaving: what is delivered is a prefix of what was
      accepted, at most 255 characters are pending, and those accepted and those
      dropped make up what was offered, each in its order. */
  lemma DeliveredInOrder(run: seq<Step>)
    ensures (StartInv(); After(Start(), run).delivered <= After(Start(), run).accepted)
    ensures (StartInv(); 0 <= Pending(After(Start(), run)) <= 255)
    ensures (StartInv(); Accounted(After(Start(), run)))
  {
    StartInv();
  }

  lemma AfterFirst(s: State, e: Step, n: nat)
    requires Inv(s)
    ensures s.Good() && Inv(Take(s, e)) && After(s, seq(n + 1, _ => e)) == After(Take(s, e), seq(n, _ => e))
  {
    hide Take;
    TakeKeeps(s, e);
    assert seq(n + 1, _ => e)[1..] == seq(n, _ => e);
  }

  function ProducerLeft(p: Producer): nat {
    match p
    case Away => 0
    case Computed(_, _) => 4
    case Checked(_, _) => 3
    case Indexed(_, _, _) => 2
    case Stored(_, _) => 1
  }

  function ConsumerLeft(q: Consumer): nat {
    match q
    case Idle => 0
    case Loaded(_, _) => 5
    case NonEmpty => 4
    case Picked(_) => 3
    case Got(_) => 2
    case Advancing(_, _) => 1
  }

  lemma ProducerMove(s: State)
    requires Inv(s) && !s.p.Away?
    ensures var t := Take(s, ProducerMoves);
            && ProducerLeft(t.p) < ProducerLeft(s.p) && !t.p.Computed? && t.delivered == s.delivered
            && if s.p.Stored? then t.p.Away? && t.accepted == s.accepted + [s.p.c]
               else t.accepted == s.accepted
                    && (if s.p.Computed? && Pending(s) == 255 then t.p.Away? else !t.p.Away? && t.p.c == s.p.c)
  {
    FullMeans(|s.accepted|, |s.delivered|);
  }

  lemma ConsumerMove(s: State)
    requires Inv(s) && !s.q.Idle?
    ensures var t := Take(s, ConsumerMoves);
            && ConsumerLeft(t.q) < ConsumerLeft(s.q) && !t.q.Loaded? && t.accepted == s.accepted
            && if s.q.Advancing? then t.q.Idle? && |s.delivered| < |s.accepted| && t.delivered == s.delivered + [s.accepted[|s.delivered|]]
               else t.delivered == s.delivered && (if s.q.Loaded? && s.q.at == |s.delivered| then t.q.Idle? else !t.q.Idle?)
  {
    if s.q.Loaded? {
      EmptyOnlyWhenEmpty(s);
    }
  }

  /** Left alone, the producer settles its character in four steps: it is accepted,
      unless 255 others are pending. */
  lemma {:induction false} ProducerSettles(s: State, n: nat)
    requires Inv(s) && ProducerLeft(s.p) <= n
    ensures var t := After(s, seq(n, _ => ProducerMoves));
            t.p.Away? && t.accepted == if s.p.Away? || (s.p.Computed? && Pending(s) == 255) then s.accepted else s.accepted + [s.p.c]
    decreases n
  {
    hide Inv, Take;
    if n == 0 {
      assert seq(n, _ => ProducerMoves) == [];
    } else {
      AfterFirst(s, ProducerMoves, n - 1);
      if s.p.Away? {
        AwayStays(s);
      } else {
        ProducerMove(s);
      }
      ProducerSettles(Take(s, ProducerMoves), n - 1);
    }
  }

  /** Left alone, getchar comes back in five steps behind its load of in_head: with the
      oldest character, unless there was none. */
  lemma {:induction false} ConsumerSettles(s: State, n: nat)
    requires Inv(s) && ConsumerLeft(s.q) <= n
    ensures var t, none := After(s, seq(n, _ => ConsumerMoves)), s.q.Idle? || (s.q.Loaded? && s.q.at == |s.delivered|);
            && t.q.Idle? && (!none ==> |s.delivered| < |s.accepted|)
            && t.delivered == if none then s.delivered else s.delivered + [s.accepted[|s.delivered|]]
    decreases n
  {
    hide Inv, Take;
    if n == 0 {
      assert seq(n, _ => ConsumerMoves) == [];
    } else {
      AfterFirst(s, ConsumerMoves, n - 1);
      if s.q.Idle? {
        AwayStays(s);
      } else {
        ConsumerMove(s);
      }
      ConsumerSettles(Take(s, ConsumerMoves), n - 1);
    }
  }

  lemma AwayStays(s: State)
    requires Inv(s)
    ensures s.p.Away? ==> Take(s, ProducerMoves) == s
    ensures s.q.Idle? ==> Take(s, ConsumerMoves) == s
  {
  }

  /** What the calls begin with. */
  lemma CallsBegin(s: State, c: char)
    requires Inv(s)
    ensures Inv(Take(s, Offer(c))) && Inv(Take(s, Ask))
    ensures s.p.Away? ==> var t := Take(s, Offer(c)); t.p.Computed? && t.p.c == c && t.accepted == s.accepted
    ensures s.q.Idle? ==> var t := Take(s, Ask); t.q.Loaded? && t.q.at == |s.accepted| && t.delivered == s.delivered
  {
    TakeKeeps(s, Offer(c));
    TakeKeeps(s, Ask);
  }

  /** A character is dropped only while 255 are pending, and whenever the check
      finds 255 pending. */
  lemma DroppedOnlyWhenFull(s: State, e: Step)
    requires Inv(s)
    ensures Take(s, e).dropped != s.dropped <==> e.ProducerMoves? && s.p.Computed? && Pending(s) == 255
  {
    FullMeans(|s.accepted|, |s.delivered|);
  }

  /** getchar finds the ring empty only if it was empty when in_head was loaded. */
  lemma EmptyOnlyWhenEmpty(s: State)
    requires Inv(s) && s.q.Loaded?
    ensures MoveConsumer(s).q.Idle? <==> s.q.at == |s.delivered|
  {
    if |s.delivered| < s.q.at {
      Apart(|s.delivered|, s.q.at);
    }
  }

  // ---------------------------------------------------------------------------
  // The two functions undisturbed
  // ---------------------------------------------------------------------------

  class InputBuffer {
    const buf: array<char>
    var head: nat
    var tail: nat
    /** Everything accepted so far, and how much of it has been taken. */
    ghost var accepted: seq<char>
    ghost var taken: nat

    ghost predicate Valid()
      reads this, buf
    {
      && buf.Length == SIZE && taken <= |accepted| < taken + SIZE
      && head == Slot(|accepted|) && tail == Slot(taken)
      && forall k: nat | taken <= k < |accepted| :: buf[Slot(k)] == accepted[k]
    }

    /** The characters waiting. */
    ghost function Waiting(): seq<char>
      requires Valid()
      reads this, buf
    {
      accepted[taken..]
    }

    constructor ()
      ensures Valid() && fresh(buf) && Waiting() == []
    {
      buf := new char[SIZE];
      head, tail, accepted, taken := 0, 0, [], 0;
    }

    /** input_add_char: the 256th character is dropped. */
    method Add(c: char)
      requires Valid()
      modifies this`head, this`accepted, buf
      ensures Valid()
      ensures Waiting() == if |old(Waiting())| < 255 then old(Waiting()) + [c] else old(Waiting())
    {
      hide Slot, Next;
      var next := Next(head);
      FullMeans(|accepted|, taken);
      if next != tail {
        forall k: nat | taken <= k < |accepted|
          ensures Slot(k) != head
        {
          Apart(k, |accepted|);
        }
        NextSlot(|accepted|);
        buf[head] := c;
        head := next;
        accepted := accepted + [c];
      }
    }

    /** try_getchar behind the polling calls. */
    method TryGet() returns (c: Option<char>)
      requires Valid()
      modifies this`tail, this`taken
      ensures Valid()
      ensures if old(Waiting()) == [] then c == None && Waiting() == []
              else c == Some(old(Waiting())[0]) && Waiting() == old(Waiting())[1..]
    {
      hide Slot, Next;
      if taken < |accepted| {
        Apart(taken, |accepted|);
      }
      if head == tail {
        return None;
      }
      c := Some(buf[tail]);
      NextSlot(taken);
      tail := Next(tail);
      taken := taken + 1;
    }
  }
}
