/** The keyboard's two rings together (xhci.c): every transfer event of the
    keyboard's slot makes usb_kbd_poll queue the next transfer, so the loop keeps
    tokens going round.  Also the command ring's dead wrap-around branch. */
module KeyboardTransfers {
  import opened Basics
  import T = TransferRing
  import E = EventRing

  /** Both rings, the keyboard's slot id, and how many transfer events of that slot
      the controller has posted for anything but the keyboard's EP1 ring: the
      driver's own EP0 transfers, whose events nobody waits for. */
  datatype System = System(t: T.State, e: E.State, slot: nat, strays: nat)

  /** What usb_kbd_poll takes for a report: it does not look at the endpoint. */
  predicate IsReport(kind: nat, slot: nat, kbd: nat) {
    kind == 32 && slot == kbd
  }

  function Reports(evs: seq<E.Event>, kbd: nat): nat {
    if evs == [] then 0
    else Reports(evs[..|evs| - 1], kbd) + if IsReport(evs[|evs| - 1].kind, evs[|evs| - 1].slot, kbd) then 1 else 0
  }

  lemma ReportsStep(evs: seq<E.Event>, ev: E.Event, kbd: nat)
    ensures Reports(evs + [ev], kbd) == Reports(evs, kbd) + if IsReport(ev.kind, ev.slot, kbd) then 1 else 0
  {
    assert (evs + [ev])[..|evs|] == evs;
  }

  lemma {:induction false} ReportsMono(evs: seq<E.Event>, n: nat, kbd: nat)
    requires n <= |evs|
    ensures Reports(evs[..n], kbd) <= Reports(evs, kbd)
    decreases |evs|
  {
    if n == |evs| {
      assert evs[..n] == evs;
    } else {
      var front := evs[..|evs| - 1];
      ReportsMono(front, n, kbd);
      assert front[..n] == evs[..n];
    }
  }

  /** The tokens: transfers queued but not fetched, fetched but not reported, and
      events that pass for reports and are not consumed yet. */
  function Live(s: System): int {
    |s.t.queued| + s.strays - Reports(s.e.consumed, s.slot)
  }

  /** Transfers the device has, and events waiting that pass for reports. */
  function AtDevice(s: System): int { |s.t.seen| + s.strays - Reports(s.e.posted, s.slot) }
  function Pending(s: System): int { Reports(s.e.posted, s.slot) - Reports(s.e.consumed, s.slot) }

  /** The keyboard's own reports so far. */
  function Reported(s: System): int { Reports(s.e.posted, s.slot) - s.strays }

  predicate Good(s: System) {
    && s.t.d.Good() && s.t.c.dequeue < T.RING_SIZE
    && |s.e.ring| == E.RING_SIZE && s.e.c.dequeue < E.RING_SIZE
  }

  /** Whatever the driver queues; the controller reports a keyboard transfer only
      for a TRB it has fetched. */
  ghost predicate Inv(s: System) {
    && Good(s) && T.Loose(s.t) && E.Inv(s.e)
    && 0 <= Reported(s) <= |s.t.seen|
  }

  datatype Step =
    | Fetches
    /** An event for a fetched keyboard transfer. */
    | Completes(code: nat)
    /** A transfer event of the keyboard's slot for another endpoint. */
    | PostsStray(code: nat)
    /** Any other event. */
    | PostsOther(kind: nat, code: nat, other: nat)
    /** One turn of usb_kbd_poll; what passes for a report requeues into `data`. */
    | Polls(data: nat)
    /** One turn of any other polling loop: the event is dropped. */
    | Drops

  /** What the controller and the driver can do in a state. */
  predicate Enabled(s: System, a: Step) {
    match a
    case Fetches => true
    case Completes(_) => E.Room(s.e) && AtDevice(s) > 0
    case PostsStray(_) => E.Room(s.e)
    case PostsOther(kind, _, other) => E.Room(s.e) && !IsReport(kind, other, s.slot)
    case Polls(_) => true
    case Drops => true
  }

  function Take(s: System, a: Step): System
    requires Good(s)
  {
    match a
    case Fetches => s.(t := T.Fetch(s.t))
    case Completes(code) => s.(e := E.Post(s.e, E.TRANSFER_EVENT, code, s.slot))
    case PostsStray(code) => s.(e := E.Post(s.e, E.TRANSFER_EVENT, code, s.slot), strays := s.strays + 1)
    case PostsOther(kind, code, other) => s.(e := E.Post(s.e, kind, code, other))
    case Polls(data) => Answer(s, E.Publish(E.Consume(s.e)), NextIsReport(s), data)
    case Drops => s.(e := E.Publish(E.Consume(s.e)))
  }

  /** The event at the dequeue index passes for a report. */
  predicate NextIsReport(s: System)
    requires Good(s)
  {
    var ev := E.Peek(s.e.ring, s.e.c);
    ev.Some? && IsReport(ev.value.kind, ev.value.slot, s.slot)
  }

  /** The state after the driver has consumed an event, requeueing for a report. */
  function Answer(s: System, e: E.State, report: bool, data: nat): System
    requires Good(s)
  {
    s.(e := e, t := if report then T.Queue(s.t, data) else s.t)
  }

  /** After xhci_configure_kbd_endpoint: one transfer queued. */
  function Start(base: nat, data: nat, slot: nat): System {
    System(T.Queue(T.Start(base), data), E.Start(), slot, 0)
  }

  lemma StartInv(base: nat, data: nat, slot: nat)
    ensures var s := Start(base, data, slot);
            Inv(s) && InStep(s) && Live(s) == 1 && |s.t.queued| == 1 && s.t.seen == [] && s.t.c.dequeue == 0
            && s.e.posted == [] && s.e.consumed == [] && s.e.published == 0 && s.strays == 0
  {
    T.StartInv(base);
    T.QueueKeeps(T.Start(base), data);
    T.InvLoose(T.Queue(T.Start(base), data));
    T.InvGood(T.Queue(T.Start(base), data));
    E.StartInv();
    E.InvGood(E.Start());
    hide T.Inv, E.Inv, T.Loose;
  }

  lemma InvGood(s: System)
    requires Inv(s)
    ensures Good(s)
  {
  }

  lemma LiveMeans(s: System)
    requires Inv(s)
    ensures Live(s) == s.t.Outstanding() + AtDevice(s) + Pending(s)
    ensures 0 <= s.t.Outstanding() && 0 <= AtDevice(s) && 0 <= Pending(s)
    ensures s.e.consumed == s.e.posted ==> Pending(s) == 0
  {
    ReportsMono(s.e.posted, |s.e.consumed|, s.slot);
  }

  lemma FetchOnly(s: System)
    requires Inv(s)
    ensures Inv(s.(t := T.Fetch(s.t))) && |T.Fetch(s.t).queued| == |s.t.queued|
  {
    T.LooseKeeps(s.t, T.ControllerFetches);
    T.LooseGood(T.Fetch(s.t));
    FetchGrows(s.t);
    hide T.Loose, E.Inv, T.Fetch;
  }

  lemma FetchGrows(t: T.State)
    requires t.d.Good() && t.c.dequeue < T.RING_SIZE
    ensures T.Fetch(t).queued == t.queued && |t.seen| <= |T.Fetch(t).seen|
  {
  }

  /** Consuming one event: Reports of the consumed grows with a report. */
  lemma ConsumeOne(s: System)
    requires Inv(s)
    ensures var e := E.Publish(E.Consume(s.e));
            && E.Inv(e) && Good(s.(e := e)) && e.posted == s.e.posted
            && Reports(e.consumed, s.slot) == Reports(s.e.consumed, s.slot) + if NextIsReport(s) then 1 else 0
  {
    E.ConsumeKeeps(s.e);
    E.ConsumeKeeps(E.Consume(s.e));
    E.InvGood(E.Consume(s.e));
    var ev := E.Peek(s.e.ring, s.e.c);
    hide T.Loose, E.Inv, E.Peek, IsReport;
    if ev.Some? {
      ReportsStep(s.e.consumed, ev.value, s.slot);
    }
  }

  /** An event posted, by the keyboard, as a stray, or neither. */
  lemma PostOne(s: System, kind: nat, code: nat, slot: nat, strays: nat)
    requires Inv(s) && E.Room(s.e)
    requires if IsReport(kind, slot, s.slot) then strays == s.strays + 1 || (strays == s.strays && AtDevice(s) > 0)
             else strays == s.strays
    ensures var t := s.(e := E.Post(s.e, kind, code, slot), strays := strays);
            Inv(t) && Live(t) == Live(s) + strays - s.strays
            && Reported(t) == Reported(s) + (if IsReport(kind, slot, s.slot) && strays == s.strays then 1 else 0)
  {
    E.PostKeeps(s.e, kind, code, slot);
    E.InvGood(E.Post(s.e, kind, code, slot));
    hide T.Loose, E.Inv, IsReport;
    ReportsStep(s.e.posted, E.Event(kind, code, slot, E.Lap(|s.e.posted|)), s.slot);
  }

  /** The event another loop drops passes for a report. */
  predicate Loses(s: System, a: Step)
    requires Good(s)
  {
    a.Drops? && NextIsReport(s)
  }

  /** What a step does to the invariant, the tokens and the keyboard's reports. */
  ghost predicate Counted(s: System, a: Step, t: System)
    requires Good(s)
  {
    && Inv(t) && t.slot == s.slot
    && Live(t) == Live(s) + (if a.PostsStray? then 1 else 0) - (if Loses(s, a) then 1 else 0)
    && Reported(t) == Reported(s) + if a.Completes? then 1 else 0
  }

  lemma FetchCounts(s: System)
    requires Inv(s)
    ensures Good(s) && Counted(s, Fetches, Take(s, Fetches))
  {
    hide Inv, Good, Loses, E.Post, T.Fetch, Reports;
    InvGood(s);
    NotLost(s, Fetches);
    FetchOnly(s);
  }

  /** The event a step posts. */
  lemma PostIs(s: System, a: Step)
    requires Good(s) && Enabled(s, a) && (a.Completes? || a.PostsStray? || a.PostsOther?)
    ensures E.Room(s.e)
    ensures a.Completes? ==>
              && AtDevice(s) > 0 && IsReport(E.TRANSFER_EVENT, s.slot, s.slot)
              && Take(s, a) == s.(e := E.Post(s.e, E.TRANSFER_EVENT, a.code, s.slot), strays := s.strays)
    ensures a.PostsStray? ==>
              && IsReport(E.TRANSFER_EVENT, s.slot, s.slot)
              && Take(s, a) == s.(e := E.Post(s.e, E.TRANSFER_EVENT, a.code, s.slot), strays := s.strays + 1)
    ensures a.PostsOther? ==>
              && !IsReport(a.kind, a.other, s.slot)
              && Take(s, a) == s.(e := E.Post(s.e, a.kind, a.code, a.other), strays := s.strays)
  {
    hide E.Post, E.Room, AtDevice;
  }

  lemma PostCounts(s: System, a: Step)
    requires Inv(s) && Enabled(s, a) && (a.Completes? || a.PostsStray? || a.PostsOther?)
    ensures Good(s) && Counted(s, a, Take(s, a))
  {
    hide Inv, Good, Loses, E.Post, E.Room, Enabled, Take, IsReport, AtDevice, Live, Reported;
    InvGood(s);
    NotLost(s, a);
    PostIs(s, a);
    if a.PostsOther? {
      PostOne(s, a.kind, a.code, a.other, s.strays);
    } else {
      PostOne(s, E.TRANSFER_EVENT, a.code, s.slot, if a.PostsStray? then s.strays + 1 else s.strays);
    }
  }

  /** A turn of usb_kbd_poll takes the oldest event, and queues one transfer more if
      that is a transfer event of the keyboard's slot. */
  lemma PollRequeues(s: System, data: nat)
    requires Inv(s)
    ensures Good(s)
    ensures var n, t := |s.e.consumed|, Take(s, Polls(data));
            if n == |s.e.posted| then t.e.consumed == s.e.consumed && t.t == s.t
            else
              && t.e.consumed == s.e.consumed + [s.e.posted[n]] && t.t.seen == s.t.seen
              && if s.e.posted[n].kind == 32 && s.e.posted[n].slot == s.slot then
                   |t.t.queued| == |s.t.queued| + 1 && s.t.queued <= t.t.queued && t.t.queued[|s.t.queued|].parameter == data
                 else t.t == s.t
  {
    hide T.Loose, E.RingHolds, E.Slot, E.Lap, E.Peek, T.QueueTrb;
    E.ConsumeMeaning(s.e);
    var ev := E.Peek(s.e.ring, s.e.c);
    if ev.Some? {
      assert E.Consume(s.e).consumed[|s.e.consumed|] == ev.value;
    }
  }

  lemma PollCounts(s: System, data: nat)
    requires Inv(s)
    ensures Good(s) && Counted(s, Polls(data), Take(s, Polls(data)))
  {
    hide Inv, Good, Loses, Take, Live;
    InvGood(s);
    NotLost(s, Polls(data));
    PollKeeps(s, data);
    ConsumeOne(s);
    PollIs(s, data);
    hide E.Consume, NextIsReport, T.Queue, Reports;
  }

  lemma DropCounts(s: System)
    requires Inv(s)
    ensures Good(s) && Counted(s, Drops, Take(s, Drops))
  {
    hide Good, E.Inv, T.Loose, E.Consume, NextIsReport, Reports;
    InvGood(s);
    ConsumeOne(s);
  }

  lemma NotLost(s: System, a: Step)
    requires Good(s) && !a.Drops?
    ensures !Loses(s, a)
  {
  }

  /** In every state whatever: a stray event brings a token, a dropped one takes a
      token, and nothing else does. */
  lemma TakeKeeps(s: System, a: Step)
    requires Inv(s) && Enabled(s, a)
    ensures Inv(Take(s, a)) && Take(s, a).slot == s.slot
    ensures Live(Take(s, a)) == Live(s) + (if a.PostsStray? then 1 else 0) - (if Loses(s, a) then 1 else 0)
    ensures Reported(Take(s, a)) == Reported(s) + if a.Completes? then 1 else 0
  {
    hide Enabled, Take, Inv, Good, Live, Loses, Reported;
    match a
    case Fetches => FetchCounts(s);
    case Polls(data) => PollCounts(s, data);
    case Drops => DropCounts(s);
    case _ => PostCounts(s, a);
  }

  lemma AnswerKeeps(s: System, e: E.State, report: bool, data: nat)
    requires Inv(s) && E.Inv(e) && Good(s.(e := e)) && e.posted == s.e.posted
    requires Reports(e.consumed, s.slot) == Reports(s.e.consumed, s.slot) + if report then 1 else 0
    ensures Inv(Answer(s, e, report, data)) && Live(Answer(s, e, report, data)) == Live(s)
    ensures InStep(s) && (report ==> Pending(s) > 0) ==> InStep(Answer(s, e, report, data))
  {
    LiveMeans(s);
    T.LooseKeeps(s.t, T.DriverQueues(data));
    if InStep(s) && report && Pending(s) > 0 {
      T.QueueKeeps(s.t, data);
    }
    hide T.Inv, T.Loose, E.Inv, T.QueueTrb, Reports;
  }

  lemma PollKeeps(s: System, data: nat)
    requires Inv(s)
    ensures Inv(Take(s, Polls(data))) && Live(Take(s, Polls(data))) == Live(s)
    ensures InStep(s) ==> InStep(Take(s, Polls(data)))
  {
    hide *;
    InvGood(s);
    PollIs(s, data);
    ConsumeOne(s);
    PendingReport(s);
    AnswerKeeps(s, E.Publish(E.Consume(s.e)), NextIsReport(s), data);
  }

  lemma PollIs(s: System, data: nat)
    requires Good(s)
    ensures Take(s, Polls(data)) == Answer(s, E.Publish(E.Consume(s.e)), NextIsReport(s), data)
  {
    hide E.Consume, T.Queue, NextIsReport;
  }

  /** What is consumed was pending. */
  lemma PendingReport(s: System)
    requires Inv(s)
    ensures NextIsReport(s) ==> Pending(s) > 0
  {
    ConsumeOne(s);
    var e := E.Publish(E.Consume(s.e));
    EventsInRange(s.e);
    EventsInRange(e);
    ReportsMono(e.posted, |e.consumed|, s.slot);
    hide E.Consume, E.Peek, T.Loose, E.Inv;
  }

  lemma EventsInRange(e: E.State)
    requires E.Inv(e)
    ensures |e.consumed| <= |e.posted| && e.consumed == e.posted[..|e.consumed|]
  {
  }

  // ---------------------------------------------------------------------------
  // In step
  // ---------------------------------------------------------------------------

  /** The transfer ring is in step and has room for every token. */
  ghost predicate InStep(s: System) {
    T.Inv(s.t) && Live(s) <= 30
  }

  /** With at most 30 tokens the transfer ring stays in step, however often it
      wraps. */
  lemma StaysInStep(s: System, a: Step)
    requires Inv(s) && InStep(s) && Enabled(s, a)
    requires (TakeKeeps(s, a); Live(Take(s, a)) <= 30)
    ensures Good(s) && InStep(Take(s, a))
  {
    TakeKeeps(s, a);
    match a
    case Fetches => T.FetchKeeps(s.t); hide T.Inv, T.Fetch;
    case Polls(data) => PollKeeps(s, data);
    case _ => hide T.Inv;
  }

  // ---------------------------------------------------------------------------
  // Runs
  // ---------------------------------------------------------------------------

  ghost predicate Possible(s: System, run: seq<Step>)
    requires Inv(s)
    decreases |run|
  {
    run == [] || (Enabled(s, run[0]) && (TakeKeeps(s, run[0]); Possible(Take(s, run[0]), run[1..])))
  }

  ghost function After(s: System, run: seq<Step>): (s': System)
    requires Inv(s) && Possible(s, run)
    ensures Inv(s')
    decreases |run|
  {
    if run == [] then s
    else
      TakeKeeps(s, run[0]);
      After(Take(s, run[0]), run[1..])
  }

  /** How many events that pass for reports other loops have dropped. */
  ghost function Lost(s: System, run: seq<Step>): nat
    requires Inv(s) && Possible(s, run)
    decreases |run|
  {
    if run == [] then 0
    else
      TakeKeeps(s, run[0]);
      (if Loses(s, run[0]) then 1 else 0) + Lost(Take(s, run[0]), run[1..])
  }

  function Strays(run: seq<Step>): nat {
    if run == [] then 0 else (if run[0].PostsStray? then 1 else 0) + Strays(run[1..])
  }

  /** Over every run: each stray event is a token more, each dropped one a token
      less, and nothing else counts. */
  lemma {:induction false} TokensAfter(s: System, run: seq<Step>)
    requires Inv(s) && Possible(s, run)
    ensures Live(After(s, run)) == Live(s) + Strays(run) - Lost(s, run) && 0 <= Live(After(s, run))
    ensures After(s, run).slot == s.slot
    decreases |run|
  {
    hide Enabled, Take, Live, Loses, Good, T.Loose, E.Inv;
    if run != [] {
      TakeKeeps(s, run[0]);
      TokensAfter(Take(s, run[0]), run[1..]);
    }
    LiveMeans(After(s, run));
  }

  /** At no point of the run are there more than 30 tokens. */
  ghost predicate Within(s: System, run: seq<Step>)
    requires Inv(s) && Possible(s, run)
    decreases |run|
  {
    Live(s) <= 30 && (run == [] || (TakeKeeps(s, run[0]); Within(Take(s, run[0]), run[1..])))
  }

  /** Then the ring never overruns. */
  lemma {:induction false} NeverOverruns(s: System, run: seq<Step>)
    requires Inv(s) && InStep(s) && Possible(s, run) && Within(s, run)
    ensures InStep(After(s, run))
    decreases |run|
  {
    hide Inv, InStep, Enabled, Take, Live, Loses;
    if run != [] {
      InvGood(s);
      TakeKeeps(s, run[0]);
      WithinHead(Take(s, run[0]), run[1..]);
      StaysInStep(s, run[0]);
      NeverOverruns(Take(s, run[0]), run[1..]);
    }
  }

  lemma WithinHead(s: System, run: seq<Step>)
    requires Inv(s) && Possible(s, run) && Within(s, run)
    ensures Live(s) <= 30
  {
  }

  /** A run with few stray events is one. */
  lemma {:induction false} FewStrays(s: System, run: seq<Step>)
    requires Inv(s) && Possible(s, run) && Live(s) + Strays(run) <= 30
    ensures Within(s, run)
    decreases |run|
  {
    hide Inv, Enabled, Take, Live, Loses;
    if run != [] {
      InvGood(s);
      TakeKeeps(s, run[0]);
      FewStrays(Take(s, run[0]), run[1..]);
    }
  }

  /** Without a token nothing is fetched and the keyboard reports nothing, on any
      run without stray events. */
  lemma {:induction false} SilentWithoutToken(s: System, run: seq<Step>)
    requires Inv(s) && Possible(s, run) && Live(s) == 0 && Strays(run) == 0
    ensures After(s, run).t.seen == s.t.seen && Reported(After(s, run)) == Reported(s)
    decreases |run|
  {
    if run != [] {
      TakeKeeps(s, run[0]);
      SilentStep(s, run[0]);
      LiveMeans(Take(s, run[0]));
      hide Inv, Enabled, Take, Live;
      SilentWithoutToken(Take(s, run[0]), run[1..]);
    }
  }

  lemma SilentStep(s: System, a: Step)
    requires Inv(s) && Enabled(s, a) && Live(s) == 0 && !a.PostsStray?
    ensures Take(s, a).t.seen == s.t.seen && !a.Completes?
  {
    LiveMeans(s);
    T.FetchAnyway(s.t);
    hide T.Loose, E.Inv, T.Fetch, E.Peek, E.Consume, T.Ahead, T.Laps;
  }

  /** Some further steps, none of them a stray event, bring another report of the
      keyboard. */
  ghost predicate CanReport(s: System)
    requires Inv(s)
  {
    exists run :: Possible(s, run) && Strays(run) == 0 && Reported(After(s, run)) > Reported(s)
  }

  lemma AlwaysEnabled(s: System, data: nat)
    ensures Enabled(s, Fetches) && Enabled(s, Polls(data)) && Enabled(s, Drops)
    ensures E.Room(s.e) ==> Enabled(s, PostsStray(data))
  {
  }

  lemma NoSteps(s: System)
    requires Inv(s)
    ensures Possible(s, []) && After(s, []) == s && Lost(s, []) == 0 && Strays([]) == 0
  {
  }

  lemma OneStep(s: System, a: Step, rest: seq<Step>)
    requires Inv(s) && Enabled(s, a)
    requires (TakeKeeps(s, a); Possible(Take(s, a), rest))
    ensures Possible(s, [a] + rest) && Strays([a] + rest) == (if a.PostsStray? then 1 else 0) + Strays(rest)
    ensures (TakeKeeps(s, a); After(s, [a] + rest) == After(Take(s, a), rest))
    ensures (TakeKeeps(s, a); Lost(s, [a] + rest) == (if Loses(s, a) then 1 else 0) + Lost(Take(s, a), rest))
  {
    hide Enabled, Take, Loses, T.Loose, E.Inv, Good, Reported;
    TakeKeeps(s, a);
    assert ([a] + rest)[1..] == rest;
  }

  /** How far the nearest token is from its next report. */
  function Stage(s: System): nat {
    if AtDevice(s) > 0 then 0 else if s.t.Outstanding() > 0 then 1 else 2
  }

  function Waiting(s: System): int { |s.e.posted| - |s.e.consumed| }

  /** Nothing posted, and a token one step closer to its next report. */
  ghost predicate Closer(s: System, t: System) {
    && Inv(t) && InStep(t) && Live(t) > 0 && Reported(t) == Reported(s) && 0 <= Waiting(t) <= Waiting(s)
    && (Stage(t) < Stage(s) || (Stage(t) == Stage(s) && Waiting(t) < Waiting(s))
        || (Stage(t) == Stage(s) && t.t.c.dequeue < s.t.c.dequeue))
  }

  lemma FetchCloser(s: System)
    requires Inv(s) && InStep(s) && Live(s) > 0 && Stage(s) == 1
    ensures Closer(s, Take(s, Fetches))
  {
    LiveMeans(s);
    T.FetchMeaning(s.t);
    TakeKeeps(s, Fetches);
    StaysInStep(s, Fetches);
    LiveMeans(Take(s, Fetches));
    EventsInRange(s.e);
    hide T.Inv, T.Loose, E.Inv, T.Fetch, Good, Reports;
  }

  /** A poll takes the oldest event and leaves room for another; the transfer
      ring changes only with a report. */
  lemma PollSteps(s: System, data: nat)
    requires Inv(s)
    ensures var t := Take(s, Polls(data));
            && E.Room(t.e) && t.slot == s.slot && t.e.posted == s.e.posted && t.strays == s.strays
            && t.t.seen == s.t.seen
            && |t.e.consumed| == (if s.e.consumed == s.e.posted then |s.e.posted| else |s.e.consumed| + 1)
  {
    ConsumeOne(s);
    E.ConsumeMeaning(s.e);
    hide T.Loose, E.Peek, E.RingHolds, IsReport;
  }

  lemma PollCloser(s: System)
    requires Inv(s) && InStep(s) && Live(s) > 0 && Stage(s) == 2
    ensures Closer(s, Take(s, Polls(0)))
  {
    PollSteps(s, 0);
    TakeKeeps(s, Polls(0));
    StaysInStep(s, Polls(0));
    var t := Take(s, Polls(0));
    EventsInRange(s.e);
    EventsInRange(t.e);
    LiveMeans(s);
    LiveMeans(t);
    hide T.Inv, T.Loose, E.Inv, Good, Reports, Take, E.Room, T.Room;
  }

  lemma PollMakesRoom(s: System)
    requires Inv(s) && Stage(s) == 0
    ensures var t := Take(s, Polls(0));
            Inv(t) && Enabled(t, Completes(1)) && Reported(t) == Reported(s)
  {
    PollSteps(s, 0);
    TakeKeeps(s, Polls(0));
    hide T.Inv, T.Loose, E.Inv, Good, Reports, Take, E.Room, T.Room;
  }

  /** With a transfer at the device: room for its event, then the event. */
  lemma PollThenComplete(s: System) returns (run: seq<Step>)
    requires Inv(s) && Stage(s) == 0
    ensures Possible(s, run) && Strays(run) == 0 && Reported(After(s, run)) > Reported(s)
  {
    hide *;
    InvGood(s);
    PollMakesRoom(s);
    var t := Take(s, Polls(0));
    InvGood(t);
    TakeKeeps(t, Completes(1));
    NoSteps(Take(t, Completes(1)));
    OneStep(t, Completes(1), []);
    assert [Completes(1)] + [] == [Completes(1)];
    AlwaysEnabled(s, 0);
    OneStep(s, Polls(0), [Completes(1)]);
    run := [Polls(0), Completes(1)];
    assert [Polls(0)] + [Completes(1)] == run;
  }

  /** With a token and the ring in step a further report is always possible: poll
      until a pending event is consumed, fetch what is queued, poll once more for
      room, complete. */
  lemma {:induction false} TokenReports(s: System) returns (run: seq<Step>)
    requires Inv(s) && InStep(s) && Live(s) > 0
    ensures Possible(s, run) && Strays(run) == 0 && Reported(After(s, run)) > Reported(s)
    decreases Stage(s), Waiting(s), s.t.c.dequeue
  {
    hide T.Inv, T.Loose, E.Inv, Good, Reports, Take, Live, Waiting, InStep, Reported;
    if Stage(s) == 0 {
      run := PollThenComplete(s);
    } else {
      var a := if Stage(s) == 1 then Fetches else Polls(0);
      if Stage(s) == 1 {
        FetchCloser(s);
      } else {
        PollCloser(s);
      }
      TakeKeeps(s, a);
      run := TokenReports(Take(s, a));
      OneStep(s, a, run);
      run := [a] + run;
    }
  }

  /** From the start on, with at most 30 tokens at any time, the keyboard can go on
      reporting if and only if fewer events that pass for reports were dropped than
      there were tokens: one, and one more for each stray event. */
  lemma StallsExactly(base: nat, data: nat, slot: nat, run: seq<Step>)
    requires (StartInv(base, data, slot); Possible(Start(base, data, slot), run) && Within(Start(base, data, slot), run))
    ensures (StartInv(base, data, slot);
             CanReport(After(Start(base, data, slot), run)) <==> Lost(Start(base, data, slot), run) < 1 + Strays(run))
  {
    StartInv(base, data, slot);
    var s := After(Start(base, data, slot), run);
    TokensAfter(Start(base, data, slot), run);
    NeverOverruns(Start(base, data, slot), run);
    hide Inv, InStep, Live, Lost, Start;
    if Live(s) > 0 {
      var more := TokenReports(s);
    } else {
      forall more | Possible(s, more) && Strays(more) == 0
        ensures Reported(After(s, more)) == Reported(s)
      {
        SilentWithoutToken(s, more);
      }
    }
  }

  // ---------------------------------------------------------------------------
  // Three runs
  // ---------------------------------------------------------------------------

  /** Every event consumed and published, no transfer at the device. */
  ghost predicate Idle(s: System) {
    Inv(s) && s.e.consumed == s.e.posted && s.e.published == |s.e.posted| && AtDevice(s) == 0
  }

  lemma FirstIsReport(s: System)
    requires Inv(s) && |s.e.consumed| < |s.e.posted|
    requires var ev := s.e.posted[|s.e.consumed|]; IsReport(ev.kind, ev.slot, s.slot)
    ensures NextIsReport(s)
  {
    hide T.Loose, E.RingHolds;
    E.ConsumeMeaning(s.e);
    assert E.Consume(s.e).consumed[|s.e.consumed|] == s.e.posted[|s.e.consumed|];
  }

  /** A stray event is polled and answered with a second transfer. */
  lemma StrayAnswered(s: System)
    requires Idle(s)
    ensures Good(s) && Enabled(s, PostsStray(1)) && Inv(Take(s, PostsStray(1))) && Good(Take(s, PostsStray(1)))
    ensures var t := Take(Take(s, PostsStray(1)), Polls(0));
            Idle(t) && t.t == T.Queue(s.t, 0) && t.strays == s.strays + 1 && t.slot == s.slot
  {
    var a, b := PostsStray(1), Polls(0);
    TakeKeeps(s, a);
    var t := Take(s, a);
    FirstIsReport(t);
    TakeKeeps(t, b);
    PollSteps(t, 0);
    EventsInRange(Take(t, b).e);
    LiveMeans(t);
    LiveMeans(Take(t, b));
    hide T.Loose, E.Inv, T.QueueTrb, Reports, NextIsReport;
  }

  /** A transfer is fetched and reported, and another loop meets the report. */
  lemma ReportDropped(s: System)
    requires Idle(s) && InStep(s) && s.t.Outstanding() > 0 && s.t.c.dequeue < T.USABLE
    ensures var t := Take(s, Fetches);
            Inv(t) && Enabled(t, Completes(1)) && Inv(Take(t, Completes(1))) && Loses(Take(t, Completes(1)), Drops)
  {
    T.FetchMeaning(s.t);
    TakeKeeps(s, Fetches);
    var t := Take(s, Fetches);
    TakeKeeps(t, Completes(1));
    FirstIsReport(Take(t, Completes(1)));
    hide T.Loose, T.Inv, E.Inv, T.Fetch, Reports, NextIsReport;
  }

  lemma DropRun(s: System)
    requires Idle(s) && InStep(s) && s.t.Outstanding() > 0 && s.t.c.dequeue < T.USABLE
    ensures Inv(s)
    ensures var run := [Fetches, Completes(1), Drops]; Possible(s, run) && Lost(s, run) == 1 && Strays(run) == 0
  {
    hide *;
    IdleInv(s);
    InvGood(s);
    ReportDropped(s);
    var t := Take(s, Fetches);
    InvGood(t);
    var u := Take(t, Completes(1));
    InvGood(u);
    AlwaysEnabled(s, 0);
    AlwaysEnabled(u, 0);
    TakeKeeps(u, Drops);
    NoSteps(Take(u, Drops));
    OneStep(u, Drops, []);
    assert [Drops] + [] == [Drops];
    NotLost(t, Completes(1));
    OneStep(t, Completes(1), [Drops]);
    assert [Completes(1)] + [Drops] == [Completes(1), Drops];
    NotLost(s, Fetches);
    OneStep(s, Fetches, [Completes(1), Drops]);
    assert [Fetches] + [Completes(1), Drops] == [Fetches, Completes(1), Drops];
  }

  lemma IdleInv(s: System)
    requires Idle(s)
    ensures Inv(s) && Good(s)
  {
  }

  lemma StrayRun(s: System, rest: seq<Step>)
    requires Idle(s) && (StrayAnswered(s); Possible(Take(Take(s, PostsStray(1)), Polls(0)), rest))
    ensures Inv(s)
    ensures (StrayAnswered(s);
             var t, run := Take(Take(s, PostsStray(1)), Polls(0)), [PostsStray(1), Polls(0)] + rest;
             && Possible(s, run) && Lost(s, run) == Lost(t, rest) && Strays(run) == 1 + Strays(rest)
             && After(s, run) == After(t, rest))
  {
    hide *;
    IdleInv(s);
    InvGood(s);
    StrayAnswered(s);
    var t := Take(s, PostsStray(1));
    InvGood(t);
    AlwaysEnabled(t, 0);
    IdleInv(Take(t, Polls(0)));
    NotLost(t, Polls(0));
    OneStep(t, Polls(0), rest);
    NotLost(s, PostsStray(1));
    OneStep(s, PostsStray(1), [Polls(0)] + rest);
    assert [PostsStray(1)] + ([Polls(0)] + rest) == [PostsStray(1), Polls(0)] + rest;
  }

  lemma StartIdle(base: nat, data: nat, slot: nat)
    ensures Idle(Start(base, data, slot))
  {
    hide Inv;
    StartInv(base, data, slot);
    LiveMeans(Start(base, data, slot));
  }

  /** A run that stalls: another loop meets the very first report. */
  lemma DroppedAtOnce(base: nat, data: nat, slot: nat)
    ensures (StartInv(base, data, slot);
             var s, run := Start(base, data, slot), [Fetches, Completes(1), Drops];
             Possible(s, run) && Lost(s, run) == 1 && !CanReport(After(s, run)))
  {
    hide Inv, InStep, Idle, Start, Possible, After, Lost, CanReport;
    var s, run := Start(base, data, slot), [Fetches, Completes(1), Drops];
    StartInv(base, data, slot);
    StartIdle(base, data, slot);
    DropRun(s);
    FewStrays(s, run);
    StallsExactly(base, data, slot, run);
  }

  /** The same loss behind a stray event does no harm: the keyboard has two
      transfers by then. */
  lemma StrayMakesGood(base: nat, data: nat, slot: nat)
    ensures (StartInv(base, data, slot);
             var s, run := Start(base, data, slot), [PostsStray(1), Polls(0)] + [Fetches, Completes(1), Drops];
             Possible(s, run) && Lost(s, run) == 1 && CanReport(After(s, run)))
  {
    hide Inv, InStep, Idle, Start, Possible, After, Lost, CanReport;
    var s, rest := Start(base, data, slot), [Fetches, Completes(1), Drops];
    StartInv(base, data, slot);
    StartIdle(base, data, slot);
    StrayAnswered(s);
    SecondTransfer(s);
    DropRun(Take(Take(s, PostsStray(1)), Polls(0)));
    StrayRun(s, rest);
    FewStrays(s, [PostsStray(1), Polls(0)] + rest);
    StallsExactly(base, data, slot, [PostsStray(1), Polls(0)] + rest);
  }

  lemma SecondTransfer(s: System)
    requires Idle(s) && InStep(s) && Live(s) < T.USABLE - 1 && s.t.c.dequeue < T.USABLE
    ensures (StrayAnswered(s);
             var t := Take(Take(s, PostsStray(1)), Polls(0));
             Idle(t) && InStep(t) && t.t.Outstanding() > 0 && t.t.c.dequeue < T.USABLE)
  {
    StrayAnswered(s);
    TakeKeeps(s, PostsStray(1));
    StaysInStep(s, PostsStray(1));
    TakeKeeps(Take(s, PostsStray(1)), Polls(0));
    StaysInStep(Take(s, PostsStray(1)), Polls(0));
    LiveMeans(s);
    hide Inv, Take, T.QueueTrb, Live, T.Inv;
  }

  /** The transfer ring overrun, and nobody left to ask for more. */
  ghost predicate Flooded(s: System) {
    Inv(s) && T.Overtaken(s.t) && Live(s) == s.t.Outstanding() <= 2 * T.USABLE
  }

  lemma StuckStep(s: System, a: Step)
    requires Flooded(s) && Enabled(s, a) && !a.PostsStray?
    ensures Good(s) && Flooded(Take(s, a)) && Reported(Take(s, a)) == Reported(s)
  {
    LiveMeans(s);
    TakeKeeps(s, a);
    T.OvertakenStep(s.t, T.ControllerFetches);
    PendingReport(s);
    hide T.Loose, E.Inv, E.Peek, E.Consume, T.Fetch, T.QueueTrb, Reports, NextIsReport;
  }

  lemma {:induction false} StuckRun(s: System, run: seq<Step>)
    requires Flooded(s) && Possible(s, run) && Strays(run) == 0
    ensures Reported(After(s, run)) == Reported(s)
    decreases |run|
  {
    hide Inv, T.Overtaken, Enabled, Take, Live, Reported;
    if run != [] {
      StuckStep(s, run[0]);
      StuckRun(Take(s, run[0]), run[1..]);
    }
  }

  /** `n` stray events, each polled at once. */
  function Flood(n: nat): (run: seq<Step>)
    ensures Strays(run) == n
  {
    if n == 0 then []
    else
      var run := [PostsStray(1), Polls(0)] + Flood(n - 1);
      assert run[1..][1..] == Flood(n - 1);
      run
  }

  lemma {:induction false} FloodRun(s: System, n: nat)
    requires Idle(s)
    ensures Inv(s) && Possible(s, Flood(n)) && Lost(s, Flood(n)) == 0
    ensures var t := After(s, Flood(n)); Idle(t) && |t.t.queued| == |s.t.queued| + n && t.t.seen == s.t.seen
    decreases n
  {
    hide Idle, Inv, Possible, Lost, After, Take, T.QueueTrb;
    IdleInv(s);
    if n == 0 {
      NoSteps(s);
    } else {
      StrayAnswered(s);
      FloodRun(Take(Take(s, PostsStray(1)), Polls(0)), n - 1);
      StrayRun(s, Flood(n - 1));
    }
  }

  /** 31 stray events overrun the transfer ring: no event was dropped, yet the
      keyboard cannot report. */
  lemma FloodStalls(base: nat, data: nat, slot: nat)
    ensures (StartInv(base, data, slot);
             var s, run := Start(base, data, slot), Flood(T.USABLE);
             Possible(s, run) && Lost(s, run) == 0 < 1 + Strays(run) && !CanReport(After(s, run)))
  {
    hide Inv, InStep, Start, Possible, After, Lost;
    var s, run := Start(base, data, slot), Flood(T.USABLE);
    StartInv(base, data, slot);
    StartIdle(base, data, slot);
    FloodRun(s, T.USABLE);
    var t := After(s, run);
    IdleFlooded(t);
    forall more | Possible(t, more) && Strays(more) == 0
      ensures Reported(After(t, more)) == Reported(t)
    {
      StuckRun(t, more);
    }
  }

  lemma IdleFlooded(s: System)
    requires Idle(s) && T.USABLE < s.t.Outstanding() <= 2 * T.USABLE
    ensures Flooded(s)
  {
    LiveMeans(s);
    hide T.Loose, E.Inv, Reports;
  }

  // ---------------------------------------------------------------------------
  // The command ring
  // ---------------------------------------------------------------------------

  const COMMAND_SLOTS: nat := 32

  /** Ring side of xhci_send_command. */
  class CommandRing {
    const ring: array<T.Trb>
    const base: nat
    var enqueue: nat
    var cycle: bool
    /** Commands accepted since the ring was set up. */
    ghost var accepted: seq<T.Trb>

    ghost predicate Valid()
      reads this, ring
    {
      && ring.Length == COMMAND_SLOTS && cycle
      && enqueue == |accepted| <= COMMAND_SLOTS - 2
      && (forall i :: 0 <= i < |accepted| ==> ring[i] == accepted[i].(cycle := true))
      && ring[COMMAND_SLOTS - 1] == T.Link(base, true)
    }

    /** xhci_init_cmd_ring */
    constructor (base: nat)
      ensures Valid() && fresh(ring) && accepted == []
    {
      this.base, enqueue, cycle, accepted := base, 0, true, [];
      ring := new T.Trb[COMMAND_SLOTS](_ => T.ZERO_TRB);
      new;
      ring[COMMAND_SLOTS - 1] := T.Link(base, true);
    }

    /** The full check comes one slot early, so the wrap-around behind it never
        runs: the ring accepts 30 commands in its life and no more. */
    method Send(command: T.Trb) returns (ok: bool)
      requires Valid()
      modifies this, ring
      ensures Valid() && cycle == old(cycle)
      ensures ok <==> |old(accepted)| < 30
      ensures accepted == if ok then old(accepted) + [command] else old(accepted)
    {
      var next := (enqueue + 1) % COMMAND_SLOTS;
      if next == COMMAND_SLOTS - 1 || next == 0 {
        return false;
      }
      ring[enqueue] := command.(cycle := cycle);
      enqueue := enqueue + 1;
      accepted := accepted + [command];
      // The wrap-around is guarded by enqueue reaching the Link slot.
      assert enqueue != COMMAND_SLOTS - 1;
      ok := true;
    }
  }
}
