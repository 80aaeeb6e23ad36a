/** The block layer's request queues (blk.c): linked lists kept in deadline order,
    reads served before writes. */
module DeadlineQueue {

  class Request {
    const deadline: nat
    const read: bool
    var next: Request?

    constructor (deadline: nat, read: bool)
      ensures this.deadline == deadline && this.read == read && next == null
    {
      this.deadline, this.read, next := deadline, read, null;
    }
  }

  // ---------------------------------------------------------------------------
  // Lists of requests
  // ---------------------------------------------------------------------------

  predicate Sorted(s: seq<Request>) {
    forall i, j :: 0 <= i < j < |s| ==> s[i].deadline <= s[j].deadline
  }

  /** Behind every request that is due no later. */
  function Insert(s: seq<Request>, r: Request): (t: seq<Request>)
    ensures |t| == |s| + 1
  {
    if s == [] || r.deadline < s[0].deadline then [r] + s else [s[0]] + Insert(s[1..], r)
  }

  /** Index Insert puts the new request at. */
  function Place(s: seq<Request>, r: Request): (i: nat)
    ensures i <= |s| && forall j :: 0 <= j < i ==> s[j].deadline <= r.deadline
    ensures i < |s| ==> r.deadline < s[i].deadline
  {
    if s == [] || r.deadline < s[0].deadline then 0 else 1 + Place(s[1..], r)
  }

  lemma {:induction false} InsertIs(s: seq<Request>, r: Request)
    ensures Insert(s, r) == s[..Place(s, r)] + [r] + s[Place(s, r)..] == With(s, Place(s, r), r)
  {
    if s != [] && s[0].deadline <= r.deadline {
      InsertIs(s[1..], r);
    }
  }

  lemma PlaceIs(s: seq<Request>, r: Request, i: nat)
    requires i <= |s| && (forall j :: 0 <= j < i ==> s[j].deadline <= r.deadline)
    requires i < |s| ==> r.deadline < s[i].deadline
    ensures Place(s, r) == i
  {
    var p := Place(s, r);
    assert p < |s| ==> r.deadline < s[p].deadline;
  }

  lemma InsertSorted(s: seq<Request>, r: Request)
    requires Sorted(s)
    ensures Sorted(Insert(s, r))
  {
    InsertIs(s, r);
    hide Insert, Place;
  }

  /** The requests due at `d`, in order. */
  function Due(s: seq<Request>, d: nat): seq<Request> {
    if s == [] then [] else (if s[0].deadline == d then [s[0]] else []) + Due(s[1..], d)
  }

  lemma {:induction false} DueConcat(a: seq<Request>, b: seq<Request>, d: nat)
    ensures Due(a + b, d) == Due(a, d) + Due(b, d)
  {
    hide Due;
    if a == [] {
      assert a + b == b && Due(a, d) == [] by { NoDue(d); }
    } else {
      DueConcat(a[1..], b, d);
      DueCons(a, d);
      DueCons(a + b, d);
      assert (a + b)[1..] == a[1..] + b;
    }
  }

  lemma NoDue(d: nat)
    ensures Due([], d) == []
  {
  }

  lemma DueCons(s: seq<Request>, d: nat)
    requires s != []
    ensures Due(s, d) == (if s[0].deadline == d then [s[0]] else []) + Due(s[1..], d)
  {
  }

  /** Insertion leaves ties in order of arrival. */
  lemma {:induction false} InsertDue(s: seq<Request>, r: Request, d: nat)
    requires Sorted(s)
    ensures Due(Insert(s, r), d) == Due(s, d) + if r.deadline == d then [r] else []
  {
    if s == [] {
    } else if r.deadline < s[0].deadline {
      NoneDue(s, r.deadline);
      assert ([r] + s)[1..] == s;
    } else {
      InsertDue(s[1..], r, d);
      assert Insert(s, r)[1..] == Insert(s[1..], r);
    }
  }

  lemma {:induction false} NoneDue(s: seq<Request>, d: nat)
    requires forall i :: 0 <= i < |s| ==> d < s[i].deadline
    ensures Due(s, d) == []
  {
    if s != [] {
      NoneDue(s[1..], d);
    }
  }

  // ---------------------------------------------------------------------------
  // Stable sorting
  // ---------------------------------------------------------------------------

  /** `t` has the requests of `s`, sorted, ties in the order of `s`. */
  ghost predicate StableSortOf(t: seq<Request>, s: seq<Request>) {
    Sorted(t) && forall d: nat :: Due(t, d) == Due(s, d)
  }

  /** There is only one stable sort. */
  lemma {:induction false} StableSortUnique(a: seq<Request>, b: seq<Request>)
    requires Sorted(a) && Sorted(b) && forall d: nat :: Due(a, d) == Due(b, d)
    ensures a == b
    decreases |a|
  {
    if a == [] || b == [] {
      BothEmpty(a, b);
    } else {
      SameHead(a, b);
      forall d: nat
        ensures Due(a[1..], d) == Due(b[1..], d)
      {
        assert Due(a, d) == Due(b, d);
        DueTail(a, d);
        DueTail(b, d);
      }
      StableSortUnique(a[1..], b[1..]);
      assert a == [a[0]] + a[1..] && b == [b[0]] + b[1..];
    }
  }

  lemma BothEmpty(a: seq<Request>, b: seq<Request>)
    requires (a == [] || b == []) && forall d: nat :: Due(a, d) == Due(b, d)
    ensures a == b == []
  {
    if a != [] {
      DueTail(a, a[0].deadline);
    }
    if b != [] {
      DueTail(b, b[0].deadline);
    }
  }

  lemma DueTail(s: seq<Request>, d: nat)
    requires s != []
    ensures Due(s[1..], d) == if s[0].deadline == d then Due(s, d)[1..] else Due(s, d)
    ensures s[0].deadline == d ==> Due(s, d) != [] && Due(s, d)[0] == s[0]
  {
  }

  lemma SameHead(a: seq<Request>, b: seq<Request>)
    requires a != [] && b != [] && Sorted(a) && Sorted(b) && forall d: nat :: Due(a, d) == Due(b, d)
    ensures a[0] == b[0]
  {
    hide Due;
    var m, n := a[0].deadline, b[0].deadline;
    assert Due(a, m) == Due(b, m) && Due(a, n) == Due(b, n);
    DueTail(a, m);
    DueTail(b, n);
    if m < n {
      NoneDue(b, m);
    } else if n < m {
      NoneDue(a, n);
    } else {
      assert Due(a, m)[0] == Due(b, m)[0];
    }
  }

  /** Submitting a batch to an empty queue. */
  function InsertAll(batch: seq<Request>): seq<Request> {
    if batch == [] then [] else Insert(InsertAll(batch[..|batch| - 1]), batch[|batch| - 1])
  }

  lemma {:induction false} InsertAllSorts(batch: seq<Request>)
    ensures StableSortOf(InsertAll(batch), batch)
    decreases |batch|
  {
    if batch != [] {
      var front, last := batch[..|batch| - 1], batch[|batch| - 1];
      InsertAllSorts(front);
      InsertSorted(InsertAll(front), last);
      forall d: nat
        ensures Due(InsertAll(batch), d) == Due(batch, d)
      {
        InsertDue(InsertAll(front), last, d);
        DueConcat(front, [last], d);
        assert front + [last] == batch && [last][1..] == [];
      }
    }
  }

  // ---------------------------------------------------------------------------
  // Both queues
  // ---------------------------------------------------------------------------

  datatype Queues = Queues(readers: seq<Request>, writers: seq<Request>)

  /** blk_submit_request over mq_deadline_add */
  function Submit(q: Queues, r: Request): Queues {
    if r.read then q.(readers := Insert(q.readers, r)) else q.(writers := Insert(q.writers, r))
  }

  /** blk_dispatch over mq_deadline_get_next */
  function Dispatched(q: Queues): seq<Request> {
    if q.readers != [] then [q.readers[0]] else if q.writers != [] then [q.writers[0]] else []
  }

  function Rest(q: Queues): Queues {
    if q.readers != [] then q.(readers := q.readers[1..]) else if q.writers != [] then q.(writers := q.writers[1..]) else q
  }

  function SubmitAll(q: Queues, batch: seq<Request>): Queues
    decreases |batch|
  {
    if batch == [] then q else SubmitAll(Submit(q, batch[0]), batch[1..])
  }

  function Drain(q: Queues): (out: seq<Request>)
    decreases |q.readers| + |q.writers|
  {
    if Dispatched(q) == [] then [] else Dispatched(q) + Drain(Rest(q))
  }

  function Reads(batch: seq<Request>): seq<Request> {
    if batch == [] then [] else (if batch[0].read then [batch[0]] else []) + Reads(batch[1..])
  }

  function Writes(batch: seq<Request>): seq<Request> {
    if batch == [] then [] else (if batch[0].read then [] else [batch[0]]) + Writes(batch[1..])
  }

  lemma {:induction false} InsertAllMore(a: seq<Request>, r: Request)
    ensures InsertAll(a + [r]) == Insert(InsertAll(a), r)
  {
    assert (a + [r])[..|a|] == a;
  }

  lemma {:induction false} SubmitAllIs(a: seq<Request>, b: seq<Request>, batch: seq<Request>)
    ensures SubmitAll(Queues(InsertAll(a), InsertAll(b)), batch)
            == Queues(InsertAll(a + Reads(batch)), InsertAll(b + Writes(batch)))
    decreases |batch|
  {
    hide InsertAll, Insert;
    if batch == [] {
      assert a + [] == a && b + [] == b;
    } else {
      var r := batch[0];
      if r.read {
        InsertAllMore(a, r);
        SubmitAllIs(a + [r], b, batch[1..]);
        assert Reads(batch) == [r] + Reads(batch[1..]) && Writes(batch) == Writes(batch[1..]);
        assert a + [r] + Reads(batch[1..]) == a + ([r] + Reads(batch[1..]));
      } else {
        InsertAllMore(b, r);
        SubmitAllIs(a, b + [r], batch[1..]);
        assert Writes(batch) == [r] + Writes(batch[1..]) && Reads(batch) == Reads(batch[1..]);
        assert b + [r] + Writes(batch[1..]) == b + ([r] + Writes(batch[1..]));
      }
    }
  }

  lemma {:induction false} DrainIs(q: Queues)
    ensures Drain(q) == q.readers + q.writers
    decreases |q.readers| + |q.writers|
  {
    if q.readers != [] {
      DrainIs(Rest(q));
      assert q.readers == [q.readers[0]] + q.readers[1..];
    } else if q.writers != [] {
      DrainIs(Rest(q));
      assert q.writers == [q.writers[0]] + q.writers[1..];
    }
  }

  /** Draining any submitted batch yields the stable deadline sort of its reads
      followed by that of its writes, and nothing else could be called that. */
  lemma DrainSortsBatch(batch: seq<Request>, readers: seq<Request>, writers: seq<Request>)
    requires StableSortOf(readers, Reads(batch)) && StableSortOf(writers, Writes(batch))
    ensures Drain(SubmitAll(Queues([], []), batch)) == readers + writers
  {
    SubmitAllIs([], [], batch);
    assert [] + Reads(batch) == Reads(batch) && [] + Writes(batch) == Writes(batch);
    DrainIs(Queues(InsertAll(Reads(batch)), InsertAll(Writes(batch))));
    InsertAllSorts(Reads(batch));
    InsertAllSorts(Writes(batch));
    StableSortUnique(readers, InsertAll(Reads(batch)));
    StableSortUnique(writers, InsertAll(Writes(batch)));
  }

  // ---------------------------------------------------------------------------
  // Runs
  // ---------------------------------------------------------------------------

  datatype Call = Add(r: Request) | Get

  ghost predicate InOrder(q: Queues) {
    && Sorted(q.readers) && Sorted(q.writers)
    && (forall i :: 0 <= i < |q.readers| ==> q.readers[i].read) && (forall i :: 0 <= i < |q.writers| ==> !q.writers[i].read)
  }

  function Step(q: Queues, c: Call): Queues {
    match c
    case Add(r) => Submit(q, r)
    case Get => Rest(q)
  }

  function After(q: Queues, run: seq<Call>): Queues
    decreases |run|
  {
    if run == [] then q else After(Step(q, run[0]), run[1..])
  }

  function Submitted(run: seq<Call>): seq<Request> {
    if run == [] then [] else (if run[0].Add? then [run[0].r] else []) + Submitted(run[1..])
  }

  function Output(q: Queues, run: seq<Call>): seq<Request>
    decreases |run|
  {
    if run == [] then []
    else (if run[0].Get? then Dispatched(q) else []) + Output(Step(q, run[0]), run[1..])
  }

  function Held(q: Queues): multiset<Request> { multiset(q.readers) + multiset(q.writers) }

  lemma SubmitKeeps(q: Queues, r: Request)
    requires InOrder(q)
    ensures InOrder(Submit(q, r)) && Held(Submit(q, r)) == Held(q) + multiset{r}
  {
    var s := if r.read then q.readers else q.writers;
    InsertSorted(s, r);
    InsertElements(s, r);
    InsertKind(s, r);
    hide Insert, Sorted;
  }

  lemma InsertKind(s: seq<Request>, r: Request)
    requires forall i :: 0 <= i < |s| ==> s[i].read == r.read
    ensures forall i :: 0 <= i < |Insert(s, r)| ==> Insert(s, r)[i].read == r.read
  {
    InsertIs(s, r);
  }

  lemma InsertElements(s: seq<Request>, r: Request)
    ensures multiset(Insert(s, r)) == multiset(s) + multiset{r}
  {
    InsertIs(s, r);
    hide Insert;
    Between(s[..Place(s, r)], s[Place(s, r)..], r);
    assert s == s[..Place(s, r)] + s[Place(s, r)..];
  }

  lemma Between<T>(a: seq<T>, b: seq<T>, x: T)
    ensures multiset(a + [x] + b) == multiset(a + b) + multiset{x}
  {
  }

  lemma FirstOf<T>(s: seq<T>)
    requires s != []
    ensures multiset(s) == multiset([s[0]]) + multiset(s[1..])
  {
    assert s == [s[0]] + s[1..];
  }

  lemma RestKeeps(q: Queues)
    requires InOrder(q)
    ensures InOrder(Rest(q)) && Held(q) == Held(Rest(q)) + multiset(Dispatched(q))
  {
    if q.readers != [] {
      FirstOf(q.readers);
    } else if q.writers != [] {
      FirstOf(q.writers);
    }
  }

  lemma StepKeeps(q: Queues, c: Call)
    requires InOrder(q)
    ensures InOrder(Step(q, c))
    ensures Held(q) + (if c.Add? then multiset{c.r} else multiset{})
            == Held(Step(q, c)) + (if c.Get? then multiset(Dispatched(q)) else multiset{})
  {
    hide InOrder, Held, Submit, Rest, Dispatched;
    match c
    case Add(r) => SubmitKeeps(q, r);
    case Get => RestKeeps(q);
  }

  lemma Balance<T>(held: multiset<T>, added: multiset<T>, later: multiset<T>,
                   next: multiset<T>, got: multiset<T>, out: multiset<T>, end: multiset<T>)
    requires held + added == next + got && next + later == out + end
    ensures held + (added + later) == (got + out) + end
  {
    assert held + (added + later) == (held + added) + later;
    assert (next + got) + later == (next + later) + got;
    assert (out + end) + got == (got + out) + end;
  }

  lemma RunElements(q: Queues, run: seq<Call>)
    requires run != []
    ensures After(q, run) == After(Step(q, run[0]), run[1..])
    ensures multiset(Submitted(run)) == (if run[0].Add? then multiset{run[0].r} else multiset{}) + multiset(Submitted(run[1..]))
    ensures multiset(Output(q, run)) == (if run[0].Get? then multiset(Dispatched(q)) else multiset{})
                                        + multiset(Output(Step(q, run[0]), run[1..]))
  {
    hide Step, Dispatched;
  }

  /** Over any run the lists stay in deadline order, and what was submitted is
      exactly what was dispatched and what is still queued. */
  lemma {:induction false} Conserved(q: Queues, run: seq<Call>)
    requires InOrder(q)
    ensures InOrder(After(q, run))
    ensures Held(q) + multiset(Submitted(run)) == multiset(Output(q, run)) + Held(After(q, run))
    decreases |run|
  {
    hide InOrder, Held, Submit, Rest, Dispatched;
    if run != [] {
      StepKeeps(q, run[0]);
      Conserved(Step(q, run[0]), run[1..]);
      RunElements(q, run);
      var c, rest, next := run[0], run[1..], Step(q, run[0]);
      Balance(Held(q), if c.Add? then multiset{c.r} else multiset{}, multiset(Submitted(rest)),
              Held(next), if c.Get? then multiset(Dispatched(q)) else multiset{}, multiset(Output(next, rest)),
              Held(After(q, run)));
      hide Step, After, Submitted, Output;
    }
  }

  /** A dispatched request is a read if any is queued, and no queued request of
      its kind is due earlier. */
  lemma DispatchedIsUrgent(q: Queues)
    requires InOrder(q) && Dispatched(q) != []
    ensures var r := Dispatched(q)[0];
            && (r.read <==> q.readers != [])
            && forall o :: o in (if r.read then q.readers else q.writers) ==> r.deadline <= o.deadline
  {
  }

  // ---------------------------------------------------------------------------
  // The linked lists
  // ---------------------------------------------------------------------------

  function Behind(s: seq<Request>, i: int): Request?
    requires 0 <= i < |s|
  {
    if i + 1 < |s| then s[i + 1] else null
  }

  /** `head` and the next pointers behind it are the list `s`. */
  ghost predicate Linked(head: Request?, s: seq<Request>)
    reads s
  {
    && (if s == [] then head == null else head == s[0])
    && (forall i :: 0 <= i < |s| ==> s[i].next == Behind(s, i))
    && Distinct(s)
  }

  predicate Distinct(s: seq<Request>) {
    forall i, j :: 0 <= i < j < |s| ==> s[i] != s[j]
  }

  /** The list with `r` put at index `p`. */
  function With(s: seq<Request>, p: nat, r: Request): (t: seq<Request>)
    requires p <= |s|
    ensures |t| == |s| + 1
    ensures forall k :: 0 <= k < |t| ==> t[k] == if k < p then s[k] else if k == p then r else s[k - 1]
  {
    s[..p] + [r] + s[p..]
  }

  lemma WithDistinct(s: seq<Request>, p: nat, r: Request)
    requires p <= |s| && Distinct(s) && r !in s
    ensures Distinct(With(s, p, r))
  {
  }

  lemma LinkedTail(head: Request?, s: seq<Request>)
    requires Linked(head, s) && s != []
    ensures head != null && Linked(head.next, s[1..])
  {
    assert s[0].next == Behind(s, 0);
    forall i | 0 <= i < |s| - 1
      ensures s[1..][i].next == Behind(s[1..], i)
    {
      assert s[i + 1].next == Behind(s, i + 1);
    }
  }

  lemma Disjoint(q: Queues)
    requires InOrder(q)
    ensures forall r :: r in q.readers ==> r !in q.writers
    ensures forall r :: r in q.writers ==> r !in q.readers
  {
  }

  class BlockLayer {
    var readQueue: Request?
    var writeQueue: Request?
    ghost var q: Queues

    ghost predicate Valid()
      reads this, q.readers, q.writers
    {
      && Linked(readQueue, q.readers) && Linked(writeQueue, q.writers) && InOrder(q)
    }

    constructor ()
      ensures Valid() && q == Queues([], [])
    {
      readQueue, writeQueue, q := null, null, Queues([], []);
    }

    /** mq_deadline_add */
    method Add(req: Request)
      requires Valid() && req !in q.readers && req !in q.writers
      modifies this, req, q.readers, q.writers
      ensures Valid() && q == Submit(old(q), req)
    {
      hide InOrder, Insert, Held, Distinct;
      SubmitKeeps(q, req);
      ghost var readers, writers := q.readers, q.writers;
      Disjoint(q);
      assert forall i :: 0 <= i < |readers| ==> readers[i] !in writers && readers[i] != req;
      assert forall i :: 0 <= i < |writers| ==> writers[i] !in readers && writers[i] != req;
      var head := InsertInto(if req.read then readQueue else writeQueue, if req.read then readers else writers, req);
      assert if req.read then Linked(writeQueue, writers) else Linked(readQueue, readers);
      Stored(head, if req.read then Insert(readers, req) else Insert(writers, req), req);
    }

    /** Putting the new list back. */
    method Stored(head: Request?, ghost s: seq<Request>, req: Request)
      requires s == Insert(if req.read then q.readers else q.writers, req) && Linked(head, s)
      requires if req.read then Linked(writeQueue, q.writers) else Linked(readQueue, q.readers)
      requires InOrder(Submit(q, req))
      modifies this
      ensures Valid() && q == Submit(old(q), req)
    {
      hide InOrder, Insert, Distinct;
      q := Submit(q, req);
      if req.read {
        readQueue := head;
      } else {
        writeQueue := head;
      }
    }

    /** mq_deadline_get_next */
    method GetNext() returns (req: Request?)
      requires Valid()
      modifies this
      ensures Valid() && q == Rest(old(q))
      ensures if Dispatched(old(q)) == [] then req == null else req == Dispatched(old(q))[0]
    {
      hide InOrder, Held;
      RestKeeps(q);
      req := null;
      if readQueue != null {
        LinkedTail(readQueue, q.readers);
        req := readQueue;
        readQueue := readQueue.next;
      } else if writeQueue != null {
        LinkedTail(writeQueue, q.writers);
        req := writeQueue;
        writeQueue := writeQueue.next;
      }
      q := Rest(q);
    }
  }

  /** The insertion into one list; the new head. */
  method InsertInto(head: Request?, ghost s: seq<Request>, req: Request) returns (head': Request?)
    requires Linked(head, s) && req !in s
    modifies req, s
    ensures Linked(head', Insert(s, req))
  {
    InsertIs(s, req);
    hide Insert, Distinct;
    if head == null || req.deadline < head.deadline {
      PlaceIs(s, req, 0);
      WithDistinct(s, 0, req);
      hide Place;
      req.next := head;
      head' := req;
      ghost var t := With(s, 0, req);
      forall k | 0 <= k < |t|
        ensures t[k].next == Behind(t, k)
      {
        if k > 0 {
          assert s[k - 1].next == Behind(s, k - 1);
        }
      }
    } else {
      head' := head;
      InsertBehind(head, s, req);
    }
  }

  /** The walk to the last request due no later, and the two links set there. */
  method InsertBehind(head: Request, ghost s: seq<Request>, req: Request)
    requires Linked(head, s) && req !in s && head.deadline <= req.deadline
    modifies req, s
    ensures Linked(head, With(s, Place(s, req), req))
  {
    var curr := WalkTo(head, s, req);
    ghost var i := Place(s, req) - 1;
    WithDistinct(s, i + 1, req);
    hide Place;
    assert s[i].next == Behind(s, i);
    Link(head, s, curr, i, req);
  }

  method WalkTo(head: Request, ghost s: seq<Request>, req: Request) returns (curr: Request)
    requires Linked(head, s) && head.deadline <= req.deadline
    ensures 1 <= Place(s, req) <= |s| && curr == s[Place(s, req) - 1]
  {
    hide Distinct, Place;
    curr := head;
    ghost var i := 0;
    while curr.next != null && curr.next.deadline <= req.deadline
      invariant i < |s| && s[i] == curr
      invariant forall j :: 0 <= j <= i ==> s[j].deadline <= req.deadline
      decreases |s| - i
    {
      assert s[i].next == Behind(s, i);
      curr, i := curr.next, i + 1;
    }
    assert s[i].next == Behind(s, i);
    PlaceIs(s, req, i + 1);
  }

  method Link(head: Request, ghost s: seq<Request>, curr: Request, ghost i: nat, req: Request)
    requires Linked(head, s) && req !in s && i < |s| && s[i] == curr
    modifies req, curr
    ensures Linked(head, With(s, i + 1, req))
  {
    WithDistinct(s, i + 1, req);
    ghost var t := With(s, i + 1, req);
    assert s[i].next == Behind(s, i);
    req.next := curr.next;
    curr.next := req;
    forall k | 0 <= k < |t|
      ensures t[k].next == Behind(t, k)
    {
      if k < i {
        assert s[k] != s[i] && old(s[k].next) == Behind(s, k);
      } else if k > i + 1 {
        assert s[i] != s[k - 1] && old(s[k - 1].next) == Behind(s, k - 1);
      }
    }
    hide Distinct;
  }
}
