/** What every run of the memcached client keeps, over all orders of callbacks. */
module MemcacheRuns {
  import opened Tallies
  import opened Memcache
  import opened Wrappers

  ghost predicate Legal(started: seq<bool>, run: seq<Event>)
    decreases |run|, 0
  {
    |run| == 0 || (Legal(started, run[..|run| - 1]) && Enabled(Run(started, run[..|run| - 1]), run[|run| - 1]))
  }

  /** The pool after a run; every reachable pool is valid. */
  ghost function Run(started: seq<bool>, run: seq<Event>): (p: Pool)
    requires Legal(started, run)
    ensures Valid(p)
    decreases |run|, 1
  {
    if |run| == 0 then
      InitValid(started);
      Init(started)
    else
      var p := Run(started, run[..|run| - 1]);
      StepValid(p, run[|run| - 1]);
      Step(p, run[|run| - 1])
  }

  /** In every run a credit finds an idle connection. */
  lemma CreditsAreBacked(started: seq<bool>, run: seq<Event>)
    requires Legal(started, run)
    ensures var p := Run(started, run);
            p.available + Tally(p.conns, Busy()) <= |p.conns| && (p.available > 0 ==> Free(p.conns, 0) < |p.conns|)
  {
    var p := Run(started, run);
    if p.available > 0 { CreditFinds(p); }
  }

  // --------------------------------------------------- every get is accounted for

  /** A queued get, a get in flight, and a call of its callback. */
  function Queued(id: nat): Op -> nat { (op: Op) => One(op.GetOp? && op.id == id) }

  function Flying(id: nat): Conn -> nat {
    (c: Conn) => One(c.inUse && c.phase != Stuck && c.req.Getting? && c.req.id == id)
  }

  function Answered(id: nat): Call -> nat { (c: Call) => One(c.id == id) }

  function Accounted(p: Pool, id: nat): nat {
    Tally(p.queue, Queued(id)) + Tally(p.conns, Flying(id)) + Tally(p.calls, Answered(id))
  }

  lemma AnswerTally(calls: seq<Call>, op: Op, id: nat)
    ensures Tally(calls + Answer(op), Answered(id)) == Tally(calls, Answered(id)) + Queued(id)(op)
  {
    hide Tally;
    if op.GetOp? {
      TallyPush(calls, Call(op.id, Nothing), Answered(id));
    } else {
      assert calls + Answer(op) == calls;
    }
  }

  lemma StartedShare(p: Pool, op: Op, i: nat, w: Writes, id: nat)
    requires i < |p.conns| && p.available > 0 && !p.conns[i].inUse
    ensures Accounted(Started(p, op, i, w).0, id) == Accounted(p, id) + Queued(id)(op)
  {
    hide Tally;
    var q := Started(p, op, i, w).0;
    TallyUpdate(p.conns, i, q.conns[i], Flying(id));
    AnswerTally(p.calls, op, id);
    assert p.calls + [] == p.calls;
  }

  lemma SubmittedShare(p: Pool, op: Op, w: Writes, id: nat)
    requires op.key != []
    ensures Accounted(Submitted(p, op, w).0, id) == Accounted(p, id) + Queued(id)(op)
  {
    hide Tally, Free, Started;
    var i := Free(p.conns, 0);
    if p.available > 0 && i < |p.conns| {
      StartedShare(p, op, i, w, id);
    } else {
      AnswerTally(p.calls, op, id);
      TallyPush(p.queue, Copied(op), Queued(id));
    }
  }

  lemma DequeuedShare(p: Pool, id: nat)
    requires p.queue != []
    ensures Accounted(p, id) == Accounted(Dequeued(p), id) + Queued(id)(p.queue[0])
  {
    hide Tally;
    assert p.queue == [p.queue[0]] + p.queue[1..];
    TallyFront(p.queue[0], p.queue[1..], Queued(id));
  }

  lemma {:induction false} ProcessedShare(p: Pool, w: Writes, id: nat)
    requires Valid(p)
    ensures Accounted(Processed(p, w), id) == Accounted(p, id)
    decreases |p.queue|
  {
    hide Accounted, Submitted, Valid;
    if p.queue != [] && p.available > 0 {
      var op := p.queue[0];
      QueueKeys(p);
      DequeuedValid(p);
      DequeuedShare(p, id);
      SubmittedValid(Dequeued(p), op, w);
      SubmittedShare(Dequeued(p), op, w, id);
      var t := Submitted(Dequeued(p), op, w);
      if t.1 == 0 && t.0.queue != [] && t.0.available > 0 {
        ProcessedShare(t.0, w, id);
      }
    }
  }

  lemma QueueKeys(p: Pool)
    requires Valid(p) && p.queue != []
    ensures p.queue[0].key != []
  {}

  lemma ReleasedShare(p: Pool, i: nat, w: Writes, id: nat)
    requires Valid(p) && i < |p.conns|
    ensures Accounted(Released(p, i, w), id) + Flying(id)(p.conns[i]) == Accounted(p, id)
  {
    hide Tally, Processed;
    FreedValid(p, i);
    TallyUpdate(p.conns, i, Freed(p, i).conns[i], Flying(id));
    TallyUpdate(p.conns, i, p.conns[i].(req := NoRequest), Flying(id));
    if p.conns[i].inUse {
      ProcessedShare(Freed(p, i), w, id);
    }
  }

  /** How often an event asks for id: a get that passes the argument checks. */
  function Asks(ev: Event, id: nat): nat {
    if ev.Submit? && ev.op.key != [] then Queued(id)(ev.op) else 0
  }

  lemma {:induction false} AnswersTally(queue: seq<Op>, id: nat)
    ensures Tally(Answers(queue), Answered(id)) == Tally(queue, Queued(id))
  {
    if queue != [] {
      AnswersTally(queue[1..], id);
      assert queue == [queue[0]] + queue[1..];
      TallyFront(queue[0], queue[1..], Queued(id));
      AnswerTally([], queue[0], id);
      assert [] + Answer(queue[0]) == Answer(queue[0]);
      TallyConcat(Answer(queue[0]), Answers(queue[1..]), Answered(id));
    }
  }

  lemma OnWrittenShare(p: Pool, i: nat, ok: bool, id: nat)
    requires Valid(p) && i < |p.conns| && p.conns[i].phase == Writing
    ensures Accounted(OnWritten(p, i, ok), id) == Accounted(p, id)
  {
    hide Tally;
    var q, c := OnWritten(p, i, ok), p.conns[i];
    TallyUpdate(p.conns, i, q.conns[i], Flying(id));
    if !ok && c.req.Getting? {
      TallyPush(p.calls, Call(c.req.id, Nothing), Answered(id));
    } else {
      assert p.calls + [] == p.calls;
    }
  }

  lemma OnReadShare(p: Pool, i: nat, incoming: Incoming, w: Writes, id: nat)
    requires Valid(p) && i < |p.conns| && p.conns[i].phase == Reading
    ensures Accounted(OnRead(p, i, incoming, w), id) == Accounted(p, id)
  {
    hide Tally, Released, GetOutcome;
    var c := p.conns[i];
    ReleasedShare(p, i, w, id);
    if c.req.Getting? {
      var o := GetOutcome(c.req.buffer, incoming);
      if o.Unfinished? {
        TallyUpdate(p.conns, i, c.(req := c.req.(buffer := o.buffer)), Flying(id));
      } else {
        TallyPush(Released(p, i, w).calls, Call(c.req.id, o.value), Answered(id));
      }
    }
  }

  /** Every event keeps each get queued, in flight or answered, once in all. */
  lemma StepShare(p: Pool, ev: Event, id: nat)
    requires Valid(p) && Enabled(p, ev)
    ensures Accounted(Step(p, ev), id) == Accounted(p, id) + Asks(ev, id)
  {
    hide Tally, Submitted, OnRead, OnWritten, Valid;
    match ev
    case Connect(i, ok) =>
      TallyUpdate(p.conns, i, p.conns[i].(connecting := false, reconnecting := false, up := ok), Flying(id));
    case Submit(op, w) =>
      if op.key != [] { SubmittedShare(p, op, w, id); } else { EmptyKey(p, op, w); }
    case Written(i, ok, readOk) => OnWrittenShare(p, i, ok && readOk, id);
    case Read(i, incoming, w) => OnReadShare(p, i, incoming, w, id);
    case Shutdown =>
      AnswersTally(p.queue, id);
      TallyConcat(p.calls, Answers(p.queue), Answered(id));
      TallyEmpty(Queued(id));
  }

  lemma EmptyKey(p: Pool, op: Op, w: Writes)
    requires op.key == []
    ensures Submitted(p, op, w) == (p, -1)
  {}

  function Asked(run: seq<Event>, id: nat): nat {
    if |run| == 0 then 0 else Asked(run[..|run| - 1], id) + Asks(run[|run| - 1], id)
  }

  /** In every run each accepted get is at every moment queued once, in flight on
      one connection, or called back once. */
  lemma {:induction false} RunAnswersOnce(started: seq<bool>, run: seq<Event>, id: nat)
    requires Legal(started, run)
    ensures var p := Run(started, run);
            Tally(p.queue, Queued(id)) + Tally(p.conns, Flying(id)) + Tally(p.calls, Answered(id)) == Asked(run, id)
  {
    hide Step, Enabled, Tally, Valid;
    if |run| > 0 {
      var p := Run(started, run[..|run| - 1]);
      RunAnswersOnce(started, run[..|run| - 1], id);
      StepShare(p, run[|run| - 1], id);
    } else {
      InitShare(started, id);
    }
  }

  lemma InitShare(started: seq<bool>, id: nat)
    ensures Accounted(Init(started), id) == 0
  {
    TallyZero(Init(started).conns, Flying(id));
  }

  // ----------------------------------------------------------------- queue order

  /** The operations mc_process_queue takes from the queue, in order. */
  ghost function Launched(p: Pool, w: Writes): seq<Op>
    requires Valid(p)
    decreases |p.queue|
  {
    if p.queue == [] || p.available == 0 then []
    else
      DequeuedValid(p);
      SubmittedValid(Dequeued(p), p.queue[0], w);
      var t := Submitted(Dequeued(p), p.queue[0], w);
      [p.queue[0]] + if t.1 == 0 && t.0.queue != [] && t.0.available > 0 then Launched(t.0, w) else []
  }

  /** They are the front of the queue, and each of them got a connection: it took
      one credit and was not put back. */
  lemma {:induction false} LaunchedInOrder(p: Pool, w: Writes)
    requires Valid(p)
    ensures p.queue == Launched(p, w) + Processed(p, w).queue
    ensures Processed(p, w).available == p.available - |Launched(p, w)|
    decreases |p.queue|
  {
    hide Submitted, Valid;
    if p.queue != [] && p.available > 0 {
      var op := p.queue[0];
      QueueKeys(p);
      DequeuedValid(p);
      SubmittedValid(Dequeued(p), op, w);
      SubmittedTakes(Dequeued(p), op, w);
      var t := Submitted(Dequeued(p), op, w);
      assert p.queue == [op] + Dequeued(p).queue;
      if t.1 == 0 && t.0.queue != [] && t.0.available > 0 {
        LaunchedInOrder(t.0, w);
      }
    }
  }

  lemma SubmittedTakes(p: Pool, op: Op, w: Writes)
    requires Valid(p) && p.available > 0 && op.key != []
    ensures Submitted(p, op, w).0.available == p.available - 1 && Submitted(p, op, w).0.queue == p.queue
  {
    CreditFinds(p);
  }

  ghost function Left(p: Pool, ev: Event): seq<Op>
    requires Valid(p) && Enabled(p, ev)
  {
    if ev.Shutdown? then p.queue
    else if ev.Read? && Finishes(p, ev.conn, ev.incoming) then
      FreedValid(p, ev.conn);
      Launched(Freed(p, ev.conn), ev.w)
    else []
  }

  predicate Finishes(p: Pool, i: nat, incoming: Incoming)
    requires i < |p.conns|
  {
    p.conns[i].inUse && (p.conns[i].req.Getting? ==> GetOutcome(p.conns[i].req.buffer, incoming).Finished?)
  }

  function Entered(p: Pool, ev: Event): seq<Op> {
    if ev.Submit? && |Submitted(p, ev.op, ev.w).0.queue| > |p.queue| then [Copied(ev.op)] else []
  }

  lemma StepOrder(p: Pool, ev: Event)
    requires Valid(p) && Enabled(p, ev)
    ensures p.queue + Entered(p, ev) == Left(p, ev) + Step(p, ev).queue
  {
    hide Tally, Free, Processed, Launched, GetOutcome;
    if ev.Read? && Finishes(p, ev.conn, ev.incoming) {
      FreedValid(p, ev.conn);
      LaunchedInOrder(Freed(p, ev.conn), ev.w);
    }
  }

  ghost function AllLeft(started: seq<bool>, run: seq<Event>): seq<Op>
    requires Legal(started, run)
  {
    if |run| == 0 then []
    else AllLeft(started, run[..|run| - 1]) + Left(Run(started, run[..|run| - 1]), run[|run| - 1])
  }

  ghost function AllEntered(started: seq<bool>, run: seq<Event>): seq<Op>
    requires Legal(started, run)
  {
    if |run| == 0 then []
    else AllEntered(started, run[..|run| - 1]) + Entered(Run(started, run[..|run| - 1]), run[|run| - 1])
  }

  /** In every run operations leave the queue in the order they entered it. */
  lemma {:induction false} RunFifo(started: seq<bool>, run: seq<Event>)
    requires Legal(started, run)
    ensures AllEntered(started, run) == AllLeft(started, run) + Run(started, run).queue
  {
    hide Step, Enabled, Valid, Left, Entered;
    if |run| > 0 {
      var p, ev := Run(started, run[..|run| - 1]), run[|run| - 1];
      RunFifo(started, run[..|run| - 1]);
      StepOrder(p, ev);
      assert AllEntered(started, run) == AllLeft(started, run[..|run| - 1]) + (p.queue + Entered(p, ev));
    }
  }
}
