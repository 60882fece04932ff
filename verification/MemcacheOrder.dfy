/** When queued operations wait although there is a credit, and what a queued set
    writes, over all runs of the memcached client. */
module MemcacheOrder {
  import opened Tallies
  import opened Memcache
  import opened MemcacheRuns

  // ---------------------------------------------------------- credits and the queue

  /** No credit is left while an operation is queued. */
  predicate Drained(p: Pool) { p.queue != [] ==> p.available == 0 }

  /** A connection comes up while operations are queued: nothing starts them. */
  predicate Ignores(p: Pool, ev: Event) { ev.Connect? && ev.ok && p.queue != [] }

  lemma ProcessedDrained(p: Pool, w: Writes)
    requires Valid(p) && p.available <= 1
    ensures Drained(Processed(p, w))
  {
    hide Processed, Valid;
    LaunchedInOrder(p, w);
    if p.queue != [] && p.available == 1 {
      OneLaunched(p, w);
    }
  }

  lemma OneLaunched(p: Pool, w: Writes)
    requires Valid(p) && p.queue != [] && p.available == 1
    ensures Processed(p, w).available == 0
  {
    QueueKeys(p);
    DequeuedValid(p);
    SubmittedTakes(Dequeued(p), p.queue[0], w);
  }

  lemma ReleasedDrained(p: Pool, i: nat, w: Writes)
    requires Valid(p) && i < |p.conns| && Drained(p)
    ensures Drained(Released(p, i, w))
  {
    hide Processed;
    if p.conns[i].inUse {
      FreedValid(p, i);
      if p.queue == [] {
        ProcessedEmpty(Freed(p, i), w);
      } else {
        ProcessedDrained(Freed(p, i), w);
      }
    }
  }

  /** Every event keeps the queue drained, except exactly a connect callback that
      succeeds while operations are queued. */
  lemma StepDrained(p: Pool, ev: Event)
    requires Valid(p) && Enabled(p, ev) && Drained(p)
    ensures Drained(Step(p, ev)) <==> !Ignores(p, ev)
  {
    hide Released, Tally, Free, GetOutcome;
    match ev
    case Connect(i, ok) =>
    case Submit(op, w) => SubmittedValid(p, op, w);
    case Written(i, ok, readOk) =>
    case Read(i, incoming, w) => ReleasedDrained(p, i, w);
    case Shutdown =>
  }

  ghost predicate AlwaysDrained(started: seq<bool>, run: seq<Event>)
    requires Legal(started, run)
  {
    Drained(Run(started, run)) && (|run| > 0 ==> AlwaysDrained(started, run[..|run| - 1]))
  }

  ghost predicate NeverIgnores(started: seq<bool>, run: seq<Event>)
    requires Legal(started, run)
  {
    |run| > 0 ==> NeverIgnores(started, run[..|run| - 1]) && !Ignores(Run(started, run[..|run| - 1]), run[|run| - 1])
  }

  /** A run keeps the queue drained exactly if no connection comes up while operations
      are queued. */
  lemma {:induction false} DrainedIff(started: seq<bool>, run: seq<Event>)
    requires Legal(started, run)
    ensures AlwaysDrained(started, run) <==> NeverIgnores(started, run)
  {
    hide Step, Enabled, Valid, Ignores, Drained;
    if |run| > 0 {
      var p := Run(started, run[..|run| - 1]);
      DrainedIff(started, run[..|run| - 1]);
      if AlwaysDrained(started, run[..|run| - 1]) {
        StepDrained(p, run[|run| - 1]);
      }
    } else {
      InitDrained(started);
    }
  }

  lemma InitDrained(started: seq<bool>)
    ensures Drained(Init(started))
  {}

  /** A new operation is started before the queued ones. */
  predicate Overtakes(p: Pool, op: Op, w: Writes) {
    p.queue != [] && Submitted(p, op, w).0.queue == p.queue && Submitted(p, op, w).0.conns != p.conns
  }

  /** That happens to the next operation exactly if the queue is not drained. */
  lemma OvertakesIff(p: Pool, op: Op, w: Writes)
    requires Valid(p) && op.key != []
    ensures Overtakes(p, op, w) <==> !Drained(p)
  {
    hide Tally, Free;
    if p.available > 0 {
      CreditFinds(p);
      var i := Free(p.conns, 0);
      assert !p.conns[i].inUse && Started(p, op, i, w).0.conns[i].inUse;
    }
  }

  function GetOf(id: nat): Event { Submit(GetOp(id, [107]), (n: nat) => true) }

  /** One connection that comes up after the first get: the second get is started and
      the first stays queued. */
  lemma SecondOvertakes()
    ensures Legal([true], [GetOf(0), Connect(0, true), GetOf(1)])
    ensures var p := Run([true], [GetOf(0), Connect(0, true), GetOf(1)]);
            p.queue == [GetOf(0).op] && p.conns[0].req == Getting(1, [])
  {
    hide Tally;
    var started, run := [true], [GetOf(0), Connect(0, true), GetOf(1)];
    assert run[..2] == [GetOf(0), Connect(0, true)] && run[..2][..1] == [GetOf(0)] && run[..2][..1][..0] == [];
    var p := Run(started, run[..2][..1]);
    assert p == Submitted(Init(started), GetOf(0).op, GetOf(0).w).0;
    assert p.queue == [GetOf(0).op] && p.conns == [Conn(false, false, true, false, NoRequest, Idle)];
    var q := Run(started, run[..2]);
    assert q == OnConnect(p, 0, true);
    assert q.queue == p.queue && q.conns == [Conn(false, false, false, true, NoRequest, Idle)] && q.available == 1;
    assert Free(q.conns, 0) == 0;
    assert Run(started, run) == Started(q, GetOf(1).op, 0, GetOf(1).w).0;
  }

  // ----------------------------------------------------------- what a set writes

  /** The operations a run submits. */
  function Submissions(run: seq<Event>): seq<Op> {
    if |run| == 0 then []
    else Submissions(run[..|run| - 1]) + if run[|run| - 1].Submit? then [run[|run| - 1].op] else []
  }

  /** An operation is the copy of a submitted one. */
  ghost predicate Copy(op: Op, ops: seq<Op>) { exists k :: 0 <= k < |ops| && op == Copied(ops[k]) }

  /** A set has written the value of this operation, or the copy of it. */
  predicate WrittenFor(req: Request, op: Op) {
    req.Setting? && op.SetOp? && op.id == req.id && (req.sent == op.value || req.sent == Copied(op).value)
  }

  ghost predicate Carries(req: Request, ops: seq<Op>) {
    req.Setting? ==> exists k :: 0 <= k < |ops| && WrittenFor(req, ops[k])
  }

  /** Queued operations are copies, and what a set has written comes from its caller's
      value, directly or by way of the copy. */
  ghost predicate Faithful(p: Pool, ops: seq<Op>) {
    && (forall i :: 0 <= i < |p.queue| ==> Copy(p.queue[i], ops))
    && (forall i :: 0 <= i < |p.conns| ==> Carries(p.conns[i].req, ops))
  }

  lemma MoreOps(p: Pool, ops: seq<Op>, op: Op)
    requires Faithful(p, ops)
    ensures Faithful(p, ops + [op])
  {
    var all := ops + [op];
    forall i | 0 <= i < |p.queue| ensures Copy(p.queue[i], all) {
      var k :| 0 <= k < |ops| && p.queue[i] == Copied(ops[k]);
      assert all[k] == ops[k];
    }
    forall i | 0 <= i < |p.conns| ensures Carries(p.conns[i].req, all) {
      var req := p.conns[i].req;
      if req.Setting? {
        var k :| 0 <= k < |ops| && WrittenFor(req, ops[k]);
        assert all[k] == ops[k];
      }
    }
  }

  lemma SubmittedFaithful(p: Pool, op: Op, w: Writes, ops: seq<Op>, k: nat)
    requires Faithful(p, ops) && k < |ops| && (op == ops[k] || (op == Copied(ops[k]) && Valid(p) && p.available > 0))
    ensures Faithful(Submitted(p, op, w).0, ops)
  {
    hide Tally, Free, Block, CellsOf;
    if Valid(p) && p.available > 0 { CreditFinds(p); }
    var q := Submitted(p, op, w).0;
    forall i | 0 <= i < |q.conns| ensures Carries(q.conns[i].req, ops) {
      assert Carries(p.conns[i].req, ops);
    }
  }

  lemma {:induction false} ProcessedFaithful(p: Pool, w: Writes, ops: seq<Op>)
    requires Valid(p) && Faithful(p, ops)
    ensures Faithful(Processed(p, w), ops)
    decreases |p.queue|
  {
    hide Submitted, Valid, Copied, Carries;
    if p.queue != [] && p.available > 0 {
      DequeuedValid(p);
      SubmittedValid(Dequeued(p), p.queue[0], w);
      assert Copy(p.queue[0], ops);
      var k :| 0 <= k < |ops| && p.queue[0] == Copied(ops[k]);
      SubmittedFaithful(Dequeued(p), p.queue[0], w, ops, k);
      var t := Submitted(Dequeued(p), p.queue[0], w);
      if t.1 == 0 && t.0.queue != [] && t.0.available > 0 {
        ProcessedFaithful(t.0, w, ops);
      }
    }
  }

  lemma ReleasedFaithful(p: Pool, i: nat, w: Writes, ops: seq<Op>)
    requires Valid(p) && i < |p.conns| && Faithful(p, ops)
    ensures Faithful(Released(p, i, w), ops)
  {
    hide Processed, Valid;
    FreedValid(p, i);
    if p.conns[i].inUse {
      ProcessedFaithful(Freed(p, i), w, ops);
    }
  }

  lemma StepFaithful(p: Pool, ev: Event, ops: seq<Op>)
    requires Valid(p) && Enabled(p, ev) && Faithful(p, ops)
    ensures Faithful(Step(p, ev), if ev.Submit? then ops + [ev.op] else ops)
  {
    hide Released, Submitted, Valid, GetOutcome, Copy;
    match ev
    case Connect(i, ok) =>
    case Submit(op, w) =>
      MoreOps(p, ops, op);
      SubmittedFaithful(p, op, w, ops + [op], |ops|);
    case Written(i, ok, readOk) =>
    case Read(i, incoming, w) => ReleasedFaithful(p, i, w, ops);
    case Shutdown =>
  }

  /** In every run, each set on a connection has written its caller's value or the
      copy of it, so by CopyExact the caller's value unless it was queued with a zero
      byte before its last byte. */
  lemma {:induction false} RunWrites(started: seq<bool>, run: seq<Event>)
    requires Legal(started, run)
    ensures Faithful(Run(started, run), Submissions(run))
  {
    hide Step, Enabled, Valid;
    if |run| > 0 {
      var p, ev := Run(started, run[..|run| - 1]), run[|run| - 1];
      RunWrites(started, run[..|run| - 1]);
      StepFaithful(p, ev, Submissions(run[..|run| - 1]));
      assert Submissions(run[..|run| - 1]) + [] == Submissions(run[..|run| - 1]);
    }
  }
}
