/** Which connections carry requests: mc_get_connection takes the first idle one and
    does not ask whether it is connected. */
module MemcacheLinks {
  import opened Tallies
  import opened Memcache
  import opened MemcacheRuns
  import opened Wrappers

  /** Every connection in use has been connected. */
  ghost predicate UsedUp(p: Pool) { forall i :: 0 <= i < |p.conns| && p.conns[i].inUse ==> p.conns[i].up }

  /** The connected connections are the first ones. */
  ghost predicate FirstUp(p: Pool) { forall i :: 0 <= i < |p.conns| ==> (p.conns[i].up <==> i < p.connected) }

  /** Nothing is up before its callback. */
  ghost predicate Fresh(p: Pool) { forall i :: 0 <= i < |p.conns| && p.conns[i].connecting ==> !p.conns[i].up }

  ghost predicate Kept(p: Pool) { Fresh(p) && UsedUp(p) && FirstUp(p) }

  /** The same connections are up and waiting for their callback. */
  ghost predicate SameLinks(p: Pool, q: Pool) {
    && |q.conns| == |p.conns| && q.connected == p.connected
    && forall i :: 0 <= i < |p.conns| ==> q.conns[i].up == p.conns[i].up && q.conns[i].connecting == p.conns[i].connecting
  }

  // ----------------------------------------------------------- starting requests

  lemma {:induction false} TallyFirst(conns: seq<Conn>, i: nat)
    requires i <= |conns| && forall j :: 0 <= j < i ==> conns[j].inUse
    ensures Tally(conns, Busy()) >= i
  {
    if i > 0 {
      var n := |conns| - 1;
      if i == |conns| {
        TallyFirst(conns[..n], i - 1);
      } else {
        TallyFirst(conns[..n], i);
      }
    }
  }

  /** With a credit, the first idle connection is one of the connected ones. */
  lemma FreeIsUp(p: Pool)
    requires Valid(p) && FirstUp(p) && p.available > 0
    ensures Free(p.conns, 0) < |p.conns| && p.conns[Free(p.conns, 0)].up
  {
    CreditFinds(p);
    TallyFirst(p.conns, Free(p.conns, 0));
  }

  lemma SubmittedLinks(p: Pool, op: Op, w: Writes)
    requires Valid(p)
    ensures SameLinks(p, Submitted(p, op, w).0)
    ensures Kept(p) ==> Kept(Submitted(p, op, w).0)
  {
    hide Tally, Free;
    if p.available > 0 {
      CreditFinds(p);
      if Kept(p) { FreeIsUp(p); }
    }
  }

  lemma {:induction false} ProcessedLinks(p: Pool, w: Writes)
    requires Valid(p)
    ensures SameLinks(p, Processed(p, w)) && (Kept(p) ==> Kept(Processed(p, w)))
    decreases |p.queue|
  {
    hide Submitted, Valid;
    if p.queue != [] && p.available > 0 {
      DequeuedValid(p);
      SubmittedValid(Dequeued(p), p.queue[0], w);
      SubmittedLinks(Dequeued(p), p.queue[0], w);
      var t := Submitted(Dequeued(p), p.queue[0], w);
      if t.1 == 0 && t.0.queue != [] && t.0.available > 0 {
        ProcessedLinks(t.0, w);
      }
    }
  }

  lemma ReleasedLinks(p: Pool, i: nat, w: Writes)
    requires Valid(p) && i < |p.conns|
    ensures SameLinks(p, Released(p, i, w)) && (Kept(p) ==> Kept(Released(p, i, w)))
  {
    hide Processed, Valid;
    FreedValid(p, i);
    if p.conns[i].inUse {
      ProcessedLinks(Freed(p, i), w);
    }
  }

  /** Whatever happens except a connect callback keeps the links and their order. */
  lemma StepLinks(p: Pool, ev: Event)
    requires Valid(p) && Enabled(p, ev) && !ev.Connect?
    ensures SameLinks(p, Step(p, ev)) && (Kept(p) ==> Kept(Step(p, ev)))
  {
    hide Released, Submitted, GetOutcome, Valid;
    match ev
    case Submit(op, w) => SubmittedLinks(p, op, w);
    case Written(i, ok, readOk) =>
    case Read(i, incoming, w) => ReleasedLinks(p, i, w);
    case Shutdown =>
  }

  // --------------------------------------------------------------- whole runs

  predicate Success(ev: Event) { ev.Connect? && ev.ok }

  function Successes(run: seq<Event>): nat { Tally(run, (ev: Event) => One(Success(ev))) }

  /** Connections connect in the order of their indices, none left out. */
  ghost predicate InOrder(run: seq<Event>) {
    if |run| == 0 then true
    else InOrder(run[..|run| - 1]) && (Success(run[|run| - 1]) ==> run[|run| - 1].conn == Successes(run[..|run| - 1]))
  }

  /** In every run, connected counts the successful connect callbacks. */
  lemma {:induction false} ConnectedCounts(started: seq<bool>, run: seq<Event>)
    requires Legal(started, run)
    ensures Run(started, run).connected == Successes(run)
    ensures Fresh(Run(started, run))
  {
    hide Valid;
    if |run| > 0 {
      var p, ev := Run(started, run[..|run| - 1]), run[|run| - 1];
      ConnectedCounts(started, run[..|run| - 1]);
      if !ev.Connect? {
        StepLinks(p, ev);
      }
    }
  }

  /** In every run whose connections connect in order, every request is on a
      connected connection. */
  lemma {:induction false} RequestsAreConnected(started: seq<bool>, run: seq<Event>)
    requires Legal(started, run) && InOrder(run)
    ensures UsedUp(Run(started, run)) && FirstUp(Run(started, run))
  {
    hide Valid;
    if |run| > 0 {
      var p, ev := Run(started, run[..|run| - 1]), run[|run| - 1];
      RequestsAreConnected(started, run[..|run| - 1]);
      ConnectedCounts(started, run[..|run| - 1]);
      if ev.Connect? {
        ConnectKept(p, ev.conn, ev.ok);
      } else {
        StepLinks(p, ev);
      }
    }
  }

  lemma ConnectKept(p: Pool, i: nat, ok: bool)
    requires Kept(p) && i < |p.conns| && p.conns[i].connecting && (ok ==> i == p.connected)
    requires p.conns[i].inUse ==> p.conns[i].up
    ensures UsedUp(OnConnect(p, i, ok)) && FirstUp(OnConnect(p, i, ok))
  {}

  // ------------------------------------------------------------ out of order

  /** One connection beyond the gap at i is idle and connected. */
  ghost predicate Gap(p: Pool, i: nat) {
    && i < |p.conns| && p.connected == i + 1 && !p.conns[i].up
    && forall k :: i <= k < |p.conns| ==> !p.conns[k].inUse
  }

  function Get(): Event { Submit(GetOp(0, [107]), (n: nat) => true) }

  lemma {:induction false} TallyRest(conns: seq<Conn>, i: nat)
    requires i <= |conns| && forall k :: i <= k < |conns| ==> !conns[k].inUse
    ensures Tally(conns, Busy()) <= i
  {
    if i < |conns| {
      TallyRest(conns[..|conns| - 1], i);
    } else {
      TallyBound(conns, Busy());
    }
  }

  /** Submitted gets fill the connections up to the gap, and the next one is put on
      the connection that is not connected. */
  lemma {:induction false} FillGap(started: seq<bool>, run: seq<Event>, i: nat) returns (more: seq<Event>)
    requires Legal(started, run) && Gap(Run(started, run), i)
    ensures Legal(started, run + more) && !UsedUp(Run(started, run + more)) && forall k :: 0 <= k < |more| ==> more[k] == Get()
    decreases i + 1 - Tally(Run(started, run).conns, Busy())
  {
    hide Tally, Free;
    var p, ev := Run(started, run), Get();
    TallyRest(p.conns, i);
    var f := Free(p.conns, 0);
    assert (run + [ev])[..|run|] == run;
    TallyUpdate(p.conns, f, Step(p, ev).conns[f], Busy());
    assert Run(started, run + [ev]) == Step(p, ev);
    if f == i {
      more := [ev];
      assert Step(p, ev).conns[i].inUse;
    } else {
      var rest := FillGap(started, run + [ev], i);
      more := [ev] + rest;
      assert run + more == run + [ev] + rest;
    }
  }

  /** The first connection that connects out of order makes a run that puts a request
      on a connection that is not connected. */
  lemma OutOfOrder(started: seq<bool>, run: seq<Event>, j: nat) returns (more: seq<Event>)
    requires Legal(started, run + [Connect(j, true)]) && InOrder(run) && j != Successes(run)
    ensures var all := run + [Connect(j, true)] + more; Legal(started, all) && !UsedUp(Run(started, all))
    ensures forall k :: 0 <= k < |more| ==> more[k] == Get()
  {
    hide Valid;
    var ev := Connect(j, true);
    var long := run + [ev];
    assert long[..|run|] == run;
    var p := Run(started, run);
    RequestsAreConnected(started, run);
    ConnectedCounts(started, run);
    assert Run(started, long) == Step(p, ev);
    more := FillGap(started, long, p.connected);
  }

  /** Two connections, and the second connects first. */
  lemma SecondFirst()
    ensures Legal([true, true], [Connect(1, true), Get()])
    ensures var p := Run([true, true], [Connect(1, true), Get()]); p.conns[0].inUse && p.conns[0].req.Getting? && !p.conns[0].up
  {
    hide Tally;
    var started, run := [true, true], [Connect(1, true), Get()];
    assert run[..1] == [Connect(1, true)] && run[..1][..0] == [];
    var p := Run(started, run[..1]);
    assert p == OnConnect(Init(started), 1, true);
    assert |p.conns| == 2 && p.conns[0] == Conn(false, false, true, false, NoRequest, Idle) && p.available == 1;
    assert Free(p.conns, 0) == 0;
    assert Run(started, run) == Started(p, Get().op, 0, Get().w).0;
  }
}
