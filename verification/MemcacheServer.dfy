/** The memcached client together with a server that answers each request in order:
    whose reply a get is called back with. */
module MemcacheServer {
  import opened MemcacheReply
  import opened Memcache
  import opened MemcacheRuns

  /** What a server answers to a get. */
  datatype Reply = Absent | Found(key: Bytes, flags: Bytes, size: Bytes, value: Bytes)

  function Text(r: Reply): Bytes { if r.Found? then HitReply(r.key, r.flags, r.size, r.value) else MissReply() }

  function Meaning(r: Reply): Delivered { if r.Found? then Value(r.value) else Nothing }

  /** The replies to gets and the bytes of the replies to sets, by request. */
  datatype Server = Server(gets: nat -> Reply, sets: nat -> Bytes)

  ghost predicate WellFormed(r: Reply) {
    r.Found? ==> Fields(r.key, r.flags, r.size, |r.value|) && |Text(r)| < LENGTH
  }

  ghost predicate Proper(server: Server) { forall id: nat :: WellFormed(server.gets(id)) }

  function ReplyTo(server: Server, req: Request): Bytes {
    match req
    case NoRequest => []
    case Getting(id, _) => Text(server.gets(id))
    case Setting(id, _) => server.sets(id)
  }

  // ------------------------------------------------------------- the joint system

  /** The bytes the server has sent on a connection, or will send for the requests
      written to it, that have not been read.  A read that fails or ends the connection
      closes it: nothing comes after it. */
  datatype Wire = Wire(bytes: Bytes, open: bool)

  datatype System = System(pool: Pool, wires: seq<Wire>)

  /** A request was put on the connection. */
  predicate Begins(c: Conn, d: Conn) { c.phase != Writing && d.phase == Writing }

  /** A read fails, ends the connection, or delivers the next bytes. */
  predicate Delivers(s: System, ev: Event) {
    && Enabled(s.pool, ev) && |s.wires| == |s.pool.conns|
    && (ev.Read? && ev.incoming.Data? ==> ev.incoming.bytes <= s.wires[ev.conn].bytes)
  }

  function Unread(s: System, ev: Event, k: nat): Wire
    requires Delivers(s, ev) && k < |s.wires|
  {
    if !(ev.Read? && ev.conn == k) then s.wires[k]
    else if ev.incoming.Data? then s.wires[k].(bytes := s.wires[k].bytes[|ev.incoming.bytes|..])
    else Wire([], false)
  }

  function Fed(w: Wire, more: Bytes): Wire { if w.open then w.(bytes := w.bytes + more) else w }

  ghost function Next(s: System, ev: Event, server: Server): (t: System)
    requires Valid(s.pool) && Delivers(s, ev)
    ensures |t.wires| == |t.pool.conns| == |s.wires|
  {
    var q := Step(s.pool, ev);
    SameCount(s.pool, ev);
    System(q, seq(|s.wires|, k requires 0 <= k < |s.wires| =>
      Fed(Unread(s, ev, k), if Begins(s.pool.conns[k], q.conns[k]) then ReplyTo(server, q.conns[k].req) else [])))
  }

  /** What an open connection still has to read is the rest of the reply to its
      request; a get on a closed one has read nothing. */
  ghost predicate Awaits(c: Conn, wire: Wire, server: Server) {
    match c.phase
    case Stuck => true
    case Idle => wire.bytes == []
    case Writing =>
      && c.req != NoRequest && (c.req.Getting? ==> c.req.buffer == [])
      && wire.bytes == if wire.open then ReplyTo(server, c.req) else []
    case Reading =>
      if !wire.open then wire.bytes == [] && c.req != NoRequest && (c.req.Getting? ==> c.req.buffer == [])
      else if c.req.Getting? then c.req.buffer + wire.bytes == ReplyTo(server, c.req) && wire.bytes != []
      else wire.bytes == ReplyTo(server, c.req) && c.req != NoRequest
  }

  /** A callback got no value, or the one the server answered to its own get. */
  predicate Own(c: Call, server: Server) { c.value == Nothing || c.value == Meaning(server.gets(c.id)) }

  ghost predicate Matched(s: System, server: Server) {
    && |s.wires| == |s.pool.conns|
    && (forall k :: 0 <= k < |s.wires| ==> Awaits(s.pool.conns[k], s.wires[k], server))
    && (forall k :: 0 <= k < |s.pool.calls| ==> Own(s.pool.calls[k], server))
  }

  /** A read takes a part of a set's reply, and the connection is used again. */
  ghost predicate Cuts(s: System, ev: Event)
    requires Valid(s.pool) && Delivers(s, ev)
  {
    SameCount(s.pool, ev);
    && ev.Read? && ev.incoming.Data? && !s.pool.conns[ev.conn].req.Getting?
    && ev.incoming.bytes != s.wires[ev.conn].bytes && Step(s.pool, ev).conns[ev.conn].phase != Stuck
  }

  // ------------------------------------------------------- starting requests

  /** A connection is left alone, or it was idle and got a request. */
  predicate Starts(c: Conn, d: Conn) {
    d == c || (c.phase == Idle && (d.phase == Stuck || (d.phase == Writing && d.req != NoRequest && (d.req.Getting? ==> d.req.buffer == []))))
  }

  ghost predicate AllStart(p: Pool, q: Pool, server: Server) {
    && |q.conns| == |p.conns| && (forall k :: 0 <= k < |p.conns| ==> Starts(p.conns[k], q.conns[k]))
    && ((forall k :: 0 <= k < |p.calls| ==> Own(p.calls[k], server)) ==> forall k :: 0 <= k < |q.calls| ==> Own(q.calls[k], server))
  }

  lemma SubmittedStarts(p: Pool, op: Op, w: Writes, server: Server)
    requires Valid(p)
    ensures AllStart(p, Submitted(p, op, w).0, server)
  {
    hide Free;
  }

  lemma {:induction false} ProcessedStarts(p: Pool, w: Writes, server: Server)
    requires Valid(p)
    ensures AllStart(p, Processed(p, w), server)
    decreases |p.queue|
  {
    hide Submitted, Valid, Own;
    if p.queue != [] && p.available > 0 {
      DequeuedValid(p);
      SubmittedValid(Dequeued(p), p.queue[0], w);
      SubmittedStarts(Dequeued(p), p.queue[0], w, server);
      var t := Submitted(Dequeued(p), p.queue[0], w);
      if t.1 == 0 && t.0.queue != [] && t.0.available > 0 {
        ProcessedStarts(t.0, w, server);
      }
    }
  }

  lemma ReleasedStarts(p: Pool, i: nat, w: Writes, server: Server)
    requires Valid(p) && i < |p.conns| && p.conns[i].inUse
    ensures AllStart(Freed(p, i), Released(p, i, w), server)
  {
    FreedValid(p, i);
    ProcessedStarts(Freed(p, i), w, server);
  }

  lemma SameCount(p: Pool, ev: Event)
    requires Valid(p) && Enabled(p, ev)
    ensures |Step(p, ev).conns| == |p.conns|
  {
    hide Valid, Released, Submitted, GetOutcome;
    var server := Server((n: nat) => Absent, (n: nat) => []);
    match ev
    case Connect(i, ok) =>
    case Submit(op, w) => SubmittedStarts(p, op, w, server);
    case Written(i, ok, readOk) =>
    case Read(i, incoming, w) => SameReleased(p, i, w, server);
    case Shutdown =>
  }

  lemma SameReleased(p: Pool, i: nat, w: Writes, server: Server)
    requires Valid(p) && i < |p.conns|
    ensures |Released(p, i, w).conns| == |p.conns|
  {
    if p.conns[i].inUse { ReleasedStarts(p, i, w, server); }
  }

  // ----------------------------------------------------------------- one event

  /** The part of a reply read so far decides nothing, and the whole reply decides
      for its value. */
  lemma ReplyDecides(r: Reply, buffer: Bytes, bytes: Bytes, rest: Bytes)
    requires WellFormed(r) && buffer + bytes + rest == Text(r)
    ensures GetOutcome(buffer, Data(bytes)) == if rest == [] then Finished(Meaning(r)) else Unfinished(buffer + bytes)
  {
    hide Parse, HitReply, MissReply;
    var m := |buffer + bytes|;
    assert Text(r)[..m] == buffer + bytes;
    if r.Found? {
      HitPrefix(r.key, r.flags, r.size, r.value, m);
    } else {
      MissPrefix(m);
    }
  }

  lemma StartAwaits(c: Conn, d: Conn, wire: Wire, server: Server)
    requires Awaits(c, wire, server) && Starts(c, d)
    ensures Awaits(d, Fed(wire, if Begins(c, d) then ReplyTo(server, d.req) else []), server)
  {
    hide ReplyTo;
    assert wire.bytes + [] == wire.bytes;
    if c.phase == Idle && d.phase == Writing {
      assert [] + ReplyTo(server, d.req) == ReplyTo(server, d.req);
    }
  }

  lemma {:induction false} AnswersNothing(queue: seq<Op>)
    ensures forall k :: 0 <= k < |Answers(queue)| ==> Answers(queue)[k].value == Nothing
  {
    if queue != [] { AnswersNothing(queue[1..]); }
  }

  lemma NextSubmit(s: System, op: Op, w: Writes, server: Server)
    requires Valid(s.pool) && Delivers(s, Submit(op, w)) && Matched(s, server)
    ensures Matched(Next(s, Submit(op, w), server), server)
  {
    hide Valid, Submitted, Awaits, Own, Starts, Begins, ReplyTo, Enabled;
    var t, ev := Next(s, Submit(op, w), server), Submit(op, w);
    SubmittedStarts(s.pool, op, w, server);
    forall k | 0 <= k < |t.wires| ensures Awaits(t.pool.conns[k], t.wires[k], server) {
      StartAwaits(s.pool.conns[k], t.pool.conns[k], s.wires[k], server);
    }
  }

  lemma NextWritten(s: System, ev: Event, server: Server)
    requires Valid(s.pool) && Delivers(s, ev) && Matched(s, server) && ev.Written?
    ensures Matched(Next(s, ev, server), server)
  {
    hide Valid, HitReply, Own;
    var t := Next(s, ev, server);
    forall k | 0 <= k < |t.wires| ensures Awaits(t.pool.conns[k], t.wires[k], server) {
      assert s.wires[k].bytes + [] == s.wires[k].bytes;
      assert t.wires[k] == s.wires[k];
      if k == ev.conn && s.pool.conns[k].req.Getting? {
        TextNotEmpty(server.gets(s.pool.conns[k].req.id));
        assert [] + s.wires[k].bytes == s.wires[k].bytes;
      }
    }
    assert Own(Call(s.pool.conns[ev.conn].req.id, Nothing), server) by { OwnNothing(s.pool.conns[ev.conn].req.id, server); }
  }

  lemma OwnNothing(id: nat, server: Server)
    ensures Own(Call(id, Nothing), server)
  {}

  lemma TextNotEmpty(r: Reply)
    ensures Text(r) != []
  {}

  /** A read that leaves a get unfinished. */
  lemma NextMore(s: System, ev: Event, server: Server)
    requires Valid(s.pool) && Delivers(s, ev) && Matched(s, server) && Proper(server) && ev.Read? && ev.incoming.Data?
    requires s.pool.conns[ev.conn].req.Getting? && (s.wires[ev.conn].open ==> ev.incoming.bytes != s.wires[ev.conn].bytes)
    ensures Matched(Next(s, ev, server), server)
  {
    hide Valid, Text, GetOutcome, Own, Released;
    var t, i, c := Next(s, ev, server), ev.conn, s.pool.conns[ev.conn];
    var bytes, rest := ev.incoming.bytes, s.wires[i].bytes[|ev.incoming.bytes|..];
    assert s.wires[i].bytes == bytes + rest;
    if s.wires[i].open {
      assert c.req.buffer + bytes + rest == c.req.buffer + s.wires[i].bytes;
      ReplyDecides(server.gets(c.req.id), c.req.buffer, bytes, rest);
    } else {
      NothingRead(c.req.buffer, bytes);
    }
    forall k | 0 <= k < |t.wires| ensures Awaits(t.pool.conns[k], t.wires[k], server) {
      assert Unread(s, ev, k).bytes + [] == Unread(s, ev, k).bytes;
      assert t.wires[k] == Unread(s, ev, k);
    }
  }

  lemma NothingRead(buffer: Bytes, bytes: Bytes)
    requires buffer == [] && bytes == []
    ensures GetOutcome(buffer, Data(bytes)) == Unfinished([])
  {}

  /** The read releases the connection: it fails, it takes any part of a set's reply, or
      the last bytes of a get's. */
  predicate Ends(s: System, ev: Event)
    requires Delivers(s, ev) && ev.Read?
  {
    ev.incoming.Data? && s.pool.conns[ev.conn].req.Getting? ==> s.wires[ev.conn].open && ev.incoming.bytes == s.wires[ev.conn].bytes
  }

  /** Then a get is called back with the value of its own reply, or with none. */
  lemma EndReleases(s: System, ev: Event, server: Server)
    requires Valid(s.pool) && Delivers(s, ev) && Matched(s, server) && Proper(server) && ev.Read? && Ends(s, ev)
    ensures var c, q := s.pool.conns[ev.conn], Released(s.pool, ev.conn, ev.w);
            Step(s.pool, ev) == q.(calls := q.calls + if !c.req.Getting? then [] else
              [Call(c.req.id, if ev.incoming.Data? then Meaning(server.gets(c.req.id)) else Nothing)])
  {
    hide Text, Parse, Released, Meaning;
    var c, q := s.pool.conns[ev.conn], Released(s.pool, ev.conn, ev.w);
    if c.req.Getting? && ev.incoming.Data? {
      assert c.req.buffer + ev.incoming.bytes + [] == c.req.buffer + s.wires[ev.conn].bytes;
      ReplyDecides(server.gets(c.req.id), c.req.buffer, ev.incoming.bytes, []);
    }
    assert q.calls + [] == q.calls;
  }

  lemma EndOwn(s: System, ev: Event, server: Server)
    requires Valid(s.pool) && Delivers(s, ev) && Matched(s, server) && Proper(server) && ev.Read? && Ends(s, ev)
    ensures forall k :: 0 <= k < |Step(s.pool, ev).calls| ==> Own(Step(s.pool, ev).calls[k], server)
  {
    hide Released, Step, Starts, Ends, Awaits;
    EndReleases(s, ev, server);
    ReleasedStarts(s.pool, ev.conn, ev.w, server);
  }

  /** Every connection but this one stays matched, and this one exactly if it has
      nothing left to read or is stuck. */
  lemma EndAwaits(s: System, ev: Event, server: Server)
    requires Valid(s.pool) && Delivers(s, ev) && Matched(s, server) && ev.Read?
    requires Step(s.pool, ev).conns == Released(s.pool, ev.conn, ev.w).conns
    ensures var t := Next(s, ev, server); forall k :: 0 <= k < |t.wires| && k != ev.conn ==> Awaits(t.pool.conns[k], t.wires[k], server)
    ensures var t, i := Next(s, ev, server), ev.conn;
            Awaits(t.pool.conns[i], t.wires[i], server) <==> Unread(s, ev, i).bytes == [] || t.pool.conns[i].phase == Stuck
  {
    hide Step, Released, ReplyTo;
    var t, i := Next(s, ev, server), ev.conn;
    ReleasedStarts(s.pool, i, ev.w, server);
    forall k | 0 <= k < |t.wires| && k != i ensures Awaits(t.pool.conns[k], t.wires[k], server) {
      assert Awaits(s.pool.conns[k], s.wires[k], server);
      StartAwaits(s.pool.conns[k], t.pool.conns[k], s.wires[k], server);
    }
    RestAwaits(Freed(s.pool, i).conns[i], t.pool.conns[i], Unread(s, ev, i), server);
  }

  /** A freed connection with bytes left to read does not wait for its own reply. */
  lemma RestAwaits(c: Conn, d: Conn, wire: Wire, server: Server)
    requires c.phase == Idle && Starts(c, d) && (!wire.open ==> wire.bytes == [])
    ensures Awaits(d, Fed(wire, if Begins(c, d) then ReplyTo(server, d.req) else []), server) <==> wire.bytes == [] || d.phase == Stuck
  {
    hide ReplyTo;
    if wire.bytes == [] {
      StartAwaits(c, d, wire, server);
    }
  }

  lemma EndMatched(s: System, ev: Event, server: Server)
    requires Valid(s.pool) && Delivers(s, ev) && Matched(s, server) && Proper(server) && ev.Read? && Ends(s, ev)
    ensures Matched(Next(s, ev, server), server) <==> !Cuts(s, ev)
  {
    hide Released, Step, Awaits, Own, Valid;
    EndReleases(s, ev, server);
    EndOwn(s, ev, server);
    EndAwaits(s, ev, server);
  }

  /** Every event keeps requests and replies matched, except exactly a read of a part of
      a set's reply after which the connection is not stuck. */
  lemma NextMatched(s: System, ev: Event, server: Server)
    requires Valid(s.pool) && Delivers(s, ev) && Matched(s, server) && Proper(server)
    ensures Matched(Next(s, ev, server), server) <==> !Cuts(s, ev)
  {
    hide Matched, Next, Step, Valid, Proper;
    match ev
    case Submit(op, w) => NextSubmit(s, op, w, server);
    case Written(i, ok, readOk) => NextWritten(s, ev, server);
    case Read(i, incoming, w) =>
      if Ends(s, ev) { EndMatched(s, ev, server); } else { NextMore(s, ev, server); }
    case Connect(i, ok) => NextQuiet(s, ev, server);
    case Shutdown => NextQuiet(s, ev, server);
  }

  lemma NextQuiet(s: System, ev: Event, server: Server)
    requires Valid(s.pool) && Delivers(s, ev) && Matched(s, server) && (ev.Connect? || ev.Shutdown?)
    ensures Matched(Next(s, ev, server), server)
  {
    hide Valid, ReplyTo;
    AnswersNothing(s.pool.queue);
    var t := Next(s, ev, server);
    forall k | 0 <= k < |t.wires| ensures Awaits(t.pool.conns[k], t.wires[k], server) {
      assert s.wires[k].bytes + [] == s.wires[k].bytes;
      assert t.wires[k] == s.wires[k];
      assert Awaits(s.pool.conns[k], s.wires[k], server);
    }
  }

  // ---------------------------------------------------------------- whole runs

  ghost predicate Serves(started: seq<bool>, run: seq<Event>, server: Server)
    decreases |run|, 0
  {
    |run| == 0 || (Serves(started, run[..|run| - 1], server) && Delivers(After(started, run[..|run| - 1], server), run[|run| - 1]))
  }

  ghost function After(started: seq<bool>, run: seq<Event>, server: Server): (s: System)
    requires Serves(started, run, server)
    ensures Valid(s.pool)
    decreases |run|, 1
  {
    if |run| == 0 then
      InitValid(started);
      System(Init(started), seq(|started|, i => Wire([], true)))
    else
      var s := After(started, run[..|run| - 1], server);
      StepValid(s.pool, run[|run| - 1]);
      Next(s, run[|run| - 1], server)
  }

  /** It is a run of the client. */
  lemma {:induction false} ServesLegal(started: seq<bool>, run: seq<Event>, server: Server)
    requires Serves(started, run, server)
    ensures Legal(started, run) && Run(started, run) == After(started, run, server).pool
  {
    hide Step, Enabled, Valid;
    if |run| > 0 {
      ServesLegal(started, run[..|run| - 1], server);
    }
  }

  /** Requests and replies are matched in every state of the run. */
  ghost predicate AlwaysMatched(started: seq<bool>, run: seq<Event>, server: Server)
    requires Serves(started, run, server)
  {
    Matched(After(started, run, server), server) && (|run| > 0 ==> AlwaysMatched(started, run[..|run| - 1], server))
  }

  ghost predicate NeverCuts(started: seq<bool>, run: seq<Event>, server: Server)
    requires Serves(started, run, server)
  {
    |run| > 0 ==> NeverCuts(started, run[..|run| - 1], server) && !Cuts(After(started, run[..|run| - 1], server), run[|run| - 1])
  }

  /** In every run with a server that answers in order and in any pieces, failing reads
      included, requests and replies are always matched if and only if no connection is
      used again after a part of a set's reply was read. */
  lemma {:induction false} MatchedIff(started: seq<bool>, run: seq<Event>, server: Server)
    requires Serves(started, run, server) && Proper(server)
    ensures AlwaysMatched(started, run, server) <==> NeverCuts(started, run, server)
  {
    hide Next, Valid, Delivers, Proper, Cuts, Matched;
    if |run| > 0 {
      var s := After(started, run[..|run| - 1], server);
      MatchedIff(started, run[..|run| - 1], server);
      if Matched(s, server) {
        NextMatched(s, run[|run| - 1], server);
      }
    } else {
      InitMatched(started, server);
    }
  }

  lemma InitMatched(started: seq<bool>, server: Server)
    ensures Matched(System(Init(started), seq(|started|, i => Wire([], true))), server)
  {}

  /** Every queued write would be accepted. */
  ghost predicate Accepting(p: Pool, w: Writes) { forall k :: 0 <= k < |p.queue| ==> w(p.queue[k].id) }

  lemma {:induction false} ProcessedAccepts(p: Pool, w: Writes, i: nat)
    requires Valid(p) && Accepting(p, w) && i < |p.conns| && p.conns[i].phase != Stuck
    ensures i < |Processed(p, w).conns| && Processed(p, w).conns[i].phase != Stuck
    decreases |p.queue|
  {
    hide Valid, Submitted;
    if p.queue != [] && p.available > 0 {
      DequeuedValid(p);
      SubmittedValid(Dequeued(p), p.queue[0], w);
      SubmittedAccepts(Dequeued(p), p.queue[0], w, i);
      var t := Submitted(Dequeued(p), p.queue[0], w);
      if t.1 == 0 && t.0.queue != [] && t.0.available > 0 {
        ProcessedAccepts(t.0, w, i);
      }
    }
  }

  lemma SubmittedAccepts(p: Pool, op: Op, w: Writes, i: nat)
    requires Valid(p) && p.available > 0 && w(op.id) && i < |p.conns| && p.conns[i].phase != Stuck
    ensures var q := Submitted(p, op, w).0; q.queue == p.queue && i < |q.conns| && q.conns[i].phase != Stuck
  {
    hide Free;
    CreditFinds(p);
  }

  /** So reading a part of a set's reply breaks the matching unless the write of a queued
      operation is refused. */
  lemma PartCuts(s: System, ev: Event)
    requires Valid(s.pool) && Delivers(s, ev) && ev.Read? && ev.incoming.Data? && !s.pool.conns[ev.conn].req.Getting?
    requires ev.incoming.bytes != s.wires[ev.conn].bytes && Accepting(s.pool, ev.w)
    ensures Cuts(s, ev)
  {
    hide Processed;
    FreedValid(s.pool, ev.conn);
    ProcessedAccepts(Freed(s.pool, ev.conn), ev.w, ev.conn);
  }

  /** So in such a run a callback gets no value or the value of the reply to its own get,
      and a connection reads the rest of the reply to its own request. */
  lemma RunMatched(started: seq<bool>, run: seq<Event>, server: Server)
    requires Serves(started, run, server) && Proper(server) && NeverCuts(started, run, server)
    ensures Matched(After(started, run, server), server)
  {
    hide After, Matched, NeverCuts, Proper;
    MatchedIff(started, run, server);
  }

  /** And the read that takes the last bytes of the reply calls back with it. */
  lemma OwnReply(started: seq<bool>, run: seq<Event>, server: Server, ev: Event)
    requires Serves(started, run, server) && Proper(server) && NeverCuts(started, run, server)
    requires var s := After(started, run, server);
             && Delivers(s, ev) && ev.Read? && ev.incoming.Data? && s.pool.conns[ev.conn].req.Getting?
             && s.wires[ev.conn].open && ev.incoming.bytes == s.wires[ev.conn].bytes
    ensures var s := After(started, run, server); var id := s.pool.conns[ev.conn].req.id; var calls := Step(s.pool, ev).calls;
            calls != [] && calls[|calls| - 1] == Call(id, Meaning(server.gets(id)))
  {
    hide NeverCuts;
    RunMatched(started, run, server);
    EndReleases(After(started, run, server), ev, server);
  }

  // ------------------------------------------------- replies to sets in pieces

  /** A line that is no VALUE line is answered without a value. */
  lemma OtherLine(s: Bytes, j: nat)
    requires !(EndLine() <= s) && !(ValueWord() <= s) && j + 1 < |s| && s[j] == CR && s[j + 1] == LF
    ensures Parse(s) == Bad
  {
    hide ScanHeader;
    var h := HeaderEnd(s, 0);
    assert ValueWord() <= s[..h] ==> ValueWord() <= s;
  }

  function Stored(): (r: Bytes)
    ensures |r| == 8
  {
    [83, 84, 79, 82, 69, 68, CR, LF]
  }

  lemma StoredRest(k: nat, more: Bytes, j: nat)
    requires k < 8 && (k < 7 || (j + 1 < |more| && more[j] == CR && more[j + 1] == LF))
    ensures Parse(Stored()[k..] + more) == Bad
  {
    hide Parse;
    var s := Stored()[k..] + more;
    assert s[0] == Stored()[k];
    if k < 7 {
      assert s[1] == Stored()[k + 1];
      if k < 6 { assert s[6 - k] == Stored()[6] && s[7 - k] == Stored()[7]; }
      OtherLine(s, 6 - k);
    } else {
      assert s[1 + j] == more[j] && s[2 + j] == more[j + 1];
      OtherLine(s, 1 + j);
    }
  }

  /** One connection, connected and idle. */
  function Ready(calls: seq<Call>): Pool {
    Pool([Conn(false, false, false, true, NoRequest, Idle)], 1, 0, 1, [], 10, calls)
  }

  function Accept(): Writes { (n: nat) => true }

  function Round(op: Op, bytes: Bytes): seq<Event> {
    [Submit(op, Accept()), Event.Written(0, true, true), Read(0, Data(bytes), Accept())]
  }

  lemma Extend(started: seq<bool>, run: seq<Event>, ev: Event)
    requires Legal(started, run) && Enabled(Run(started, run), ev)
    ensures Legal(started, run + [ev]) && Run(started, run + [ev]) == Step(Run(started, run), ev)
  {
    assert (run + [ev])[..|run|] == run;
  }

  /** A request, its write callback, and one read of its reply. */
  lemma RoundTrip(started: seq<bool>, run: seq<Event>, calls: seq<Call>, op: Op, bytes: Bytes)
    requires Legal(started, run) && Run(started, run) == Ready(calls) && op.key != [] && Plain(op)
    requires op.GetOp? ==> GetOutcome([], Data(bytes)).Finished?
    ensures Legal(started, run + Round(op, bytes))
    ensures Run(started, run + Round(op, bytes)) ==
            Ready(calls + if op.GetOp? then [Call(op.id, GetOutcome([], Data(bytes)).value)] else [])
  {
    hide Legal, Run, Valid, GetOutcome;
    var p, evs := Ready(calls), Round(op, bytes);
    Extend(started, run, evs[0]);
    var q := Step(p, evs[0]);
    assert calls + [] == calls;
    assert Free(p.conns, 0) == 0;
    var req := if op.GetOp? then Getting(op.id, []) else Setting(op.id, op.value);
    assert q == p.(conns := [Conn(true, false, false, true, req, Writing)], available := 0);
    Extend(started, run + [evs[0]], evs[1]);
    var r := Step(q, evs[1]);
    assert r == q.(conns := [Conn(true, false, false, true, req, Reading)]);
    Extend(started, run + [evs[0]] + [evs[1]], evs[2]);
    assert Freed(r, 0) == p;
    ProcessedEmpty(p, Accept());
    assert run + evs == run + [evs[0]] + [evs[1]] + [evs[2]];
  }

  lemma NoEvents()
    ensures Legal([true], []) && Run([true], []) == Init([true])
  {}

  lemma OneUp()
    ensures |Init([true]).conns| == 1 && Init([true]).conns[0].connecting && OnConnect(Init([true]), 0, true) == Ready([])
  {
    var p := Init([true]);
    assert p.conns == [Conn(false, false, true, false, NoRequest, Idle)];
    assert OnConnect(p, 0, true).conns == Ready([]).conns;
  }

  lemma ReadyRun()
    ensures Legal([true], [Connect(0, true)]) && Run([true], [Connect(0, true)]) == Ready([])
  {
    hide Legal, Run, Valid, Init, OnConnect;
    NoEvents();
    OneUp();
    Extend([true], [], Connect(0, true));
    assert [] + [Connect(0, true)] == [Connect(0, true)];
  }

  /** After a read of only a part of a set's reply, with the rest of it in front of the
      reply to the next get, that get is answered without its value. */
  lemma PartOfSet(put: Op, get: Op, k: nat, r: Reply)
    requires put.SetOp? && get.GetOp? && put.key != [] && get.key != [] && Plain(put)
    requires k < 8 && r.Found? && WellFormed(r)
    ensures var run := [Connect(0, true)] + Round(put, Stored()[..k]) + Round(get, Stored()[k..] + Text(r));
            Legal([true], run) && Run([true], run).calls == [Call(get.id, Nothing)] && Meaning(r) != Nothing
  {
    hide Legal, Run, Text, Stored, WellFormed, Round, Parse, Enabled, Valid;
    ReadyRun();
    RoundTrip([true], [Connect(0, true)], [], put, Stored()[..k]);
    HeaderBreak(r);
    StoredRest(k, Text(r), |Header(r.key, r.flags, r.size)|);
    assert [] + (Stored()[k..] + Text(r)) == Stored()[k..] + Text(r);
    RoundTrip([true], [Connect(0, true)] + Round(put, Stored()[..k]), [], get, Stored()[k..] + Text(r));
  }

  lemma HeaderBreak(r: Reply)
    requires r.Found?
    ensures var j := |Header(r.key, r.flags, r.size)|; var t := Text(r); j + 1 < |t| && t[j] == CR && t[j + 1] == LF
  {
    hide Header;
  }

  /** And when the rest of the set's reply is read alone, the get after that one is
      called back with the value of the reply to the get before it. */
  lemma ReplyOfAnother(put: Op, get: Op, next: Op, k: nat, r: Reply)
    requires put.SetOp? && get.GetOp? && next.GetOp? && put.key != [] && get.key != [] && next.key != [] && Plain(put)
    requires k < 7 && r.Found? && WellFormed(r)
    ensures var run := [Connect(0, true)] + Round(put, Stored()[..k]) + Round(get, Stored()[k..]) + Round(next, Text(r));
            Legal([true], run) && Run([true], run).calls == [Call(get.id, Nothing), Call(next.id, Meaning(r))]
  {
    hide Legal, Run, Text, Stored, WellFormed, Round, Parse, Enabled, Valid;
    var first := [Connect(0, true)] + Round(put, Stored()[..k]);
    ReadyRun();
    RoundTrip([true], [Connect(0, true)], [], put, Stored()[..k]);
    StoredRest(k, [], 0);
    assert [] + Stored()[k..] == Stored()[k..] == Stored()[k..] + [];
    RoundTrip([true], first, [], get, Stored()[k..]);
    assert [] + Text(r) + [] == Text(r);
    ReplyDecides(r, [], Text(r), []);
    RoundTrip([true], first + Round(get, Stored()[k..]), [Call(get.id, Nothing)], next, Text(r));
  }
}
