/** The memcached client of src/server/cache.c: a pool of connections, a bounded
    queue of operations, and the libuv callbacks that move requests through them. */
module Memcache {
  import opened Limbs
  import opened MemcacheReply
  import opened Tallies
  import opened Wrappers

  /** A place a value is read from: a byte, or memory behind an allocated block. */
  datatype Cell = Byte(b: uint8) | Outside

  /** An operation a caller asks for; ids tell requests apart. */
  datatype Op = GetOp(id: nat, key: Bytes) | SetOp(id: nat, key: Bytes, value: seq<Cell>, ttl: uint32)

  /** The request attached to a connection, with the value a set has written. */
  datatype Request = NoRequest | Getting(id: nat, buffer: Bytes) | Setting(id: nat, sent: seq<Cell>)

  /** Which callback a connection waits for; a stuck connection waits for none. */
  datatype Phase = Idle | Writing | Reading | Stuck

  /** connecting: the connect callback has not fired yet; up: it reported success. */
  datatype Conn = Conn(inUse: bool, reconnecting: bool, connecting: bool, up: bool, req: Request, phase: Phase)

  /** What a callback is given: no value, the bytes of a value, or a slice whose length
      goes beyond the buffer. */
  datatype Delivered = Nothing | Value(bytes: Bytes) | Overrun(length: nat)

  /** A call of a user's callback. */
  datatype Call = Call(id: nat, value: Delivered)

  datatype Pool = Pool(conns: seq<Conn>, connected: nat, connecting: int, available: nat, queue: seq<Op>, maxQueue: nat, calls: seq<Call>)

  /** Whether uv_write accepts the request of an operation, by id. */
  type Writes = nat -> bool

  // ------------------------------------------------------- what the pool keeps

  function Busy(): Conn -> nat { (c: Conn) => One(c.inUse) }

  function Waiting(): Conn -> nat { (c: Conn) => One(c.connecting) }

  /** Idle credits and connections in use make up the connected ones; every
      connection connects at most once; queued operations have a key. */
  ghost predicate Valid(p: Pool) {
    && p.available + Tally(p.conns, Busy()) == p.connected
    && p.connected + Tally(p.conns, Waiting()) <= |p.conns| && Tally(p.conns, Waiting()) <= p.connecting
    && (forall i :: 0 <= i < |p.conns| ==> !p.conns[i].reconnecting && (p.conns[i].inUse <==> p.conns[i].phase != Idle))
    && forall i :: 0 <= i < |p.queue| ==> p.queue[i].key != []
  }

  /** The first connection at or after i that is neither in use nor reconnecting. */
  function Free(conns: seq<Conn>, i: nat): (r: nat)
    requires i <= |conns|
    ensures i <= r <= |conns| && (r < |conns| ==> !conns[r].inUse && !conns[r].reconnecting)
    ensures forall j :: i <= j < r ==> conns[j].inUse || conns[j].reconnecting
    decreases |conns| - i
  {
    if i == |conns| || (!conns[i].inUse && !conns[i].reconnecting) then i else Free(conns, i + 1)
  }

  /** A credit always finds a connection. */
  lemma CreditFinds(p: Pool)
    requires Valid(p) && p.available > 0
    ensures Free(p.conns, 0) < |p.conns|
  {
    if Free(p.conns, 0) == |p.conns| {
      TallyFull(p.conns, Busy());
    }
  }

  // ---------------------------------------------------- the copy of a queued value

  function FirstZero(v: seq<Cell>): (k: nat)
    ensures k <= |v| && (k < |v| ==> v[k] == Byte(0)) && forall i :: 0 <= i < k ==> v[i] != Byte(0)
  {
    if v == [] || v[0] == Byte(0) then 0 else 1 + FirstZero(v[1..])
  }

  /** The block strndup makes: up to the first zero, and a zero. */
  function Block(v: seq<Cell>): seq<Cell> { v[..FirstZero(v)] + [Byte(0)] }

  /** The first n cells of a block, wherever it ends. */
  function CellsOf(block: seq<Cell>, n: nat): seq<Cell> {
    seq(n, i requires 0 <= i < n => if i < |block| then block[i] else Outside)
  }

  /** A queued set keeps the block and the length of the original value. */
  function Copied(op: Op): Op {
    if op.SetOp? then op.(value := CellsOf(Block(op.value), |op.value|)) else op
  }

  /** Every cell of a caller's value is a byte. */
  predicate Plain(op: Op) { op.SetOp? ==> forall i :: 0 <= i < |op.value| ==> op.value[i].Byte? }

  /** The copy has the caller's value exactly if no zero byte comes before the last
      byte; otherwise it is read behind its end. */
  lemma CopyExact(op: Op)
    requires Plain(op) && op.SetOp?
    ensures Copied(op) == op <==> forall i :: 0 <= i < |op.value| - 1 ==> op.value[i] != Byte(0)
    ensures Copied(op) == op <==> forall i :: 0 <= i < |op.value| ==> Copied(op).value[i].Byte?
  {
    var v, k := op.value, FirstZero(op.value);
    var c := Copied(op).value;
    if k + 1 < |v| {
      assert v[k] == Byte(0) && c[k + 1] == Outside;
    } else {
      assert c == v;
    }
  }

  // -------------------------------------------------------------- operations

  function Answer(op: Op): seq<Call> { if op.GetOp? then [Call(op.id, Nothing)] else [] }

  /** Puts an operation on connection i; a refused write leaves it stuck there. */
  function Started(p: Pool, op: Op, i: nat, w: Writes): (Pool, int)
    requires i < |p.conns| && p.available > 0
  {
    var req := if op.GetOp? then Getting(op.id, []) else Setting(op.id, op.value);
    var ok := w(op.id);
    var c := p.conns[i].(inUse := true, req := req, phase := if ok then Writing else Stuck);
    (p.(conns := p.conns[i := c], available := p.available - 1, calls := p.calls + if ok then [] else Answer(op)), if ok then 0 else -1)
  }

  /** memcache_get and memcache_set. */
  function Submitted(p: Pool, op: Op, w: Writes): (Pool, int) {
    var i := Free(p.conns, 0);
    if op.key == [] then (p, -1)
    else if p.available > 0 && i < |p.conns| then Started(p, op, i, w)
    else if |p.queue| >= p.maxQueue then (p.(calls := p.calls + Answer(op)), -1)
    else (p.(queue := p.queue + [Copied(op)]), 0)
  }

  lemma StartedValid(p: Pool, op: Op, i: nat, w: Writes)
    requires Valid(p) && i < |p.conns| && p.available > 0 && !p.conns[i].inUse
    ensures Valid(Started(p, op, i, w).0)
  {
    hide Tally;
    var c := Started(p, op, i, w).0.conns[i];
    TallyUpdate(p.conns, i, c, Busy());
    TallyUpdate(p.conns, i, c, Waiting());
  }

  /** A submission keeps the pool valid, and with a credit it never queues. */
  lemma SubmittedValid(p: Pool, op: Op, w: Writes)
    requires Valid(p)
    ensures Valid(Submitted(p, op, w).0)
    ensures p.available > 0 ==> Submitted(p, op, w).0.queue == p.queue
  {
    hide Tally, Free;
    if p.available > 0 {
      CreditFinds(p);
      StartedValid(p, op, Free(p.conns, 0), w);
    }
  }

  /** The queue without its first operation. */
  function Dequeued(p: Pool): Pool
    requires p.queue != []
  {
    p.(queue := p.queue[1..])
  }

  lemma DequeuedValid(p: Pool)
    requires Valid(p) && p.queue != []
    ensures Valid(Dequeued(p))
  {}

  /** mc_process_queue: starts queued operations while there are credits and no
      write is refused. */
  ghost function Processed(p: Pool, w: Writes): (r: Pool)
    requires Valid(p)
    ensures Valid(r)
    decreases |p.queue|
  {
    if p.queue == [] || p.available == 0 then p
    else
      DequeuedValid(p);
      SubmittedValid(Dequeued(p), p.queue[0], w);
      var t := Submitted(Dequeued(p), p.queue[0], w);
      if t.1 == 0 && t.0.queue != [] && t.0.available > 0 then Processed(t.0, w) else t.0
  }

  /** mc_release_connection. */
  ghost function Released(p: Pool, i: nat, w: Writes): (r: Pool)
    requires Valid(p) && i < |p.conns|
    ensures Valid(r)
  {
    FreedValid(p, i);
    if p.conns[i].inUse then Processed(Freed(p, i), w)
    else p.(conns := p.conns[i := p.conns[i].(req := NoRequest)])
  }

  function Freed(p: Pool, i: nat): Pool
    requires i < |p.conns|
  {
    p.(conns := p.conns[i := p.conns[i].(inUse := false, req := NoRequest, phase := Idle)], available := p.available + 1)
  }

  lemma FreedValid(p: Pool, i: nat)
    requires Valid(p) && i < |p.conns|
    ensures p.conns[i].inUse ==> Valid(Freed(p, i))
    ensures !p.conns[i].inUse ==> Valid(p.(conns := p.conns[i := p.conns[i].(req := NoRequest)]))
  {
    hide Tally;
    var c, d := p.conns[i].(inUse := false, req := NoRequest, phase := Idle), p.conns[i].(req := NoRequest);
    TallyUpdate(p.conns, i, c, Busy());
    TallyUpdate(p.conns, i, c, Waiting());
    TallyUpdate(p.conns, i, d, Busy());
    TallyUpdate(p.conns, i, d, Waiting());
  }

  // ---------------------------------------------------------------- callbacks

  /** What a read callback delivers. */
  datatype Incoming = Failed | Eof | Data(bytes: Bytes)

  datatype Event =
    | Connect(conn: nat, ok: bool)
    | Submit(op: Op, w: Writes)
    | Written(conn: nat, ok: bool, readOk: bool)
    | Read(conn: nat, incoming: Incoming, w: Writes)
    | Shutdown

  /** libuv calls back once per connect, write and pending read. */
  predicate Enabled(p: Pool, ev: Event) {
    match ev
    case Connect(i, _) => i < |p.conns| && p.conns[i].connecting
    case Submit(op, _) => Plain(op)
    case Written(i, _, _) => i < |p.conns| && p.conns[i].phase == Writing && p.conns[i].req != NoRequest
    case Read(i, _, _) => i < |p.conns| && p.conns[i].phase == Reading && p.conns[i].req != NoRequest
    case Shutdown => true
  }

  /** on_connection. */
  function OnConnect(p: Pool, i: nat, ok: bool): Pool
    requires i < |p.conns|
  {
    var q := p.(conns := p.conns[i := p.conns[i].(connecting := false, reconnecting := false, up := ok)], connecting := p.connecting - 1);
    if ok then q.(connected := q.connected + 1, available := q.available + 1) else q
  }

  /** on_get_write and on_set_write: a failure answers a get and leaves the
      connection stuck. */
  function OnWritten(p: Pool, i: nat, ok: bool): Pool
    requires i < |p.conns|
  {
    var c := p.conns[i];
    var calls := if !ok && c.req.Getting? then [Call(c.req.id, Nothing)] else [];
    p.(conns := p.conns[i := c.(phase := if ok then Reading else Stuck)], calls := p.calls + calls)
  }

  /** The answer of a get when it is finished. */
  datatype Outcome = Unfinished(buffer: Bytes) | Finished(value: Delivered)

  function GetOutcome(buffer: Bytes, incoming: Incoming): Outcome {
    if !incoming.Data? then Finished(Nothing)
    else
      var b := buffer + incoming.bytes;
      match Parse(b)
      case More => Unfinished(b)
      case Astray => Unfinished(b)
      case Hit(v) => Finished(Value(v))
      case Beyond(_, n) => Finished(Overrun(n))
      case Miss => Finished(Nothing)
      case Bad => Finished(Nothing)
  }

  /** on_get_read and on_set_read_discard. */
  ghost function OnRead(p: Pool, i: nat, incoming: Incoming, w: Writes): (r: Pool)
    requires Valid(p) && i < |p.conns|
  {
    var c := p.conns[i];
    if !c.req.Getting? then Released(p, i, w)
    else
      match GetOutcome(c.req.buffer, incoming)
      case Unfinished(b) => p.(conns := p.conns[i := c.(req := c.req.(buffer := b))])
      case Finished(v) => var q := Released(p, i, w); q.(calls := q.calls + [Call(c.req.id, v)])
  }

  /** mc_cleanup_queue: every queued get is answered, in order. */
  function Answers(queue: seq<Op>): seq<Call> {
    if queue == [] then [] else Answer(queue[0]) + Answers(queue[1..])
  }

  ghost function Step(p: Pool, ev: Event): Pool
    requires Valid(p) && Enabled(p, ev)
  {
    match ev
    case Connect(i, ok) => OnConnect(p, i, ok)
    case Submit(op, w) => Submitted(p, op, w).0
    case Written(i, ok, readOk) => OnWritten(p, i, ok && readOk)
    case Read(i, incoming, w) => OnRead(p, i, incoming, w)
    case Shutdown => p.(queue := [], calls := p.calls + Answers(p.queue))
  }

  lemma OnConnectValid(p: Pool, i: nat, ok: bool)
    requires Valid(p) && i < |p.conns| && p.conns[i].connecting
    ensures Valid(OnConnect(p, i, ok))
  {
    hide Tally;
    var c := p.conns[i].(connecting := false, reconnecting := false, up := ok);
    TallyUpdate(p.conns, i, c, Busy());
    TallyUpdate(p.conns, i, c, Waiting());
  }

  /** Changing only the request or a busy phase of a connection. */
  lemma RequestValid(p: Pool, i: nat, c: Conn)
    requires Valid(p) && i < |p.conns| && c.(req := p.conns[i].req, phase := p.conns[i].phase) == p.conns[i]
    requires c.phase == Idle <==> p.conns[i].phase == Idle
    ensures Valid(p.(conns := p.conns[i := c]))
  {
    hide Tally;
    TallyUpdate(p.conns, i, c, Busy());
    TallyUpdate(p.conns, i, c, Waiting());
  }

  /** Every callback keeps idle credits within the idle connections. */
  lemma StepValid(p: Pool, ev: Event)
    requires Valid(p) && Enabled(p, ev)
    ensures Valid(Step(p, ev))
  {
    hide Tally, Free, Parse, Processed;
    match ev
    case Connect(i, ok) => OnConnectValid(p, i, ok);
    case Submit(op, w) => SubmittedValid(p, op, w);
    case Written(i, ok, readOk) => RequestValid(p, i, p.conns[i].(phase := if ok && readOk then Reading else Stuck));
    case Read(i, incoming, w) =>
      var c := p.conns[i];
      if c.req.Getting? && GetOutcome(c.req.buffer, incoming).Unfinished? {
        RequestValid(p, i, c.(req := c.req.(buffer := GetOutcome(c.req.buffer, incoming).buffer)));
      }
    case Shutdown =>
  }

  /** memcache_new: a connection waits for its callback if its connect was started. */
  function Init(started: seq<bool>): Pool {
    Pool(seq(|started|, i requires 0 <= i < |started| => Conn(false, false, started[i], false, NoRequest, Idle)),
         0, |started|, 0, [], 10 * |started|, [])
  }

  lemma InitValid(started: seq<bool>)
    ensures Valid(Init(started))
  {
    hide Tally;
    var conns := Init(started).conns;
    TallyZero(conns, Busy());
    TallyBound(conns, Waiting());
  }

  // ------------------------------------------------------------- the program

  class Client {
    const conns: array<Conn>
    const maxQueue: nat
    var connected: nat
    var connecting: int
    var available: nat
    var queue: seq<Op>
    var queueSize: nat
    var calls: seq<Call>

    ghost function View(): Pool
      reads this, conns
    {
      Pool(conns[..], connected, connecting, available, queue, maxQueue, calls)
    }

    ghost predicate Consistent()
      reads this, conns
    {
      queueSize == |queue| && Valid(View())
    }

    constructor (started: seq<bool>)
      ensures fresh(conns) && Consistent() && View() == Init(started)
    {
      var n := |started|;
      conns := new Conn[n](i requires 0 <= i < n => Conn(false, false, started[i], false, NoRequest, Idle));
      connected, connecting, available := 0, n, 0;
      queue, queueSize, maxQueue, calls := [], 0, 10 * n, [];
      new;
      InitValid(started);
      assert conns[..] == Init(started).conns;
    }

    /** The index of a connection now marked as in use, or -1. */
    method GetConnection() returns (i: int)
      modifies this, conns
      ensures var p := old(View()); var j := Free(p.conns, 0);
              if p.available > 0 && j < |p.conns| then
                i == j && View() == p.(available := p.available - 1, conns := p.conns[j := p.conns[j].(inUse := true)])
              else i == -1 && View() == p
      ensures queueSize == old(queueSize)
    {
      if available == 0 {
        return -1;
      }
      for k := 0 to conns.Length
        invariant View() == old(View()) && queueSize == old(queueSize)
        invariant Free(conns[..], 0) == Free(conns[..], k)
      {
        if conns[k].inUse || conns[k].reconnecting {
          continue;
        }
        available := available - 1;
        conns[k] := conns[k].(inUse := true);
        return k;
      }
      return -1;
    }

    /** Appends to the queue unless it is full. */
    method QueueOperation(op: Op) returns (r: int)
      requires queueSize == |queue|
      modifies this
      ensures queueSize == |queue|
      ensures if |old(queue)| >= maxQueue then r == -1 && View() == old(View())
              else r == 0 && View() == old(View()).(queue := old(queue) + [op])
    {
      if queueSize >= maxQueue {
        return -1;
      }
      queue := queue + [op];
      queueSize := queueSize + 1;
      return 0;
    }

    /** memcache_get and memcache_set. */
    method Operate(op: Op, w: Writes) returns (r: int)
      requires queueSize == |queue|
      modifies this, conns
      ensures queueSize == |queue| && (View(), r) == Submitted(old(View()), op, w)
    {
      hide Free;
      if op.key == [] {
        return -1;
      }
      ghost var p := View();
      var i := GetConnection();
      if i == -1 {
        r := QueueOperation(Copied(op));
        if r != 0 {
          calls := calls + if op.GetOp? then [Call(op.id, Nothing)] else [];
        }
        return;
      }
      conns[i] := conns[i].(req := if op.GetOp? then Getting(op.id, []) else Setting(op.id, op.value), phase := Writing);
      if !w(op.id) {
        conns[i] := conns[i].(phase := Stuck);
        calls := calls + if op.GetOp? then [Call(op.id, Nothing)] else [];
        assert conns[..] == Started(p, op, i, w).0.conns;
        return -1;
      }
      assert conns[..] == Started(p, op, i, w).0.conns && p.calls + [] == calls;
      return 0;
    }

    /** Starts queued operations; it terminates because a dequeued operation always
        finds a connection and so is never queued again. */
    method ProcessQueue(w: Writes)
      requires Consistent()
      modifies this, conns
      ensures Consistent() && View() == Processed(old(View()), w)
      decreases |queue|
    {
      hide Valid, Submitted;
      if queue == [] || available == 0 {
        return;
      }
      ghost var p := View();
      DequeuedValid(p);
      SubmittedValid(Dequeued(p), p.queue[0], w);
      var op := queue[0];
      queue := queue[1..];
      queueSize := queueSize - 1;
      var r := Operate(op, w);
      if r == 0 && queue != [] && available > 0 {
        ProcessQueue(w);
      }
    }

    method ReleaseConnection(i: nat, w: Writes)
      requires Consistent() && i < conns.Length
      modifies this, conns
      ensures Consistent() && View() == Released(old(View()), i, w)
    {
      hide Valid, Processed;
      ghost var p := View();
      FreedValid(p, i);
      if conns[i].inUse {
        conns[i] := conns[i].(inUse := false, phase := Idle);
        available := available + 1;
        conns[i] := conns[i].(req := NoRequest);
        assert View() == Freed(p, i);
        if queue != [] {
          ProcessQueue(w);
        } else {
          ProcessedEmpty(View(), w);
        }
      } else {
        conns[i] := conns[i].(req := NoRequest);
        assert conns[..] == p.conns[i := p.conns[i].(req := NoRequest)];
      }
    }

    method HandleConnect(i: nat, ok: bool)
      requires Consistent() && i < conns.Length && conns[i].connecting
      modifies this, conns
      ensures Consistent() && View() == OnConnect(old(View()), i, ok)
    {
      ghost var p := View();
      OnConnectValid(p, i, ok);
      connecting := connecting - 1;
      conns[i] := conns[i].(connecting := false, reconnecting := false, up := ok);
      assert conns[..] == OnConnect(p, i, ok).conns;
      if ok {
        connected := connected + 1;
        available := available + 1;
      }
    }

    /** The write callbacks; readOk is the result of uv_read_start. */
    method HandleWritten(i: nat, ok: bool, readOk: bool)
      requires Consistent() && i < conns.Length && conns[i].phase == Writing
      modifies this, conns
      ensures Consistent() && View() == OnWritten(old(View()), i, ok && readOk)
    {
      ghost var p := View();
      var c := conns[i];
      RequestValid(p, i, c.(phase := if ok && readOk then Reading else Stuck));
      conns[i] := c.(phase := if ok && readOk then Reading else Stuck);
      if !(ok && readOk) && c.req.Getting? {
        calls := calls + [Call(c.req.id, Nothing)];
      }
      assert conns[..] == OnWritten(p, i, ok && readOk).conns;
    }

    /** on_get_read: appends, examines, and on the end of the reply releases the
        connection before calling back. */
    method HandleGetRead(i: nat, incoming: Incoming, w: Writes)
      requires Consistent() && i < conns.Length && conns[i].phase == Reading && conns[i].req.Getting?
      modifies this, conns
      ensures Consistent() && View() == OnRead(old(View()), i, incoming, w)
    {
      hide Valid, Released, Parse;
      ghost var p := View();
      var c := conns[i];
      var result := Nothing;
      if incoming.Data? {
        var b := c.req.buffer + incoming.bytes;
        var v := Examine(b);
        if v.More? || v.Astray? {
          ContinueValid(p, i, b);
          conns[i] := c.(req := Getting(c.req.id, b));
          assert conns[..] == p.conns[i := c.(req := Getting(c.req.id, b))];
          return;
        }
        result := if v.Hit? then Value(v.value) else if v.Beyond? then Overrun(v.length) else Nothing;
      }
      ReleaseConnection(i, w);
      CallsValid(View(), calls + [Call(c.req.id, result)]);
      calls := calls + [Call(c.req.id, result)];
    }

    /** on_set_read_discard. */
    method HandleSetRead(i: nat, incoming: Incoming, w: Writes)
      requires Consistent() && i < conns.Length && conns[i].phase == Reading && !conns[i].req.Getting?
      modifies this, conns
      ensures Consistent() && View() == OnRead(old(View()), i, incoming, w)
    {
      ReleaseConnection(i, w);
    }

    /** mc_cleanup_queue. */
    method CleanupQueue()
      requires Consistent()
      modifies this
      ensures Consistent() && View() == old(View()).(queue := [], calls := old(calls) + Answers(old(queue)))
    {
      ghost var p := View();
      var rest := queue;
      while rest != []
        invariant View().(calls := p.calls) == p
        invariant calls + Answers(rest) == p.calls + Answers(p.queue)
        decreases |rest|
      {
        calls := calls + if rest[0].GetOp? then [Call(rest[0].id, Nothing)] else [];
        rest := rest[1..];
      }
      queue := [];
      queueSize := 0;
    }
  }

  lemma ProcessedEmpty(p: Pool, w: Writes)
    requires Valid(p) && p.queue == []
    ensures Processed(p, w) == p
  {}

  lemma ContinueValid(p: Pool, i: nat, b: Bytes)
    requires Valid(p) && i < |p.conns| && p.conns[i].req.Getting?
    ensures Valid(p.(conns := p.conns[i := p.conns[i].(req := Getting(p.conns[i].req.id, b))]))
  {
    RequestValid(p, i, p.conns[i].(req := Getting(p.conns[i].req.id, b)));
  }

  lemma CallsValid(p: Pool, calls: seq<Call>)
    requires Valid(p)
    ensures Valid(p.(calls := calls))
  {}
}
