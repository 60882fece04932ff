/** What every run of the prover cache keeps: runs interleave lookups, insertions,
    frees, cleanups and invalidations over any number of contexts. */
module CacheRuns {
  import opened Limbs
  import opened ProverCache
  import opened Tallies
  import opened Wrappers

  /** The live contexts' local lists and the global cache. */
  datatype State = State(ctxs: seq<seq<Entry>>, g: Global)

  /** The calls.  Freeing a context is one call: no other runs inside it. */
  datatype Op =
    | Create
    | Get(ctx: nat, key: Key, worker: bool)
    | Set(ctx: nat, key: Key, value: nat, size: uint32, duration: uint64, hasFree: bool)
    | Free(ctx: nat, clocks: seq<Clock>)
    | Cleanup(now: uint64, extra: nat)
    | Invalidate(key: Key)

  function Init(): State { State([], Global([], 0, [])) }

  predicate Enabled(s: State, op: Op) {
    match op
    case Create => true
    case Get(i, _, _) => i < |s.ctxs|
    case Set(i, _, _, _, _, _) => i < |s.ctxs|
    case Free(i, clocks) => i < |s.ctxs| && |clocks| == |s.ctxs[i]|
    case Cleanup(_, _) => true
    case Invalidate(_) => true
  }

  /** The contexts without context i. */
  function Without(ctxs: seq<seq<Entry>>, i: nat): seq<seq<Entry>>
    requires i < |ctxs|
  {
    ctxs[..i] + ctxs[i + 1..]
  }

  function Step(s: State, op: Op): State
    requires Enabled(s, op)
  {
    match op
    case Create => s.(ctxs := s.ctxs + [[]])
    case Get(i, key, worker) =>
      var r := Got(s.ctxs[i], s.g, key, worker);
      State(s.ctxs[i := r.0], r.1)
    case Set(i, key, value, size, duration, hasFree) =>
      s.(ctxs := s.ctxs[i := [NewEntry(key, value, size, duration, hasFree)] + s.ctxs[i]])
    case Free(i, clocks) => State(Without(s.ctxs, i), ReleasedAll(s.g, s.ctxs[i], clocks))
    case Cleanup(now, extra) => s.(g := Cleaned(s.g, now, extra))
    case Invalidate(key) => s.(g := Invalidated(s.g, key))
  }

  /** Every step of the run is possible where it is taken. */
  predicate Legal(run: seq<Op>)
    decreases |run|, 0
  {
    |run| == 0 || (Legal(run[..|run| - 1]) && Enabled(Run(run[..|run| - 1]), run[|run| - 1]))
  }

  /** The state a run ends in. */
  function Run(run: seq<Op>): State
    requires Legal(run)
    decreases |run|, 1
  {
    if |run| == 0 then Init() else Step(Run(run[..|run| - 1]), run[|run| - 1])
  }

  // --------------------------------------------------- counting live entries

  function Live(key: Key): Entry -> nat { (e: Entry) => One(Matches(e, key, true)) }

  function LiveCount(es: seq<Entry>, key: Key): nat { Tally(es, Live(key)) }

  lemma LiveUnique(es: seq<Entry>, i: nat, j: nat, key: Key)
    requires i < |es| && j < |es| && Matches(es[i], key, true) && Matches(es[j], key, true) && LiveCount(es, key) <= 1
    ensures i == j
  {
    if i < j { TallyTwo(es, i, j, Live(key)); }
    if j < i { TallyTwo(es, j, i, Live(key)); }
  }

  // --------------------------------------------------------- what cleanup does

  predicate Subsequence(a: seq<Entry>, b: seq<Entry>)
    decreases |b|
  {
    if |b| == 0 then a == []
    else Subsequence(a, b[..|b| - 1]) || (|a| > 0 && a[|a| - 1] == b[|b| - 1] && Subsequence(a[..|a| - 1], b[..|b| - 1]))
  }

  /** Cleanup keeps a subsequence in order, and with it every entry in use; an
      unused entry it keeps has not expired. */
  lemma {:induction false} CompactKeeps(es: seq<Entry>, now: nat, max: nat)
    ensures Subsequence(Compact(es, now, max), es)
    ensures forall e :: e in Compact(es, now, max) ==> e in es && (e.use == 0 ==> e.timestamp >= now)
    ensures forall e :: e in es && e.use > 0 ==> e in Compact(es, now, max)
  {
    if |es| > 0 {
      var n := |es| - 1;
      CompactKeeps(es[..n], now, max);
      var kept := Compact(es[..n], now, max);
      assert es == es[..n] + [es[n]];
      if Keep(es[n], now, Sum(kept), max) {
        assert (kept + [es[n]])[..|kept|] == kept;
      }
    }
  }

  /** What is kept fits, apart from entries in use. */
  lemma {:induction false} CompactFits(es: seq<Entry>, now: nat, max: nat)
    ensures Sum(Compact(es, now, max)) <= max + InUse(Compact(es, now, max))
  {
    if |es| > 0 {
      var n := |es| - 1;
      CompactFits(es[..n], now, max);
      var kept := Compact(es[..n], now, max);
      assert (kept + [es[n]])[..|kept|] == kept;
    }
  }

  lemma {:induction false} CompactLive(es: seq<Entry>, now: nat, max: nat, key: Key)
    ensures LiveCount(Compact(es, now, max), key) <= LiveCount(es, key)
  {
    if |es| > 0 {
      var n := |es| - 1;
      CompactLive(es[..n], now, max, key);
      TallyPush(Compact(es[..n], now, max), es[n], Live(key));
    }
  }

  // ------------------------------------------------------------- conservation

  /** Does freeing this entry call back with v? */
  function Owns(e: Entry, v: nat): nat { One(Managed(e) && e.value == v) }

  /** How often v is owned by the global array. */
  function Holder(v: nat): Entry -> nat { (e: Entry) => Owns(e, v) }

  function Held(es: seq<Entry>, v: nat): nat { Tally(es, Holder(v)) }

  /** The local owners of v: a borrowed copy owns nothing. */
  function Owner(v: nat): Entry -> nat { (e: Entry) => if e.fromGlobal then 0 else Owns(e, v) }

  /** The borrowed copies of a key. */
  function Borrower(key: Key): Entry -> nat { (e: Entry) => One(e.fromGlobal && e.key == key) }

  /** A measure added up over all contexts. */
  function Over(f: Entry -> nat): seq<Entry> -> nat { (list: seq<Entry>) => Tally(list, f) }

  function TotalAll(ctxs: seq<seq<Entry>>, f: Entry -> nat): nat { Tally(ctxs, Over(f)) }

  /** How often the callback has been called with v. */
  function Freed(calls: seq<nat>, v: nat): nat { multiset(calls)[v] }

  lemma FreedPush(calls: seq<nat>, e: Entry, v: nat)
    ensures Freed(calls + FreeOf(e), v) == Freed(calls, v) + Owns(e, v)
  {}

  /** Cleanup frees exactly what it removes. */
  lemma {:induction false} CompactHeld(es: seq<Entry>, now: nat, max: nat, v: nat)
    ensures Held(Compact(es, now, max), v) + Freed(Dropped(es, now, max), v) == Held(es, v)
  {
    if |es| > 0 {
      var n := |es| - 1;
      CompactHeld(es[..n], now, max, v);
      TallyPush(Compact(es[..n], now, max), es[n], Holder(v));
      FreedPush(Dropped(es[..n], now, max), es[n], v);
    }
  }

  /** How often a step, or a whole run, hands v to the cache. */
  function Given(op: Op, v: nat): nat {
    match op
    case Set(_, key, value, size, duration, hasFree) => Owns(NewEntry(key, value, size, duration, hasFree), v)
    case _ => 0
  }

  function GivenAll(run: seq<Op>, v: nat): nat {
    if |run| == 0 then 0 else GivenAll(run[..|run| - 1], v) + Given(run[|run| - 1], v)
  }

  /** The owners of v in the global array, and its frees. */
  function GlobalShare(g: Global, v: nat): nat { Held(g.entries, v) + Freed(g.freed, v) }

  function Accounted(s: State, v: nat): nat { TotalAll(s.ctxs, Owner(v)) + GlobalShare(s.g, v) }

  lemma CleanedShare(g: Global, now: nat, extra: nat, v: nat)
    ensures GlobalShare(Cleaned(g, now, extra), v) == GlobalShare(g, v)
  {
    CompactHeld(g.entries, now, MaxSize(extra), v);
  }

  lemma AddedShare(g: Global, e: Entry, t: Clock, v: nat)
    ensures GlobalShare(Added(g, e, t), v) == GlobalShare(g, v) + Owns(e, v)
  {
    hide Cleaned, Tally;
    CleanedShare(g, t.cleanup, e.size, v);
    var h := if e.size + g.size > LIMIT then Cleaned(g, t.cleanup, e.size) else g;
    TallyPush(h.entries, Added(g, e, t).entries[|h.entries|], Holder(v));
  }

  lemma ReleasedShare(g: Global, e: Entry, t: Clock, v: nat)
    ensures GlobalShare(Released(g, e, t), v) == GlobalShare(g, v) + Owner(v)(e)
  {
    hide Added, Tally;
    var i := First(g.entries, e.key, true, 0);
    AddedShare(g, e, t, v);
    FreedPush(g.freed, e, v);
    if i < |g.entries| && g.entries[i].use > 0 {
      TallyUpdate(g.entries, i, g.entries[i].(use := g.entries[i].use - 1), Holder(v));
    }
  }

  lemma {:induction false} ReleasedAllShare(g: Global, list: seq<Entry>, clocks: seq<Clock>, v: nat)
    requires |clocks| == |list|
    ensures GlobalShare(ReleasedAll(g, list, clocks), v) == GlobalShare(g, v) + Tally(list, Owner(v))
    decreases |list|
  {
    hide GlobalShare, Released;
    if |list| > 0 {
      ReleasedShare(g, list[0], clocks[0], v);
      HeadFirst(list, Owner(v));
      ReleasedAllShare(Released(g, list[0], clocks[0]), list[1..], clocks[1..], v);
    }
  }

  lemma InvalidatedShare(g: Global, key: Key, v: nat)
    ensures GlobalShare(Invalidated(g, key), v) == GlobalShare(g, v)
  {
    hide Tally;
    var i := First(g.entries, key, true, 0);
    if i < |g.entries| {
      TallyUpdate(g.entries, i, g.entries[i].(timestamp := 0), Holder(v));
    }
  }

  lemma GotShare(list: seq<Entry>, g: Global, key: Key, worker: bool, v: nat)
    ensures var r := Got(list, g, key, worker); Tally(r.0, Owner(v)) == Tally(list, Owner(v)) && GlobalShare(r.1, v) == GlobalShare(g, v)
  {
    hide Tally;
    var j := First(g.entries, key, true, 0);
    if j < |g.entries| {
      TallyUpdate(g.entries, j, g.entries[j].(use := g.entries[j].use + 1), Holder(v));
      TallyFront(g.entries[j].(timestamp := 0, fromGlobal := true), list, Owner(v));
    }
  }

  lemma HeadFirst(list: seq<Entry>, f: Entry -> nat)
    requires list != []
    ensures Tally(list, f) == f(list[0]) + Tally(list[1..], f)
  {
    assert list == [list[0]] + list[1..];
    TallyFront(list[0], list[1..], f);
  }

  /** Every step conserves values: what it adds is what it was given. */
  lemma StepConserves(s: State, op: Op, v: nat)
    requires Enabled(s, op)
    ensures Accounted(Step(s, op), v) == Accounted(s, v) + Given(op, v)
  {
    hide GlobalShare, Tally, Cleaned, ReleasedAll, Invalidated, Got;
    match op
    case Create =>
      TallyPush(s.ctxs, [], Over(Owner(v)));
      TallyEmpty(Owner(v));
    case Get(i, key, worker) =>
      GotShare(s.ctxs[i], s.g, key, worker, v);
      TallyUpdate(s.ctxs, i, Got(s.ctxs[i], s.g, key, worker).0, Over(Owner(v)));
    case Set(i, key, value, size, duration, hasFree) =>
      TallyUpdate(s.ctxs, i, Step(s, op).ctxs[i], Over(Owner(v)));
      TallyFront(NewEntry(key, value, size, duration, hasFree), s.ctxs[i], Owner(v));
    case Free(i, clocks) =>
      TallyRemove(s.ctxs, i, Over(Owner(v)));
      ReleasedAllShare(s.g, s.ctxs[i], clocks, v);
    case Cleanup(now, extra) => CleanedShare(s.g, now, extra, v);
    case Invalidate(key) => InvalidatedShare(s.g, key, v);
  }

  /** In every run the values given to the cache are exactly those still owned, by
      one entry each, and those freed: nothing is lost and nothing freed twice. */
  lemma {:induction false} RunConserves(run: seq<Op>, v: nat)
    requires Legal(run)
    ensures TotalAll(Run(run).ctxs, Owner(v)) + Held(Run(run).g.entries, v) + Freed(Run(run).g.freed, v) == GivenAll(run, v)
  {
    hide Step, Enabled, TotalAll, Held, Freed;
    if |run| > 0 {
      RunConserves(run[..|run| - 1], v);
      StepConserves(Run(run[..|run| - 1]), run[|run| - 1], v);
    } else {
      EmptyShare(v);
    }
  }

  lemma EmptyShare(v: nat)
    ensures Accounted(Init(), v) == 0
  {}

  // ---------------------------------------------------------------- structure

  /** The size counter is right and no key has two live entries. */
  ghost predicate Shape(g: Global) {
    g.size == Sum(g.entries) && forall k: Key :: LiveCount(g.entries, k) <= 1
  }

  lemma UpdateShape(g: Global, i: nat, e: Entry)
    requires Shape(g) && i < |g.entries| && e.size == g.entries[i].size && e.key == g.entries[i].key
    requires e.timestamp > 0 ==> g.entries[i].timestamp > 0
    ensures Shape(g.(entries := g.entries[i := e]))
  {
    hide Tally;
    var es := g.entries[i := e];
    forall k: Key ensures LiveCount(es, k) <= 1 {
      assert LiveCount(g.entries, k) <= 1;
      TallyUpdate(g.entries, i, e, Live(k));
    }
    TallyUpdate(g.entries, i, e, SizeOf());
  }

  lemma CleanedShape(g: Global, now: nat, extra: nat)
    requires Shape(g)
    ensures Shape(Cleaned(g, now, extra))
  {
    hide Tally, Compact;
    forall k: Key ensures LiveCount(Cleaned(g, now, extra).entries, k) <= 1 {
      CompactLive(g.entries, now, MaxSize(extra), k);
    }
  }

  lemma AddedShape(g: Global, e: Entry, t: Clock)
    requires Shape(g) && First(g.entries, e.key, true, 0) == |g.entries|
    ensures Shape(Added(g, e, t))
  {
    hide Tally, Cleaned, Sum;
    CleanedShape(g, t.cleanup, e.size);
    var h := if e.size + g.size > LIMIT then Cleaned(g, t.cleanup, e.size) else g;
    var copy := Added(g, e, t).entries[|h.entries|];
    SumPush(h.entries, copy);
    TallyZero(g.entries, Live(e.key));
    CleanedLive(g, t.cleanup, e.size, e.key);
    forall k: Key ensures LiveCount(h.entries + [copy], k) <= 1 {
      assert LiveCount(h.entries, k) <= 1;
      TallyPush(h.entries, copy, Live(k));
    }
  }

  lemma CleanedLive(g: Global, now: nat, extra: nat, key: Key)
    ensures LiveCount(Cleaned(g, now, extra).entries, key) <= LiveCount(g.entries, key)
  {
    CompactLive(g.entries, now, MaxSize(extra), key);
  }

  lemma ReleasedShape(g: Global, e: Entry, t: Clock)
    requires Shape(g)
    ensures Shape(Released(g, e, t))
  {
    hide Shape, Added;
    var j := First(g.entries, e.key, true, 0);
    if j == |g.entries| {
      AddedShape(g, e, t);
    } else if g.entries[j].use > 0 {
      UpdateShape(g, j, g.entries[j].(use := g.entries[j].use - 1));
    }
    ShapeIgnoresFreed(g, FreeOf(e));
  }

  lemma {:induction false} ReleasedAllShape(g: Global, list: seq<Entry>, clocks: seq<Clock>)
    requires Shape(g) && |clocks| == |list|
    ensures Shape(ReleasedAll(g, list, clocks))
    decreases |list|
  {
    hide Shape, Released;
    if |list| > 0 {
      ReleasedShape(g, list[0], clocks[0]);
      ReleasedAllShape(Released(g, list[0], clocks[0]), list[1..], clocks[1..]);
    }
  }

  lemma StepShape(s: State, op: Op)
    requires Shape(s.g) && Enabled(s, op)
    ensures Shape(Step(s, op).g)
  {
    hide Shape, Cleaned, ReleasedAll, LiveCount, Sum;
    match op
    case Get(i, key, worker) =>
      var j := First(s.g.entries, key, true, 0);
      if j < |s.g.entries| {
        UpdateShape(s.g, j, s.g.entries[j].(use := s.g.entries[j].use + 1));
      }
    case Free(i, clocks) => ReleasedAllShape(s.g, s.ctxs[i], clocks);
    case Cleanup(now, extra) => CleanedShape(s.g, now, extra);
    case Invalidate(key) =>
      var j := First(s.g.entries, key, true, 0);
      if j < |s.g.entries| {
        UpdateShape(s.g, j, s.g.entries[j].(timestamp := 0));
      }
    case _ =>
  }

  lemma ShapeIgnoresFreed(g: Global, calls: seq<nat>)
    ensures Shape(g) ==> Shape(g.(freed := g.freed + calls))
  {}

  /** In every run, invalidations included, current_size is the sum of the stored
      sizes and every key has at most one live entry. */
  lemma {:induction false} RunShape(run: seq<Op>)
    requires Legal(run)
    ensures Shape(Run(run).g)
  {
    hide Step, Enabled;
    if |run| > 0 {
      RunShape(run[..|run| - 1]);
      StepShape(Run(run[..|run| - 1]), run[|run| - 1]);
    }
  }

  /** After adding an entry the total is at most the limit plus the entries in use,
      unless the entry alone passes the limit. */
  lemma AddedFits(g: Global, e: Entry, t: Clock)
    requires g.size == Sum(g.entries)
    ensures Added(g, e, t).size <= LIMIT + InUse(Added(g, e, t).entries) + if e.size > LIMIT then e.size else 0
  {
    hide Tally;
    CompactFits(g.entries, t.cleanup, MaxSize(e.size));
    var h := if e.size + g.size > LIMIT then Cleaned(g, t.cleanup, e.size) else g;
    TallyPush(h.entries, Added(g, e, t).entries[|h.entries|], UsedSize());
    TallyEmpty(SizeOf());
  }
}
