/** Borrow counting in the prover cache: when the counters are right, when a
    context can be left with a freed value, and when not. */
module CacheBorrows {
  import opened Limbs
  import opened ProverCache
  import opened CacheRuns
  import opened Tallies
  import opened Wrappers

  function Borrows(ctxs: seq<seq<Entry>>, key: Key): nat { TotalAll(ctxs, Borrower(key)) }

  /** Every live global entry counts the borrowed copies of its key. */
  ghost predicate Counted(s: State) {
    forall i :: 0 <= i < |s.g.entries| && s.g.entries[i].timestamp > 0 ==> s.g.entries[i].use == Borrows(s.ctxs, s.g.entries[i].key)
  }

  predicate Shares(e: Entry, l: Entry) { e.key == l.key && e.value == l.value && e.hasFree == l.hasFree }

  /** Some entry, live or invalidated, holds the copy's value and is in use. */
  ghost predicate Kept(es: seq<Entry>, l: Entry) {
    exists i :: 0 <= i < |es| && es[i].use > 0 && Shares(es[i], l)
  }

  ghost predicate AllKept(s: State) {
    forall i, j :: 0 <= i < |s.ctxs| && 0 <= j < |s.ctxs[i]| && s.ctxs[i][j].fromGlobal ==> Kept(s.g.entries, s.ctxs[i][j])
  }

  /** Every borrowed key has a live entry. */
  ghost predicate LiveBacked(s: State) {
    forall k: Key :: Borrows(s.ctxs, k) > 0 ==> HasLive(s.g.entries, k)
  }

  predicate HasLive(es: seq<Entry>, k: Key) { First(es, k, true, 0) < |es| }

  // --------------------------------------------------------- the two conditions

  /** Freeing this entry moves it into the global array as a live entry. */
  predicate MovesIn(g: Global, l: Entry, t: Clock) {
    l.timestamp > 0 && !l.fromGlobal && !HasLive(g.entries, l.key) && Expiry(l, t) > 0
  }

  /** The keys of the entries that freeing a context moves in as live ones. */
  function Incoming(g: Global, list: seq<Entry>, clocks: seq<Clock>): set<Key>
    requires |clocks| == |list|
    decreases |list|
  {
    if |list| == 0 then {}
    else
      (if MovesIn(g, list[0], clocks[0]) then {list[0].key} else {})
      + Incoming(Released(g, list[0], clocks[0]), list[1..], clocks[1..])
  }

  /** Key k has come in with this free, is live when it returns, and another context
      holds a borrowed copy of an earlier entry of the key. */
  predicate Stale(s: State, op: Op, k: Key)
    requires Enabled(s, op) && op.Free?
  {
    k in Incoming(s.g, s.ctxs[op.ctx], op.clocks) && HasLive(Step(s, op).g.entries, k) && Borrows(Without(s.ctxs, op.ctx), k) > 0
  }

  ghost predicate TidyStep(s: State, op: Op)
    requires Enabled(s, op)
  {
    op.Free? ==> forall k: Key :: !Stale(s, op, k)
  }

  /** No borrowed key is invalidated. */
  predicate CarefulStep(s: State, op: Op) {
    op.Invalidate? ==> Borrows(s.ctxs, op.key) == 0
  }

  ghost predicate Tidy(run: seq<Op>)
    requires Legal(run)
  {
    |run| == 0 || (Tidy(run[..|run| - 1]) && TidyStep(Run(run[..|run| - 1]), run[|run| - 1]))
  }

  predicate Careful(run: seq<Op>)
    requires Legal(run)
  {
    |run| == 0 || (Careful(run[..|run| - 1]) && CarefulStep(Run(run[..|run| - 1]), run[|run| - 1]))
  }

  // ------------------------------------------------------ how calls change borrows

  lemma TotalAllAt(ctxs: seq<seq<Entry>>, i: nat, j: nat, f: Entry -> nat)
    requires i < |ctxs| && j < |ctxs[i]|
    ensures TotalAll(ctxs, f) >= f(ctxs[i][j])
  {
    TallyAt(ctxs, i, Over(f));
    TallyAt(ctxs[i], j, f);
  }

  /** What a call adds to the borrowed copies of a key and takes from them. */
  function Gains(s: State, op: Op, k: Key): nat
    requires Enabled(s, op)
  {
    One(op.Get? && op.key == k && First(s.ctxs[op.ctx], k, false, 0) == |s.ctxs[op.ctx]| && !op.worker && HasLive(s.g.entries, k))
  }

  function Loses(s: State, op: Op, k: Key): nat
    requires Enabled(s, op)
  {
    if op.Free? then Tally(s.ctxs[op.ctx], Borrower(k)) else 0
  }

  lemma BorrowsStep(s: State, op: Op, k: Key)
    requires Enabled(s, op)
    ensures Borrows(Step(s, op).ctxs, k) + Loses(s, op, k) == Borrows(s.ctxs, k) + Gains(s, op, k)
  {
    hide Tally, ReleasedAll, Cleaned, Invalidated, First;
    var after, f := Step(s, op).ctxs, Borrower(k);
    TallyEmpty(f);
    match op
    case Create => TallyPush(s.ctxs, [], Over(f));
    case Get(i, _, _) =>
      TallyUpdate(s.ctxs, i, after[i], Over(f));
      if after[i] != s.ctxs[i] { TallyFront(after[i][0], s.ctxs[i], f); }
    case Set(i, _, _, _, _, _) =>
      TallyUpdate(s.ctxs, i, after[i], Over(f));
      TallyFront(after[i][0], s.ctxs[i], f);
    case Free(i, _) => TallyRemove(s.ctxs, i, Over(f));
    case Cleanup(_, _) =>
    case Invalidate(_) =>
  }

  // ------------------------------------------------------------------ counting

  /** Dropping entries and leaving the contexts alone keeps the counting. */
  lemma CleanedCounted(s: State, now: nat, extra: nat)
    requires Counted(s)
    ensures Counted(s.(g := Cleaned(s.g, now, extra)))
  {
    hide Borrows, Compact;
    var es, kept := s.g.entries, Cleaned(s.g, now, extra).entries;
    CompactKeeps(es, now, MaxSize(extra));
    forall i | 0 <= i < |kept| && kept[i].timestamp > 0 ensures kept[i].use == Borrows(s.ctxs, kept[i].key) {
      assert kept[i] in es;
    }
  }

  // ------------------------------------------------------------- the freeing loop

  /** In the middle of a free: list is what is left of the context, others are the
      other contexts, and the keys in news have come in.  Entries that came in are
      unused, and the others count the copies left. */
  ghost predicate Partly(g: Global, list: seq<Entry>, others: seq<seq<Entry>>, news: set<Key>) {
    forall i :: 0 <= i < |g.entries| && g.entries[i].timestamp > 0 ==> Counts(g.entries[i], list, others, news)
  }

  predicate Counts(e: Entry, list: seq<Entry>, others: seq<seq<Entry>>, news: set<Key>) {
    e.use == if e.key in news then 0 else Borrows(others, e.key) + Tally(list, Borrower(e.key))
  }

  lemma PartlyIn(g: Global, h: Global, list: seq<Entry>, others: seq<seq<Entry>>, news: set<Key>)
    requires Partly(g, list, others, news) && forall e :: e in h.entries ==> e in g.entries
    ensures Partly(h, list, others, news)
  {
    hide Counts;
    forall i | 0 <= i < |h.entries| && h.entries[i].timestamp > 0 ensures Counts(h.entries[i], list, others, news) {
      assert h.entries[i] in g.entries;
    }
  }

  /** The keys that are in once the first entry of the list is freed. */
  function News(g: Global, l: Entry, t: Clock, news: set<Key>): set<Key> {
    news + if MovesIn(g, l, t) then {l.key} else {}
  }

  lemma AddedPartly(g: Global, list: seq<Entry>, t: Clock, others: seq<seq<Entry>>, news: set<Key>)
    requires Partly(g, list, others, news) && list != []
    requires list[0].timestamp > 0 && !list[0].fromGlobal && !HasLive(g.entries, list[0].key)
    ensures Partly(Added(g, list[0], t), list[1..], others, News(g, list[0], t, news))
  {
    hide Borrows, Tally, Cleaned;
    var e := list[0];
    var h := if e.size + g.size > LIMIT then Cleaned(g, t.cleanup, e.size) else g;
    CleanedIn(g, t.cleanup, e.size);
    PartlyIn(g, h, list, others, news);
    var es := Added(g, e, t).entries;
    forall i | 0 <= i < |es| && es[i].timestamp > 0 ensures Counts(es[i], list[1..], others, News(g, e, t, news)) {
      HeadFirst(list, Borrower(es[i].key));
      if i < |h.entries| {
        assert es[i] == h.entries[i] && es[i] in g.entries;
        assert !Matches(es[i], e.key, true);
      }
    }
  }

  lemma CleanedIn(g: Global, now: nat, extra: nat)
    ensures forall e :: e in Cleaned(g, now, extra).entries ==> e in g.entries
  {
    hide Compact;
    CompactKeeps(g.entries, now, MaxSize(extra));
  }

  /** One pass of the loop. */
  lemma ReleasedPartly(g: Global, list: seq<Entry>, t: Clock, others: seq<seq<Entry>>, news: set<Key>)
    requires Shape(g) && Partly(g, list, others, news) && list != []
    ensures Partly(Released(g, list[0], t), list[1..], others, News(g, list[0], t, news))
  {
    hide Borrows, Tally, Added, Sum;
    var l, es := list[0], g.entries;
    var j := First(es, l.key, true, 0);
    if l.timestamp > 0 && !l.fromGlobal && j == |es| {
      AddedPartly(g, list, t, others, news);
    } else {
      var fs := Released(g, l, t).entries;
      forall i | 0 <= i < |fs| && fs[i].timestamp > 0 ensures Counts(fs[i], list[1..], others, news) {
        HeadFirst(list, Borrower(fs[i].key));
        assert Counts(es[i], list, others, news);
        if fs[i].key == l.key {
          assert LiveCount(es, l.key) <= 1;
          LiveUnique(es, i, j, l.key);
        }
      }
    }
  }

  /** The whole loop. */
  lemma {:induction false} FreePartly(g: Global, list: seq<Entry>, clocks: seq<Clock>, others: seq<seq<Entry>>, news: set<Key>)
    requires Shape(g) && |clocks| == |list| && Partly(g, list, others, news)
    ensures Partly(ReleasedAll(g, list, clocks), [], others, news + Incoming(g, list, clocks))
    decreases |list|
  {
    hide Shape, Partly, Released, MovesIn;
    if |list| > 0 {
      var l, t := list[0], clocks[0];
      ReleasedShape(g, l, t);
      ReleasedPartly(g, list, t, others, news);
      FreePartly(Released(g, l, t), list[1..], clocks[1..], others, News(g, l, t, news));
      assert News(g, l, t, news) + Incoming(Released(g, l, t), list[1..], clocks[1..]) == news + Incoming(g, list, clocks);
    } else {
      assert list == [] && news + {} == news;
    }
  }

  lemma CountedPartly(s: State, i: nat)
    requires Counted(s) && i < |s.ctxs|
    ensures Partly(s.g, s.ctxs[i], Without(s.ctxs, i), {})
  {
    hide Tally;
    var es := s.g.entries;
    forall m | 0 <= m < |es| && es[m].timestamp > 0 ensures Counts(es[m], s.ctxs[i], Without(s.ctxs, i), {}) {
      TallyRemove(s.ctxs, i, Over(Borrower(es[m].key)));
    }
  }

  /** A free keeps the counters right if and only if no key that came in with it and is
      live when it returns has a borrowed copy in another context. */
  lemma FreeCounted(s: State, op: Op)
    requires Shape(s.g) && Counted(s) && Enabled(s, op) && op.Free?
    ensures Counted(Step(s, op)) <==> TidyStep(s, op)
  {
    hide Shape, Borrows, Tally, ReleasedAll, Incoming, First;
    var list, others, t := s.ctxs[op.ctx], Without(s.ctxs, op.ctx), Step(s, op);
    var news := Incoming(s.g, list, op.clocks);
    CountedPartly(s, op.ctx);
    FreePartly(s.g, list, op.clocks, others, {});
    assert {} + news == news;
    var es := t.g.entries;
    forall i | 0 <= i < |es| && es[i].timestamp > 0
      ensures es[i].use == if es[i].key in news then 0 else Borrows(others, es[i].key)
    {
      assert Counts(es[i], [], others, news);
      TallyEmpty(Borrower(es[i].key));
    }
    if Counted(t) {
      forall k: Key ensures !Stale(s, op, k) {
        var m := First(es, k, true, 0);
        assert m < |es| ==> Matches(es[m], k, true);
      }
    } else {
      var m :| 0 <= m < |es| && es[m].timestamp > 0 && es[m].use != Borrows(others, es[m].key);
      FoundLive(es, m);
      assert Stale(s, op, es[m].key);
    }
  }

  lemma FoundLive(es: seq<Entry>, m: nat)
    requires m < |es| && es[m].timestamp > 0
    ensures HasLive(es, es[m].key)
  {
    assert Matches(es[m], es[m].key, true);
  }

  /** Rewriting the counter of the live entry of a key, as its borrowed copies
      change. */
  lemma RecountEntry(s: State, after: seq<seq<Entry>>, i: nat, e: Entry)
    requires Counted(s) && Shape(s.g) && i < |s.g.entries| && s.g.entries[i].timestamp > 0
    requires e.key == s.g.entries[i].key && e.use == Borrows(after, e.key)
    requires forall k: Key :: k != e.key ==> Borrows(after, k) == Borrows(s.ctxs, k)
    ensures Counted(State(after, s.g.(entries := s.g.entries[i := e])))
  {
    hide Borrows, LiveCount;
    var es := s.g.entries;
    assert LiveCount(es, e.key) <= 1;
    forall m | 0 <= m < |es| && m != i && es[m].timestamp > 0 ensures es[m].key != e.key {
      if es[m].key == e.key {
        LiveUnique(es, i, m, e.key);
      }
    }
  }

  lemma GetCounted(s: State, op: Op)
    requires Shape(s.g) && Counted(s) && Enabled(s, op) && op.Get?
    ensures Counted(Step(s, op))
  {
    hide Tally, Borrows, Sum;
    var es, after := s.g.entries, Step(s, op).ctxs;
    forall k: Key ensures Borrows(after, k) == Borrows(s.ctxs, k) + Gains(s, op, k) {
      BorrowsStep(s, op, k);
    }
    if Gains(s, op, op.key) == 1 {
      var j := First(es, op.key, true, 0);
      RecountEntry(s, after, j, es[j].(use := es[j].use + 1));
    }
  }

  lemma SameBorrows(s: State, after: seq<seq<Entry>>)
    requires Counted(s) && forall k: Key :: Borrows(after, k) == Borrows(s.ctxs, k)
    ensures Counted(State(after, s.g))
  {
    hide Borrows;
  }

  lemma InvalidateCounted(s: State, key: Key)
    requires Counted(s)
    ensures Counted(Step(s, Invalidate(key)))
  {
    hide Borrows;
  }

  /** One call keeps every counter right if and only if it is tidy; only a free can fail
      to be, and invalidations never disturb the counting. */
  lemma StepCounted(s: State, op: Op)
    requires Shape(s.g) && Counted(s) && Enabled(s, op)
    ensures Counted(Step(s, op)) <==> TidyStep(s, op)
  {
    hide Shape, Borrows, Counted;
    match op
    case Get(_, _, _) => GetCounted(s, op);
    case Free(_, _) => FreeCounted(s, op);
    case Cleanup(now, extra) => CleanedCounted(s, now, extra);
    case Invalidate(key) => InvalidateCounted(s, key);
    case _ =>
      forall k: Key ensures Borrows(Step(s, op).ctxs, k) == Borrows(s.ctxs, k) {
        BorrowsStep(s, op, k);
      }
      SameBorrows(s, Step(s, op).ctxs);
  }

  /** The counting is right after every call of the run. */
  ghost predicate AlwaysCounted(run: seq<Op>)
    requires Legal(run)
  {
    Counted(Run(run)) && (|run| == 0 || AlwaysCounted(run[..|run| - 1]))
  }

  /** Every live entry's counter is the number of borrowed copies of its key, in
      every state between the calls of a run, if and only if the run is tidy. */
  lemma {:induction false} CountedIffTidy(run: seq<Op>)
    requires Legal(run)
    ensures AlwaysCounted(run) <==> Tidy(run)
  {
    hide Step, Enabled, Counted, TidyStep;
    if |run| > 0 {
      var init := run[..|run| - 1];
      CountedIffTidy(init);
      RunShape(init);
      if AlwaysCounted(init) {
        AlwaysLast(init);
        StepCounted(Run(init), run[|run| - 1]);
      }
    } else {
      InitCounted();
    }
  }

  lemma AlwaysLast(run: seq<Op>)
    requires Legal(run) && AlwaysCounted(run)
    ensures Counted(Run(run))
  {}

  lemma InitCounted()
    ensures Counted(Init()) && AllKept(Init()) && LiveBacked(Init())
  {
    forall k: Key ensures Borrows(Init().ctxs, k) == 0 {}
  }

  // ------------------------------------------------------------ no dangling value

  lemma KeptIn(es: seq<Entry>, fs: seq<Entry>, l: Entry)
    requires Kept(es, l) && forall e :: e in es && e.use > 0 ==> e in fs
    ensures Kept(fs, l)
  {
    var i :| 0 <= i < |es| && es[i].use > 0 && Shares(es[i], l);
    assert es[i] in fs;
  }

  lemma KeptUpdate(es: seq<Entry>, j: nat, e: Entry, l: Entry)
    requires Kept(es, l) && j < |es| && Shares(e, es[j]) && (l.key == e.key && es[j].use > 0 ==> e.use > 0)
    ensures Kept(es[j := e], l)
  {
    var i :| 0 <= i < |es| && es[i].use > 0 && Shares(es[i], l);
    assert es[j := e][i].use > 0;
  }

  lemma AddedKeeps(g: Global, e: Entry, t: Clock)
    ensures forall x :: x in g.entries && x.use > 0 ==> x in Added(g, e, t).entries
  {
    hide Compact;
    CompactKeeps(g.entries, t.cleanup, MaxSize(e.size));
  }

  lemma GetKept(s: State, op: Op)
    requires AllKept(s) && Enabled(s, op) && op.Get?
    ensures AllKept(Step(s, op))
  {
    hide Kept;
    var i, es, after := op.ctx, s.g.entries, Step(s, op).ctxs;
    if Gains(s, op, op.key) == 1 {
      var j := First(es, op.key, true, 0);
      var e := es[j].(use := es[j].use + 1);
      assert after[i][0] == es[j].(timestamp := 0, fromGlobal := true) && after[i][1..] == s.ctxs[i];
      KeptSelf(es[j := e], j, after[i][0]);
      forall m, q | 0 <= m < |after| && 0 <= q < |after[m]| && after[m][q].fromGlobal ensures Kept(es[j := e], after[m][q]) {
        if m != i {
          KeptUpdate(es, j, e, s.ctxs[m][q]);
        } else if q > 0 {
          assert after[i][q] == s.ctxs[i][q - 1];
          KeptUpdate(es, j, e, s.ctxs[i][q - 1]);
        }
      }
    } else {
      assert after == s.ctxs;
    }
  }

  lemma KeptSelf(es: seq<Entry>, j: nat, l: Entry)
    requires j < |es| && es[j].use > 0 && Shares(es[j], l)
    ensures Kept(es, l)
  {}

  /** One pass of the freeing loop keeps what the other contexts have borrowed. */
  lemma ReleasedKept(g: Global, list: seq<Entry>, t: Clock, others: seq<seq<Entry>>, news: set<Key>)
    requires Partly(g, list, others, news) && list != [] && AllKept(State(others, g))
    ensures AllKept(State(others, Released(g, list[0], t)))
  {
    hide Kept, Tally, Borrows, Added;
    var es, l, fs := g.entries, list[0], Released(g, list[0], t).entries;
    var j := First(es, l.key, true, 0);
    AddedKeeps(g, l, t);
    HeadFirst(list, Borrower(l.key));
    forall m, q | 0 <= m < |others| && 0 <= q < |others[m]| && others[m][q].fromGlobal ensures Kept(fs, others[m][q]) {
      if l.fromGlobal && j < |es| && es[j].use > 0 {
        if others[m][q].key == l.key { BorrowedOf(others, m, q); }
        assert Counts(es[j], list, others, news);
        KeptUpdate(es, j, es[j].(use := es[j].use - 1), others[m][q]);
      } else {
        KeptIn(es, fs, others[m][q]);
      }
    }
  }

  lemma {:induction false} FreeKept(g: Global, list: seq<Entry>, clocks: seq<Clock>, others: seq<seq<Entry>>, news: set<Key>)
    requires Shape(g) && |clocks| == |list| && Partly(g, list, others, news) && AllKept(State(others, g))
    ensures AllKept(State(others, ReleasedAll(g, list, clocks)))
    decreases |list|
  {
    hide Shape, Partly, Released, MovesIn, AllKept;
    if |list| > 0 {
      var l, t := list[0], clocks[0];
      ReleasedShape(g, l, t);
      ReleasedPartly(g, list, t, others, news);
      ReleasedKept(g, list, t, others, news);
      FreeKept(Released(g, l, t), list[1..], clocks[1..], others, News(g, l, t, news));
    }
  }

  lemma BorrowedOf(ctxs: seq<seq<Entry>>, i: nat, j: nat)
    requires i < |ctxs| && j < |ctxs[i]| && ctxs[i][j].fromGlobal
    ensures Borrows(ctxs, ctxs[i][j].key) > 0
  {
    hide Tally;
    TotalAllAt(ctxs, i, j, Borrower(ctxs[i][j].key));
  }

  /** Where the counters are right, no call drops an entry whose value is borrowed, not
      even a free that is not tidy: an invalidated entry in use is never dropped, and an
      entry that came in is not the one that is borrowed. */
  lemma StepKept(s: State, op: Op)
    requires Shape(s.g) && Counted(s) && AllKept(s) && Enabled(s, op)
    ensures AllKept(Step(s, op))
  {
    hide Kept, Shape, Counted, Compact, ReleasedAll;
    var es, fs := s.g.entries, Step(s, op).g.entries;
    var after: seq<seq<Entry>> := Step(s, op).ctxs;
    match op
    case Get(_, _, _) => GetKept(s, op);
    case Free(i, clocks) =>
      assert forall m :: 0 <= m < |after| ==> after[m] == s.ctxs[if m < i then m else m + 1];
      CountedPartly(s, i);
      FreeKept(s.g, s.ctxs[i], clocks, after, {});
    case Cleanup(now, extra) =>
      CompactKeeps(es, now, MaxSize(extra));
      forall m, q | 0 <= m < |after| && 0 <= q < |after[m]| && after[m][q].fromGlobal ensures Kept(fs, after[m][q]) {
        KeptIn(es, fs, after[m][q]);
      }
    case Invalidate(key) =>
      var j := First(es, key, true, 0);
      if j < |es| {
        forall m, q | 0 <= m < |after| && 0 <= q < |after[m]| && after[m][q].fromGlobal ensures Kept(fs, after[m][q]) {
          KeptUpdate(es, j, es[j].(timestamp := 0), after[m][q]);
        }
      }
    case Set(i, _, _, _, _, _) =>
      assert after[i][1..] == s.ctxs[i];
    case Create =>
  }

  /** Every call but the last is tidy. */
  ghost predicate TidyBefore(run: seq<Op>)
    requires Legal(run)
  {
    |run| > 0 ==> Tidy(run[..|run| - 1])
  }

  lemma {:induction false} TidyKept(run: seq<Op>)
    requires Legal(run) && TidyBefore(run)
    ensures AllKept(Run(run)) && (Tidy(run) ==> Counted(Run(run)))
  {
    hide Step, Enabled, Counted, AllKept, TidyStep;
    CountedIffTidy(run);
    if |run| > 0 {
      var init := run[..|run| - 1];
      TidyPrefix(init);
      TidyKept(init);
      RunShape(init);
      StepKept(Run(init), run[|run| - 1]);
    } else {
      InitCounted();
    }
  }

  lemma TidyPrefix(run: seq<Op>)
    requires Legal(run) && Tidy(run)
    ensures TidyBefore(run)
  {}

  /** Some context holds a value that has been freed. */
  ghost predicate Dangles(s: State, v: nat) {
    Freed(s.g.freed, v) > 0 && exists i, j :: 0 <= i < |s.ctxs| && 0 <= j < |s.ctxs[i]| && Managed(s.ctxs[i][j]) && s.ctxs[i][j].value == v
  }

  /** As long as every call but the last is tidy no context holds a value that has been
      freed, if the value was handed over once. */
  lemma NothingDangles(run: seq<Op>, v: nat)
    requires Legal(run) && TidyBefore(run) && GivenAll(run, v) <= 1
    ensures !Dangles(Run(run), v)
  {
    hide TidyBefore, Run, GivenAll, Tally, Counted, Legal, Freed;
    var s := Run(run);
    TidyKept(run);
    RunConserves(run, v);
    forall i, j | 0 <= i < |s.ctxs| && 0 <= j < |s.ctxs[i]| && Managed(s.ctxs[i][j]) && s.ctxs[i][j].value == v
      ensures Freed(s.g.freed, v) == 0
    {
      var l := s.ctxs[i][j];
      if l.fromGlobal {
        var m :| 0 <= m < |s.g.entries| && s.g.entries[m].use > 0 && Shares(s.g.entries[m], l);
        TallyAt(s.g.entries, m, Holder(v));
      } else {
        TotalAllAt(s.ctxs, i, j, Owner(v));
      }
    }
  }

  // -------------------------------------------- invalidating only what is not borrowed

  lemma LiveStays(es: seq<Entry>, fs: seq<Entry>, k: Key)
    requires HasLive(es, k) && (forall e :: e in es && Matches(e, k, true) ==> e in fs)
    ensures HasLive(fs, k)
  {
    var m := First(es, k, true, 0);
    assert es[m] in fs;
  }

  lemma LiveUpdated(es: seq<Entry>, j: nat, e: Entry, k: Key)
    requires HasLive(es, k) && j < |es| && e.key == es[j].key && (e.key == k && es[j].timestamp > 0 ==> e.timestamp > 0)
    ensures HasLive(es[j := e], k)
  {
    var m := First(es, k, true, 0);
    assert Matches(es[j := e][m], k, true);
  }

  /** No key that came in is borrowed elsewhere. */
  ghost predicate Unclaimed(news: set<Key>, others: seq<seq<Entry>>) { forall k :: k in news ==> Borrows(others, k) == 0 }

  lemma ReleasedBacked(g: Global, list: seq<Entry>, t: Clock, others: seq<seq<Entry>>, news: set<Key>)
    requires Partly(g, list, others, news) && list != [] && LiveBacked(State(others, g)) && Unclaimed(news, others)
    ensures LiveBacked(State(others, Released(g, list[0], t))) && Unclaimed(News(g, list[0], t, news), others)
  {
    hide Tally, Borrows, Added;
    var es, l, fs := g.entries, list[0], Released(g, list[0], t).entries;
    var j := First(es, l.key, true, 0);
    AddedKeeps(g, l, t);
    forall k: Key | Borrows(others, k) > 0 ensures HasLive(fs, k) {
      if l.fromGlobal && j < |es| && es[j].use > 0 {
        LiveUpdated(es, j, es[j].(use := es[j].use - 1), k);
      } else if l.timestamp > 0 && !l.fromGlobal && j == |es| {
        forall e | e in es && Matches(e, k, true) ensures e in fs {
          var i :| 0 <= i < |es| && es[i] == e;
          assert Counts(es[i], list, others, news);
        }
        LiveStays(es, fs, k);
      }
    }
  }

  lemma {:induction false} FreeBacked(g: Global, list: seq<Entry>, clocks: seq<Clock>, others: seq<seq<Entry>>, news: set<Key>)
    requires Shape(g) && |clocks| == |list| && Partly(g, list, others, news) && LiveBacked(State(others, g)) && Unclaimed(news, others)
    ensures LiveBacked(State(others, ReleasedAll(g, list, clocks))) && Unclaimed(Incoming(g, list, clocks), others)
    decreases |list|
  {
    hide Shape, Partly, Released, MovesIn, LiveBacked;
    if |list| > 0 {
      var l, t := list[0], clocks[0];
      ReleasedShape(g, l, t);
      ReleasedPartly(g, list, t, others, news);
      ReleasedBacked(g, list, t, others, news);
      FreeBacked(Released(g, l, t), list[1..], clocks[1..], others, News(g, l, t, news));
    }
  }

  /** Freeing a context where every borrowed key is live brings in no borrowed key. */
  lemma FreeStaysBacked(s: State, op: Op)
    requires Shape(s.g) && Counted(s) && LiveBacked(s) && Enabled(s, op) && op.Free?
    ensures TidyStep(s, op) && LiveBacked(Step(s, op))
  {
    hide Shape, Tally, Counted, ReleasedAll, Incoming;
    var others := Without(s.ctxs, op.ctx);
    CountedPartly(s, op.ctx);
    forall k: Key | Borrows(others, k) > 0 ensures HasLive(s.g.entries, k) {
      TallyRemove(s.ctxs, op.ctx, Over(Borrower(k)));
    }
    FreeBacked(s.g, s.ctxs[op.ctx], op.clocks, others, {});
  }

  /** From a state whose borrowed keys are live, a call keeps them live if and only
      if it does not invalidate a borrowed key, and it is tidy in any case. */
  lemma StepBacked(s: State, op: Op)
    requires Shape(s.g) && Counted(s) && LiveBacked(s) && Enabled(s, op)
    ensures TidyStep(s, op)
    ensures LiveBacked(Step(s, op)) <==> CarefulStep(s, op)
  {
    hide Borrows, Tally, Sum, Compact, ReleasedAll, First;
    if op.Free? {
      FreeStaysBacked(s, op);
      return;
    }
    var es, fs, after := s.g.entries, Step(s, op).g.entries, Step(s, op).ctxs;
    forall k: Key | Borrows(after, k) > 0 && CarefulStep(s, op) ensures HasLive(fs, k) {
      BorrowsStep(s, op, k);
      BackedStep(s, op, k);
    }
    if op.Invalidate? && Borrows(s.ctxs, op.key) > 0 {
      var j := First(es, op.key, true, 0);
      assert LiveCount(es, op.key) <= 1;
      NoneLive(es, j, op.key);
      assert !HasLive(fs, op.key);
    }
  }

  lemma BackedStep(s: State, op: Op, k: Key)
    requires Counted(s) && LiveBacked(s) && Enabled(s, op) && CarefulStep(s, op) && !op.Free?
    requires Borrows(s.ctxs, k) > 0 || Gains(s, op, k) > 0
    ensures HasLive(Step(s, op).g.entries, k)
  {
    hide Borrows, Tally, Compact;
    var es, fs := s.g.entries, Step(s, op).g.entries;
    assert HasLive(es, k);
    match op
    case Get(_, key, _) =>
      var j := First(es, key, true, 0);
      if j < |es| { LiveUpdated(es, j, es[j].(use := es[j].use + 1), k); }
    case Cleanup(now, extra) =>
      CompactKeeps(es, now, MaxSize(extra));
      LiveStays(es, fs, k);
    case Invalidate(key) =>
      var j := First(es, key, true, 0);
      if j < |es| { LiveUpdated(es, j, es[j].(timestamp := 0), k); }
    case _ =>
  }

  lemma NoneLive(es: seq<Entry>, j: nat, key: Key)
    requires j < |es| && Matches(es[j], key, true) && LiveCount(es, key) <= 1
    ensures forall m :: 0 <= m < |es| && m != j ==> !Matches(es[m], key, true)
  {
    forall m | 0 <= m < |es| && m != j ensures !Matches(es[m], key, true) {
      if Matches(es[m], key, true) {
        LiveUnique(es, j, m, key);
      }
    }
  }

  /** A run that never invalidates a borrowed key is tidy. */
  lemma {:induction false} CarefulIsTidy(run: seq<Op>)
    requires Legal(run) && Careful(run)
    ensures Tidy(run) && LiveBacked(Run(run))
  {
    hide Step, Enabled, Counted, LiveBacked, TidyStep, CarefulStep, AllKept;
    if |run| > 0 {
      var init := run[..|run| - 1];
      CarefulIsTidy(init);
      RunShape(init);
      TidyPrefix(init);
      TidyKept(init);
      StepBacked(Run(init), run[|run| - 1]);
    } else {
      InitCounted();
    }
  }

  /** A lookup answers with the value of an entry that is then in the list. */
  lemma GotHolds(list: seq<Entry>, g: Global, key: Key, worker: bool)
    ensures var r := Got(list, g, key, worker);
            r.2 != 0 ==> exists j :: 0 <= j < |r.0| && r.0[j].key == key && r.0[j].value == r.2
  {
    var r := Got(list, g, key, worker);
    if r.2 != 0 {
      var i := First(list, key, false, 0);
      var j := if i < |list| then i else 0;
      assert r.0[j].value == r.2;
    }
  }

  /** Freeing a context is tidy if no other context has borrowed a key that it would
      bring in; so it may invalidate and replace what only itself has borrowed. */
  lemma OwnCopiesTidy(s: State, op: Op)
    requires Enabled(s, op) && op.Free?
    requires forall j :: 0 <= j < |s.ctxs[op.ctx]| ==> Borrows(Without(s.ctxs, op.ctx), s.ctxs[op.ctx][j].key) == 0
    ensures TidyStep(s, op)
  {
    hide Tally, ReleasedAll;
    IncomingKeys(s.g, s.ctxs[op.ctx], op.clocks);
  }

  lemma {:induction false} IncomingKeys(g: Global, list: seq<Entry>, clocks: seq<Clock>)
    requires |clocks| == |list|
    ensures forall k :: k in Incoming(g, list, clocks) ==> exists j :: 0 <= j < |list| && list[j].key == k
    decreases |list|
  {
    if |list| > 0 {
      var h, rest, later := Released(g, list[0], clocks[0]), list[1..], clocks[1..];
      IncomingKeys(h, rest, later);
      forall k | k in Incoming(g, list, clocks) ensures exists j :: 0 <= j < |list| && list[j].key == k {
        if k != list[0].key {
          assert k in Incoming(h, rest, later);
          var j :| 0 <= j < |rest| && rest[j].key == k;
          assert list[j + 1].key == k;
        }
      }
    }
  }

  // ------------------------------------------------------ how large counters get

  /** No context borrows a key twice. */
  ghost predicate BorrowsOnce(ctxs: seq<seq<Entry>>) {
    forall i, k: Key :: 0 <= i < |ctxs| ==> Tally(ctxs[i], Borrower(k)) <= 1
  }

  lemma StepBorrowsOnce(s: State, op: Op)
    requires BorrowsOnce(s.ctxs) && Enabled(s, op)
    ensures BorrowsOnce(Step(s, op).ctxs)
  {
    hide ReleasedAll, Cleaned, Invalidated, First, Tally;
    var after := Step(s, op).ctxs;
    forall i, k: Key | 0 <= i < |after| ensures Tally(after[i], Borrower(k)) <= 1 {
      TallyEmpty(Borrower(k));
      if op.Free? {
        assert after[i] == s.ctxs[if i < op.ctx then i else i + 1];
      } else if op.Set? && i == op.ctx {
        TallyFront(after[i][0], s.ctxs[i], Borrower(k));
      } else if op.Get? && i == op.ctx && after[i] != s.ctxs[i] {
        TallyFront(after[i][0], s.ctxs[i], Borrower(k));
        TallyZero(s.ctxs[i], Borrower(op.key));
      }
    }
  }

  lemma OnceBound(ctxs: seq<seq<Entry>>, key: Key)
    requires BorrowsOnce(ctxs)
    ensures Borrows(ctxs, key) <= |ctxs|
  {
    TallyBound(ctxs, Over(Borrower(key)));
  }

  /** In every run a key has at most one borrowed copy per context. */
  lemma {:induction false} RunBorrowsBounded(run: seq<Op>, key: Key)
    requires Legal(run)
    ensures BorrowsOnce(Run(run).ctxs) && Borrows(Run(run).ctxs, key) <= |Run(run).ctxs|
  {
    hide Step, Enabled, BorrowsOnce, Borrows;
    if |run| > 0 {
      RunBorrowsBounded(run[..|run| - 1], key);
      StepBorrowsOnce(Run(run[..|run| - 1]), run[|run| - 1]);
    } else {
      NoContexts();
    }
    OnceBound(Run(run).ctxs, key);
  }

  lemma NoContexts()
    ensures BorrowsOnce(Init().ctxs)
  {}

  /** So in a tidy run the counter of a live entry never passes the number of
      contexts. */
  lemma CountersBounded(run: seq<Op>, i: nat)
    requires Legal(run) && Tidy(run) && i < |Run(run).g.entries| && Run(run).g.entries[i].timestamp > 0
    ensures Run(run).g.entries[i].use <= |Run(run).ctxs|
  {
    hide Run, Tidy, Borrows, AllKept;
    TidyPrefix(run);
    TidyKept(run);
    RunBorrowsBounded(run, Run(run).g.entries[i].key);
  }

  // ----------------------------------------------------------------------- clocks

  /** The readings of a free, in the order they are taken. */
  predicate Ordered(from: uint64, clocks: seq<Clock>)
    decreases |clocks|
  {
    |clocks| == 0 || (from <= clocks[0].cleanup <= clocks[0].expiry && Ordered(clocks[0].expiry, clocks[1..]))
  }

  predicate OnTime(from: uint64, op: Op) {
    match op
    case Free(_, clocks) => Ordered(from, clocks)
    case Cleanup(now, _) => from <= now
    case _ => true
  }

  function Reading(from: uint64, op: Op): uint64 {
    match op
    case Free(_, clocks) => if clocks == [] then from else clocks[|clocks| - 1].expiry
    case Cleanup(now, _) => now
    case _ => from
  }

  /** The last clock reading of a run. */
  function Latest(run: seq<Op>): uint64 {
    if |run| == 0 then 0 else Reading(Latest(run[..|run| - 1]), run[|run| - 1])
  }

  /** The clock never runs backwards in the run. */
  predicate Forward(run: seq<Op>) {
    |run| == 0 || (Forward(run[..|run| - 1]) && OnTime(Latest(run[..|run| - 1]), run[|run| - 1]))
  }

  lemma ForwardPush(run: seq<Op>, op: Op)
    requires Forward(run) && OnTime(Latest(run), op)
    ensures Forward(run + [op]) && Latest(run + [op]) == Reading(Latest(run), op)
  {
    assert (run + [op])[..|run|] == run;
  }

  function Standing(t: uint64, n: nat): seq<Clock> { seq(n, _ => Clock(t, t)) }

  lemma {:induction false} StandingOrdered(t: uint64, n: nat)
    ensures Ordered(t, Standing(t, n))
  {
    if n > 0 {
      StandingOrdered(t, n - 1);
      assert Standing(t, n)[1..] == Standing(t, n - 1);
    }
  }

  // ------------------------------------------------------ after a free that is not tidy

  /** Entry e is in the array, live, with counter u. */
  ghost predicate Present(g: Global, e: Entry, u: nat) { Shape(g) && e.timestamp > 0 && e.(use := u) in g.entries }

  /** The live entry of the key is that one. */
  lemma PresentFirst(g: Global, e: Entry, u: nat)
    requires Present(g, e, u)
    ensures var m := First(g.entries, e.key, true, 0); m < |g.entries| && g.entries[m] == e.(use := u)
  {
    hide LiveCount;
    var es := g.entries;
    var x :| 0 <= x < |es| && es[x] == e.(use := u);
    assert Matches(es[x], e.key, true);
    assert LiveCount(es, e.key) <= 1;
    LiveUnique(es, x, First(es, e.key, true, 0), e.key);
  }

  /** Freeing an entry that is not a copy of the key keeps the entry and its counter. */
  lemma ReleaseOther(g: Global, e: Entry, l: Entry, t: Clock)
    requires Present(g, e, 1) && Borrower(e.key)(l) == 0
    ensures Present(Released(g, l, t), e, 1)
  {
    hide Shape, Added;
    var es := g.entries;
    ReleasedShape(g, l, t);
    PresentFirst(g, e, 1);
    AddedKeeps(g, l, t);
    var j := First(es, l.key, true, 0);
    var x :| 0 <= x < |es| && es[x] == e.(use := 1);
    if l.fromGlobal && j < |es| && es[j].use > 0 {
      assert es[j].key == l.key != e.key;
      assert es[j := es[j].(use := es[j].use - 1)][x] == es[x];
    }
  }

  /** Freeing a copy of the key takes the counter down, whoever it came from. */
  lemma ReleaseStale(g: Global, e: Entry, l: Entry, t: Clock)
    requires Present(g, e, 1) && Borrower(e.key)(l) == 1
    ensures Present(Released(g, l, t), e, 0)
  {
    hide Shape, Added;
    ReleasedShape(g, l, t);
    PresentFirst(g, e, 1);
    var m := First(g.entries, e.key, true, 0);
    assert Released(g, l, t).entries[m] == e.(use := 0);
  }

  /** The entry is in the array unused, or its value has been freed. */
  ghost predicate Doomed(g: Global, e: Entry) { e.(use := 0) in g.entries || Freed(g.freed, e.value) > 0 }

  lemma {:induction false} CompactOrFreed(es: seq<Entry>, x: Entry, now: nat, max: nat)
    requires x in es && Managed(x)
    ensures x in Compact(es, now, max) || Freed(Dropped(es, now, max), x.value) > 0
  {
    var n := |es| - 1;
    assert es == es[..n] + [es[n]];
    FreedPush(Dropped(es[..n], now, max), es[n], x.value);
    if x in es[..n] { CompactOrFreed(es[..n], x, now, max); }
  }

  lemma CleanedDoomed(g: Global, e: Entry, now: nat, extra: nat)
    requires Managed(e) && Doomed(g, e)
    ensures Doomed(Cleaned(g, now, extra), e)
  {
    hide Compact, Dropped, Freed;
    FreedJoin(g.freed, Dropped(g.entries, now, MaxSize(extra)), e.value);
    if e.(use := 0) in g.entries {
      CompactOrFreed(g.entries, e.(use := 0), now, MaxSize(extra));
    }
  }

  lemma ReleasedDoomed(g: Global, e: Entry, l: Entry, t: Clock)
    requires Managed(e) && Doomed(g, e)
    ensures Doomed(Released(g, l, t), e)
  {
    hide Cleaned, Freed;
    var es := g.entries;
    CleanedDoomed(g, e, t.cleanup, l.size);
    FreedJoin(g.freed, FreeOf(l), e.value);
    var j := First(es, l.key, true, 0);
    if e.(use := 0) in es && j < |es| && es[j].use > 0 {
      var x :| 0 <= x < |es| && es[x] == e.(use := 0);
      assert es[j := es[j].(use := es[j].use - 1)][x] == es[x];
    }
  }

  lemma {:induction false} FreeDoomed(g: Global, e: Entry, list: seq<Entry>, clocks: seq<Clock>)
    requires Managed(e) && Doomed(g, e) && |clocks| == |list|
    ensures Doomed(ReleasedAll(g, list, clocks), e)
    decreases |list|
  {
    hide Doomed, Released;
    if |list| > 0 {
      ReleasedDoomed(g, e, list[0], clocks[0]);
      FreeDoomed(Released(g, list[0], clocks[0]), e, list[1..], clocks[1..]);
    }
  }

  /** Freeing a context with a copy of an earlier entry of the key: the borrow of the
      new one protects it until that copy is given back. */
  lemma {:induction false} FreeStale(g: Global, e: Entry, list: seq<Entry>, clocks: seq<Clock>)
    requires Managed(e) && Present(g, e, 1) && |clocks| == |list| && Tally(list, Borrower(e.key)) > 0
    ensures Doomed(ReleasedAll(g, list, clocks), e)
    decreases |list|
  {
    hide Shape, Released, Tally;
    TallyEmpty(Borrower(e.key));
    HeadFirst(list, Borrower(e.key));
    var h := Released(g, list[0], clocks[0]);
    if Borrower(e.key)(list[0]) == 1 {
      ReleaseStale(g, e, list[0], clocks[0]);
      FreeDoomed(h, e, list[1..], clocks[1..]);
    } else {
      ReleaseOther(g, e, list[0], clocks[0]);
      FreeStale(h, e, list[1..], clocks[1..]);
    }
  }

  /** Live entries of these keys are unused. */
  ghost predicate Unused(es: seq<Entry>, news: set<Key>) {
    forall i :: 0 <= i < |es| && es[i].timestamp > 0 && es[i].key in news ==> es[i].use == 0
  }

  lemma ReleasedUnused(g: Global, l: Entry, t: Clock, news: set<Key>)
    requires Unused(g.entries, news)
    ensures Unused(Released(g, l, t).entries, News(g, l, t, news))
  {
    hide Cleaned;
    var es := g.entries;
    CleanedIn(g, t.cleanup, l.size);
    var fs := Released(g, l, t).entries;
    var h := if l.size + g.size > LIMIT then Cleaned(g, t.cleanup, l.size) else g;
    forall i | 0 <= i < |fs| && fs[i].timestamp > 0 && fs[i].key in News(g, l, t, news) ensures fs[i].use == 0 {
      if l.timestamp > 0 && !l.fromGlobal && !HasLive(es, l.key) {
        if i < |h.entries| {
          assert fs[i] == h.entries[i] && fs[i] in es;
          assert !Matches(fs[i], l.key, true);
        }
      }
    }
  }

  lemma {:induction false} FreeUnused(g: Global, list: seq<Entry>, clocks: seq<Clock>, news: set<Key>)
    requires |clocks| == |list| && Unused(g.entries, news)
    ensures Unused(ReleasedAll(g, list, clocks).entries, news + Incoming(g, list, clocks))
    decreases |list|
  {
    hide Unused, Released, MovesIn;
    if |list| > 0 {
      var l, t := list[0], clocks[0];
      ReleasedUnused(g, l, t, news);
      FreeUnused(Released(g, l, t), list[1..], clocks[1..], News(g, l, t, news));
      assert News(g, l, t, news) + Incoming(Released(g, l, t), list[1..], clocks[1..]) == news + Incoming(g, list, clocks);
    } else {
      assert news + {} == news;
    }
  }

  /** Only insertions hand values over. */
  lemma {:induction false} NothingGiven(ops: seq<Op>, v: nat)
    requires forall i :: 0 <= i < |ops| ==> !ops[i].Set?
    ensures GivenAll(ops, v) == 0
  {
    if |ops| > 0 { NothingGiven(ops[..|ops| - 1], v); }
  }

  /** An entry that is not in use and expired or too large is freed by a cleanup. */
  lemma {:induction false} DroppedFrees(es: seq<Entry>, i: nat, now: nat, max: nat, v: nat)
    requires i < |es| && es[i].use == 0 && (es[i].timestamp < now || es[i].size > max) && Owns(es[i], v) == 1
    ensures Freed(Dropped(es, now, max), v) >= 1
  {
    var n := |es| - 1;
    FreedPush(Dropped(es[..n], now, max), es[n], v);
    if i < n { DroppedFrees(es[..n], i, now, max, v); }
  }

  lemma {:induction false} GivenJoin(a: seq<Op>, b: seq<Op>, v: nat)
    ensures GivenAll(a + b, v) == GivenAll(a, v) + GivenAll(b, v)
    decreases |b|
  {
    if b == [] {
      assert a + b == a;
    } else {
      var n := |b| - 1;
      GivenJoin(a, b[..n], v);
      assert (a + b)[..|a + b| - 1] == a + b[..n];
    }
  }

  lemma RunPush(run: seq<Op>, op: Op)
    requires Legal(run) && Enabled(Run(run), op)
    ensures Legal(run + [op]) && Run(run + [op]) == Step(Run(run), op)
  {
    assert (run + [op])[..|run|] == run;
  }

  /** A new context borrows the unused live entry of a key. */
  lemma BorrowNew(s: State, k: Key) returns (e: Entry, t: State)
    requires Shape(s.g) && HasLive(s.g.entries, k)
    requires s.g.entries[First(s.g.entries, k, true, 0)].use == 0
    ensures e == s.g.entries[First(s.g.entries, k, true, 0)]
    ensures var a, get := Step(s, Create), Get(|s.ctxs|, k, false); Enabled(a, get) && t == Step(a, get)
    ensures Present(t.g, e, 1) && t.ctxs == s.ctxs + [[e.(timestamp := 0, fromGlobal := true)]]
  {
    hide Shape;
    var m := First(s.g.entries, k, true, 0);
    e := s.g.entries[m];
    var a, get := Step(s, Create), Get(|s.ctxs|, k, false);
    t := Step(a, get);
    StepShape(a, get);
    assert t.g.entries[m] == e.(use := 1);
    assert [e.(timestamp := 0, fromGlobal := true)] + [] == [e.(timestamp := 0, fromGlobal := true)];
  }

  /** The entry can still be removed: it expires before the end of time or has a size. */
  predicate Removable(e: Entry) { e.timestamp < 0xFFFF_FFFF_FFFF_FFFF || e.size > 0 }

  /** A cleanup that removes the entry, not before from. */
  function Removal(e: Entry, from: uint64): Op {
    if e.timestamp == 0xFFFF_FFFF_FFFF_FFFF then Op.Cleanup(from, LIMIT)
    else Op.Cleanup(if from > e.timestamp then from else e.timestamp + 1, 0)
  }

  lemma RemovalFrees(g: Global, e: Entry, from: uint64)
    requires Managed(e) && Removable(e) && Doomed(g, e)
    ensures var op := Removal(e, from); op.Cleanup? && Freed(Cleaned(g, op.now, op.extra).freed, e.value) > 0
  {
    hide Compact, Dropped, Freed;
    var op, es := Removal(e, from), g.entries;
    var gone := Dropped(es, op.now, MaxSize(op.extra));
    FreedJoin(g.freed, gone, e.value);
    if e.(use := 0) in es {
      var x :| 0 <= x < |es| && es[x] == e.(use := 0);
      DroppedFrees(es, x, op.now, MaxSize(op.extra), e.value);
    }
  }

  lemma TotalAllWitness(ctxs: seq<seq<Entry>>, f: Entry -> nat) returns (i: nat, j: nat)
    requires TotalAll(ctxs, f) > 0
    ensures i < |ctxs| && j < |ctxs[i]| && f(ctxs[i][j]) > 0
  {
    i := TallyWitness(ctxs, Over(f));
    j := TallyWitness(ctxs[i], f);
  }

  lemma FreedJoin(a: seq<nat>, b: seq<nat>, v: nat)
    ensures Freed(a + b, v) == Freed(a, v) + Freed(b, v)
  {}

  /** A free that is not tidy leads into a dangling value: whole calls that hand over
      no values, with a clock that does not run backwards, end with a context that holds
      the value of the entry that came in after it was freed. */
  lemma UntidyDangles(run: seq<Op>, op: Op, k: Key) returns (more: seq<Op>, e: Entry)
    requires Legal(run) && Enabled(Run(run), op) && op.Free? && Stale(Run(run), op, k) && Forward(run + [op])
    requires var es := Step(Run(run), op).g.entries; var e := es[First(es, k, true, 0)]; Managed(e) && Removable(e)
    ensures var es := Step(Run(run), op).g.entries; e == es[First(es, k, true, 0)]
    ensures Legal(run + [op] + more) && Forward(run + [op] + more) && Dangles(Run(run + [op] + more), e.value)
    ensures forall v: nat :: GivenAll(run + [op] + more, v) == GivenAll(run, v)
  {
    hide Legal, Run, ReleasedAll, Incoming, Forward, Latest, GivenAll, Tally, Shape, First, Cleaned, Freed, Managed, Removable, Doomed, Stale;
    var base, s := run + [op], Step(Run(run), op);
    RunPush(run, op);
    RunShape(base);
    var i, j := StaleState(run, op, k);
    var t, n, now := s, |s.ctxs|, Latest(base);
    e, t := BorrowNew(s, k);
    var free, clean := Free(i, Standing(now, |s.ctxs[i]|)), Removal(e, now);
    RunPush(base, Create);
    RunPush(base + [Create], Get(n, k, false));
    RunPush(base + [Create] + [Get(n, k, false)], free);
    RunPush(base + [Create] + [Get(n, k, false)] + [free], clean);
    ForwardPush(base, Create);
    ForwardPush(base + [Create], Get(n, k, false));
    StandingOrdered(now, |s.ctxs[i]|);
    ForwardPush(base + [Create] + [Get(n, k, false)], free);
    ForwardPush(base + [Create] + [Get(n, k, false)] + [free], clean);
    FreeStale(t.g, e, s.ctxs[i], free.clocks);
    var u := Step(t, free);
    RemovalFrees(u.g, e, now);
    more := [Create, Get(n, k, false), free, clean];
    assert base + more == base + [Create] + [Get(n, k, false)] + [free] + [clean];
    assert u.ctxs[n - 1] == t.ctxs[n] == [e.(timestamp := 0, fromGlobal := true)];
    HeldFreed(Step(u, clean), n - 1, e);
    forall v: nat ensures GivenAll(base + more, v) == GivenAll(run, v) {
      NothingGiven(more, v);
      GivenJoin(base, more, v);
      GivenJoin(run, [op], v);
      NothingGiven([op], v);
    }
  }

  lemma HeldFreed(s: State, n: nat, e: Entry)
    requires n < |s.ctxs| && s.ctxs[n] == [e.(timestamp := 0, fromGlobal := true)] && Managed(e) && Freed(s.g.freed, e.value) > 0
    ensures Dangles(s, e.value)
  {
    assert Managed(s.ctxs[n][0]) && s.ctxs[n][0].value == e.value;
  }

  /** The state after the free: the entry that came in is unused, and context i holds a
      copy of its key at j. */
  lemma StaleState(run: seq<Op>, op: Op, k: Key) returns (i: nat, j: nat)
    requires Legal(run) && Enabled(Run(run), op) && op.Free? && Stale(Run(run), op, k)
    ensures var s := Step(Run(run), op);
            && HasLive(s.g.entries, k) && s.g.entries[First(s.g.entries, k, true, 0)].use == 0
            && i < |s.ctxs| && j < |s.ctxs[i]| && Borrower(k)(s.ctxs[i][j]) > 0 && Tally(s.ctxs[i], Borrower(k)) > 0
  {
    hide Tally, ReleasedAll, Incoming;
    var p, s := Run(run), Step(Run(run), op);
    FreeUnused(p.g, p.ctxs[op.ctx], op.clocks, {});
    i, j := TotalAllWitness(s.ctxs, Borrower(k));
    TallyAt(s.ctxs[i], j, Borrower(k));
    var m := First(s.g.entries, k, true, 0);
    assert s.g.entries[m].key == k && k in {} + Incoming(p.g, p.ctxs[op.ctx], op.clocks);
  }

  // -------------------------------------------------------------- a run that dangles

  /** The states a run passes through. */
  predicate Trace(run: seq<Op>, states: seq<State>) {
    && |states| == |run| + 1 && states[0] == Init()
    && forall i :: 0 <= i < |run| ==> Goes(states[i], run[i], states[i + 1])
  }

  predicate Goes(s: State, op: Op, t: State) { Enabled(s, op) && Step(s, op) == t }

  lemma {:induction false} TraceRun(run: seq<Op>, states: seq<State>)
    requires Trace(run, states)
    ensures Legal(run) && Run(run) == states[|run|]
  {
    hide Step, Enabled;
    var n := |run| - 1;
    if |run| > 0 {
      TraceRun(run[..n], states[..n + 1]);
      assert Goes(states[n], run[n], states[n + 1]);
    }
  }

  function Sample(value: nat, timestamp: uint64, use: nat, borrowed: bool): Entry {
    Entry([], value, 1, timestamp, true, use, borrowed)
  }

  /** Value 1 is cached, borrowed and its key invalidated; another context caches
      value 2 under the same key, and a third borrows it; then the first borrow is given
      back to the wrong entry, which a cleanup removes. */
  function StaleRun(): seq<Op> {
    [Create, Set(0, [], 1, 1, 1, true), Free(0, [Clock(0, 1)]), Create, Get(0, [], false), Invalidate([]),
     Create, Set(1, [], 2, 1, 1, true), Free(1, [Clock(1, 2)]), Create, Get(1, [], false), Free(0, [Clock(2, 2)]),
     Op.Cleanup(4, 0)]
  }

  function StaleStates(): seq<State> {
    var l, first := Sample(1, 0, 0, true), Sample(1, 0, 1, false);
    var l2 := Sample(2, 0, 0, true);
    [Init(), State([[]], Global([], 0, [])), State([[Sample(1, 1, 0, false)]], Global([], 0, [])),
     State([], Global([Sample(1, 2, 0, false)], 1, [])), State([[]], Global([Sample(1, 2, 0, false)], 1, [])),
     State([[l]], Global([Sample(1, 2, 1, false)], 1, [])), State([[l]], Global([first], 1, [])),
     State([[l], []], Global([first], 1, [])), State([[l], [Sample(2, 1, 0, false)]], Global([first], 1, [])),
     State([[l]], Global([first, Sample(2, 3, 0, false)], 2, [])), State([[l], []], Global([first, Sample(2, 3, 0, false)], 2, [])),
     State([[l], [l2]], Global([first, Sample(2, 3, 1, false)], 2, [])), State([[l2]], Global([first, Sample(2, 3, 0, false)], 2, [])),
     State([[l2]], Global([first], 1, [2]))]
  }

  lemma OneFree(g: Global, e: Entry, t: Clock)
    ensures ReleasedAll(g, [e], [t]) == Released(g, e, t)
  {
    assert [e][1..] == [] && [t][1..] == [];
    assert ReleasedAll(Released(g, e, t), [], []) == Released(g, e, t);
  }

  lemma StaleStart(i: nat)
    requires i < 3
    ensures Goes(StaleStates()[i], StaleRun()[i], StaleStates()[i + 1])
  {
    hide Compact, Dropped, Tally, ReleasedAll;
    var none: seq<seq<Entry>> := [];
    match i {
      case 0 => assert none + [[]] == StaleStates()[1].ctxs;
      case 1 => assert [Sample(1, 1, 0, false)] + [] == [Sample(1, 1, 0, false)];
      case _ => OneFree(Global([], 0, []), Sample(1, 1, 0, false), Clock(0, 1));
    }
  }

  lemma StaleBorrow(i: nat)
    requires 3 <= i < 6
    ensures Goes(StaleStates()[i], StaleRun()[i], StaleStates()[i + 1])
  {
    hide Compact, Dropped, Tally, ReleasedAll;
    var l := Sample(1, 0, 0, true);
    var none: seq<seq<Entry>> := [];
    match i {
      case 3 => assert none + [[]] == StaleStates()[4].ctxs;
      case 4 => assert [l] + [] == [l];
      case _ =>
    }
  }

  lemma StaleMiddle(i: nat)
    requires 6 <= i < 10
    ensures Goes(StaleStates()[i], StaleRun()[i], StaleStates()[i + 1])
  {
    hide Compact, Dropped, Sum, ReleasedAll;
    var l, first := Sample(1, 0, 0, true), Sample(1, 0, 1, false);
    match i {
      case 6 => assert [[l]] + [[]] == [[l], []];
      case 7 => assert [Sample(2, 1, 0, false)] + [] == [Sample(2, 1, 0, false)];
      case 8 =>
        assert First([first], [], true, 0) == 1;
        OneFree(Global([first], 1, []), Sample(2, 1, 0, false), Clock(1, 2));
      case _ => assert [[l]] + [[]] == [[l], []];
    }
  }

  lemma StaleEnd(i: nat)
    requires 10 <= i < 13
    ensures Goes(StaleStates()[i], StaleRun()[i], StaleStates()[i + 1])
  {
    hide Compact, Dropped, Sum, ReleasedAll;
    var l, l2, first := Sample(1, 0, 0, true), Sample(2, 0, 0, true), Sample(1, 0, 1, false);
    match i {
      case 10 =>
        assert First([first, Sample(2, 3, 0, false)], [], true, 0) == 1;
        assert [l2] + [] == [l2];
      case 11 =>
        assert First([first, Sample(2, 3, 1, false)], [], true, 0) == 1;
        OneFree(Global([first, Sample(2, 3, 1, false)], 2, []), l, Clock(2, 2));
      case _ => LastCleanup();
    }
  }

  lemma LastCleanup()
    ensures Cleaned(Global([Sample(1, 0, 1, false), Sample(2, 3, 0, false)], 2, []), 4, 0) == Global([Sample(1, 0, 1, false)], 1, [2])
  {
    hide Compact, Dropped, Sum;
    var es := [Sample(1, 0, 1, false), Sample(2, 3, 0, false)];
    CleanStart(es, 4, LIMIT);
    CleanStep(es, 0, 4, LIMIT);
    assert Compact(es[..1], 4, LIMIT) == [es[0]];
    CleanStep(es, 1, 4, LIMIT);
    assert es[..2] == es;
  }

  /** A legal run, with a clock that runs forward, that is not tidy and ends with a
      context holding value 2 although it was freed. */
  lemma StaleRunDangles()
    ensures Legal(StaleRun()) && Forward(StaleRun()) && !Tidy(StaleRun()) && GivenAll(StaleRun(), 2) == 1 && Dangles(Run(StaleRun()), 2)
  {
    hide Legal, Run, Step, Enabled, Tidy, TidyBefore, GivenAll, Forward;
    var run, states := StaleRun(), StaleStates();
    forall i | 0 <= i < |run| ensures Goes(states[i], run[i], states[i + 1]) {
      if i < 3 { StaleStart(i); } else if i < 6 { StaleBorrow(i); } else if i < 10 { StaleMiddle(i); } else { StaleEnd(i); }
    }
    TraceRun(run, states);
    RunConserves(run, 2);
    StaleShare();
    assert Run(run).ctxs[0][0] == Sample(2, 0, 0, true);
    StaleForward();
    if Tidy(run) {
      TidyPrefix(run);
      NothingDangles(run, 2);
    }
  }

  lemma StaleForward()
    ensures Forward(StaleRun())
  {
    hide Latest;
    var run := StaleRun();
    var times := [0, 0, 0, 1, 1, 1, 1, 1, 1, 2, 2, 2, 2, 4];
    forall i | 0 <= i < |run| ensures OnTime(times[i], run[i]) && Reading(times[i], run[i]) == times[i + 1] {
      StaleTime(i);
    }
    TimesForward(run, times);
  }

  lemma StaleTime(i: nat)
    requires i < 13
    ensures var times := [0, 0, 0, 1, 1, 1, 1, 1, 1, 2, 2, 2, 2, 4];
            OnTime(times[i], StaleRun()[i]) && Reading(times[i], StaleRun()[i]) == times[i + 1]
  {
    match i {
      case 2 => assert [Clock(0, 1)][1..] == [];
      case 8 => assert [Clock(1, 2)][1..] == [];
      case 11 => assert [Clock(2, 2)][1..] == [];
      case _ =>
    }
  }

  lemma {:induction false} TimesForward(run: seq<Op>, times: seq<uint64>)
    requires |times| == |run| + 1 && times[0] == 0
    requires forall i :: 0 <= i < |run| ==> OnTime(times[i], run[i]) && Reading(times[i], run[i]) == times[i + 1]
    ensures Forward(run) && Latest(run) == times[|run|]
  {
    if |run| > 0 {
      var n := |run| - 1;
      TimesForward(run[..n], times[..n + 1]);
    }
  }

  lemma StaleShare()
    ensures TotalAll(StaleStates()[13].ctxs, Owner(2)) == 0 && Held([Sample(1, 0, 1, false)], 2) == 0
  {
    var l2 := Sample(2, 0, 0, true);
    var none: seq<seq<Entry>> := [];
    TallyPush(none, [l2], Over(Owner(2)));
    assert none + [[l2]] == StaleStates()[13].ctxs;
  }
}
