/** The two-level cache of src/prover/prover.c: every prover context keeps a local
    list, and one global array shares values between contexts through borrow
    counters, expiry and size eviction. */
module ProverCache {
  import opened Limbs
  import opened Tallies

  const LIMIT: nat := 1024 * 1024 * 100
  const INITIAL_CAPACITY: nat := 32

  type Key = seq<uint8>

  /** A cache entry.  Value 0 is the null pointer.  Timestamp 0 marks a local-only
      entry in a context and an invalidated entry in the global array. */
  datatype Entry = Entry(key: Key, value: nat, size: uint32, timestamp: uint64, hasFree: bool, use: nat, fromGlobal: bool)

  /** The global array, its size counter and the calls made to free callbacks. */
  datatype Global = Global(entries: seq<Entry>, size: nat, freed: seq<nat>)

  // ------------------------------------------------------------- searching

  predicate Matches(e: Entry, key: Key, live: bool) {
    e.key == key && (live ==> e.timestamp > 0)
  }

  /** The first match at or after i, or the length. */
  function First(es: seq<Entry>, key: Key, live: bool, i: nat): (r: nat)
    requires i <= |es|
    ensures i <= r <= |es|
    ensures r < |es| ==> Matches(es[r], key, live)
    ensures forall j :: i <= j < r ==> !Matches(es[j], key, live)
    decreases |es| - i
  {
    if i == |es| || Matches(es[i], key, live) then i else First(es, key, live, i + 1)
  }

  // --------------------------------------------------------------- cleanup

  function SizeOf(): Entry -> nat { (e: Entry) => e.size }

  function Sum(es: seq<Entry>): nat { Tally(es, SizeOf()) }

  function UsedSize(): Entry -> nat { (e: Entry) => if e.use > 0 then e.size else 0 }

  /** The sizes of the entries that some context is using. */
  function InUse(es: seq<Entry>): nat { Tally(es, UsedSize()) }

  predicate Keep(e: Entry, now: nat, kept: nat, max: nat) {
    !((e.timestamp < now || kept + e.size > max) && e.use == 0)
  }

  /** What cleanup keeps, and the frees it performs. */
  function Compact(es: seq<Entry>, now: nat, max: nat): (r: seq<Entry>)
    ensures |r| <= |es|
  {
    if |es| == 0 then []
    else
      var kept := Compact(es[..|es| - 1], now, max);
      if Keep(es[|es| - 1], now, Sum(kept), max) then kept + [es[|es| - 1]] else kept
  }

  predicate Managed(e: Entry) { e.hasFree && e.value != 0 }

  function FreeOf(e: Entry): seq<nat> { if Managed(e) then [e.value] else [] }

  function Dropped(es: seq<Entry>, now: nat, max: nat): seq<nat> {
    if |es| == 0 then []
    else
      var last, init := es[|es| - 1], es[..|es| - 1];
      Dropped(init, now, max) + if Keep(last, now, Sum(Compact(init, now, max)), max) then [] else FreeOf(last)
  }

  function MaxSize(extra: nat): nat { if extra > LIMIT then LIMIT else LIMIT - extra }

  function Cleaned(g: Global, now: nat, extra: nat): Global {
    if |g.entries| == 0 then g
    else
      var kept := Compact(g.entries, now, MaxSize(extra));
      Global(kept, Sum(kept), g.freed + Dropped(g.entries, now, MaxSize(extra)))
  }

  // ------------------------------------------------------ the other operations

  /** The clock readings that moving one entry to the global array makes. */
  datatype Clock = Clock(cleanup: uint64, expiry: uint64)

  /** The absolute expiry time of an entry that is moved: 64 bits, so it may wrap. */
  function Expiry(e: Entry, t: Clock): uint64 { (t.expiry + e.timestamp as int) % 0x1_0000_0000_0000_0000 }

  function Added(g: Global, e: Entry, t: Clock): Global {
    var h := if e.size + g.size > LIMIT then Cleaned(g, t.cleanup, e.size) else g;
    var copy := e.(fromGlobal := false, use := 0, timestamp := Expiry(e, t));
    h.(entries := h.entries + [copy], size := h.size + e.size)
  }

  function Invalidated(g: Global, key: Key): Global {
    var i := First(g.entries, key, true, 0);
    if i < |g.entries| then g.(entries := g.entries[i := g.entries[i].(timestamp := 0)]) else g
  }

  /** Looking a key up: the context's list and the global array afterwards, and the
      value returned. */
  function Got(list: seq<Entry>, g: Global, key: Key, worker: bool): (seq<Entry>, Global, nat) {
    var i := First(list, key, false, 0);
    if i < |list| then (list, g, list[i].value)
    else if worker then (list, g, 0)
    else
      var j := First(g.entries, key, true, 0);
      if j < |g.entries| then
        var e := g.entries[j];
        ([e.(timestamp := 0, fromGlobal := true)] + list, g.(entries := g.entries[j := e.(use := e.use + 1)]), e.value)
      else (list, g, 0)
  }

  function NewEntry(key: Key, value: nat, size: uint32, duration: uint64, hasFree: bool): Entry {
    Entry(key, value, size, duration, hasFree, 0, false)
  }

  /** What freeing one local entry does to the global cache. */
  function Released(g: Global, e: Entry, t: Clock): Global {
    var i := First(g.entries, e.key, true, 0);
    if e.timestamp > 0 && !e.fromGlobal && i == |g.entries| then Added(g, e, t)
    else if e.fromGlobal then
      if i < |g.entries| && g.entries[i].use > 0 then
        g.(entries := g.entries[i := g.entries[i].(use := g.entries[i].use - 1)])
      else g
    else g.(freed := g.freed + FreeOf(e))
  }

  /** Freeing a whole context, head first. */
  function ReleasedAll(g: Global, list: seq<Entry>, clocks: seq<Clock>): Global
    requires |clocks| == |list|
    decreases |list|
  {
    if |list| == 0 then g else ReleasedAll(Released(g, list[0], clocks[0]), list[1..], clocks[1..])
  }

  // ------------------------------------------------------------ the program

  class GlobalCache {
    // an array of length 0 stands for the null pointer of the start
    var entries: array<Entry>
    var count: nat
    var currentSize: nat
    var freed: seq<nat>

    ghost predicate Valid()
      reads this
    {
      count <= entries.Length
    }

    ghost function View(): Global
      requires Valid()
      reads this, entries
    {
      Global(entries[..count], currentSize, freed)
    }

    constructor ()
      ensures Valid() && fresh(entries) && View() == Global([], 0, [])
    {
      entries := new Entry[0];
      count, currentSize, freed := 0, 0, [];
    }

    /** Removes what is expired or does not fit, unless it is in use; the kept
        entries move down in place. */
    method Cleanup(now: uint64, extra: nat)
      requires Valid()
      modifies this, entries
      ensures Valid() && entries == old(entries) && View() == Cleaned(old(View()), now, extra)
    {
      hide Compact, Dropped, Sum;
      if count == 0 { return; }
      ghost var was := entries[..count];
      var write := 0;
      var kept := 0;
      var max := if extra > LIMIT then LIMIT else LIMIT - extra;
      CleanStart(was, now, max);
      for read := 0 to count
        invariant entries == old(entries) && count == old(count) && |was| == count <= entries.Length
        invariant write <= read && |Compact(was[..read], now, max)| == write
        invariant forall k :: 0 <= k < write ==> entries[k] == Compact(was[..read], now, max)[k]
        invariant kept == Sum(Compact(was[..read], now, max))
        invariant freed == old(freed) + Dropped(was[..read], now, max)
        invariant forall k :: read <= k < count ==> entries[k] == was[k]
      {
        var e := entries[read];
        assert e == was[read];
        CleanStep(was, read, now, max);
        var remove := (e.timestamp < now || kept + e.size > max) && e.use == 0;
        if !remove {
          kept := kept + e.size;
          if write < read {
            entries[write] := entries[read];
          }
          write := write + 1;
        } else if e.hasFree && e.value != 0 {
          freed := freed + [e.value];
        }
      }
      assert was[..count] == was;
      count := write;
      currentSize := kept;
    }

    /** Makes room if the limit is passed, grows the array if it is full, and
        appends the entry with its absolute expiry time. */
    method AddEntry(e: Entry, t: Clock)
      requires Valid()
      modifies this, entries
      ensures Valid() && (entries == old(entries) || fresh(entries)) && View() == Added(old(View()), e, t)
    {
      hide Cleaned;
      if e.size + currentSize > LIMIT {
        Cleanup(t.cleanup, e.size);
      }
      if count >= entries.Length {
        Grow();
      }
      ghost var h := View();
      var copy := e.(fromGlobal := false, use := 0, timestamp := (t.expiry + e.timestamp as int) % 0x1_0000_0000_0000_0000);
      entries[count] := copy;
      count := count + 1;
      currentSize := currentSize + e.size;
      assert entries[..count] == h.entries + [copy];
    }

    /** Reallocates to the first capacity or twice the old one. */
    method Grow()
      requires Valid()
      modifies this
      ensures Valid() && fresh(entries) && View() == old(View()) && count < entries.Length
    {
      var bigger := new Entry[if entries.Length > 0 then 2 * entries.Length else INITIAL_CAPACITY];
      for i := 0 to count
        invariant entries == old(entries) && count == old(count) && count <= entries.Length < bigger.Length
        invariant bigger[..i] == entries[..i]
        modifies bigger
      {
        bigger[i] := entries[i];
      }
      entries := bigger;
    }

    /** The live entry of a key, or the count. */
    method Find(key: Key) returns (r: nat)
      requires Valid()
      ensures r == First(View().entries, key, true, 0)
    {
      for i := 0 to count
        invariant First(View().entries, key, true, 0) == First(View().entries, key, true, i)
      {
        if entries[i].key == key && entries[i].timestamp > 0 {
          return i;
        }
      }
      r := count;
    }

    method Invalidate(key: Key)
      requires Valid()
      modifies entries
      ensures Valid() && View() == Invalidated(old(View()), key)
    {
      var i := Find(key);
      if i < count {
        entries[i] := entries[i].(timestamp := 0);
      }
    }
  }

  class Context {
    var cache: seq<Entry>

    constructor ()
      ensures cache == []
    {
      cache := [];
    }

    /** The value cached for a key: from the own list, or borrowed from the global
        array unless the context runs in a worker thread; 0 on a miss. */
    method Get(g: GlobalCache, key: Key, worker: bool) returns (value: nat)
      requires g.Valid()
      modifies this, g.entries
      ensures g.Valid() && (cache, g.View(), value) == Got(old(cache), old(g.View()), key, worker)
    {
      for i := 0 to |cache|
        invariant cache == old(cache) && g.View() == old(g.View())
        invariant First(cache, key, false, 0) == First(cache, key, false, i)
      {
        if cache[i].key == key {
          return cache[i].value;
        }
      }
      if worker {
        return 0;
      }
      for j := 0 to g.count
        invariant cache == old(cache) && g.View() == old(g.View())
        invariant First(g.View().entries, key, true, 0) == First(g.View().entries, key, true, j)
      {
        var e := g.entries[j];
        if e.key == key && e.timestamp != 0 {
          assert j == First(g.View().entries, key, true, 0);
          cache := [e.(timestamp := 0, fromGlobal := true)] + cache;
          g.entries[j] := e.(use := e.use + 1);
          return e.value;
        }
      }
      value := 0;
    }

    method Set(key: Key, value: nat, size: uint32, duration: uint64, hasFree: bool)
      modifies this
      ensures cache == [NewEntry(key, value, size, duration, hasFree)] + old(cache)
    {
      cache := [Entry(key, value, size, duration, hasFree, 0, false)] + cache;
    }

    /** The cache part of freeing a context: every entry moves to the global array,
        gives its borrow back or is freed. */
    method Free(g: GlobalCache, clocks: seq<Clock>)
      requires g.Valid() && |clocks| == |cache|
      modifies this, g, g.entries
      ensures cache == [] && g.Valid() && g.View() == ReleasedAll(old(g.View()), old(cache), clocks)
    {
      ghost var n := |cache|;
      var done := 0;
      while cache != []
        invariant |cache| + done == n && |clocks| == n
        invariant g.Valid() && (g.entries == old(g.entries) || fresh(g.entries))
        invariant ReleasedAll(g.View(), cache, clocks[done..]) == ReleasedAll(old(g.View()), old(cache), clocks)
        decreases |cache|
      {
        var e := cache[0];
        assert clocks[done..][1..] == clocks[done + 1..];
        FreeEntry(g, e, clocks[done]);
        cache := cache[1..];
        done := done + 1;
      }
    }

    static method FreeEntry(g: GlobalCache, e: Entry, t: Clock)
      requires g.Valid()
      modifies g, g.entries
      ensures g.Valid() && (g.entries == old(g.entries) || fresh(g.entries)) && g.View() == Released(old(g.View()), e, t)
    {
      var i := g.Find(e.key);
      if e.timestamp > 0 && !e.fromGlobal && i == g.count {
        g.AddEntry(e, t);
      } else if e.fromGlobal {
        if i < g.count && g.entries[i].use > 0 {
          g.entries[i] := g.entries[i].(use := g.entries[i].use - 1);
        }
      } else if e.hasFree && e.value != 0 {
        g.freed := g.freed + [e.value];
      }
    }
  }

  lemma CleanStart(was: seq<Entry>, now: nat, max: nat)
    ensures Compact(was[..0], now, max) == [] && Dropped(was[..0], now, max) == [] && Sum([]) == 0
  {}

  /** One more entry through the cleanup loop. */
  lemma CleanStep(was: seq<Entry>, r: nat, now: nat, max: nat)
    requires r < |was|
    ensures var e, kept, next := was[r], Compact(was[..r], now, max), Compact(was[..r + 1], now, max);
            if Keep(e, now, Sum(kept), max) then
              next == kept + [e] && Sum(next) == Sum(kept) + e.size && Dropped(was[..r + 1], now, max) == Dropped(was[..r], now, max)
            else
              next == kept && Dropped(was[..r + 1], now, max) == Dropped(was[..r], now, max) + FreeOf(e)
  {
    assert was[..r + 1][..r] == was[..r];
    SumPush(Compact(was[..r], now, max), was[r]);
  }

  lemma SumPush(es: seq<Entry>, e: Entry)
    ensures Sum(es + [e]) == Sum(es) + e.size
  {
    TallyPush(es, e, SizeOf());
  }
}
