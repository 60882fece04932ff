/** Adding up a measure over the elements of a sequence. */
module Tallies {

  function Tally<T>(s: seq<T>, f: T -> nat): nat {
    if |s| == 0 then 0 else Tally(s[..|s| - 1], f) + f(s[|s| - 1])
  }

  lemma TallyEmpty<T>(f: T -> nat)
    ensures Tally([], f) == 0
  {}

  lemma TallyPush<T>(s: seq<T>, x: T, f: T -> nat)
    ensures Tally(s + [x], f) == Tally(s, f) + f(x)
  {
    assert (s + [x])[..|s|] == s;
  }

  lemma {:induction false} TallyFront<T>(x: T, s: seq<T>, f: T -> nat)
    ensures Tally([x] + s, f) == f(x) + Tally(s, f)
  {
    if |s| == 0 {
      assert [x] + s == [] + [x];
      TallyPush([], x, f);
    } else {
      var n := |s| - 1;
      TallyFront(x, s[..n], f);
      assert [x] + s == ([x] + s[..n]) + [s[n]];
      TallyPush([x] + s[..n], s[n], f);
    }
  }

  lemma {:induction false} TallyUpdate<T>(s: seq<T>, i: nat, x: T, f: T -> nat)
    requires i < |s|
    ensures Tally(s[i := x], f) + f(s[i]) == Tally(s, f) + f(x)
  {
    hide Tally;
    var n := |s| - 1;
    var init, last := s[..n], s[n];
    assert s == init + [last];
    TallyPush(init, last, f);
    if i < n {
      assert s[i := x] == init[i := x] + [last];
      TallyPush(init[i := x], last, f);
      TallyUpdate(init, i, x, f);
    } else {
      assert s[i := x] == init + [x];
      TallyPush(init, x, f);
    }
  }

  lemma {:induction false} TallyRemove<T>(s: seq<T>, i: nat, f: T -> nat)
    requires i < |s|
    ensures Tally(s[..i] + s[i + 1..], f) + f(s[i]) == Tally(s, f)
  {
    hide Tally;
    var n := |s| - 1;
    var init, last := s[..n], s[n];
    assert s == init + [last];
    TallyPush(init, last, f);
    if i < n {
      assert s[..i] + s[i + 1..] == (init[..i] + init[i + 1..]) + [last];
      TallyPush(init[..i] + init[i + 1..], last, f);
      TallyRemove(init, i, f);
    } else {
      assert s[..i] + s[i + 1..] == init;
    }
  }

  /** Two places contribute separately. */
  lemma TallyTwo<T>(s: seq<T>, i: nat, j: nat, f: T -> nat)
    requires i < j < |s|
    ensures Tally(s, f) >= f(s[i]) + f(s[j])
  {
    TallyRemove(s, j, f);
    TallyRemove(s[..j] + s[j + 1..], i, f);
  }

  lemma TallyAt<T>(s: seq<T>, i: nat, f: T -> nat)
    requires i < |s|
    ensures Tally(s, f) >= f(s[i])
  {
    TallyRemove(s, i, f);
  }

  lemma {:induction false} TallyWitness<T>(s: seq<T>, f: T -> nat) returns (i: nat)
    requires Tally(s, f) > 0
    ensures i < |s| && f(s[i]) > 0
  {
    if f(s[|s| - 1]) > 0 {
      i := |s| - 1;
    } else {
      i := TallyWitness(s[..|s| - 1], f);
    }
  }

  lemma {:induction false} TallyZero<T>(s: seq<T>, f: T -> nat)
    requires forall i :: 0 <= i < |s| ==> f(s[i]) == 0
    ensures Tally(s, f) == 0
  {
    if |s| > 0 { TallyZero(s[..|s| - 1], f); }
  }

  lemma {:induction false} TallyConcat<T>(s: seq<T>, t: seq<T>, f: T -> nat)
    ensures Tally(s + t, f) == Tally(s, f) + Tally(t, f)
  {
    if |t| == 0 {
      assert s + t == s;
    } else {
      var n := |t| - 1;
      TallyConcat(s, t[..n], f);
      assert s + t == (s + t[..n]) + [t[n]];
      TallyPush(s + t[..n], t[n], f);
    }
  }

  /** A measure of at most one per element. */
  lemma {:induction false} TallyBound<T>(s: seq<T>, f: T -> nat)
    requires forall i :: 0 <= i < |s| ==> f(s[i]) <= 1
    ensures Tally(s, f) <= |s|
  {
    if |s| > 0 { TallyBound(s[..|s| - 1], f); }
  }

  /** A measure of at least one per element. */
  lemma {:induction false} TallyFull<T>(s: seq<T>, f: T -> nat)
    requires forall i :: 0 <= i < |s| ==> f(s[i]) >= 1
    ensures Tally(s, f) >= |s|
  {
    if |s| > 0 { TallyFull(s[..|s| - 1], f); }
  }
}
