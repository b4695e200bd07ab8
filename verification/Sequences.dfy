/** Strictly increasing positions, and the sub-list of the accepted items. */
module Sequences {

  predicate Increasing(at: seq<nat>) {
    forall i, j :: 0 <= i < j < |at| ==> at[i] < at[j]
  }

  /** Increasing from each position to the next is enough. */
  lemma {:induction false} StepwiseIncreasing(at: seq<nat>, i: nat, j: nat)
    requires forall k :: 0 <= k < |at| - 1 ==> at[k] < at[k + 1]
    requires i < j < |at|
    ensures at[i] < at[j]
    decreases j
  {
    assert at[j - 1] < at[j - 1 + 1];
    if i < j - 1 {
      StepwiseIncreasing(at, i, j - 1);
    }
  }

  lemma {:induction false} AtLeastItsPlace(at: seq<nat>, i: nat)
    requires Increasing(at) && i < |at|
    ensures at[i] >= i
    decreases i
  {
    if i > 0 {
      AtLeastItsPlace(at, i - 1);
      assert at[i - 1] < at[i];
    }
  }

  /** When every number below `n` is there and no other, each stands at its own place. */
  lemma {:induction false} AllPositions(at: seq<nat>, n: nat, i: nat)
    requires Increasing(at) && (forall k: nat :: k in at <==> k < n) && i <= n
    ensures i <= |at| && (forall k :: 0 <= k < i ==> at[k] == k) && (i == n ==> |at| == n)
    decreases i
  {
    if i > 0 {
      AllPositions(at, n, i - 1);
      assert i - 1 in at;
      var j :| 0 <= j < |at| && at[j] == i - 1;
      assert forall k :: 0 <= k < i - 1 ==> at[k] < i - 1;
      assert at[i - 1] in at && at[i - 1] <= at[j];
      assert i - 1 > 0 ==> at[i - 2] < at[i - 1];
    }
    if at != [] {
      AtLeastItsPlace(at, |at| - 1);
      assert at[|at| - 1] in at;
    }
  }

  function Sift<T>(items: seq<T>, ok: T -> bool): seq<T> {
    if items == [] then []
    else Sift(items[..|items| - 1], ok) + if ok(items[|items| - 1]) then [items[|items| - 1]] else []
  }

  /** `kept` lists the items at `at`, and `at` are the positions that hold an accepted item. */
  ghost predicate SiftedAt<T>(items: seq<T>, ok: T -> bool, kept: seq<T>, at: seq<nat>) {
    && Increasing(at) && |at| == |kept|
    && (forall i :: 0 <= i < |at| ==> at[i] < |items| && kept[i] == items[at[i]] && ok(kept[i]))
    && (forall k :: 0 <= k < |items| && ok(items[k]) ==> k in at)
  }

  /** `kept` is the accepted items, in the order given. */
  ghost predicate Sifted<T>(items: seq<T>, ok: T -> bool, kept: seq<T>) {
    exists at: seq<nat> :: SiftedAt(items, ok, kept, at)
  }

  lemma {:induction false} SiftedPush<T>(items: seq<T>, ok: T -> bool, kept: seq<T>, front: seq<nat>)
    requires items != [] && ok(items[|items| - 1]) && SiftedAt(items[..|items| - 1], ok, kept, front)
    ensures SiftedAt(items, ok, kept + [items[|items| - 1]], front + [|items| - 1])
  {
    var n := |items| - 1;
    var at := front + [n];
    assert at[|front|] == n;
    forall k | 0 <= k < n && ok(items[k])
      ensures k in at
    {
      assert items[..n][k] == items[k] && k in front;
    }
  }

  lemma {:induction false} SiftedSkip<T>(items: seq<T>, ok: T -> bool, kept: seq<T>, at: seq<nat>)
    requires items != [] && !ok(items[|items| - 1]) && SiftedAt(items[..|items| - 1], ok, kept, at)
    ensures SiftedAt(items, ok, kept, at)
  {
    var n := |items| - 1;
    forall k | 0 <= k < |items| && ok(items[k])
      ensures k in at
    {
      assert items[..n][k] == items[k];
    }
  }

  lemma {:induction false} SiftSifts<T>(items: seq<T>, ok: T -> bool)
    ensures Sifted(items, ok, Sift(items, ok))
    decreases |items|
  {
    if items == [] {
      assert SiftedAt(items, ok, Sift(items, ok), []);
    } else {
      var n := |items| - 1;
      SiftSifts(items[..n], ok);
      var front :| SiftedAt(items[..n], ok, Sift(items[..n], ok), front);
      if ok(items[n]) {
        SiftedPush(items, ok, Sift(items[..n], ok), front);
        assert Sift(items, ok) == Sift(items[..n], ok) + [items[n]];
      } else {
        SiftedSkip(items, ok, Sift(items[..n], ok), front);
        assert Sift(items, ok) == Sift(items[..n], ok);
      }
    }
  }

  lemma {:induction false} SiftedPop<T>(items: seq<T>, ok: T -> bool, kept: seq<T>, at: seq<nat>)
    requires SiftedAt(items, ok, kept, at) && items != [] && at != [] && at[|at| - 1] == |items| - 1
    ensures SiftedAt(items[..|items| - 1], ok, kept[..|at| - 1], at[..|at| - 1])
  {
    var n, m := |items| - 1, |at| - 1;
    forall k | 0 <= k < n && ok(items[k])
      ensures k in at[..m]
    {
      var i :| 0 <= i < |at| && at[i] == k;
      assert at[..m][i] == k;
    }
  }

  /** Only one list is the accepted items in the order given. */
  lemma {:induction false} SiftedIsSift<T>(items: seq<T>, ok: T -> bool, kept: seq<T>, at: seq<nat>)
    requires SiftedAt(items, ok, kept, at)
    ensures kept == Sift(items, ok)
    decreases |items|
  {
    if items != [] {
      var n, m := |items| - 1, |at| - 1;
      if ok(items[n]) {
        var i :| 0 <= i < |at| && at[i] == n;
        assert i == m;
        SiftedPop(items, ok, kept, at);
        SiftedIsSift(items[..n], ok, kept[..m], at[..m]);
        assert kept == kept[..m] + [items[n]];
      } else {
        assert SiftedAt(items[..n], ok, kept, at);
        SiftedIsSift(items[..n], ok, kept, at);
      }
    }
  }
}
