/** Finite sets of rows ranked newest first, as every `order by ... desc limit n` query sees them. */
module Recency {

  ghost predicate Distinct<T(!new)>(rows: set<T>, time: T -> int) {
    forall x, y :: x in rows && y in rows && time(x) == time(y) ==> x == y
  }

  function Newer<T>(rows: set<T>, time: T -> int, x: T): set<T> {
    set y | y in rows && time(y) > time(x)
  }

  /** The rows with fewer than `k` newer ones: the newest `k`, when timestamps are distinct. */
  function Top<T>(rows: set<T>, time: T -> int, k: nat): set<T> {
    set x | x in rows && |Newer(rows, time, x)| < k
  }

  function Min(a: int, b: int): int {
    if a <= b then a else b
  }

  lemma {:induction false} SubsetSize<T>(a: set<T>, b: set<T>)
    requires a <= b
    ensures |a| <= |b|
  {
    assert b == a + (b - a);
  }

  lemma {:induction false} OldestExists<T(!new)>(rows: set<T>, time: T -> int) returns (o: T)
    requires rows != {}
    ensures o in rows && forall x :: x in rows ==> time(o) <= time(x)
    decreases |rows|
  {
    var x :| x in rows;
    if rows == {x} {
      o := x;
    } else {
      o := OldestExists(rows - {x}, time);
      if time(x) < time(o) {
        o := x;
      }
      assert rows == (rows - {x}) + {x};
    }
  }

  /** Adding a row older than all others adds it to the newest `k` exactly while there is room. */
  lemma {:induction false} TopWithOldest<T(!new)>(rest: set<T>, o: T, time: T -> int, k: nat)
    requires o !in rest && Distinct(rest + {o}, time)
    requires forall x :: x in rest ==> time(o) <= time(x)
    ensures Top(rest + {o}, time, k) == Top(rest, time, k) + (if |rest| < k then {o} else {})
  {
    var rows := rest + {o};
    forall x | x in rest
      ensures Newer(rows, time, x) == Newer(rest, time, x)
    {
    }
    assert Newer(rows, time, o) == rest by {
      assert forall x :: x in rest ==> x in rows && o in rows && time(x) != time(o);
    }
  }

  lemma {:induction false} TopSizeWithOldest<T(!new)>(rest: set<T>, o: T, time: T -> int, k: nat)
    requires o !in rest && Distinct(rest + {o}, time)
    requires forall x :: x in rest ==> time(o) <= time(x)
    requires |Top(rest, time, k)| == Min(k, |rest|)
    ensures |Top(rest + {o}, time, k)| == Min(k, |rest| + 1)
  {
    TopWithOldest(rest, o, time, k);
    assert o !in Top(rest, time, k);
  }

  /** With distinct timestamps the newest `k` of `n` rows are `min(k, n)` rows. */
  lemma {:induction false} TopSize<T(!new)>(rows: set<T>, time: T -> int, k: nat)
    requires Distinct(rows, time)
    ensures |Top(rows, time, k)| == Min(k, |rows|)
    decreases |rows|
  {
    if rows == {} {
      assert Top(rows, time, k) == {};
    } else {
      var o := OldestExists(rows, time);
      var rest := rows - {o};
      assert rows == rest + {o};
      TopSize(rest, time, k);
      TopSizeWithOldest(rest, o, time, k);
    }
  }

  /** With every row of `up`, `up` has all newer ones. */
  ghost predicate Upward<T(!new)>(up: set<T>, rows: set<T>, time: T -> int) {
    up <= rows && forall x, y :: x in up && y in rows && time(y) > time(x) ==> y in up
  }

  /** Whatever the timestamps, an upward set of at least `k` rows has `k` rows with fewer than `k` newer
      ones: removing the oldest one at a time leaves such rows only. */
  lemma {:induction false} UpwardHoldsTop<T(!new)>(up: set<T>, rows: set<T>, time: T -> int, k: nat)
    requires Upward(up, rows, time) && |up| >= k
    ensures |up * Top(rows, time, k)| >= k
    decreases |up|
  {
    if |up| == k {
      forall x | x in up
        ensures x in Top(rows, time, k)
      {
        SubsetSize(Newer(rows, time, x), up - {x});
      }
      assert up * Top(rows, time, k) == up;
    } else {
      var o := OldestExists(up, time);
      UpwardHoldsTop(up - {o}, rows, time, k);
      SubsetSize((up - {o}) * Top(rows, time, k), up * Top(rows, time, k));
    }
  }

  /** Whatever the timestamps, at least `min(k, n)` of `n` rows have fewer than `k` newer ones. */
  lemma {:induction false} TopIsLarge<T(!new)>(rows: set<T>, time: T -> int, k: nat)
    ensures |Top(rows, time, k)| >= Min(k, |rows|)
  {
    if |rows| >= k {
      UpwardHoldsTop(rows, rows, time, k);
      assert rows * Top(rows, time, k) == Top(rows, time, k);
    } else {
      forall x | x in rows
        ensures x in Top(rows, time, k)
      {
        SubsetSize(Newer(rows, time, x), rows);
      }
      assert Top(rows, time, k) == rows;
    }
  }

  /** Removing rows that have at least `k` newer ones leaves at least `k` newer rows above whatever had
      them. */
  lemma {:induction false} StaleStaysStale<T(!new)>(rows: set<T>, gone: set<T>, time: T -> int, k: nat, x: T)
    requires gone !! Top(rows, time, k)
    requires |Newer(rows, time, x)| >= k
    ensures |Newer(rows - gone, time, x)| >= k
  {
    var up := Newer(rows, time, x);
    UpwardHoldsTop(up, rows, time, k);
    SubsetSize(up * Top(rows, time, k), Newer(rows - gone, time, x));
  }

  /** Removing rows that have at least `k` newer ones leaves the newest `k` what they were. */
  lemma {:induction false} TopUnchanged<T(!new)>(rows: set<T>, gone: set<T>, time: T -> int, k: nat)
    requires gone !! Top(rows, time, k)
    ensures Top(rows - gone, time, k) == Top(rows, time, k)
  {
    forall x | x in rows - gone
      ensures x in Top(rows - gone, time, k) <==> x in Top(rows, time, k)
    {
      if |Newer(rows, time, x)| >= k {
        StaleStaysStale(rows, gone, time, k, x);
      } else {
        SubsetSize(Newer(rows - gone, time, x), Newer(rows, time, x));
      }
    }
  }

  // ---------------------------------------------------------------------------------------
  // Listings
  // ---------------------------------------------------------------------------------------

  function Elements<T>(l: seq<T>): set<T> {
    set x | x in l
  }

  ghost predicate NoRepeats<T(!new)>(l: seq<T>) {
    forall i, j :: 0 <= i < j < |l| ==> l[i] != l[j]
  }

  ghost predicate Descending<T(!new)>(l: seq<T>, time: T -> int) {
    forall i, j :: 0 <= i < j < |l| ==> time(l[i]) >= time(l[j])
  }

  /** `l` is an answer the database may give to "these rows, newest first". */
  ghost predicate Listing<T(!new)>(l: seq<T>, rows: set<T>, time: T -> int) {
    NoRepeats(l) && Elements(l) == rows && Descending(l, time)
  }

  lemma {:induction false} HasElement<T>(l: seq<T>)
    ensures l == [] || exists x :: x in l
  {
    if l != [] {
      assert l[0] in l;
    }
  }

  lemma {:induction false} ElementsSize<T(!new)>(l: seq<T>)
    requires NoRepeats(l)
    ensures |Elements(l)| == |l|
    decreases |l|
  {
    if l != [] {
      ElementsSize(l[1..]);
      assert Elements(l) == {l[0]} + Elements(l[1..]);
    }
  }

  /** In a listing of distinct timestamps a row's position is the number of newer rows. */
  lemma {:induction false} ListingRank<T(!new)>(l: seq<T>, rows: set<T>, time: T -> int, i: nat)
    requires Distinct(rows, time) && Listing(l, rows, time) && i < |l|
    ensures |Newer(rows, time, l[i])| == i
  {
    forall x | x in Newer(rows, time, l[i])
      ensures x in Elements(l[..i])
    {
      var j :| 0 <= j < |l| && l[j] == x;
      assert j < i;
      assert l[..i][j] == x;
    }
    forall x | x in Elements(l[..i])
      ensures x in Newer(rows, time, l[i])
    {
      var j :| 0 <= j < i && l[j] == x;
      assert l[j] in rows && l[i] in rows && l[j] != l[i];
    }
    assert Newer(rows, time, l[i]) == Elements(l[..i]);
    ElementsSize(l[..i]);
  }

  function Take<T>(l: seq<T>, k: nat): seq<T> {
    if k <= |l| then l[..k] else l
  }

  /** `order by time desc limit k` returns the newest `k`. */
  lemma {:induction false} TakeIsTop<T(!new)>(l: seq<T>, rows: set<T>, time: T -> int, k: nat)
    requires Distinct(rows, time) && Listing(l, rows, time)
    ensures Elements(Take(l, k)) == Top(rows, time, k)
  {
    forall i | 0 <= i < |l|
      ensures l[i] in Top(rows, time, k) <==> i < k
    {
      ListingRank(l, rows, time, i);
    }
    forall x | x in Top(rows, time, k)
      ensures x in Elements(Take(l, k))
    {
      var i :| 0 <= i < |l| && l[i] == x;
      assert Take(l, k)[i] == x;
    }
  }

  /** Distinct timestamps leave one possible listing. */
  lemma {:induction false} ListingUnique<T(!new)>(a: seq<T>, b: seq<T>, rows: set<T>, time: T -> int)
    requires Distinct(rows, time) && Listing(a, rows, time) && Listing(b, rows, time)
    ensures a == b
  {
    ElementsSize(a);
    ElementsSize(b);
    forall i | 0 <= i < |a|
      ensures a[i] == b[i]
    {
      assert a[i] in rows;
      var j :| 0 <= j < |b| && b[j] == a[i];
      ListingRank(a, rows, time, i);
      ListingRank(b, rows, time, j);
    }
  }

  /** A prefix of a listing lists its own elements. */
  lemma {:induction false} TakeIsListing<T(!new)>(l: seq<T>, rows: set<T>, time: T -> int, k: nat)
    requires Listing(l, rows, time)
    ensures Listing(Take(l, k), Elements(Take(l, k)), time)
  {
  }

  function Drop<T>(l: seq<T>, k: nat): seq<T> {
    if k <= |l| then l[k..] else []
  }

  /** A cut splits a listing in two: what is past it is what it does not keep. */
  lemma {:induction false} DropIsRest<T(!new)>(l: seq<T>, k: nat)
    requires NoRepeats(l)
    ensures Elements(Drop(l, k)) == Elements(l) - Elements(Take(l, k))
  {
    forall x | x in l
      ensures x in Drop(l, k) <==> x !in Take(l, k)
    {
      var i :| 0 <= i < |l| && l[i] == x;
      if k <= i {
        assert Drop(l, k)[i - k] == x;
      } else {
        assert Take(l, k)[i] == x;
      }
    }
  }

  // ---------------------------------------------------------------------------------------
  // Sorting
  // ---------------------------------------------------------------------------------------

  /** A stable insertion sort, newest first. */
  function SortNewest<T>(l: seq<T>, time: T -> int): seq<T> {
    if l == [] then [] else InsertNewest(l[0], SortNewest(l[1..], time), time)
  }

  /** `x` goes in front of the rows that are not newer than it. */
  function InsertNewest<T>(x: T, l: seq<T>, time: T -> int): seq<T> {
    if l == [] || time(x) >= time(l[0]) then [x] + l else [l[0]] + InsertNewest(x, l[1..], time)
  }

  lemma {:induction false} InsertNewestAdds<T(!new)>(x: T, l: seq<T>, time: T -> int)
    ensures multiset(InsertNewest(x, l, time)) == multiset(l) + multiset{x}
    decreases |l|
  {
    if l != [] {
      assert l == [l[0]] + l[1..];
      if time(x) < time(l[0]) {
        InsertNewestAdds(x, l[1..], time);
      }
    }
  }

  /** Putting a row at least as new as every other one in front. */
  lemma {:induction false} FrontKeepsDescending<T(!new)>(x: T, l: seq<T>, time: T -> int)
    requires Descending(l, time) && forall y :: y in l ==> time(y) <= time(x)
    ensures Descending([x] + l, time)
  {
    var m := [x] + l;
    forall i, j | 0 <= i < j < |m|
      ensures time(m[i]) >= time(m[j])
    {
      assert m[j] == l[j - 1];
      if i > 0 {
        assert m[i] == l[i - 1];
      }
    }
  }

  lemma {:induction false} InsertNewestSorts<T(!new)>(x: T, l: seq<T>, time: T -> int)
    requires Descending(l, time)
    ensures Descending(InsertNewest(x, l, time), time)
    decreases |l|
  {
    if l == [] {
      assert [x] + l == [x];
    } else if time(x) >= time(l[0]) {
      FrontKeepsDescending(x, l, time);
    } else {
      var rest := InsertNewest(x, l[1..], time);
      InsertNewestSorts(x, l[1..], time);
      InsertNewestAdds(x, l[1..], time);
      forall y | y in rest
        ensures time(y) <= time(l[0])
      {
        assert y in multiset(rest);
        assert y == x || y in l[1..];
      }
      FrontKeepsDescending(l[0], rest, time);
    }
  }

  lemma {:induction false} SortNewestSorts<T(!new)>(l: seq<T>, time: T -> int)
    ensures Descending(SortNewest(l, time), time) && multiset(SortNewest(l, time)) == multiset(l)
    decreases |l|
  {
    if l != [] {
      SortNewestSorts(l[1..], time);
      InsertNewestSorts(l[0], SortNewest(l[1..], time), time);
      InsertNewestAdds(l[0], SortNewest(l[1..], time), time);
      assert l == [l[0]] + l[1..];
    }
  }

  function OfTime<T>(l: seq<T>, time: T -> int, t: int): seq<T> {
    if l == [] then [] else (if time(l[0]) == t then [l[0]] else []) + OfTime(l[1..], time, t)
  }

  lemma {:induction false} InsertNewestIsStable<T(!new)>(x: T, l: seq<T>, time: T -> int, t: int)
    ensures OfTime(InsertNewest(x, l, time), time, t) == (if time(x) == t then [x] else []) + OfTime(l, time, t)
    decreases |l|
  {
    if l == [] || time(x) >= time(l[0]) {
      assert ([x] + l)[1..] == l;
    } else {
      var rest := InsertNewest(x, l[1..], time);
      InsertNewestIsStable(x, l[1..], time, t);
      assert ([l[0]] + rest)[1..] == rest;
    }
  }

  /** Rows of one age stay in the order they had. */
  lemma {:induction false} SortNewestIsStable<T(!new)>(l: seq<T>, time: T -> int, t: int)
    ensures OfTime(SortNewest(l, time), time, t) == OfTime(l, time, t)
    decreases |l|
  {
    if l != [] {
      SortNewestIsStable(l[1..], time, t);
      InsertNewestIsStable(l[0], SortNewest(l[1..], time), time, t);
    }
  }

  /** No element occurs twice iff no multiplicity exceeds one. */
  lemma {:induction false} NoRepeatsByCount<T(!new)>(l: seq<T>)
    ensures NoRepeats(l) <==> forall x :: multiset(l)[x] <= 1
    decreases |l|
  {
    if l != [] {
      var t := l[1..];
      assert l == [l[0]] + t;
      NoRepeatsByCount(t);
      if NoRepeats(l) {
        forall i, j | 0 <= i < j < |t|
          ensures t[i] != t[j] && t[j] != l[0]
        {
          assert t[i] == l[i + 1] && t[j] == l[j + 1];
        }
        assert |t| > 0 ==> t[0] == l[1] && t[0] != l[0];
      }
      if forall x :: multiset(l)[x] <= 1 {
        assert forall x :: multiset(t)[x] <= multiset(l)[x];
        assert multiset(l)[l[0]] == multiset(t)[l[0]] + 1;
        assert l[0] !in t;
        forall i, j | 0 <= i < j < |l|
          ensures l[i] != l[j]
        {
          assert l[j] == t[j - 1];
          assert i > 0 ==> l[i] == t[i - 1];
        }
      }
    }
  }

  /** Sorting a list without repetitions lists its elements newest first. */
  lemma {:induction false} SortNewestLists<T(!new)>(l: seq<T>, time: T -> int)
    requires NoRepeats(l)
    ensures Listing(SortNewest(l, time), Elements(l), time)
  {
    var sorted := SortNewest(l, time);
    SortNewestSorts(l, time);
    NoRepeatsByCount(l);
    NoRepeatsByCount(sorted);
    forall x
      ensures x in sorted <==> x in l
    {
      assert x in sorted <==> x in multiset(sorted);
    }
  }
}
