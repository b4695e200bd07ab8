/** Retention pruning: select the stale ids of one scope, then delete them by id, with any other
    writers and any number of other prunes in between. Both hops are single statements; nothing
    is locked. A scope is one `(symbol, locale)` or one `(preset, locale)`. */
module Retention {
  import opened Recency

  type Scope = string

  type Id = string

  datatype Row = Row(id: Id, scope: Scope, createdAt: int)

  function CreatedAt(r: Row): int { r.createdAt }

  function In(rows: set<Row>, scope: Scope): set<Row> {
    set r | r in rows && r.scope == scope
  }

  /** The rank cut: the ids past the first `keep` rows, in listing order, and all of them when `keep` is
      negative. */
  function ExtractStaleRowIds(listing: seq<Row>, keep: int): (stale: seq<Id>)
    ensures 0 <= keep <= |listing| ==>
              |stale| == |listing| - keep && forall j :: 0 <= j < |stale| ==> stale[j] == listing[keep + j].id
    ensures keep < 0 ==> |stale| == |listing| && forall j :: 0 <= j < |stale| ==> stale[j] == listing[j].id
    ensures keep > |listing| ==> stale == []
  {
    var past := Drop(listing, Clamp(keep));
    seq(|past|, i requires 0 <= i < |past| => past[i].id)
  }

  lemma {:induction false} StaleIds(listing: seq<Row>, keep: int, d: Id)
    ensures d in Elements(ExtractStaleRowIds(listing, keep)) <==>
            exists r :: r in Drop(listing, Clamp(keep)) && r.id == d
  {
    var past := Drop(listing, Clamp(keep));
    if r :| r in past && r.id == d {
      var i :| 0 <= i < |past| && past[i] == r;
      assert ExtractStaleRowIds(listing, keep)[i] == d;
    }
  }

  function Clamp(keep: int): nat {
    if keep < 0 then 0 else keep
  }

  // ---------------------------------------------------------------------------------------
  // The cut
  // ---------------------------------------------------------------------------------------

  function Kept(listing: seq<Row>, k: nat): set<Row> {
    Elements(Take(listing, k))
  }

  /** Two rows of equal age sit on either side of the cut. */
  predicate TieAtCut(listing: seq<Row>, k: int) {
    0 < k < |listing| && listing[k - 1].createdAt == listing[k].createdAt
  }

  lemma {:induction false} KeptSize(listing: seq<Row>, rows: set<Row>, k: nat)
    requires Listing(listing, rows, CreatedAt)
    ensures Kept(listing, k) <= rows && |Kept(listing, k)| == Min(k, |rows|)
  {
    ElementsSize(Take(listing, k));
    ElementsSize(listing);
  }

  /** Without a tie at the cut, every kept row is strictly newer than every row past it. */
  lemma {:induction false} KeptIsNewer(a: seq<Row>, rows: set<Row>, k: nat, x: Row, y: Row)
    requires Listing(a, rows, CreatedAt) && !TieAtCut(a, k)
    requires x in Kept(a, k) && y in rows - Kept(a, k)
    ensures x.createdAt > y.createdAt
  {
    var i :| 0 <= i < |Take(a, k)| && Take(a, k)[i] == x;
    var j :| 0 <= j < |a| && a[j] == y;
    assert y == a[j] && y !in a[..k];
    assert j >= k;
    assert CreatedAt(a[i]) >= CreatedAt(a[k - 1]) >= CreatedAt(a[k]) >= CreatedAt(a[j]);
  }

  /** A listing keeps a row only together with every newer row. */
  lemma {:induction false} KeptIsUpward(b: seq<Row>, rows: set<Row>, k: nat, x: Row, y: Row)
    requires Listing(b, rows, CreatedAt) && y in Kept(b, k) && x in rows && x.createdAt > y.createdAt
    ensures x in Kept(b, k)
  {
    var j :| 0 <= j < |Take(b, k)| && Take(b, k)[j] == y;
    var i :| 0 <= i < |b| && b[i] == x;
    assert forall p, q :: 0 <= p <= q < |b| ==> CreatedAt(b[p]) >= CreatedAt(b[q]);
    assert i < j;
    assert Take(b, k)[i] == x;
  }

  /** Without a tie at the cut every row past it has at least `k` newer rows. */
  lemma {:induction false} PastCutIsOutranked(listing: seq<Row>, rows: set<Row>, k: nat, r: Row)
    requires Listing(listing, rows, CreatedAt) && !TieAtCut(listing, k) && r in Drop(listing, k)
    ensures r in rows && |Newer(rows, CreatedAt, r)| >= k
  {
    var past := Drop(listing, k);
    var i :| 0 <= i < |past| && past[i] == r;
    assert listing[k + i] == r && r in Elements(listing);
    assert r !in Kept(listing, k);
    KeptSize(listing, rows, k);
    forall x | x in Kept(listing, k)
      ensures x in Newer(rows, CreatedAt, r)
    {
      KeptIsNewer(listing, rows, k, x, r);
    }
    SubsetSize(Kept(listing, k), Newer(rows, CreatedAt, r));
    ElementsSize(listing);
  }

  /** Without a tie at the cut what is kept is the newest `k`. */
  lemma {:induction false} KeptIsTop(listing: seq<Row>, rows: set<Row>, k: nat)
    requires Listing(listing, rows, CreatedAt) && !TieAtCut(listing, k)
    ensures Kept(listing, k) == Top(rows, CreatedAt, k)
  {
    KeptSize(listing, rows, k);
    DropIsRest(listing, k);
    forall x | x in rows
      ensures x in Kept(listing, k) <==> x in Top(rows, CreatedAt, k)
    {
      if x in Kept(listing, k) {
        forall y | y in Newer(rows, CreatedAt, x)
          ensures y in Kept(listing, k) - {x}
        {
          KeptIsUpward(listing, rows, k, y, x);
        }
        SubsetSize(Newer(rows, CreatedAt, x), Kept(listing, k) - {x});
      } else {
        assert x in Elements(Drop(listing, k));
        PastCutIsOutranked(listing, rows, k, x);
      }
    }
  }

  // ---------------------------------------------------------------------------------------
  // The protocol
  // ---------------------------------------------------------------------------------------

  /** `inserted` records every row ever inserted; `plans` every first hop, in order. A second hop
      may run late, never, or more than once (a retried delete). */
  datatype State = State(rows: set<Row>, inserted: set<Row>, plans: seq<Plan>)

  datatype Plan = Plan(scope: Scope, stale: set<Id>)

  datatype Event =
    | Insert(row: Row)
    | Select(scope: Scope, keep: int, listing: seq<Row>)
    | Delete(plan: nat)

  const INITIAL := State({}, {}, [])

  ghost predicate Enabled(s: State, e: Event) {
    match e
    case Insert(row) => forall r :: r in s.inserted ==> r.id != row.id
    case Select(scope, _, listing) => Listing(listing, In(s.rows, scope), CreatedAt)
    case Delete(p) => p < |s.plans|
  }

  function Step(s: State, e: Event): State
    requires e.Delete? ==> e.plan < |s.plans|
  {
    match e
    case Insert(row) => s.(rows := s.rows + {row}, inserted := s.inserted + {row})
    case Select(scope, keep, listing) =>
      s.(plans := s.plans + [Plan(scope, Elements(ExtractStaleRowIds(listing, keep)))])
    case Delete(p) => s.(rows := DeleteIds(s.rows, s.plans[p].stale))
  }

  function DeleteIds(rows: set<Row>, ids: set<Id>): set<Row> {
    set r | r in rows && r.id !in ids
  }

  ghost predicate Feasible(s: State, es: seq<Event>)
    decreases |es|
  {
    es == [] || (Enabled(s, es[0]) && Feasible(Step(s, es[0]), es[1..]))
  }

  ghost function After(s: State, es: seq<Event>): State
    requires Feasible(s, es)
    decreases |es|
  {
    if es == [] then s else After(Step(s, es[0]), es[1..])
  }

  lemma {:induction false} Prepend(s: State, e: Event, es: seq<Event>)
    requires Enabled(s, e) && Feasible(Step(s, e), es)
    ensures Feasible(s, [e] + es) && After(s, [e] + es) == After(Step(s, e), es)
  {
    assert ([e] + es)[1..] == es;
  }

  /** No prune of the run was asked to keep fewer than `floor` rows. */
  predicate KeepsAtLeast(es: seq<Event>, floor: nat) {
    forall k :: 0 <= k < |es| && es[k].Select? ==> floor == 0 || es[k].keep >= floor
  }

  /** Every prune of the run cut its listing between rows of different age. Ties elsewhere are harmless. */
  predicate UntiedCuts(es: seq<Event>) {
    forall k :: 0 <= k < |es| && es[k].Select? ==> !TieAtCut(es[k].listing, es[k].keep)
  }

  /** Within each scope no two rows ever inserted carry the same timestamp. */
  ghost predicate DistinctTimes(s: State) {
    forall r, q :: r in s.inserted && q in s.inserted && r.scope == q.scope && r.createdAt == q.createdAt ==> r == q
  }

  // ---------------------------------------------------------------------------------------
  // Stale is stable
  // ---------------------------------------------------------------------------------------

  /** `r` has at least `floor` newer rows in its scope right now. */
  predicate Outranked(s: State, floor: nat, r: Row) {
    |Newer(In(s.rows, r.scope), CreatedAt, r)| >= floor
  }

  ghost predicate IdsUnique(s: State) {
    && s.rows <= s.inserted
    && (forall r, q :: r in s.inserted && q in s.inserted && r.id == q.id ==> r == q)
    && (forall p, d :: 0 <= p < |s.plans| && d in s.plans[p].stale ==> exists r :: r in s.inserted && r.id == d)
  }

  ghost predicate Inv(s: State, floor: nat) {
    && IdsUnique(s)
    && (forall p, r :: 0 <= p < |s.plans| && r in s.rows && r.id in s.plans[p].stale ==> Outranked(s, floor, r))
    && (forall r :: r in s.inserted && r !in s.rows ==> Outranked(s, floor, r))
  }

  lemma {:induction false} InsertKeepsInv(s: State, floor: nat, row: Row)
    requires Inv(s, floor) && Enabled(s, Insert(row))
    ensures Inv(Step(s, Insert(row)), floor)
  {
    var s' := Step(s, Insert(row));
    forall r | r in s.inserted && Outranked(s, floor, r)
      ensures Outranked(s', floor, r)
    {
      SubsetSize(Newer(In(s.rows, r.scope), CreatedAt, r), Newer(In(s'.rows, r.scope), CreatedAt, r));
    }
    forall p, d | 0 <= p < |s'.plans| && d in s'.plans[p].stale
      ensures exists r :: r in s'.inserted && r.id == d
    {
      var r :| r in s.inserted && r.id == d;
      assert r in s'.inserted;
    }
    forall p, r | 0 <= p < |s'.plans| && r in s'.rows && r.id in s'.plans[p].stale
      ensures Outranked(s', floor, r)
    {
      assert r.id in s.plans[p].stale;
      assert r != row;
      assert r in s.rows && Outranked(s, floor, r);
    }
  }

  lemma {:induction false} SelectKeepsInv(s: State, floor: nat, scope: Scope, keep: int, listing: seq<Row>)
    requires Inv(s, floor) && Enabled(s, Select(scope, keep, listing))
    requires (floor == 0 || keep >= floor) && !TieAtCut(listing, keep)
    ensures Inv(Step(s, Select(scope, keep, listing)), floor)
  {
    var s' := Step(s, Select(scope, keep, listing));
    forall p, d | 0 <= p < |s'.plans| && d in s'.plans[p].stale
      ensures exists r :: r in s'.inserted && r.id == d
      ensures forall r :: r in s.rows && r.id == d ==> Outranked(s', floor, r)
    {
      if p == |s.plans| {
        StaleIds(listing, keep, d);
        var q :| q in Drop(listing, Clamp(keep)) && q.id == d;
        PastCutIsOutranked(listing, In(s.rows, scope), Clamp(keep), q);
        assert forall r :: r in s.rows && r.id == d ==> r == q;
      } else {
        assert d in s.plans[p].stale;
        assert forall r :: r in s.rows && r.id == d ==> Outranked(s, floor, r);
      }
    }
  }

  /** A second hop, however late, takes nothing out of the newest `floor` rows of any scope. */
  lemma {:induction false} DeleteSparesTop(s: State, floor: nat, p: nat, scope: Scope)
    requires Inv(s, floor) && p < |s.plans|
    ensures var gone := s.rows - DeleteIds(s.rows, s.plans[p].stale);
            && gone !! Top(In(s.rows, scope), CreatedAt, floor)
            && In(Step(s, Delete(p)).rows, scope) == In(s.rows, scope) - gone
            && Top(In(Step(s, Delete(p)).rows, scope), CreatedAt, floor) == Top(In(s.rows, scope), CreatedAt, floor)
  {
    var gone := s.rows - DeleteIds(s.rows, s.plans[p].stale);
    forall r | r in gone
      ensures r !in Top(In(s.rows, scope), CreatedAt, floor)
    {
      assert r.id in s.plans[p].stale;
      assert Outranked(s, floor, r);
    }
    assert In(Step(s, Delete(p)).rows, scope) == In(s.rows, scope) - gone;
    TopUnchanged(In(s.rows, scope), gone, CreatedAt, floor);
  }

  lemma {:induction false} DeleteKeepsInv(s: State, floor: nat, p: nat)
    requires Inv(s, floor) && Enabled(s, Delete(p))
    ensures Inv(Step(s, Delete(p)), floor)
  {
    var s' := Step(s, Delete(p));
    var gone := s.rows - DeleteIds(s.rows, s.plans[p].stale);
    forall r | r in s.inserted && Outranked(s, floor, r)
      ensures Outranked(s', floor, r)
    {
      DeleteSparesTop(s, floor, p, r.scope);
      StaleStaysStale(In(s.rows, r.scope), gone, CreatedAt, floor, r);
    }
  }

  /** Every step keeps the invariant: a row planned for deletion, or already deleted, never has
      fewer than `floor` newer rows, whatever other writers do meanwhile. */
  lemma {:induction false} StepKeepsInv(s: State, floor: nat, e: Event)
    requires Inv(s, floor) && Enabled(s, e)
    requires e.Select? ==> (floor == 0 || e.keep >= floor) && !TieAtCut(e.listing, e.keep)
    ensures Inv(Step(s, e), floor)
  {
    match e
    case Insert(row) => InsertKeepsInv(s, floor, row);
    case Select(scope, keep, listing) => SelectKeepsInv(s, floor, scope, keep, listing);
    case Delete(p) => DeleteKeepsInv(s, floor, p);
  }

  lemma {:induction false} InsertedOnlyGrows(s: State, es: seq<Event>)
    requires Feasible(s, es)
    ensures s.inserted <= After(s, es).inserted
    decreases |es|
  {
    if es != [] {
      InsertedOnlyGrows(Step(s, es[0]), es[1..]);
    }
  }

  lemma {:induction false} RunKeepsInv(s: State, floor: nat, es: seq<Event>)
    requires Inv(s, floor) && Feasible(s, es) && KeepsAtLeast(es, floor) && UntiedCuts(es)
    ensures Inv(After(s, es), floor)
    decreases |es|
  {
    if es != [] {
      StepKeepsInv(s, floor, es[0]);
      RunKeepsInv(Step(s, es[0]), floor, es[1..]);
    }
  }

  // ---------------------------------------------------------------------------------------
  // What every run guarantees
  // ---------------------------------------------------------------------------------------

  /** After any interleaving the newest `floor` surviving rows of each scope are the newest `floor`
      rows EVER inserted there, so at least `min(floor, ever inserted)` rows are left. */
  lemma {:induction false} PrunesNeverTouchTheNewest(es: seq<Event>, floor: nat, scope: Scope)
    requires Feasible(INITIAL, es) && KeepsAtLeast(es, floor) && UntiedCuts(es)
    ensures var s := After(INITIAL, es);
            && Top(In(s.rows, scope), CreatedAt, floor) == Top(In(s.inserted, scope), CreatedAt, floor)
            && |In(s.rows, scope)| >= Min(floor, |In(s.inserted, scope)|)
  {
    RunKeepsInv(INITIAL, floor, es);
    var s := After(INITIAL, es);
    var all, left := In(s.inserted, scope), In(s.rows, scope);
    forall r | r in all - left
      ensures |Newer(all, CreatedAt, r)| >= floor
    {
      assert Outranked(s, floor, r);
      SubsetSize(Newer(left, CreatedAt, r), Newer(all, CreatedAt, r));
    }
    TopUnchanged(all, all - left, CreatedAt, floor);
    assert all - (all - left) == left;
    TopIsLarge(all, CreatedAt, floor);
    SubsetSize(Top(left, CreatedAt, floor), left);
  }

  /** Distinct timestamps rule ties out of every cut. */
  lemma {:induction false} DistinctTimesAreUntied(s: State, es: seq<Event>)
    requires Feasible(s, es) && s.rows <= s.inserted && DistinctTimes(After(s, es))
    ensures UntiedCuts(es)
    decreases |es|
  {
    if es != [] {
      InsertedOnlyGrows(s, es);
      DistinctTimesAreUntied(Step(s, es[0]), es[1..]);
      if es[0].Select? {
        UntiedListing(s, es[0].scope, es[0].listing, es[0].keep);
      }
      assert es == [es[0]] + es[1..];
    }
  }

  lemma {:induction false} UntiedListing(s: State, scope: Scope, listing: seq<Row>, k: int)
    requires s.rows <= s.inserted && DistinctTimes(s) && Listing(listing, In(s.rows, scope), CreatedAt)
    ensures !TieAtCut(listing, k)
  {
    if 0 < k < |listing| {
      assert listing[k - 1] in Elements(listing) && listing[k] in Elements(listing);
    }
  }

  /** The same for pairwise distinct timestamps. */
  lemma {:induction false} DistinctTimesAreSafe(es: seq<Event>, floor: nat, scope: Scope)
    requires Feasible(INITIAL, es) && KeepsAtLeast(es, floor) && DistinctTimes(After(INITIAL, es))
    ensures var s := After(INITIAL, es);
            && Top(In(s.rows, scope), CreatedAt, floor) == Top(In(s.inserted, scope), CreatedAt, floor)
            && |In(s.rows, scope)| >= Min(floor, |In(s.inserted, scope)|)
  {
    DistinctTimesAreUntied(INITIAL, es);
    PrunesNeverTouchTheNewest(es, floor, scope);
  }

  /** Every row still planned for deletion has at least `floor` newer rows at every later moment. */
  lemma {:induction false} PlannedRowsStayStale(es: seq<Event>, floor: nat, p: nat, r: Row)
    requires Feasible(INITIAL, es) && KeepsAtLeast(es, floor) && UntiedCuts(es)
    requires p < |After(INITIAL, es).plans| && r in After(INITIAL, es).rows && r.id in After(INITIAL, es).plans[p].stale
    ensures |Newer(In(After(INITIAL, es).rows, r.scope), CreatedAt, r)| >= floor
  {
    RunKeepsInv(INITIAL, floor, es);
    assert Outranked(After(INITIAL, es), floor, r);
  }

  predicate IsLatest(rows: set<Row>, scope: Scope, r: Row) {
    r in In(rows, scope) && Newer(In(rows, scope), CreatedAt, r) == {}
  }

  /** When every prune keeps at least one row, executing any planned delete leaves "latest" alone. */
  lemma {:induction false} LatestSurvivesPrune(es: seq<Event>, p: nat, scope: Scope, r: Row)
    requires Feasible(INITIAL, es) && KeepsAtLeast(es, 1) && UntiedCuts(es)
    requires p < |After(INITIAL, es).plans|
    ensures var s := After(INITIAL, es);
            IsLatest(s.rows, scope, r) <==> IsLatest(Step(s, Delete(p)).rows, scope, r)
  {
    RunKeepsInv(INITIAL, 1, es);
    var s := After(INITIAL, es);
    DeleteSparesTop(s, 1, p, scope);
    LatestIsTopOne(s.rows, scope, r);
    LatestIsTopOne(Step(s, Delete(p)).rows, scope, r);
  }

  lemma {:induction false} LatestIsTopOne(rows: set<Row>, scope: Scope, r: Row)
    ensures IsLatest(rows, scope, r) <==> r in Top(In(rows, scope), CreatedAt, 1)
  {
    assert |Newer(In(rows, scope), CreatedAt, r)| == 0 <==> Newer(In(rows, scope), CreatedAt, r) == {};
  }

  // ---------------------------------------------------------------------------------------
  // One prune on its own, negative settings, and ties
  // ---------------------------------------------------------------------------------------

  ghost predicate UniqueIds(rows: set<Row>) {
    forall r, q :: r in rows && q in rows && r.id == q.id ==> r == q
  }

  /** Ids being unique, deleting the stale ids deletes exactly the rows past the cut. */
  lemma {:induction false} DeletesPastCut(rows: set<Row>, scope: Scope, keep: int, listing: seq<Row>)
    requires UniqueIds(rows) && Listing(listing, In(rows, scope), CreatedAt)
    ensures DeleteIds(rows, Elements(ExtractStaleRowIds(listing, keep))) == rows - Elements(Drop(listing, Clamp(keep)))
  {
    forall r | r in rows
      ensures r.id in Elements(ExtractStaleRowIds(listing, keep)) <==> r in Drop(listing, Clamp(keep))
    {
      StaleIds(listing, keep, r.id);
      if q :| q in Drop(listing, Clamp(keep)) && q.id == r.id {
        assert q in Elements(listing);
        assert q == r;
      }
    }
  }

  /** Of its own scope it leaves the rows before the cut, whichever order ties were listed in. */
  lemma {:induction false} LeavesKept(rows: set<Row>, scope: Scope, keep: int, listing: seq<Row>)
    requires UniqueIds(rows) && Listing(listing, In(rows, scope), CreatedAt)
    ensures In(DeleteIds(rows, Elements(ExtractStaleRowIds(listing, keep))), scope) == Kept(listing, Clamp(keep))
  {
    DeletesPastCut(rows, scope, keep, listing);
    DropIsRest(listing, Clamp(keep));
    var kept, past := Kept(listing, Clamp(keep)), Elements(Drop(listing, Clamp(keep)));
    assert kept <= Elements(listing);
    assert In(rows - past, scope) == In(rows, scope) - past;
  }

  /** With nothing in between, a prune whose cut is untied leaves exactly the newest `max(keep, 0)` rows of
      its scope and every row of the other scopes. */
  lemma {:induction false} QuietPruneIsExact(rows: set<Row>, scope: Scope, keep: int, listing: seq<Row>)
    requires UniqueIds(rows) && Listing(listing, In(rows, scope), CreatedAt) && !TieAtCut(listing, keep)
    ensures var left := DeleteIds(rows, Elements(ExtractStaleRowIds(listing, keep)));
            && In(left, scope) == Top(In(rows, scope), CreatedAt, if keep < 0 then 0 else keep)
            && |In(left, scope)| == Min(if keep < 0 then 0 else keep, |In(rows, scope)|)
            && left - In(left, scope) == rows - In(rows, scope)
  {
    LeavesKept(rows, scope, keep, listing);
    KeptIsTop(listing, In(rows, scope), Clamp(keep));
    KeptSize(listing, In(rows, scope), Clamp(keep));
    LeavesOtherScopes(rows, scope, keep, listing);
  }

  lemma {:induction false} LeavesOtherScopes(rows: set<Row>, scope: Scope, keep: int, listing: seq<Row>)
    requires UniqueIds(rows) && Listing(listing, In(rows, scope), CreatedAt)
    ensures var left := DeleteIds(rows, Elements(ExtractStaleRowIds(listing, keep)));
            left - In(left, scope) == rows - In(rows, scope)
  {
    DeletesPastCut(rows, scope, keep, listing);
    DropIsRest(listing, Clamp(keep));
    var past := Elements(Drop(listing, Clamp(keep)));
    assert past <= In(rows, scope);
    assert (rows - past) - In(rows - past, scope) == rows - In(rows, scope);
  }

  /** The clamp does not protect the table: a prune plans to delete every row of a non-empty scope
      exactly when `keep` is zero or negative. */
  lemma {:induction false} WipesScopeIffNotPositive(rows: set<Row>, scope: Scope, keep: int, listing: seq<Row>)
    requires UniqueIds(rows) && Listing(listing, In(rows, scope), CreatedAt) && In(rows, scope) != {}
    ensures In(DeleteIds(rows, Elements(ExtractStaleRowIds(listing, keep))), scope) == {} <==> keep <= 0
  {
    LeavesKept(rows, scope, keep, listing);
    KeptSize(listing, In(rows, scope), Clamp(keep));
    assert |In(rows, scope)| > 0;
    assert |Kept(listing, Clamp(keep))| == 0 <==> Kept(listing, Clamp(keep)) == {};
  }

  lemma {:induction false} EqualBySize<T>(a: set<T>, b: set<T>)
    requires a <= b && |a| == |b|
    ensures a == b
  {
    assert b == a + (b - a);
  }

  /** Without a tie at the cut every listing keeps the same rows. */
  lemma {:induction false} KeptIsForced(a: seq<Row>, b: seq<Row>, rows: set<Row>, k: nat)
    requires Listing(a, rows, CreatedAt) && Listing(b, rows, CreatedAt) && !TieAtCut(a, k)
    ensures Kept(a, k) == Kept(b, k)
  {
    KeptSize(a, rows, k);
    KeptSize(b, rows, k);
    if y :| y in Kept(b, k) && y !in Kept(a, k) {
      forall x | x in Kept(a, k)
        ensures x in Kept(b, k)
      {
        KeptIsNewer(a, rows, k, x, y);
        KeptIsUpward(b, rows, k, x, y);
      }
      EqualBySize(Kept(a, k), Kept(b, k));
    } else {
      EqualBySize(Kept(b, k), Kept(a, k));
    }
  }

  /** Swapping the two rows at a tied cut gives another answer the database may return. */
  lemma {:induction false} SwapAtTie(a: seq<Row>, rows: set<Row>, k: nat)
    requires Listing(a, rows, CreatedAt) && TieAtCut(a, k)
    ensures exists b :: Listing(b, rows, CreatedAt) && a[k - 1] !in Kept(b, k)
  {
    var b := a[k - 1 := a[k]][k := a[k - 1]];
    forall x | x in rows
      ensures x in Elements(b)
    {
      var i :| 0 <= i < |a| && a[i] == x;
      assert b[if i == k then k - 1 else if i == k - 1 then k else i] == x;
    }
    assert Take(a, k)[k - 1] == a[k - 1];
    assert forall j :: 0 <= j < k ==> b[j] != a[k - 1];
    assert Listing(b, rows, CreatedAt) && a[k - 1] !in Kept(b, k);
  }

  /** Two listings of one set of rows keep `min(k, n)` rows in common, whatever the second one is, iff no
      two rows of equal age straddle the cut of the first. */
  lemma {:induction false} KeptAgreeIff(a: seq<Row>, rows: set<Row>, k: nat)
    requires Listing(a, rows, CreatedAt)
    ensures (forall b :: Listing(b, rows, CreatedAt) ==> |Kept(a, k) * Kept(b, k)| == Min(k, |rows|))
            <==> !TieAtCut(a, k)
  {
    KeptSize(a, rows, k);
    if TieAtCut(a, k) {
      SwapAtTie(a, rows, k);
      var b :| Listing(b, rows, CreatedAt) && a[k - 1] !in Kept(b, k);
      assert Take(a, k)[k - 1] == a[k - 1];
      var both := Kept(a, k) * Kept(b, k);
      SubsetSize(both, Kept(a, k) - {a[k - 1]});
      assert |both| < Min(k, |rows|);
    } else {
      forall b | Listing(b, rows, CreatedAt)
        ensures |Kept(a, k) * Kept(b, k)| == Min(k, |rows|)
      {
        KeptIsForced(a, b, rows, k);
        assert Kept(a, k) * Kept(b, k) == Kept(a, k);
      }
    }
  }

  /** Two prunes select, one with listing `a` and one with listing `b`, and then both delete. */
  function TwoPrunes(s: State, scope: Scope, keep: int, a: seq<Row>, b: seq<Row>): State {
    var n := |s.plans|;
    var selected := Step(Step(s, Select(scope, keep, a)), Select(scope, keep, b));
    Step(Step(selected, Delete(n)), Delete(n + 1))
  }

  lemma {:induction false} TwoPrunesLeaveBothKept(s: State, scope: Scope, keep: int, a: seq<Row>, b: seq<Row>)
    requires UniqueIds(s.rows) && Listing(a, In(s.rows, scope), CreatedAt) && Listing(b, In(s.rows, scope), CreatedAt)
    ensures In(TwoPrunes(s, scope, keep, a, b).rows, scope) == Kept(a, Clamp(keep)) * Kept(b, Clamp(keep))
  {
    LeavesKept(s.rows, scope, keep, a);
    LeavesKept(s.rows, scope, keep, b);
    var first, second := Elements(ExtractStaleRowIds(a, keep)), Elements(ExtractStaleRowIds(b, keep));
    var t := TwoPrunes(s, scope, keep, a, b);
    assert t.rows == DeleteIds(DeleteIds(s.rows, first), second);
    assert In(t.rows, scope) == In(DeleteIds(s.rows, first), scope) * In(DeleteIds(s.rows, second), scope);
  }

  /** Exactly when overlapping prunes are safe without distinct timestamps: from any table with unique ids,
      two prunes that both select before either deletes leave `min(keep, n)` rows of the scope, whatever
      order the database lists ties in for the second, iff no two rows of equal age straddle the cut of
      the first. */
  lemma {:induction false} ConcurrentPrunesAgreeIff(s: State, scope: Scope, keep: int, a: seq<Row>)
    requires UniqueIds(s.rows) && Listing(a, In(s.rows, scope), CreatedAt)
    ensures (forall b :: Listing(b, In(s.rows, scope), CreatedAt) ==>
               |In(TwoPrunes(s, scope, keep, a, b).rows, scope)|
               == Min(if keep < 0 then 0 else keep, |In(s.rows, scope)|))
            <==> !TieAtCut(a, keep)
  {
    forall b | Listing(b, In(s.rows, scope), CreatedAt)
      ensures In(TwoPrunes(s, scope, keep, a, b).rows, scope) == Kept(a, Clamp(keep)) * Kept(b, Clamp(keep))
    {
      TwoPrunesLeaveBothKept(s, scope, keep, a, b);
    }
    KeptAgreeIff(a, In(s.rows, scope), Clamp(keep));
  }

  function SelectsThenDeletes(n: nat, scope: Scope, keep: int, a: seq<Row>, b: seq<Row>): seq<Event> {
    [Select(scope, keep, a)] + ([Select(scope, keep, b)] + ([Delete(n)] + ([Delete(n + 1)] + [])))
  }

  lemma {:induction false} TwoPrunesRun(s: State, scope: Scope, keep: int, a: seq<Row>, b: seq<Row>)
    requires Listing(a, In(s.rows, scope), CreatedAt) && Listing(b, In(s.rows, scope), CreatedAt)
    ensures var es := SelectsThenDeletes(|s.plans|, scope, keep, a, b);
            Feasible(s, es) && After(s, es) == TwoPrunes(s, scope, keep, a, b)
  {
    var n := |s.plans|;
    var s1 := Step(s, Select(scope, keep, a));
    var s2 := Step(s1, Select(scope, keep, b));
    var s3 := Step(s2, Delete(n));
    Prepend(s3, Delete(n + 1), []);
    Prepend(s2, Delete(n), [Delete(n + 1)] + []);
    Prepend(s1, Select(scope, keep, b), [Delete(n)] + ([Delete(n + 1)] + []));
    Prepend(s, Select(scope, keep, a), [Select(scope, keep, b)] + ([Delete(n)] + ([Delete(n + 1)] + [])));
  }

  lemma {:induction false} InsertBoth(x: Row, y: Row, rest: seq<Event>)
    requires x.id != y.id && KeepsAtLeast(rest, 1)
    requires Feasible(Step(Step(INITIAL, Insert(x)), Insert(y)), rest)
    ensures exists es :: Feasible(INITIAL, es) && KeepsAtLeast(es, 1) &&
              After(INITIAL, es) == After(Step(Step(INITIAL, Insert(x)), Insert(y)), rest)
  {
    var s1 := Step(INITIAL, Insert(x));
    Prepend(s1, Insert(y), rest);
    Prepend(INITIAL, Insert(x), [Insert(y)] + rest);
    assert KeepsAtLeast([Insert(x)] + ([Insert(y)] + rest), 1);
  }

  /** The two listings the database may give of two tied rows. */
  lemma {:induction false} TiedTable(x: Row, y: Row)
    requires x.scope == y.scope && x.createdAt == y.createdAt && x.id != y.id
    ensures var s := Step(Step(INITIAL, Insert(x)), Insert(y));
            && s.rows == s.inserted == In(s.rows, x.scope) == {x, y} && UniqueIds(s.rows)
            && Listing([x, y], In(s.rows, x.scope), CreatedAt) && Listing([y, x], In(s.rows, x.scope), CreatedAt)
  {
    assert Elements([x, y]) == {x, y} && Elements([y, x]) == {x, y};
  }

  lemma {:induction false} TiedPrunesLeaveNothing(x: Row, y: Row)
    requires x.scope == y.scope && x.createdAt == y.createdAt && x.id != y.id
    ensures var s := Step(Step(INITIAL, Insert(x)), Insert(y));
            TwoPrunes(s, x.scope, 1, [x, y], [y, x]).rows == {}
  {
    TiedTable(x, y);
    var s := Step(Step(INITIAL, Insert(x)), Insert(y));
    var t := TwoPrunes(s, x.scope, 1, [x, y], [y, x]);
    TwoPrunesLeaveBothKept(s, x.scope, 1, [x, y], [y, x]);
    assert Take([x, y], 1) == [x] && Take([y, x], 1) == [y];
    assert t.rows <= s.rows;
    assert In(t.rows, x.scope) == t.rows;
  }

  /** The tie is reachable: two rows of equal age and two prunes keeping one row each, run against
      the same table, delete each other's survivor. */
  lemma {:induction false} TiedPrunesEmptyTheScope(x: Row, y: Row)
    requires x.scope == y.scope && x.createdAt == y.createdAt && x.id != y.id
    ensures exists es :: Feasible(INITIAL, es) && KeepsAtLeast(es, 1) &&
              After(INITIAL, es).inserted == {x, y} && After(INITIAL, es).rows == {}
  {
    TiedTable(x, y);
    TiedPrunesLeaveNothing(x, y);
    var s := Step(Step(INITIAL, Insert(x)), Insert(y));
    TwoPrunesRun(s, x.scope, 1, [x, y], [y, x]);
    InsertBoth(x, y, SelectsThenDeletes(|s.plans|, x.scope, 1, [x, y], [y, x]));
  }

  lemma {:induction false} OneRowPerStaleId(rows: set<Row>, scope: Scope, keep: int, listing: seq<Row>)
    requires UniqueIds(rows) && Listing(listing, In(rows, scope), CreatedAt)
    ensures var stale := ExtractStaleRowIds(listing, keep);
            |stale| == |rows| - |DeleteIds(rows, Elements(stale))|
  {
    var past := Drop(listing, Clamp(keep));
    DeletesPastCut(rows, scope, keep, listing);
    DropIsRest(listing, Clamp(keep));
    ElementsSize(past);
    assert Elements(past) <= rows;
  }

  lemma {:induction false} KeptSpelledOut(listing: seq<Row>, keep: int)
    ensures Kept(listing, Clamp(keep)) == set i | 0 <= i < |listing| && i < keep :: listing[i]
  {
    var first := Take(listing, Clamp(keep));
    assert forall i :: 0 <= i < |first| ==> first[i] == listing[i];
    forall i | 0 <= i < |listing| && i < keep
      ensures listing[i] in first
    {
      assert first[i] == listing[i];
    }
  }

  // ---------------------------------------------------------------------------------------
  // The repository, one caller at a time
  // ---------------------------------------------------------------------------------------

  class SignalTable {
    var rows: set<Row>

    constructor ()
      ensures rows == {}
    {
      rows := {};
    }

    /** `listing` is the answer to the first hop's query. The count returned is the number planned. */
    method PruneForInstrument(scope: Scope, keep: int, listing: seq<Row>) returns (count: nat)
      requires UniqueIds(rows) && Listing(listing, In(rows, scope), CreatedAt)
      modifies this
      ensures In(rows, scope) == set i | 0 <= i < |listing| && i < keep :: listing[i]
      ensures |In(rows, scope)| == Min(if keep < 0 then 0 else keep, |In(old(rows), scope)|)
      ensures !TieAtCut(listing, keep) ==>
                In(rows, scope) == Top(In(old(rows), scope), CreatedAt, if keep < 0 then 0 else keep)
      ensures rows <= old(rows) && forall r :: r in old(rows) && r.scope != scope ==> r in rows
      ensures count == |old(rows)| - |rows|
    {
      LeavesKept(rows, scope, keep, listing);
      LeavesOtherScopes(rows, scope, keep, listing);
      KeptSize(listing, In(rows, scope), Clamp(keep));
      KeptSpelledOut(listing, keep);
      if !TieAtCut(listing, keep) {
        KeptIsTop(listing, In(rows, scope), Clamp(keep));
      }
      OneRowPerStaleId(rows, scope, keep, listing);
      var stale := ExtractStaleRowIds(listing, keep);
      ghost var before := rows;
      if |stale| == 0 {
        assert DeleteIds(rows, Elements(stale)) == rows;
      } else {
        rows := DeleteIds(rows, Elements(stale));
      }
      assert rows == DeleteIds(before, Elements(stale));
      forall r | r in before && r.scope != scope
        ensures r in rows
      {
        assert r in before - In(before, scope);
      }
      count := |stale|;
    }
  }
}
