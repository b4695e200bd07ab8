/** The scenario feed: two limited queries merged in process, against the one-pass filter, sort and
    slice of the in-memory repository used to seed demos. */
module ScenarioFeed {
  import opened Wrappers
  import opened Recency

  datatype Scenario = Scenario(id: string, author: Option<string>, createdAt: int, narrative: string)

  function CreatedAt(r: Scenario): int { r.createdAt }

  predicate Visible(r: Scenario, user: string) {
    r.author.None? || r.author == Some(user)
  }

  function GlobalRows(table: set<Scenario>): set<Scenario> {
    set r | r in table && r.author.None?
  }

  function OwnRows(table: set<Scenario>, user: string): set<Scenario> {
    set r | r in table && r.author == Some(user)
  }

  function VisibleRows(table: set<Scenario>, user: string): set<Scenario> {
    set r | r in table && Visible(r, user)
  }

  /** Ids are primary keys, and the rows this user can see have pairwise distinct timestamps. */
  ghost predicate TableOk(table: set<Scenario>, user: string) {
    && (forall r, q :: r in table && q in table && r.id == q.id ==> r == q)
    && Distinct(VisibleRows(table, user), CreatedAt)
  }

  /** The values of `{r.id: r for r in rows}`: a later row replaces an earlier one in its place. */
  function ValuesById(rows: seq<Scenario>): seq<Scenario> {
    if rows == [] then [] else PutById(ValuesById(rows[..|rows| - 1]), rows[|rows| - 1])
  }

  function PutById(values: seq<Scenario>, r: Scenario): seq<Scenario> {
    if values == [] then [r]
    else if values[0].id == r.id then [r] + values[1..]
    else [values[0]] + PutById(values[1..], r)
  }

  /** `list_recent` of the Supabase repository, given the rows its two queries returned. */
  function ListRecent(globalRows: seq<Scenario>, ownRows: seq<Scenario>, limit: nat): seq<Scenario> {
    Take(SortNewest(ValuesById(globalRows + ownRows), CreatedAt), limit)
  }

  function Filter(rows: seq<Scenario>, user: string): seq<Scenario> {
    if rows == [] then []
    else (if Visible(rows[0], user) then [rows[0]] else []) + Filter(rows[1..], user)
  }

  /** `list_recent` of the in-memory repository, given its dictionary's values in insertion order. */
  function InMemoryListRecent(values: seq<Scenario>, user: string, limit: nat): seq<Scenario> {
    Take(SortNewest(Filter(values, user), CreatedAt), limit)
  }

  // ---------------------------------------------------------------------------------------

  lemma {:induction false} PutNew(values: seq<Scenario>, r: Scenario)
    requires forall i :: 0 <= i < |values| ==> values[i].id != r.id
    ensures PutById(values, r) == values + [r]
    decreases |values|
  {
    if values != [] {
      PutNew(values[1..], r);
      assert values == [values[0]] + values[1..];
    }
  }

  /** With pairwise distinct ids the dictionary keeps every row in its place. */
  lemma {:induction false} ValuesOfDistinctIds(rows: seq<Scenario>)
    requires forall i, j :: 0 <= i < j < |rows| ==> rows[i].id != rows[j].id
    ensures ValuesById(rows) == rows
    decreases |rows|
  {
    if rows != [] {
      var front := rows[..|rows| - 1];
      ValuesOfDistinctIds(front);
      PutNew(front, rows[|rows| - 1]);
      assert rows == front + [rows[|rows| - 1]];
    }
  }

  lemma {:induction false} FilterLists(values: seq<Scenario>, user: string)
    requires NoRepeats(values)
    ensures NoRepeats(Filter(values, user))
    ensures Elements(Filter(values, user)) == VisibleRows(Elements(values), user)
    decreases |values|
  {
    if values != [] {
      var rest := values[1..];
      forall i, j | 0 <= i < j < |rest|
        ensures rest[i] != rest[j]
      {
        assert rest[i] == values[i + 1] && rest[j] == values[j + 1];
      }
      FilterLists(rest, user);
      assert values == [values[0]] + rest;
      assert Elements(values) == {values[0]} + Elements(rest);
      assert values[0] !in rest by {
        assert forall j :: 0 <= j < |rest| ==> rest[j] == values[j + 1];
      }
      var f := Filter(rest, user);
      assert values[0] !in Elements(f);
      assert forall j :: 0 <= j < |f| ==> f[j] in Elements(f);
      assert Elements([values[0]] + f) == {values[0]} + Elements(f);
    }
  }

  /** The newest `k` of a union are found among the newest `k` of each part. */
  lemma {:induction false} TopOfUnion(a: set<Scenario>, b: set<Scenario>, k: nat)
    requires Distinct(a + b, CreatedAt)
    ensures Top(Top(a, CreatedAt, k) + Top(b, CreatedAt, k), CreatedAt, k) == Top(a + b, CreatedAt, k)
  {
    var kept := Top(a, CreatedAt, k) + Top(b, CreatedAt, k);
    var gone := (a + b) - kept;
    forall x | x in Top(a + b, CreatedAt, k)
      ensures x in kept
    {
      SubsetSize(Newer(a, CreatedAt, x), Newer(a + b, CreatedAt, x));
      SubsetSize(Newer(b, CreatedAt, x), Newer(a + b, CreatedAt, x));
    }
    TopUnchanged(a + b, gone, CreatedAt, k);
    assert (a + b) - gone == kept;
  }

  lemma {:induction false} MergedRows(table: set<Scenario>, user: string, globals: seq<Scenario>, owns: seq<Scenario>,
                                      limit: nat)
    requires TableOk(table, user)
    requires Listing(globals, GlobalRows(table), CreatedAt) && Listing(owns, OwnRows(table, user), CreatedAt)
    ensures var rows := Take(globals, limit) + Take(owns, limit);
            && NoRepeats(rows) && ValuesById(rows) == rows
            && Elements(rows) == Top(GlobalRows(table), CreatedAt, limit) + Top(OwnRows(table, user), CreatedAt, limit)
  {
    var g, o := Take(globals, limit), Take(owns, limit);
    var rows := g + o;
    assert VisibleRows(table, user) == GlobalRows(table) + OwnRows(table, user);
    TakeIsTop(globals, GlobalRows(table), CreatedAt, limit);
    TakeIsTop(owns, OwnRows(table, user), CreatedAt, limit);
    assert Elements(rows) == Elements(g) + Elements(o);
    forall i | 0 <= i < |g|
      ensures g[i] in GlobalRows(table)
    {
      assert globals[i] in Elements(globals);
    }
    forall i | 0 <= i < |o|
      ensures o[i] in OwnRows(table, user)
    {
      assert owns[i] in Elements(owns);
    }
    forall i, j | 0 <= i < j < |rows|
      ensures rows[i] != rows[j] && rows[i].id != rows[j].id
    {
      if j < |g| {
        assert globals[i] != globals[j];
      } else if i >= |g| {
        assert owns[i - |g|] != owns[j - |g|];
      }
    }
    ValuesOfDistinctIds(rows);
  }

  /** The merged feed equals filtering all rows, sorting them and cutting, whatever rows the table
      holds beside them and whatever order the dictionary has. */
  lemma {:induction false} MergeEqualsReference(table: set<Scenario>, user: string, globals: seq<Scenario>,
                                                owns: seq<Scenario>, values: seq<Scenario>, limit: nat)
    requires TableOk(table, user)
    requires Listing(globals, GlobalRows(table), CreatedAt) && Listing(owns, OwnRows(table, user), CreatedAt)
    requires NoRepeats(values) && Elements(values) == table
    ensures ListRecent(Take(globals, limit), Take(owns, limit), limit) == InMemoryListRecent(values, user, limit)
  {
    var rows := Take(globals, limit) + Take(owns, limit);
    var visible := VisibleRows(table, user);
    assert visible == GlobalRows(table) + OwnRows(table, user);
    MergedRows(table, user, globals, owns, limit);
    TopOfUnion(GlobalRows(table), OwnRows(table, user), limit);
    FilterLists(values, user);
    SortNewestLists(rows, CreatedAt);
    SortNewestLists(Filter(values, user), CreatedAt);
    var merged, reference := SortNewest(rows, CreatedAt), SortNewest(Filter(values, user), CreatedAt);
    TakeIsTop(merged, Elements(rows), CreatedAt, limit);
    TakeIsTop(reference, visible, CreatedAt, limit);
    TakeIsListing(merged, Elements(rows), CreatedAt, limit);
    TakeIsListing(reference, visible, CreatedAt, limit);
    ListingUnique(Take(merged, limit), Take(reference, limit), Top(visible, CreatedAt, limit), CreatedAt);
  }

  /** Newest first; only global rows and the user's own; and a row of those that is left out is older than
      everything in a full feed. */
  ghost predicate NewestVisible(table: set<Scenario>, user: string, feed: seq<Scenario>, limit: nat) {
    && (forall i, j :: 0 <= i < j < |feed| ==> feed[i].createdAt > feed[j].createdAt)
    && (forall r :: r in feed ==> r in table && (r.author.None? || r.author == Some(user)))
    && (forall r :: r in table && (r.author.None? || r.author == Some(user)) && r !in feed ==>
          |feed| == limit && forall q :: q in feed ==> q.createdAt > r.createdAt)
  }

  /** A row outside the newest `k` is older than each of them. */
  lemma {:induction false} RestIsOlder<T(!new)>(rows: set<T>, time: T -> int, k: nat, r: T, q: T)
    requires r in rows - Top(rows, time, k) && q in Top(rows, time, k)
    ensures time(q) > time(r)
  {
    if time(q) <= time(r) {
      SubsetSize(Newer(rows, time, r), Newer(rows, time, q));
    }
  }

  /** If a row is outside the newest `k`, those are `k` rows. */
  lemma {:induction false} RestMeansFull<T(!new)>(rows: set<T>, time: T -> int, k: nat, r: T)
    requires Distinct(rows, time) && r in rows - Top(rows, time, k)
    ensures |Top(rows, time, k)| == k
  {
    TopSize(rows, time, k);
    SubsetSize(Newer(rows, time, r), rows);
  }

  lemma {:induction false} TopIsNewestVisible(table: set<Scenario>, user: string, feed: seq<Scenario>, limit: nat)
    requires TableOk(table, user) && Listing(feed, Top(VisibleRows(table, user), CreatedAt, limit), CreatedAt)
    ensures NewestVisible(table, user, feed, limit)
  {
    var visible := VisibleRows(table, user);
    var top := Top(visible, CreatedAt, limit);
    ElementsSize(feed);
    forall i, j | 0 <= i < j < |feed|
      ensures feed[i].createdAt > feed[j].createdAt
    {
      assert feed[i] in Elements(feed) && feed[j] in Elements(feed);
      assert CreatedAt(feed[i]) >= CreatedAt(feed[j]) && CreatedAt(feed[i]) != CreatedAt(feed[j]);
    }
    forall r | r in visible && r !in feed
      ensures |feed| == limit
      ensures forall q :: q in feed ==> q.createdAt > r.createdAt
    {
      RestMeansFull(visible, CreatedAt, limit, r);
      forall q | q in feed
        ensures q.createdAt > r.createdAt
      {
        assert q in Elements(feed);
        RestIsOlder(visible, CreatedAt, limit, r, q);
      }
    }
    assert forall r :: r in feed ==> r in Elements(feed);
  }

  /** The feed is a listing of the newest `limit` visible rows: nobody else's row, nothing twice. */
  lemma {:induction false} FeedIsNewestVisible(table: set<Scenario>, user: string, globals: seq<Scenario>,
                                               owns: seq<Scenario>, limit: nat)
    requires TableOk(table, user)
    requires Listing(globals, GlobalRows(table), CreatedAt) && Listing(owns, OwnRows(table, user), CreatedAt)
    ensures var feed := ListRecent(Take(globals, limit), Take(owns, limit), limit);
            && Listing(feed, Top(VisibleRows(table, user), CreatedAt, limit), CreatedAt)
            && |feed| == Min(limit, |VisibleRows(table, user)|)
            && NewestVisible(table, user, feed, limit)
  {
    var rows := Take(globals, limit) + Take(owns, limit);
    assert VisibleRows(table, user) == GlobalRows(table) + OwnRows(table, user);
    MergedRows(table, user, globals, owns, limit);
    TopOfUnion(GlobalRows(table), OwnRows(table, user), limit);
    SortNewestLists(rows, CreatedAt);
    var merged := SortNewest(rows, CreatedAt);
    TakeIsTop(merged, Elements(rows), CreatedAt, limit);
    TakeIsListing(merged, Elements(rows), CreatedAt, limit);
    ElementsSize(Take(merged, limit));
    TopSize(VisibleRows(table, user), CreatedAt, limit);
    TopIsNewestVisible(table, user, Take(merged, limit), limit);
  }
}
