/** Ingesting a page of articles: insert what is new by url, then backfill blank images, summaries
    and categories, then read every row back. The image and summary backfills run concurrently, so
    their order is whatever the event loop makes it. */
module NewsUpsert {
  import opened Wrappers
  import opened Sequences

  /** Everything the backfills never touch: title, source, status, signal and the rest. */
  datatype Fixed = Fixed(title: string, source: string, publishedAt: int, status: string, signal: Option<string>)

  datatype Item = Item(url: string, summary: string, image: Option<string>, category: Option<string>, fixed: Fixed)

  datatype Row = Row(summary: string, image: Option<string>, category: Option<string>, fixed: Fixed)

  type Table = map<string, Row>

  function RowOf(item: Item): Row {
    Row(item.summary, item.image, item.category, item.fixed)
  }

  /** A present, non-empty image address. */
  predicate HasImage(item: Item) {
    item.image.Some? && item.image.value != ""
  }

  // ---------------------------------------------------------------------------------------
  // The statements
  // ---------------------------------------------------------------------------------------

  /** `on conflict (url) do nothing`, row by row. */
  function InsertMissing(table: Table, items: seq<Item>): Table {
    if items == [] then table
    else
      var front := InsertMissing(table, items[..|items| - 1]);
      var item := items[|items| - 1];
      if item.url in front then front else front[item.url := RowOf(item)]
  }

  datatype Update =
    | SetImage(url: string, image: string)              // where image_url is null
    | SetSummary(url: string, summary: string)          // where summary = ''
    | SetCategory(urls: set<string>, category: string)  // where category is null

  function Touch(u: Update, url: string, row: Row): Row {
    match u
    case SetImage(at, image) => if at == url && row.image.None? then row.(image := Some(image)) else row
    case SetSummary(at, summary) => if at == url && row.summary == "" then row.(summary := summary) else row
    case SetCategory(urls, category) =>
      if url in urls && row.category.None? then row.(category := Some(category)) else row
  }

  function Run(table: Table, u: Update): Table {
    map url | url in table :: Touch(u, url, table[url])
  }

  function RunAll(table: Table, us: seq<Update>): Table {
    if us == [] then table else RunAll(Run(table, us[0]), us[1..])
  }

  /** The concurrent backfills, one per item that carries the field. */
  function Backfills(items: seq<Item>): seq<Update> {
    if items == [] then []
    else
      var item := items[0];
      (if HasImage(item) then [SetImage(item.url, item.image.value)] else [])
      + (if item.summary != "" then [SetSummary(item.url, item.summary)] else [])
      + Backfills(items[1..])
  }

  /** One category statement per distinct category, in the order categories first appear. */
  function GroupByCategory(items: seq<Item>): seq<Update> {
    if items == [] then []
    else
      var item := items[|items| - 1];
      var groups := GroupByCategory(items[..|items| - 1]);
      if item.category.None? then groups else AddToGroup(groups, item.category.value, item.url)
  }

  function AddToGroup(groups: seq<Update>, category: string, url: string): seq<Update> {
    if groups == [] then [SetCategory({url}, category)]
    else if groups[0].SetCategory? && groups[0].category == category then
      [SetCategory(groups[0].urls + {url}, category)] + groups[1..]
    else [groups[0]] + AddToGroup(groups[1..], category, url)
  }

  /** The whole of `upsert_many`, given the order in which the concurrent backfills ran, retries
      included. */
  function Upsert(table: Table, items: seq<Item>, schedule: seq<Update>): Table {
    RunAll(InsertMissing(table, items), schedule + GroupByCategory(items))
  }

  /** Every backfill runs, in any order, and runs again when its answer was lost. */
  predicate IsSchedule(schedule: seq<Update>, items: seq<Item>) {
    (forall u :: u in schedule ==> u in Backfills(items)) && (forall u :: u in Backfills(items) ==> u in schedule)
  }

  // ---------------------------------------------------------------------------------------
  // Row by row
  // ---------------------------------------------------------------------------------------

  function RowAfter(us: seq<Update>, url: string, row: Row): Row {
    if us == [] then row else RowAfter(us[1..], url, Touch(us[0], url, row))
  }

  /** Statements act on each row by itself and neither add nor remove rows. */
  lemma {:induction false} RunAllByRow(table: Table, us: seq<Update>)
    ensures RunAll(table, us).Keys == table.Keys
    ensures forall url :: url in table ==> RunAll(table, us)[url] == RowAfter(us, url, table[url])
    decreases |us|
  {
    if us != [] {
      RunAllByRow(Run(table, us[0]), us[1..]);
    }
  }

  /** A row may only gain an image, a summary or a category it did not have. */
  predicate Enriches(a: Row, b: Row) {
    && b.fixed == a.fixed
    && (a.image.Some? ==> b.image == a.image)
    && (a.summary != "" ==> b.summary == a.summary)
    && (a.category.Some? ==> b.category == a.category)
  }

  lemma {:induction false} RowAfterEnriches(us: seq<Update>, url: string, row: Row)
    ensures Enriches(row, RowAfter(us, url, row))
    decreases |us|
  {
    if us != [] {
      RowAfterEnriches(us[1..], url, Touch(us[0], url, row));
    }
  }

  predicate Mentions(items: seq<Item>, url: string) {
    exists i :: 0 <= i < |items| && items[i].url == url
  }

  lemma {:induction false} MentionsLast(items: seq<Item>, url: string)
    requires items != []
    ensures Mentions(items, url) <==> url == items[|items| - 1].url || Mentions(items[..|items| - 1], url)
  {
    var front := items[..|items| - 1];
    if i :| 0 <= i < |items| && items[i].url == url {
      assert i < |front| ==> front[i].url == url;
    }
    if i :| 0 <= i < |front| && front[i].url == url {
      assert items[i].url == url;
    }
  }

  lemma {:induction false} InsertKeepsRows(table: Table, items: seq<Item>)
    ensures forall url :: url in table ==>
              url in InsertMissing(table, items) && InsertMissing(table, items)[url] == table[url]
    ensures forall url :: url in InsertMissing(table, items) <==> url in table || Mentions(items, url)
    decreases |items|
  {
    if items != [] {
      InsertKeepsRows(table, items[..|items| - 1]);
      forall url: string
        ensures Mentions(items, url) <==> url == items[|items| - 1].url || Mentions(items[..|items| - 1], url)
      {
        MentionsLast(items, url);
      }
    }
  }

  /** Whatever the page holds and however the backfills interleave, every stored row stays and can
      only be enriched: status, signal and every filled field are kept. */
  lemma {:induction false} UpsertIsMonotone(table: Table, items: seq<Item>, schedule: seq<Update>)
    ensures forall url :: url in table ==>
              url in Upsert(table, items, schedule) && Enriches(table[url], Upsert(table, items, schedule)[url])
    ensures forall url :: url in Upsert(table, items, schedule) <==>
              url in table || Mentions(items, url)
  {
    var us := schedule + GroupByCategory(items);
    InsertKeepsRows(table, items);
    RunAllByRow(InsertMissing(table, items), us);
    forall url | url in table
      ensures Enriches(table[url], Upsert(table, items, schedule)[url])
    {
      RowAfterEnriches(us, url, table[url]);
    }
  }

  // ---------------------------------------------------------------------------------------
  // Which updates a page makes
  // ---------------------------------------------------------------------------------------

  /** `u` is one of the backfills this item asks for. */
  predicate AskedBy(item: Item, u: Update) {
    || (HasImage(item) && u == SetImage(item.url, item.image.value))
    || (item.summary != "" && u == SetSummary(item.url, item.summary))
  }

  lemma {:induction false} BackfillMembers(items: seq<Item>, u: Update)
    ensures u in Backfills(items) <==> exists i :: 0 <= i < |items| && AskedBy(items[i], u)
    decreases |items|
  {
    if items != [] {
      var rest := items[1..];
      BackfillMembers(rest, u);
      if i :| 0 <= i < |rest| && AskedBy(rest[i], u) {
        assert AskedBy(items[i + 1], u);
      }
      if i :| 0 <= i < |items| && AskedBy(items[i], u) {
        assert i > 0 ==> AskedBy(rest[i - 1], u);
      }
    }
  }

  ghost predicate Assigned(groups: seq<Update>, category: string, url: string) {
    exists g :: 0 <= g < |groups| && groups[g].SetCategory? && groups[g].category == category && url in groups[g].urls
  }

  lemma {:induction false} AddToGroupMembers(groups: seq<Update>, category: string, url: string, c: string, u: string)
    ensures Assigned(AddToGroup(groups, category, url), c, u) <==> Assigned(groups, c, u) || (c == category && u == url)
    ensures (forall g :: 0 <= g < |groups| ==> groups[g].SetCategory?) ==>
              forall g :: 0 <= g < |AddToGroup(groups, category, url)| ==>
                AddToGroup(groups, category, url)[g].SetCategory?
    decreases |groups|
  {
    var after := AddToGroup(groups, category, url);
    if groups == [] {
      assert after[0] == SetCategory({url}, category);
    } else {
      var rest := groups[1..];
      AssignedSplits(groups, c, u);
      AssignedSplits(after, c, u);
      if groups[0].SetCategory? && groups[0].category == category {
        assert after[1..] == rest;
      } else {
        AddToGroupMembers(rest, category, url, c, u);
        assert after[1..] == AddToGroup(rest, category, url);
      }
    }
  }

  lemma {:induction false} AssignedSplits(groups: seq<Update>, c: string, u: string)
    requires groups != []
    ensures Assigned(groups, c, u) <==>
            (groups[0].SetCategory? && groups[0].category == c && u in groups[0].urls) || Assigned(groups[1..], c, u)
  {
    if g :| 0 <= g < |groups| && groups[g].SetCategory? && groups[g].category == c && u in groups[g].urls {
      assert g > 0 ==> groups[1..][g - 1] == groups[g];
    }
    var rest := groups[1..];
    if g :| 0 <= g < |rest| && rest[g].SetCategory? && rest[g].category == c && u in rest[g].urls {
      assert groups[g + 1] == groups[1..][g];
    }
  }

  /** Batching by category assigns each url exactly the categories its items carry. */
  lemma {:induction false} GroupMembers(items: seq<Item>, c: string, u: string)
    ensures Assigned(GroupByCategory(items), c, u) <==>
            exists i :: 0 <= i < |items| && items[i].category == Some(c) && items[i].url == u
    ensures forall g :: 0 <= g < |GroupByCategory(items)| ==> GroupByCategory(items)[g].SetCategory?
    decreases |items|
  {
    if items != [] {
      var front, item := items[..|items| - 1], items[|items| - 1];
      GroupMembers(front, c, u);
      if item.category.Some? {
        AddToGroupMembers(GroupByCategory(front), item.category.value, item.url, c, u);
      }
      if i :| 0 <= i < |front| && front[i].category == Some(c) && front[i].url == u {
        assert items[i] == front[i];
      }
      if i :| 0 <= i < |items| && items[i].category == Some(c) && items[i].url == u {
        assert i < |front| ==> front[i] == items[i];
      }
    }
  }

  // ---------------------------------------------------------------------------------------
  // Idempotence
  // ---------------------------------------------------------------------------------------

  /** The row has whatever the update would fill in. */
  predicate Filled(u: Update, url: string, row: Row) {
    match u
    case SetImage(at, _) => at == url ==> row.image.Some?
    case SetSummary(at, _) => at == url ==> row.summary != ""
    case SetCategory(urls, _) => url in urls ==> row.category.Some?
  }

  predicate Fills(u: Update) {
    u.SetSummary? ==> u.summary != ""
  }

  lemma {:induction false} RowAfterIsFilled(us: seq<Update>, url: string, row: Row, u: Update)
    requires u in us && Fills(u)
    ensures Filled(u, url, RowAfter(us, url, row))
    decreases |us|
  {
    if us[0] == u {
      RowAfterEnriches(us[1..], url, Touch(u, url, row));
    } else {
      RowAfterIsFilled(us[1..], url, Touch(us[0], url, row), u);
    }
  }

  lemma {:induction false} FilledRowStays(us: seq<Update>, url: string, row: Row)
    requires forall u :: u in us ==> Filled(u, url, row)
    ensures RowAfter(us, url, row) == row
    decreases |us|
  {
    if us != [] {
      assert us[0] in us;
      FilledRowStays(us[1..], url, row);
    }
  }

  lemma {:induction false} ScheduleFills(schedule: seq<Update>, items: seq<Item>, u: Update)
    requires IsSchedule(schedule, items) && u in schedule
    ensures Fills(u) && u in Backfills(items)
  {
    BackfillMembers(items, u);
  }

  lemma {:induction false} InsertNothingNew(table: Table, items: seq<Item>)
    requires forall i :: 0 <= i < |items| ==> items[i].url in table
    ensures InsertMissing(table, items) == table
    decreases |items|
  {
    if items != [] {
      InsertNothingNew(table, items[..|items| - 1]);
    }
  }

  /** Every schedule of a page runs the same updates. */
  lemma {:induction false} SameUpdates(items: seq<Item>, first: seq<Update>, second: seq<Update>, v: Update)
    requires IsSchedule(first, items) && IsSchedule(second, items) && v in second + GroupByCategory(items)
    ensures v in first + GroupByCategory(items) && Fills(v)
  {
    if v in second {
      ScheduleFills(second, items, v);
      assert v in first;
    } else {
      GroupMembers(items, "", "");
    }
  }

  /** Ingesting the same page again changes nothing, whatever the page holds (repeated urls too) and
      however the backfills of either run were ordered. */
  lemma {:induction false} UpsertIsIdempotent(table: Table, items: seq<Item>, first: seq<Update>, second: seq<Update>)
    requires IsSchedule(first, items) && IsSchedule(second, items)
    ensures Upsert(Upsert(table, items, first), items, second) == Upsert(table, items, first)
  {
    var once := Upsert(table, items, first);
    var us, vs := first + GroupByCategory(items), second + GroupByCategory(items);
    UpsertIsMonotone(table, items, first);
    InsertNothingNew(once, items);
    RunAllByRow(InsertMissing(table, items), us);
    RunAllByRow(once, vs);
    GroupMembers(items, "", "");
    forall v | v in vs
      ensures v in us && Fills(v)
    {
      SameUpdates(items, first, second, v);
    }
    forall url | url in once
      ensures RunAll(once, vs)[url] == once[url]
    {
      forall v | v in vs
        ensures Filled(v, url, once[url])
      {
        RowAfterIsFilled(us, url, InsertMissing(table, items)[url], v);
      }
      FilledRowStays(vs, url, once[url]);
    }
  }

  // ---------------------------------------------------------------------------------------
  // Distinct urls: one result for every order
  // ---------------------------------------------------------------------------------------

  predicate DistinctUrls(items: seq<Item>) {
    forall i, j :: 0 <= i < j < |items| ==> items[i].url != items[j].url
  }

  /** The merge of a stored row with a fetched item: stored values win, blanks are filled. */
  predicate MergedFrom(row: Row, item: Item, after: Row) {
    && after.fixed == row.fixed
    && after.image == (if row.image.None? && item.image.Some? && item.image.value != "" then item.image else row.image)
    && after.summary == (if row.summary == "" then item.summary else row.summary)
    && after.category == (if row.category.None? then item.category else row.category)
  }

  /** All updates of one field of `url` agree, and one is there if the field is to be filled. */
  predicate ImageForced(us: seq<Update>, url: string, row: Row, image: Option<string>) {
    && (forall u :: u in us && u.SetImage? && u.url == url ==> image == Some(u.image))
    && (row.image.None? && image.Some? ==> SetImage(url, image.value) in us)
  }

  predicate SummaryForced(us: seq<Update>, url: string, row: Row, summary: string) {
    && (forall u :: u in us && u.SetSummary? && u.url == url ==> summary == u.summary)
    && (row.summary == "" && summary != "" ==> SetSummary(url, summary) in us)
  }

  predicate CategoryForced(us: seq<Update>, url: string, row: Row, category: Option<string>) {
    && (forall u :: u in us && u.SetCategory? && url in u.urls ==> category == Some(u.category))
    && (row.category.None? && category.Some? ==> exists u :: u in us && u.SetCategory? && url in u.urls)
  }

  lemma {:induction false} ImageAfter(us: seq<Update>, url: string, row: Row, image: Option<string>)
    requires ImageForced(us, url, row, image)
    ensures RowAfter(us, url, row).image == if row.image.None? then image else row.image
    decreases |us|
  {
    if us != [] {
      assert us[0] in us && forall u :: u in us ==> u == us[0] || u in us[1..];
      ImageAfter(us[1..], url, Touch(us[0], url, row), image);
    }
  }

  lemma {:induction false} SummaryAfter(us: seq<Update>, url: string, row: Row, summary: string)
    requires SummaryForced(us, url, row, summary)
    ensures RowAfter(us, url, row).summary == if row.summary == "" then summary else row.summary
    decreases |us|
  {
    if us != [] {
      assert us[0] in us && forall u :: u in us ==> u == us[0] || u in us[1..];
      SummaryAfter(us[1..], url, Touch(us[0], url, row), summary);
    }
  }

  lemma {:induction false} CategoryAfter(us: seq<Update>, url: string, row: Row, category: Option<string>)
    requires CategoryForced(us, url, row, category)
    ensures RowAfter(us, url, row).category == if row.category.None? then category else row.category
    decreases |us|
  {
    if us != [] {
      assert us[0] in us && forall u :: u in us ==> u == us[0] || u in us[1..];
      CategoryAfter(us[1..], url, Touch(us[0], url, row), category);
    }
  }

  /** When the updates of each field of `url` agree, their order does not matter. */
  lemma {:induction false} RowAfterForced(us: seq<Update>, url: string, row: Row, image: Option<string>,
                                          summary: string, category: Option<string>)
    requires ImageForced(us, url, row, image) && SummaryForced(us, url, row, summary)
    requires CategoryForced(us, url, row, category)
    ensures RowAfter(us, url, row) == row.(image := if row.image.None? then image else row.image,
                                           summary := if row.summary == "" then summary else row.summary,
                                           category := if row.category.None? then category else row.category)
  {
    ImageAfter(us, url, row, image);
    SummaryAfter(us, url, row, summary);
    CategoryAfter(us, url, row, category);
    RowAfterEnriches(us, url, row);
  }

  lemma {:induction false} InsertedRow(table: Table, items: seq<Item>, i: nat)
    requires DistinctUrls(items) && i < |items|
    ensures items[i].url in InsertMissing(table, items)
    ensures InsertMissing(table, items)[items[i].url] ==
            if items[i].url in table then table[items[i].url] else RowOf(items[i])
    decreases |items|
  {
    var front := items[..|items| - 1];
    if i < |front| {
      InsertedRow(table, front, i);
    } else {
      InsertKeepsRows(table, front);
    }
  }

  /** With pairwise distinct urls the result does not depend on the order of the backfills: an
      unknown url gets its item's row, a known one the merge, every other row is untouched. */
  lemma {:induction false} UpsertIsMerge(table: Table, items: seq<Item>, schedule: seq<Update>, i: nat)
    requires DistinctUrls(items) && IsSchedule(schedule, items) && i < |items|
    ensures items[i].url in Upsert(table, items, schedule)
    ensures var item := items[i];
            var after := Upsert(table, items, schedule)[item.url];
            if item.url in table then MergedFrom(table[item.url], item, after)
            else after == Row(item.summary, item.image, item.category, item.fixed)
  {
    var item := items[i];
    var us := schedule + GroupByCategory(items);
    InsertedRow(table, items, i);
    var row := InsertMissing(table, items)[item.url];
    RunAllByRow(InsertMissing(table, items), us);
    UpdatesOfUrl(items, schedule, i);
    RowAfterForced(us, item.url, row, if HasImage(item) then item.image else None, item.summary, item.category);
  }

  /** An update that touches the item's row carries the item's own value. */
  predicate OwnValue(item: Item, u: Update) {
    match u
    case SetImage(url, image) => url == item.url ==> image != "" && item.image == Some(image)
    case SetSummary(url, summary) => url == item.url ==> item.summary == summary
    case SetCategory(urls, category) => item.url in urls ==> item.category == Some(category)
  }

  lemma {:induction false} UpdateOfUrl(items: seq<Item>, schedule: seq<Update>, i: nat, u: Update)
    requires DistinctUrls(items) && IsSchedule(schedule, items) && i < |items| && u in schedule + GroupByCategory(items)
    ensures OwnValue(items[i], u)
  {
    GroupMembers(items, "", "");
    if u in schedule {
      ScheduleFills(schedule, items, u);
      BackfillMembers(items, u);
    } else {
      var g :| 0 <= g < |GroupByCategory(items)| && GroupByCategory(items)[g] == u;
      if items[i].url in u.urls {
        assert Assigned(GroupByCategory(items), u.category, items[i].url);
        GroupMembers(items, u.category, items[i].url);
      }
    }
  }

  lemma {:induction false} UpdatesOfUrl(items: seq<Item>, schedule: seq<Update>, i: nat)
    requires DistinctUrls(items) && IsSchedule(schedule, items) && i < |items|
    ensures var us := schedule + GroupByCategory(items); var item := items[i];
            && (forall u :: u in us ==> OwnValue(item, u))
            && (HasImage(item) ==> SetImage(item.url, item.image.value) in us)
            && (item.summary != "" ==> SetSummary(item.url, item.summary) in us)
            && (item.category.Some? ==> exists u :: u in us && u.SetCategory? && item.url in u.urls)
  {
    var us, item := schedule + GroupByCategory(items), items[i];
    forall u | u in us
      ensures OwnValue(item, u)
    {
      UpdateOfUrl(items, schedule, i, u);
    }
    assert forall u :: AskedBy(item, u) ==> AskedBy(items[i], u);
    if HasImage(item) {
      BackfillMembers(items, SetImage(item.url, item.image.value));
      assert SetImage(item.url, item.image.value) in schedule;
    }
    if item.summary != "" {
      BackfillMembers(items, SetSummary(item.url, item.summary));
      assert SetSummary(item.url, item.summary) in schedule;
    }
    if item.category.Some? {
      GroupMembers(items, item.category.value, item.url);
      var groups := GroupByCategory(items);
      var g :| 0 <= g < |groups| && groups[g].SetCategory? && item.url in groups[g].urls;
      assert groups[g] in us;
    }
  }

  lemma {:induction false} UntouchedRow(us: seq<Update>, url: string, row: Row)
    requires forall u :: u in us ==> if u.SetCategory? then url !in u.urls else u.url != url
    ensures RowAfter(us, url, row) == row
    decreases |us|
  {
    if us != [] {
      assert us[0] in us;
      UntouchedRow(us[1..], url, row);
    }
  }

  /** Rows of urls the page does not mention are left exactly as they were. */
  lemma {:induction false} OtherRowsUntouched(table: Table, items: seq<Item>, schedule: seq<Update>, url: string)
    requires IsSchedule(schedule, items) && url in table && forall i :: 0 <= i < |items| ==> items[i].url != url
    ensures url in Upsert(table, items, schedule) && Upsert(table, items, schedule)[url] == table[url]
  {
    var us := schedule + GroupByCategory(items);
    InsertKeepsRows(table, items);
    RunAllByRow(InsertMissing(table, items), us);
    GroupMembers(items, "", "");
    forall u | u in us
      ensures if u.SetCategory? then url !in u.urls else u.url != url
    {
      if u in schedule {
        ScheduleFills(schedule, items, u);
        BackfillMembers(items, u);
      } else {
        var g :| 0 <= g < |GroupByCategory(items)| && GroupByCategory(items)[g] == u;
        if url in u.urls {
          assert Assigned(GroupByCategory(items), u.category, url);
          GroupMembers(items, u.category, url);
        }
      }
    }
    UntouchedRow(us, url, table[url]);
  }

  // ---------------------------------------------------------------------------------------
  // Repeated urls: exactly when the order matters
  // ---------------------------------------------------------------------------------------

  /** Items of one url never carry different images or different summaries, blanks aside. */
  predicate Agree(items: seq<Item>) {
    forall i, j :: 0 <= i < |items| && 0 <= j < |items| && items[i].url == items[j].url ==>
      && (HasImage(items[i]) && HasImage(items[j]) ==> items[i].image == items[j].image)
      && (items[i].summary != "" && items[j].summary != "" ==> items[i].summary == items[j].summary)
  }

  /** Two backfills of one field of one url. */
  predicate SameField(u: Update, v: Update) {
    (u.SetImage? && v.SetImage? && u.url == v.url) || (u.SetSummary? && v.SetSummary? && u.url == v.url)
  }

  /** Two items that disagree ask for different backfills of one field. */
  lemma {:induction false} TwoBackfills(items: seq<Item>, i: nat, j: nat, u: Update, v: Update)
    requires i < |items| && j < |items| && AskedBy(items[i], u) && AskedBy(items[j], v)
    ensures u in Backfills(items) && v in Backfills(items)
  {
    BackfillMembers(items, u);
    BackfillMembers(items, v);
  }

  lemma {:induction false} Disagreement(items: seq<Item>) returns (u: Update, v: Update)
    requires !Agree(items)
    ensures u in Backfills(items) && v in Backfills(items) && SameField(u, v) && u != v
  {
    var i, j :| 0 <= i < |items| && 0 <= j < |items| && items[i].url == items[j].url &&
                !(&& (HasImage(items[i]) && HasImage(items[j]) ==> items[i].image == items[j].image)
                  && (items[i].summary != "" && items[j].summary != "" ==> items[i].summary == items[j].summary));
    var x, y := items[i], items[j];
    var images := HasImage(x) && HasImage(y) && x.image != y.image;
    u := if images then SetImage(x.url, x.image.value) else SetSummary(x.url, x.summary);
    v := if images then SetImage(y.url, y.image.value) else SetSummary(y.url, y.summary);
    TwoBackfills(items, i, j, u, v);
  }

  lemma {:induction false} AgreeIff(items: seq<Item>)
    ensures Agree(items) <==>
            forall u, v :: u in Backfills(items) && v in Backfills(items) && SameField(u, v) ==> u == v
  {
    if Agree(items) {
      forall u, v | u in Backfills(items) && v in Backfills(items) && SameField(u, v)
        ensures u == v
      {
        BackfillMembers(items, u);
        BackfillMembers(items, v);
        var i :| 0 <= i < |items| && AskedBy(items[i], u);
        var j :| 0 <= j < |items| && AskedBy(items[j], v);
        assert items[i].url == items[j].url;
      }
    } else {
      var u, v := Disagreement(items);
    }
  }

  lemma {:induction false} RowAfterConcat(a: seq<Update>, b: seq<Update>, url: string, row: Row)
    ensures RowAfter(a + b, url, row) == RowAfter(b, url, RowAfter(a, url, row))
    decreases |a|
  {
    if a == [] {
      assert a + b == b;
    } else {
      assert (a + b)[1..] == a[1..] + b;
      RowAfterConcat(a[1..], b, url, Touch(a[0], url, row));
    }
  }

  /** Backfills that agree leave one row, in whatever order and however often they run. */
  lemma {:induction false} AgreeingOrders(items: seq<Item>, one: seq<Update>, other: seq<Update>, url: string, row: Row)
    requires Agree(items) && IsSchedule(one, items) && IsSchedule(other, items)
    ensures RowAfter(one, url, row) == RowAfter(other, url, row)
  {
    AgreeIff(items);
    forall u | u in Backfills(items)
      ensures !u.SetCategory? && Fills(u)
    {
      BackfillMembers(items, u);
    }
    var image: Option<string>, summary := None, "";
    if u :| u in Backfills(items) && u.SetImage? && u.url == url {
      image := Some(u.image);
      assert forall v :: v in Backfills(items) && v.SetImage? && v.url == url ==> SameField(u, v);
    }
    if u :| u in Backfills(items) && u.SetSummary? && u.url == url {
      summary := u.summary;
      assert forall v :: v in Backfills(items) && v.SetSummary? && v.url == url ==> SameField(u, v);
    }
    RowAfterForced(one, url, row, image, summary, None);
    RowAfterForced(other, url, row, image, summary, None);
  }

  /** On a stored row with blank fields the first backfill of a field wins. */
  lemma {:induction false} FirstWins(items: seq<Item>, u: Update, url: string, fixed: Fixed)
    requires u in Backfills(items) && !u.SetCategory? && u.url == url
    ensures var row := RowAfter([u] + Backfills(items) + GroupByCategory(items), url, Row("", None, None, fixed));
            if u.SetImage? then row.image == Some(u.image) else row.summary == u.summary
  {
    BackfillMembers(items, u);
    var us := [u] + Backfills(items) + GroupByCategory(items);
    assert us[0] == u && us[1..] == Backfills(items) + GroupByCategory(items);
    RowAfterEnriches(us[1..], url, Touch(u, url, Row("", None, None, fixed)));
  }

  lemma {:induction false} ConflictShows(items: seq<Item>, u: Update, v: Update, fixed: Fixed) returns (table: Table)
    requires u in Backfills(items) && v in Backfills(items) && SameField(u, v) && u != v
    ensures Upsert(table, items, [u] + Backfills(items)) != Upsert(table, items, [v] + Backfills(items))
  {
    var blank := Row("", None, None, fixed);
    table := map[u.url := blank];
    InsertKeepsRows(table, items);
    RunAllByRow(InsertMissing(table, items), [u] + Backfills(items) + GroupByCategory(items));
    RunAllByRow(InsertMissing(table, items), [v] + Backfills(items) + GroupByCategory(items));
    FirstWins(items, u, u.url, fixed);
    FirstWins(items, v, u.url, fixed);
    assert u.url in Upsert(table, items, [u] + Backfills(items));
  }

  /** On every table any two schedules of the page give the same result. */
  ghost predicate OrderNeverMatters(items: seq<Item>) {
    forall table, one, other :: IsSchedule(one, items) && IsSchedule(other, items) ==>
      Upsert(table, items, one) == Upsert(table, items, other)
  }

  lemma {:induction false} RetriedFirst(items: seq<Item>, u: Update)
    requires u in Backfills(items)
    ensures IsSchedule([u] + Backfills(items), items)
  {
  }

  lemma {:induction false} ConflictMatters(items: seq<Item>)
    requires !Agree(items)
    ensures !OrderNeverMatters(items)
  {
    var u, v := Disagreement(items);
    var table := ConflictShows(items, u, v, Fixed("", "", 0, "", None));
    RetriedFirst(items, u);
    RetriedFirst(items, v);
  }

  /** Exactly when the order of the concurrent backfills is irrelevant: on every table and for any two
      schedules the result is one table, iff items of one url agree on the fields they carry. */
  lemma {:induction false} OrderIsIrrelevantIff(items: seq<Item>)
    ensures OrderNeverMatters(items) <==> Agree(items)
  {
    if Agree(items) {
      forall table, one, other | IsSchedule(one, items) && IsSchedule(other, items)
        ensures Upsert(table, items, one) == Upsert(table, items, other)
      {
        OneTable(table, items, one, other);
      }
    } else {
      ConflictMatters(items);
    }
  }

  lemma {:induction false} OneTable(table: Table, items: seq<Item>, one: seq<Update>, other: seq<Update>)
    requires Agree(items) && IsSchedule(one, items) && IsSchedule(other, items)
    ensures Upsert(table, items, one) == Upsert(table, items, other)
  {
    var inserted, groups := InsertMissing(table, items), GroupByCategory(items);
    RunAllByRow(inserted, one + groups);
    RunAllByRow(inserted, other + groups);
    forall url | url in inserted
      ensures Upsert(table, items, one)[url] == Upsert(table, items, other)[url]
    {
      RowAfterConcat(one, groups, url, inserted[url]);
      RowAfterConcat(other, groups, url, inserted[url]);
      AgreeingOrders(items, one, other, url, inserted[url]);
    }
  }

  /** In particular, as its caller relies on, with pairwise distinct urls. */
  lemma {:induction false} OrderIsIrrelevant(table: Table, items: seq<Item>, one: seq<Update>, other: seq<Update>)
    requires DistinctUrls(items) && IsSchedule(one, items) && IsSchedule(other, items)
    ensures Upsert(table, items, one) == Upsert(table, items, other)
  {
    forall i, j | 0 <= i < |items| && 0 <= j < |items| && items[i].url == items[j].url
      ensures i == j
    {
    }
    OneTable(table, items, one, other);
  }

  // ---------------------------------------------------------------------------------------
  // The repository
  // ---------------------------------------------------------------------------------------

  class NewsItemRepository {
    var rows: Table

    constructor ()
      ensures rows == map[]
    {
      rows := map[];
    }

    method InsertIgnoringDuplicates(items: seq<Item>)
      modifies this
      ensures rows == InsertMissing(old(rows), items)
    {
      for i := 0 to |items|
        invariant rows == InsertMissing(old(rows), items[..i])
      {
        assert items[..i + 1][..i] == items[..i];
        if items[i].url !in rows {
          rows := rows[items[i].url := RowOf(items[i])];
        }
      }
      assert items[..|items|] == items;
    }

    method RunUpdates(us: seq<Update>)
      modifies this
      ensures rows == RunAll(old(rows), us)
    {
      for i := 0 to |us|
        invariant RunAll(rows, us[i..]) == RunAll(old(rows), us)
      {
        rows := Run(rows, us[i]);
        assert us[i..][1..] == us[i + 1..];
      }
    }

    /** The read-back lists, in input order, the current row of every input's url. */
    method UpsertMany(items: seq<Item>, schedule: seq<Update>) returns (persisted: seq<Row>)
      requires IsSchedule(schedule, items)
      modifies this
      ensures rows == if items == [] then old(rows) else Upsert(old(rows), items, schedule)
      ensures |persisted| == |items|
      ensures forall i :: 0 <= i < |items| ==> items[i].url in rows && persisted[i] == rows[items[i].url]
    {
      persisted := [];
      if items == [] {
        return;
      }
      UpsertIsMonotone(rows, items, schedule);
      InsertIgnoringDuplicates(items);
      ghost var inserted := rows;
      RunUpdates(schedule);
      RunUpdates(GroupByCategory(items));
      RunAllInTwo(inserted, schedule, GroupByCategory(items));
      assert forall k :: 0 <= k < |items| ==> Mentions(items, items[k].url);
      ghost var at;
      persisted, at := ReadBack(items);
      AllPositions(at, |items|, |items|);
    }

    /** The rows of exactly the inputs that have one, at positions `at`, in input order. */
    method ReadBack(items: seq<Item>) returns (persisted: seq<Row>, ghost at: seq<nat>)
      ensures |persisted| == |at| && Increasing(at)
      ensures forall k: nat :: k in at <==> k < |items| && items[k].url in rows
      ensures forall i :: 0 <= i < |at| ==> at[i] in at && persisted[i] == rows[items[at[i]].url]
    {
      persisted, at := [], [];
      for i := 0 to |items|
        invariant |persisted| == |at| && Increasing(at) && forall j :: 0 <= j < |at| ==> at[j] < i
        invariant forall k: nat :: k in at <==> k < i && items[k].url in rows
        invariant forall j :: 0 <= j < |at| ==> at[j] in at && persisted[j] == rows[items[at[j]].url]
      {
        if items[i].url in rows {
          persisted := persisted + [rows[items[i].url]];
          at := at + [i];
        }
      }
    }
  }

  /** A statement repeated after a lost answer changes nothing. */
  lemma {:induction false} RetryChangesNothing(table: Table, items: seq<Item>, u: Update)
    ensures Run(Run(table, u), u) == Run(table, u)
    ensures InsertMissing(InsertMissing(table, items), items) == InsertMissing(table, items)
  {
    InsertKeepsRows(table, items);
    assert forall i :: 0 <= i < |items| ==> Mentions(items, items[i].url);
    InsertNothingNew(InsertMissing(table, items), items);
  }

  lemma {:induction false} RunAllInTwo(table: Table, a: seq<Update>, b: seq<Update>)
    ensures RunAll(table, a + b) == RunAll(RunAll(table, a), b)
    decreases |a|
  {
    if a == [] {
      assert a + b == b;
    } else {
      assert (a + b)[1..] == a[1..] + b;
      RunAllInTwo(Run(table, a[0]), a[1..], b);
    }
  }
}
