/** Related news: three limited queries, strongest relation first, each excluding what the earlier
    ones returned, against one sort of all other articles by relation and then recency. */
module RelatedNews {
  import opened Recency

  datatype Article = Article(id: string, source: string, publishedAt: int, symbols: set<string>)

  function PublishedAt(a: Article): int { a.publishedAt }

  /** How strongly `a` relates to `item`: 0 shares a symbol, else 1 same source, else 2. */
  function Tier(item: Article, a: Article): nat {
    if item.symbols * a.symbols != {} then 0 else if a.source == item.source then 1 else 2
  }

  /** How a query narrows the table before excluding what was seen. */
  datatype Narrow = SharesSymbol | SameSource | AnyRow

  datatype Query = Unseen(narrow: Narrow, seen: set<string>) | WholeTier(tier: nat)

  predicate Narrows(item: Article, narrow: Narrow, a: Article) {
    match narrow
    case SharesSymbol => item.symbols * a.symbols != {}
    case SameSource => a.source == item.source
    case AnyRow => true
  }

  predicate Keeps(item: Article, q: Query, a: Article) {
    match q
    case Unseen(narrow, seen) => Narrows(item, narrow, a) && a.id !in seen
    case WholeTier(tier) => a.id != item.id && Tier(item, a) == tier
  }

  function Filter(rows: seq<Article>, item: Article, q: Query): seq<Article> {
    if rows == [] then []
    else (if Keeps(item, q, rows[0]) then [rows[0]] else []) + Filter(rows[1..], item, q)
  }

  function Ids(rows: seq<Article>): set<string> {
    set a | a in rows :: a.id
  }

  /** The table as the database orders it by `published_at desc`; ids are primary keys. */
  ghost predicate TableOk(table: seq<Article>) {
    && Distinct(Elements(table), PublishedAt)
    && Listing(table, Elements(table), PublishedAt)
    && forall a, b :: a in table && b in table && a.id == b.id ==> a == b
  }

  function Cut(l: seq<Article>, limit: int): seq<Article> {
    if limit <= 0 then [] else Take(l, limit)
  }

  // ---------------------------------------------------------------------------------------
  // The one-sort meaning
  // ---------------------------------------------------------------------------------------

  predicate Better(item: Article, a: Article, b: Article) {
    Tier(item, a) < Tier(item, b) || (Tier(item, a) == Tier(item, b) && a.publishedAt > b.publishedAt)
  }

  predicate Sorted(item: Article, l: seq<Article>) {
    forall i, j :: 0 <= i < j < |l| ==> Better(item, l[i], l[j])
  }

  function Others(table: seq<Article>, item: Article): set<Article> {
    set a | a in table && a.id != item.id
  }

  /** All other rows, each once, sorted by tier and then newest first. */
  ghost predicate Ranked(l: seq<Article>, table: seq<Article>, item: Article) {
    && Elements(l) == Others(table, item)
    && Sorted(item, l)
  }

  lemma {:induction false} RankedUnique(item: Article, a: seq<Article>, b: seq<Article>)
    requires Elements(a) == Elements(b)
    requires Sorted(item, a)
    requires Sorted(item, b)
    ensures a == b
    decreases |a|
  {
    if a == [] {
      assert forall x :: x in b ==> x in Elements(b);
      HasElement(b);
    } else {
      assert a[0] in Elements(b);
      var j :| 0 <= j < |b| && b[j] == a[0];
      assert b[0] in Elements(a);
      var i :| 0 <= i < |a| && a[i] == b[0];
      assert a[0] == b[0];
      forall x
        ensures x in Elements(a[1..]) <==> x in Elements(b[1..])
      {
        TailElements(item, a, x);
        TailElements(item, b, x);
      }
      RankedUnique(item, a[1..], b[1..]);
      assert a == [a[0]] + a[1..] && b == [b[0]] + b[1..];
    }
  }

  lemma {:induction false} TailElements(item: Article, a: seq<Article>, x: Article)
    requires a != [] && Sorted(item, a)
    ensures x in Elements(a[1..]) <==> x in Elements(a) && x != a[0]
  {
    if x in Elements(a) && x != a[0] {
      var i :| 0 <= i < |a| && a[i] == x;
      assert a[1..][i - 1] == x;
    }
    if x in Elements(a[1..]) {
      var i :| 0 <= i < |a[1..]| && a[1..][i] == x;
      assert Better(item, a[0], a[i + 1]);
    }
  }

  // ---------------------------------------------------------------------------------------
  // The tiers
  // ---------------------------------------------------------------------------------------

  function TierRows(table: seq<Article>, item: Article, tier: nat): seq<Article> {
    Filter(table, item, WholeTier(tier))
  }

  /** The rows of the tiers below `tier`, strongest tier first. */
  function Below(table: seq<Article>, item: Article, tier: nat): seq<Article> {
    if tier == 0 then [] else Below(table, item, tier - 1) + TierRows(table, item, tier - 1)
  }

  function AllTiers(table: seq<Article>, item: Article): seq<Article> {
    Below(table, item, 3)
  }

  lemma {:induction false} FilterAgrees(rows: seq<Article>, item: Article, p: Query, q: Query)
    requires forall a :: a in rows ==> Keeps(item, p, a) == Keeps(item, q, a)
    ensures Filter(rows, item, p) == Filter(rows, item, q)
    decreases |rows|
  {
    if rows != [] {
      assert rows[0] in rows;
      FilterAgrees(rows[1..], item, p, q);
    }
  }

  lemma {:induction false} FilterElements(rows: seq<Article>, item: Article, q: Query, a: Article)
    ensures a in Filter(rows, item, q) <==> a in rows && Keeps(item, q, a)
    decreases |rows|
  {
    if rows != [] {
      FilterElements(rows[1..], item, q, a);
      assert rows == [rows[0]] + rows[1..];
    }
  }

  predicate StrictlyNewestFirst(rows: seq<Article>) {
    forall i, j :: 0 <= i < j < |rows| ==> rows[i].publishedAt > rows[j].publishedAt
  }

  /** Filtering keeps the database's order. */
  lemma {:induction false} FilterStrict(rows: seq<Article>, item: Article, q: Query)
    requires StrictlyNewestFirst(rows)
    ensures StrictlyNewestFirst(Filter(rows, item, q))
    decreases |rows|
  {
    if rows != [] {
      FilterStrict(rows[1..], item, q);
      var rest := Filter(rows[1..], item, q);
      forall j | 0 <= j < |rest|
        ensures rows[0].publishedAt > rest[j].publishedAt
      {
        FilterElements(rows[1..], item, q, rest[j]);
        var k :| 0 <= k < |rows[1..]| && rows[1..][k] == rest[j];
        assert rows[k + 1] == rest[j];
      }
    }
  }

  lemma {:induction false} TableStrict(table: seq<Article>)
    requires TableOk(table)
    ensures StrictlyNewestFirst(table)
  {
    forall i, j | 0 <= i < j < |table|
      ensures table[i].publishedAt > table[j].publishedAt
    {
      assert PublishedAt(table[i]) >= PublishedAt(table[j]);
      assert table[i] in Elements(table) && table[j] in Elements(table) && table[i] != table[j];
    }
  }

  /** One tier's rows, strictly newest first. */
  lemma {:induction false} TierMembers(table: seq<Article>, item: Article, tier: nat)
    requires TableOk(table)
    ensures StrictlyNewestFirst(TierRows(table, item, tier))
    ensures forall a :: a in TierRows(table, item, tier) <==> a in table && a.id != item.id && Tier(item, a) == tier
  {
    TableStrict(table);
    FilterStrict(table, item, WholeTier(tier));
    forall a
      ensures a in TierRows(table, item, tier) <==> a in table && a.id != item.id && Tier(item, a) == tier
    {
      FilterElements(table, item, WholeTier(tier), a);
    }
  }

  lemma {:induction false} BetterAcross(item: Article, l: seq<Article>, m: seq<Article>)
    requires Sorted(item, l)
    requires Sorted(item, m)
    requires forall a, b :: a in l && b in m ==> Tier(item, a) < Tier(item, b)
    ensures Sorted(item, l + m)
  {
    forall i, j | 0 <= i < j < |l + m|
      ensures Better(item, (l + m)[i], (l + m)[j])
    {
      if i < |l| <= j {
        assert l[i] in l && m[j - |l|] in m;
      }
    }
  }

  lemma {:induction false} BelowIsRanked(table: seq<Article>, item: Article, tier: nat)
    requires TableOk(table)
    ensures forall a :: a in Below(table, item, tier) <==> a in table && a.id != item.id && Tier(item, a) < tier
    ensures Sorted(item, Below(table, item, tier))
    decreases tier
  {
    if tier > 0 {
      BelowIsRanked(table, item, tier - 1);
      TierMembers(table, item, tier - 1);
      TierIsBetter(item, TierRows(table, item, tier - 1), tier - 1);
      BetterAcross(item, Below(table, item, tier - 1), TierRows(table, item, tier - 1));
    }
  }

  /** The three tiers one after the other are the one ranked sort. */
  lemma {:induction false} TiersAreRanked(table: seq<Article>, item: Article)
    requires TableOk(table)
    ensures Ranked(AllTiers(table, item), table, item)
  {
    BelowIsRanked(table, item, 3);
    var l := Below(table, item, 3);
    forall a
      ensures a in Elements(l) <==> a in Others(table, item)
    {
      assert a in l <==> a in table && a.id != item.id && Tier(item, a) < 3;
    }
  }

  lemma {:induction false} TierIsBetter(item: Article, rows: seq<Article>, tier: nat)
    requires StrictlyNewestFirst(rows) && forall a :: a in rows ==> Tier(item, a) == tier
    ensures Sorted(item, rows)
  {
    forall i, j | 0 <= i < j < |rows|
      ensures Better(item, rows[i], rows[j])
    {
      assert rows[i] in rows && rows[j] in rows;
    }
  }

  // ---------------------------------------------------------------------------------------
  // One query
  // ---------------------------------------------------------------------------------------

  /** The rows a query may return: related closely enough and not seen yet. */
  function Candidates(table: seq<Article>, item: Article, narrow: Narrow, seen: set<string>): set<Article> {
    set a | a in table && Narrows(item, narrow, a) && a.id !in seen
  }

  lemma {:induction false} FilterListsCandidates(table: seq<Article>, item: Article, narrow: Narrow, seen: set<string>)
    requires TableOk(table)
    ensures Distinct(Candidates(table, item, narrow, seen), PublishedAt)
    ensures Listing(Filter(table, item, Unseen(narrow, seen)), Candidates(table, item, narrow, seen), PublishedAt)
  {
    var q := Unseen(narrow, seen);
    var l := Filter(table, item, q);
    TableStrict(table);
    FilterStrict(table, item, q);
    forall a
      ensures a in Elements(l) <==> a in Candidates(table, item, narrow, seen)
    {
      FilterElements(table, item, q, a);
    }
    forall i, j | 0 <= i < j < |l|
      ensures l[i] != l[j] && PublishedAt(l[i]) >= PublishedAt(l[j])
    {
      assert l[i].publishedAt > l[j].publishedAt;
    }
    assert Candidates(table, item, narrow, seen) <= Elements(table);
  }

  /** The newest candidates, newest first: as many as the limit lets through. */
  ghost predicate NewestCandidates(table: seq<Article>, item: Article, narrow: Narrow, seen: set<string>, limit: int,
                                   items: seq<Article>) {
    Listing(items, Top(Candidates(table, item, narrow, seen), PublishedAt, if limit < 0 then 0 else limit), PublishedAt)
  }

  /** There is one such list, and the limited query returns it. */
  lemma {:induction false} NewestAreCut(table: seq<Article>, item: Article, narrow: Narrow, seen: set<string>,
                                        limit: int, items: seq<Article>)
    requires TableOk(table)
    ensures NewestCandidates(table, item, narrow, seen, limit, items)
            <==> items == Cut(Filter(table, item, Unseen(narrow, seen)), limit)
  {
    var k := if limit < 0 then 0 else limit;
    var all, l := Candidates(table, item, narrow, seen), Filter(table, item, Unseen(narrow, seen));
    FilterListsCandidates(table, item, narrow, seen);
    TakeIsTop(l, all, PublishedAt, k);
    TakeIsListing(l, all, PublishedAt, k);
    assert Cut(l, limit) == Take(l, k);
    if NewestCandidates(table, item, narrow, seen, limit, items) {
      ListingUnique(items, Take(l, k), Top(all, PublishedAt, k), PublishedAt);
    }
  }

  /** One tier: the newest unseen related rows up to the limit, each once; their ids become seen. */
  method SelectRelated(table: seq<Article>, item: Article, seen: set<string>, limit: int, narrow: Narrow)
    returns (items: seq<Article>, seenNow: set<string>)
    requires TableOk(table)
    ensures NewestCandidates(table, item, narrow, seen, limit, items)
    ensures |items| == Min(if limit < 0 then 0 else limit, |Candidates(table, item, narrow, seen)|)
    ensures seenNow == seen + Ids(items)
  {
    items, seenNow := [], seen;
    if limit > 0 {
      items := Take(Filter(table, item, Unseen(narrow, seen)), limit);
      seenNow := seen + Ids(items);
    }
    NewestAreCut(table, item, narrow, seen, limit, items);
    FilterListsCandidates(table, item, narrow, seen);
    TopSize(Candidates(table, item, narrow, seen), PublishedAt, if limit < 0 then 0 else limit);
    ElementsSize(items);
  }

  // ---------------------------------------------------------------------------------------
  // Tier after tier
  // ---------------------------------------------------------------------------------------

  /** The narrowing that reaches down to `tier`. */
  function NarrowOf(tier: nat): Narrow {
    if tier == 0 then SharesSymbol else if tier == 1 then SameSource else AnyRow
  }

  /** When the earlier tiers were returned in full, excluding what was seen leaves the next tier. */
  lemma {:induction false} NextTier(table: seq<Article>, item: Article, got: seq<Article>, tier: nat)
    requires TableOk(table) && tier <= 2
    requires forall a :: a in got <==> a in table && a.id != item.id && Tier(item, a) < tier
    ensures Filter(table, item, Unseen(NarrowOf(tier), {item.id} + Ids(got))) == TierRows(table, item, tier)
  {
    var q := Unseen(NarrowOf(tier), {item.id} + Ids(got));
    forall a | a in table
      ensures Keeps(item, q, a) == Keeps(item, WholeTier(tier), a)
    {
      if a.id in Ids(got) {
        var b :| b in got && b.id == a.id;
        assert a == b;
      } else {
        assert a !in got;
      }
    }
    FilterAgrees(table, item, q, WholeTier(tier));
  }

  /** What has been collected once the tiers below `tier` were asked. */
  ghost predicate Collected(table: seq<Article>, item: Article, limit: int, tier: nat, related: seq<Article>,
                            seen: set<string>) {
    seen == {item.id} + Ids(related) && related == Cut(Below(table, item, tier), limit)
  }

  lemma {:induction false} CutExtends(l: seq<Article>, m: seq<Article>, limit: int)
    ensures |Cut(l, limit)| < limit ==> Cut(l, limit) == l && Cut(l + m, limit) == l + Cut(m, limit - |l|)
    ensures |Cut(l, limit)| >= limit ==> Cut(l + m, limit) == Cut(l, limit)
  {
  }

  /** Asking one more tier, when there is room, extends the collection by that tier's rows. */
  lemma {:induction false} OneMoreTier(table: seq<Article>, item: Article, limit: int, tier: nat,
                                       related: seq<Article>, seen: set<string>)
    requires TableOk(table) && tier <= 2 && Collected(table, item, limit, tier, related, seen)
    ensures var items := Cut(Filter(table, item, Unseen(NarrowOf(tier), seen)), limit - |related|);
            |related| < limit ==> Collected(table, item, limit, tier + 1, related + items, seen + Ids(items))
    ensures |related| >= limit ==> Collected(table, item, limit, tier + 1, related, seen)
  {
    CutExtends(Below(table, item, tier), TierRows(table, item, tier), limit);
    if |related| < limit {
      BelowIsRanked(table, item, tier);
      NextTier(table, item, related, tier);
      var items := Cut(Filter(table, item, Unseen(NarrowOf(tier), seen)), limit - |related|);
      assert Ids(related + items) == Ids(related) + Ids(items);
    }
  }

  /** Without symbols of its own the article has no tier-0 rows, so skipping that query is right. */
  lemma {:induction false} NoSymbolsNoTierZero(table: seq<Article>, item: Article)
    requires TableOk(table) && item.symbols == {}
    ensures TierRows(table, item, 0) == []
  {
    TierMembers(table, item, 0);
    HasElement(TierRows(table, item, 0));
  }

  /** The tiered queries return the first `limit` of the tiers in order. */
  method ListRelated(table: seq<Article>, item: Article, limit: int) returns (related: seq<Article>)
    requires TableOk(table)
    ensures related == Cut(AllTiers(table, item), limit)
  {
    related := [];
    var seen := {item.id};
    var items: seq<Article>;
    assert Collected(table, item, limit, 0, related, seen);
    if item.symbols != {} {
      OneMoreTier(table, item, limit, 0, related, seen);
      ghost var before := seen;
      items, seen := SelectRelated(table, item, seen, limit - |related|, SharesSymbol);
      NewestAreCut(table, item, SharesSymbol, before, limit - |related|, items);
      related := related + items;
    } else {
      NoSymbolsNoTierZero(table, item);
    }
    assert Collected(table, item, limit, 1, related, seen);
    OneMoreTier(table, item, limit, 1, related, seen);
    if |related| < limit {
      ghost var before := seen;
      items, seen := SelectRelated(table, item, seen, limit - |related|, SameSource);
      NewestAreCut(table, item, SameSource, before, limit - |related|, items);
      related := related + items;
    }
    assert Collected(table, item, limit, 2, related, seen);
    OneMoreTier(table, item, limit, 2, related, seen);
    if |related| < limit {
      ghost var before := seen;
      items, seen := SelectRelated(table, item, seen, limit - |related|, AnyRow);
      NewestAreCut(table, item, AnyRow, before, limit - |related|, items);
      related := related + items;
    }
  }

  /** For every ranked sort `l` of the other articles, the answer is its first `limit` rows; it has
      no duplicates, never the article itself, and as many rows as there are up to the limit. */
  lemma {:induction false} TiersEqualOneSort(table: seq<Article>, item: Article, limit: int, l: seq<Article>)
    requires TableOk(table) && Ranked(l, table, item)
    ensures var answer := Cut(AllTiers(table, item), limit);
            && answer == Cut(l, limit)
            && NoRepeats(answer) && item.id !in Ids(answer)
            && (limit >= 0 ==> |answer| == Min(limit, |Others(table, item)|))
  {
    TiersAreRanked(table, item);
    RankedUnique(item, AllTiers(table, item), l);
    assert forall i, j :: 0 <= i < j < |l| ==> Better(item, l[i], l[j]);
    ElementsSize(l);
    forall i | 0 <= i < |Cut(l, limit)|
      ensures Cut(l, limit)[i].id != item.id
    {
      assert l[i] in Elements(l);
    }
  }
}
