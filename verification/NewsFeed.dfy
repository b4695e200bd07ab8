/** The aggregated news feed: fan out to providers, dedupe on url or normalized title, backfill and
    restrict symbols, filter, sort newest first and cut. An outage is never an empty feed. */
module NewsFeed {
  import opened Wrappers
  import opened Recency
  import opened Sequences

  datatype AssetClass = Crypto | Stock | Forex | Commodity

  datatype Entity = Entity(symbol: string, name: string)

  datatype NewsItem = NewsItem(url: string, title: string, summary: string, publishedAt: int,
                               symbols: seq<string>, entities: seq<Entity>)

  function PublishedAt(item: NewsItem): int { item.publishedAt }

  /** `normalize` strips and lower-cases a title, `upper` upper-cases a symbol, `lookUp` is the
      universe's class of a symbol, `link` the symbols a text mentions. */
  datatype World = World(normalize: string -> string, upper: string -> string,
                         lookUp: string -> Option<AssetClass>, link: string -> seq<string>)

  // ---------------------------------------------------------------------------------------
  // Dedupe
  // ---------------------------------------------------------------------------------------

  predicate Clash(w: World, a: NewsItem, b: NewsItem) {
    a.url == b.url || w.normalize(a.title) == w.normalize(b.title)
  }

  predicate ClashesWithAny(w: World, items: seq<NewsItem>, x: NewsItem) {
    exists i :: 0 <= i < |items| && Clash(w, items[i], x)
  }

  function Dedupe(w: World, items: seq<NewsItem>): seq<NewsItem> {
    if items == [] then []
    else
      var kept := Dedupe(w, items[..|items| - 1]);
      var x := items[|items| - 1];
      if ClashesWithAny(w, kept, x) then kept else kept + [x]
  }

  predicate PairwiseDistinct(w: World, items: seq<NewsItem>) {
    forall i, j :: 0 <= i < j < |items| ==> !Clash(w, items[i], items[j])
  }

  function Urls(items: seq<NewsItem>): set<string> {
    set x | x in items :: x.url
  }

  function Titles(w: World, items: seq<NewsItem>): set<string> {
    set x | x in items :: w.normalize(x.title)
  }

  lemma {:induction false} SeenMeansClash(w: World, items: seq<NewsItem>, x: NewsItem)
    ensures (x.url in Urls(items) || w.normalize(x.title) in Titles(w, items)) <==> ClashesWithAny(w, items, x)
  {
    if x.url in Urls(items) {
      var y :| y in items && y.url == x.url;
      var i :| 0 <= i < |items| && items[i] == y;
      assert Clash(w, items[i], x);
    }
    if w.normalize(x.title) in Titles(w, items) {
      var y :| y in items && w.normalize(y.title) == w.normalize(x.title);
      var i :| 0 <= i < |items| && items[i] == y;
      assert Clash(w, items[i], x);
    }
    if i :| 0 <= i < |items| && Clash(w, items[i], x) {
      assert items[i] in items;
    }
  }

  method DedupeNewsItems(w: World, items: seq<NewsItem>) returns (deduped: seq<NewsItem>)
    ensures deduped == Dedupe(w, items)
  {
    var seenUrls: set<string> := {};
    var seenTitles: set<string> := {};
    deduped := [];
    for n := 0 to |items|
      invariant deduped == Dedupe(w, items[..n])
      invariant seenUrls == Urls(deduped) && seenTitles == Titles(w, deduped)
    {
      var item := items[n];
      assert items[..n + 1][..n] == items[..n];
      SeenMeansClash(w, deduped, item);
      var normalizedTitle := w.normalize(item.title);
      if item.url in seenUrls || normalizedTitle in seenTitles {
        continue;
      }
      seenUrls := seenUrls + {item.url};
      seenTitles := seenTitles + {normalizedTitle};
      deduped := deduped + [item];
    }
    assert items[..|items|] == items;
  }

  function At(items: seq<NewsItem>, ks: seq<nat>): seq<NewsItem>
    requires forall i :: 0 <= i < |ks| ==> ks[i] < |items|
  {
    seq(|ks|, i requires 0 <= i < |ks| => items[ks[i]])
  }

  /** `ks` are positions in increasing order, and a position is among them iff its item clashes with
      no item at an earlier position among them. */
  ghost predicate GreedyChoice(w: World, items: seq<NewsItem>, ks: seq<nat>) {
    && (forall i, j :: 0 <= i < j < |ks| ==> ks[i] < ks[j])
    && (forall i :: 0 <= i < |ks| ==> ks[i] < |items|)
    && (forall k: nat :: k < |items| ==> (k in ks <==> Admitted(w, items, ks, k)))
  }

  ghost predicate Admitted(w: World, items: seq<NewsItem>, ks: seq<nat>, k: nat)
    requires k < |items|
  {
    forall j: nat :: j in ks && j < k && j < |items| ==> !Clash(w, items[j], items[k])
  }

  /** Whether a position is admitted depends only on the positions chosen before it. */
  lemma {:induction false} AdmittedAgrees(w: World, items: seq<NewsItem>, ks: seq<nat>, front: seq<nat>, k: nat)
    requires k < |items| - 1 && forall j: nat :: j < k ==> (j in ks <==> j in front)
    ensures Admitted(w, items, ks, k) <==> Admitted(w, items[..|items| - 1], front, k)
  {
  }

  lemma {:induction false} WithoutLast(ks: seq<nat>, n: nat) returns (front: seq<nat>)
    requires forall i, j :: 0 <= i < j < |ks| ==> ks[i] < ks[j]
    requires forall i :: 0 <= i < |ks| ==> ks[i] <= n
    ensures ks == if n in ks then front + [n] else front
    ensures forall i, j :: 0 <= i < j < |front| ==> front[i] < front[j]
    ensures forall i :: 0 <= i < |front| ==> front[i] < n
  {
    if n in ks {
      var i :| 0 <= i < |ks| && ks[i] == n;
      assert ks[|ks| - 1] <= n == ks[i];
      front := ks[..|ks| - 1];
      assert ks == front + [n];
    } else {
      front := ks;
      assert forall i :: 0 <= i < |ks| ==> ks[i] in ks;
    }
  }

  /** The choice restricted to the items before the last one. */
  lemma {:induction false} GreedyFront(w: World, items: seq<NewsItem>, ks: seq<nat>) returns (front: seq<nat>)
    requires items != [] && GreedyChoice(w, items, ks)
    ensures GreedyChoice(w, items[..|items| - 1], front)
    ensures ks == if |items| - 1 in ks then front + [|items| - 1] else front
  {
    var n := |items| - 1;
    front := WithoutLast(ks, n);
    forall k: nat | k < n
      ensures k in front <==> Admitted(w, items[..n], front, k)
    {
      assert k in ks <==> k in front;
      AdmittedAgrees(w, items, ks, front, k);
    }
  }

  /** The last item is admitted iff it clashes with nothing chosen before it. */
  lemma {:induction false} LastAdmitted(w: World, items: seq<NewsItem>, ks: seq<nat>, front: seq<nat>)
    requires items != [] && forall i :: 0 <= i < |front| ==> front[i] < |items| - 1
    requires ks == front || ks == front + [|items| - 1]
    ensures Admitted(w, items, ks, |items| - 1) <==>
            !ClashesWithAny(w, At(items[..|items| - 1], front), items[|items| - 1])
  {
    var n := |items| - 1;
    var kept := At(items[..n], front);
    if i :| 0 <= i < |kept| && Clash(w, kept[i], items[n]) {
      assert front[i] in ks && kept[i] == items[front[i]];
    }
    if j: nat :| j in ks && j < n && Clash(w, items[j], items[n]) {
      var i :| 0 <= i < |front| && front[i] == j;
      assert Clash(w, kept[i], items[n]);
    }
  }

  lemma {:induction false} AtFront(items: seq<NewsItem>, front: seq<nat>)
    requires items != [] && forall i :: 0 <= i < |front| ==> front[i] < |items| - 1
    ensures At(items, front) == At(items[..|items| - 1], front)
    ensures At(items, front + [|items| - 1]) == At(items, front) + [items[|items| - 1]]
  {
  }

  /** Dedupe returns THE greedy subsequence: the only choice of positions in which an item is kept
      iff it shares neither url nor title with an earlier kept one. */
  lemma {:induction false} DedupeIsGreedy(w: World, items: seq<NewsItem>, ks: seq<nat>)
    requires GreedyChoice(w, items, ks)
    ensures Dedupe(w, items) == At(items, ks)
    decreases |items|
  {
    if items == [] {
      HasElement(ks);
    } else {
      var n := |items| - 1;
      var front := GreedyFront(w, items, ks);
      DedupeIsGreedy(w, items[..n], front);
      LastAdmitted(w, items, ks, front);
      assert n in ks <==> Admitted(w, items, ks, n);
      AtFront(items, front);
    }
  }

  /** There is such a choice, so the characterisation is not empty. */
  lemma {:induction false} GreedyExists(w: World, items: seq<NewsItem>)
    ensures exists ks: seq<nat> :: GreedyChoice(w, items, ks)
    decreases |items|
  {
    if items == [] {
      assert GreedyChoice(w, items, []);
    } else {
      var n := |items| - 1;
      GreedyExists(w, items[..n]);
      var front: seq<nat> :| GreedyChoice(w, items[..n], front);
      assert forall i :: 0 <= i < |front| ==> front[i] < n;
      var ks := if Admitted(w, items, front, n) then front + [n] else front;
      forall k: nat | k < |items|
        ensures k in ks <==> Admitted(w, items, ks, k)
      {
        assert forall j: nat :: j < n ==> (j in ks <==> j in front);
        if k < n {
          assert Admitted(w, items, ks, k) <==> Admitted(w, items[..n], front, k);
        } else {
          assert Admitted(w, items, ks, n) <==> Admitted(w, items, front, n);
        }
      }
      assert GreedyChoice(w, items, ks);
    }
  }

  lemma {:induction false} DedupeDistinct(w: World, items: seq<NewsItem>)
    ensures PairwiseDistinct(w, Dedupe(w, items))
    decreases |items|
  {
    if items != [] {
      DedupeDistinct(w, items[..|items| - 1]);
    }
  }

  lemma {:induction false} DedupeOfDistinct(w: World, items: seq<NewsItem>)
    requires PairwiseDistinct(w, items)
    ensures Dedupe(w, items) == items
    decreases |items|
  {
    if items != [] {
      var front := items[..|items| - 1];
      DedupeOfDistinct(w, front);
      assert items == front + [items[|items| - 1]];
    }
  }

  /** Deduping twice is deduping once. */
  lemma {:induction false} DedupeIdempotent(w: World, items: seq<NewsItem>)
    ensures Dedupe(w, Dedupe(w, items)) == Dedupe(w, items)
  {
    DedupeDistinct(w, items);
    DedupeOfDistinct(w, Dedupe(w, items));
  }

  lemma {:induction false} DedupeMembers(w: World, items: seq<NewsItem>, x: NewsItem)
    ensures x in Dedupe(w, items) ==> x in items
    ensures x in items ==> ClashesWithAny(w, Dedupe(w, items), x)
    decreases |items|
  {
    if items != [] {
      var front, last := items[..|items| - 1], items[|items| - 1];
      var kept := Dedupe(w, front);
      DedupeMembers(w, front, x);
      assert items == front + [last];
      if x in front {
        var i :| 0 <= i < |kept| && Clash(w, kept[i], x);
        assert Dedupe(w, items)[i] == kept[i];
      } else if x == last && !ClashesWithAny(w, kept, x) {
        assert Dedupe(w, items)[|kept|] == x;
      }
    }
  }

  // ---------------------------------------------------------------------------------------
  // The rest of the pipeline
  // ---------------------------------------------------------------------------------------

  predicate Known(w: World, symbol: string) {
    w.lookUp(symbol).Some?
  }

  function Backfilled(w: World, item: NewsItem): NewsItem {
    if item.symbols != [] then item else item.(symbols := w.link(item.title + " " + item.summary))
  }

  function SymbolKnown(w: World): (ok: string -> bool)
    ensures forall s :: ok(s) <==> w.lookUp(s).Some?
  {
    s => Known(w, s)
  }

  function EntityKnown(w: World): (ok: Entity -> bool)
    ensures forall e :: ok(e) <==> w.lookUp(e.symbol).Some?
  {
    (e: Entity) => Known(w, e.symbol)
  }

  function Restricted(w: World, item: NewsItem): NewsItem {
    item.(symbols := Sift(item.symbols, SymbolKnown(w)), entities := Sift(item.entities, EntityKnown(w)))
  }

  method BackfillRelatedSymbols(w: World, items: seq<NewsItem>) returns (backfilled: seq<NewsItem>)
    ensures |backfilled| == |items| && forall i :: 0 <= i < |items| ==> backfilled[i] == Backfilled(w, items[i])
  {
    backfilled := [];
    for n := 0 to |items|
      invariant |backfilled| == n && forall i :: 0 <= i < n ==> backfilled[i] == Backfilled(w, items[i])
    {
      var item := items[n];
      if item.symbols != [] {
        backfilled := backfilled + [item];
        continue;
      }
      var matched := w.link(item.title + " " + item.summary);
      backfilled := backfilled + [if matched != [] then item.(symbols := matched) else item];
    }
  }

  method RestrictToUniverse(w: World, items: seq<NewsItem>) returns (restricted: seq<NewsItem>)
    ensures |restricted| == |items| && forall i :: 0 <= i < |items| ==> restricted[i] == Restricted(w, items[i])
  {
    restricted := [];
    for n := 0 to |items|
      invariant |restricted| == n && forall i :: 0 <= i < n ==> restricted[i] == Restricted(w, items[i])
    {
      var item := items[n];
      var knownSymbols := Sift(item.symbols, SymbolKnown(w));
      var knownEntities := Sift(item.entities, EntityKnown(w));
      if knownSymbols == item.symbols && knownEntities == item.entities {
        restricted := restricted + [item];
      } else {
        restricted := restricted + [item.(symbols := knownSymbols, entities := knownEntities)];
      }
    }
  }

  datatype Request = Request(symbols: seq<string>, assetClass: Option<AssetClass>, since: int, limit: int)

  function UpperSet(w: World, symbols: seq<string>): set<string> {
    set s | s in symbols :: w.upper(s)
  }

  /** Within the time window; sharing a requested symbol, if any was requested; of the requested
      class, if one was requested. */
  predicate Matches(w: World, now: int, q: Request, item: NewsItem) {
    var own := UpperSet(w, item.symbols);
    && now - item.publishedAt <= q.since
    && (q.symbols == [] || UpperSet(w, q.symbols) * own != {})
    && (q.assetClass.None? || exists s :: s in own && w.lookUp(s) == q.assetClass)
  }

  /** What a request asks for: an article no older than the window, naming one of the requested symbols up
      to case and, if a class was requested, some symbol of that class. */
  lemma {:induction false} MatchesMeans(w: World, now: int, q: Request, item: NewsItem)
    ensures Matches(w, now, q, item) <==>
            && now - item.publishedAt <= q.since
            && (q.symbols == [] || exists a, b :: a in q.symbols && b in item.symbols && w.upper(a) == w.upper(b))
            && (q.assetClass.None? || exists b :: b in item.symbols && w.lookUp(w.upper(b)) == q.assetClass)
  {
    var own, asked := UpperSet(w, item.symbols), UpperSet(w, q.symbols);
    if a, b :| a in q.symbols && b in item.symbols && w.upper(a) == w.upper(b) {
      assert w.upper(a) in asked * own;
    }
    if asked * own != {} {
      var u :| u in asked * own;
      var a :| a in q.symbols && w.upper(a) == u;
      var b :| b in item.symbols && w.upper(b) == u;
      assert w.upper(a) == w.upper(b);
    }
    if b :| b in item.symbols && w.lookUp(w.upper(b)) == q.assetClass {
      assert w.upper(b) in own;
    }
  }

  function Matching(w: World, now: int, q: Request, items: seq<NewsItem>): seq<NewsItem> {
    if items == [] then []
    else (if Matches(w, now, q, items[0]) then [items[0]] else []) + Matching(w, now, q, items[1..])
  }

  /** `items[:limit]`, a negative limit counting from the end. */
  function Slice(items: seq<NewsItem>, limit: int): (r: seq<NewsItem>)
    ensures r <= items
    ensures 0 <= limit <= |items| ==> |r| == limit
    ensures -|items| <= limit < 0 ==> |r| == |items| + limit
    ensures limit > |items| ==> r == items
    ensures limit < -|items| ==> r == []
  {
    if limit >= 0 then Take(items, limit)
    else if |items| + limit <= 0 then []
    else items[..|items| + limit]
  }

  /** What one provider gave: its articles, or `None` when it failed or timed out. */
  type Answer = Option<seq<NewsItem>>

  function Flatten(answers: seq<Answer>): seq<NewsItem> {
    if answers == [] then []
    else (if answers[0].Some? then answers[0].value else []) + Flatten(answers[1..])
  }

  /** Every answering provider's articles are collected, provider by provider and in the order given. */
  lemma {:induction false} FlattenCollects(answers: seq<Answer>, i: nat)
    requires i < |answers|
    ensures Flatten(answers) ==
            Flatten(answers[..i]) + (if answers[i].Some? then answers[i].value else []) + Flatten(answers[i + 1..])
    decreases i
  {
    if i > 0 {
      FlattenCollects(answers[1..], i - 1);
      assert answers[1..][..i - 1] == answers[..i][1..] && answers[1..][i..] == answers[i + 1..];
    }
  }

  datatype Outcome = Unavailable(providers: nat) | Articles(items: seq<NewsItem>)

  predicate Outage(answers: seq<Answer>, timedOut: bool) {
    timedOut || forall i :: 0 <= i < |answers| ==> answers[i].None?
  }

  /** An error exactly when there is no provider, the fan-out ran out of time, or every provider
      failed; otherwise a feed, possibly empty. */
  method FetchNews(w: World, now: int, q: Request, answers: seq<Answer>, timedOut: bool) returns (r: Outcome)
    ensures r.Unavailable? <==> Outage(answers, timedOut)
    ensures r.Unavailable? ==> r.providers == |answers|
    ensures r.Articles? ==> Clean(w, now, q, Flatten(answers), r.items)
    ensures r.Articles? ==> Complete(w, now, q, Flatten(answers), r.items)
  {
    if |answers| == 0 || timedOut {
      return Unavailable(|answers|);
    }
    if forall i :: 0 <= i < |answers| ==> answers[i].None? {
      return Unavailable(|answers|);
    }
    var collected := Flatten(answers);
    var deduped := DedupeNewsItems(w, collected);
    var backfilled := BackfillRelatedSymbols(w, deduped);
    var restricted := RestrictToUniverse(w, backfilled);
    var matching := Matching(w, now, q, restricted);
    var sorted := SortNewest(matching, PublishedAt);
    PipelineIsClean(w, now, q, collected, backfilled, restricted);
    PipelineIsComplete(w, now, q, collected, backfilled, restricted);
    return Articles(Slice(sorted, q.limit));
  }

  // ---------------------------------------------------------------------------------------
  // What the feed guarantees
  // ---------------------------------------------------------------------------------------

  /** `x` is the article `y` with the symbols and entities the universe knows, the symbols those `y` came
      with or, when it came with none, those its text mentions. */
  ghost predicate Stems(w: World, y: NewsItem, x: NewsItem) {
    && x.url == y.url && x.title == y.title && x.summary == y.summary && x.publishedAt == y.publishedAt
    && Sifted(if y.symbols != [] then y.symbols else w.link(y.title + " " + y.summary), SymbolKnown(w), x.symbols)
    && Sifted(y.entities, EntityKnown(w), x.entities)
  }

  /** That describes exactly one article: what backfill and restriction make of `y`. */
  lemma {:induction false} StemsIsRestrictedBackfilled(w: World, y: NewsItem, x: NewsItem)
    ensures Stems(w, y, x) <==> x == Restricted(w, Backfilled(w, y))
  {
    var symbols := Backfilled(w, y).symbols;
    SiftSifts(symbols, SymbolKnown(w));
    SiftSifts(y.entities, EntityKnown(w));
    if Stems(w, y, x) {
      var ks :| SiftedAt(symbols, SymbolKnown(w), x.symbols, ks);
      SiftedIsSift(symbols, SymbolKnown(w), x.symbols, ks);
      var kt :| SiftedAt(y.entities, EntityKnown(w), x.entities, kt);
      SiftedIsSift(y.entities, EntityKnown(w), x.entities, kt);
    }
  }

  /** Newest first, nothing twice by url or title, every symbol and entity in the universe, every
      item matching the request and stemming from one a provider gave, at most `limit` of them. */
  ghost predicate Clean(w: World, now: int, q: Request, collected: seq<NewsItem>, feed: seq<NewsItem>) {
    && Descending(feed, PublishedAt)
    && PairwiseDistinct(w, feed)
    && (forall x :: x in feed ==> Sound(w, now, q, collected, x))
    && (q.limit >= 0 ==> |feed| <= q.limit)
  }

  ghost predicate Sound(w: World, now: int, q: Request, collected: seq<NewsItem>, x: NewsItem) {
    && (forall s :: s in x.symbols ==> Known(w, s))
    && (forall e :: e in x.entities ==> Known(w, e.symbol))
    && Matches(w, now, q, x)
    && exists k :: 0 <= k < |collected| && Stems(w, collected[k], x)
  }

  /** Nothing is lost but by the limit: a matching item kept by the dedupe is in the feed, or the feed
      is full and holds nothing older. */
  ghost predicate Complete(w: World, now: int, q: Request, collected: seq<NewsItem>, feed: seq<NewsItem>) {
    forall y, x :: y in Dedupe(w, collected) && Stems(w, y, x) && Matches(w, now, q, x) ==> InOrCut(feed, q.limit, x)
  }

  predicate InOrCut(feed: seq<NewsItem>, limit: int, x: NewsItem) {
    x in feed || ((limit >= 0 ==> |feed| == limit) && forall z :: z in feed ==> z.publishedAt >= x.publishedAt)
  }

  /** Filtering keeps what matches, in order, and keeps distinctness. */
  lemma {:induction false} MatchingKeeps(w: World, now: int, q: Request, items: seq<NewsItem>)
    requires PairwiseDistinct(w, items)
    ensures PairwiseDistinct(w, Matching(w, now, q, items)) && |Matching(w, now, q, items)| <= |items|
    ensures forall x :: x in Matching(w, now, q, items) <==> x in items && Matches(w, now, q, x)
    decreases |items|
  {
    if items != [] {
      var rest := items[1..];
      forall i, j | 0 <= i < j < |rest|
        ensures !Clash(w, rest[i], rest[j])
      {
        assert rest[i] == items[i + 1] && rest[j] == items[j + 1];
      }
      MatchingKeeps(w, now, q, rest);
      assert items == [items[0]] + rest;
      var kept := Matching(w, now, q, rest);
      forall j | 0 <= j < |kept|
        ensures !Clash(w, items[0], kept[j])
      {
        assert kept[j] in rest;
        var k :| 0 <= k < |rest| && rest[k] == kept[j];
        assert items[k + 1] == rest[k];
      }
    }
  }

  /** Reordering keeps distinctness. */
  lemma {:induction false} PermutedDistinct(w: World, a: seq<NewsItem>, b: seq<NewsItem>)
    requires PairwiseDistinct(w, a) && multiset(a) == multiset(b)
    ensures PairwiseDistinct(w, b)
  {
    forall i, j | 0 <= i < j < |a|
      ensures a[i] != a[j]
    {
      assert !Clash(w, a[i], a[j]);
    }
    NoRepeatsByCount(a);
    NoRepeatsByCount(b);
    forall i, j | 0 <= i < j < |b|
      ensures !Clash(w, b[i], b[j])
    {
      assert b[i] in multiset(b) && b[j] in multiset(b);
      assert b[i] in a && b[j] in a;
      var k :| 0 <= k < |a| && a[k] == b[i];
      var l :| 0 <= l < |a| && a[l] == b[j];
      assert k != l;
      assert !Clash(w, a[if k < l then k else l], a[if k < l then l else k]);
    }
  }

  /** `backfilled` and `restricted` are the stages of the pipeline on `collected`. */
  predicate Stages(w: World, collected: seq<NewsItem>, backfilled: seq<NewsItem>, restricted: seq<NewsItem>) {
    && |backfilled| == |restricted| == |Dedupe(w, collected)|
    && (forall i :: 0 <= i < |backfilled| ==> backfilled[i] == Backfilled(w, Dedupe(w, collected)[i]))
    && (forall i :: 0 <= i < |restricted| ==> restricted[i] == Restricted(w, backfilled[i]))
  }

  lemma {:induction false} RestrictedIsSound(w: World, now: int, q: Request, collected: seq<NewsItem>,
                                             backfilled: seq<NewsItem>, restricted: seq<NewsItem>, x: NewsItem)
    requires Stages(w, collected, backfilled, restricted) && x in restricted && Matches(w, now, q, x)
    ensures Sound(w, now, q, collected, x)
  {
    var i :| 0 <= i < |restricted| && restricted[i] == x;
    var y := Dedupe(w, collected)[i];
    assert y in Dedupe(w, collected);
    DedupeMembers(w, collected, y);
    var k :| 0 <= k < |collected| && collected[k] == y;
    StemsIsRestrictedBackfilled(w, y, x);
    assert Stems(w, collected[k], x);
  }

  lemma {:induction false} RestrictedIsDistinct(w: World, collected: seq<NewsItem>, backfilled: seq<NewsItem>,
                                                restricted: seq<NewsItem>)
    requires Stages(w, collected, backfilled, restricted)
    ensures PairwiseDistinct(w, restricted)
  {
    var deduped := Dedupe(w, collected);
    DedupeDistinct(w, collected);
    forall i, j | 0 <= i < j < |restricted|
      ensures !Clash(w, restricted[i], restricted[j])
    {
      assert !Clash(w, deduped[i], deduped[j]);
    }
  }

  /** A prefix of a sorted list without clashes is one too, and what it leaves out is not newer. */
  lemma {:induction false} SliceKeeps(w: World, sorted: seq<NewsItem>, limit: int)
    requires PairwiseDistinct(w, sorted) && Descending(sorted, PublishedAt)
    ensures var feed := Slice(sorted, limit);
            && PairwiseDistinct(w, feed) && Descending(feed, PublishedAt)
            && (forall x :: x in feed ==> x in sorted)
            && (limit >= 0 ==> |feed| <= limit)
  {
    var feed := Slice(sorted, limit);
    forall i, j | 0 <= i < j < |feed|
      ensures !Clash(w, feed[i], feed[j]) && PublishedAt(feed[i]) >= PublishedAt(feed[j])
    {
      assert feed[i] == sorted[i] && feed[j] == sorted[j];
    }
  }

  lemma {:induction false} SliceCutsTheOldest(sorted: seq<NewsItem>, limit: int, x: NewsItem)
    requires Descending(sorted, PublishedAt) && x in sorted
    ensures InOrCut(Slice(sorted, limit), limit, x)
  {
    var feed := Slice(sorted, limit);
    var i :| 0 <= i < |sorted| && sorted[i] == x;
    if i < |feed| {
      assert feed[i] == x;
    } else {
      forall z | z in feed
        ensures z.publishedAt >= x.publishedAt
      {
        var j :| 0 <= j < |feed| && feed[j] == z;
        assert feed[j] == sorted[j] && PublishedAt(sorted[j]) >= PublishedAt(sorted[i]);
      }
    }
  }

  /** Sorting and cutting keep distinctness, order the items, add none and cut only the oldest. */
  lemma {:induction false} SortAndSlice(w: World, items: seq<NewsItem>, limit: int)
    requires PairwiseDistinct(w, items)
    ensures var feed := Slice(SortNewest(items, PublishedAt), limit);
            && PairwiseDistinct(w, feed) && Descending(feed, PublishedAt)
            && (limit >= 0 ==> |feed| <= limit)
            && (forall x :: x in feed ==> x in items)
            && (forall x :: x in items ==> InOrCut(feed, limit, x))
  {
    var sorted := SortNewest(items, PublishedAt);
    SortNewestSorts(items, PublishedAt);
    PermutedDistinct(w, items, sorted);
    SliceKeeps(w, sorted, limit);
    forall x
      ensures x in sorted <==> x in items
    {
      assert x in multiset(sorted) <==> x in multiset(items);
    }
    forall x | x in items
      ensures InOrCut(Slice(sorted, limit), limit, x)
    {
      SliceCutsTheOldest(sorted, limit, x);
    }
  }

  /** Distinctness survives backfill, restriction, filter, sort and limit. */
  lemma {:induction false} PipelineIsClean(w: World, now: int, q: Request, collected: seq<NewsItem>,
                                           backfilled: seq<NewsItem>, restricted: seq<NewsItem>)
    requires Stages(w, collected, backfilled, restricted)
    ensures Clean(w, now, q, collected, Slice(SortNewest(Matching(w, now, q, restricted), PublishedAt), q.limit))
  {
    RestrictedIsDistinct(w, collected, backfilled, restricted);
    MatchingKeeps(w, now, q, restricted);
    SortAndSlice(w, Matching(w, now, q, restricted), q.limit);
    forall x | x in Matching(w, now, q, restricted)
      ensures Sound(w, now, q, collected, x)
    {
      RestrictedIsSound(w, now, q, collected, backfilled, restricted, x);
    }
  }

  /** Only the limit costs a deduped matching item its place, and only to newer ones. */
  lemma {:induction false} PipelineIsComplete(w: World, now: int, q: Request, collected: seq<NewsItem>,
                                              backfilled: seq<NewsItem>, restricted: seq<NewsItem>)
    requires Stages(w, collected, backfilled, restricted)
    ensures Complete(w, now, q, collected, Slice(SortNewest(Matching(w, now, q, restricted), PublishedAt), q.limit))
  {
    var deduped := Dedupe(w, collected);
    RestrictedIsDistinct(w, collected, backfilled, restricted);
    MatchingKeeps(w, now, q, restricted);
    SortAndSlice(w, Matching(w, now, q, restricted), q.limit);
    forall y, x | y in deduped && Stems(w, y, x) && Matches(w, now, q, x)
      ensures x in Matching(w, now, q, restricted)
    {
      StemsIsRestrictedBackfilled(w, y, x);
      var i :| 0 <= i < |deduped| && deduped[i] == y;
      assert restricted[i] == Restricted(w, Backfilled(w, y));
    }
  }
}
