/** The crypto price provider in front of the CoinGecko stack, and the router that serves real data or
    an error. Calls run one after another on one clock; other adapters share the key ring. */
module MarketData {
  import opened Wrappers
  import opened CoinGecko

  datatype AssetClass = Crypto | Stock | Forex | Commodity | Index

  datatype Instrument = Instrument(symbol: string, assetClass: AssetClass)

  datatype PriceCandle = PriceCandle(timestamp: real, open: real, high: real, low: real, close: real)

  datatype PriceSeries = PriceSeries(symbol: string, candles: seq<PriceCandle>)

  /** A returned value or an exception. */
  datatype Answer<T> = Value(value: T) | Raised

  datatype Result<T> = Ok(value: T) | Unavailable

  /** The single daily price stands for all four. */
  function ToCandle(point: Point): PriceCandle {
    PriceCandle(point.0 as real / 1000.0, point.1, point.1, point.1, point.1)
  }

  /** A body without prices has no candles. */
  function CandlesOf(payload: Payload): seq<PriceCandle> {
    if payload.Prices? then seq(|payload.points|, i requires 0 <= i < |payload.points| => ToCandle(payload.points[i]))
    else []
  }

  function PriceOf(payload: Payload): Option<real> {
    if payload.LastPrice? then payload.price else None
  }

  function SeriesAnswer(symbol: string, r: Fetch): Answer<PriceSeries> {
    match r
    case Got(payload) => Value(PriceSeries(symbol, CandlesOf(payload)))
    case Crashed => Raised
    case _ => Value(PriceSeries(symbol, []))
  }

  function PriceAnswer(r: Fetch): Answer<Option<real>> {
    match r
    case Got(payload) => Value(PriceOf(payload))
    case Crashed => Raised
    case _ => Value(None)
  }

  /** One candle per point, in order: milliseconds become seconds and the price stands for all four. */
  predicate AreCandles(points: seq<Point>, candles: seq<PriceCandle>) {
    && |candles| == |points|
    && forall i :: 0 <= i < |points| ==>
         && candles[i].timestamp * 1000.0 == points[i].0 as real
         && candles[i].open == candles[i].high == candles[i].low == candles[i].close == points[i].1
  }

  /** What a series call answers to what the upstream told: an exception only for an unreadable body, and
      nothing for every failure. */
  predicate AnswersSeries(a: Answer<PriceSeries>, symbol: string, told: Fetch) {
    match told
    case Got(Prices(points)) => a.Value? && a.value.symbol == symbol && AreCandles(points, a.value.candles)
    case Crashed => a.Raised?
    case _ => a == Value(PriceSeries(symbol, []))
  }

  predicate AnswersPrice(a: Answer<Option<real>>, told: Fetch) {
    match told
    case Got(LastPrice(price)) => a == Value(price)
    case Crashed => a.Raised?
    case _ => a == Value(None)
  }

  // ---------------------------------------------------------------------------------------
  // Calls and the breaker
  // ---------------------------------------------------------------------------------------

  lemma {:induction false} EventKeepsBreaker(before: seq<Event>, e: Event, since: int, cooldown: int)
    requires BreakerTrace(before, cooldown) && !e.Armed?
    requires Gated(e) ==> BreakerRested(before, since, cooldown) && e.at >= since
    ensures BreakerTrace(before + [e], cooldown) && ArmedUntil(before + [e], cooldown) == ArmedUntil(before, cooldown)
  {
    assert Front(before + [e]) == before;
  }

  lemma {:induction false} LastOne(before: seq<Event>, added: seq<Event>)
    requires added != []
    ensures before + added == before + Front(added) + [Last(added)]
  {
  }

  lemma {:induction false} LastTwo(before: seq<Event>, added: seq<Event>)
    requires |added| >= 2
    ensures before + added == before + added[..|added| - 2] + [added[|added| - 2]] + [added[|added| - 1]]
  {
  }

  lemma {:induction false} PairKeepsBreaker(before: seq<Event>, sent: Event, benched: Event, request: Request,
                                            since: int, slot: nat, cooldown: int)
    requires RefusedPair(sent, benched, request, since, slot) && BreakerTrace(before, cooldown)
    requires request.Other? || BreakerRested(before, since, cooldown)
    ensures BreakerTrace(before + [sent] + [benched], cooldown)
    ensures ArmedUntil(before + [sent] + [benched], cooldown) == ArmedUntil(before, cooldown)
  {
    EventKeepsBreaker(before, sent, since, cooldown);
    EventKeepsBreaker(before + [sent], benched, since, cooldown);
  }

  lemma {:induction false} RefusalsKeepBreaker(before: seq<Event>, added: seq<Event>, request: Request, since: int,
                                               n: nat, cooldown: int)
    requires RefusedBelow(added, request, since, n) && BreakerTrace(before, cooldown)
    requires request.Other? || BreakerRested(before, since, cooldown)
    ensures BreakerTrace(before + added, cooldown)
    ensures ArmedUntil(before + added, cooldown) == ArmedUntil(before, cooldown)
  {
    if n == 0 {
      assert before + added == before;
    } else if RefusedBelow(added, request, since, n - 1) {
      RefusalsKeepBreaker(before, added, request, since, n - 1, cooldown);
    } else {
      var rest, sent, benched := added[..|added| - 2], added[|added| - 2], added[|added| - 1];
      RefusalsKeepBreaker(before, rest, request, since, n - 1, cooldown);
      PairKeepsBreaker(before + rest, sent, benched, request, since, n - 1, cooldown);
      LastTwo(before, added);
    }
  }

  /** The last event is the failed answer to this request. */
  predicate JustFailed(trace: seq<Event>, request: Request, error: Error) {
    && trace != [] && Last(trace).Sent? && Last(trace).request == request
    && ErrorOf(Last(trace).reply) == error
  }

  /** A call keeps the breaker's discipline if the breaker had rested, or if it is another adapter's. */
  lemma {:induction false} CallKeepsBreaker(before: seq<Event>, trace: seq<Event>, ringCooldown: int, request: Request,
                                            since: int, slots: nat, r: Fetch, cooldown: int)
    requires CallDone(before, trace, ringCooldown, request, since, slots, r) && BreakerTrace(before, cooldown)
    requires request.Other? || BreakerRested(before, since, cooldown)
    ensures BreakerTrace(trace, cooldown) && ArmedUntil(trace, cooldown) == ArmedUntil(before, cooldown)
    ensures r.Failed? ==> JustFailed(trace, request, r.error)
  {
    var added := trace[|before|..];
    assert before + added == trace;
    if r.AllLimited? {
      RefusalsKeepBreaker(before, added, request, since, slots, cooldown);
    } else {
      RefusalsKeepBreaker(before, Front(added), request, since, Last(added).slot, cooldown);
      EventKeepsBreaker(before + Front(added), Last(added), since, cooldown);
      LastOne(before, added);
    }
  }

  predicate Arms(r: Fetch) {
    r.Failed? && !IsClientError(r.error)
  }

  /** A price request through the ring, then an arming exactly if it failed through no fault of its own. */
  predicate GatedCall(before: seq<Event>, trace: seq<Event>, ringCooldown: int, request: Request, since: int, now: int,
                      slots: nat, r: Fetch) {
    if Arms(r) then
      && trace != [] && Last(trace) == Armed(now, r.error)
      && CallDone(before, Front(trace), ringCooldown, request, since, slots, r)
    else CallDone(before, trace, ringCooldown, request, since, slots, r)
  }

  lemma {:induction false} ArmedAfter(before: seq<Event>, sent: seq<Event>, trace: seq<Event>, ringCooldown: int,
                                      request: Request, since: int, now: int, slots: nat, r: Fetch)
    requires CallDone(before, sent, ringCooldown, request, since, slots, r)
    requires trace == sent + if Arms(r) then [Armed(now, r.error)] else []
    ensures GatedCall(before, trace, ringCooldown, request, since, now, slots, r)
  {
    if Arms(r) {
      assert Front(trace) == sent;
    } else {
      assert trace == sent;
    }
  }

  lemma {:induction false} RefusalsEndInBench(added: seq<Event>, request: Request, since: int, n: nat)
    requires RefusedBelow(added, request, since, n)
    ensures added == [] || Last(added).Benched?
  {
    if n > 0 && RefusedBelow(added, request, since, n - 1) {
      RefusalsEndInBench(added, request, since, n - 1);
    }
  }

  /** The outcome can be read off the trace. */
  lemma {:induction false} OutcomeIsForced(before: seq<Event>, trace: seq<Event>, ringCooldown: int, request: Request,
                                           since: int, now: int, slots: nat, r: Fetch, other: Fetch)
    requires GatedCall(before, trace, ringCooldown, request, since, now, slots, r)
    requires GatedCall(before, trace, ringCooldown, request, since, now, slots, other)
    ensures r == other
  {
    EndOfCall(before, trace, ringCooldown, request, since, now, slots, r);
    EndOfCall(before, trace, ringCooldown, request, since, now, slots, other);
  }

  lemma {:induction false} EndOfCall(before: seq<Event>, trace: seq<Event>, ringCooldown: int, request: Request,
                                     since: int, now: int, slots: nat, r: Fetch)
    requires GatedCall(before, trace, ringCooldown, request, since, now, slots, r)
    ensures before <= trace
    ensures var added := trace[|before|..];
            r == if added == [] || Last(added).Benched? then AllLimited
                 else if Last(added).Armed? then Failed(Last(added).error)
                 else Verdict(Last(added).reply)
  {
    if Arms(r) {
      assert before <= Front(trace) <= trace;
    } else if r.AllLimited? {
      RefusalsEndInBench(trace[|before|..], request, since, slots);
    }
  }

  // ---------------------------------------------------------------------------------------
  // What is cached is the last thing upstream gave
  // ---------------------------------------------------------------------------------------

  /** A successful, readable reply to exactly this request. */
  predicate Replied(e: Event, request: Request) {
    e.Sent? && e.request == request && Verdict(e.reply).Got?
  }

  /** What upstream last gave for this request. */
  function LastReply(trace: seq<Event>, request: Request): Option<Payload> {
    if trace == [] then None
    else if Replied(Last(trace), request) then Some(Last(trace).reply.payload)
    else LastReply(Front(trace), request)
  }

  /** That reply was requested no later than `storedAt`, and everything since happened no earlier. */
  predicate StoredOnReply(trace: seq<Event>, request: Request, storedAt: int) {
    trace != [] &&
    if Replied(Last(trace), request) then Last(trace).at <= storedAt
    else storedAt <= Last(trace).at && StoredOnReply(Front(trace), request, storedAt)
  }

  type SeriesStore = map<(string, int), (int, PriceSeries)>
  type PriceStore = map<string, (int, Option<real>)>

  /** The series stored for `key` is what upstream last gave for it, stored as it came; none is stored if
      upstream never gave any. */
  predicate SeriesSourced(trace: seq<Event>, series: SeriesStore, key: (string, int)) {
    match LastReply(trace, Chart(key.0, key.1))
    case None => key !in series
    case Some(payload) =>
      && key in series && series[key].1.candles == CandlesOf(payload)
      && StoredOnReply(trace, Chart(key.0, key.1), series[key].0)
  }

  predicate PriceSourced(trace: seq<Event>, prices: PriceStore, coin: string) {
    match LastReply(trace, Quote(coin))
    case None => coin !in prices
    case Some(payload) =>
      coin in prices && prices[coin].1 == PriceOf(payload) && StoredOnReply(trace, Quote(coin), prices[coin].0)
  }

  ghost predicate Sourced(trace: seq<Event>, series: SeriesStore, prices: PriceStore) {
    && (forall key :: SeriesSourced(trace, series, key))
    && (forall coin :: PriceSourced(trace, prices, coin))
  }

  /** Everything stored was stored by `now`. */
  predicate StoredBy(series: SeriesStore, prices: PriceStore, now: int) {
    && (forall key :: key in series ==> series[key].0 <= now)
    && (forall coin :: coin in prices ==> prices[coin].0 <= now)
  }

  lemma {:induction false} EventKeepsSourced(before: seq<Event>, e: Event, series: SeriesStore, prices: PriceStore)
    requires Sourced(before, series, prices) && StoredBy(series, prices, e.at)
    requires e.Sent? && Verdict(e.reply).Got? ==> e.request.Other?
    ensures Sourced(before + [e], series, prices)
  {
    var trace := before + [e];
    assert Front(trace) == before;
    forall key
      ensures SeriesSourced(trace, series, key)
    {
      assert SeriesSourced(before, series, key);
    }
    forall coin
      ensures PriceSourced(trace, prices, coin)
    {
      assert PriceSourced(before, prices, coin);
    }
  }

  lemma {:induction false} PairKeepsSourced(before: seq<Event>, sent: Event, benched: Event, request: Request,
                                            since: int, slot: nat, series: SeriesStore, prices: PriceStore)
    requires RefusedPair(sent, benched, request, since, slot)
    requires Sourced(before, series, prices) && StoredBy(series, prices, since)
    ensures Sourced(before + [sent] + [benched], series, prices)
  {
    EventKeepsSourced(before, sent, series, prices);
    EventKeepsSourced(before + [sent], benched, series, prices);
  }

  lemma {:induction false} RefusalsKeepSourced(before: seq<Event>, added: seq<Event>, request: Request, since: int,
                                               n: nat, series: SeriesStore, prices: PriceStore)
    requires RefusedBelow(added, request, since, n)
    requires Sourced(before, series, prices) && StoredBy(series, prices, since)
    ensures Sourced(before + added, series, prices)
  {
    if n == 0 {
      assert before + added == before;
    } else if RefusedBelow(added, request, since, n - 1) {
      RefusalsKeepSourced(before, added, request, since, n - 1, series, prices);
    } else {
      var rest, sent, benched := added[..|added| - 2], added[|added| - 2], added[|added| - 1];
      RefusalsKeepSourced(before, rest, request, since, n - 1, series, prices);
      PairKeepsSourced(before + rest, sent, benched, request, since, n - 1, series, prices);
      LastTwo(before, added);
    }
  }

  /** The last event is the answer to this request, and nothing but it is missing from the caches. */
  ghost predicate JustReplied(trace: seq<Event>, request: Request, payload: Payload, since: int, series: SeriesStore,
                              prices: PriceStore) {
    && trace != [] && Replied(Last(trace), request) && Last(trace).reply.payload == payload
    && since <= Last(trace).at
    && Sourced(Front(trace), series, prices)
  }

  lemma {:induction false} CallKeepsSourced(before: seq<Event>, trace: seq<Event>, ringCooldown: int, request: Request,
                                            since: int, slots: nat, r: Fetch, series: SeriesStore, prices: PriceStore)
    requires CallDone(before, trace, ringCooldown, request, since, slots, r)
    requires Sourced(before, series, prices) && StoredBy(series, prices, since)
    ensures !r.Got? || request.Other? ==> Sourced(trace, series, prices)
    ensures r.Got? ==> JustReplied(trace, request, r.payload, since, series, prices) && |trace| > |before|
  {
    var added := trace[|before|..];
    assert before + added == trace;
    if r.AllLimited? {
      RefusalsKeepSourced(before, added, request, since, slots, series, prices);
    } else {
      RefusalsKeepSourced(before, Front(added), request, since, Last(added).slot, series, prices);
      LastOne(before, added);
      assert Front(trace) == before + Front(added);
      if !r.Got? || request.Other? {
        EventKeepsSourced(before + Front(added), Last(added), series, prices);
      }
    }
  }

  /** Storing the reply that just came restores the invariant. */
  lemma {:induction false} SeriesStored(trace: seq<Event>, series: SeriesStore, prices: PriceStore, key: (string, int),
                                        payload: Payload, since: int, now: int, value: PriceSeries)
    requires JustReplied(trace, Chart(key.0, key.1), payload, since, series, prices) && StoredBy(series, prices, since)
    requires value.candles == CandlesOf(payload) && UpTo(trace, now)
    ensures Sourced(trace, series[key := (now, value)], prices)
  {
    var front, updated := Front(trace), series[key := (now, value)];
    forall k
      ensures SeriesSourced(trace, updated, k)
    {
      assert SeriesSourced(front, series, k);
      assert Replied(Last(trace), Chart(k.0, k.1)) <==> k == key;
    }
    forall coin
      ensures PriceSourced(trace, prices, coin)
    {
      assert PriceSourced(front, prices, coin);
    }
  }

  lemma {:induction false} PriceStored(trace: seq<Event>, series: SeriesStore, prices: PriceStore, coin: string,
                                       payload: Payload, since: int, now: int)
    requires JustReplied(trace, Quote(coin), payload, since, series, prices) && StoredBy(series, prices, since)
    requires UpTo(trace, now)
    ensures Sourced(trace, series, prices[coin := (now, PriceOf(payload))])
  {
    var front, updated := Front(trace), prices[coin := (now, PriceOf(payload))];
    forall key
      ensures SeriesSourced(trace, series, key)
    {
      assert SeriesSourced(front, series, key);
    }
    forall c
      ensures PriceSourced(trace, updated, c)
    {
      assert PriceSourced(front, prices, c);
    }
  }

  // ---------------------------------------------------------------------------------------
  // Provider
  // ---------------------------------------------------------------------------------------

  predicate Young<K, V>(lastSet: map<K, (int, V)>, key: K, ttl: int, now: int) {
    key in lastSet && now < lastSet[key].0 + ttl
  }

  /** The field is the end of the last arming, or cleared after it. */
  predicate BreakerOk(trace: seq<Event>, now: int, cooldownUntil: Option<int>, cooldown: int) {
    && cooldown > 0
    && BreakerTrace(trace, cooldown)
    && (cooldownUntil == ArmedUntil(trace, cooldown) || (cooldownUntil.None? && BreakerRested(trace, now, cooldown)))
  }

  /** How an answer came about: from the cache, not at all while the breaker lasts, or by a call made
      between two moments. */
  datatype Path = Cached | Cooling | Upstream(r: Fetch, since: int, upTo: int)

  class CoinGeckoMarketDataProvider {
    const world: World
    const ring: KeyRing
    const seriesCache: TtlCache<(string, int), PriceSeries>
    const priceCache: TtlCache<string, Option<real>>
    const overrides: map<string, string>
    const lower: string -> string
    const maxHistoryDays: int
    const cooldown: int
    var cooldownUntil: Option<int>

    /** All but the contents of the caches. */
    ghost predicate Sound()
      reads this, world, ring, seriesCache, priceCache
    {
      && ring.world == world && seriesCache.world == world && priceCache.world == world
      && (seriesCache as object) != (priceCache as object)
      && ring.Valid() && Settled(world.trace)
      && seriesCache.Valid() && priceCache.Valid()
      && BreakerOk(world.trace, world.now, cooldownUntil, cooldown)
    }

    ghost predicate Valid()
      reads this, world, ring, seriesCache, priceCache
    {
      Sound() && Sourced(world.trace, seriesCache.lastSet, priceCache.lastSet)
    }

    constructor (ring: KeyRing, overrides: map<string, string>, lower: string -> string, ttl: int, cooldown: int,
                 maxHistoryDays: int)
      requires ring.Valid() && ring.world.trace == [] && cooldown > 0
      ensures Valid() && this.ring == ring && this.world == ring.world && fresh(seriesCache) && fresh(priceCache)
      ensures seriesCache.lastSet == map[] && priceCache.lastSet == map[] && cooldownUntil == None
    {
      this.world, this.ring := ring.world, ring;
      this.overrides, this.lower, this.cooldown, this.maxHistoryDays := overrides, lower, cooldown, maxHistoryDays;
      seriesCache := new TtlCache(ring.world, ttl);
      priceCache := new TtlCache(ring.world, ttl);
      cooldownUntil := None;
    }

    function ResolveId(symbol: string): (coin: string)
      ensures symbol in overrides ==> coin == overrides[symbol]
      ensures symbol !in overrides ==> coin == lower(symbol)
    {
      if symbol in overrides then overrides[symbol] else lower(symbol)
    }

    /** Coin and clamped window. */
    function SeriesKey(symbol: string, days: int): (key: (string, int))
      ensures key.0 == ResolveId(symbol)
      ensures key.1 <= days && key.1 <= maxHistoryDays && (key.1 == days || key.1 == maxHistoryDays)
    {
      (ResolveId(symbol), if days < maxHistoryDays then days else maxHistoryDays)
    }

    /** Clears itself once elapsed; false exactly when the last arming has ended. */
    method InCooldown() returns (cooling: bool)
      requires Valid()
      modifies this`cooldownUntil, world`now
      ensures world.now >= old(world.now)
      ensures cooldownUntil == if cooling then old(cooldownUntil) else None
      ensures cooling <==> !BreakerRested(world.trace, world.now, cooldown)
      ensures Valid()
    {
      if cooldownUntil.None? {
        return false;
      }
      var t := world.ReadClock();
      if t >= cooldownUntil.value {
        cooldownUntil := None;
        return false;
      }
      return true;
    }

    /** Arms the breaker unless the request itself was at fault. Arming on any error is possible; arming
        on the error of the price request just answered keeps the provider's invariant. */
    method EnterCooldown(error: Error)
      requires Valid()
      modifies this`cooldownUntil, world
      ensures world.now >= old(world.now)
      ensures var ours := error.StatusError? && 400 <= error.status < 500 && error.status != 429;
              && world.trace == old(world.trace) + (if ours then [] else [Armed(world.now, error)])
              && cooldownUntil == if ours then old(cooldownUntil) else Some(world.now + cooldown)
      ensures old(Justified(error)) ==> Valid()
    {
      if IsClientError(error) {
        return;
      }
      var t := world.ReadClock();
      cooldownUntil := Some(t + cooldown);
      ghost var before := world.trace;
      world.trace := before + [Armed(t, error)];
      assert Front(world.trace) == before;
      EventKeepsSourced(before, Armed(t, error), seriesCache.lastSet, priceCache.lastSet);
    }

    /** The price request just answered failed with this error, the breaker having rested. */
    ghost predicate Justified(error: Error)
      reads this, world
    {
      && BreakerRested(world.trace, world.now, cooldown)
      && world.trace != [] && Gated(Last(world.trace)) && ErrorOf(Last(world.trace).reply) == error
    }

    /** A price request through the ring, arming the breaker on failure. */
    method GatedGet(request: Request) returns (r: Fetch)
      requires Valid() && !request.Other? && BreakerRested(world.trace, world.now, cooldown)
      modifies this`cooldownUntil, ring, world
      ensures world.now >= old(world.now)
      ensures GatedCall(old(world.trace), world.trace, ring.cooldown, request, old(world.now), world.now,
                        ring.SlotCount(), r)
      ensures r.Got? ==>
                && |world.trace| > |old(world.trace)|
                && JustReplied(world.trace, request, r.payload, old(world.now), seriesCache.lastSet, priceCache.lastSet)
      ensures if r.Got? then Sound() else Valid()
    {
      r := CoinGeckoGet(ring, request);
      ghost var before, sent, since := old(world.trace), world.trace, old(world.now);
      CallKeepsBreaker(before, sent, ring.cooldown, request, since, ring.SlotCount(), r, cooldown);
      CallKeepsSourced(before, sent, ring.cooldown, request, since, ring.SlotCount(), r, seriesCache.lastSet,
                       priceCache.lastSet);
      if r.Failed? {
        EnterCooldown(r.error);
      }
      ArmedAfter(before, sent, world.trace, ring.cooldown, request, since, world.now, ring.SlotCount(), r);
    }

    /** What the trace and the breaker say of a path, whatever was asked. */
    ghost predicate Took(path: Path, request: Request, before: seq<Event>, start: int)
      reads this, world, ring
    {
      match path
      case Cached => world.trace == before
      case Cooling => world.trace == before && !BreakerRested(before, start, cooldown)
      case Upstream(r, since, upTo) =>
        && start <= since && upTo <= world.now
        && GatedCall(before, world.trace, ring.cooldown, request, since, upTo, ring.SlotCount(), r)
        && (r.Got? ==> |world.trace| > |before| && Replied(Last(world.trace), request))
    }

    method CachedSeries(key: (string, int)) returns (cached: Option<PriceSeries>)
      requires Valid()
      modifies seriesCache`store, world`now
      ensures world.now >= old(world.now)
      ensures cached == if Young(seriesCache.lastSet, key, seriesCache.ttl, world.now)
                        then Some(seriesCache.lastSet[key].1) else None
      ensures Valid()
    {
      cached := seriesCache.Get(key);
    }

    /** Asks upstream, and stores whatever comes back, an empty series too. */
    method FetchSeries(key: (string, int), symbol: string) returns (a: Answer<PriceSeries>, ghost path: Path)
      requires Valid() && BreakerRested(world.trace, world.now, cooldown)
      modifies this`cooldownUntil, ring, world, seriesCache
      ensures world.now >= old(world.now)
      ensures path.Upstream? && Took(path, Chart(key.0, key.1), old(world.trace), old(world.now))
      ensures a == SeriesAnswer(symbol, path.r) && AnswersSeries(a, symbol, path.r)
      ensures seriesCache.lastSet == if path.r.Got? then old(seriesCache.lastSet)[key := (world.now, a.value)]
                                     else old(seriesCache.lastSet)
      ensures Valid()
    {
      var r := GatedGet(Chart(key.0, key.1));
      path := Upstream(r, old(world.now), world.now);
      a := SeriesAnswer(symbol, r);
      if r.Got? {
        seriesCache.Set(key, a.value);
        SeriesStored(world.trace, old(seriesCache.lastSet), priceCache.lastSet, key, r.payload, old(world.now),
                     world.now, a.value);
      }
    }

    /** The last value stored for this coin and clamped window while it is young; otherwise what the
        upstream says now, or an empty series while the breaker lasts. */
    method GetPriceSeries(instrument: Instrument, days: int) returns (a: Answer<PriceSeries>, ghost path: Path)
      requires Valid()
      modifies this`cooldownUntil, ring, world, seriesCache
      ensures world.now >= old(world.now)
      ensures var key := SeriesKey(instrument.symbol, days);
              var stored := old(seriesCache.lastSet);
              && Took(path, Chart(key.0, key.1), old(world.trace), old(world.now))
              && (path.Cached? <==> Young(stored, key, seriesCache.ttl, world.now))
              && a == (match path
                       case Cached => Value(stored[key].1)
                       case Cooling => Value(PriceSeries(instrument.symbol, []))
                       case Upstream(r, _, _) => SeriesAnswer(instrument.symbol, r))
              && (path.Upstream? ==> AnswersSeries(a, instrument.symbol, path.r))
              && seriesCache.lastSet == if path.Upstream? && path.r.Got? then stored[key := (world.now, a.value)]
                                        else stored
      ensures Valid()
    {
      var key := SeriesKey(instrument.symbol, days);
      var cached := CachedSeries(key);
      if cached.Some? {
        return Value(cached.value), Cached;
      }
      var cooling := InCooldown();
      if cooling {
        return Value(PriceSeries(instrument.symbol, [])), Cooling;
      }
      a, path := FetchSeries(key, instrument.symbol);
    }

    method CachedPrice(coin: string) returns (cached: Option<Option<real>>)
      requires Valid()
      modifies priceCache`store, world`now
      ensures world.now >= old(world.now)
      ensures cached == if Young(priceCache.lastSet, coin, priceCache.ttl, world.now)
                        then Some(priceCache.lastSet[coin].1) else None
      ensures Valid()
    {
      cached := priceCache.Get(coin);
    }

    /** Asks upstream, and stores whatever comes back, a missing price too. */
    method FetchPrice(coin: string) returns (a: Answer<Option<real>>, ghost path: Path)
      requires Valid() && BreakerRested(world.trace, world.now, cooldown)
      modifies this`cooldownUntil, ring, world, priceCache
      ensures world.now >= old(world.now)
      ensures path.Upstream? && Took(path, Quote(coin), old(world.trace), old(world.now))
      ensures a == PriceAnswer(path.r) && AnswersPrice(a, path.r)
      ensures priceCache.lastSet == if path.r.Got? then old(priceCache.lastSet)[coin := (world.now, a.value)]
                                    else old(priceCache.lastSet)
      ensures Valid()
    {
      var r := GatedGet(Quote(coin));
      path := Upstream(r, old(world.now), world.now);
      a := PriceAnswer(r);
      if r.Got? {
        priceCache.Set(coin, a.value);
        PriceStored(world.trace, seriesCache.lastSet, old(priceCache.lastSet), coin, r.payload, old(world.now),
                    world.now);
      }
    }

    /** As for a series, except that a stored missing price is never a hit. */
    method GetLastPrice(instrument: Instrument) returns (a: Answer<Option<real>>, ghost path: Path)
      requires Valid()
      modifies this`cooldownUntil, ring, world, priceCache
      ensures world.now >= old(world.now)
      ensures var coin := ResolveId(instrument.symbol);
              var stored := old(priceCache.lastSet);
              && Took(path, Quote(coin), old(world.trace), old(world.now))
              && (path.Cached? ==> Young(stored, coin, priceCache.ttl, world.now) && stored[coin].1.Some?)
              && (Young(stored, coin, priceCache.ttl, world.now) && stored[coin].1.Some? ==> path.Cached?)
              && a == (match path
                       case Cached => Value(stored[coin].1)
                       case Cooling => Value(None)
                       case Upstream(r, _, _) => PriceAnswer(r))
              && (path.Upstream? ==> AnswersPrice(a, path.r))
              && priceCache.lastSet == if path.Upstream? && path.r.Got? then stored[coin := (world.now, a.value)]
                                       else stored
      ensures Valid()
    {
      var coin := ResolveId(instrument.symbol);
      var cached := CachedPrice(coin);
      if cached.Some? && cached.value.Some? {
        return Value(cached.value), Cached;
      }
      var cooling := InCooldown();
      if cooling {
        return Value(None), Cooling;
      }
      a, path := FetchPrice(coin);
    }

    /** The metadata and search adapters: the same ring, no breaker, no price cache. */
    method OtherAdapterGet(path: string) returns (r: Fetch)
      requires Valid()
      modifies ring, world
      ensures world.now >= old(world.now)
      ensures CallDone(old(world.trace), world.trace, ring.cooldown, Other(path), old(world.now), ring.SlotCount(), r)
      ensures Valid()
    {
      r := CoinGeckoGet(ring, Other(path));
      CallKeepsBreaker(old(world.trace), world.trace, ring.cooldown, Other(path), old(world.now), ring.SlotCount(), r,
                       cooldown);
      CallKeepsSourced(old(world.trace), world.trace, ring.cooldown, Other(path), old(world.now), ring.SlotCount(), r,
                       seriesCache.lastSet, priceCache.lastSet);
    }
  }

  // ---------------------------------------------------------------------------------------
  // Router
  // ---------------------------------------------------------------------------------------

  /** Real data or an error: an exception and an empty series are both failures. */
  function SeriesOrError(a: Answer<PriceSeries>): Result<PriceSeries> {
    if a.Value? && a.value.candles != [] then Ok(a.value) else Unavailable
  }

  function PriceOrError(a: Answer<Option<real>>): Result<real> {
    if a.Value? && a.value.Some? then Ok(a.value.value) else Unavailable
  }

  /** The answer is the last one upstream gave for this request: in this call, or stored as it came less
      than a TTL ago. */
  predicate FreshFrom(request: Request, before: seq<Event>, trace: seq<Event>, storedAt: Option<int>, ttl: int,
                      now: int) {
    || (|trace| > |before| && Replied(Last(trace), request))
    || (&& trace == before && storedAt.Some? && now < storedAt.value + ttl
        && StoredOnReply(trace, request, storedAt.value))
  }

  function StoredAt<K, V>(lastSet: map<K, (int, V)>, key: K): Option<int> {
    if key in lastSet then Some(lastSet[key].0) else None
  }

  class RoutingMarketDataProvider {
    const coingecko: CoinGeckoMarketDataProvider

    constructor (coingecko: CoinGeckoMarketDataProvider)
      ensures this.coingecko == coingecko
    {
      this.coingecko := coingecko;
    }

    /** An error or a non-empty series; for a crypto instrument the series is the last answer upstream gave
        for its coin and clamped window. `yfinance` is the other provider's answer to this call. */
    method GetPriceSeries(instrument: Instrument, days: int, yfinance: Answer<PriceSeries>)
      returns (r: Result<PriceSeries>, ghost path: Path)
      requires coingecko.Valid()
      modifies coingecko`cooldownUntil, coingecko.ring, coingecko.world, coingecko.seriesCache
      ensures r.Ok? ==> r.value.candles != []
      ensures !instrument.assetClass.Crypto? ==>
                && (yfinance.Value? && yfinance.value.candles != [] ==> r == Ok(yfinance.value))
                && (yfinance.Raised? || yfinance.value.candles == [] ==> r.Unavailable?)
                && coingecko.world.trace == old(coingecko.world.trace)
                && coingecko.seriesCache.lastSet == old(coingecko.seriesCache.lastSet)
      ensures instrument.assetClass.Crypto? && r.Ok? ==>
                var key := coingecko.SeriesKey(instrument.symbol, days);
                var given := LastReply(coingecko.world.trace, Chart(key.0, key.1));
                && given.Some? && given.value.Prices? && AreCandles(given.value.points, r.value.candles)
                && FreshFrom(Chart(key.0, key.1), old(coingecko.world.trace), coingecko.world.trace,
                             StoredAt(old(coingecko.seriesCache.lastSet), key), coingecko.seriesCache.ttl,
                             coingecko.world.now)
      ensures instrument.assetClass.Crypto? && r.Unavailable? ==>
                var key := coingecko.SeriesKey(instrument.symbol, days);
                var stored := old(coingecko.seriesCache.lastSet);
                && coingecko.Took(path, Chart(key.0, key.1), old(coingecko.world.trace), old(coingecko.world.now))
                && (path.Cached? ==> Young(stored, key, coingecko.seriesCache.ttl, coingecko.world.now)
                                     && stored[key].1.candles == [])
                && (path.Upstream? && path.r.Got? && path.r.payload.Prices? ==> path.r.payload.points == [])
      ensures coingecko.Valid()
    {
      var a := yfinance;
      path := Cached;
      if instrument.assetClass.Crypto? {
        a, path := coingecko.GetPriceSeries(instrument, days);
        var key := coingecko.SeriesKey(instrument.symbol, days);
        assert SeriesSourced(coingecko.world.trace, coingecko.seriesCache.lastSet, key);
      }
      r := SeriesOrError(a);
    }

    /** An error or a price, with the same origin. */
    method GetLastPrice(instrument: Instrument, yfinance: Answer<Option<real>>)
      returns (r: Result<real>, ghost path: Path)
      requires coingecko.Valid()
      modifies coingecko`cooldownUntil, coingecko.ring, coingecko.world, coingecko.priceCache
      ensures !instrument.assetClass.Crypto? ==>
                && (yfinance.Value? && yfinance.value.Some? ==> r == Ok(yfinance.value.value))
                && (yfinance.Raised? || yfinance.value.None? ==> r.Unavailable?)
                && coingecko.world.trace == old(coingecko.world.trace)
                && coingecko.priceCache.lastSet == old(coingecko.priceCache.lastSet)
      ensures instrument.assetClass.Crypto? && r.Ok? ==>
                var coin := coingecko.ResolveId(instrument.symbol);
                var given := LastReply(coingecko.world.trace, Quote(coin));
                && given.Some? && given.value == LastPrice(Some(r.value))
                && FreshFrom(Quote(coin), old(coingecko.world.trace), coingecko.world.trace,
                             StoredAt(old(coingecko.priceCache.lastSet), coin), coingecko.priceCache.ttl,
                             coingecko.world.now)
      ensures instrument.assetClass.Crypto? && r.Unavailable? ==>
                && coingecko.Took(path, Quote(coingecko.ResolveId(instrument.symbol)), old(coingecko.world.trace),
                                  old(coingecko.world.now))
                && !path.Cached?
                && (path.Upstream? && path.r.Got? && path.r.payload.LastPrice? ==> path.r.payload.price == None)
      ensures coingecko.Valid()
    {
      var a := yfinance;
      path := Cached;
      if instrument.assetClass.Crypto? {
        a, path := coingecko.GetLastPrice(instrument);
        var coin := coingecko.ResolveId(instrument.symbol);
        assert PriceSourced(coingecko.world.trace, coingecko.priceCache.lastSet, coin);
      }
      r := PriceOrError(a);
    }
  }
}
