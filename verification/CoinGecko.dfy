/** The CoinGecko stack over time: a TTL cache, a ring of API keys with per-key benches, the failover
    loop, a provider-wide circuit breaker, and real-data-or-error routing. Clock readings are any
    non-decreasing sequence and upstream replies any stream; the trace records what went out and
    what was benched or armed, in order. */
module CoinGecko {
  import opened Wrappers
  import opened Arithmetic

  /** Millisecond timestamp and price. */
  type Point = (int, real)

  datatype Request = Chart(coin: string, days: int) | Quote(coin: string) | Other(path: string)

  datatype Payload = Prices(points: seq<Point>) | LastPrice(price: Option<real>) | Malformed

  datatype Reply = Http(status: int, payload: Payload) | NetworkFailure

  datatype Error = StatusError(status: int) | NetworkError

  /** `Sent` carries the clock reading of the bench check that let the request out. */
  datatype Event =
    | Sent(request: Request, slot: nat, at: int, reply: Reply)
    | Benched(slot: nat, at: int)
    | Armed(at: int, error: Error)

  // ---------------------------------------------------------------------------------------
  // The ring's discipline, event by event
  // ---------------------------------------------------------------------------------------

  function Last(trace: seq<Event>): Event
    requires trace != []
  {
    trace[|trace| - 1]
  }

  function Front(trace: seq<Event>): seq<Event>
    requires trace != []
  {
    trace[..|trace| - 1]
  }

  function ErrorOf(reply: Reply): Error {
    if reply.Http? then StatusError(reply.status) else NetworkError
  }

  /** A rate limit. */
  predicate Refused(e: Event) {
    e.Sent? && ErrorOf(e.reply) == StatusError(429)
  }

  predicate Settled(trace: seq<Event>) {
    trace == [] || !Refused(Last(trace))
  }

  predicate UpTo(trace: seq<Event>, now: int) {
    trace == [] || Last(trace).at <= now
  }

  /** When the last bench of each slot ends. */
  function BenchEnds(trace: seq<Event>, cooldown: int): map<nat, int> {
    if trace == [] then map[]
    else if Last(trace).Benched? then BenchEnds(Front(trace), cooldown)[Last(trace).slot := Last(trace).at + cooldown]
    else BenchEnds(Front(trace), cooldown)
  }

  predicate SlotRested(trace: seq<Event>, now: int, cooldown: int, slot: nat) {
    var ends := BenchEnds(trace, cooldown);
    slot in ends ==> ends[slot] <= now
  }

  /** A request goes out on a slot whose last bench has ended; a bench answers the 429 just received,
      and nothing else comes between the two. */
  predicate RingStep(before: seq<Event>, e: Event, cooldown: int) {
    && UpTo(before, e.at)
    && match e
       case Sent(_, slot, at, _) => Settled(before) && SlotRested(before, at, cooldown, slot)
       case Benched(slot, at) => !Settled(before) && Last(before).slot == slot && SlotRested(before, at, cooldown, slot)
       case Armed(_, _) => Settled(before)
  }

  predicate RingTrace(trace: seq<Event>, cooldown: int) {
    trace == [] || (RingTrace(Front(trace), cooldown) && RingStep(Front(trace), Last(trace), cooldown))
  }

  lemma {:induction false} RingTracePrefix(trace: seq<Event>, cooldown: int, n: nat)
    requires RingTrace(trace, cooldown) && n <= |trace|
    ensures RingTrace(trace[..n], cooldown)
  {
    if n == |trace| {
      assert trace[..n] == trace;
    } else {
      RingTracePrefix(Front(trace), cooldown, n);
      assert Front(trace)[..n] == trace[..n];
    }
  }

  lemma {:induction false} TimesAscend(trace: seq<Event>, cooldown: int, i: nat, j: nat)
    requires RingTrace(trace, cooldown) && i <= j < |trace|
    ensures trace[i].at <= trace[j].at
    decreases j
  {
    if i < j {
      RingTracePrefix(trace, cooldown, j + 1);
      assert Front(trace[..j + 1]) == trace[..j] && Last(trace[..j]) == trace[j - 1];
      TimesAscend(trace, cooldown, i, j - 1);
    }
  }

  lemma {:induction false} EndsCover(trace: seq<Event>, cooldown: int, i: nat)
    requires RingTrace(trace, cooldown) && cooldown > 0 && i < |trace| && trace[i].Benched?
    ensures trace[i].slot in BenchEnds(trace, cooldown)
    ensures BenchEnds(trace, cooldown)[trace[i].slot] >= trace[i].at + cooldown
  {
    if i < |trace| - 1 {
      assert Front(trace)[i] == trace[i];
      EndsCover(Front(trace), cooldown, i);
    }
  }

  /** No slot is used, or benched again, before each of its benches has ended. */
  lemma {:induction false} BenchesAreRespected(trace: seq<Event>, cooldown: int, i: nat, j: nat)
    requires RingTrace(trace, cooldown) && cooldown > 0 && i < j < |trace|
    requires trace[i].Benched? && !trace[j].Armed? && trace[j].slot == trace[i].slot
    ensures trace[j].at >= trace[i].at + cooldown
  {
    RingTracePrefix(trace, cooldown, j + 1);
    assert Front(trace[..j + 1]) == trace[..j] && trace[..j][i] == trace[i];
    EndsCover(trace[..j], cooldown, i);
  }

  /** Benches and rate limits come in pairs. */
  lemma {:induction false} RateLimitsAreBenched(trace: seq<Event>, cooldown: int, i: nat)
    requires RingTrace(trace, cooldown) && i + 1 < |trace|
    ensures Refused(trace[i]) <==> trace[i + 1].Benched?
    ensures Refused(trace[i]) ==> trace[i + 1].slot == trace[i].slot
  {
    RingTracePrefix(trace, cooldown, i + 2);
    assert Front(trace[..i + 2]) == trace[..i + 1] && Last(trace[..i + 1]) == trace[i];
  }

  /** A bench end goes back to a 429 received on that very slot. */
  lemma {:induction false} BenchedMeansRefused(trace: seq<Event>, cooldown: int, slot: nat)
    requires RingTrace(trace, cooldown) && slot in BenchEnds(trace, cooldown)
    ensures exists i :: 0 <= i < |trace| - 1 && Refused(trace[i]) && trace[i].slot == slot &&
              trace[i + 1].Benched? && trace[i + 1].at + cooldown == BenchEnds(trace, cooldown)[slot]
  {
    if Last(trace).Benched? && Last(trace).slot == slot {
      assert Refused(trace[|trace| - 2]);
    } else {
      BenchedMeansRefused(Front(trace), cooldown, slot);
      var i :| 0 <= i < |trace| - 2 && Refused(trace[i]) && trace[i].slot == slot &&
               trace[i + 1].Benched? && trace[i + 1].at + cooldown == BenchEnds(trace, cooldown)[slot];
      assert Refused(trace[i]);
    }
  }

  // ---------------------------------------------------------------------------------------
  // The breaker's discipline, event by event
  // ---------------------------------------------------------------------------------------

  /** The requests gated by the price provider's breaker. */
  predicate Gated(e: Event) {
    e.Sent? && !e.request.Other?
  }

  /** 4xx other than 429. */
  predicate IsClientError(e: Error) {
    e.StatusError? && 400 <= e.status < 500 && e.status != 429
  }

  /** When the last arming ends. */
  function ArmedUntil(trace: seq<Event>, cooldown: int): Option<int> {
    if trace == [] then None
    else if Last(trace).Armed? then Some(Last(trace).at + cooldown)
    else ArmedUntil(Front(trace), cooldown)
  }

  predicate BreakerRested(trace: seq<Event>, now: int, cooldown: int) {
    var end := ArmedUntil(trace, cooldown);
    end.Some? ==> end.value <= now
  }

  /** A price request leaves only once the last arming has ended. Only a failed one arms the breaker,
      and no client error does. */
  predicate BreakerStep(before: seq<Event>, e: Event, cooldown: int) {
    && (Gated(e) ==> BreakerRested(before, e.at, cooldown))
    && (e.Armed? ==>
          && BreakerRested(before, e.at, cooldown)
          && before != [] && Gated(Last(before)) && ErrorOf(Last(before).reply) == e.error
          && !IsClientError(e.error))
  }

  predicate BreakerTrace(trace: seq<Event>, cooldown: int) {
    trace == [] || (BreakerTrace(Front(trace), cooldown) && BreakerStep(Front(trace), Last(trace), cooldown))
  }

  lemma {:induction false} BreakerTracePrefix(trace: seq<Event>, cooldown: int, n: nat)
    requires BreakerTrace(trace, cooldown) && n <= |trace|
    ensures BreakerTrace(trace[..n], cooldown)
  {
    if n == |trace| {
      assert trace[..n] == trace;
    } else {
      BreakerTracePrefix(Front(trace), cooldown, n);
      assert Front(trace)[..n] == trace[..n];
    }
  }

  lemma {:induction false} ArmedUntilCovers(trace: seq<Event>, cooldown: int, i: nat)
    requires BreakerTrace(trace, cooldown) && cooldown > 0 && i < |trace| && trace[i].Armed?
    ensures ArmedUntil(trace, cooldown).Some? && ArmedUntil(trace, cooldown).value >= trace[i].at + cooldown
  {
    if i < |trace| - 1 {
      assert Front(trace)[i] == trace[i];
      ArmedUntilCovers(Front(trace), cooldown, i);
    }
  }

  /** No price request leaves, and no second arming happens, while an arming lasts. */
  lemma {:induction false} BreakerIsRespected(trace: seq<Event>, cooldown: int, i: nat, j: nat)
    requires BreakerTrace(trace, cooldown) && cooldown > 0 && i < j < |trace|
    requires trace[i].Armed? && (trace[j].Armed? || Gated(trace[j]))
    ensures trace[j].at >= trace[i].at + cooldown
  {
    BreakerTracePrefix(trace, cooldown, j + 1);
    assert Front(trace[..j + 1]) == trace[..j] && trace[..j][i] == trace[i];
    ArmedUntilCovers(trace[..j], cooldown, i);
  }

  /** Only an outage arms the breaker: the price request just answered failed, and not with any 4xx. A 429
      is ruled out by the ring, which benches it first. */
  lemma {:induction false} OnlyOutagesArm(trace: seq<Event>, ringCooldown: int, cooldown: int, i: nat)
    requires RingTrace(trace, ringCooldown) && BreakerTrace(trace, cooldown) && i < |trace| && trace[i].Armed?
    ensures i > 0 && Gated(trace[i - 1]) && ErrorOf(trace[i - 1].reply) == trace[i].error
    ensures trace[i].error.StatusError? ==> !(400 <= trace[i].error.status < 500)
  {
    BreakerTracePrefix(trace, cooldown, i + 1);
    RingTracePrefix(trace, ringCooldown, i + 1);
    assert Front(trace[..i + 1]) == trace[..i] && i > 0 ==> Last(trace[..i]) == trace[i - 1];
  }

  // ---------------------------------------------------------------------------------------
  // What spacing means for a window of time
  // ---------------------------------------------------------------------------------------

  lemma {:induction false} GreatestIndex(s: set<nat>) returns (m: nat)
    requires s != {}
    ensures m in s && forall i :: i in s ==> i <= m
  {
    var x :| x in s;
    if s == {x} {
      m := x;
    } else {
      var rest := GreatestIndex(s - {x});
      m := if rest < x then x else rest;
      assert forall i :: i in s ==> i == x || i in s - {x};
    }
  }

  predicate Spaced(trace: seq<Event>, s: set<nat>, cooldown: int)
    requires forall i :: i in s ==> i < |trace|
  {
    forall i, j :: i in s && j in s && i < j ==> trace[j].at >= trace[i].at + cooldown
  }

  predicate Within(trace: seq<Event>, s: set<nat>, from: int, length: int) {
    forall i :: i in s ==> i < |trace| && from <= trace[i].at <= from + length
  }

  /** All but the last moment fit in a window shorter by a cooldown. */
  lemma {:induction false} EarlierMoments(trace: seq<Event>, s: set<nat>, m: nat, from: int, length: int, cooldown: int)
    requires Within(trace, s, from, length) && Spaced(trace, s, cooldown)
    requires m in s && forall i :: i in s ==> i <= m
    ensures Within(trace, s - {m}, from, length - cooldown) && Spaced(trace, s - {m}, cooldown)
  {
    forall i | i in s - {m}
      ensures trace[i].at <= from + length - cooldown
    {
      assert i in s && i < m;
    }
  }

  lemma {:induction false} WindowNotEmpty(trace: seq<Event>, s: set<nat>, from: int, length: int)
    requires Within(trace, s, from, length)
    ensures s != {} ==> length >= 0
  {
    if s != {} {
      var i :| i in s;
      assert from <= trace[i].at <= from + length;
    }
  }

  /** Moments a whole cooldown apart: at most floor(length / cooldown) + 1 of them in a window. */
  lemma {:induction false} SpacedMomentsAreFew(trace: seq<Event>, s: set<nat>, from: int, length: int, cooldown: int)
    requires cooldown > 0 && length >= 0 && Within(trace, s, from, length) && Spaced(trace, s, cooldown)
    ensures |s| <= length / cooldown + 1
    decreases |s|
  {
    DivBounds(length, cooldown, 0);
    if s != {} {
      var m := GreatestIndex(s);
      EarlierMoments(trace, s, m, from, length, cooldown);
      assert |s| == |s - {m}| + 1;
      if length >= cooldown {
        SpacedMomentsAreFew(trace, s - {m}, from, length - cooldown, cooldown);
        OneMorePeriod(length, cooldown);
      } else {
        WindowNotEmpty(trace, s - {m}, from, length - cooldown);
      }
    }
  }

  lemma {:induction false} OneMorePeriod(length: int, cooldown: int)
    requires cooldown > 0
    ensures (length - cooldown) / cooldown + 1 == length / cooldown
  {
    var q, p := length / cooldown, (length - cooldown) / cooldown;
    DivBounds(length, cooldown, q);
    DivBounds(length, cooldown, p + 1);
    DivBounds(length - cooldown, cooldown, p);
    DivBounds(length - cooldown, cooldown, q - 1);
    assert (q - 1) * cooldown == q * cooldown - cooldown && (p + 1) * cooldown == p * cooldown + cooldown;
  }

  function RateLimits(trace: seq<Event>, slot: nat, from: int, length: int): set<nat> {
    set i: nat | i < |trace| && Refused(trace[i]) && trace[i].slot == slot && from <= trace[i].at <= from + length
  }

  /** One slot is rate-limited at most floor(length / cooldown) + 1 times in any window. */
  lemma {:induction false} FewRateLimits(trace: seq<Event>, cooldown: int, slot: nat, from: int, length: int)
    requires RingTrace(trace, cooldown) && cooldown > 0 && length >= 0
    ensures |RateLimits(trace, slot, from, length)| <= length / cooldown + 1
  {
    var s := RateLimits(trace, slot, from, length);
    forall i, j | i in s && j in s && i < j
      ensures trace[j].at >= trace[i].at + cooldown
    {
      RateLimitsAreBenched(trace, cooldown, i);
      TimesAscend(trace, cooldown, i, i + 1);
      BenchesAreRespected(trace, cooldown, i + 1, j);
    }
    SpacedMomentsAreFew(trace, s, from, length, cooldown);
  }

  function Armings(trace: seq<Event>, from: int, length: int): set<nat> {
    set i: nat | i < |trace| && trace[i].Armed? && from <= trace[i].at <= from + length
  }

  /** The breaker is armed at most floor(length / cooldown) + 1 times in any window. */
  lemma {:induction false} FewArmings(trace: seq<Event>, cooldown: int, from: int, length: int)
    requires BreakerTrace(trace, cooldown) && cooldown > 0 && length >= 0
    ensures |Armings(trace, from, length)| <= length / cooldown + 1
  {
    var s := Armings(trace, from, length);
    forall i, j | i in s && j in s && i < j
      ensures trace[j].at >= trace[i].at + cooldown
    {
      BreakerIsRespected(trace, cooldown, i, j);
    }
    SpacedMomentsAreFew(trace, s, from, length, cooldown);
  }

  /** The clock and the network. */
  class World {
    var now: int
    ghost var trace: seq<Event>

    constructor ()
      ensures trace == []
    {
      now := 0;
      trace := [];
    }

    /** Any later moment, possibly the same. */
    method ReadClock() returns (t: int)
      modifies this`now
      ensures now >= old(now) && t == now
    {
      var elapsed: int :| elapsed >= 0;
      now := now + elapsed;
      t := now;
    }

    /** Any reply at all; it is sent at the moment of the last clock reading. */
    method Get(request: Request, slot: nat) returns (reply: Reply)
      modifies this
      ensures now >= old(now) && trace == old(trace) + [Sent(request, slot, old(now), reply)]
    {
      reply := *;
      trace := trace + [Sent(request, slot, now, reply)];
      var elapsed: int :| elapsed >= 0;
      now := now + elapsed;
    }
  }

  // ---------------------------------------------------------------------------------------
  // TTL cache
  // ---------------------------------------------------------------------------------------

  class TtlCache<K(==), V> {
    const world: World
    const ttl: int
    var store: map<K, (int, V)>
    ghost var lastSet: map<K, (int, V)>  // the last `set` of each key, with its time; never removed

    ghost predicate Valid()
      reads this, world
    {
      && store.Keys <= lastSet.Keys
      && forall k :: k in lastSet ==>
           && lastSet[k].0 <= world.now
           && (if k in store then store[k] == (lastSet[k].0 + ttl, lastSet[k].1)
               else lastSet[k].0 + ttl <= world.now)
    }

    constructor (world: World, ttl: int)
      ensures Valid() && this.world == world && this.ttl == ttl && lastSet == map[]
    {
      this.world, this.ttl := world, ttl;
      store, lastSet := map[], map[];
    }

    /** Lazy deletion is invisible: the answer is the last value set, if younger than the TTL. */
    method Get(key: K) returns (value: Option<V>)
      requires Valid()
      modifies this`store, world`now
      ensures Valid() && world.now >= old(world.now)
      ensures value == if key in lastSet && world.now < lastSet[key].0 + ttl then Some(lastSet[key].1) else None
    {
      if key !in store {
        return None;
      }
      var t := world.ReadClock();
      var (expiresAt, v) := store[key];
      if t >= expiresAt {
        store := store - {key};
        return None;
      }
      return Some(v);
    }

    method Set(key: K, value: V)
      requires Valid()
      modifies this, world`now
      ensures Valid() && world.now >= old(world.now)
      ensures lastSet == old(lastSet)[key := (world.now, value)]
    {
      var t := world.ReadClock();
      store := store[key := (t + ttl, value)];
      lastSet := lastSet[key := (t, value)];
    }
  }

  // ---------------------------------------------------------------------------------------
  // Key ring
  // ---------------------------------------------------------------------------------------

  /** The entries are the last benches, minus some that have ended. */
  predicate Lazily(benchedUntil: map<nat, int>, ends: map<nat, int>, now: int) {
    && benchedUntil.Keys <= ends.Keys
    && forall slot :: slot in ends ==>
         if slot in benchedUntil then benchedUntil[slot] == ends[slot] else ends[slot] <= now
  }

  class KeyRing {
    const world: World
    const apiKeys: seq<string>
    const cooldown: int
    var benchedUntil: map<nat, int>

    /** One slot per key, or a single keyless slot when none are configured. */
    function SlotCount(): (n: nat)
      ensures n > 0
    {
      if |apiKeys| == 0 then 1 else |apiKeys|
    }

    ghost predicate Valid()
      reads this, world
    {
      && cooldown > 0
      && UpTo(world.trace, world.now)
      && RingTrace(world.trace, cooldown)
      && Lazily(benchedUntil, BenchEnds(world.trace, cooldown), world.now)
    }

    constructor (world: World, apiKeys: seq<string>, cooldown: int)
      requires world.trace == [] && cooldown > 0
      ensures Valid() && this.world == world && this.cooldown == cooldown && this.apiKeys == apiKeys
    {
      this.world, this.apiKeys, this.cooldown := world, apiKeys, cooldown;
      benchedUntil := map[];
    }

    /** False exactly when the slot's last bench has ended by the clock reading taken. */
    method IsBenched(slot: nat) returns (benched: bool)
      requires Valid()
      modifies this, world`now
      ensures Valid() && world.now >= old(world.now)
      ensures benched <==> !SlotRested(world.trace, world.now, cooldown, slot)
      ensures benchedUntil == if benched then old(benchedUntil) else old(benchedUntil) - {slot}
    {
      if slot !in benchedUntil {
        assert benchedUntil == benchedUntil - {slot};
        return false;
      }
      var t := world.ReadClock();
      if t >= benchedUntil[slot] {
        benchedUntil := benchedUntil - {slot};
        return false;
      }
      return true;
    }

    /** Called on the 429 just received on a rested slot. */
    method Bench(slot: nat)
      requires Valid() && SlotRested(world.trace, world.now, cooldown, slot)
      requires !Settled(world.trace) && Last(world.trace).slot == slot
      modifies this, world
      ensures world.now >= old(world.now)
      ensures world.trace == old(world.trace) + [Benched(slot, world.now)]
      ensures benchedUntil == old(benchedUntil)[slot := world.now + cooldown]
      ensures Valid()
    {
      var t := world.ReadClock();
      benchedUntil := benchedUntil[slot := t + cooldown];
      world.trace := world.trace + [Benched(slot, t)];
      assert Front(world.trace) == old(world.trace);
    }
  }

  // ---------------------------------------------------------------------------------------
  // Failover
  // ---------------------------------------------------------------------------------------

  /** A payload, "every key is limited", an HTTP error of any other kind, or an unreadable body. */
  datatype Fetch = Got(payload: Payload) | AllLimited | Failed(error: Error) | Crashed

  predicate Success(reply: Reply) {
    reply.Http? && 200 <= reply.status < 300
  }

  /** What the caller is told about a reply that is not a 429. */
  function Verdict(reply: Reply): Fetch {
    if !Success(reply) then Failed(ErrorOf(reply))
    else if reply.payload.Malformed? then Crashed
    else Got(reply.payload)
  }

  /** What a call adds while every slot below `n` is skipped or refuses it: in slot order, the request
      and at once the bench. */
  predicate RefusedBelow(added: seq<Event>, request: Request, since: int, n: nat) {
    if n == 0 then added == []
    else
      || RefusedBelow(added, request, since, n - 1)
      || (|added| >= 2 && RefusedPair(added[|added| - 2], added[|added| - 1], request, since, n - 1)
          && RefusedBelow(added[..|added| - 2], request, since, n - 1))
  }

  predicate RefusedPair(sent: Event, benched: Event, request: Request, since: int, slot: nat) {
    && Refused(sent) && sent.request == request && sent.slot == slot && since <= sent.at <= benched.at
    && benched == Benched(slot, benched.at)
  }

  /** What a whole call adds, and what it tells the caller: nothing follows a reply that is not a 429. */
  predicate CallTrace(added: seq<Event>, request: Request, since: int, slots: nat, r: Fetch) {
    if r.AllLimited? then RefusedBelow(added, request, since, slots)
    else
      && added != [] && Last(added).Sent? && !Refused(Last(added)) && Last(added).request == request
      && Last(added).at >= since && Last(added).slot < slots && r == Verdict(Last(added).reply)
      && RefusedBelow(Front(added), request, since, Last(added).slot)
  }

  predicate BenchedPast(trace: seq<Event>, cooldown: int, since: int, slot: nat) {
    var ends := BenchEnds(trace, cooldown);
    slot in ends && ends[slot] > since
  }

  /** Slots `0..n` all carry a bench that had not ended at `since`. */
  predicate BenchedBelow(trace: seq<Event>, cooldown: int, n: nat, since: int) {
    forall slot :: 0 <= slot < n ==> BenchedPast(trace, cooldown, since, slot)
  }

  datatype Attempt = Skipped | RateLimited(sent: Event, benchedAt: int) | Answered(sent: Event)

  function Events(a: Attempt): seq<Event> {
    match a
    case Skipped => []
    case RateLimited(sent, at) => if sent.Sent? then [sent, Benched(sent.slot, at)] else []
    case Answered(sent) => [sent]
  }

  predicate AttemptOn(a: Attempt, request: Request, slot: nat, since: int) {
    match a
    case Skipped => true
    case RateLimited(sent, at) =>
      Refused(sent) && sent.request == request && sent.slot == slot && since <= sent.at <= at
    case Answered(sent) =>
      sent.Sent? && !Refused(sent) && sent.request == request && sent.slot == slot && since <= sent.at
  }

  /** One slot: skipped while benched, benched on a 429, otherwise answered. */
  method TrySlot(ring: KeyRing, request: Request, slot: nat) returns (a: Attempt)
    requires ring.Valid() && Settled(ring.world.trace)
    modifies ring, ring.world
    ensures ring.world.now >= old(ring.world.now)
    ensures AttemptOn(a, request, slot, old(ring.world.now))
    ensures ring.world.trace == old(ring.world.trace) + Events(a)
    ensures !a.Answered? ==> BenchedPast(ring.world.trace, ring.cooldown, old(ring.world.now), slot)
    ensures ring.Valid() && Settled(ring.world.trace)
  {
    var benched := ring.IsBenched(slot);
    if benched {
      return Skipped;
    }
    var at := ring.world.now;
    var reply := ring.world.Get(request, slot);
    assert Front(ring.world.trace) == old(ring.world.trace);
    var sent := Sent(request, slot, at, reply);
    if reply.Http? && reply.status == 429 {
      ring.Bench(slot);
      assert Front(ring.world.trace) == old(ring.world.trace) + [sent];
      return RateLimited(sent, ring.world.now);
    }
    return Answered(sent);
  }

  lemma {:induction false} EndsAfter(trace: seq<Event>, cooldown: int, a: Attempt, request: Request, slot: nat,
                                     since: int)
    requires AttemptOn(a, request, slot, since) && BenchedBelow(trace, cooldown, slot, since)
    ensures BenchedBelow(trace + Events(a), cooldown, slot, since)
  {
    var more := trace + Events(a);
    match a
    case Skipped =>
      assert more == trace;
    case Answered(sent) =>
      assert Front(more) == trace;
      assert BenchEnds(more, cooldown) == BenchEnds(trace, cooldown);
      assert forall s :: BenchedPast(trace, cooldown, since, s) ==> BenchedPast(more, cooldown, since, s);
    case RateLimited(sent, at) =>
      assert Front(more) == trace + [sent] && Front(trace + [sent]) == trace;
      assert BenchEnds(more, cooldown) == BenchEnds(trace, cooldown)[slot := at + cooldown];
      assert forall s :: s != slot && BenchedPast(trace, cooldown, since, s) ==> BenchedPast(more, cooldown, since, s);
  }

  lemma {:induction false} RefusedOnce(added: seq<Event>, a: Attempt, request: Request, since: int, slot: nat,
                                       slots: nat)
    requires RefusedBelow(added, request, since, slot) && AttemptOn(a, request, slot, since) && slot < slots
    ensures !a.Answered? ==> RefusedBelow(added + Events(a), request, since, slot + 1)
    ensures a.Answered? ==> CallTrace(added + Events(a), request, since, slots, Verdict(a.sent.reply))
  {
    var more := added + Events(a);
    match a
    case Skipped =>
      assert more == added;
    case Answered(sent) =>
      assert Front(more) == added;
    case RateLimited(sent, at) =>
      assert more[..|more| - 2] == added;
  }

  /** A call so far: slots below `n` refused it or were benched. */
  predicate Tried(before: seq<Event>, trace: seq<Event>, cooldown: int, request: Request, since: int, n: nat) {
    && before <= trace
    && RefusedBelow(trace[|before|..], request, since, n)
    && BenchedBelow(trace, cooldown, n, since)
  }

  /** A whole call, failing over only past slots that are benched by then. */
  predicate CallDone(before: seq<Event>, trace: seq<Event>, cooldown: int, request: Request, since: int, slots: nat,
                     r: Fetch) {
    && before <= trace
    && CallTrace(trace[|before|..], request, since, slots, r)
    && BenchedBelow(trace, cooldown, if r.AllLimited? then slots else Last(trace).slot, since)
  }

  lemma {:induction false} TriedOneMore(before: seq<Event>, trace: seq<Event>, cooldown: int, a: Attempt,
                                        request: Request, since: int, now: int, slot: nat, slots: nat)
    requires Tried(before, trace, cooldown, request, since, slot) && slot < slots && since <= now
    requires AttemptOn(a, request, slot, now)
    requires !a.Answered? ==> BenchedPast(trace + Events(a), cooldown, now, slot)
    ensures !a.Answered? ==> Tried(before, trace + Events(a), cooldown, request, since, slot + 1)
    ensures a.Answered? ==> CallDone(before, trace + Events(a), cooldown, request, since, slots, Verdict(a.sent.reply))
  {
    EndsAfter(trace, cooldown, a, request, slot, since);
    RefusedOnce(trace[|before|..], a, request, since, slot, slots);
    assert (trace + Events(a))[|before|..] == trace[|before|..] + Events(a);
  }

  /** The slot was benched and the bench had not ended at `since`. */
  ghost predicate BenchStands(trace: seq<Event>, cooldown: int, since: int, slot: nat) {
    exists i :: 0 <= i < |trace| && trace[i].Benched? && trace[i].slot == slot && trace[i].at + cooldown > since
  }

  /** What the caller is told about a reply: nothing else is an answer. */
  predicate TellsOf(r: Fetch, reply: Reply) {
    match r
    case AllLimited => false
    case Got(payload) => reply.Http? && 200 <= reply.status < 300 && !payload.Malformed? && reply.payload == payload
    case Crashed => reply.Http? && 200 <= reply.status < 300 && reply.payload.Malformed?
    case Failed(NetworkError) => reply.NetworkFailure?
    case Failed(StatusError(status)) =>
      reply.Http? && reply.status == status && !(200 <= status < 300) && status != 429
  }

  /** With `keys` keys configured, or the one keyless slot: "limited" only when each of them carries a bench
      that had not ended at `since`; otherwise the last reply, received on one of them, is what is told. */
  ghost predicate KeysTried(trace: seq<Event>, cooldown: int, since: int, keys: nat, r: Fetch) {
    if r.AllLimited? then forall k :: 0 <= k < keys || k == 0 ==> BenchStands(trace, cooldown, since, k)
    else
      && trace != [] && Last(trace).Sent? && TellsOf(r, Last(trace).reply)
      && (Last(trace).slot < keys || (keys == 0 && Last(trace).slot == 0))
  }

  lemma {:induction false} CallTriesKeys(before: seq<Event>, trace: seq<Event>, cooldown: int, request: Request,
                                         since: int, slots: nat, keys: nat, r: Fetch)
    requires CallDone(before, trace, cooldown, request, since, slots, r) && RingTrace(trace, cooldown)
    requires slots == if keys == 0 then 1 else keys
    ensures KeysTried(trace, cooldown, since, keys, r)
  {
    if r.AllLimited? {
      forall k: nat | k < slots
        ensures BenchStands(trace, cooldown, since, k)
      {
        assert BenchedPast(trace, cooldown, since, k);
        BenchedMeansRefused(trace, cooldown, k);
        var i :| 0 <= i < |trace| - 1 && Refused(trace[i]) && trace[i].slot == k &&
                 trace[i + 1].Benched? && trace[i + 1].at + cooldown == BenchEnds(trace, cooldown)[k];
        RateLimitsAreBenched(trace, cooldown, i);
      }
    }
  }

  /** Tries the slots in order until one is not rate-limited: every key, or the keyless slot when there is
      none. "Limited" only when each of them carries a bench that had not ended when the call began. */
  method CoinGeckoGet(ring: KeyRing, request: Request) returns (r: Fetch)
    requires ring.Valid() && Settled(ring.world.trace)
    modifies ring, ring.world
    ensures ring.world.now >= old(ring.world.now)
    ensures CallDone(old(ring.world.trace), ring.world.trace, ring.cooldown, request, old(ring.world.now),
                     ring.SlotCount(), r)
    ensures KeysTried(ring.world.trace, ring.cooldown, old(ring.world.now), |ring.apiKeys|, r)
    ensures ring.Valid() && Settled(ring.world.trace)
  {
    ghost var before, since := ring.world.trace, ring.world.now;
    for slot := 0 to ring.SlotCount()
      invariant ring.world.now >= since
      invariant Tried(before, ring.world.trace, ring.cooldown, request, since, slot)
      invariant ring.Valid() && Settled(ring.world.trace)
    {
      ghost var sofar, now := ring.world.trace, ring.world.now;
      var a := TrySlot(ring, request, slot);
      TriedOneMore(before, sofar, ring.cooldown, a, request, since, now, slot, ring.SlotCount());
      if a.Answered? {
        r := Verdict(a.sent.reply);
        CallTriesKeys(before, ring.world.trace, ring.cooldown, request, since, ring.SlotCount(), |ring.apiKeys|, r);
        return;
      }
    }
    r := AllLimited;
    CallTriesKeys(before, ring.world.trace, ring.cooldown, request, since, ring.SlotCount(), |ring.apiKeys|, r);
  }
}
