/** Review decisions: an application-side check on a possibly stale read, then an insert guarded by
    a trigger that locks the entity, restamps `created_at`, re-derives the latest decision from the
    committed rows and rejects the insert when that decision is terminal. Any number of requests
    on any entities run concurrently, and an insert whose answer is lost may be sent again while the
    first attempt is still running or after it was applied. */
module Review {
  import opened Wrappers

  type Entity = string

  datatype Decision = Reviewed | Escalated | Discarded

  /** `id` is the primary key, minted by the application once per submission. */
  datatype Row = Row(id: nat, entity: Entity, decision: Decision, createdAt: int)

  predicate Terminal(d: Decision) {
    d.Reviewed? || d.Discarded?
  }

  /** `assert_transition_allowed`: the error it raises names the current decision. */
  function AssertTransitionAllowed(current: Option<Decision>,
                                   requested: Decision): (error: Option<(Decision, Decision)>)
    ensures error.None? <==> (current.None? || current.value.Escalated?)
    ensures error.Some? ==> current == Some(error.value.0) && error.value.1 == requested
  {
    match current
    case None => None
    case Some(d) => if Terminal(d) then Some((d, requested)) else None
  }

  // ---------------------------------------------------------------------------------------
  // The table, in commit order
  // ---------------------------------------------------------------------------------------

  /** `order by created_at desc limit 1` over the entity's rows, whatever their physical order. */
  ghost predicate LatestRow(rows: seq<Row>, r: Row) {
    r in rows && forall q :: q in rows && q.entity == r.entity ==> q.createdAt <= r.createdAt
  }

  /** An answer the database may give to "the entity's latest decision". */
  ghost predicate LatestDecision(rows: seq<Row>, e: Entity, d: Option<Decision>) {
    match d
    case None => forall q :: q in rows ==> q.entity != e
    case Some(x) => exists r :: LatestRow(rows, r) && r.entity == e && r.decision == x
  }

  // ---------------------------------------------------------------------------------------
  // The protocol
  // ---------------------------------------------------------------------------------------

  datatype Phase =
    | Started
    | Checked              // the application let it through
    | Refused              // the application raised
    | Locked(stamp: int)   // advisory lock taken, `created_at` overwritten
    | Passed(stamp: int)   // the trigger found no terminal decision
    | Committed
    | Rejected             // the trigger raised "illegal transition"
    | Conflicted           // the trigger let it through, the primary key did not
    | Aborted

  /** One attempt to record a submission; attempts of one submission share their `id`. `clientStamp` is
      what the client wrote in `created_at`; the trigger overwrites it. */
  datatype Request = Request(id: nat, entity: Entity, decision: Decision, clientStamp: int, phase: Phase)

  /** `clock` is the last reading of the database clock; `rows` are the committed rows in commit
      order; `decided` lists the requests answered with a verdict, in the order of the verdicts (meeting
      the primary key is none). */
  datatype State = State(rows: seq<Row>, requests: seq<Request>, clock: int, decided: seq<nat>)

  const INITIAL := State([], [], 0, [])

  /** `seen` is the latest decision the application read, at any moment before its check. */
  datatype Event =
    | Submit(entity: Entity, decision: Decision, clientStamp: int)
    | Check(i: nat, asOf: nat, seen: Option<Decision>)
    | Lock(i: nat, now: int)
    | Derive(i: nat, latest: Option<Decision>)
    | Commit(i: nat)
    | Conflict(i: nat)
    | Abort(i: nat)
    | Resend(i: nat)       // no answer came, the insert is sent again

  predicate HoldsLock(r: Request) {
    r.phase.Locked? || r.phase.Passed?
  }

  /** The lock is the hash of the entity; different entities may collide. */
  predicate LockFree(hash: Entity -> int, s: State, i: nat)
    requires i < |s.requests|
  {
    forall j :: 0 <= j < |s.requests| && j != i && HoldsLock(s.requests[j]) ==>
      hash(s.requests[j].entity) != hash(s.requests[i].entity)
  }

  predicate Recorded(rows: seq<Row>, id: nat) {
    exists k :: 0 <= k < |rows| && rows[k].id == id
  }

  ghost predicate Enabled(hash: Entity -> int, s: State, e: Event) {
    match e
    case Submit(_, _, _) => true
    case Check(i, asOf, seen) =>
      && i < |s.requests| && s.requests[i].phase.Started?
      && asOf <= |s.rows| && LatestDecision(s.rows[..asOf], s.requests[i].entity, seen)
    case Lock(i, now) =>
      i < |s.requests| && s.requests[i].phase.Checked? && LockFree(hash, s, i) && now > s.clock
    case Derive(i, latest) =>
      && i < |s.requests| && s.requests[i].phase.Locked?
      && LatestDecision(s.rows, s.requests[i].entity, latest)
    case Commit(i) => i < |s.requests| && s.requests[i].phase.Passed? && !Recorded(s.rows, s.requests[i].id)
    case Conflict(i) => i < |s.requests| && s.requests[i].phase.Passed? && Recorded(s.rows, s.requests[i].id)
    case Resend(i) => i < |s.requests| && !s.requests[i].phase.Started? && !s.requests[i].phase.Refused?
    case Abort(i) =>
      i < |s.requests| && (HoldsLock(s.requests[i]) || s.requests[i].phase.Started? || s.requests[i].phase.Checked?)
  }

  function SetPhase(s: State, i: nat, phase: Phase): State
    requires i < |s.requests|
  {
    s.(requests := s.requests[i := s.requests[i].(phase := phase)])
  }

  ghost function Step(hash: Entity -> int, s: State, e: Event): State
    requires Enabled(hash, s, e)
  {
    match e
    case Submit(entity, decision, stamp) =>
      s.(requests := s.requests + [Request(|s.requests|, entity, decision, stamp, Started)])
    case Resend(i) => s.(requests := s.requests + [s.requests[i].(phase := Checked)])
    case Conflict(i) => SetPhase(s, i, Conflicted)
    case Check(i, _, seen) =>
      if AssertTransitionAllowed(seen, s.requests[i].decision).None? then SetPhase(s, i, Checked)
      else SetPhase(s, i, Refused).(decided := s.decided + [i])
    case Lock(i, now) => SetPhase(s, i, Locked(now)).(clock := now)
    case Derive(i, latest) =>
      if latest.Some? && Terminal(latest.value) then SetPhase(s, i, Rejected).(decided := s.decided + [i])
      else SetPhase(s, i, Passed(s.requests[i].phase.stamp))
    case Commit(i) =>
      var r := s.requests[i];
      SetPhase(s, i, Committed).(
        rows := s.rows + [Row(r.id, r.entity, r.decision, r.phase.stamp)], decided := s.decided + [i])
    case Abort(i) => SetPhase(s, i, Aborted)
  }

  ghost predicate Feasible(hash: Entity -> int, s: State, es: seq<Event>)
    decreases |es|
  {
    es == [] || (Enabled(hash, s, es[0]) && Feasible(hash, Step(hash, s, es[0]), es[1..]))
  }

  ghost function After(hash: Entity -> int, s: State, es: seq<Event>): State
    requires Feasible(hash, s, es)
    decreases |es|
  {
    if es == [] then s else After(hash, Step(hash, s, es[0]), es[1..])
  }

  // ---------------------------------------------------------------------------------------
  // What every step keeps
  // ---------------------------------------------------------------------------------------

  /** Commit order is `created_at` order, entity by entity. */
  predicate StampsFollowCommits(rows: seq<Row>) {
    forall i, j :: 0 <= i < j < |rows| && rows[i].entity == rows[j].entity ==> rows[i].createdAt < rows[j].createdAt
  }

  /** Nothing ever follows a terminal decision on the same entity. */
  predicate TerminalIsLast(rows: seq<Row>) {
    forall i, j :: 0 <= i < j < |rows| && rows[i].entity == rows[j].entity ==> rows[i].decision.Escalated?
  }

  /** Some row of the entity is REVIEWED or DISCARDED. */
  predicate Closed(rows: seq<Row>, e: Entity) {
    exists i :: 0 <= i < |rows| && rows[i].entity == e && (rows[i].decision.Reviewed? || rows[i].decision.Discarded?)
  }

  /** A lock holder's stamp is past every committed row of its entity, and a request the trigger
      passed still finds its entity open. */
  predicate HolderOk(s: State, i: nat)
    requires i < |s.requests|
  {
    var r := s.requests[i];
    HoldsLock(r) ==>
      && r.phase.stamp <= s.clock
      && (forall k :: 0 <= k < |s.rows| && s.rows[k].entity == r.entity ==> s.rows[k].createdAt < r.phase.stamp)
      && (r.phase.Passed? ==> !Closed(s.rows, r.entity))
  }

  predicate LocksExclusive(hash: Entity -> int, s: State) {
    forall i, j :: 0 <= i < j < |s.requests| && HoldsLock(s.requests[i]) && HoldsLock(s.requests[j]) ==>
      hash(s.requests[i].entity) != hash(s.requests[j].entity)
  }

  /** Attempts of one submission ask the same. */
  predicate SameSubmission(s: State, i: nat)
    requires i < |s.requests|
  {
    var r := s.requests[i];
    r.id <= i && s.requests[r.id].entity == r.entity && s.requests[r.id].decision == r.decision
  }

  /** A row records what its submission asked. */
  predicate RowOk(s: State, k: nat)
    requires k < |s.rows|
  {
    var row := s.rows[k];
    row.id < |s.requests| && s.requests[row.id].entity == row.entity && s.requests[row.id].decision == row.decision
  }

  /** No submission is recorded twice. */
  predicate RecordedOnce(rows: seq<Row>) {
    forall i, j :: 0 <= i < j < |rows| ==> rows[i].id != rows[j].id
  }

  predicate RecordsOk(s: State) {
    && RecordedOnce(s.rows)
    && (forall i :: 0 <= i < |s.requests| ==> SameSubmission(s, i))
    && (forall k :: 0 <= k < |s.rows| ==> RowOk(s, k))
  }

  lemma {:induction false} StepKeepsSubmissions(hash: Entity -> int, s: State, e: Event)
    requires RecordsOk(s) && Enabled(hash, s, e)
    ensures forall i :: 0 <= i < |Step(hash, s, e).requests| ==> SameSubmission(Step(hash, s, e), i)
  {
    var s' := Step(hash, s, e);
    forall i | 0 <= i < |s'.requests|
      ensures SameSubmission(s', i)
    {
      if i < |s.requests| {
        assert SameSubmission(s, i);
      } else {
        assert e.Resend? ==> SameSubmission(s, e.i);
      }
    }
  }

  lemma {:induction false} StepKeepsRecords(hash: Entity -> int, s: State, e: Event)
    requires RecordsOk(s) && Enabled(hash, s, e)
    ensures RecordsOk(Step(hash, s, e))
  {
    var s' := Step(hash, s, e);
    StepKeepsSubmissions(hash, s, e);
    forall k | 0 <= k < |s'.rows|
      ensures RowOk(s', k)
    {
      if k < |s.rows| {
        assert RowOk(s, k);
      } else {
        assert SameSubmission(s, e.i);
      }
    }
  }

  predicate Inv(hash: Entity -> int, s: State) {
    && RecordsOk(s)
    && StampsFollowCommits(s.rows)
    && TerminalIsLast(s.rows)
    && LocksExclusive(hash, s)
    && (forall i :: 0 <= i < |s.rows| ==> s.rows[i].createdAt <= s.clock)
    && (forall i :: 0 <= i < |s.requests| ==> HolderOk(s, i))
  }

  /** The re-derived latest decision is terminal exactly when the entity is closed. */
  lemma {:induction false} LatestTellsClosed(rows: seq<Row>, e: Entity, latest: Option<Decision>)
    requires StampsFollowCommits(rows) && TerminalIsLast(rows) && LatestDecision(rows, e, latest)
    ensures (latest.Some? && Terminal(latest.value)) <==> Closed(rows, e)
  {
    if latest.Some? {
      var r :| LatestRow(rows, r) && r.entity == e && r.decision == latest.value;
      var k :| 0 <= k < |rows| && rows[k] == r;
      if i :| 0 <= i < |rows| && rows[i].entity == e && Terminal(rows[i].decision) {
        assert rows[i] in rows && rows[i].createdAt <= r.createdAt;
        assert i == k;
      }
    } else {
      assert forall i :: 0 <= i < |rows| ==> rows[i] in rows;
    }
  }

  /** Reading an old prefix can only miss a closing, never invent one. */
  lemma {:induction false} ClosedIsStable(rows: seq<Row>, asOf: nat, e: Entity)
    requires asOf <= |rows| && Closed(rows[..asOf], e)
    ensures Closed(rows, e)
  {
    var i :| 0 <= i < |rows[..asOf]| && rows[..asOf][i].entity == e && Terminal(rows[..asOf][i].decision);
    assert rows[i].entity == e && Terminal(rows[i].decision);
  }

  /** A commit leaves the other lock holders' entities alone. */
  lemma {:induction false} CommitKeepsHolders(hash: Entity -> int, s: State, i: nat)
    requires Inv(hash, s) && Enabled(hash, s, Commit(i))
    ensures forall j :: 0 <= j < |s.requests| ==> HolderOk(Step(hash, s, Commit(i)), j)
  {
    var s' := Step(hash, s, Commit(i));
    var r := s.requests[i];
    forall j | 0 <= j < |s'.requests|
      ensures HolderOk(s', j)
    {
      assert HolderOk(s, j);
      if j != i && HoldsLock(s.requests[j]) {
        assert s.requests[j].entity != r.entity;
        assert forall k :: 0 <= k < |s'.rows| && s'.rows[k].entity == s.requests[j].entity ==> k < |s.rows|;
      }
    }
  }

  lemma {:induction false} StepKeepsInv(hash: Entity -> int, s: State, e: Event)
    requires Inv(hash, s) && Enabled(hash, s, e)
    ensures Inv(hash, Step(hash, s, e))
  {
    StepKeepsRecords(hash, s, e);
    if e.Commit? {
      assert HolderOk(s, e.i);
      CommitKeepsHolders(hash, s, e.i);
    } else {
      StepKeepsHolders(hash, s, e);
    }
  }

  lemma {:induction false} StepKeepsHolders(hash: Entity -> int, s: State, e: Event)
    requires Inv(hash, s) && Enabled(hash, s, e) && !e.Commit?
    ensures var s' := Step(hash, s, e);
            LocksExclusive(hash, s') && forall j :: 0 <= j < |s'.requests| ==> HolderOk(s', j)
  {
    var s' := Step(hash, s, e);
    if e.Derive? {
      LatestTellsClosed(s.rows, s.requests[e.i].entity, e.latest);
    }
    forall j | 0 <= j < |s'.requests|
      ensures HolderOk(s', j)
    {
      if j < |s.requests| {
        assert HolderOk(s, j);
      }
    }
  }

  lemma {:induction false} RunKeepsInv(hash: Entity -> int, s: State, es: seq<Event>)
    requires Inv(hash, s) && Feasible(hash, s, es)
    ensures Inv(hash, After(hash, s, es))
    decreases |es|
  {
    if es != [] {
      StepKeepsInv(hash, s, es[0]);
      RunKeepsInv(hash, Step(hash, s, es[0]), es[1..]);
    }
  }

  /** For every interleaving: per entity, `created_at` order is commit order whatever the clients
      stamped, every row with a later one is ESCALATED, and no submission is recorded twice. */
  lemma {:induction false} AuditTrailIsLegal(hash: Entity -> int, es: seq<Event>)
    requires Feasible(hash, INITIAL, es)
    ensures StampsFollowCommits(After(hash, INITIAL, es).rows) && TerminalIsLast(After(hash, INITIAL, es).rows)
    ensures RecordedOnce(After(hash, INITIAL, es).rows)
  {
    RunKeepsInv(hash, INITIAL, es);
  }

  // ---------------------------------------------------------------------------------------
  // What becomes of a submission
  // ---------------------------------------------------------------------------------------

  /** The trigger rejects iff a committed row of the entity is REVIEWED or DISCARDED, and lets every other
      insert pass, a first one too. */
  lemma {:induction false} TriggerVerdict(hash: Entity -> int, es: seq<Event>, i: nat, latest: Option<Decision>)
    requires Feasible(hash, INITIAL, es) && Enabled(hash, After(hash, INITIAL, es), Derive(i, latest))
    ensures var s := After(hash, INITIAL, es);
            var phase := Step(hash, s, Derive(i, latest)).requests[i].phase;
            if Closed(s.rows, s.requests[i].entity) then phase.Rejected? else phase.Passed?
  {
    RunKeepsInv(hash, INITIAL, es);
    var s := After(hash, INITIAL, es);
    LatestTellsClosed(s.rows, s.requests[i].entity, latest);
  }

  /** The application refuses iff such a row was committed when it read, and goes on otherwise. */
  lemma {:induction false} CheckVerdict(hash: Entity -> int, es: seq<Event>, i: nat, asOf: nat, seen: Option<Decision>)
    requires Feasible(hash, INITIAL, es) && Enabled(hash, After(hash, INITIAL, es), Check(i, asOf, seen))
    ensures var s := After(hash, INITIAL, es);
            var phase := Step(hash, s, Check(i, asOf, seen)).requests[i].phase;
            if Closed(s.rows[..asOf], s.requests[i].entity) then phase.Refused? else phase.Checked?
  {
    RunKeepsInv(hash, INITIAL, es);
    var s := After(hash, INITIAL, es);
    PrefixIsLegal(s.rows, asOf);
    LatestTellsClosed(s.rows[..asOf], s.requests[i].entity, seen);
  }

  /** A request the trigger passed commits unless its submission is on record, and records exactly what it
      asked. Nothing else writes the table. */
  lemma {:induction false} PassedRequestCommits(hash: Entity -> int, s: State, i: nat)
    requires i < |s.requests| && s.requests[i].phase.Passed?
    requires forall k :: 0 <= k < |s.rows| ==> s.rows[k].id != s.requests[i].id
    ensures Enabled(hash, s, Commit(i))
    ensures var r := s.requests[i];
            Step(hash, s, Commit(i)).rows == s.rows + [Row(r.id, r.entity, r.decision, r.phase.stamp)]
    ensures forall e :: Enabled(hash, s, e) && !e.Commit? ==> Step(hash, s, e).rows == s.rows
  {
  }

  lemma {:induction false} Prepend(hash: Entity -> int, s: State, e: Event, es: seq<Event>)
    requires Enabled(hash, s, e) && Feasible(hash, Step(hash, s, e), es)
    ensures Feasible(hash, s, [e] + es) && After(hash, s, [e] + es) == After(hash, Step(hash, s, e), es)
  {
    assert ([e] + es)[1..] == es;
  }

  /** With nobody holding its lock, a submission on an open entity is recorded. */
  lemma {:induction false} OpenSubmissionIsRecorded(hash: Entity -> int, s: State, e: Entity, d: Decision,
                                                    clientStamp: int, latest: Option<Decision>)
    requires Inv(hash, s) && LatestDecision(s.rows, e, latest) && !Closed(s.rows, e)
    requires forall j :: 0 <= j < |s.requests| && HoldsLock(s.requests[j]) ==> hash(s.requests[j].entity) != hash(e)
    ensures exists es :: Feasible(hash, s, es) &&
              After(hash, s, es).rows == s.rows + [Row(|s.requests|, e, d, s.clock + 1)]
  {
    var n, now := |s.requests|, s.clock + 1;
    LatestTellsClosed(s.rows, e, latest);
    assert s.rows[..|s.rows|] == s.rows;
    forall k | 0 <= k < |s.rows|
      ensures s.rows[k].id < n
    {
      assert RowOk(s, k);
    }
    var s1 := Step(hash, s, Submit(e, d, clientStamp));
    var s2 := Step(hash, s1, Check(n, |s.rows|, latest));
    var s3 := Step(hash, s2, Lock(n, now));
    var s4 := Step(hash, s3, Derive(n, latest));
    assert s4.requests[n] == Request(n, e, d, clientStamp, Passed(now)) && s4.rows == s.rows;
    PassedRequestCommits(hash, s4, n);
    Prepend(hash, s4, Commit(n), []);
    Prepend(hash, s3, Derive(n, latest), [Commit(n)] + []);
    Prepend(hash, s2, Lock(n, now), [Derive(n, latest)] + ([Commit(n)] + []));
    Prepend(hash, s1, Check(n, |s.rows|, latest), [Lock(n, now)] + ([Derive(n, latest)] + ([Commit(n)] + [])));
    var tail := [Check(n, |s.rows|, latest)] + ([Lock(n, now)] + ([Derive(n, latest)] + ([Commit(n)] + [])));
    Prepend(hash, s, Submit(e, d, clientStamp), tail);
    assert Feasible(hash, s, [Submit(e, d, clientStamp)] + tail);
  }

  /** Some attempt at submission `id` was told that it committed. */
  predicate ToldCommitted(s: State, id: nat) {
    exists i :: 0 <= i < |s.requests| && s.requests[i].id == id && s.requests[i].phase.Committed?
  }

  predicate RecordsAreTold(s: State) {
    forall k :: 0 <= k < |s.rows| ==> ToldCommitted(s, s.rows[k].id)
  }

  predicate ToldIsRecorded(s: State) {
    forall i :: 0 <= i < |s.requests| && (s.requests[i].phase.Committed? || s.requests[i].phase.Conflicted?) ==>
      Recorded(s.rows, s.requests[i].id)
  }

  lemma {:induction false} StepTellsRecords(hash: Entity -> int, s: State, e: Event)
    requires Enabled(hash, s, e) && RecordsAreTold(s)
    ensures RecordsAreTold(Step(hash, s, e))
  {
    var t := Step(hash, s, e);
    forall k | 0 <= k < |t.rows|
      ensures ToldCommitted(t, t.rows[k].id)
    {
      if k < |s.rows| {
        var i :| 0 <= i < |s.requests| && s.requests[i].id == s.rows[k].id && s.requests[i].phase.Committed?;
        assert t.requests[i] == s.requests[i];
      } else {
        assert t.requests[e.i].id == t.rows[k].id && t.requests[e.i].phase.Committed?;
      }
    }
  }

  lemma {:induction false} StepRecordsTold(hash: Entity -> int, s: State, e: Event)
    requires Enabled(hash, s, e) && ToldIsRecorded(s)
    ensures ToldIsRecorded(Step(hash, s, e))
  {
    var t := Step(hash, s, e);
    forall i | 0 <= i < |t.requests| && (t.requests[i].phase.Committed? || t.requests[i].phase.Conflicted?)
      ensures Recorded(t.rows, t.requests[i].id)
    {
      if e == Commit(i) {
        assert t.rows[|s.rows|].id == t.requests[i].id;
      } else {
        var k :| 0 <= k < |s.rows| && s.rows[k].id == t.requests[i].id;
        assert t.rows[k] == s.rows[k];
      }
    }
  }

  lemma {:induction false} RunKeepsTheTruth(hash: Entity -> int, s: State, es: seq<Event>)
    requires Feasible(hash, s, es) && RecordsAreTold(s) && ToldIsRecorded(s)
    ensures RecordsAreTold(After(hash, s, es)) && ToldIsRecorded(After(hash, s, es))
    decreases |es|
  {
    if es != [] {
      StepTellsRecords(hash, s, es[0]);
      StepRecordsTold(hash, s, es[0]);
      RunKeepsTheTruth(hash, Step(hash, s, es[0]), es[1..]);
    }
  }

  /** A submission is on record iff one of its attempts was told so, and an attempt that met the primary key is
      one of a submission on record. */
  lemma {:induction false} CommittedIffRecorded(hash: Entity -> int, es: seq<Event>, id: nat)
    requires Feasible(hash, INITIAL, es)
    ensures ToldCommitted(After(hash, INITIAL, es), id) <==> Recorded(After(hash, INITIAL, es).rows, id)
    ensures forall i :: 0 <= i < |After(hash, INITIAL, es).requests| &&
                        After(hash, INITIAL, es).requests[i].phase.Conflicted? ==>
              Recorded(After(hash, INITIAL, es).rows, After(hash, INITIAL, es).requests[i].id)
  {
    RunKeepsTheTruth(hash, INITIAL, es);
  }

  // ---------------------------------------------------------------------------------------
  // The stale check costs nothing and decides nothing
  // ---------------------------------------------------------------------------------------

  predicate Settled(accepted: seq<(Entity, Decision)>, e: Entity) {
    exists i :: 0 <= i < |accepted| && accepted[i].0 == e && Terminal(accepted[i].1)
  }

  /** The rule alone, one request at a time: a request is recorded iff its entity is still open. */
  function Decide(accepted: seq<(Entity, Decision)>, e: Entity, d: Decision): seq<(Entity, Decision)> {
    if Settled(accepted, e) then accepted else accepted + [(e, d)]
  }

  function DecideAll(requests: seq<Request>, order: seq<nat>): seq<(Entity, Decision)>
    requires forall k :: 0 <= k < |order| ==> order[k] < |requests|
  {
    if order == [] then []
    else
      var r := requests[order[|order| - 1]];
      Decide(DecideAll(requests, order[..|order| - 1]), r.entity, r.decision)
  }

  function Trail(rows: seq<Row>): seq<(Entity, Decision)> {
    seq(|rows|, i requires 0 <= i < |rows| => (rows[i].entity, rows[i].decision))
  }

  predicate DecidedKnown(s: State) {
    forall k :: 0 <= k < |s.decided| ==> s.decided[k] < |s.requests|
  }

  predicate Linearized(s: State) {
    DecidedKnown(s) && Trail(s.rows) == DecideAll(s.requests, s.decided)
  }

  predicate SameAsked(a: seq<Request>, b: seq<Request>) {
    |a| <= |b| && forall i :: 0 <= i < |a| ==> a[i].entity == b[i].entity && a[i].decision == b[i].decision
  }

  lemma {:induction false} DecideAllIgnoresPhases(a: seq<Request>, b: seq<Request>, order: seq<nat>)
    requires SameAsked(a, b) && forall k :: 0 <= k < |order| ==> order[k] < |a|
    ensures DecideAll(a, order) == DecideAll(b, order)
    decreases |order|
  {
    if order != [] {
      DecideAllIgnoresPhases(a, b, order[..|order| - 1]);
    }
  }

  lemma {:induction false} TrailTellsClosed(rows: seq<Row>, e: Entity)
    ensures Closed(rows, e) <==> Settled(Trail(rows), e)
  {
    if i :| 0 <= i < |rows| && rows[i].entity == e && Terminal(rows[i].decision) {
      assert Trail(rows)[i] == (e, rows[i].decision);
    }
  }

  /** A request recorded while its entity is open. */
  lemma {:induction false} RecordIsTheRule(s: State, t: State, i: nat, row: Row)
    requires Linearized(s) && SameAsked(s.requests, t.requests) && i < |s.requests|
    requires t.decided == s.decided + [i] && t.rows == s.rows + [row]
    requires row.entity == s.requests[i].entity && row.decision == s.requests[i].decision && !Closed(s.rows, row.entity)
    ensures Linearized(t)
  {
    DecideAllIgnoresPhases(s.requests, t.requests, s.decided);
    TrailTellsClosed(s.rows, row.entity);
    assert t.decided[..|t.decided| - 1] == s.decided;
    assert Trail(t.rows) == Trail(s.rows) + [(row.entity, row.decision)];
  }

  /** A request refused while its entity is closed. */
  lemma {:induction false} RefusalIsTheRule(s: State, t: State, i: nat)
    requires Linearized(s) && SameAsked(s.requests, t.requests) && i < |s.requests|
    requires t.decided == s.decided + [i] && t.rows == s.rows && Closed(s.rows, s.requests[i].entity)
    ensures Linearized(t)
  {
    DecideAllIgnoresPhases(s.requests, t.requests, s.decided);
    TrailTellsClosed(s.rows, s.requests[i].entity);
    assert t.decided[..|t.decided| - 1] == s.decided;
  }

  /** Nothing decided. */
  lemma {:induction false} NoVerdictIsTheRule(s: State, t: State)
    requires Linearized(s) && SameAsked(s.requests, t.requests) && t.decided == s.decided && t.rows == s.rows
    ensures Linearized(t)
  {
    DecideAllIgnoresPhases(s.requests, t.requests, s.decided);
  }

  lemma {:induction false} StepAsksTheSame(hash: Entity -> int, s: State, e: Event)
    requires Enabled(hash, s, e)
    ensures SameAsked(s.requests, Step(hash, s, e).requests)
  {
  }

  lemma {:induction false} StepKeepsLinearized(hash: Entity -> int, s: State, e: Event)
    requires Inv(hash, s) && Linearized(s) && Enabled(hash, s, e)
    ensures Linearized(Step(hash, s, e))
  {
    var t := Step(hash, s, e);
    StepAsksTheSame(hash, s, e);
    if t.decided == s.decided {
      NoVerdictIsTheRule(s, t);
    } else {
      VerdictIsTheRule(hash, s, e);
      if e.Commit? {
        RecordIsTheRule(s, t, e.i, t.rows[|s.rows|]);
      } else {
        RefusalIsTheRule(s, t, e.i);
      }
    }
  }

  /** A step that settles a request refuses it iff its entity is closed. */
  lemma {:induction false} VerdictIsTheRule(hash: Entity -> int, s: State, e: Event)
    requires Inv(hash, s) && Enabled(hash, s, e) && Step(hash, s, e).decided != s.decided
    ensures !e.Submit? && e.i < |s.requests| && Step(hash, s, e).decided == s.decided + [e.i]
    ensures Closed(s.rows, s.requests[e.i].entity) <==> !e.Commit?
  {
    var r := s.requests[e.i];
    if e.Check? {
      PrefixIsLegal(s.rows, e.asOf);
      LatestTellsClosed(s.rows[..e.asOf], r.entity, e.seen);
      ClosedIsStable(s.rows, e.asOf, r.entity);
    } else if e.Derive? {
      LatestTellsClosed(s.rows, r.entity, e.latest);
    } else {
      assert HolderOk(s, e.i);
    }
  }

  lemma {:induction false} PrefixIsLegal(rows: seq<Row>, n: nat)
    requires n <= |rows| && StampsFollowCommits(rows) && TerminalIsLast(rows)
    ensures StampsFollowCommits(rows[..n]) && TerminalIsLast(rows[..n])
  {
  }

  lemma {:induction false} RunKeepsLinearized(hash: Entity -> int, s: State, es: seq<Event>)
    requires Inv(hash, s) && Linearized(s) && Feasible(hash, s, es)
    ensures Linearized(After(hash, s, es))
    decreases |es|
  {
    if es != [] {
      StepKeepsInv(hash, s, es[0]);
      StepKeepsLinearized(hash, s, es[0]);
      RunKeepsLinearized(hash, Step(hash, s, es[0]), es[1..]);
    }
  }

  /** Check plus trigger records exactly what the rule alone records when the same requests are
      taken one at a time in verdict order: an application refusal, however stale its read, is one
      the rule makes too, so the check neither loses nor admits a submission. */
  lemma {:induction false} CheckPlusTriggerIsTheRule(hash: Entity -> int, es: seq<Event>)
    requires Feasible(hash, INITIAL, es)
    ensures Linearized(After(hash, INITIAL, es))
  {
    RunKeepsLinearized(hash, INITIAL, es);
  }

  /** A request the application would refuse on ANY past read is one the trigger rejects on every
      read it can make now. */
  lemma {:induction false} RefusalImpliesRejection(hash: Entity -> int, es: seq<Event>, e: Entity, d: Decision,
                                                   asOf: nat, seen: Option<Decision>, latest: Option<Decision>)
    requires Feasible(hash, INITIAL, es) && asOf <= |After(hash, INITIAL, es).rows|
    requires LatestDecision(After(hash, INITIAL, es).rows[..asOf], e, seen)
    requires LatestDecision(After(hash, INITIAL, es).rows, e, latest)
    requires AssertTransitionAllowed(seen, d).Some?
    ensures AssertTransitionAllowed(latest, d).Some?
  {
    RunKeepsInv(hash, INITIAL, es);
    var rows := After(hash, INITIAL, es).rows;
    PrefixIsLegal(rows, asOf);
    LatestTellsClosed(rows[..asOf], e, seen);
    ClosedIsStable(rows, asOf, e);
    LatestTellsClosed(rows, e, latest);
  }

  // ---------------------------------------------------------------------------------------
  // Why both parts are there
  // ---------------------------------------------------------------------------------------

  /** The insert with neither lock nor trigger, as it was before the migration. */
  function BareInsert(rows: seq<Row>, id: nat, e: Entity, d: Decision, clientStamp: int): seq<Row> {
    rows + [Row(id, e, d, clientStamp)]
  }

  /** The check alone is not enough: two requests that read the same open entity both pass it and
      their inserts leave a row after a terminal one, exactly when the first is terminal. */
  lemma {:induction false} CheckAloneBreaksIff(rows: seq<Row>, e: Entity, first: Decision, second: Decision,
                                               seen: Option<Decision>, id1: nat, id2: nat, t1: int, t2: int)
    requires StampsFollowCommits(rows) && TerminalIsLast(rows) && LatestDecision(rows, e, seen)
    requires AssertTransitionAllowed(seen, first).None? && AssertTransitionAllowed(seen, second).None?
    ensures TerminalIsLast(BareInsert(BareInsert(rows, id1, e, first, t1), id2, e, second, t2)) <==> first.Escalated?
  {
    LatestTellsClosed(rows, e, seen);
    var n := |rows|;
    var after := BareInsert(BareInsert(rows, id1, e, first, t1), id2, e, second, t2);
    assert after[n] == Row(id1, e, first, t1) && after[n + 1] == Row(id2, e, second, t2);
    if first.Escalated? {
      forall i, j | 0 <= i < j < |after| && after[i].entity == after[j].entity
        ensures after[i].decision.Escalated?
      {
        assert j < n ==> rows[i].entity == rows[j].entity;
        assert i < n && j >= n ==> rows[i].entity == e && !Terminal(rows[i].decision);
      }
    }
  }

  lemma {:induction false} LatestRowExists(rows: seq<Row>, r: Row) returns (latest: Row)
    requires r in rows
    ensures LatestRow(rows, latest) && latest.entity == r.entity
    decreases |rows|
  {
    var n := |rows| - 1;
    var front := rows[..n];
    assert rows == front + [rows[n]];
    if r in front {
      latest := LatestRowExists(front, r);
      if rows[n].entity == r.entity && rows[n].createdAt > latest.createdAt {
        latest := rows[n];
      }
    } else if q :| q in front && q.entity == r.entity && q.createdAt > r.createdAt {
      latest := LatestRowExists(front, q);
      if r.createdAt > latest.createdAt {
        latest := r;
      }
    } else {
      latest := r;
    }
  }

  /** Exactly when restamping is needed. The trail is legal in commit order and row `k` closes its entity,
      but the stamps are the clients': the entity can still look open iff an earlier escalation of it
      carries a stamp no older than the closing row's. */
  lemma {:induction false} ClientStampsHideClosing(rows: seq<Row>, k: nat)
    requires TerminalIsLast(rows) && k < |rows| && Terminal(rows[k].decision)
    ensures (exists seen, d :: LatestDecision(rows, rows[k].entity, seen) && AssertTransitionAllowed(seen, d).None?)
            <==> exists i :: 0 <= i < k && rows[i].entity == rows[k].entity && rows[i].createdAt >= rows[k].createdAt
  {
    var e := rows[k].entity;
    assert forall i :: 0 <= i < |rows| && i != k && rows[i].entity == e ==> i < k && rows[i].decision.Escalated?;
    if seen, d :| LatestDecision(rows, e, seen) && AssertTransitionAllowed(seen, d).None? {
      assert rows[k] in rows;
      var r :| LatestRow(rows, r) && r.entity == e && r.decision == seen.value;
      var i :| 0 <= i < |rows| && rows[i] == r;
      assert i < k && rows[i].createdAt >= rows[k].createdAt;
    }
    if i :| 0 <= i < k && rows[i].entity == e && rows[i].createdAt >= rows[k].createdAt {
      var latest := LatestRowExists(rows, rows[k]);
      var shown := if latest == rows[k] then rows[i] else latest;
      assert rows[k] in rows && rows[i] in rows;
      var j :| 0 <= j < |rows| && rows[j] == latest;
      assert LatestRow(rows, shown) && shown.decision.Escalated?;
      assert LatestDecision(rows, e, Some(Escalated)) && AssertTransitionAllowed(Some(Escalated), Escalated).None?;
    }
  }

  // ---------------------------------------------------------------------------------------
  // Sending an insert again
  // ---------------------------------------------------------------------------------------

  predicate ClosedByOther(rows: seq<Row>, e: Entity, id: nat) {
    exists i :: 0 <= i < |rows| && rows[i].entity == e && rows[i].id != id && Terminal(rows[i].decision)
  }

  /** What the trigger reads on an entity that holds row `k`. */
  lemma {:induction false} LatestWithOwnRow(rows: seq<Row>, k: nat, latest: Option<Decision>)
    requires StampsFollowCommits(rows) && TerminalIsLast(rows) && RecordedOnce(rows)
    requires k < |rows| && LatestDecision(rows, rows[k].entity, latest)
    ensures latest.Some? && (Terminal(rows[k].decision) ==> latest.value == rows[k].decision)
    ensures Terminal(latest.value) <==> Terminal(rows[k].decision) || ClosedByOther(rows, rows[k].entity, rows[k].id)
  {
    var e := rows[k].entity;
    LatestTellsClosed(rows, e, latest);
    assert rows[k] in rows;
    var r :| LatestRow(rows, r) && r.entity == e && r.decision == latest.value;
    var l :| 0 <= l < |rows| && rows[l] == r;
    assert Terminal(rows[k].decision) ==> l == k;
    if ClosedByOther(rows, e, rows[k].id) {
      assert Closed(rows, e);
    }
    if Terminal(latest.value) && l != k {
      assert rows[l].id != rows[k].id;
    }
  }

  /** Attempt `j` holds the lock and reads the latest decision while its submission is on record. */
  ghost predicate ReadsAfterOwnRow(hash: Entity -> int, s: State, j: nat, latest: Option<Decision>) {
    j < |s.requests| && Enabled(hash, s, Derive(j, latest)) && Recorded(s.rows, s.requests[j].id)
  }

  ghost predicate ToldIllegal(hash: Entity -> int, s: State, j: nat, latest: Option<Decision>)
    requires ReadsAfterOwnRow(hash, s, j, latest)
  {
    Step(hash, s, Derive(j, latest)).requests[j].phase.Rejected?
  }

  /** The insert that follows cannot commit, the primary key being taken. */
  ghost predicate MeetsPrimaryKey(hash: Entity -> int, s: State, j: nat, latest: Option<Decision>)
    requires ReadsAfterOwnRow(hash, s, j, latest)
  {
    var t := Step(hash, s, Derive(j, latest));
    && Enabled(hash, t, Conflict(j)) && !Enabled(hash, t, Commit(j))
    && Step(hash, t, Conflict(j)).requests[j].phase.Conflicted? && Step(hash, t, Conflict(j)).rows == s.rows
  }

  /** What becomes of an attempt whose submission is on record already. It never commits: it is told
      "illegal transition" exactly when its own decision is terminal or another submission has closed the
      entity, and meets the primary key otherwise. A terminal decision is refused because of itself. */
  lemma {:induction false} ResentVerdict(hash: Entity -> int, es: seq<Event>, j: nat, latest: Option<Decision>)
    requires Feasible(hash, INITIAL, es) && ReadsAfterOwnRow(hash, After(hash, INITIAL, es), j, latest)
    ensures var s := After(hash, INITIAL, es);
            && (ToldIllegal(hash, s, j, latest) <==>
                  Terminal(s.requests[j].decision) || ClosedByOther(s.rows, s.requests[j].entity, s.requests[j].id))
            && (MeetsPrimaryKey(hash, s, j, latest) <==> !ToldIllegal(hash, s, j, latest))
            && (Terminal(s.requests[j].decision) ==> latest == Some(s.requests[j].decision))
  {
    RunKeepsInv(hash, INITIAL, es);
    var s := After(hash, INITIAL, es);
    var k :| 0 <= k < |s.rows| && s.rows[k].id == s.requests[j].id;
    assert RowOk(s, k) && SameSubmission(s, j);
    LatestWithOwnRow(s.rows, k, latest);
  }

  /** With the rows as they were, a new attempt at what request `i` submitted reads it on record. */
  ghost predicate Resent(hash: Entity -> int, s: State, t: State, i: nat, latest: Option<Decision>)
    requires i < |s.requests|
  {
    var n := |s.requests|;
    && t.rows == s.rows && ReadsAfterOwnRow(hash, t, n, latest)
    && t.requests[n].entity == s.requests[i].entity && t.requests[n].decision == s.requests[i].decision
  }

  /** A recorded submission whose acknowledgement was lost can be sent again, and with nobody holding its lock
      the new attempt comes to read its own record. */
  lemma {:induction false} ResentAttemptReads(hash: Entity -> int, s: State, i: nat, latest: Option<Decision>)
    requires Inv(hash, s) && i < |s.requests| && !s.requests[i].phase.Started? && !s.requests[i].phase.Refused?
    requires Recorded(s.rows, s.requests[i].id) && LatestDecision(s.rows, s.requests[i].entity, latest)
    requires forall j :: 0 <= j < |s.requests| && HoldsLock(s.requests[j]) ==>
               hash(s.requests[j].entity) != hash(s.requests[i].entity)
    ensures exists es :: Feasible(hash, s, es) && Resent(hash, s, After(hash, s, es), i, latest)
  {
    var n, now := |s.requests|, s.clock + 1;
    var s1 := Step(hash, s, Resend(i));
    var s2 := Step(hash, s1, Lock(n, now));
    Prepend(hash, s1, Lock(n, now), []);
    Prepend(hash, s, Resend(i), [Lock(n, now)] + []);
    var es := [Resend(i)] + ([Lock(n, now)] + []);
    assert After(hash, s, es) == s2 && Resent(hash, s, s2, i, latest);
  }

  /** Nothing is recorded on the entity of row `k` after it. */
  predicate LastOfEntity(rows: seq<Row>, k: nat)
    requires k < |rows|
  {
    forall i :: k < i < |rows| ==> rows[i].entity != rows[k].entity
  }

  /** With nothing recorded on the entity in between, the attempt that follows its own applied insert is
      told "illegal transition" iff its decision is terminal: the caller sees a refusal of what is on
      record. An ESCALATED one meets the primary key. */
  lemma {:induction false} RetryIsRefusedIffTerminal(hash: Entity -> int, es: seq<Event>, j: nat, k: nat,
                                                     latest: Option<Decision>)
    requires Feasible(hash, INITIAL, es) && ReadsAfterOwnRow(hash, After(hash, INITIAL, es), j, latest)
    requires k < |After(hash, INITIAL, es).rows| && LastOfEntity(After(hash, INITIAL, es).rows, k)
    requires After(hash, INITIAL, es).rows[k].id == After(hash, INITIAL, es).requests[j].id
    ensures ToldIllegal(hash, After(hash, INITIAL, es), j, latest) <==>
            Terminal(After(hash, INITIAL, es).requests[j].decision)
  {
    ResentVerdict(hash, es, j, latest);
    RunKeepsInv(hash, INITIAL, es);
    var s := After(hash, INITIAL, es);
    assert RowOk(s, k) && SameSubmission(s, j);
    assert forall i :: 0 <= i < |s.rows| && i != k && s.rows[i].entity == s.rows[k].entity ==>
        s.rows[i].decision.Escalated?;
  }
}
