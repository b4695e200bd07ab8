/** Appending chat turns over a lossy network. One `append_messages` call reads the highest
    ordinal, then sends one bulk insert, guarded by `unique (conversation_id, ordinal)`, and sends
    it again whenever an answer is lost. A request whose answer the caller stopped waiting for may
    still be executed at any later moment, or never. Other calls interleave freely. */
module Appends {
  import opened Recency
  import opened Sequences

  type Message = string

  /** `owner` is the call a stored turn came from and `index` its place in that call's batch. */
  datatype Row = Row(owner: nat, index: nat, message: Message)

  datatype Phase =
    | Reading
    | Ready      // about to send the insert
    | Waiting    // the current request has not been executed
    | Answered(ok: bool)  // it has, and its answer is on the way
    | Touching   // the insert was acknowledged, `updated_at` is being bumped
    | Returned
    | Failed

  /** `first` is the ordinal computed from the read; `attempt` counts transient failures; `stale`
      counts requests given up on that the server has not executed. */
  datatype Call = Call(batch: seq<Message>, first: nat, phase: Phase, attempt: nat, stale: nat)

  /** One conversation: whether its parent row exists, its turns by ordinal, every call ever made,
      and the calls whose insert was executed, in commit order. */
  datatype State = State(parent: bool, rows: map<nat, Row>, calls: seq<Call>, commits: seq<nat>)

  datatype Event =
    | Ensure
    | DeleteConversation
    | Start(batch: seq<Message>)
    | Read(c: nat)
    | ReadFails(c: nat)
    | Send(c: nat)
    | Execute(c: nat)        // the server runs the request the caller is waiting for
    | ExecuteStale(c: nat)   // the server runs a request the caller gave up on
    | Deliver(c: nat)        // the answer arrives
    | LoseTouch(c: nat)      // a transient error: nothing was executed or the answer was lost
    | OtherError(c: nat)     // any other exception, not retried
    | Touch(c: nat, ok: bool)

  const INITIAL := State(false, map[], [], [])

  predicate InSlot(call: Call, o: nat) {
    call.first <= o < call.first + |call.batch|
  }

  /** The ordinals a batch occupies. */
  function Slots(call: Call): set<nat> {
    set o: nat | call.first <= o < call.first + |call.batch| && InSlot(call, o)
  }

  function BatchRows(c: nat, call: Call): map<nat, Row> {
    map o | o in Slots(call) :: Row(c, o - call.first, call.batch[o - call.first])
  }

  /** The insert statement: all rows or none. It fails on any taken ordinal and without a parent. */
  predicate Accepts(s: State, c: nat)
    requires c < |s.calls|
  {
    s.parent && s.rows.Keys !! Slots(s.calls[c])
  }

  function Insert(s: State, c: nat): State
    requires c < |s.calls|
  {
    if Accepts(s, c) then s.(rows := s.rows + BatchRows(c, s.calls[c]), commits := s.commits + [c]) else s
  }

  /** `_next_ordinal`: one past the highest stored ordinal, 0 when there is none. */
  function NextOrdinal(rows: map<nat, Row>): nat {
    if rows == map[] then 0 else Highest(rows.Keys) + 1
  }

  function Highest(s: set<nat>): (h: nat)
    requires s != {}
    ensures h in s && forall x :: x in s ==> x <= h
  {
    HighestExists(s);
    var h :| h in s && forall x :: x in s ==> x <= h;
    h
  }

  lemma {:induction false} HighestExists(s: set<nat>)
    requires s != {}
    ensures exists h :: h in s && forall x :: x in s ==> x <= h
    decreases |s|
  {
    var x :| x in s;
    if s != {x} {
      HighestExists(s - {x});
      var h :| h in s - {x} && forall y :: y in s - {x} ==> y <= h;
      var top := if x <= h then h else x;
      assert forall y :: y in s ==> y == x || y in s - {x};
      assert top in s && forall y :: y in s ==> y <= top;
    }
  }

  function SetCall(s: State, c: nat, call: Call): State
    requires c < |s.calls|
  {
    s.(calls := s.calls[c := call])
  }

  predicate InPhase(s: State, c: nat, phase: Phase) {
    c < |s.calls| && s.calls[c].phase == phase
  }

  predicate Enabled(s: State, e: Event) {
    match e
    case Ensure => true
    case DeleteConversation => true
    case Start(_) => true
    case Read(c) => InPhase(s, c, Reading)
    case ReadFails(c) => InPhase(s, c, Reading)
    case Send(c) => InPhase(s, c, Ready)
    case Execute(c) => InPhase(s, c, Waiting)
    case ExecuteStale(c) => c < |s.calls| && s.calls[c].stale > 0
    case Deliver(c) => c < |s.calls| && s.calls[c].phase.Answered?
    case LoseTouch(c) => c < |s.calls| && (s.calls[c].phase.Waiting? || s.calls[c].phase.Answered?)
    case OtherError(c) => c < |s.calls| && (s.calls[c].phase.Waiting? || s.calls[c].phase.Answered?)
    case Touch(c, _) => InPhase(s, c, Touching)
  }

  /** The request in flight, if any, is left behind for the server. */
  function LeaveBehind(call: Call): nat {
    call.stale + (if call.phase.Waiting? then 1 else 0)
  }

  /** `maxAttempts` is the retry helper's limit; the comparison is its own. */
  function Step(maxAttempts: int, s: State, e: Event): State
    requires Enabled(s, e)
  {
    match e
    case Ensure => s.(parent := true)
    case DeleteConversation => s.(parent := false, rows := map[])
    case Start(batch) =>
      s.(calls := s.calls + [Call(batch, 0, if batch == [] then Returned else Reading, 0, 0)])
    case Read(c) => SetCall(s, c, s.calls[c].(first := NextOrdinal(s.rows), phase := Ready))
    case ReadFails(c) => SetCall(s, c, s.calls[c].(phase := Failed))
    case Send(c) => SetCall(s, c, s.calls[c].(phase := Waiting))
    case Execute(c) => SetCall(Insert(s, c), c, s.calls[c].(phase := Answered(Accepts(s, c))))
    case ExecuteStale(c) => SetCall(Insert(s, c), c, s.calls[c].(stale := s.calls[c].stale - 1))
    case Deliver(c) =>
      SetCall(s, c, s.calls[c].(phase := if s.calls[c].phase.ok then Touching else Failed))
    case LoseTouch(c) =>
      var call := s.calls[c];
      SetCall(s, c, call.(attempt := call.attempt + 1, stale := LeaveBehind(call),
                          phase := if call.attempt + 1 > maxAttempts then Failed else Ready))
    case OtherError(c) => SetCall(s, c, s.calls[c].(stale := LeaveBehind(s.calls[c]), phase := Failed))
    case Touch(c, _) => SetCall(s, c, s.calls[c].(phase := Returned))
  }

  predicate Feasible(m: int, s: State, es: seq<Event>)
    decreases |es|
  {
    es == [] || (Enabled(s, es[0]) && Feasible(m, Step(m, s, es[0]), es[1..]))
  }

  function After(m: int, s: State, es: seq<Event>): State
    requires Feasible(m, s, es)
    decreases |es|
  {
    if es == [] then s else After(m, Step(m, s, es[0]), es[1..])
  }

  predicate NoDeletes(es: seq<Event>) {
    forall k :: 0 <= k < |es| ==> !es[k].DeleteConversation?
  }

  // ---------------------------------------------------------------------------------------
  // With deletions: a batch is stored at most once and all or nothing
  // ---------------------------------------------------------------------------------------

  function Owned(s: State, c: nat): set<nat> {
    set o | o in s.rows && s.rows[o].owner == c
  }

  /** Call `c`'s turns are absent, or exactly its batch, once, in order, at its own ordinals. */
  predicate StoredOnceOrNot(s: State, c: nat)
    requires c < |s.calls|
  {
    || Owned(s, c) == {}
    || (&& Owned(s, c) == Slots(s.calls[c])
        && forall o :: o in Slots(s.calls[c]) ==> s.rows[o] == BatchRows(c, s.calls[c])[o])
  }

  predicate CallOk(s: State, c: nat)
    requires c < |s.calls|
  {
    var call := s.calls[c];
    && StoredOnceOrNot(s, c)
    && (call.batch == [] ==> call.phase.Returned? && call.stale == 0)
    && (call.phase.Reading? ==> call.stale == 0 && Owned(s, c) == {} && c !in s.commits)
  }

  predicate StoredInv(s: State) {
    && (!s.parent ==> s.rows == map[])
    && (forall o :: o in s.rows ==> s.rows[o].owner < |s.calls|)
    && (forall k :: 0 <= k < |s.commits| ==> s.commits[k] < |s.calls|)
    && (forall c :: 0 <= c < |s.calls| ==> CallOk(s, c))
  }

  lemma {:induction false} InsertKeepsStored(s: State, c: nat)
    requires StoredInv(s) && c < |s.calls| && s.calls[c].batch != [] && !s.calls[c].phase.Reading?
    ensures StoredInv(Insert(s, c))
  {
    var s' := Insert(s, c);
    if Accepts(s, c) {
      assert CallOk(s, c);
      assert s.calls[c].first in Slots(s.calls[c]);
      assert Owned(s, c) == {};
      forall d | 0 <= d < |s.calls|
        ensures Owned(s', d) == if d == c then Slots(s.calls[c]) else Owned(s, d)
        ensures CallOk(s', d)
      {
        assert CallOk(s, d);
        if d == c {
          assert forall o :: o in s.rows && s.rows[o].owner == c ==> o in Owned(s, c);
          assert forall o :: o in Slots(s.calls[c]) ==> o in s'.rows && s'.rows[o] == BatchRows(c, s.calls[c])[o];
        }
      }
    }
  }

  /** Changing one call's bookkeeping, its batch and (once reading is over) its ordinal staying put. */
  lemma {:induction false} SetCallKeepsStored(s: State, c: nat, call: Call)
    requires StoredInv(s) && c < |s.calls| && s.calls[c].batch != []
    requires call.batch == s.calls[c].batch && !call.phase.Reading?
    requires s.calls[c].phase.Reading? || call.first == s.calls[c].first
    ensures StoredInv(SetCall(s, c, call))
  {
    var s' := SetCall(s, c, call);
    forall d | 0 <= d < |s'.calls|
      ensures CallOk(s', d)
    {
      assert CallOk(s, d);
      assert Owned(s', d) == Owned(s, d);
    }
  }

  lemma {:induction false} StepKeepsStored(m: int, s: State, e: Event)
    requires StoredInv(s) && Enabled(s, e)
    ensures StoredInv(Step(m, s, e))
  {
    var s' := Step(m, s, e);
    if e.Ensure? || e.DeleteConversation? || e.Start? {
      forall d | 0 <= d < |s'.calls|
        ensures CallOk(s', d)
      {
        if d < |s.calls| {
          assert CallOk(s, d);
          assert Owned(s', d) == if e.DeleteConversation? then {} else Owned(s, d);
        } else {
          assert Owned(s', d) == {};
        }
      }
    } else {
      assert CallOk(s, e.c);
      if e.Execute? || e.ExecuteStale? {
        InsertKeepsStored(s, e.c);
        SetCallKeepsStored(Insert(s, e.c), e.c, s'.calls[e.c]);
      } else {
        SetCallKeepsStored(s, e.c, s'.calls[e.c]);
      }
    }
  }

  lemma {:induction false} RunKeepsStored(m: int, s: State, es: seq<Event>)
    requires StoredInv(s) && Feasible(m, s, es)
    ensures StoredInv(After(m, s, es))
    decreases |es|
  {
    if es != [] {
      StepKeepsStored(m, s, es[0]);
      RunKeepsStored(m, Step(m, s, es[0]), es[1..]);
    }
  }

  /** Under any losses, retries, late executions, concurrent calls and deletions of the
      conversation, one call's batch is in the table at most once, complete and in order; and there are
      no turns without their conversation. */
  lemma {:induction false} BatchStoredAtMostOnce(m: int, es: seq<Event>, c: nat)
    requires Feasible(m, INITIAL, es) && c < |After(m, INITIAL, es).calls|
    ensures StoredOnceOrNot(After(m, INITIAL, es), c)
    ensures !After(m, INITIAL, es).parent ==> After(m, INITIAL, es).rows == map[]
  {
    RunKeepsStored(m, INITIAL, es);
    assert CallOk(After(m, INITIAL, es), c);
  }

  /** The caller has been, or is about to be, told that its insert was applied. */
  predicate Acknowledged(call: Call) {
    call.batch != [] && (call.phase == Answered(true) || call.phase.Touching? || call.phase.Returned?)
  }

  predicate AcknowledgedCommitted(s: State) {
    forall c :: 0 <= c < |s.calls| && Acknowledged(s.calls[c]) ==> c in s.commits
  }

  lemma {:induction false} StepKeepsAcknowledged(m: int, s: State, e: Event)
    requires AcknowledgedCommitted(s) && Enabled(s, e)
    ensures AcknowledgedCommitted(Step(m, s, e))
  {
    var s' := Step(m, s, e);
    assert forall c :: c in s.commits ==> c in s'.commits;
    forall c | 0 <= c < |s'.calls| && Acknowledged(s'.calls[c])
      ensures c in s'.commits
    {
      assert c < |s.calls| && (s'.calls[c] == s.calls[c] || e.c == c);
      assert Acknowledged(s.calls[c]) || (e.Execute? && Accepts(s, c));
    }
  }

  lemma {:induction false} RunKeepsAcknowledged(m: int, s: State, es: seq<Event>)
    requires AcknowledgedCommitted(s) && Feasible(m, s, es)
    ensures AcknowledgedCommitted(After(m, s, es))
    decreases |es|
  {
    if es != [] {
      StepKeepsAcknowledged(m, s, es[0]);
      RunKeepsAcknowledged(m, Step(m, s, es[0]), es[1..]);
    }
  }

  /** In every run, deletions included, a normal return of a non-empty call means its batch was
      committed. */
  lemma {:induction false} ReturnMeansCommitted(m: int, es: seq<Event>, c: nat)
    requires Feasible(m, INITIAL, es) && InPhase(After(m, INITIAL, es), c, Returned)
    requires After(m, INITIAL, es).calls[c].batch != []
    ensures c in After(m, INITIAL, es).commits
  {
    RunKeepsAcknowledged(m, INITIAL, es);
  }

  // ---------------------------------------------------------------------------------------
  // What a call answers
  // ---------------------------------------------------------------------------------------

  /** How often the call met a transient error. */
  function Losses(es: seq<Event>, c: nat): nat {
    if es == [] then 0 else (if es[0] == LoseTouch(c) then 1 else 0) + Losses(es[1..], c)
  }

  /** Some request of the call was executed and refused: its conversation was missing or an ordinal taken. */
  predicate RefusedIn(m: int, s: State, es: seq<Event>, c: nat)
    requires Feasible(m, s, es)
    decreases |es|
  {
    es != [] &&
    ((es[0] == Execute(c) && (!s.parent || exists o: nat :: o in s.rows && InSlot(s.calls[c], o)))
     || RefusedIn(m, Step(m, s, es[0]), es[1..], c))
  }

  lemma {:induction false} RefusalIsReal(s: State, c: nat)
    requires c < |s.calls| && !Accepts(s, c)
    ensures !s.parent || exists o: nat :: o in s.rows && InSlot(s.calls[c], o)
  {
    if s.parent {
      var o :| o in s.rows.Keys && o in Slots(s.calls[c]);
      assert InSlot(s.calls[c], o);
    }
  }

  /** A call that has failed had a cause, starting from any state in which it has not. */
  lemma {:induction false} FailureHasCause(m: int, s: State, es: seq<Event>, c: nat, used: nat)
    requires Feasible(m, s, es) && InPhase(After(m, s, es), c, Failed)
    requires c < |s.calls| ==> s.calls[c].attempt <= used
                                  && !s.calls[c].phase.Failed? && s.calls[c].phase != Answered(false)
    ensures ReadFails(c) in es || OtherError(c) in es || used + Losses(es, c) > m || RefusedIn(m, s, es, c)
    decreases |es|
  {
    if es != [] {
      var e := es[0];
      var next := Step(m, s, e);
      assert e in es && forall x :: x in es[1..] ==> x in es;
      if c < |s.calls| && e == Execute(c) && !Accepts(s, c) {
        RefusalIsReal(s, c);
      } else if e == ReadFails(c) || e == OtherError(c) {
      } else if e == LoseTouch(c) {
        if s.calls[c].attempt + 1 <= m {
          FailureHasCause(m, next, es[1..], c, used + 1);
        }
      } else {
        FailureHasCause(m, next, es[1..], c, used);
      }
    }
  }

  /** A call fails only because a read of its own failed, some other error hit it, its transient errors
      exceeded the limit, or a request of its own was refused. */
  lemma {:induction false} CallFailsForCause(m: int, es: seq<Event>, c: nat)
    requires Feasible(m, INITIAL, es) && InPhase(After(m, INITIAL, es), c, Failed)
    ensures ReadFails(c) in es || OtherError(c) in es || Losses(es, c) > m || RefusedIn(m, INITIAL, es, c)
  {
    FailureHasCause(m, INITIAL, es, c, 0);
  }

  predicate Over(call: Call) {
    call.phase.Returned? || call.phase.Failed?
  }

  /** The call's next step when nothing goes wrong. */
  function NextOf(call: Call, c: nat): Event
    requires !Over(call)
  {
    match call.phase
    case Reading => Read(c)
    case Ready => Send(c)
    case Waiting => Execute(c)
    case Answered(_) => Deliver(c)
    case Touching => Touch(c, true)
  }

  /** An error other than a lost answer: a failed read, a refused insert, or any other exception. */
  predicate EndsCall(s: State, e: Event, c: nat) {
    || e == ReadFails(c) || e == OtherError(c)
    || (e == Deliver(c) && c < |s.calls| && s.calls[c].phase == Answered(false))
  }

  /** No call is ever stuck; an error other than a lost answer ends it at once, so what was refused is not
      tried again; a lost answer ends it exactly when the attempts are used up. */
  lemma {:induction false} EveryCallGoesOn(m: int, s: State, c: nat)
    requires c < |s.calls|
    ensures !Over(s.calls[c]) ==> Enabled(s, NextOf(s.calls[c], c))
    ensures forall e :: Enabled(s, e) && EndsCall(s, e, c) ==> InPhase(Step(m, s, e), c, Failed)
    ensures Enabled(s, LoseTouch(c)) ==>
              InPhase(Step(m, s, LoseTouch(c)), c, if s.calls[c].attempt + 1 > m then Failed else Ready)
  {
  }

  /** Once its insert is acknowledged a call returns, whether or not the touch succeeds. */
  lemma {:induction false} AcknowledgedReturns(m: int, s: State, c: nat, ok: bool)
    requires InPhase(s, c, Answered(true))
    ensures Enabled(s, Deliver(c)) && Enabled(Step(m, s, Deliver(c)), Touch(c, ok))
    ensures InPhase(Step(m, Step(m, s, Deliver(c)), Touch(c, ok)), c, Returned)
  {
  }

  /** `later` is `rows` and the batch's turns, from ordinal `first` on. */
  ghost predicate Appended(rows: map<nat, Row>, later: map<nat, Row>, first: nat, c: nat, batch: seq<Message>) {
    && (forall o :: o in rows ==> o in later && later[o] == rows[o])
    && (forall o :: o in later && o !in rows ==> first <= o < first + |batch|)
    && (forall i :: 0 <= i < |batch| ==> first + i in later && later[first + i] == Row(c, i, batch[i]))
  }

  lemma {:induction false} BatchAppends(rows: map<nat, Row>, c: nat, call: Call)
    requires rows.Keys !! Slots(call)
    ensures Appended(rows, rows + BatchRows(c, call), call.first, c, call.batch)
  {
    var added := BatchRows(c, call);
    forall i | 0 <= i < |call.batch|
      ensures call.first + i in added && added[call.first + i] == Row(c, i, call.batch[i])
    {
      assert InSlot(call, call.first + i);
    }
  }

  /** A request left behind when a call gives up on it can still be carried out: a failed call's batch can be
      stored after the failure was reported. */
  lemma {:induction false} LeftBehindCanLand(m: int, s: State, c: nat, e: Event)
    requires InPhase(s, c, Waiting) && (e == LoseTouch(c) || e == OtherError(c))
    requires s.parent && forall o: nat :: o in s.rows ==> !InSlot(s.calls[c], o)
    ensures Enabled(s, e) && Enabled(Step(m, s, e), ExecuteStale(c))
    ensures var t := Step(m, Step(m, s, e), ExecuteStale(c));
            && t.calls[c].phase == Step(m, s, e).calls[c].phase && t.commits == s.commits + [c]
            && Appended(s.rows, t.rows, s.calls[c].first, c, s.calls[c].batch)
  {
    var t := Step(m, s, e);
    var call := t.calls[c];
    assert call == s.calls[c].(phase := call.phase, attempt := call.attempt, stale := call.stale);
    BatchAppends(s.rows, c, call);
    assert BatchRows(c, call) == BatchRows(c, s.calls[c]);
  }

  // ---------------------------------------------------------------------------------------
  // Without deletions: contiguous ordinals, commit order, exactly-once answers
  // ---------------------------------------------------------------------------------------

  function Batches(calls: seq<Call>): seq<seq<Message>> {
    seq(|calls|, i requires 0 <= i < |calls| => calls[i].batch)
  }

  function BatchSeq(c: nat, batch: seq<Message>): seq<Row> {
    seq(|batch|, i requires 0 <= i < |batch| => Row(c, i, batch[i]))
  }

  /** The committed batches one after another, in commit order. */
  function Transcript(batches: seq<seq<Message>>, commits: seq<nat>): seq<Row>
    requires forall k :: 0 <= k < |commits| ==> commits[k] < |batches|
  {
    if commits == [] then []
    else
      var last := commits[|commits| - 1];
      Transcript(batches, commits[..|commits| - 1]) + BatchSeq(last, batches[last])
  }

  lemma {:induction false} TranscriptIgnoresLaterCalls(batches: seq<seq<Message>>, more: seq<seq<Message>>,
                                                       commits: seq<nat>)
    requires forall k :: 0 <= k < |commits| ==> commits[k] < |batches|
    ensures Transcript(batches + more, commits) == Transcript(batches, commits)
    decreases |commits|
  {
    if commits != [] {
      TranscriptIgnoresLaterCalls(batches, more, commits[..|commits| - 1]);
    }
  }

  predicate CommitsKnown(s: State) {
    forall k :: 0 <= k < |s.commits| ==> s.commits[k] < |s.calls|
  }

  function Told(s: State): seq<Row>
    requires CommitsKnown(s)
  {
    Transcript(Batches(s.calls), s.commits)
  }

  /** `rows` stores exactly `told`, at ordinals 0, 1, 2, ... */
  ghost predicate StoredAt(rows: map<nat, Row>, told: seq<Row>) {
    && (forall o: nat :: o in rows <==> o < |told|)
    && (forall o :: o in rows ==> rows[o] == told[o])
  }

  /** A call never holds an ordinal beyond the end; one that committed lies wholly before it. */
  predicate CallPlaced(s: State, c: nat, n: nat)
    requires c < |s.calls|
  {
    var call := s.calls[c];
    && (call.batch == [] ==> call.phase.Returned? && call.stale == 0)
    && (call.phase.Reading? ==> call.stale == 0)
    && call.first <= n
    && (c in s.commits ==> call.batch != [] && !call.phase.Reading? && call.first + |call.batch| <= n)
    && (Acknowledged(call) ==> c in s.commits)
  }

  ghost predicate LiveInv(s: State) {
    && CommitsKnown(s)
    && NoRepeats(s.commits)
    && StoredAt(s.rows, Told(s))
    && (forall c :: 0 <= c < |s.calls| ==> CallPlaced(s, c, |Told(s)|))
  }

  /** The stored ordinals are exactly 0 .. n-1. */
  ghost predicate Dense(rows: map<nat, Row>, n: nat) {
    forall o: nat :: o in rows <==> o < n
  }

  lemma {:induction false} NextOrdinalOfDense(rows: map<nat, Row>, n: nat)
    requires Dense(rows, n)
    ensures NextOrdinal(rows) == n
  {
    assert n > 0 ==> 0 in rows;
    if rows != map[] {
      var h := Highest(rows.Keys);
      assert h in rows && n - 1 in rows.Keys;
    }
  }

  lemma {:induction false} NextOrdinalIsEnd(rows: map<nat, Row>, told: seq<Row>)
    requires StoredAt(rows, told)
    ensures NextOrdinal(rows) == |told|
  {
    NextOrdinalOfDense(rows, |told|);
  }

  /** An insert is accepted only at the very end, and only from a call that has not committed. */
  lemma {:induction false} InsertKeepsLive(s: State, c: nat)
    requires LiveInv(s) && c < |s.calls| && s.calls[c].batch != [] && !s.calls[c].phase.Reading?
    ensures LiveInv(Insert(s, c))
    ensures Accepts(s, c) ==> c in Insert(s, c).commits
  {
    if Accepts(s, c) {
      var s', call, told := Insert(s, c), s.calls[c], Told(s);
      assert CallPlaced(s, c, |told|);
      assert InSlot(call, call.first) && call.first in Slots(call);
      assert call.first == |told|;
      assert c !in s.commits;
      assert s'.commits[..|s'.commits| - 1] == s.commits;
      assert Told(s') == told + BatchSeq(c, call.batch);
      forall o: nat | o in s'.rows || o < |Told(s')|
        ensures o in s'.rows && o < |Told(s')| && s'.rows[o] == Told(s')[o]
      {
        assert o in s'.rows <==> o in s.rows || InSlot(call, o);
      }
      forall d | 0 <= d < |s'.calls|
        ensures CallPlaced(s', d, |Told(s')|)
      {
        assert CallPlaced(s, d, |told|);
      }
    }
  }

  lemma {:induction false} SetCallKeepsLive(s: State, c: nat, call: Call)
    requires LiveInv(s) && c < |s.calls|
    requires call.batch == s.calls[c].batch && CallPlaced(SetCall(s, c, call), c, |Told(s)|)
    ensures LiveInv(SetCall(s, c, call))
  {
    var s' := SetCall(s, c, call);
    assert Batches(s'.calls) == Batches(s.calls);
    forall d | 0 <= d < |s'.calls|
      ensures CallPlaced(s', d, |Told(s')|)
    {
      if d != c {
        assert CallPlaced(s, d, |Told(s)|);
      }
    }
  }

  /** A new call changes nothing that is told. */
  lemma {:induction false} StartTellsNothing(m: int, s: State, batch: seq<Message>)
    requires CommitsKnown(s)
    ensures CommitsKnown(Step(m, s, Start(batch))) && Told(Step(m, s, Start(batch))) == Told(s)
  {
    assert Batches(Step(m, s, Start(batch)).calls) == Batches(s.calls) + [batch];
    TranscriptIgnoresLaterCalls(Batches(s.calls), [batch], s.commits);
  }

  lemma {:induction false} StepKeepsLive(m: int, s: State, e: Event)
    requires LiveInv(s) && Enabled(s, e) && !e.DeleteConversation?
    ensures LiveInv(Step(m, s, e))
  {
    var s' := Step(m, s, e);
    if e.Ensure? || e.Start? {
      if e.Start? {
        StartTellsNothing(m, s, e.batch);
      }
      forall d | 0 <= d < |s'.calls|
        ensures CallPlaced(s', d, |Told(s)|)
      {
        if d < |s.calls| {
          assert CallPlaced(s, d, |Told(s)|);
        }
      }
    } else {
      assert CallPlaced(s, e.c, |Told(s)|);
      NextOrdinalIsEnd(s.rows, Told(s));
      var mid := s;
      if e.Execute? || e.ExecuteStale? {
        InsertKeepsLive(s, e.c);
        mid := Insert(s, e.c);
      }
      assert CallPlaced(mid, e.c, |Told(mid)|);
      SetCallKeepsLive(mid, e.c, s'.calls[e.c]);
    }
  }

  lemma {:induction false} RunKeepsLive(m: int, s: State, es: seq<Event>)
    requires LiveInv(s) && Feasible(m, s, es) && NoDeletes(es)
    ensures LiveInv(After(m, s, es))
    decreases |es|
  {
    if es != [] {
      assert !es[0].DeleteConversation?;
      StepKeepsLive(m, s, es[0]);
      RunKeepsLive(m, Step(m, s, es[0]), es[1..]);
    }
  }

  /** No batch is ever committed twice; a normal return of a non-empty call means its batch was
      committed (so exactly once); a failed call's was committed at most once. */
  lemma {:induction false} ReturnMeansCommittedOnce(m: int, es: seq<Event>, c: nat)
    requires Feasible(m, INITIAL, es) && NoDeletes(es) && c < |After(m, INITIAL, es).calls|
    ensures var s := After(m, INITIAL, es);
            && NoRepeats(s.commits)
            && (s.calls[c].phase.Returned? && s.calls[c].batch != [] ==> c in s.commits)
            && (s.calls[c].batch == [] ==> s.calls[c].phase.Returned? && c !in s.commits)
  {
    RunKeepsLive(m, INITIAL, es);
    var s := After(m, INITIAL, es);
    assert CallPlaced(s, c, |Told(s)|);
  }

  /** Stored ordinals are exactly 0 .. n-1 and hold the committed batches in commit order, although
      every appender's ordinal comes from a possibly stale read. */
  lemma {:induction false} OrdinalsAreContiguous(m: int, es: seq<Event>)
    requires Feasible(m, INITIAL, es) && NoDeletes(es)
    ensures var s := After(m, INITIAL, es); CommitsKnown(s) && StoredAt(s.rows, Told(s))
  {
    RunKeepsLive(m, INITIAL, es);
  }

  // ---------------------------------------------------------------------------------------
  // Reading a conversation back
  // ---------------------------------------------------------------------------------------

  /** `order by ordinal`: the keys of every stored turn, increasing. */
  ghost predicate OrdinalOrder(rows: map<nat, Row>, keys: seq<nat>) {
    Increasing(keys) && forall o: nat :: o in rows <==> o in keys
  }

  /** `get` returns the concatenation of the committed batches in commit order. */
  lemma {:induction false} GetReturnsTranscript(m: int, es: seq<Event>, keys: seq<nat>)
    requires Feasible(m, INITIAL, es) && NoDeletes(es)
    requires OrdinalOrder(After(m, INITIAL, es).rows, keys)
    ensures var s := After(m, INITIAL, es);
            && CommitsKnown(s)
            && |keys| == |Told(s)|
            && forall i :: 0 <= i < |keys| ==> s.rows[keys[i]] == Told(s)[i]
  {
    OrdinalsAreContiguous(m, es);
    var n := |Told(After(m, INITIAL, es))|;
    AllPositions(keys, n, n);
  }

  // ---------------------------------------------------------------------------------------
  // Calling again after an error
  // ---------------------------------------------------------------------------------------

  /** Call `c`'s whole batch stands at its own ordinals. */
  predicate Stored(s: State, c: nat)
    requires c < |s.calls|
  {
    && s.calls[c].batch != []
    && forall o :: o in Slots(s.calls[c]) ==> o in s.rows && s.rows[o] == BatchRows(c, s.calls[c])[o]
  }

  predicate Mentions(told: seq<Row>, c: nat) {
    exists i :: 0 <= i < |told| && told[i].owner == c
  }

  lemma {:induction false} TranscriptOwners(batches: seq<seq<Message>>, commits: seq<nat>, c: nat)
    requires (forall k :: 0 <= k < |commits| ==> commits[k] < |batches|) && c < |batches|
    ensures Mentions(Transcript(batches, commits), c) <==> c in commits && batches[c] != []
    decreases |commits|
  {
    if commits != [] {
      var front, last := commits[..|commits| - 1], commits[|commits| - 1];
      var told := Transcript(batches, front);
      TranscriptOwners(batches, front, c);
      assert commits == front + [last];
      var all := Transcript(batches, commits);
      assert all == told + BatchSeq(last, batches[last]);
      if i :| 0 <= i < |told| && told[i].owner == c {
        assert all[i].owner == c;
      }
      if last == c && batches[c] != [] {
        assert all[|told|].owner == c;
      }
      if i :| 0 <= i < |all| && all[i].owner == c {
        if i < |told| {
          assert told[i].owner == c;
          assert Mentions(told, c);
        } else {
          assert all[i] == BatchSeq(last, batches[last])[i - |told|];
          assert c == last;
        }
      }
    }
  }

  lemma {:induction false} CommittedIsStored(s: State, c: nat)
    requires LiveInv(s) && StoredInv(s) && c < |s.calls| && c in s.commits
    ensures Stored(s, c)
  {
    assert CallOk(s, c) && CallPlaced(s, c, |Told(s)|);
    TranscriptOwners(Batches(s.calls), s.commits, c);
    var i :| 0 <= i < |Told(s)| && Told(s)[i].owner == c;
    assert i in s.rows && i in Owned(s, c);
  }

  lemma {:induction false} StoredIsCommitted(s: State, c: nat)
    requires LiveInv(s) && c < |s.calls| && Stored(s, c)
    ensures c in s.commits
  {
    TranscriptOwners(Batches(s.calls), s.commits, c);
    var o := s.calls[c].first;
    assert InSlot(s.calls[c], o) && o in Slots(s.calls[c]);
    assert Told(s)[o].owner == c;
    assert Mentions(Told(s), c);
  }

  /** What a caller can look up: its batch was committed iff it stands at its own ordinals. */
  lemma {:induction false} CommittedIffStored(m: int, es: seq<Event>, c: nat)
    requires Feasible(m, INITIAL, es) && NoDeletes(es) && c < |After(m, INITIAL, es).calls|
    ensures var s := After(m, INITIAL, es); c in s.commits <==> Stored(s, c)
  {
    RunKeepsLive(m, INITIAL, es);
    RunKeepsStored(m, INITIAL, es);
    var s := After(m, INITIAL, es);
    if c in s.commits {
      CommittedIsStored(s, c);
    }
    if Stored(s, c) {
      StoredIsCommitted(s, c);
    }
  }

  /** Two calls of which at most one can still end up committed: one of them holds an ordinal already
      taken by another call, or both hold the same one. */
  predicate Rivals(s: State, c: nat, d: nat)
    requires c < |s.calls| && d < |s.calls| && CommitsKnown(s)
  {
    var a, b, n := s.calls[c], s.calls[d], |Told(s)|;
    && c != d && a.batch != [] && b.batch != [] && !a.phase.Reading? && !b.phase.Reading?
    && (|| (c !in s.commits && a.first < n)
        || (d !in s.commits && b.first < n)
        || (c !in s.commits && d !in s.commits && a.first == b.first))
  }

  lemma {:induction false} InsertKeepsRivals(s: State, x: nat, c: nat, d: nat)
    requires LiveInv(s) && c < |s.calls| && d < |s.calls| && Rivals(s, c, d)
    requires x < |s.calls| && s.calls[x].batch != [] && !s.calls[x].phase.Reading?
    ensures CommitsKnown(Insert(s, x)) && Rivals(Insert(s, x), c, d)
  {
    InsertKeepsLive(s, x);
    if Accepts(s, x) {
      var n := |Told(s)|;
      assert CallPlaced(s, x, n) && CallPlaced(s, c, n) && CallPlaced(s, d, n);
      assert InSlot(s.calls[x], s.calls[x].first) && s.calls[x].first in Slots(s.calls[x]);
      assert s.calls[x].first == n;
      var s' := Insert(s, x);
      assert s'.commits[..|s'.commits| - 1] == s.commits;
      assert |Told(s')| == n + |s.calls[x].batch|;
    }
  }

  lemma {:induction false} ExecuteKeepsRivals(m: int, s: State, e: Event, c: nat, d: nat)
    requires LiveInv(s) && c < |s.calls| && d < |s.calls| && Rivals(s, c, d)
    requires Enabled(s, e) && (e.Execute? || e.ExecuteStale?)
    ensures |Step(m, s, e).calls| == |s.calls| && CommitsKnown(Step(m, s, e)) && Rivals(Step(m, s, e), c, d)
  {
    assert CallPlaced(s, e.c, |Told(s)|);
    InsertKeepsRivals(s, e.c, c, d);
    OnlyBookkeeping(Insert(s, e.c), Step(m, s, e), c, d);
  }

  lemma {:induction false} StepKeepsRivals(m: int, s: State, e: Event, c: nat, d: nat)
    requires LiveInv(s) && c < |s.calls| && d < |s.calls| && Rivals(s, c, d)
    requires Enabled(s, e) && !e.DeleteConversation?
    ensures c < |Step(m, s, e).calls| && d < |Step(m, s, e).calls| && CommitsKnown(Step(m, s, e))
    ensures Rivals(Step(m, s, e), c, d)
  {
    if e.Execute? || e.ExecuteStale? {
      ExecuteKeepsRivals(m, s, e, c, d);
    } else if e.Start? {
      StartTellsNothing(m, s, e.batch);
    } else {
      QuietStepKeepsRivals(m, s, e, c, d);
    }
  }

  lemma {:induction false} QuietStepKeepsRivals(m: int, s: State, e: Event, c: nat, d: nat)
    requires c < |s.calls| && d < |s.calls| && CommitsKnown(s) && Rivals(s, c, d) && Enabled(s, e)
    requires !e.DeleteConversation? && !e.Start? && !e.Execute? && !e.ExecuteStale?
    ensures |Step(m, s, e).calls| == |s.calls| && CommitsKnown(Step(m, s, e)) && Rivals(Step(m, s, e), c, d)
  {
    OnlyBookkeeping(s, Step(m, s, e), c, d);
  }

  /** A step that changes phases and counters of calls past their read keeps rivals. */
  lemma {:induction false} OnlyBookkeeping(s: State, s': State, c: nat, d: nat)
    requires c < |s.calls| && d < |s.calls| && CommitsKnown(s) && Rivals(s, c, d)
    requires s'.commits == s.commits && |s'.calls| == |s.calls|
    requires forall x :: 0 <= x < |s.calls| ==> s'.calls[x].batch == s.calls[x].batch
    requires forall x :: 0 <= x < |s.calls| && !s.calls[x].phase.Reading? ==>
               s'.calls[x].first == s.calls[x].first && !s'.calls[x].phase.Reading?
    ensures Rivals(s', c, d)
  {
    assert Batches(s'.calls) == Batches(s.calls);
  }

  predicate AreRivals(s: State, c: nat, d: nat) {
    c < |s.calls| && d < |s.calls| && CommitsKnown(s) && Rivals(s, c, d)
  }

  lemma {:induction false} RunKeepsRivals(m: int, s: State, es: seq<Event>)
    requires LiveInv(s) && Feasible(m, s, es) && NoDeletes(es)
    ensures forall c, d :: AreRivals(s, c, d) ==> AreRivals(After(m, s, es), c, d)
    decreases |es|
  {
    if es != [] {
      assert !es[0].DeleteConversation?;
      StepKeepsLive(m, s, es[0]);
      forall c, d | AreRivals(s, c, d)
        ensures AreRivals(Step(m, s, es[0]), c, d)
      {
        StepKeepsRivals(m, s, es[0], c, d);
      }
      RunKeepsRivals(m, Step(m, s, es[0]), es[1..]);
    }
  }

  lemma {:induction false} CommitsStay(m: int, s: State, es: seq<Event>)
    requires Feasible(m, s, es)
    ensures s.commits <= After(m, s, es).commits && |s.calls| <= |After(m, s, es).calls|
    decreases |es|
  {
    if es != [] {
      CommitsStay(m, Step(m, s, es[0]), es[1..]);
    }
  }

  lemma {:induction false} ReadMakesRivals(m: int, s: State, c: nat, d: nat)
    requires LiveInv(s) && c < |s.calls| && s.calls[c].batch != [] && !s.calls[c].phase.Reading? && Enabled(s, Read(d))
    ensures CommitsKnown(Step(m, s, Read(d)))
    ensures s.calls[d].batch != [] && Step(m, s, Read(d)).calls[d].batch == s.calls[d].batch
    ensures c !in s.commits ==> Rivals(Step(m, s, Read(d)), c, d)
  {
    assert CallPlaced(s, c, |Told(s)|) && CallPlaced(s, d, |Told(s)|);
    NextOrdinalIsEnd(s.rows, Told(s));
    assert Batches(Step(m, s, Read(d)).calls) == Batches(s.calls);
  }

  /** Exactly when calling again is safe. Call `c` has sent its request and call `d` reads the highest
      ordinal in `s`; requests `c` gave up on may still be executed. Whatever happens next, once `d` has
      returned both batches are stored iff `c`'s was stored already when `d` read. */
  lemma {:induction false} ReinvocationDuplicatesIff(m: int, es: seq<Event>, c: nat, d: nat, fs: seq<Event>)
    requires Feasible(m, INITIAL, es) && NoDeletes(es) && c < |After(m, INITIAL, es).calls|
    requires var s := After(m, INITIAL, es);
             && s.calls[c].batch != [] && !s.calls[c].phase.Reading? && Enabled(s, Read(d))
             && Feasible(m, Step(m, s, Read(d)), fs) && NoDeletes(fs)
             && InPhase(After(m, Step(m, s, Read(d)), fs), d, Returned)
    ensures var s := After(m, INITIAL, es);
            var t := After(m, Step(m, s, Read(d)), fs);
            c < |t.calls| && (Stored(t, c) && Stored(t, d) <==> Stored(s, c))
  {
    var s := After(m, INITIAL, es);
    var s1 := Step(m, s, Read(d));
    var t := After(m, s1, fs);
    RunKeepsLive(m, INITIAL, es);
    ReadMakesRivals(m, s, c, d);
    StepKeepsLive(m, s, Read(d));
    CommitsStay(m, s1, fs);
    BatchStays(m, s1, fs, d);
    if c !in s.commits {
      RunKeepsRivals(m, s1, fs);
      assert AreRivals(s1, c, d);
    }
    RunKeepsLive(m, s1, fs);
    assert CallPlaced(t, d, |Told(t)|);
    RunsInARow(m, es, Read(d), fs);
    CommittedIffStored(m, es, c);
    CommittedIffStored(m, es + [Read(d)] + fs, c);
    CommittedIffStored(m, es + [Read(d)] + fs, d);
  }

  lemma {:induction false} BatchStays(m: int, s: State, es: seq<Event>, d: nat)
    requires Feasible(m, s, es) && d < |s.calls|
    ensures d < |After(m, s, es).calls| && After(m, s, es).calls[d].batch == s.calls[d].batch
    decreases |es|
  {
    if es != [] {
      BatchStays(m, Step(m, s, es[0]), es[1..], d);
    }
  }

  lemma {:induction false} RunsInARow(m: int, es: seq<Event>, e: Event, fs: seq<Event>)
    requires Feasible(m, INITIAL, es) && Enabled(After(m, INITIAL, es), e)
    requires Feasible(m, Step(m, After(m, INITIAL, es), e), fs)
    ensures Feasible(m, INITIAL, es + [e] + fs)
    ensures After(m, INITIAL, es + [e] + fs) == After(m, Step(m, After(m, INITIAL, es), e), fs)
  {
    var s := After(m, INITIAL, es);
    assert [e][1..] == [] && Feasible(m, Step(m, s, e), [e][1..]);
    assert Feasible(m, s, [e]) && After(m, s, [e]) == Step(m, s, e);
    Concat(m, INITIAL, es, [e]);
    Concat(m, INITIAL, es + [e], fs);
  }

  // ---------------------------------------------------------------------------------------
  // Where the guarantees stop
  // ---------------------------------------------------------------------------------------

  /** Two runs, one after the other. */
  lemma {:induction false} Concat(m: int, s: State, a: seq<Event>, b: seq<Event>)
    requires Feasible(m, s, a) && Feasible(m, After(m, s, a), b)
    ensures Feasible(m, s, a + b) && After(m, s, a + b) == After(m, After(m, s, a), b)
    decreases |a|
  {
    if a == [] {
      assert a + b == b;
    } else {
      Concat(m, Step(m, s, a[0]), a[1..], b);
      assert (a + b)[1..] == a[1..] + b;
    }
  }

  /** `t` is reached from `s` by a run; `quiet` when it deletes nothing. */
  ghost predicate Reaches(m: int, s: State, t: State, quiet: bool) {
    exists es :: Feasible(m, s, es) && After(m, s, es) == t && (quiet ==> NoDeletes(es))
  }

  lemma {:induction false} Then(m: int, s: State, t: State, u: State, quiet: bool)
    requires Reaches(m, s, t, quiet) && Reaches(m, t, u, quiet)
    ensures Reaches(m, s, u, quiet)
  {
    var a :| Feasible(m, s, a) && After(m, s, a) == t && (quiet ==> NoDeletes(a));
    var b :| Feasible(m, t, b) && After(m, t, b) == u && (quiet ==> NoDeletes(b));
    Concat(m, s, a, b);
    assert Feasible(m, s, a + b) && After(m, s, a + b) == u && (quiet ==> NoDeletes(a + b));
  }

  lemma {:induction false} One(m: int, s: State, e: Event, t: State, quiet: bool)
    requires Enabled(s, e) && Step(m, s, e) == t && (quiet ==> !e.DeleteConversation?)
    ensures Reaches(m, s, t, quiet)
  {
    assert Feasible(m, t, [e][1..]);
    assert Feasible(m, s, [e]) && After(m, s, [e]) == t && (quiet ==> NoDeletes([e]));
  }

  /** One call's bookkeeping, `Step` having replaced it in a list that ends with it. */
  function WithLast(s: State, call: Call): State {
    s.(calls := s.calls + [call])
  }

  /** A new call starts, reads and sends its request. */
  lemma {:induction false} FreshCallSends(m: int, s: State, batch: seq<Message>, quiet: bool)
    requires batch != []
    ensures Reaches(m, s, WithLast(s, Call(batch, NextOrdinal(s.rows), Waiting, 0, 0)), quiet)
  {
    var c := |s.calls|;
    var s1 := WithLast(s, Call(batch, 0, Reading, 0, 0));
    var s2 := WithLast(s, Call(batch, NextOrdinal(s.rows), Ready, 0, 0));
    var s3 := WithLast(s, Call(batch, NextOrdinal(s.rows), Waiting, 0, 0));
    assert Step(m, s1, Read(c)).calls == s2.calls;
    assert Step(m, s2, Send(c)).calls == s3.calls;
    One(m, s, Start(batch), s1, quiet);
    One(m, s1, Read(c), s2, quiet);
    One(m, s2, Send(c), s3, quiet);
    Then(m, s, s1, s2, quiet);
    Then(m, s, s2, s3, quiet);
  }

  /** The server executes the last call's one-turn request. */
  lemma {:induction false} LastExecutes(m: int, s: State, x: Message, first: nat, quiet: bool)
    requires s.parent && first !in s.rows
    ensures var c := |s.calls|;
            Reaches(m, WithLast(s, Call([x], first, Waiting, 0, 0)),
                    WithLast(s.(rows := s.rows[first := Row(c, 0, x)], commits := s.commits + [c]),
                             Call([x], first, Answered(true), 0, 0)), quiet)
  {
    var c := |s.calls|;
    var call := Call([x], first, Waiting, 0, 0);
    var s1 := WithLast(s, call);
    assert BatchRows(c, call) == map[first := Row(c, 0, x)];
    var s2 := WithLast(s.(rows := s.rows[first := Row(c, 0, x)], commits := s.commits + [c]),
                       Call([x], first, Answered(true), 0, 0));
    assert Step(m, s1, Execute(c)).calls == s2.calls;
    assert Step(m, s1, Execute(c)).rows == s2.rows;
    One(m, s1, Execute(c), s2, quiet);
  }

  /** The end of the table is free for a batch that has just read it. */
  lemma {:induction false} FreshInsertFits(s: State, call: Call)
    requires s.parent && call.batch != [] && call.first == NextOrdinal(s.rows)
    ensures Accepts(WithLast(s, call), |s.calls|)
    ensures Appended(s.rows, s.rows + BatchRows(|s.calls|, call), call.first, |s.calls|, call.batch)
  {
    forall o | o in s.rows.Keys
      ensures o !in Slots(call)
    {
    }
    BatchAppends(s.rows, |s.calls|, call);
  }

  /** With the conversation there and nothing in between, a call stores its turns after the highest ordinal
      and returns, whether or not the touch succeeds. */
  lemma {:induction false} UndisturbedCallReturns(m: int, s: State, batch: seq<Message>, ok: bool)
    requires s.parent
    ensures exists t: State :: Reaches(m, s, t, true) && InPhase(t, |s.calls|, Returned) &&
              Appended(s.rows, t.rows, NextOrdinal(s.rows), |s.calls|, batch)
  {
    var c := |s.calls|;
    if batch == [] {
      One(m, s, Start(batch), Step(m, s, Start(batch)), true);
      assert InPhase(Step(m, s, Start(batch)), c, Returned);
    } else {
      var call := Call(batch, NextOrdinal(s.rows), Waiting, 0, 0);
      var sent := WithLast(s, call);
      FreshCallSends(m, s, batch, true);
      FreshInsertFits(s, call);
      var stored := Step(m, sent, Execute(c));
      AcknowledgedReturns(m, stored, c, ok);
      var told := Step(m, stored, Deliver(c));
      One(m, sent, Execute(c), stored, true);
      One(m, stored, Deliver(c), told, true);
      One(m, told, Touch(c, ok), Step(m, told, Touch(c, ok)), true);
      Then(m, s, sent, stored, true);
      Then(m, s, stored, told, true);
      Then(m, s, told, Step(m, told, Touch(c, ok)), true);
    }
  }

  /** The answer to an applied insert is lost; with attempts left its retry conflicts; either way the
      call fails. */
  lemma {:induction false} LostAnswerFails(m: int, x: Message)
    ensures var rows := map[0 := Row(0, 0, x)];
            Reaches(m, State(true, rows, [Call([x], 0, Answered(true), 0, 0)], [0]),
                    State(true, rows, [Call([x], 0, Failed, 1, 0)], [0]), true)
  {
    var rows := map[0 := Row(0, 0, x)];
    var s := State(true, rows, [Call([x], 0, Answered(true), 0, 0)], [0]);
    var s4 := State(true, rows, [Call([x], 0, Failed, 1, 0)], [0]);
    if m < 1 {
      One(m, s, LoseTouch(0), s4, true);
      return;
    }
    var s1 := State(true, rows, [Call([x], 0, Ready, 1, 0)], [0]);
    var s2 := State(true, rows, [Call([x], 0, Waiting, 1, 0)], [0]);
    var s3 := State(true, rows, [Call([x], 0, Answered(false), 1, 0)], [0]);
    assert InSlot(s2.calls[0], 0) && 0 in Slots(s2.calls[0]) && 0 in s2.rows.Keys;
    assert !Accepts(s2, 0);
    One(m, s, LoseTouch(0), s1, true);
    One(m, s1, Send(0), s2, true);
    One(m, s2, Execute(0), s3, true);
    One(m, s3, Deliver(0), s4, true);
    Then(m, s, s1, s2, true);
    Then(m, s, s2, s3, true);
    Then(m, s, s3, s4, true);
  }

  lemma {:induction false} HighestOfOne(row: Row)
    ensures NextOrdinal(map[0 := row]) == 1
  {
    assert map[0 := row].Keys == {0};
  }

  /** The conversation is created and a first one-turn call is executed. */
  lemma {:induction false} FirstTurnExecutes(m: int, x: Message, quiet: bool)
    ensures Reaches(m, INITIAL, State(true, map[0 := Row(0, 0, x)], [Call([x], 0, Answered(true), 0, 0)], [0]), quiet)
  {
    var s := State(true, map[], [], []);
    One(m, INITIAL, Ensure, s, quiet);
    FreshCallSends(m, s, [x], quiet);
    LastExecutes(m, s, x, 0, quiet);
    Then(m, INITIAL, s, WithLast(s, Call([x], 0, Waiting, 0, 0)), quiet);
    Then(m, INITIAL, WithLast(s, Call([x], 0, Waiting, 0, 0)),
         WithLast(s.(rows := s.rows[0 := Row(0, 0, x)], commits := s.commits + [0]),
                  Call([x], 0, Answered(true), 0, 0)), quiet);
  }

  /** An error does not mean "not stored": an applied insert whose answer is lost conflicts with its
      own retry and fails the call, and a second call with the same batch then stores it again. */
  lemma {:induction false} LostAnswerThenReinvocationDuplicates(m: int, x: Message)
    ensures exists t: State :: Reaches(m, INITIAL, t, true) &&
              |t.calls| == 2 && t.calls[0].phase.Failed? && t.calls[1].phase.Answered? && t.calls[1].phase.ok &&
              t.rows == map[0 := Row(0, 0, x), 1 := Row(1, 0, x)]
  {
    var rows := map[0 := Row(0, 0, x)];
    var s1 := State(true, rows, [Call([x], 0, Answered(true), 0, 0)], [0]);
    var s2 := State(true, rows, [Call([x], 0, Failed, 1, 0)], [0]);
    FirstTurnExecutes(m, x, true);
    LostAnswerFails(m, x);
    Then(m, INITIAL, s1, s2, true);
    HighestOfOne(Row(0, 0, x));
    FreshCallSends(m, s2, [x], true);
    LastExecutes(m, s2, x, 1, true);
    var s3 := WithLast(s2, Call([x], 1, Waiting, 0, 0));
    var s4 := WithLast(s2.(rows := rows[1 := Row(1, 0, x)], commits := s2.commits + [1]),
                       Call([x], 1, Answered(true), 0, 0));
    Then(m, INITIAL, s2, s3, true);
    Then(m, INITIAL, s3, s4, true);
    assert s4.rows == map[0 := Row(0, 0, x), 1 := Row(1, 0, x)];
  }

  // ---------------------------------------------------------------------------------------
  // Which deletions are harmless
  // ---------------------------------------------------------------------------------------

  /** A request of this call, sent or still to be sent, may yet be executed. */
  predicate CanStillRun(m: int, call: Call) {
    call.phase.Ready? || call.phase.Waiting? || (call.phase.Answered? && call.attempt + 1 <= m) || call.stale > 0
  }

  /** No request that may yet be executed carries an ordinal other than 0. */
  predicate NothingPending(m: int, s: State) {
    forall c :: 0 <= c < |s.calls| && CanStillRun(m, s.calls[c]) ==> s.calls[c].first == 0
  }

  ghost predicate Contiguous(rows: map<nat, Row>) {
    exists n: nat :: Dense(rows, n)
  }

  /** No pending request leaves a gap. */
  ghost predicate DenseInv(m: int, s: State, n: nat) {
    Dense(s.rows, n) && forall c :: 0 <= c < |s.calls| && CanStillRun(m, s.calls[c]) ==> s.calls[c].first <= n
  }

  lemma {:induction false} InsertKeepsDense(m: int, s: State, c: nat, n: nat)
    requires DenseInv(m, s, n)
    requires c < |s.calls| && CanStillRun(m, s.calls[c])
    ensures exists n': nat :: DenseInv(m, Insert(s, c), n')
  {
    var n' := n;
    var call := s.calls[c];
    if Accepts(s, c) && call.batch != [] {
      assert InSlot(call, call.first) && call.first in Slots(call);
      assert call.first == n;
      n' := n + |call.batch|;
      forall o: nat
        ensures o in Insert(s, c).rows <==> o < n'
      {
        assert o in Insert(s, c).rows <==> o in s.rows || InSlot(call, o);
      }
    } else if Accepts(s, c) {
      assert Slots(call) == {};
      assert Insert(s, c).rows == s.rows;
    }
    assert DenseInv(m, Insert(s, c), n');
  }

  lemma {:induction false} StepKeepsDense(m: int, s: State, e: Event, n: nat)
    requires DenseInv(m, s, n) && Enabled(s, e)
    requires e.DeleteConversation? ==> NothingPending(m, s)
    ensures exists n': nat :: DenseInv(m, Step(m, s, e), n')
  {
    if e.Execute? || e.ExecuteStale? {
      InsertKeepsDense(m, s, e.c, n);
      var n': nat :| DenseInv(m, Insert(s, e.c), n');
      assert DenseInv(m, Step(m, s, e), n');
    } else {
      if e.Read? {
        NextOrdinalOfDense(s.rows, n);
      }
      assert DenseInv(m, Step(m, s, e), if e.DeleteConversation? then 0 else n);
    }
  }

  /** Every deletion of the run happens with nothing pending. */
  predicate HarmlessDeletions(m: int, s: State, es: seq<Event>)
    requires Feasible(m, s, es)
    decreases |es|
  {
    es == [] ||
    ((es[0].DeleteConversation? ==> NothingPending(m, s)) && HarmlessDeletions(m, Step(m, s, es[0]), es[1..]))
  }

  lemma {:induction false} RunKeepsDense(m: int, s: State, es: seq<Event>, n: nat)
    requires DenseInv(m, s, n) && Feasible(m, s, es) && HarmlessDeletions(m, s, es)
    ensures exists n': nat :: DenseInv(m, After(m, s, es), n')
    decreases |es|
  {
    if es == [] {
      assert DenseInv(m, After(m, s, es), n);
    } else {
      StepKeepsDense(m, s, es[0], n);
      var n': nat :| DenseInv(m, Step(m, s, es[0]), n');
      RunKeepsDense(m, Step(m, s, es[0]), es[1..], n');
      var last: nat :| DenseInv(m, After(m, Step(m, s, es[0]), es[1..]), last);
      assert DenseInv(m, After(m, s, es), last);
    }
  }

  /** Ordinals stay 0 .. n-1 through any number of deletions with nothing pending. */
  lemma {:induction false} HarmlessDeletionsKeepContiguity(m: int, es: seq<Event>)
    requires Feasible(m, INITIAL, es) && HarmlessDeletions(m, INITIAL, es)
    ensures Contiguous(After(m, INITIAL, es).rows)
  {
    assert Dense(INITIAL.rows, 0);
    RunKeepsDense(m, INITIAL, es, 0);
    var n: nat :| DenseInv(m, After(m, INITIAL, es), n);
  }

  lemma {:induction false} NoDeletesIsHarmless(m: int, s: State, es: seq<Event>)
    requires Feasible(m, s, es) && NoDeletes(es)
    ensures HarmlessDeletions(m, s, es)
    decreases |es|
  {
    if es != [] {
      assert !es[0].DeleteConversation?;
      NoDeletesIsHarmless(m, Step(m, s, es[0]), es[1..]);
    }
  }

  /** From an empty conversation a pending request runs alone. */
  lemma {:induction false} PendingRuns(m: int, s: State, c: nat) returns (t: State)
    requires s.parent && s.rows == map[] && c < |s.calls| && CanStillRun(m, s.calls[c])
    ensures Reaches(m, s, t, true) && t.rows == BatchRows(c, s.calls[c])
    decreases if s.calls[c].phase.Answered? then 2 else if s.calls[c].phase.Ready? then 1 else 0
  {
    var call := s.calls[c];
    if call.stale > 0 {
      t := Step(m, s, ExecuteStale(c));
      One(m, s, ExecuteStale(c), t, true);
    } else if call.phase.Waiting? {
      t := Step(m, s, Execute(c));
      One(m, s, Execute(c), t, true);
    } else {
      var e := if call.phase.Ready? then Send(c) else LoseTouch(c);
      var next := Step(m, s, e);
      One(m, s, e, next, true);
      assert BatchRows(c, next.calls[c]) == BatchRows(c, call);
      t := PendingRuns(m, next, c);
      Then(m, s, next, t, true);
    }
  }

  lemma {:induction false} GapAtZero(c: nat, call: Call)
    requires call.batch != [] && call.first > 0
    ensures !Contiguous(BatchRows(c, call))
  {
    assert InSlot(call, call.first) && call.first in Slots(call);
    assert call.first in BatchRows(c, call) && 0 !in BatchRows(c, call);
  }

  /** Exactly which deletions are harmless: whatever runs after it without another one, the ordinals are
      0 .. n-1, iff nothing that may yet be executed carries an ordinal other than 0. */
  lemma {:induction false} DeletionIsHarmlessIff(m: int, es: seq<Event>)
    requires Feasible(m, INITIAL, es)
    ensures var s := After(m, INITIAL, es);
            var emptied := Step(m, s, DeleteConversation);
            (forall t :: Reaches(m, emptied, t, true) ==> Contiguous(t.rows)) <==> NothingPending(m, s)
  {
    var s := After(m, INITIAL, es);
    var emptied := Step(m, s, DeleteConversation);
    if NothingPending(m, s) {
      assert DenseInv(m, emptied, 0);
      forall t | Reaches(m, emptied, t, true)
        ensures Contiguous(t.rows)
      {
        var fs :| Feasible(m, emptied, fs) && After(m, emptied, fs) == t && NoDeletes(fs);
        NoDeletesIsHarmless(m, emptied, fs);
        RunKeepsDense(m, emptied, fs, 0);
        var n: nat :| DenseInv(m, After(m, emptied, fs), n);
      }
    } else {
      var c :| 0 <= c < |s.calls| && CanStillRun(m, s.calls[c]) && s.calls[c].first != 0;
      RunKeepsStored(m, INITIAL, es);
      assert CallOk(s, c);
      var reopened := Step(m, emptied, Ensure);
      One(m, emptied, Ensure, reopened, true);
      var t := PendingRuns(m, reopened, c);
      Then(m, emptied, reopened, t, true);
      GapAtZero(c, s.calls[c]);
    }
  }

  /** Contiguity needs the conversation to stay: deleting and recreating it under an appender that
      has already read leaves a gap at 0. */
  lemma {:induction false} DeleteUnderStaleReadLeavesGap(m: int, x: Message, y: Message)
    ensures exists t: State :: Reaches(m, INITIAL, t, false) && t.rows == map[1 := Row(1, 0, y)]
  {
    var s1 := State(true, map[0 := Row(0, 0, x)], [Call([x], 0, Answered(true), 0, 0)], [0]);
    FirstTurnExecutes(m, x, false);
    HighestOfOne(Row(0, 0, x));
    FreshCallSends(m, s1, [y], false);
    var s2 := WithLast(s1, Call([y], 1, Waiting, 0, 0));
    Then(m, INITIAL, s1, s2, false);
    var s3 := s2.(parent := false, rows := map[]);
    var s4 := s2.(rows := map[]);
    One(m, s2, DeleteConversation, s3, false);
    One(m, s3, Ensure, s4, false);
    Then(m, INITIAL, s2, s3, false);
    Then(m, INITIAL, s3, s4, false);
    var emptied := s1.(rows := map[]);
    LastExecutes(m, emptied, y, 1, false);
    var s5 := WithLast(emptied.(rows := map[1 := Row(1, 0, y)], commits := [0, 1]), Call([y], 1, Answered(true), 0, 0));
    Then(m, INITIAL, s4, s5, false);
    assert Reaches(m, INITIAL, s5, false) && s5.rows == map[1 := Row(1, 0, y)];
  }
}
