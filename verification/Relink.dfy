/** Concurrent account relinking: any number of `link` transactions and `unlink` calls on the
    `telegram_links` table. A transaction takes two advisory locks in text order, deletes the
    committed rows sharing either key, inserts its row and commits. Row deletion is by physical
    row, decided from the rows committed when the delete statement runs (READ COMMITTED), and
    nothing a transaction does is visible before it commits. */
module Relink {
  import opened Wrappers

  type Key = string

  datatype Link = Link(user: Key, chat: Key)

  datatype Row = Row(id: nat, link: Link)

  // ---------------------------------------------------------------------------------------
  // The simple meaning: one table, one operation at a time
  // ---------------------------------------------------------------------------------------

  datatype Op = Linked(link: Link) | Unlinked(user: Key)

  predicate Shares(a: Link, b: Link) {
    a.user == b.user || a.chat == b.chat
  }

  /** Drop the links with this user or this chat, then add the new one. */
  function Apply(table: set<Link>, op: Op): set<Link> {
    match op
    case Linked(link) => (set x | x in table && !Shares(x, link)) + {link}
    case Unlinked(user) => set x | x in table && x.user != user
  }

  function Replay(ops: seq<Op>): set<Link> {
    if ops == [] then {} else Apply(Replay(ops[..|ops| - 1]), ops[|ops| - 1])
  }

  /** `op` takes `link` out of any table that holds it. */
  predicate Kills(op: Op, link: Link) {
    match op
    case Linked(other) => other != link && Shares(other, link)
    case Unlinked(user) => user == link.user
  }

  // ---------------------------------------------------------------------------------------
  // The protocol
  // ---------------------------------------------------------------------------------------

  /** `less` is the database's text order and `hash` its lock hash, both left arbitrary. */
  datatype Config = Config(less: (Key, Key) -> bool, hash: Key -> int)

  datatype Stage =
    | Begun
    | HasFirst
    | HasBoth
    | Deleted(doomed: set<nat>)
    | Inserted(doomed: set<nat>, rowId: nat)
    | Committed
    | Aborted

  datatype Txn = Txn(link: Link, stage: Stage)

  /** `log` records the committed operations in commit order. */
  datatype State = State(table: set<Row>, txns: seq<Txn>, nextRow: nat, log: seq<Op>)

  const INITIAL := State({}, [], 0, [])

  datatype Event =
    | Begin(link: Link)
    | LockFirst(i: nat)
    | LockSecond(i: nat)
    | Delete(i: nat)
    | Insert(i: nat)
    | Commit(i: nat)
    | Abort(i: nat)
    | Unlink(user: Key)

  function FirstKey(cfg: Config, link: Link): Key {
    if cfg.less(link.user, link.chat) then link.user else link.chat
  }

  function SecondKey(cfg: Config, link: Link): Key {
    if cfg.less(link.user, link.chat) then link.chat else link.user
  }

  predicate Finished(t: Txn) {
    t.stage.Committed? || t.stage.Aborted?
  }

  /** Transaction-scoped locks: released by commit and by abort. */
  function Held(cfg: Config, t: Txn): set<int> {
    if t.stage.Begun? || Finished(t) then {}
    else if t.stage.HasFirst? then {cfg.hash(FirstKey(cfg, t.link))}
    else {cfg.hash(FirstKey(cfg, t.link)), cfg.hash(SecondKey(cfg, t.link))}
  }

  /** No OTHER transaction holds the lock: taking a lock twice is re-entrant. */
  ghost predicate Free(cfg: Config, s: State, i: nat, lock: int) {
    forall j :: 0 <= j < |s.txns| && j != i ==> lock !in Held(cfg, s.txns[j])
  }

  ghost predicate Enabled(cfg: Config, s: State, e: Event) {
    match e
    case Begin(_) => true
    case Unlink(_) => true
    case LockFirst(i) =>
      i < |s.txns| && s.txns[i].stage.Begun? && Free(cfg, s, i, cfg.hash(FirstKey(cfg, s.txns[i].link)))
    case LockSecond(i) =>
      i < |s.txns| && s.txns[i].stage.HasFirst? && Free(cfg, s, i, cfg.hash(SecondKey(cfg, s.txns[i].link)))
    case Delete(i) => i < |s.txns| && s.txns[i].stage.HasBoth?
    case Insert(i) => i < |s.txns| && s.txns[i].stage.Deleted?
    case Commit(i) => i < |s.txns| && s.txns[i].stage.Inserted?
    case Abort(i) => i < |s.txns| && !Finished(s.txns[i])
  }

  function SetStage(s: State, i: nat, stage: Stage): State
    requires i < |s.txns|
  {
    s.(txns := s.txns[i := s.txns[i].(stage := stage)])
  }

  function Surviving(table: set<Row>, doomed: set<nat>): set<Row> {
    set r | r in table && r.id !in doomed
  }

  ghost function Step(cfg: Config, s: State, e: Event): State
    requires Enabled(cfg, s, e)
  {
    match e
    case Begin(link) => s.(txns := s.txns + [Txn(link, Begun)])
    case LockFirst(i) => SetStage(s, i, HasFirst)
    case LockSecond(i) => SetStage(s, i, HasBoth)
    case Delete(i) =>
      SetStage(s, i, Deleted(set r | r in s.table && Shares(r.link, s.txns[i].link) :: r.id))
    case Insert(i) =>
      SetStage(s, i, Inserted(s.txns[i].stage.doomed, s.nextRow)).(nextRow := s.nextRow + 1)
    case Commit(i) =>
      var t := s.txns[i];
      SetStage(s, i, Committed).(
        table := Surviving(s.table, t.stage.doomed) + {Row(t.stage.rowId, t.link)},
        log := s.log + [Linked(t.link)])
    case Abort(i) => SetStage(s, i, Aborted)
    case Unlink(user) =>
      s.(table := (set r | r in s.table && r.link.user != user), log := s.log + [Unlinked(user)])
  }

  /** `es` can run from `s`, in this order. */
  ghost predicate Feasible(cfg: Config, s: State, es: seq<Event>)
    decreases |es|
  {
    es == [] || (Enabled(cfg, s, es[0]) && Feasible(cfg, Step(cfg, s, es[0]), es[1..]))
  }

  ghost function After(cfg: Config, s: State, es: seq<Event>): State
    requires Feasible(cfg, s, es)
    decreases |es|
  {
    if es == [] then s else After(cfg, Step(cfg, s, es[0]), es[1..])
  }

  lemma {:induction false} Prepend(cfg: Config, s: State, e: Event, es: seq<Event>)
    requires Enabled(cfg, s, e) && Feasible(cfg, Step(cfg, s, e), es)
    ensures Feasible(cfg, s, [e] + es) && After(cfg, s, [e] + es) == After(cfg, Step(cfg, s, e), es)
  {
    assert ([e] + es)[1..] == es;
  }

  /** The operations a run commits, in commit order. */
  ghost function CommitOrder(cfg: Config, s: State, es: seq<Event>): seq<Op>
    requires Feasible(cfg, s, es)
    decreases |es|
  {
    if es == [] then []
    else
      (match es[0]
       case Commit(i) => [Linked(s.txns[i].link)]
       case Unlink(user) => [Unlinked(user)]
       case _ => [])
      + CommitOrder(cfg, Step(cfg, s, es[0]), es[1..])
  }

  lemma {:induction false} LogIsCommitOrder(cfg: Config, s: State, es: seq<Event>)
    requires Feasible(cfg, s, es)
    ensures After(cfg, s, es).log == s.log + CommitOrder(cfg, s, es)
    decreases |es|
  {
    if es != [] {
      LogIsCommitOrder(cfg, Step(cfg, s, es[0]), es[1..]);
    }
  }

  /** A call is answered with what the run did: it has committed iff the run committed it, which is when its
      link was logged, and aborted iff the run aborted it. */
  lemma {:induction false} AnsweredAsRun(cfg: Config, s: State, es: seq<Event>, i: nat)
    requires Feasible(cfg, s, es) && i < |After(cfg, s, es).txns| && (i < |s.txns| ==> !Finished(s.txns[i]))
    ensures After(cfg, s, es).txns[i].stage.Committed? <==> Commit(i) in es
    ensures After(cfg, s, es).txns[i].stage.Aborted? <==> Abort(i) in es
    decreases |es|
  {
    if es != [] {
      var t := Step(cfg, s, es[0]);
      assert es == [es[0]] + es[1..];
      if i < |t.txns| && Finished(t.txns[i]) {
        FinishedStays(cfg, t, es[1..], i);
      } else {
        AnsweredAsRun(cfg, t, es[1..], i);
      }
    }
  }

  lemma {:induction false} FinishedStays(cfg: Config, s: State, es: seq<Event>, i: nat)
    requires Feasible(cfg, s, es) && i < |s.txns| && Finished(s.txns[i])
    ensures i < |After(cfg, s, es).txns| && After(cfg, s, es).txns[i] == s.txns[i]
    ensures Commit(i) !in es && Abort(i) !in es
    decreases |es|
  {
    if es != [] {
      FinishedStays(cfg, Step(cfg, s, es[0]), es[1..], i);
      assert es == [es[0]] + es[1..];
    }
  }

  // ---------------------------------------------------------------------------------------
  // What every step keeps
  // ---------------------------------------------------------------------------------------

  function Links(table: set<Row>): set<Link> {
    set r | r in table :: r.link
  }

  predicate HasDoomed(t: Txn) {
    t.stage.Deleted? || t.stage.Inserted?
  }

  /** No two transactions hold the same lock. */
  ghost predicate Exclusive(cfg: Config, s: State) {
    forall i, j :: 0 <= i < j < |s.txns| ==> Held(cfg, s.txns[i]) !! Held(cfg, s.txns[j])
  }

  ghost predicate RowsWellFormed(s: State) {
    && (forall r :: r in s.table ==> r.id < s.nextRow)
    && (forall r, q :: r in s.table && q in s.table && r.id == q.id ==> r == q)
    && (forall r, q :: r in s.table && q in s.table && Shares(r.link, q.link) ==> r == q)
  }

  /** What transaction `i` will delete is exactly the rows that conflict with it NOW, although
      other transactions have committed since its delete statement ran. */
  ghost predicate DoomedExact(s: State, i: nat)
    requires i < |s.txns|
  {
    var t := s.txns[i];
    HasDoomed(t) ==>
      && (forall d :: d in t.stage.doomed ==> d < s.nextRow)
      && (forall r :: r in s.table ==> (r.id in t.stage.doomed <==> Shares(r.link, t.link)))
  }

  /** The row id transaction `i` is about to commit is new: not in the table, not on any other
      transaction's list of rows to delete, and not pending anywhere else. */
  ghost predicate PendingFresh(s: State, i: nat)
    requires i < |s.txns|
  {
    s.txns[i].stage.Inserted? ==>
      && s.txns[i].stage.rowId < s.nextRow
      && (forall r :: r in s.table ==> r.id != s.txns[i].stage.rowId)
      && (forall j :: 0 <= j < |s.txns| ==> NoClash(s.txns[i].stage.rowId, i, j, s.txns[j]))
  }

  predicate NoClash(rowId: nat, i: nat, j: nat, t: Txn) {
    && (HasDoomed(t) ==> rowId !in t.stage.doomed)
    && (t.stage.Inserted? && j != i ==> t.stage.rowId != rowId)
  }

  /** Every pending transaction dooms exactly the rows that share a key with it and inserts a row of its own. */
  ghost predicate PlansExact(s: State) {
    forall i :: 0 <= i < |s.txns| ==> DoomedExact(s, i) && PendingFresh(s, i)
  }

  ghost predicate Inv(cfg: Config, s: State) {
    && Exclusive(cfg, s)
    && RowsWellFormed(s)
    && PlansExact(s)
    && Links(s.table) == Replay(s.log)
  }

  /** Past its second lock a transaction holds the lock of each of its keys, whatever their order. */
  lemma {:induction false} HoldsBothKeys(cfg: Config, t: Txn)
    requires t.stage.HasBoth? || HasDoomed(t)
    ensures cfg.hash(t.link.user) in Held(cfg, t) && cfg.hash(t.link.chat) in Held(cfg, t)
  {
  }

  /** Two transactions past their second lock never share a key. */
  lemma {:induction false} NoSharedKey(cfg: Config, s: State, i: nat, j: nat)
    requires Exclusive(cfg, s) && i < |s.txns| && j < |s.txns| && i != j
    requires HasDoomed(s.txns[i]) && HasDoomed(s.txns[j])
    ensures !Shares(s.txns[i].link, s.txns[j].link)
  {
    HoldsBothKeys(cfg, s.txns[i]);
    HoldsBothKeys(cfg, s.txns[j]);
    var a, b := Held(cfg, s.txns[i]), Held(cfg, s.txns[j]);
    assert a !! b by {
      if i < j { assert Held(cfg, s.txns[i]) !! Held(cfg, s.txns[j]); }
      else { assert Held(cfg, s.txns[j]) !! Held(cfg, s.txns[i]); }
    }
    assert cfg.hash(s.txns[j].link.user) !in a && cfg.hash(s.txns[j].link.chat) !in a;
  }

  lemma {:induction false} LocksStayExclusive(cfg: Config, s: State, e: Event)
    requires Exclusive(cfg, s) && Enabled(cfg, s, e)
    ensures Exclusive(cfg, Step(cfg, s, e))
  {
    var s' := Step(cfg, s, e);
    forall i, j | 0 <= i < j < |s'.txns|
      ensures Held(cfg, s'.txns[i]) !! Held(cfg, s'.txns[j])
    {
      if j < |s.txns| {
        assert Held(cfg, s.txns[i]) !! Held(cfg, s.txns[j]);
      }
    }
  }

  lemma {:induction false} CommitKeepsRows(cfg: Config, s: State, i: nat)
    requires Inv(cfg, s) && Enabled(cfg, s, Commit(i))
    ensures RowsWellFormed(Step(cfg, s, Commit(i)))
    ensures Links(Step(cfg, s, Commit(i)).table) == Apply(Links(s.table), Linked(s.txns[i].link))
  {
    var t := s.txns[i];
    var s' := Step(cfg, s, Commit(i));
    var newRow := Row(t.stage.rowId, t.link);
    assert DoomedExact(s, i) && PendingFresh(s, i);
    assert forall r :: r in s'.table ==> r == newRow || (r in s.table && !Shares(r.link, t.link));
    forall x | x in Apply(Links(s.table), Linked(t.link))
      ensures x in Links(s'.table)
    {
      if x == t.link {
        assert newRow in s'.table;
      } else {
        var r :| r in s.table && r.link == x;
        assert r in s'.table;
      }
    }
  }

  /** The commit of one transaction leaves the plans of the others exact. */
  lemma {:induction false} CommitKeepsPlans(cfg: Config, s: State, i: nat)
    requires Inv(cfg, s) && Enabled(cfg, s, Commit(i))
    ensures PlansExact(Step(cfg, s, Commit(i)))
  {
    var t, s' := s.txns[i], Step(cfg, s, Commit(i));
    assert PendingFresh(s, i);
    forall j | 0 <= j < |s'.txns|
      ensures DoomedExact(s', j) && PendingFresh(s', j)
    {
      assert DoomedExact(s, j) && PendingFresh(s, j);
      if j != i && HasDoomed(s.txns[j]) {
        NoSharedKey(cfg, s, i, j);
        assert NoClash(t.stage.rowId, i, j, s.txns[j]);
        if s.txns[j].stage.Inserted? {
          forall k | 0 <= k < |s'.txns|
            ensures NoClash(s'.txns[j].stage.rowId, j, k, s'.txns[k])
          {
            assert NoClash(s.txns[j].stage.rowId, j, k, s.txns[k]);
          }
        }
      }
    }
  }

  lemma {:induction false} UnlinkKeepsLinks(cfg: Config, s: State, user: Key)
    ensures Links(Step(cfg, s, Unlink(user)).table) == Apply(Links(s.table), Unlinked(user))
  {
    var table := Step(cfg, s, Unlink(user)).table;
    forall x | x in Apply(Links(s.table), Unlinked(user))
      ensures x in Links(table)
    {
      var r :| r in s.table && r.link == x;
      assert r in table;
    }
  }

  /** The steps that commit nothing. */
  lemma {:induction false} OtherStepsKeepPlans(cfg: Config, s: State, e: Event)
    requires Inv(cfg, s) && Enabled(cfg, s, e) && !e.Commit?
    ensures PlansExact(Step(cfg, s, e))
  {
    var s' := Step(cfg, s, e);
    forall j | 0 <= j < |s'.txns|
      ensures DoomedExact(s', j) && PendingFresh(s', j)
    {
      if j < |s.txns| {
        assert DoomedExact(s, j) && PendingFresh(s, j);
        if s'.txns[j].stage.Inserted? {
          forall k | 0 <= k < |s'.txns|
            ensures NoClash(s'.txns[j].stage.rowId, j, k, s'.txns[k])
          {
            if k < |s.txns| {
              assert DoomedExact(s, k) && PendingFresh(s, k);
              assert s.txns[j].stage.Inserted? ==> NoClash(s.txns[j].stage.rowId, j, k, s.txns[k]);
            }
          }
        }
      }
    }
  }

  /** Every step of every transaction, and every unlink, keeps the invariant. */
  lemma {:induction false} StepKeepsInv(cfg: Config, s: State, e: Event)
    requires Inv(cfg, s) && Enabled(cfg, s, e)
    ensures Inv(cfg, Step(cfg, s, e))
  {
    var s' := Step(cfg, s, e);
    LocksStayExclusive(cfg, s, e);
    if e.Commit? {
      CommitKeepsRows(cfg, s, e.i);
      CommitKeepsPlans(cfg, s, e.i);
    } else {
      OtherStepsKeepPlans(cfg, s, e);
    }
    if e.Unlink? {
      UnlinkKeepsLinks(cfg, s, e.user);
    }
    assert s'.log != s.log ==> s'.log[..|s'.log| - 1] == s.log;
  }

  lemma {:induction false} RunKeepsInv(cfg: Config, s: State, es: seq<Event>)
    requires Inv(cfg, s) && Feasible(cfg, s, es)
    ensures Inv(cfg, After(cfg, s, es))
    decreases |es|
  {
    if es != [] {
      StepKeepsInv(cfg, s, es[0]);
      RunKeepsInv(cfg, Step(cfg, s, es[0]), es[1..]);
    }
  }

  // ---------------------------------------------------------------------------------------
  // Serializability and what follows from it
  // ---------------------------------------------------------------------------------------

  /** For every interleaving, the committed table is the simple operation replayed in commit
      order, and no two committed rows share a user or a chat (no unique constraint is used). */
  lemma {:induction false} Serializable(cfg: Config, es: seq<Event>)
    requires Feasible(cfg, INITIAL, es)
    ensures var s := After(cfg, INITIAL, es);
            && Links(s.table) == Replay(CommitOrder(cfg, INITIAL, es))
            && forall r, q :: r in s.table && q in s.table && Shares(r.link, q.link) ==> r == q
  {
    RunKeepsInv(cfg, INITIAL, es);
    LogIsCommitOrder(cfg, INITIAL, es);
    assert After(cfg, INITIAL, es).log == CommitOrder(cfg, INITIAL, es);
  }

  /** The unique constraints are never what stops a transaction: when it has inserted its row, no
      row it leaves in place and no other uncommitted row shares a key with it. */
  lemma {:induction false} UniqueConstraintsNeverFire(cfg: Config, es: seq<Event>, i: nat)
    requires Feasible(cfg, INITIAL, es)
    requires i < |After(cfg, INITIAL, es).txns| && After(cfg, INITIAL, es).txns[i].stage.Inserted?
    ensures var s := After(cfg, INITIAL, es);
            && (forall r :: r in Surviving(s.table, s.txns[i].stage.doomed) ==> !Shares(r.link, s.txns[i].link))
            && (forall j :: 0 <= j < |s.txns| && j != i && s.txns[j].stage.Inserted? ==>
                  !Shares(s.txns[j].link, s.txns[i].link))
  {
    RunKeepsInv(cfg, INITIAL, es);
    var s := After(cfg, INITIAL, es);
    assert DoomedExact(s, i);
    forall j | 0 <= j < |s.txns| && j != i && s.txns[j].stage.Inserted?
      ensures !Shares(s.txns[j].link, s.txns[i].link)
    {
      NoSharedKey(cfg, s, j, i);
    }
  }

  /** Operation `i` linked it and no later one unlinked its user or relinked either of its keys. */
  predicate LinkedForGood(ops: seq<Op>, i: int, link: Link) {
    0 <= i < |ops| && ops[i] == Linked(link) && forall j :: i < j < |ops| ==> !Kills(ops[j], link)
  }

  /** A link is in the table iff some operation linked it for good: nothing else makes a committed link
      vanish. */
  lemma {:induction false} ReplayMembership(ops: seq<Op>, link: Link)
    ensures link in Replay(ops) <==> exists i :: LinkedForGood(ops, i, link)
    decreases |ops|
  {
    if ops != [] {
      var n := |ops| - 1;
      var front := ops[..n];
      ReplayMembership(front, link);
      if link in Replay(front) && !Kills(ops[n], link) {
        var i :| LinkedForGood(front, i, link);
        assert LinkedForGood(ops, i, link);
      } else if ops[n] == Linked(link) {
        assert LinkedForGood(ops, n, link);
      }
      if i :| LinkedForGood(ops, i, link) {
        assert i < n ==> LinkedForGood(front, i, link);
      }
    }
  }

  /** User to chat is a partial injection after every sequence of operations. */
  lemma {:induction false} ReplayIsInjective(ops: seq<Op>)
    ensures forall a, b :: a in Replay(ops) && b in Replay(ops) && Shares(a, b) ==> a == b
    decreases |ops|
  {
    if ops != [] {
      ReplayIsInjective(ops[..|ops| - 1]);
    }
  }

  lemma {:induction false} ReplayLast(ops: seq<Op>, op: Op)
    ensures Replay(ops + [op]) == Apply(Replay(ops), op)
  {
    assert (ops + [op])[..|ops|] == ops;
  }

  /** Linking again changes nothing exactly when the link is there. */
  lemma {:induction false} RelinkChangesNothingIff(ops: seq<Op>, link: Link)
    ensures Replay(ops + [Linked(link)]) == Replay(ops) <==> link in Replay(ops)
  {
    ReplayLast(ops, Linked(link));
    ReplayIsInjective(ops);
  }

  /** Whatever in `ops` takes `link` out, a later one links it again. */
  predicate RelinkedAfterKills(ops: seq<Op>, link: Link) {
    forall k :: 0 <= k < |ops| && Kills(ops[k], link) ==> exists j :: k < j < |ops| && ops[j] == Linked(link)
  }

  lemma {:induction false} LastLinked(ops: seq<Op>, link: Link) returns (i: nat)
    requires Linked(link) in ops
    ensures i < |ops| && ops[i] == Linked(link) && forall j :: i < j < |ops| ==> ops[j] != Linked(link)
    decreases |ops|
  {
    i := |ops| - 1;
    if ops[i] != Linked(link) {
      assert ops == ops[..i] + [ops[i]];
      i := LastLinked(ops[..i], link);
    }
  }

  lemma {:induction false} RelinkedForGood(ops: seq<Op>, n: nat, between: seq<Op>, link: Link)
    requires 0 < n <= |ops| && ops[n - 1] == Linked(link) && ops[n..] == between
    requires RelinkedAfterKills(between, link)
    ensures exists i :: LinkedForGood(ops, i, link)
  {
    var i := LastLinked(ops, link);
    forall k | 0 <= k < |between| && Kills(between[k], link)
      ensures n + k < i
    {
      var l :| k < l < |between| && between[l] == Linked(link);
      assert ops[n + l] == Linked(link);
    }
    assert forall j :: i < j < |ops| ==> ops[j] == between[j - n];
    assert LinkedForGood(ops, i, link);
  }

  lemma {:induction false} ForGoodIsRelinked(ops: seq<Op>, n: nat, between: seq<Op>, link: Link, i: int)
    requires n <= |ops| && ops[n..] == between && LinkedForGood(ops, i, link)
    ensures RelinkedAfterKills(between, link)
  {
    forall k | 0 <= k < |between| && Kills(between[k], link)
      ensures exists j :: k < j < |between| && between[j] == Linked(link)
    {
      assert Kills(ops[n + k], link) && n + k < i;
      assert between[i - n] == Linked(link);
    }
  }

  lemma {:induction false} LinkSurvivesIff(before: seq<Op>, between: seq<Op>, link: Link)
    ensures link in Replay(before + [Linked(link)] + between) <==> RelinkedAfterKills(between, link)
  {
    var ops, n := before + [Linked(link)] + between, |before| + 1;
    assert ops[n - 1] == Linked(link) && ops[n..] == between;
    ReplayMembership(ops, link);
    if i :| LinkedForGood(ops, i, link) {
      ForGoodIsRelinked(ops, n, between, link, i);
    }
    if RelinkedAfterKills(between, link) {
      RelinkedForGood(ops, n, between, link);
    }
  }

  /** A lost acknowledgement makes `link` insert again, after whatever other calls did in between. The
      retry changes nothing exactly when none of them took the link out for good; otherwise it brings
      the link back and evicts what replaced it. */
  lemma {:induction false} RetryChangesNothingIff(before: seq<Op>, between: seq<Op>, link: Link)
    ensures Replay(before + [Linked(link)] + between + [Linked(link)]) == Replay(before + [Linked(link)] + between)
            <==> RelinkedAfterKills(between, link)
  {
    RelinkChangesNothingIff(before + [Linked(link)] + between, link);
    LinkSurvivesIff(before, between, link);
  }

  // ---------------------------------------------------------------------------------------
  // Deadlock freedom
  // ---------------------------------------------------------------------------------------

  function FirstLock(cfg: Config, link: Link): int {
    cfg.hash(FirstKey(cfg, link))
  }

  function SecondLock(cfg: Config, link: Link): int {
    cfg.hash(SecondKey(cfg, link))
  }

  /** A call that holds lock `a` first can go on to want another one of `locks`. */
  ghost predicate Blocks(cfg: Config, calls: iset<Link>, locks: set<int>, a: int) {
    exists link :: link in calls && FirstLock(cfg, link) == a && SecondLock(cfg, link) in locks - {a}
  }

  /** Locks whose holders can all be waiting for each other. */
  ghost predicate Knot(cfg: Config, calls: iset<Link>, locks: set<int>) {
    locks != {} && forall a {:trigger Blocks(cfg, calls, locks, a)} :: a in locks ==> Blocks(cfg, calls, locks, a)
  }

  ghost predicate Knotless(cfg: Config, calls: iset<Link>) {
    forall locks :: !Knot(cfg, calls, locks)
  }

  /** Every call made so far is one of `calls`. */
  ghost predicate CallsWithin(txns: seq<Txn>, calls: iset<Link>) {
    forall i :: 0 <= i < |txns| ==> txns[i].link in calls
  }

  /** The one step an unfinished transaction waits to take. */
  function Next(s: State, i: nat): Event
    requires i < |s.txns| && !Finished(s.txns[i])
  {
    match s.txns[i].stage
    case Begun => LockFirst(i)
    case HasFirst => LockSecond(i)
    case HasBoth => Delete(i)
    case Deleted(_) => Insert(i)
    case Inserted(_, _) => Commit(i)
  }

  ghost predicate CanMove(cfg: Config, s: State, i: nat) {
    i < |s.txns| && !Finished(s.txns[i]) && Enabled(cfg, s, Next(s, i))
  }

  /** Some transaction is unfinished and none can take its next step. */
  ghost predicate Stuck(cfg: Config, s: State) {
    (exists i :: 0 <= i < |s.txns| && !Finished(s.txns[i])) && forall i: nat :: !CanMove(cfg, s, i)
  }

  /** The locks held by transactions that have only their first one. */
  function WaiterLocks(cfg: Config, txns: seq<Txn>): set<int> {
    set i | 0 <= i < |txns| && txns[i].stage.HasFirst? :: FirstLock(cfg, txns[i].link)
  }

  lemma {:induction false} StuckWaiterBlocks(cfg: Config, calls: iset<Link>, s: State, i: nat)
    requires Exclusive(cfg, s) && CallsWithin(s.txns, calls) && Stuck(cfg, s)
    requires i < |s.txns| && s.txns[i].stage.HasFirst?
    ensures Blocks(cfg, calls, WaiterLocks(cfg, s.txns), FirstLock(cfg, s.txns[i].link))
  {
    var link := s.txns[i].link;
    assert !CanMove(cfg, s, i);
    var j :| 0 <= j < |s.txns| && j != i && SecondLock(cfg, link) in Held(cfg, s.txns[j]);
    assert !CanMove(cfg, s, j);
    assert s.txns[j].stage.HasFirst? && SecondLock(cfg, link) == FirstLock(cfg, s.txns[j].link);
    assert Held(cfg, s.txns[if i < j then i else j]) !! Held(cfg, s.txns[if i < j then j else i]);
    assert FirstLock(cfg, link) in Held(cfg, s.txns[i]);
  }

  lemma {:induction false} StuckHasWaiter(cfg: Config, s: State) returns (w: nat)
    requires Stuck(cfg, s)
    ensures w < |s.txns| && s.txns[w].stage.HasFirst?
  {
    var k :| 0 <= k < |s.txns| && !Finished(s.txns[k]);
    assert !CanMove(cfg, s, k);
    if s.txns[k].stage.Begun? {
      w :| 0 <= w < |s.txns| && w != k && FirstLock(cfg, s.txns[k].link) in Held(cfg, s.txns[w]);
      assert !CanMove(cfg, s, w);
    } else {
      w := k;
    }
  }

  /** In a stuck state the locks of the waiting transactions form a knot. */
  lemma {:induction false} StuckIsKnot(cfg: Config, calls: iset<Link>, s: State)
    requires Exclusive(cfg, s) && CallsWithin(s.txns, calls) && Stuck(cfg, s)
    ensures Knot(cfg, calls, WaiterLocks(cfg, s.txns))
  {
    var locks := WaiterLocks(cfg, s.txns);
    var w := StuckHasWaiter(cfg, s);
    assert FirstLock(cfg, s.txns[w].link) in locks;
    forall a | a in locks
      ensures Blocks(cfg, calls, locks, a)
    {
      var i: nat :| i < |s.txns| && s.txns[i].stage.HasFirst? && FirstLock(cfg, s.txns[i].link) == a;
      StuckWaiterBlocks(cfg, calls, s, i);
    }
  }

  /** When the calls made hold no knot, some unfinished transaction can always move. */
  lemma {:induction false} NoDeadlock(cfg: Config, calls: iset<Link>, s: State)
    requires Knotless(cfg, calls) && CallsWithin(s.txns, calls) && Exclusive(cfg, s)
    requires exists i :: 0 <= i < |s.txns| && !Finished(s.txns[i])
    ensures exists i: nat :: CanMove(cfg, s, i)
  {
    if Stuck(cfg, s) {
      StuckIsKnot(cfg, calls, s);
      assert false;
    }
  }

  // ---------------------------------------------------------------------------------------
  // Every knot can be tied
  // ---------------------------------------------------------------------------------------

  lemma {:induction false} SomeElement<T>(s: set<T>) returns (x: T)
    requires s != {}
    ensures x in s
  {
    x :| x in s;
  }

  /** One call for each of `locks`, which it takes first; its second lock is another one of `all`. */
  ghost predicate Ties(cfg: Config, calls: iset<Link>, links: seq<Link>, locks: set<int>, all: set<int>) {
    && (forall i :: 0 <= i < |links| ==>
          && links[i] in calls && FirstLock(cfg, links[i]) in locks
          && SecondLock(cfg, links[i]) in all - {FirstLock(cfg, links[i])})
    && (forall i, j :: 0 <= i < j < |links| ==> FirstLock(cfg, links[i]) != FirstLock(cfg, links[j]))
    && (forall a {:trigger Taken(cfg, links, a)} :: a in locks ==> Taken(cfg, links, a))
  }

  /** One of the calls takes this lock first. */
  predicate Taken(cfg: Config, links: seq<Link>, a: int) {
    exists i :: 0 <= i < |links| && FirstLock(cfg, links[i]) == a
  }

  lemma {:induction false} KnotTies(cfg: Config, calls: iset<Link>, locks: set<int>, all: set<int>)
    returns (links: seq<Link>)
    requires forall a {:trigger Blocks(cfg, calls, all, a)} :: a in locks ==> Blocks(cfg, calls, all, a)
    ensures Ties(cfg, calls, links, locks, all)
    decreases |locks|
  {
    if locks == {} {
      links := [];
    } else {
      var a := SomeElement(locks);
      var rest := KnotTies(cfg, calls, locks - {a}, all);
      assert Blocks(cfg, calls, all, a);
      var link :| link in calls && FirstLock(cfg, link) == a && SecondLock(cfg, link) in all - {a};
      links := rest + [link];
      forall b | b in locks
        ensures Taken(cfg, links, b)
      {
        if b == a {
          assert links[|rest|] == link;
        } else {
          assert Taken(cfg, rest, b);
          var i :| 0 <= i < |rest| && FirstLock(cfg, rest[i]) == b;
          assert links[i] == rest[i];
        }
      }
    }
  }

  function Waiters(links: seq<Link>): seq<Txn> {
    seq(|links|, i requires 0 <= i < |links| => Txn(links[i], HasFirst))
  }

  lemma {:induction false} Append(cfg: Config, s: State, es: seq<Event>, e: Event)
    requires Feasible(cfg, s, es) && Enabled(cfg, After(cfg, s, es), e)
    ensures Feasible(cfg, s, es + [e]) && After(cfg, s, es + [e]) == Step(cfg, After(cfg, s, es), e)
    decreases |es|
  {
    if es == [] {
      assert ([e])[1..] == [] && es + [e] == [e];
      assert Feasible(cfg, Step(cfg, s, e), [e][1..]);
    } else {
      assert (es + [e])[1..] == es[1..] + [e];
      Append(cfg, Step(cfg, s, es[0]), es[1..], e);
    }
  }

  /** The calls of the run are among `calls`. */
  ghost predicate RunWithin(es: seq<Event>, calls: iset<Link>) {
    forall k :: 0 <= k < |es| && es[k].Begin? ==> es[k].link in calls
  }

  /** Calls with different first locks all begin and take them. */
  lemma {:induction false} AllWait(cfg: Config, calls: iset<Link>, links: seq<Link>)
    requires forall i :: 0 <= i < |links| ==> links[i] in calls
    requires forall i, j :: 0 <= i < j < |links| ==> FirstLock(cfg, links[i]) != FirstLock(cfg, links[j])
    ensures exists es :: Feasible(cfg, INITIAL, es) && RunWithin(es, calls) &&
              After(cfg, INITIAL, es) == State({}, Waiters(links), 0, [])
    decreases |links|
  {
    if links == [] {
      assert Waiters(links) == [] && Feasible(cfg, INITIAL, []);
    } else {
      var n := |links| - 1;
      AllWait(cfg, calls, links[..n]);
      var front :| Feasible(cfg, INITIAL, front) && RunWithin(front, calls) &&
                   After(cfg, INITIAL, front) == State({}, Waiters(links[..n]), 0, []);
      var s := After(cfg, INITIAL, front);
      Append(cfg, INITIAL, front, Begin(links[n]));
      var begun := Step(cfg, s, Begin(links[n]));
      assert begun.txns[n] == Txn(links[n], Begun);
      forall j | 0 <= j < |begun.txns| && j != n
        ensures FirstLock(cfg, links[n]) !in Held(cfg, begun.txns[j])
      {
        assert begun.txns[j] == Txn(links[j], HasFirst);
      }
      Append(cfg, INITIAL, front + [Begin(links[n])], LockFirst(n));
      var es := front + [Begin(links[n])] + [LockFirst(n)];
      assert Step(cfg, begun, LockFirst(n)).txns == Waiters(links);
      assert Feasible(cfg, INITIAL, es) && RunWithin(es, calls);
    }
  }

  /** Given a knot, one call per lock, each taking its first lock, leaves everybody waiting. */
  lemma {:induction false} KnotGetsStuck(cfg: Config, calls: iset<Link>, locks: set<int>)
    requires Knot(cfg, calls, locks)
    ensures exists es :: Feasible(cfg, INITIAL, es) && RunWithin(es, calls) && Stuck(cfg, After(cfg, INITIAL, es))
  {
    var links := KnotTies(cfg, calls, locks, locks);
    AllWait(cfg, calls, links);
    var es :| Feasible(cfg, INITIAL, es) && RunWithin(es, calls) &&
              After(cfg, INITIAL, es) == State({}, Waiters(links), 0, []);
    var s := After(cfg, INITIAL, es);
    var a := SomeElement(locks);
    assert Taken(cfg, links, a) && !Finished(s.txns[0]);
    forall i: nat
      ensures !CanMove(cfg, s, i)
    {
      if i < |links| {
        var wanted := SecondLock(cfg, links[i]);
        assert Taken(cfg, links, wanted);
        var j :| 0 <= j < |links| && FirstLock(cfg, links[j]) == wanted;
        assert j != i && wanted in Held(cfg, s.txns[j]);
        assert !Free(cfg, s, i, wanted);
      }
    }
    assert Stuck(cfg, After(cfg, INITIAL, es));
  }

  lemma {:induction false} CallsStayWithin(cfg: Config, calls: iset<Link>, s: State, es: seq<Event>)
    requires Feasible(cfg, s, es) && RunWithin(es, calls) && CallsWithin(s.txns, calls)
    ensures CallsWithin(After(cfg, s, es).txns, calls)
    decreases |es|
  {
    if es != [] {
      CallsStayWithin(cfg, calls, Step(cfg, s, es[0]), es[1..]);
    }
  }

  /** Exactly when the protocol cannot deadlock: no run of these calls, however many and however they
      interleave, is ever stuck iff they hold no knot. */
  lemma {:induction false} DeadlockFreeIff(cfg: Config, calls: iset<Link>)
    ensures (forall es :: Feasible(cfg, INITIAL, es) && RunWithin(es, calls) ==> !Stuck(cfg, After(cfg, INITIAL, es)))
            <==> Knotless(cfg, calls)
  {
    if Knotless(cfg, calls) {
      forall es | Feasible(cfg, INITIAL, es) && RunWithin(es, calls)
        ensures !Stuck(cfg, After(cfg, INITIAL, es))
      {
        RunKeepsInv(cfg, INITIAL, es);
        CallsStayWithin(cfg, calls, INITIAL, es);
        if Stuck(cfg, After(cfg, INITIAL, es)) {
          StuckIsKnot(cfg, calls, After(cfg, INITIAL, es));
        }
      }
    } else {
      var locks :| Knot(cfg, calls, locks);
      KnotGetsStuck(cfg, calls, locks);
    }
  }

  /** Every pairing of one of these users with one of these chats. */
  ghost function Pairs(users: iset<Key>, chats: iset<Key>): iset<Link> {
    iset link: Link | link.user in users && link.chat in chats
  }

  /** A user and a chat whose first lock is `a` and whose second is another one of `locks`. */
  ghost predicate PairBlocks(cfg: Config, users: iset<Key>, chats: iset<Key>, locks: set<int>, a: int) {
    exists u, c ::
      u in users && c in chats && FirstLock(cfg, Link(u, c)) == a && SecondLock(cfg, Link(u, c)) in locks - {a}
  }

  ghost predicate PairKnot(cfg: Config, users: iset<Key>, chats: iset<Key>, locks: set<int>) {
    && locks != {}
    && forall a {:trigger PairBlocks(cfg, users, chats, locks, a)} ::
         a in locks ==> PairBlocks(cfg, users, chats, locks, a)
  }

  /** For calls that pair a user with a chat: exactly when the locks of some users and chats form no knot. */
  lemma {:induction false} DeadlockFreePairsIff(cfg: Config, users: iset<Key>, chats: iset<Key>)
    ensures (forall es :: Feasible(cfg, INITIAL, es) && RunWithin(es, Pairs(users, chats)) ==>
               !Stuck(cfg, After(cfg, INITIAL, es)))
            <==> forall locks :: !PairKnot(cfg, users, chats, locks)
  {
    var calls := Pairs(users, chats);
    DeadlockFreeIff(cfg, calls);
    forall locks: set<int>
      ensures PairKnot(cfg, users, chats, locks) <==> Knot(cfg, calls, locks)
    {
      forall a: int
        ensures PairBlocks(cfg, users, chats, locks, a) <==> Blocks(cfg, calls, locks, a)
      {
        if Blocks(cfg, calls, locks, a) {
          var link :| link in calls && FirstLock(cfg, link) == a && SecondLock(cfg, link) in locks - {a};
          assert link == Link(link.user, link.chat);
        }
        if PairBlocks(cfg, users, chats, locks, a) {
          var u, c :|
            u in users && c in chats && FirstLock(cfg, Link(u, c)) == a && SecondLock(cfg, Link(u, c)) in locks - {a};
          assert Link(u, c) in calls;
        }
      }
    }
  }

  // ---------------------------------------------------------------------------------------
  // Hashes that hold no knot
  // ---------------------------------------------------------------------------------------

  ghost predicate StrictTotal(less: (Key, Key) -> bool) {
    && (forall a :: !less(a, a))
    && (forall a, b, c :: less(a, b) && less(b, c) ==> less(a, c))
    && (forall a, b :: a != b ==> less(a, b) || less(b, a))
  }

  /** Among these keys, two that share a lock share it with every key between them in text order. */
  ghost predicate Convex(cfg: Config, keys: iset<Key>) {
    forall x, y, z :: x in keys && y in keys && z in keys && cfg.less(x, y) && cfg.less(y, z) ==>
      cfg.hash(x) == cfg.hash(z) ==> cfg.hash(y) == cfg.hash(x)
  }

  /** No two of these keys share a lock. */
  ghost predicate CollisionFree(cfg: Config, keys: iset<Key>) {
    forall x, y :: x in keys && y in keys && cfg.hash(x) == cfg.hash(y) ==> x == y
  }

  /** One of the links has the greatest first key. */
  lemma {:induction false} GreatestFirst(cfg: Config, links: seq<Link>) returns (m: nat)
    requires StrictTotal(cfg.less) && links != []
    ensures m < |links|
    ensures forall i :: 0 <= i < |links| ==> !cfg.less(FirstKey(cfg, links[m]), FirstKey(cfg, links[i]))
    decreases |links|
  {
    var last := |links| - 1;
    if last == 0 {
      m := 0;
    } else {
      m := GreatestFirst(cfg, links[..last]);
      var best, other := FirstKey(cfg, links[m]), FirstKey(cfg, links[last]);
      assert forall i :: 0 <= i < last ==> !cfg.less(best, FirstKey(cfg, links[..last][i]));
      if cfg.less(best, other) {
        forall i | 0 <= i < last
          ensures !cfg.less(other, FirstKey(cfg, links[i]))
        {
          assert !cfg.less(best, FirstKey(cfg, links[..last][i]));
        }
        m := last;
      }
    }
  }

  /** A knot of pairs of these keys gives three keys against convexity: the holder of the lock the greatest
      first key's call wants has a smaller first key with that lock. */
  lemma {:induction false} KnotAgainstConvex(cfg: Config, keys: iset<Key>, locks: set<int>)
    requires StrictTotal(cfg.less) && Knot(cfg, Pairs(keys, keys), locks)
    ensures !Convex(cfg, keys)
  {
    var links := KnotTies(cfg, Pairs(keys, keys), locks, locks);
    var a := SomeElement(locks);
    assert Taken(cfg, links, a);
    var m := GreatestFirst(cfg, links);
    assert Taken(cfg, links, SecondLock(cfg, links[m]));
    var j :| 0 <= j < |links| && FirstLock(cfg, links[j]) == SecondLock(cfg, links[m]);
    var x, y, z := FirstKey(cfg, links[j]), FirstKey(cfg, links[m]), SecondKey(cfg, links[m]);
    assert x in keys && y in keys && z in keys;
    assert cfg.hash(x) == cfg.hash(z) && cfg.hash(y) != cfg.hash(x);
    assert cfg.less(x, y) && cfg.less(y, z);
  }

  lemma {:induction false} NotConvexIsKnot(cfg: Config, keys: iset<Key>)
    requires !Convex(cfg, keys)
    ensures !Knotless(cfg, Pairs(keys, keys))
  {
    var x, y, z :| x in keys && y in keys && z in keys && cfg.less(x, y) && cfg.less(y, z) &&
                   cfg.hash(x) == cfg.hash(z) && cfg.hash(y) != cfg.hash(x);
    CrossedPairsAreKnot(cfg, Pairs(keys, keys), x, y, z, y);
  }

  /** When any two of the keys may be paired, no knot means convex. */
  lemma {:induction false} KnotlessIffConvex(cfg: Config, keys: iset<Key>)
    requires StrictTotal(cfg.less)
    ensures Knotless(cfg, Pairs(keys, keys)) <==> Convex(cfg, keys)
  {
    if Convex(cfg, keys) {
      if !Knotless(cfg, Pairs(keys, keys)) {
        var locks :| Knot(cfg, Pairs(keys, keys), locks);
        KnotAgainstConvex(cfg, keys, locks);
      }
    } else {
      NotConvexIsKnot(cfg, keys);
    }
  }

  /** Two calls whose locks collide crosswise. */
  lemma {:induction false} CrossedPairsAreKnot(cfg: Config, calls: iset<Link>, a: Key, b: Key, c: Key, d: Key)
    requires cfg.less(a, d) && cfg.less(b, c) && Link(a, d) in calls && Link(b, c) in calls
    requires cfg.hash(a) == cfg.hash(c) && cfg.hash(b) == cfg.hash(d) && cfg.hash(a) != cfg.hash(b)
    ensures Knot(cfg, calls, {cfg.hash(a), cfg.hash(b)})
  {
    var locks := {cfg.hash(a), cfg.hash(b)};
    assert FirstLock(cfg, Link(a, d)) == cfg.hash(a) && SecondLock(cfg, Link(a, d)) in locks - {cfg.hash(a)};
    assert FirstLock(cfg, Link(b, c)) == cfg.hash(b) && SecondLock(cfg, Link(b, c)) in locks - {cfg.hash(b)};
  }

  lemma {:induction false} FewerCallsFewerKnots(cfg: Config, calls: iset<Link>, more: iset<Link>)
    requires calls <= more && Knotless(cfg, more)
    ensures Knotless(cfg, calls)
  {
    forall locks
      ensures !Knot(cfg, calls, locks)
    {
      assert !Knot(cfg, more, locks);
      assert forall a :: Blocks(cfg, calls, locks, a) ==> Blocks(cfg, more, locks, a);
    }
  }

  /** What the fixed lock order relies on: without collisions no calls on the keys hold a knot. */
  lemma {:induction false} CollisionFreeIsKnotless(cfg: Config, keys: iset<Key>, calls: iset<Link>)
    requires StrictTotal(cfg.less) && CollisionFree(cfg, keys)
    requires forall link :: link in calls ==> link.user in keys && link.chat in keys
    ensures Knotless(cfg, calls)
  {
    assert forall x, y :: cfg.less(x, y) ==> !cfg.less(y, x);
    assert Convex(cfg, keys);
    KnotlessIffConvex(cfg, keys);
    FewerCallsFewerKnots(cfg, calls, Pairs(keys, keys));
  }

  /** Keeping users and chats apart helps: with one chat that follows every user in text order no calls hold
      a knot, whatever collides. */
  lemma {:induction false} OneChatNeverDeadlocks(cfg: Config, users: iset<Key>, chat: Key)
    requires forall u :: u in users ==> cfg.less(u, chat)
    ensures Knotless(cfg, Pairs(users, iset{chat}))
  {
    var calls := Pairs(users, iset{chat});
    forall locks
      ensures !Knot(cfg, calls, locks)
    {
      assert forall link :: link in calls ==> SecondLock(cfg, link) == cfg.hash(chat);
      assert !Blocks(cfg, calls, locks, cfg.hash(chat));
      if locks != {} {
        var a := SomeElement(locks);
        assert Blocks(cfg, calls, locks, a) ==> cfg.hash(chat) in locks;
      }
    }
  }

  /** Two pairs of keys whose locks collide crosswise give a reachable state in which neither transaction
      can ever move. */
  lemma {:induction false} CollidingLocksCanDeadlock(cfg: Config, a: Key, b: Key, c: Key, d: Key)
    returns (es: seq<Event>)
    requires cfg.less(a, d) && cfg.less(b, c)
    requires cfg.hash(a) == cfg.hash(c) && cfg.hash(b) == cfg.hash(d) && cfg.hash(a) != cfg.hash(b)
    ensures Feasible(cfg, INITIAL, es)
    ensures var s := After(cfg, INITIAL, es);
            |s.txns| == 2 && forall i :: 0 <= i < 2 ==> !Finished(s.txns[i]) && !CanMove(cfg, s, i)
    ensures RunWithin(es, iset{Link(a, d), Link(b, c)})
  {
    var first, second := Link(a, d), Link(b, c);
    var s1 := Step(cfg, INITIAL, Begin(first));
    var s2 := Step(cfg, s1, Begin(second));
    assert s2.txns == [Txn(first, Begun), Txn(second, Begun)];
    var s3 := Step(cfg, s2, LockFirst(0));
    assert Held(cfg, s3.txns[0]) == {cfg.hash(a)};
    var s4 := Step(cfg, s3, LockFirst(1));
    assert s4.txns == [Txn(first, HasFirst), Txn(second, HasFirst)];
    Prepend(cfg, s3, LockFirst(1), []);
    Prepend(cfg, s2, LockFirst(0), [LockFirst(1)]);
    Prepend(cfg, s1, Begin(second), [LockFirst(0)] + [LockFirst(1)]);
    es := [Begin(first)] + ([Begin(second)] + ([LockFirst(0)] + [LockFirst(1)]));
    Prepend(cfg, INITIAL, Begin(first), [Begin(second)] + ([LockFirst(0)] + [LockFirst(1)]));
    assert [LockFirst(1)] + [] == [LockFirst(1)];
    assert Held(cfg, s4.txns[0]) == {cfg.hash(a)} && Held(cfg, s4.txns[1]) == {cfg.hash(b)};
  }

  // ---------------------------------------------------------------------------------------
  // Every transaction of a finite set finishes
  // ---------------------------------------------------------------------------------------

  function Remaining(t: Txn): nat {
    match t.stage
    case Begun => 5
    case HasFirst => 4
    case HasBoth => 3
    case Deleted(_) => 2
    case Inserted(_, _) => 1
    case _ => 0
  }

  function Work(txns: seq<Txn>): nat {
    if txns == [] then 0 else Remaining(txns[0]) + Work(txns[1..])
  }

  lemma {:induction false} WorkAfterUpdate(txns: seq<Txn>, i: nat, t: Txn)
    requires i < |txns|
    ensures Work(txns[i := t]) + Remaining(txns[i]) == Work(txns) + Remaining(t)
    decreases |txns|
  {
    if i == 0 {
      assert txns[0 := t][1..] == txns[1..];
    } else {
      WorkAfterUpdate(txns[1..], i - 1, t);
      assert txns[i := t][1..] == txns[1..][i - 1 := t];
    }
  }

  /** Steps taken by transactions, as opposed to unlinks. */
  function TxnSteps(es: seq<Event>): nat {
    if es == [] then 0 else (if es[0].Unlink? then 0 else 1) + TxnSteps(es[1..])
  }

  /** Once no new call arrives, only finitely many transaction steps remain, whoever takes them. */
  lemma {:induction false} RunsAreBounded(cfg: Config, s: State, es: seq<Event>)
    requires Feasible(cfg, s, es)
    requires forall k :: 0 <= k < |es| ==> !es[k].Begin?
    ensures TxnSteps(es) + Work(After(cfg, s, es).txns) <= Work(s.txns)
    decreases |es|
  {
    if es != [] {
      var e := es[0];
      if !e.Unlink? {
        assert !e.Begin?;
        WorkAfterUpdate(s.txns, e.i, Step(cfg, s, e).txns[e.i]);
      }
      RunsAreBounded(cfg, Step(cfg, s, e), es[1..]);
    }
  }

  lemma {:induction false} MoveLowersWork(cfg: Config, s: State, i: nat)
    requires CanMove(cfg, s, i)
    ensures var s' := Step(cfg, s, Next(s, i));
            && Work(s'.txns) < Work(s.txns)
            && s'.txns == s.txns[i := s'.txns[i]]
            && s'.txns[i].link == s.txns[i].link && !s'.txns[i].stage.Aborted? && !s.txns[i].stage.Aborted?
  {
    WorkAfterUpdate(s.txns, i, Step(cfg, s, Next(s, i)).txns[i]);
  }

  /** `t` ends `s` with every call answered: an aborted one stays aborted, the others commit. */
  ghost predicate AllAnswered(s: State, t: State) {
    && |t.txns| == |s.txns|
    && forall i :: 0 <= i < |s.txns| ==>
         && t.txns[i].link == s.txns[i].link
         && (if s.txns[i].stage.Aborted? then t.txns[i].stage.Aborted? else t.txns[i].stage.Committed?)
  }

  predicate SameLinks(a: seq<Txn>, b: seq<Txn>) {
    |a| == |b| && forall i :: 0 <= i < |a| ==> a[i].link == b[i].link
  }

  lemma {:induction false} MoveTowardsAnswers(cfg: Config, s: State, i: nat)
    requires CanMove(cfg, s, i) && Exclusive(cfg, s)
    ensures var next := Step(cfg, s, Next(s, i));
            && Exclusive(cfg, next) && SameLinks(s.txns, next.txns) && Work(next.txns) < Work(s.txns)
            && forall t :: AllAnswered(next, t) ==> AllAnswered(s, t)
    ensures !Next(s, i).Begin? && !Next(s, i).Abort? && !Next(s, i).Unlink?
  {
    MoveLowersWork(cfg, s, i);
    LocksStayExclusive(cfg, s, Next(s, i));
  }

  /** The run answers every call, with no new call, no abort and no unlink. */
  ghost predicate AnswersAll(cfg: Config, s: State, es: seq<Event>) {
    && Feasible(cfg, s, es) && AllAnswered(s, After(cfg, s, es))
    && forall k :: 0 <= k < |es| ==> !es[k].Begin? && !es[k].Abort? && !es[k].Unlink?
  }

  lemma {:induction false} MoveThenAnswers(cfg: Config, s: State, i: nat, rest: seq<Event>)
    requires CanMove(cfg, s, i) && AnswersAll(cfg, Step(cfg, s, Next(s, i)), rest)
    requires AllAnswered(s, After(cfg, Step(cfg, s, Next(s, i)), rest))
    ensures AnswersAll(cfg, s, [Next(s, i)] + rest)
  {
    Prepend(cfg, s, Next(s, i), rest);
  }

  /** When the calls made hold no knot, from every reachable state some run without any abort commits every
      transaction that has not already aborted. */
  lemma {:induction false} EveryoneCanCommit(cfg: Config, calls: iset<Link>, s: State)
    requires Knotless(cfg, calls) && CallsWithin(s.txns, calls) && Exclusive(cfg, s)
    ensures exists es :: AnswersAll(cfg, s, es)
    decreases Work(s.txns)
  {
    if exists i :: 0 <= i < |s.txns| && !Finished(s.txns[i]) {
      NoDeadlock(cfg, calls, s);
      var i: nat :| CanMove(cfg, s, i);
      MoveTowardsAnswers(cfg, s, i);
      EveryoneCanCommit(cfg, calls, Step(cfg, s, Next(s, i)));
      var rest :| AnswersAll(cfg, Step(cfg, s, Next(s, i)), rest);
      MoveThenAnswers(cfg, s, i, rest);
    } else {
      assert AnswersAll(cfg, s, []);
    }
  }

  // ---------------------------------------------------------------------------------------
  // The repository, one caller at a time
  // ---------------------------------------------------------------------------------------

  class TelegramLinks {
    var rows: set<Link>
    ghost var log: seq<Op>

    ghost predicate Valid()
      reads this
    {
      rows == Replay(log)
    }

    constructor ()
      ensures Valid() && rows == {}
    {
      rows, log := {}, [];
    }

    /** The insert and the trigger it fires: delete both keys' rows, then add the new one. */
    method InsertRow(link: Link)
      requires Valid()
      modifies this
      ensures Valid() && log == old(log) + [Linked(link)]
      ensures rows == Apply(old(rows), Linked(link))
    {
      rows := set x | x in rows && !(x.user == link.user || x.chat == link.chat);
      rows := rows + {link};
      log := log + [Linked(link)];
      assert log[..|log| - 1] == old(log);
    }

    /** `link` under a retry policy: `lostAcks` attempts were applied but their answer was lost. */
    method LinkAccount(link: Link, lostAcks: nat)
      requires Valid()
      modifies this
      ensures Valid() && rows == Apply(old(rows), Linked(link))
      ensures forall x :: x in rows && Shares(x, link) ==> x == link
    {
      InsertRow(link);
      for k := 0 to lostAcks
        invariant Valid() && rows == Apply(old(rows), Linked(link))
      {
        InsertRow(link);
      }
    }

    method Unlink(user: Key)
      requires Valid()
      modifies this
      ensures Valid() && rows == Apply(old(rows), Unlinked(user))
    {
      rows := set x | x in rows && x.user != user;
      log := log + [Unlinked(user)];
      assert log[..|log| - 1] == old(log);
    }

    /** At most one row can answer, so taking the first one returned is no choice. */
    method GetByUserId(user: Key) returns (found: Option<Link>)
      requires Valid()
      ensures found.None? ==> forall x :: x in rows ==> x.user != user
      ensures found.Some? ==> found.value in rows && forall x :: x in rows ==> (x.user == user <==> x == found.value)
    {
      ReplayIsInjective(log);
      var matching := set x | x in rows && x.user == user;
      assert forall x :: x in rows && x.user == user ==> x in matching;
      if matching == {} {
        return None;
      }
      var row :| row in matching;
      return Some(row);
    }

    method GetByChatId(chat: Key) returns (found: Option<Link>)
      requires Valid()
      ensures found.None? ==> forall x :: x in rows ==> x.chat != chat
      ensures found.Some? ==> found.value in rows && forall x :: x in rows ==> (x.chat == chat <==> x == found.value)
    {
      ReplayIsInjective(log);
      var matching := set x | x in rows && x.chat == chat;
      assert forall x :: x in rows && x.chat == chat ==> x in matching;
      if matching == {} {
        return None;
      }
      var row :| row in matching;
      return Some(row);
    }
  }
}
