/** The admin endpoints: the filtered listing, the status transition that
    writes the audit trail, and the read-back of an issue's trail. Every
    endpoint first passes the constructor's two middlewares: auth:sanctum
    (401) and the role check (403). */
module AdminController {
  import opened Domain
  import opened Sequences
  import opened Schema
  import opened IssueScopes
  import IssueController

  /** The constructor's middlewares: an unknown requester is unauthenticated,
      a known one whose role is not admin is refused; otherwise the request
      proceeds as that admin. The gate reads and writes nothing else. */
  function Gate(db: Db, requester: Option<UserId>): (r: Result<UserId>)
    ensures r.Ok? <==> requester.Some? && requester.value in db.users && db.users[requester.value] == Admin
    ensures r.Ok? ==> r.value == requester.value
    ensures r.Err? ==> r.failure == (if IssueController.Authenticated(db, requester) then Forbidden else Unauthenticated)
  {
    if requester.None? || requester.value !in db.users then Err(Unauthenticated)
    else if db.users[requester.value] != Admin then Err(Forbidden)
    else Ok(requester.value)
  }

  /** `getIssues`: the gate, then the same scoped, newest-first query the
      public index runs. */
  method GetIssues(db: Db, requester: Option<UserId>, category: Option<string>, status: Option<string>)
    returns (r: Result<seq<Issue>>)
    requires TableWellFormed(db)
    ensures Gate(db, requester).Err? ==> r == Err(Gate(db, requester).failure)
    ensures r.Ok? <==> Gate(db, requester).Ok?
    ensures r.Ok? ==>
      && (forall x :: x in r.value <==> InTable(db, x) && MatchesCategory(category, x) && MatchesStatus(status, x))
      && Distinct(r.value)
      && (forall i, j | 0 <= i < j < |r.value| :: r.value[i].createdAt >= r.value[j].createdAt)
  {
    var gate := Gate(db, requester);
    if gate.Err? {
      return Err(gate.failure);
    }
    var issues := IssueController.Index(db, category, status);
    return Ok(issues);
  }

  /** `updateStatus`: gate, binding, validation of the requested status, the
      no-op check, then the issue's status is overwritten and exactly one
      audit record is appended. Runs as one sequential step; `now` is the
      clock reading the new record is stamped with. The second component is
      the updated issue. */
  function UpdateStatus(db: Db, requester: Option<UserId>, id: IssueId, input: Option<string>, now: int)
    : (r: Result<(Db, Issue)>)
    ensures Gate(db, requester).Err? ==> r == Err(Gate(db, requester).failure)
    ensures Gate(db, requester).Ok? && id !in db.issues ==> r == Err(NotFound)
    ensures Gate(db, requester).Ok? && id in db.issues && (input.None? || ParseStatus(input.value).None?)
      ==> r == Err(Invalid)
    ensures Gate(db, requester).Ok? && id in db.issues && input.Some? && ParseStatus(input.value) == Some(db.issues[id].status)
      ==> r == Err(AlreadyInStatus)
    ensures r.Ok? <==> (Gate(db, requester).Ok? && id in db.issues && input.Some?
      && ParseStatus(input.value).Some? && ParseStatus(input.value).value != db.issues[id].status)
    ensures r.Ok? ==>
      var (db', issue) := r.value;
      var before := db.issues[id];
      && StatusName(issue.status) == input.value
      && issue == before.(status := issue.status)
      && db'.issues == db.issues[id := issue]
      && db'.users == db.users && db'.nextIssueId == db.nextIssueId
      && |db'.updates| == |db.updates| + 1
      && db'.updates[..|db.updates|] == db.updates
      && db'.updates[|db.updates|] == IssueUpdate(id, before.status, issue.status, requester.value, now)
      && before.status != issue.status
      && RowAdmitted(db', db'.updates[|db.updates|])
  {
    match Gate(db, requester)
    case Err(e) => Err(e)
    case Ok(admin) =>
      if id !in db.issues then Err(NotFound)
      else if input.None? || ParseStatus(input.value).None? then Err(Invalid)
      else
        var requested := ParseStatus(input.value).value;
        var before := db.issues[id];
        if before.status == requested then Err(AlreadyInStatus)
        else
          var issue := before.(status := requested);
          var record := IssueUpdate(id, before.status, requested, admin, now);
          Ok((db.(issues := db.issues[id := issue], updates := db.updates + [record]), issue))
  }

  /** A successful transition adds exactly one record to the issue's own trail
      and leaves every other issue's trail and status as they were. */
  lemma UpdateStatusTouchesOneTrail(db: Db, requester: Option<UserId>, id: IssueId,
                                    input: Option<string>, now: int, k: IssueId)
    requires UpdateStatus(db, requester, id, input, now).Ok?
    ensures var db' := UpdateStatus(db, requester, id, input, now).value.0;
      && |PerIssue(db'.updates, k)| == |PerIssue(db.updates, k)| + (if k == id then 1 else 0)
      && (k != id ==> PerIssue(db'.updates, k) == PerIssue(db.updates, k))
      && (k != id && k in db.issues ==> db'.issues[k] == db.issues[k])
  {
    var db' := UpdateStatus(db, requester, id, input, now).value.0;
    assert db'.updates == db.updates + [db'.updates[|db.updates|]];
    PerIssueAppend(db.updates, db'.updates[|db.updates|], k);
  }

  /** A successful transition keeps the database valid; in particular the
      issue's trail still chains and now ends at the new status. */
  lemma UpdateStatusPreservesValid(db: Db, requester: Option<UserId>, id: IssueId, input: Option<string>, now: int)
    requires Valid(db)
    requires UpdateStatus(db, requester, id, input, now).Ok?
    ensures Valid(UpdateStatus(db, requester, id, input, now).value.0)
  {
    var (db', issue) := UpdateStatus(db, requester, id, input, now).value;
    var record := db'.updates[|db.updates|];
    assert db'.updates == db.updates + [record];
    forall k | k in db'.issues
      ensures Chain(PerIssue(db'.updates, k), db'.issues[k].status)
    {
      PerIssueAppend(db.updates, record, k);
      if k == id {
        ChainExtend(PerIssue(db.updates, k), db.issues[k].status, record);
      }
    }
  }

  /** A request in a replayed sequence of transition attempts. */
  datatype TransitionRequest = TransitionRequest(requester: Option<UserId>, id: IssueId, status: Option<string>, now: int)

  /** Runs transition attempts in order; a failed attempt changes nothing.
      The second component lists the issues whose attempts committed. */
  function Replay(db: Db, reqs: seq<TransitionRequest>): (Db, seq<IssueId>)
    decreases |reqs|
  {
    if reqs == [] then (db, [])
    else
      var q := reqs[0];
      match UpdateStatus(db, q.requester, q.id, q.status, q.now)
      case Err(_) => Replay(db, reqs[1..])
      case Ok((db', _)) =>
        var (final, committed) := Replay(db', reqs[1..]);
        (final, [q.id] + committed)
  }

  /** Over any sequence of transition attempts the database stays valid, so
      every issue's trail chains from record to record and ends at the
      issue's current status, and each issue's trail grows by exactly the
      number of attempts on it that committed. */
  lemma {:induction false} ReplayKeepsTrails(db: Db, reqs: seq<TransitionRequest>)
    requires Valid(db)
    ensures var (final, committed) := Replay(db, reqs);
      && Valid(final)
      && (forall k | k in final.issues :: Chain(PerIssue(final.updates, k), final.issues[k].status))
      && (forall k :: |PerIssue(final.updates, k)| == |PerIssue(db.updates, k)| + multiset(committed)[k])
    decreases |reqs|
  {
    if reqs != [] {
      var q := reqs[0];
      var step := UpdateStatus(db, q.requester, q.id, q.status, q.now);
      if step.Ok? {
        var db' := step.value.0;
        UpdateStatusPreservesValid(db, q.requester, q.id, q.status, q.now);
        ReplayKeepsTrails(db', reqs[1..]);
        var (final, committed) := Replay(db', reqs[1..]);
        assert Replay(db, reqs) == (final, [q.id] + committed);
        forall k
          ensures |PerIssue(final.updates, k)| == |PerIssue(db.updates, k)| + multiset([q.id] + committed)[k]
        {
          UpdateStatusTouchesOneTrail(db, q.requester, q.id, q.status, q.now, k);
        }
      } else {
        ReplayKeepsTrails(db, reqs[1..]);
      }
    }
  }

  /** The gate is a barrier: transition attempts by requesters it refuses
      leave the issues and the audit log exactly as they were. */
  lemma {:induction false} GateBlocksReplay(db: Db, reqs: seq<TransitionRequest>)
    requires forall j | 0 <= j < |reqs| :: Gate(db, reqs[j].requester).Err?
    ensures Replay(db, reqs) == (db, [])
    decreases |reqs|
  {
    if reqs != [] {
      assert UpdateStatus(db, reqs[0].requester, reqs[0].id, reqs[0].status, reqs[0].now).Err?;
      assert forall j | 0 <= j < |reqs[1..]| :: reqs[1..][j] == reqs[j + 1];
      GateBlocksReplay(db, reqs[1..]);
    }
  }

  function CreatedKey(u: IssueUpdate): int {
    u.createdAt
  }

  /** The trail of one issue read back ordered by creation time. The order
      among equal timestamps is left open. */
  function History(log: seq<IssueUpdate>, id: IssueId): (h: seq<IssueUpdate>)
    ensures forall u | u in h :: u.issueId == id
    ensures multiset(h) == multiset(PerIssue(log, id))
    ensures forall i, j | 0 <= i < j < |h| :: h[i].createdAt <= h[j].createdAt
  {
    var h := SortBy(PerIssue(log, id), CreatedKey);
    assert forall u | u in h :: u.issueId == id by {
      forall u | u in h
        ensures u.issueId == id
      {
        assert u in multiset(h);
        assert u in PerIssue(log, id);
        assert ForIssue(id)(u);
      }
    }
    assert forall i, j | 0 <= i < j < |h| :: CreatedKey(h[i]) <= CreatedKey(h[j]);
    h
  }

  /** `getIssueUpdates`: the gate, binding, then the issue's trail oldest first. */
  function GetIssueUpdates(db: Db, requester: Option<UserId>, id: IssueId): (r: Result<seq<IssueUpdate>>)
    ensures Gate(db, requester).Err? ==> r == Err(Gate(db, requester).failure)
    ensures Gate(db, requester).Ok? && id !in db.issues ==> r == Err(NotFound)
    ensures r.Ok? <==> Gate(db, requester).Ok? && id in db.issues
    ensures r.Ok? ==> r.value == History(db.updates, id)
  {
    match Gate(db, requester)
    case Err(e) => Err(e)
    case Ok(_) => if id !in db.issues then Err(NotFound) else Ok(History(db.updates, id))
  }

  /** When the clock advanced between an issue's commits, reading the trail
      back by creation time returns it in commit order, so the read-back
      chains and ends at the issue's current status. */
  lemma HistoryChains(db: Db, id: IssueId)
    requires Valid(db) && id in db.issues
    requires StrictlySortedBy(PerIssue(db.updates, id), CreatedKey)
    ensures History(db.updates, id) == PerIssue(db.updates, id)
    ensures Chain(History(db.updates, id), db.issues[id].status)
  {
    SortStrictlySortedIsIdentity(PerIssue(db.updates, id), CreatedKey);
  }

  /** A worked trail: admin 1 moves issue 0 from pending to verified, admin 2
      asks for verified again and is refused, then moves it to fixed. */
  lemma TransitionScenario(issue: Issue)
    requires issue.id == 0 && issue.status == Pending
    ensures var db := Db(map[1 := Admin, 2 := Admin, 3 := Member], map[0 := issue], 1, []);
      && UpdateStatus(db, Some(1), 0, Some("verified"), 10).Ok?
      && var db1 := UpdateStatus(db, Some(1), 0, Some("verified"), 10).value.0;
      && db1.updates == [IssueUpdate(0, Pending, Verified, 1, 10)]
      && UpdateStatus(db1, Some(2), 0, Some("verified"), 11) == Err(AlreadyInStatus)
      && UpdateStatus(db1, Some(3), 0, Some("fixed"), 11) == Err(Forbidden)
      && UpdateStatus(db1, Some(2), 0, Some("fixed"), 12).Ok?
      && UpdateStatus(db1, Some(2), 0, Some("fixed"), 12).value.0.updates ==
           [IssueUpdate(0, Pending, Verified, 1, 10), IssueUpdate(0, Verified, Fixed, 2, 12)]
  {
  }
}
