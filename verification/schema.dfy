/** The database the controllers work on: the users, issues and
    issue_updates tables, with the constraints the issue_updates migration
    declares (two foreign keys that cascade on delete, two enum columns) and
    the invariant the status-transition engine maintains over the audit log. */
module Schema {
  import opened Domain
  import opened Sequences

  datatype Db = Db(
    users: map<UserId, Role>,
    issues: map<IssueId, Issue>,
    nextIssueId: IssueId,       // the auto-increment counter of the issues table
    updates: seq<IssueUpdate>)  // the issue_updates table in insertion order

  /** Every row is stored under its own id, and ids come from the counter. */
  predicate TableWellFormed(db: Db) {
    forall k | k in db.issues :: db.issues[k].id == k && k < db.nextIssueId
  }

  /** `x` is a row of the issues table. */
  predicate InTable(db: Db, x: Issue) {
    x.id in db.issues && db.issues[x.id] == x
  }

  /** The values an enum('pending', 'verified', 'in_progress', 'fixed') column accepts. */
  predicate StatusColumnAccepts(name: string) {
    name in StatusNames
  }

  /** The enum columns accept exactly the names the transition request's
      `in:pending,verified,in_progress,fixed` rule accepts. */
  lemma StatusColumnMatchesValidation(name: string)
    ensures StatusColumnAccepts(name) <==> ParseStatus(name).Some?
  {
    if StatusColumnAccepts(name) {
      assert name == "pending" || name == "verified" || name == "in_progress" || name == "fixed";
    }
  }

  /** What the issue_updates table accepts for a new row: both foreign keys
      resolve and both enum columns hold one of the four status names. */
  predicate RowAdmitted(db: Db, u: IssueUpdate) {
    && u.issueId in db.issues
    && u.updatedBy in db.users
    && StatusColumnAccepts(StatusName(u.oldStatus))
    && StatusColumnAccepts(StatusName(u.newStatus))
  }

  function ForIssue(k: IssueId): IssueUpdate -> bool {
    (u: IssueUpdate) => u.issueId == k
  }

  /** The audit records of one issue, in the order they were committed. */
  function PerIssue(log: seq<IssueUpdate>, k: IssueId): seq<IssueUpdate> {
    Filter(log, ForIssue(k))
  }

  /** The audit trail of an issue whose status is now `current`: no record is a
      no-op, each record starts where the previous one ended, and the last one
      ends at the current status. */
  predicate Chain(h: seq<IssueUpdate>, current: Status) {
    && (forall j | 0 <= j < |h| :: h[j].oldStatus != h[j].newStatus)
    && (forall j | 0 <= j < |h| - 1 :: h[j].newStatus == h[j + 1].oldStatus)
    && (|h| > 0 ==> h[|h| - 1].newStatus == current)
  }

  /** The database invariant. */
  predicate Valid(db: Db) {
    && TableWellFormed(db)
    && (forall u | u in db.updates :: RowAdmitted(db, u))
    && (forall k | k in db.issues :: Chain(PerIssue(db.updates, k), db.issues[k].status))
  }

  /** A trail extended by a record that starts at the current status and
      changes it is still a trail, now ending at the record's new status. */
  lemma ChainExtend(h: seq<IssueUpdate>, current: Status, u: IssueUpdate)
    requires Chain(h, current)
    requires u.oldStatus == current && u.oldStatus != u.newStatus
    ensures Chain(h + [u], u.newStatus)
  {
    var h' := h + [u];
    forall j | 0 <= j < |h'| - 1
      ensures h'[j].newStatus == h'[j + 1].oldStatus
    {
      if j == |h| - 1 {
        assert h'[j] == h[|h| - 1];
      }
    }
  }

  /** Appending a record leaves every other issue's trail as it was and
      extends this issue's trail by exactly that record. */
  lemma PerIssueAppend(log: seq<IssueUpdate>, u: IssueUpdate, k: IssueId)
    ensures PerIssue(log + [u], k) == PerIssue(log, k) + (if u.issueId == k then [u] else [])
  {
    FilterAppend(log, [u], ForIssue(k));
    assert Filter([u], ForIssue(k)) == (if u.issueId == k then [u] else []) + Filter([], ForIssue(k));
  }

  function NotOfIssue(id: IssueId): IssueUpdate -> bool {
    (u: IssueUpdate) => u.issueId != id
  }

  function NotBy(uid: UserId): IssueUpdate -> bool {
    (u: IssueUpdate) => u.updatedBy != uid
  }

  /** Deleting an issue row; `onDelete('cascade')` on issue_id deletes its
      audit rows with it. */
  function DeleteIssue(db: Db, id: IssueId): (r: Db)
    ensures r.issues.Keys == db.issues.Keys - {id}
    ensures forall k | k in r.issues :: r.issues[k] == db.issues[k]
    ensures forall u :: u in r.updates <==> u in db.updates && u.issueId != id
    ensures forall k | k != id :: PerIssue(r.updates, k) == PerIssue(db.updates, k)
    ensures PerIssue(r.updates, id) == []
    ensures r.users == db.users && r.nextIssueId == db.nextIssueId
  {
    var kept := Filter(db.updates, NotOfIssue(id));
    assert forall k | k != id :: PerIssue(kept, k) == PerIssue(db.updates, k) by {
      forall k | k != id
        ensures PerIssue(kept, k) == PerIssue(db.updates, k)
      {
        FilterCommutes(db.updates, NotOfIssue(id), ForIssue(k));
        FilterKeepsAll(Filter(db.updates, ForIssue(k)), NotOfIssue(id));
      }
    }
    var r := Db(db.users, db.issues - {id}, db.nextIssueId, kept);
    FilterKeepsNone(kept, ForIssue(id));
    r
  }

  lemma DeleteIssuePreservesValid(db: Db, id: IssueId)
    requires Valid(db)
    ensures Valid(DeleteIssue(db, id))
  {
  }

  /** Deleting a user row as the migration declares it: `onDelete('cascade')`
      on updated_by deletes every audit row the user authored. */
  function DeleteUser(db: Db, uid: UserId): (r: Db)
    ensures uid !in r.users
    ensures forall v | v != uid :: v in r.users <==> v in db.users
    ensures forall u :: u in r.updates <==> u in db.updates && u.updatedBy != uid
    ensures forall v | v in r.users :: r.users[v] == db.users[v]
    ensures IsSubsequence(r.updates, db.updates)
    ensures r.issues == db.issues && r.nextIssueId == db.nextIssueId
  {
    FilterIsSubsequence(db.updates, NotBy(uid));
    Db(db.users - {uid}, db.issues, db.nextIssueId, Filter(db.updates, NotBy(uid)))
  }

  /** An issue now in progress whose trail was written by users 1, 2 and 1:
      pending->verified, verified->fixed, fixed->in_progress. */
  function TrailExample(): Db {
    var issue := Issue(7, "Pothole", "Deep pothole", Road, InProgress, 0.0, 0.0, "Main St", None, 3, 5);
    Db(map[1 := Admin, 2 := Admin, 3 := Member], map[7 := issue], 8,
       [IssueUpdate(7, Pending, Verified, 1, 10),
        IssueUpdate(7, Verified, Fixed, 2, 11),
        IssueUpdate(7, Fixed, InProgress, 1, 12)])
  }

  lemma TrailExampleRowsAdmitted()
    ensures forall u | u in TrailExample().updates :: RowAdmitted(TrailExample(), u)
  {
  }

  lemma TrailExampleChains()
    ensures Chain(PerIssue(TrailExample().updates, 7), InProgress)
  {
    FilterKeepsAll(TrailExample().updates, ForIssue(7));
  }

  lemma TrailExampleIsValid()
    ensures Valid(TrailExample())
  {
    TrailExampleRowsAdmitted();
    TrailExampleChains();
  }

  /** Deleting user 2 from the example keeps the first and third records. */
  lemma TrailExampleAfterDelete()
    ensures DeleteUser(TrailExample(), 2).updates ==
      [IssueUpdate(7, Pending, Verified, 1, 10), IssueUpdate(7, Fixed, InProgress, 1, 12)]
  {
    var log := TrailExample().updates;
    assert log == [log[0]] + [log[1], log[2]];
    assert Filter([log[2]], NotBy(2)) == [log[2]] + Filter([], NotBy(2));
    assert Filter([log[1], log[2]], NotBy(2)) == Filter([log[2]], NotBy(2));
  }

  /** The cascade on updated_by can cut a record out of the middle of an
      issue's trail: deleting user 2 from the example leaves a trail that
      jumps from verified to fixed. */
  lemma DeleteUserBreaksTrail()
    ensures Valid(TrailExample()) && !Valid(DeleteUser(TrailExample(), 2))
  {
    TrailExampleIsValid();
    TrailExampleAfterDelete();
    var db' := DeleteUser(TrailExample(), 2);
    FilterKeepsAll(db'.updates, ForIssue(7));
    var h := PerIssue(db'.updates, 7);
    assert h[0].newStatus != h[1].oldStatus;
    assert !Chain(h, db'.issues[7].status);
  }

  /** Deleting a user with a restricting foreign key on updated_by: the
      delete is refused while the user authored any audit row, so no trail
      loses a record. */
  function DeleteUserRestricted(db: Db, uid: UserId): (r: Result<Db>)
    ensures r.Err? <==> exists u | u in db.updates :: u.updatedBy == uid
    ensures r.Err? ==> r.failure == Restricted
    ensures r.Ok? ==> uid !in r.value.users && r.value.updates == db.updates
    ensures r.Ok? ==> forall v | v != uid :: v in r.value.users <==> v in db.users
    ensures r.Ok? ==> forall v | v in r.value.users :: r.value.users[v] == db.users[v]
    ensures r.Ok? ==> r.value.issues == db.issues && r.value.nextIssueId == db.nextIssueId
  {
    if exists u | u in db.updates :: u.updatedBy == uid then Err(Restricted)
    else Ok(db.(users := db.users - {uid}))
  }

  lemma DeleteUserRestrictedPreservesValid(db: Db, uid: UserId)
    requires Valid(db)
    requires DeleteUserRestricted(db, uid).Ok?
    ensures Valid(DeleteUserRestricted(db, uid).value)
  {
  }
}
