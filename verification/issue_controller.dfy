/** The public issue endpoints: listing with optional filters, reporting a
    new issue, editing its text fields, and deleting it. Authentication comes
    in as the requester's user id (None when the bearer token resolves to
    nobody); the issue policy, whose rules are not part of this model, comes
    in as a predicate. */
module IssueController {
  import opened Domain
  import opened Sequences
  import opened Schema
  import opened IssueScopes

  /** The two abilities the controller asks the issue policy about. */
  datatype Ability = UpdateAbility | DeleteAbility

  /** The issue policy: may this user perform this ability on this issue? */
  type Policy = (Ability, UserId, Issue) -> bool

  /** The requester as the auth:sanctum guard resolves it. */
  predicate Authenticated(db: Db, requester: Option<UserId>) {
    requester.Some? && requester.value in db.users
  }

  // ---------------------------------------------------------------- listing

  function IdKey(i: Issue): int {
    i.id
  }

  /** Sorting ascending by this key puts the newest-created issue first. */
  function NewestFirstKey(i: Issue): int {
    -i.createdAt
  }

  /** A full scan of the issues table in primary-key order. */
  method TableScan(db: Db) returns (rows: seq<Issue>)
    requires TableWellFormed(db)
    ensures forall x :: x in rows <==> InTable(db, x)
    ensures StrictlySortedBy(rows, IdKey)
  {
    rows := [];
    var k := 0;
    while k < db.nextIssueId
      invariant 0 <= k <= db.nextIssueId
      invariant forall x :: x in rows <==> InTable(db, x) && x.id < k
      invariant forall j | 0 <= j < |rows| :: rows[j].id < k
      invariant StrictlySortedBy(rows, IdKey)
    {
      if k in db.issues {
        rows := rows + [db.issues[k]];
      }
      k := k + 1;
    }
  }

  lemma StrictlySortedIsDistinct(rows: seq<Issue>)
    requires StrictlySortedBy(rows, IdKey)
    ensures Distinct(rows)
  {
    forall i, j | 0 <= i < j < |rows|
      ensures rows[i] != rows[j]
    {
      assert IdKey(rows[i]) < IdKey(rows[j]);
    }
  }

  /** `index`: the issues passing both optional scopes, each exactly once,
      newest-created first. The order among equal creation times is left
      open. */
  method Index(db: Db, category: Option<string>, status: Option<string>) returns (r: seq<Issue>)
    requires TableWellFormed(db)
    ensures forall x :: x in r <==> InTable(db, x) && MatchesCategory(category, x) && MatchesStatus(status, x)
    ensures Distinct(r)
    ensures forall i, j | 0 <= i < j < |r| :: r[i].createdAt >= r[j].createdAt
  {
    var rows := TableScan(db);
    StrictlySortedIsDistinct(rows);
    var scoped := ByStatus(ByCategory(rows, category), status);
    ScopesKeepDistinct(rows, category, status);
    r := SortBy(scoped, NewestFirstKey);
    PermutationKeepsDistinct(scoped, r);
    assert forall x :: x in r <==> x in multiset(scoped);
    forall i, j | 0 <= i < j < |r|
      ensures r[i].createdAt >= r[j].createdAt
    {
      assert NewestFirstKey(r[i]) <= NewestFirstKey(r[j]);
    }
  }

  // ---------------------------------------------------------------- store

  /** An uploaded file, as far as the validation rules look at it. */
  datatype Upload = Upload(isImage: bool, bytes: nat)

  /** The body of a create request. `status` and `userId` stand for fields a
      client may send that the controller never reads. A latitude or
      longitude that is missing or not numeric arrives as None. Strings are
      as the controller sees them, after the global middleware has trimmed
      them and turned empty ones into null. */
  datatype StoreRequest = StoreRequest(
    title: Option<string>,
    description: Option<string>,
    category: Option<string>,
    latitude: Option<real>,
    longitude: Option<real>,
    address: Option<string>,
    photo: Option<Upload>,
    status: Option<string>,
    userId: Option<UserId>)

  /** The characters PHP's trim() strips by default. */
  predicate TrimmedAway(c: char) {
    c == ' ' || c == '\t' || c == '\n' || c == '\r' || c == 0 as char || c == 11 as char
  }

  /** Laravel's `required` rule for a string input: present and not blank. */
  predicate Filled(v: Option<string>) {
    v.Some? && exists i | 0 <= i < |v.value| :: !TrimmedAway(v.value[i])
  }

  /** The `max:2048` rule on a file counts kilobytes. */
  const MaxPhotoBytes: nat := 2048 * 1024

  /** The store validation rules, field by field. */
  predicate StoreValid(req: StoreRequest) {
    && Filled(req.title) && |req.title.value| <= 255
    && Filled(req.description)
    && req.category.Some? && ParseCategory(req.category.value).Some?
    && req.latitude.Some? && req.longitude.Some?
    && Filled(req.address)
    && (req.photo.Some? ==> req.photo.value.isImage && req.photo.value.bytes <= MaxPhotoBytes)
  }

  /** `store`. The blob store picks `storedPath` when a photo is saved; the
      issues table supplies `initialStatus`, the column default, because the
      controller sends no status; `now` is the creation time. */
  function Store(db: Db, requester: Option<UserId>, req: StoreRequest,
                 storedPath: string, initialStatus: Status, now: int): (r: Result<(Db, Issue)>)
    ensures !Authenticated(db, requester) ==> r == Err(Unauthenticated)
    ensures Authenticated(db, requester) && !StoreValid(req) ==> r == Err(Invalid)
    ensures r.Ok? <==> Authenticated(db, requester) && StoreValid(req)
    ensures r.Ok? ==>
      var (db', issue) := r.value;
      && issue.userId == requester.value
      && issue.status == initialStatus
      && Some(CategoryName(issue.category)) == req.category
      && Some(issue.title) == req.title && Some(issue.description) == req.description
      && Some(issue.address) == req.address
      && Some(issue.latitude) == req.latitude && Some(issue.longitude) == req.longitude
      && issue.createdAt == now
      && (issue.photoPath.Some? <==> req.photo.Some?)
      && (issue.photoPath.Some? ==> issue.photoPath.value == storedPath)
      && issue.id == db.nextIssueId && db'.nextIssueId == db.nextIssueId + 1
      && db'.issues.Keys == db.issues.Keys + {issue.id}
      && db'.issues[issue.id] == issue
      && (forall k | k in db.issues && k != issue.id :: db'.issues[k] == db.issues[k])
      && db'.updates == db.updates && db'.users == db.users
  {
    if !Authenticated(db, requester) then Err(Unauthenticated)
    else if !StoreValid(req) then Err(Invalid)
    else
      var issue := Issue(
        db.nextIssueId,
        req.title.value,
        req.description.value,
        ParseCategory(req.category.value).value,
        initialStatus,
        req.latitude.value,
        req.longitude.value,
        req.address.value,
        if req.photo.Some? then Some(storedPath) else None,
        requester.value,
        now);
      Ok((db.(issues := db.issues[issue.id := issue], nextIssueId := db.nextIssueId + 1), issue))
  }

  // ---------------------------------------------------------------- update

  /** A key of an edit request body: not sent at all, sent as null (which is
      also what a blank string becomes once the global middleware has
      trimmed it and turned it into null), or sent with a value. */
  datatype Field = Absent | Null | Sent(value: string)

  /** The value an edit writes: the sent one, or the stored one when the key
      is absent. */
  function Patched(f: Field, stored: string): string {
    if f.Sent? then f.value else stored
  }

  /** The body of an edit request. `status` and `userId` stand for fields a
      client may send that the validation rules drop. */
  datatype UpdateRequest = UpdateRequest(
    title: Field,
    description: Field,
    category: Field,
    status: Option<string>,
    userId: Option<UserId>)

  /** The `sometimes` rules: an absent key is not checked; a present one must
      pass its rules, and null passes none of `string`, `max:255` or `in:`. */
  predicate UpdateValid(patch: UpdateRequest) {
    && !patch.title.Null? && (patch.title.Sent? ==> |patch.title.value| <= 255)
    && !patch.description.Null?
    && !patch.category.Null? && (patch.category.Sent? ==> ParseCategory(patch.category.value).Some?)
  }

  /** `update`: route-model binding, then the policy, then validation, then
      the validated fields are written. */
  function Update(db: Db, requester: Option<UserId>, id: IssueId, patch: UpdateRequest,
                  can: Policy): (r: Result<(Db, Issue)>)
    ensures !Authenticated(db, requester) ==> r == Err(Unauthenticated)
    ensures Authenticated(db, requester) && id !in db.issues ==> r == Err(NotFound)
    ensures Authenticated(db, requester) && id in db.issues && !can(UpdateAbility, requester.value, db.issues[id])
      ==> r == Err(Forbidden)
    ensures (Authenticated(db, requester) && id in db.issues && can(UpdateAbility, requester.value, db.issues[id])
      && !UpdateValid(patch)) ==> r == Err(Invalid)
    ensures r.Ok? <==> (Authenticated(db, requester) && id in db.issues
      && can(UpdateAbility, requester.value, db.issues[id]) && UpdateValid(patch))
    ensures r.Ok? ==>
      var (db', issue) := r.value;
      var before := db.issues[id];
      && (patch.title.Sent? ==> issue.title == patch.title.value)
      && (patch.title.Absent? ==> issue.title == before.title)
      && (patch.description.Sent? ==> issue.description == patch.description.value)
      && (patch.description.Absent? ==> issue.description == before.description)
      && (patch.category.Sent? ==> CategoryName(issue.category) == patch.category.value)
      && (patch.category.Absent? ==> issue.category == before.category)
      && issue.id == before.id && issue.status == before.status && issue.userId == before.userId
      && issue.latitude == before.latitude && issue.longitude == before.longitude
      && issue.address == before.address && issue.photoPath == before.photoPath
      && issue.createdAt == before.createdAt
      && db'.issues == db.issues[id := issue]
      && db'.updates == db.updates && db'.users == db.users
      && db'.nextIssueId == db.nextIssueId
  {
    if !Authenticated(db, requester) then Err(Unauthenticated)
    else if id !in db.issues then Err(NotFound)
    else if !can(UpdateAbility, requester.value, db.issues[id]) then Err(Forbidden)
    else if !UpdateValid(patch) then Err(Invalid)
    else
      var before := db.issues[id];
      var issue := before.(
        title := Patched(patch.title, before.title),
        description := Patched(patch.description, before.description),
        category := if patch.category.Sent? then ParseCategory(patch.category.value).value else before.category);
      Ok((db.(issues := db.issues[id := issue]), issue))
  }

  // ---------------------------------------------------------------- destroy

  /** `destroy`: after binding and the policy, the stored photo is deleted
      when the row holds a (PHP-truthy) path, and the row is deleted, which
      cascades to its audit records. The second component lists the keys the
      blob store is asked to delete. */
  function Destroy(db: Db, requester: Option<UserId>, id: IssueId, can: Policy): (r: Result<(Db, seq<string>)>)
    ensures !Authenticated(db, requester) ==> r == Err(Unauthenticated)
    ensures Authenticated(db, requester) && id !in db.issues ==> r == Err(NotFound)
    ensures Authenticated(db, requester) && id in db.issues && !can(DeleteAbility, requester.value, db.issues[id])
      ==> r == Err(Forbidden)
    ensures r.Ok? <==> (Authenticated(db, requester) && id in db.issues
      && can(DeleteAbility, requester.value, db.issues[id]))
    ensures r.Ok? ==>
      var (db', deleted) := r.value;
      var photo := db.issues[id].photoPath;
      && (|deleted| == 1 <==> PhpTruthy(photo))
      && (|deleted| == 0 <==> !PhpTruthy(photo))
      && (PhpTruthy(photo) ==> deleted == [photo.value])
      && id !in db'.issues
      && db'.issues.Keys == db.issues.Keys - {id}
      && (forall k | k in db'.issues :: db'.issues[k] == db.issues[k])
      && db'.users == db.users && db'.nextIssueId == db.nextIssueId
      && (forall u :: u in db'.updates <==> u in db.updates && u.issueId != id)
      && (forall k | k != id :: PerIssue(db'.updates, k) == PerIssue(db.updates, k))
  {
    if !Authenticated(db, requester) then Err(Unauthenticated)
    else if id !in db.issues then Err(NotFound)
    else if !can(DeleteAbility, requester.value, db.issues[id]) then Err(Forbidden)
    else
      var photo := db.issues[id].photoPath;
      var deleted := if PhpTruthy(photo) then [photo.value] else [];
      Ok((DeleteIssue(db, id), deleted))
  }

  // ---------------------------------------------------------------- invariants

  /** Reporting an issue keeps the database valid; the new id was free and
      the new issue starts with an empty audit trail. */
  lemma StorePreservesValid(db: Db, requester: Option<UserId>, req: StoreRequest,
                            storedPath: string, initialStatus: Status, now: int)
    requires Valid(db)
    requires Store(db, requester, req, storedPath, initialStatus, now).Ok?
    ensures Valid(Store(db, requester, req, storedPath, initialStatus, now).value.0)
    ensures var (db', issue) := Store(db, requester, req, storedPath, initialStatus, now).value;
      issue.id !in db.issues && PerIssue(db'.updates, issue.id) == []
  {
    var (db', issue) := Store(db, requester, req, storedPath, initialStatus, now).value;
    assert issue.id !in db.issues;
    forall u | u in db.updates
      ensures u.issueId != issue.id
    {
      assert RowAdmitted(db, u);
    }
    FilterKeepsNone(db.updates, ForIssue(issue.id));
  }

  /** Whatever status or owner the client sends, the stored issue is the same. */
  lemma StoreIgnoresClientStatusAndOwner(db: Db, requester: Option<UserId>, req: StoreRequest,
                                         status: Option<string>, userId: Option<UserId>,
                                         storedPath: string, initialStatus: Status, now: int)
    ensures Store(db, requester, req, storedPath, initialStatus, now)
         == Store(db, requester, req.(status := status, userId := userId), storedPath, initialStatus, now)
  {
  }

  /** Editing an issue keeps the database valid. */
  lemma UpdatePreservesValid(db: Db, requester: Option<UserId>, id: IssueId, patch: UpdateRequest, can: Policy)
    requires Valid(db)
    requires Update(db, requester, id, patch, can).Ok?
    ensures Valid(Update(db, requester, id, patch, can).value.0)
  {
  }

  /** Whatever status or owner the client sends with an edit, the result is the same. */
  lemma UpdateIgnoresClientStatusAndOwner(db: Db, requester: Option<UserId>, id: IssueId,
                                          patch: UpdateRequest, status: Option<string>,
                                          userId: Option<UserId>, can: Policy)
    ensures Update(db, requester, id, patch, can)
         == Update(db, requester, id, patch.(status := status, userId := userId), can)
  {
  }

  /** Deleting an issue keeps the database valid. */
  lemma DestroyPreservesValid(db: Db, requester: Option<UserId>, id: IssueId, can: Policy)
    requires Valid(db)
    requires Destroy(db, requester, id, can).Ok?
    ensures Valid(Destroy(db, requester, id, can).value.0)
  {
    DeleteIssuePreservesValid(db, id);
  }
}
