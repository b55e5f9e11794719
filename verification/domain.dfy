/** The records and enumerations shared by the backend and the frontend of
    the issue tracker: categories, statuses, roles, the issue row, the audit
    row, and the failures an HTTP handler can answer with. */
module Domain {

  datatype Option<+T> = None | Some(value: T)

  /** The failures the controllers answer with, one per HTTP error response. */
  datatype Failure =
    | Unauthenticated   // 401 from the auth:sanctum guard
    | Forbidden         // 403 from the admin gate or an issue policy
    | NotFound          // 404 from route-model binding
    | Invalid           // 422 from request validation
    | AlreadyInStatus   // 422 when a transition would change nothing
    | Restricted        // a delete refused by a restricting foreign key

  datatype Result<+T> = Ok(value: T) | Err(failure: Failure)

  type UserId = nat
  type IssueId = nat

  datatype Category = Road | Garbage | Flood | Light
  datatype Status = Pending | Verified | InProgress | Fixed
  /** The role column: 'user' or 'admin'. */
  datatype Role = Member | Admin

  /** The string stored in the category column and sent over JSON. */
  function CategoryName(c: Category): string {
    match c
    case Road => "road"
    case Garbage => "garbage"
    case Flood => "flood"
    case Light => "light"
  }

  /** The string stored in the status column and sent over JSON. */
  function StatusName(s: Status): string {
    match s
    case Pending => "pending"
    case Verified => "verified"
    case InProgress => "in_progress"
    case Fixed => "fixed"
  }

  /** The `in:road,garbage,flood,light` validation rule, as a parser. */
  function ParseCategory(s: string): (r: Option<Category>)
    ensures forall c :: r == Some(c) <==> CategoryName(c) == s
  {
    if s == "road" then Some(Road)
    else if s == "garbage" then Some(Garbage)
    else if s == "flood" then Some(Flood)
    else if s == "light" then Some(Light)
    else None
  }

  /** The `in:pending,verified,in_progress,fixed` validation rule, as a parser. */
  function ParseStatus(s: string): (r: Option<Status>)
    ensures forall t :: r == Some(t) <==> StatusName(t) == s
  {
    if s == "pending" then Some(Pending)
    else if s == "verified" then Some(Verified)
    else if s == "in_progress" then Some(InProgress)
    else if s == "fixed" then Some(Fixed)
    else None
  }

  /** The status names in the order the admin page lists them. */
  const StatusNames: seq<string> := ["pending", "verified", "in_progress", "fixed"]

  /** An issue row as the API returns it. Latitude and longitude are opaque
      values here; the `decimal:8` cast is not modelled. */
  datatype Issue = Issue(
    id: IssueId,
    title: string,
    description: string,
    category: Category,
    status: Status,
    latitude: real,
    longitude: real,
    address: string,
    photoPath: Option<string>,
    userId: UserId,
    createdAt: int)

  /** One row of the issue_updates audit table. */
  datatype IssueUpdate = IssueUpdate(
    issueId: IssueId,
    oldStatus: Status,
    newStatus: Status,
    updatedBy: UserId,
    createdAt: int)

  /** An issue whose category is stored under exactly this name. */
  function CategoryIs(name: string): Issue -> bool {
    (i: Issue) => CategoryName(i.category) == name
  }

  /** An issue whose status is stored under exactly this name. */
  function StatusIs(name: string): Issue -> bool {
    (i: Issue) => StatusName(i.status) == name
  }

  /** PHP truthiness of a request input: null, "" and "0" are falsy. */
  predicate PhpTruthy(s: Option<string>) {
    s.Some? && s.value != "" && s.value != "0"
  }

  /** JavaScript truthiness of a string: only "" is falsy. */
  predicate JsTruthy(s: string) {
    s != ""
  }
}
