/** The admin dashboard's own list logic: its initial filter values, the
    status choices it offers for an issue, and how it folds a successful
    status change back into the loaded list. */
module AdminPage {
  import opened Domain
  import opened Sequences
  import opened ClientFilters

  /** The dashboard starts with both selects on 'all' and an empty search box,
      which shows every loaded issue. */
  lemma InitialFiltersShowAll(issues: seq<Issue>)
    ensures ApplyFilters(issues, "all", "all", "") == issues
  {
  }

  function Differs(current: string): string -> bool {
    (name: string) => name != current
  }

  /** `getStatusOptions`: every status name except the current one, in the
      fixed order. */
  function StatusOptions(current: string): (r: seq<string>)
    ensures forall n :: n in r <==> n in StatusNames && n != current
    ensures IsSubsequence(r, StatusNames)
    ensures current in StatusNames ==> |r| == 3
    ensures current !in StatusNames ==> r == StatusNames
  {
    FilterIsSubsequence(StatusNames, Differs(current));
    var p := Differs(current);
    assert Filter(StatusNames[3..], p) == (if p(StatusNames[3]) then [StatusNames[3]] else []) + Filter([], p);
    assert Filter(StatusNames[2..], p) == (if p(StatusNames[2]) then [StatusNames[2]] else []) + Filter(StatusNames[3..], p);
    assert Filter(StatusNames[1..], p) == (if p(StatusNames[1]) then [StatusNames[1]] else []) + Filter(StatusNames[2..], p);
    assert Filter(StatusNames, p) == (if p(StatusNames[0]) then [StatusNames[0]] else []) + Filter(StatusNames[1..], p);
    Filter(StatusNames, p)
  }

  /** The list after `handleStatusChange`: when the API answers with the
      updated issue, every entry with that issue's id is replaced by it and
      every other entry stays where it was; when the call fails, the list is
      unchanged. */
  function HandleStatusChange(issues: seq<Issue>, changed: Issue, response: Result<Issue>): (r: seq<Issue>)
    ensures |r| == |issues|
    ensures response.Err? ==> r == issues
    ensures response.Ok? ==> forall j | 0 <= j < |r| ::
      r[j] == (if issues[j].id == changed.id then response.value else issues[j])
  {
    match response
    case Err(_) => issues
    case Ok(updated) =>
      seq(|issues|, j requires 0 <= j < |issues| => if issues[j].id == changed.id then updated else issues[j])
  }

  /** When the server returns the issue under its own id, the list keeps the
      same ids in the same order, and applying the same answer again changes
      nothing. */
  lemma StatusChangeKeepsIds(issues: seq<Issue>, changed: Issue, updated: Issue)
    requires updated.id == changed.id
    ensures var r := HandleStatusChange(issues, changed, Ok(updated));
      && (forall j | 0 <= j < |r| :: r[j].id == issues[j].id)
      && HandleStatusChange(r, changed, Ok(updated)) == r
  {
  }
}
