/** The public map page's filter state. It starts with '' in every filter,
    where the dashboard starts with 'all'; both mean "no filter". */
module HomePage {
  import opened Domain
  import opened ClientFilters

  /** With the initial empty filters the page shows every loaded issue. */
  lemma InitialFiltersShowAll(issues: seq<Issue>)
    ensures ApplyFilters(issues, "", "", "") == issues
  {
  }

  /** '' and 'all' are interchangeable for the category and the status filter. */
  lemma EmptyAndAllAgree(issues: seq<Issue>, category: string, status: string, term: string)
    ensures ApplyFilters(issues, "", status, term) == ApplyFilters(issues, "all", status, term)
    ensures ApplyFilters(issues, category, "", term) == ApplyFilters(issues, category, "all", term)
  {
  }
}
