/** The query scopes of the Issue model. Each scope applies its `where`
    clause only when its argument is truthy in PHP, so an absent, empty or
    "0" argument leaves the query as it was. Rows are compared against the
    argument exactly, as strings. */
module IssueScopes {
  import opened Domain
  import opened Sequences

  /** Whether a row passes `byCategory(arg)`. */
  predicate MatchesCategory(arg: Option<string>, i: Issue) {
    !PhpTruthy(arg) || CategoryName(i.category) == arg.value
  }

  /** Whether a row passes `byStatus(arg)`. */
  predicate MatchesStatus(arg: Option<string>, i: Issue) {
    !PhpTruthy(arg) || StatusName(i.status) == arg.value
  }

  /** `scopeByCategory`: `when($category, where('category', $category))`. */
  function ByCategory(rows: seq<Issue>, arg: Option<string>): (r: seq<Issue>)
    ensures !PhpTruthy(arg) ==> r == rows
    ensures forall x :: x in r <==> x in rows && MatchesCategory(arg, x)
    ensures forall x :: multiset(r)[x] == if MatchesCategory(arg, x) then multiset(rows)[x] else 0
    ensures IsSubsequence(r, rows)
  {
    if PhpTruthy(arg) then
      FilterIsSubsequence(rows, CategoryIs(arg.value));
      assert forall x :: multiset(Filter(rows, CategoryIs(arg.value)))[x] == if MatchesCategory(arg, x) then multiset(rows)[x] else 0 by {
        forall x { FilterCount(rows, CategoryIs(arg.value), x); }
      }
      Filter(rows, CategoryIs(arg.value))
    else
      SubsequenceReflexive(rows);
      rows
  }

  /** `scopeByStatus`: `when($status, where('status', $status))`. */
  function ByStatus(rows: seq<Issue>, arg: Option<string>): (r: seq<Issue>)
    ensures !PhpTruthy(arg) ==> r == rows
    ensures forall x :: x in r <==> x in rows && MatchesStatus(arg, x)
    ensures forall x :: multiset(r)[x] == if MatchesStatus(arg, x) then multiset(rows)[x] else 0
    ensures IsSubsequence(r, rows)
  {
    if PhpTruthy(arg) then
      FilterIsSubsequence(rows, StatusIs(arg.value));
      assert forall x :: multiset(Filter(rows, StatusIs(arg.value)))[x] == if MatchesStatus(arg, x) then multiset(rows)[x] else 0 by {
        forall x { FilterCount(rows, StatusIs(arg.value), x); }
      }
      Filter(rows, StatusIs(arg.value))
    else
      SubsequenceReflexive(rows);
      rows
  }

  /** Chaining the two scopes keeps exactly the rows both keep, in the order
      of the input, whichever scope runs first. */
  lemma ScopesCommute(rows: seq<Issue>, category: Option<string>, status: Option<string>)
    ensures ByStatus(ByCategory(rows, category), status) == ByCategory(ByStatus(rows, status), category)
    ensures forall x :: x in ByStatus(ByCategory(rows, category), status) <==>
      x in rows && MatchesCategory(category, x) && MatchesStatus(status, x)
  {
    if PhpTruthy(category) && PhpTruthy(status) {
      FilterCommutes(rows, CategoryIs(category.value), StatusIs(status.value));
    }
  }

  /** Scoping never invents rows and never repeats one. */
  lemma ScopesKeepDistinct(rows: seq<Issue>, category: Option<string>, status: Option<string>)
    requires Distinct(rows)
    ensures Distinct(ByStatus(ByCategory(rows, category), status))
  {
    if PhpTruthy(category) {
      FilterKeepsDistinct(rows, CategoryIs(category.value));
    }
    if PhpTruthy(status) {
      FilterKeepsDistinct(ByCategory(rows, category), StatusIs(status.value));
    }
  }
}
