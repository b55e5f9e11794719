/** The client-side filtering both pages run over the issues they loaded: an
    optional exact category, an optional exact status, and an optional
    case-insensitive search over title, description and address. A filter
    value of "" (falsy in JavaScript) or "all" means "no filter". Lower-casing
    is modelled on ASCII letters only. */
module ClientFilters {
  import opened Domain
  import opened Sequences

  function LowerChar(c: char): char {
    if 'A' <= c <= 'Z' then (c as int + 32) as char else c
  }

  /** `toLowerCase`, restricted to ASCII. */
  function Lower(s: string): (r: string)
    ensures |r| == |s|
  {
    seq(|s|, i requires 0 <= i < |s| => LowerChar(s[i]))
  }

  /** `needle` occurs in `hay` starting at position `i`. */
  predicate OccursAt(hay: string, needle: string, i: int) {
    0 <= i && i + |needle| <= |hay| && hay[i..i + |needle|] == needle
  }

  /** `hay.includes(needle)`. */
  predicate Includes(hay: string, needle: string) {
    exists i | 0 <= i <= |hay| - |needle| :: OccursAt(hay, needle, i)
  }

  /** Whether a category or status filter value selects anything: `v && v !== 'all'`. */
  predicate Active(v: string) {
    JsTruthy(v) && v != "all"
  }

  /** The search test for an already lower-cased term. */
  predicate SearchHit(i: Issue, term: string) {
    Includes(Lower(i.title), term) || Includes(Lower(i.description), term) || Includes(Lower(i.address), term)
  }

  function SearchHits(term: string): Issue -> bool {
    (i: Issue) => SearchHit(i, term)
  }

  /** The three filters as one condition on a single issue. */
  predicate Visible(i: Issue, category: string, status: string, term: string) {
    && (!Active(category) || CategoryName(i.category) == category)
    && (!Active(status) || StatusName(i.status) == status)
    && (!JsTruthy(term) || SearchHit(i, Lower(term)))
  }

  /** `applyFilters`: the three filters applied one after the other, each
      skipped when its value is "no filter". */
  function ApplyFilters(issues: seq<Issue>, category: string, status: string, term: string): (r: seq<Issue>)
    ensures forall x :: x in r <==> x in issues && Visible(x, category, status, term)
  {
    var byCategory := if Active(category) then Filter(issues, CategoryIs(category)) else issues;
    var byStatus := if Active(status) then Filter(byCategory, StatusIs(status)) else byCategory;
    if JsTruthy(term) then Filter(byStatus, SearchHits(Lower(term))) else byStatus
  }

  /** The result keeps the loaded order: it is a subsequence of the input. */
  lemma ApplyFiltersIsSubsequence(issues: seq<Issue>, category: string, status: string, term: string)
    ensures IsSubsequence(ApplyFilters(issues, category, status, term), issues)
  {
    var byCategory := if Active(category) then Filter(issues, CategoryIs(category)) else issues;
    var byStatus := if Active(status) then Filter(byCategory, StatusIs(status)) else byCategory;
    var r := ApplyFilters(issues, category, status, term);
    SubsequenceReflexive(issues);
    SubsequenceReflexive(byCategory);
    SubsequenceReflexive(byStatus);
    FilterIsSubsequence(issues, CategoryIs(category));
    FilterIsSubsequence(byCategory, StatusIs(status));
    FilterIsSubsequence(byStatus, SearchHits(Lower(term)));
    SubsequenceTransitive(byStatus, byCategory, issues);
    SubsequenceTransitive(r, byStatus, issues);
  }

  function VisibleUnder(category: string, status: string, term: string): Issue -> bool {
    (i: Issue) => Visible(i, category, status, term)
  }

  function CategoryStep(category: string): Issue -> bool {
    (i: Issue) => !Active(category) || CategoryName(i.category) == category
  }

  function StatusStep(status: string): Issue -> bool {
    (i: Issue) => !Active(status) || StatusName(i.status) == status
  }

  function SearchStep(term: string): Issue -> bool {
    (i: Issue) => !JsTruthy(term) || SearchHit(i, Lower(term))
  }

  /** The three filters in a row equal one filter by their conjunction, so
      they are ANDed and the order they run in does not matter. */
  lemma ApplyFiltersIsOneFilter(issues: seq<Issue>, category: string, status: string, term: string)
    ensures ApplyFilters(issues, category, status, term) == Filter(issues, VisibleUnder(category, status, term))
  {
    var c, s, t := CategoryStep(category), StatusStep(status), SearchStep(term);
    var byCategory := if Active(category) then Filter(issues, CategoryIs(category)) else issues;
    if Active(category) {
      FilterExtensional(issues, CategoryIs(category), c);
    } else {
      FilterKeepsAll(issues, c);
    }
    var byStatus := if Active(status) then Filter(byCategory, StatusIs(status)) else byCategory;
    if Active(status) {
      FilterExtensional(byCategory, StatusIs(status), s);
    } else {
      FilterKeepsAll(byCategory, s);
    }
    if JsTruthy(term) {
      FilterExtensional(byStatus, SearchHits(Lower(term)), t);
    } else {
      FilterKeepsAll(byStatus, t);
    }
    FilterFuse(issues, c, s);
    FilterFuse(issues, Both(c, s), t);
    FilterExtensional(issues, Both(Both(c, s), t), VisibleUnder(category, status, term));
  }

  /** Only the lower-cased search term matters: terms that differ in letter
      case select the same issues. */
  lemma SearchIgnoresCase(issues: seq<Issue>, category: string, status: string, term: string, term': string)
    requires Lower(term) == Lower(term')
    ensures ApplyFilters(issues, category, status, term) == ApplyFilters(issues, category, status, term')
  {
    assert |term| == |term'|;
  }
}
