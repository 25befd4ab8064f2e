/**
 * The request-parameter boundary of PolicyController: the defaults it binds
 * when a parameter is missing, and how the filter endpoint's parameters
 * become the query criteria. Routing itself is not modelled.
 */
module PolicyController {
  import opened Wrappers
  import opened Strings
  import opened PolicyModel
  import opened NameOrder
  import opened PolicyService
  import opened RequestValidation

  const DEFAULT_PAGE: int := 0
  const DEFAULT_SIZE: int := 10
  const DEFAULT_TOTAL_PAGES_REQUIRED: bool := false
  const DEFAULT_SORT_ORDER: string := "aesc"

  /**
   * The binding of a `@RequestParam` with a default value: an absent or
   * empty parameter takes the default.
   */
  function WithDefault(raw: Option<string>, default: string): (s: string)
    ensures raw.Some? && raw.value != "" ==> s == raw.value
    ensures raw.None? || raw.value == "" ==> s == default
  {
    if raw.None? || raw.value == "" then default else raw.value
  }

  /** An `int` parameter with a default: None when the text is not an int. */
  function BindInt(raw: Option<string>, default: int): (r: Option<int>)
    requires IsInt32(default)
    ensures r.Some? ==> IsInt32(r.value)
    ensures raw.None? || raw == Some("") ==> r == Some(default)
    ensures raw.Some? && raw.value != "" ==> r == ParseInt(raw.value)
  {
    if raw.None? || raw.value == "" then Some(default) else ParseInt(raw.value)
  }

  /**
   * getFilteredPolicies: the `coverage` parameter is the minimum coverage,
   * and a missing sort order is "aesc".
   */
  function FilterCriteria(minPremium: Option<int>, maxPremium: Option<int>, policyType: Option<string>,
                          name: Option<string>, coverage: Option<int>, sortOrder: Option<string>): (c: Criteria)
    ensures c.minCoverage == coverage && c.name == name && c.policyType == policyType
    ensures c.minPremium == minPremium && c.maxPremium == maxPremium
    ensures c.sortOrder.Some?
    ensures sortOrder.None? || sortOrder == Some("") ==> c.sortOrder == Some(DEFAULT_SORT_ORDER)
    ensures sortOrder.Some? && sortOrder.value != "" ==> c.sortOrder == sortOrder
  {
    Criteria(minPremium, maxPremium, policyType, coverage, Some(WithDefault(sortOrder, DEFAULT_SORT_ORDER)), name)
  }

  /** "aesc" is not "desc", so the default order is the ascending sort by name. */
  lemma DefaultOrderSortsAscending(policies: seq<Policy>)
    requires SortPolicies(policies, Some(DEFAULT_SORT_ORDER)).Success?
    ensures SortPolicies(policies, Some(DEFAULT_SORT_ORDER)).value == SortByName(policies)
    ensures SortedByName(SortPolicies(policies, Some(DEFAULT_SORT_ORDER)).value)
  {
    assert !EqualsIgnoreCase(DESC, DEFAULT_SORT_ORDER) by {
      assert LowerChar(DESC[0]) != LowerChar(DEFAULT_SORT_ORDER[0]);
    }
  }

  /**
   * Through the controller, a filter request without a sort order returns
   * the matching records sorted by name.
   */
  lemma ControllerFilterSorted(catalog: seq<Policy>, minPremium: Option<int>, maxPremium: Option<int>,
                               policyType: Option<string>, name: Option<string>, coverage: Option<int>)
    requires FilterOutcome(catalog, FilterCriteria(minPremium, maxPremium, policyType, name, coverage, None)).Success?
    ensures var c := FilterCriteria(minPremium, maxPremium, policyType, name, coverage, None);
            FilterOutcome(catalog, c).value == SortByName(Matching(catalog, c))
  {
    var c := FilterCriteria(minPremium, maxPremium, policyType, name, coverage, None);
    DefaultOrderSortsAscending(Matching(catalog, c));
  }

  /**
   * A listing request that passes validation binds a page from 0 and a
   * size from 1, so the page it asks for is a slice and never an exception
   * when `page * size + size` fits in an int. It can overflow: page=1 with
   * size=2147483647 passes validation, and the 32-bit offsets then make
   * subList throw.
   */
  lemma ValidatedListingPages(uri: string, params: ParameterMap, list: seq<Policy>)
    requires IsListingUri(uri) && PreHandle(uri, params) == Proceed
    ensures var page := BindInt(GetParameter(params, "page"), DEFAULT_PAGE);
            var size := BindInt(GetParameter(params, "size"), DEFAULT_SIZE);
            && page.Some? && page.value >= 0
            && size.Some? && size.value > 0
            && (PageFitsInt(page.value, size.value) ==> Paginate(page.value, size.value, list).Success?)
  {
  }
}
