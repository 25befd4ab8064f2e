/** Worked examples of the query engine and the validator on small inputs. */
module Scenarios {
  import opened Wrappers
  import opened Strings
  import opened Streams
  import opened PolicyModel
  import opened NameOrder
  import opened PolicyService
  import opened RequestValidation
  import opened PolicyController

  const HOME_BASIC: Policy := Policy(Some(1), Some("Home Basic"), Some("home"), Some(100), Some(50000))
  const AUTO_PLUS: Policy := Policy(Some(2), Some("Auto Plus"), Some("auto"), Some(200), Some(20000))
  const HOME_PLUS: Policy := Policy(Some(3), Some("Home Plus"), Some("home"), Some(150), Some(80000))

  const CATALOG: seq<Policy> := [HOME_BASIC, AUTO_PLUS, HOME_PLUS]

  /** The criteria of filter(minPremium=100, maxPremium=150, policyType="home"). */
  const HOME_QUERY: Criteria := FilterCriteria(Some(100), Some(150), Some("home"), None, None, None)

  /**
   * filter(minPremium=100, maxPremium=150, policyType="home") with the
   * default order: the two home policies, sorted by name.
   */
  lemma HomeFilterScenario()
    ensures FilterOutcome(CATALOG, HOME_QUERY) == Success([HOME_BASIC, HOME_PLUS])
  {
    HomeQueryMatches();
    HomeQueryNeverThrows();
    HomeResultSorted();
  }

  /** The two home policies are already in ascending name order, so sorting keeps them as they are. */
  lemma HomeResultSorted()
    ensures SortPolicies([HOME_BASIC, HOME_PLUS], Some(DEFAULT_SORT_ORDER)) == Success([HOME_BASIC, HOME_PLUS])
  {
    var s := [HOME_BASIC, HOME_PLUS];
    assert !SortThrows(s);
    HomeResultInOrder();
    SortByNameOfSorted(s);
    DefaultOrderSortsAscending(s);
  }

  lemma HomeResultInOrder()
    ensures SortedByName([HOME_BASIC, HOME_PLUS])
  {
    HomeNamesOrdered();
    LessAsymmetric("Home Basic", "Home Plus");
  }

  lemma HomeQueryMatches()
    ensures Matching(CATALOG, HOME_QUERY) == [HOME_BASIC, HOME_PLUS]
  {
    var keep := Through(HOME_QUERY, 4);
    assert keep(HOME_BASIC) && keep(HOME_PLUS) by {
      assert EqualsIgnoreCase("home", "home");
    }
    assert !keep(AUTO_PLUS);
    assert CATALOG[1..] == [AUTO_PLUS, HOME_PLUS];
    assert CATALOG[1..][1..] == [HOME_PLUS];
    assert Filter([HOME_PLUS], keep) == [HOME_PLUS];
    assert Filter([AUTO_PLUS, HOME_PLUS], keep) == [HOME_PLUS];
  }

  lemma HomeQueryNeverThrows()
    ensures forall p :: p in CATALOG ==> !ThrowsBy(p, HOME_QUERY, 3)
  {
  }

  /** "Home Basic" comes before "Home Plus": they first differ at 'B' < 'P'. */
  lemma HomeNamesOrdered()
    ensures Less("Home Basic", "Home Plus")
  {
    var a, b := "Home Basic", "Home Plus";
    assert a[1..][1..][1..][1..][1..] == "Basic";
    assert b[1..][1..][1..][1..][1..] == "Plus";
  }

  /** page=5&size=10 on three records: an empty page, not an error. */
  lemma PageBeyondTheEnd()
    ensures Paginate(5, 10, CATALOG) == Success([])
  {
  }

  /**
   * GET /policies?page=5&size=10&totalPagesRequired=true on a service that
   * loaded the three records: no policies, and a "totalPages" of 3.
   */
  method ListingBeyondTheEnd() returns (r: Result<map<string, OutputValue>>)
    ensures r == Success(map[POLICIES_KEY := PolicyPage([]), TOTAL_PAGES_KEY := RecordCount(3)])
  {
    var service := new PolicyService();
    service.LoadPolicies(Some(CATALOG));
    PageBeyondTheEnd();
    assert service.policyList == CATALOG;
    r := service.GetPoliciesWithTotalCount(5, 10, None, true);
    assert r.Success?;
    assert r.value[POLICIES_KEY] == PolicyPage([]) && r.value[TOTAL_PAGES_KEY] == RecordCount(3);
    var expected := map[POLICIES_KEY := PolicyPage([]), TOTAL_PAGES_KEY := RecordCount(3)];
    assert POLICIES_KEY != TOTAL_PAGES_KEY;
    assert r.value.Keys == expected.Keys;
    assert forall k :: k in expected ==> r.value[k] == expected[k];
    assert r.value == expected;
  }

  /** GET /policies/filter with no parameters is refused. */
  lemma EmptyFilterRequestRefused(uri: string)
    requires uri == "/policies/filter"
    ensures PreHandle(uri, map[]) == InvalidRequest(NO_FILTER_MESSAGE)
  {
    assert OccursAt(uri, FILTER_PATH, 9) by {
      assert uri[9..9 + |FILTER_PATH|] == FILTER_PATH;
    }
  }

  /** GET /policies with page=-1, with size=0 or with page=abc is refused. */
  lemma BadListingRequestsRefused(uri: string)
    requires uri == "/policies"
    ensures PreHandle(uri, map["page" := ["-1"]]) == InvalidRequest(RANGE_MESSAGE)
    ensures PreHandle(uri, map["size" := ["0"]]) == InvalidRequest(RANGE_MESSAGE)
    ensures PreHandle(uri, map["page" := ["abc"]]) == InvalidRequest(FORMAT_MESSAGE)
  {
    assert uri[..|POLICIES_PATH|] == POLICIES_PATH;
    ListingWithoutFilterOrSearch(uri);
    PageCheckedFirst();
    NonPositiveSizeRejected(None, 0);
    assert FormatInt(0) == "0";
  }
}
