/**
 * The query engine over the in-memory policy catalog: paging, name search,
 * the staged filter pipeline and the final sort by name.
 */
module PolicyService {
  import opened Wrappers
  import opened Strings
  import opened Streams
  import opened CommonUtils
  import opened PolicyModel
  import opened NameOrder

  // ---------------------------------------------------------------------
  // Paging

  function Min(a: int, b: int): (m: int) {
    if a <= b then a else b
  }

  /** The page offsets `page * size` and `page * size + size` are computed without int overflow. */
  predicate PageFitsInt(page: int, size: int) {
    IsInt32(page) && IsInt32(size) && IsInt32(page * size) && IsInt32(page * size + size)
  }

  /**
   * getPolicies(page, size, policies): the half-open slice
   * [min(page * size, N), min(start + size, N)) taken with List.subList,
   * which throws IndexOutOfBoundsException for a negative start and
   * IllegalArgumentException for a start past the end.
   */
  function Paginate<T>(page: int, size: int, list: seq<T>): (r: Result<seq<T>>)
    requires PageFitsInt(page, size)
    ensures r.Success? <==> 0 <= size && 0 <= page * size
    ensures r.Failure? ==>
              r.fault == if page * size < 0 then IndexOutOfBoundsException else IllegalArgumentException
    ensures r.Success? ==> |r.value| <= size
    ensures r.Success? ==>
              |r.value| == if page * size >= |list| then 0 else Min(size, |list| - page * size)
    ensures r.Success? ==> forall i :: 0 <= i < |r.value| ==> r.value[i] == list[page * size + i]
  {
    var start := Min(page * size, |list|);
    var end := Min(start + size, |list|);
    if start < 0 then Failure(IndexOutOfBoundsException)
    else if start > end then Failure(IllegalArgumentException)
    else Success(list[start..end])
  }

  /** Paging loses nothing: record `i` is at position `i % size` of page `i / size`. */
  lemma PageHoldsRecord<T>(list: seq<T>, size: int, i: int)
    requires 0 < size && 0 <= i < |list|
    requires PageFitsInt(i / size, size)
    ensures Paginate(i / size, size, list).Success?
    ensures i % size < |Paginate(i / size, size, list).value|
    ensures Paginate(i / size, size, list).value[i % size] == list[i]
  {
    var page := i / size;
    assert page * size == i - i % size;
    assert page >= 0;
  }

  // ---------------------------------------------------------------------
  // Name search

  /** The record's name, lower-cased, contains the lower-cased term; null on either side never matches. */
  predicate NameMatches(p: Policy, name: Option<string>) {
    name.Some? && p.name.Some? && Contains(ToLowerCase(p.name.value), ToLowerCase(name.value))
  }

  function NameFilter(name: Option<string>): (keep: Policy -> bool) {
    p => NameMatches(p, name)
  }

  /** getPoliciesByName(policyList, name). */
  function GetPoliciesByName(policies: seq<Policy>, name: Option<string>): (r: seq<Policy>)
    ensures |r| <= |policies|
    ensures forall p :: p in r ==> p in policies && p.name.Some? && name.Some?
  {
    Filter(policies, NameFilter(name))
  }

  /** Exactly the input records whose lower-cased name contains the lower-cased term are kept. */
  lemma ByNameMembers(policies: seq<Policy>, name: Option<string>, p: Policy)
    ensures p in GetPoliciesByName(policies, name) <==>
              p in policies && p.name.Some? && name.Some?
              && Contains(ToLowerCase(p.name.value), ToLowerCase(name.value))
  {
    FilterMembers(policies, NameFilter(name), p);
  }

  /** The kept records stay in input order. */
  lemma ByNameKeepsOrder(a: seq<Policy>, b: seq<Policy>, name: Option<string>)
    ensures GetPoliciesByName(a + b, name) == GetPoliciesByName(a, name) + GetPoliciesByName(b, name)
  {
    FilterConcat(a, b, NameFilter(name));
  }

  /** A null term finds nothing. */
  lemma ByNameNullTerm(policies: seq<Policy>)
    ensures GetPoliciesByName(policies, None) == []
  {
    FilterEmpty(policies, NameFilter(None));
  }

  /** An empty term keeps every record that has a name. */
  lemma ByNameEmptyTerm(policies: seq<Policy>, p: Policy)
    ensures p in GetPoliciesByName(policies, Some("")) <==> p in policies && p.name.Some?
  {
    ByNameMembers(policies, Some(""), p);
    if p.name.Some? {
      ContainsEmpty(ToLowerCase(p.name.value));
    }
  }

  // ---------------------------------------------------------------------
  // The single-criterion filters

  predicate InPremiumRange(p: Policy, min: Option<int>, max: Option<int>) {
    && (min.None? || (p.premium.Some? && p.premium.value >= min.value))
    && (max.None? || (p.premium.Some? && p.premium.value <= max.value))
  }

  function PremiumFilter(min: Option<int>, max: Option<int>): (keep: Policy -> bool) {
    p => InPremiumRange(p, min, max)
  }

  /**
   * filterByPremiumRange: keeps min <= premium <= max. With a bound
   * given, a null premium is unboxed and throws.
   */
  function FilterByPremiumRange(policies: seq<Policy>, min: Option<int>, max: Option<int>): (r: Result<seq<Policy>>)
    ensures r.Failure? <==> (min.Some? || max.Some?) && exists p :: p in policies && p.premium.None?
    ensures r.Failure? ==> r.fault == NullPointerException
    ensures r.Success? ==> r.value == Filter(policies, PremiumFilter(min, max))
    ensures r.Success? ==> forall p :: p in r.value ==> p in policies && InPremiumRange(p, min, max)
  {
    FilterOrThrow(policies, (p: Policy) => p.premium.None? && (min.Some? || max.Some?), PremiumFilter(min, max))
  }

  predicate HasType(p: Policy, policyType: Option<string>) {
    policyType.None? || (p.policyType.Some? && EqualsIgnoreCase(p.policyType.value, policyType.value))
  }

  function TypeFilter(policyType: Option<string>): (keep: Policy -> bool) {
    p => HasType(p, policyType)
  }

  /**
   * filterByPolicyType: keeps the records whose type equals the given one
   * ignoring case. With a type given, a null record type is dereferenced and throws.
   */
  function FilterByPolicyType(policies: seq<Policy>, policyType: Option<string>): (r: Result<seq<Policy>>)
    ensures r.Failure? <==> policyType.Some? && exists p :: p in policies && p.policyType.None?
    ensures r.Failure? ==> r.fault == NullPointerException
    ensures r.Success? ==> r.value == Filter(policies, TypeFilter(policyType))
    ensures r.Success? ==> forall p :: p in r.value ==> p in policies && HasType(p, policyType)
  {
    FilterOrThrow(policies, (p: Policy) => policyType.Some? && p.policyType.None?, TypeFilter(policyType))
  }

  predicate HasCoverage(p: Policy, minCoverage: Option<int>) {
    minCoverage.None? || (p.coverage.Some? && p.coverage.value >= minCoverage.value)
  }

  function CoverageFilter(minCoverage: Option<int>): (keep: Policy -> bool) {
    p => HasCoverage(p, minCoverage)
  }

  /**
   * filterByCoverage: keeps coverage >= minCoverage. With a minimum given,
   * a null coverage is unboxed and throws.
   */
  function FilterByCoverage(policies: seq<Policy>, minCoverage: Option<int>): (r: Result<seq<Policy>>)
    ensures r.Failure? <==> minCoverage.Some? && exists p :: p in policies && p.coverage.None?
    ensures r.Failure? ==> r.fault == NullPointerException
    ensures r.Success? ==> r.value == Filter(policies, CoverageFilter(minCoverage))
    ensures r.Success? ==> forall p :: p in r.value ==> p in policies && HasCoverage(p, minCoverage)
  {
    FilterOrThrow(policies, (p: Policy) => minCoverage.Some? && p.coverage.None?, CoverageFilter(minCoverage))
  }

  // ---------------------------------------------------------------------
  // sortPolicies

  const DESC: string := "desc"

  /**
   * The stream sort compares every element with some other once there are
   * two or more, and comparing a null name throws.
   */
  predicate SortThrows(policies: seq<Policy>) {
    |policies| >= 2 && exists p :: p in policies && p.name.None?
  }

  /**
   * sortPolicies(policies, order): a null order returns the list as is.
   * "desc" (any case) sorts in reverse and discards the result, so the list
   * comes back as is. Any other token sorts ascending by name.
   */
  function SortPolicies(policies: seq<Policy>, order: Option<string>): (r: Result<seq<Policy>>)
    ensures r.Failure? <==> order.Some? && |policies| >= 2 && exists p :: p in policies && p.name.None?
    ensures r.Failure? ==> r.fault == NullPointerException
    ensures r.Success? ==> multiset(r.value) == multiset(policies)
    ensures r.Success? && (order.None? || EqualsIgnoreCase(DESC, order.value)) ==> r.value == policies
    ensures r.Success? && order.Some? && !EqualsIgnoreCase(DESC, order.value) ==> SortedByName(r.value)
  {
    if order.None? then Success(policies)
    else if EqualsIgnoreCase(DESC, order.value) then
      if SortThrows(policies) then Failure(NullPointerException) else Success(policies)
    else if SortThrows(policies) then Failure(NullPointerException)
    else
      SortByNameSorted(policies);
      Success(SortByName(policies))
  }

  /** The ascending sort is stable: records sharing a name keep their relative order. */
  lemma SortPoliciesStable(policies: seq<Policy>, order: Option<string>, k: string)
    requires SortPolicies(policies, order).Success?
    ensures Filter(SortPolicies(policies, order).value, Named(k)) == Filter(policies, Named(k))
  {
    if order.Some? && !EqualsIgnoreCase(DESC, order.value) {
      SortByNameStable(policies, k);
    }
  }

  /** Sorting the result again with the same order gives the same list. */
  lemma SortPoliciesIdempotent(policies: seq<Policy>, order: Option<string>)
    requires SortPolicies(policies, order).Success?
    ensures SortPolicies(SortPolicies(policies, order).value, order) == SortPolicies(policies, order)
  {
    var once := SortPolicies(policies, order).value;
    assert multiset(once) == multiset(policies);
    assert |once| == |policies| by {
      assert |multiset(once)| == |once| && |multiset(policies)| == |policies|;
    }
    if order.Some? && !EqualsIgnoreCase(DESC, order.value) {
      SortByNameIdempotent(policies);
      forall p | p in once ensures p in policies {
        assert p in multiset(once);
      }
    }
  }

  // ---------------------------------------------------------------------
  // filterPolicies: the combined query

  /** The six query parameters of filterPolicies. */
  datatype Criteria = Criteria(
    minPremium: Option<int>,
    maxPremium: Option<int>,
    policyType: Option<string>,
    minCoverage: Option<int>,
    sortOrder: Option<string>,
    name: Option<string>)

  /** The premium range applies only when both bounds are given. */
  predicate PremiumActive(c: Criteria) {
    !NullOrEmptyInteger(c.maxPremium) && !NullOrEmptyInteger(c.minPremium)
  }

  predicate TypeActive(c: Criteria) {
    !NullOrEmptyString(c.policyType)
  }

  predicate CoverageActive(c: Criteria) {
    !NullOrEmptyInteger(c.minCoverage)
  }

  predicate NameActive(c: Criteria) {
    !NullOrEmptyString(c.name)
  }

  predicate MeetsPremium(p: Policy, c: Criteria) {
    !PremiumActive(c) || InPremiumRange(p, c.minPremium, c.maxPremium)
  }

  predicate MeetsType(p: Policy, c: Criteria) {
    !TypeActive(c) || HasType(p, c.policyType)
  }

  predicate MeetsCoverage(p: Policy, c: Criteria) {
    !CoverageActive(c) || HasCoverage(p, c.minCoverage)
  }

  predicate MeetsName(p: Policy, c: Criteria) {
    !NameActive(c) || NameMatches(p, c.name)
  }

  /** The record meets every active criterion. */
  predicate MeetsAll(p: Policy, c: Criteria) {
    MeetsPremium(p, c) && MeetsType(p, c) && MeetsCoverage(p, c) && MeetsName(p, c)
  }

  /** The record passes the first `k` stages (premium, type, coverage, name). */
  function Through(c: Criteria, k: nat): (keep: Policy -> bool) {
    p =>
      && (k >= 1 ==> MeetsPremium(p, c))
      && (k >= 2 ==> MeetsType(p, c))
      && (k >= 3 ==> MeetsCoverage(p, c))
      && (k >= 4 ==> MeetsName(p, c))
  }

  /** The catalog records meeting every active criterion, in catalog order. */
  function Matching(catalog: seq<Policy>, c: Criteria): (matches: seq<Policy>) {
    Filter(catalog, Through(c, 4))
  }

  /**
   * The record makes one of the first `k` stages throw: the stage is active,
   * the record reaches it, and the field it reads is null.
   */
  predicate ThrowsBy(p: Policy, c: Criteria, k: nat) {
    || (k >= 1 && PremiumActive(c) && p.premium.None?)
    || (k >= 2 && TypeActive(c) && MeetsPremium(p, c) && p.policyType.None?)
    || (k >= 3 && CoverageActive(c) && MeetsPremium(p, c) && MeetsType(p, c) && p.coverage.None?)
  }

  /**
   * What filterPolicies returns, stated without stages: a NullPointerException
   * when some catalog record makes a stage throw; otherwise the matching
   * records, then sorted.
   */
  function FilterOutcome(catalog: seq<Policy>, c: Criteria): (r: Result<seq<Policy>>)
    ensures r.Failure? ==> r.fault == NullPointerException
    ensures r.Success? ==> multiset(r.value) == multiset(Matching(catalog, c))
  {
    if exists p :: p in catalog && ThrowsBy(p, c, 3) then Failure(NullPointerException)
    else SortPolicies(Matching(catalog, c), c.sortOrder)
  }

  /** Every record of a successful result is a catalog record meeting every active criterion. */
  lemma FilterSound(catalog: seq<Policy>, c: Criteria, p: Policy)
    requires FilterOutcome(catalog, c).Success?
    requires p in FilterOutcome(catalog, c).value
    ensures p in catalog && MeetsAll(p, c)
  {
    var matching := Matching(catalog, c);
    assert p in multiset(FilterOutcome(catalog, c).value);
    assert p in multiset(matching);
  }

  /** No catalog record meeting every active criterion is dropped. */
  lemma FilterComplete(catalog: seq<Policy>, c: Criteria, p: Policy)
    requires FilterOutcome(catalog, c).Success?
    requires p in catalog && MeetsAll(p, c)
    ensures p in FilterOutcome(catalog, c).value
  {
    var matching := Matching(catalog, c);
    FilterMembers(catalog, Through(c, 4), p);
    assert p in multiset(matching);
    assert p in multiset(FilterOutcome(catalog, c).value);
  }

  /** A successful result is empty exactly when no catalog record meets every active criterion. */
  lemma FilterEmptyIff(catalog: seq<Policy>, c: Criteria)
    requires FilterOutcome(catalog, c).Success?
    ensures FilterOutcome(catalog, c).value == [] <==> forall p :: p in catalog ==> !MeetsAll(p, c)
  {
    var matching := Matching(catalog, c);
    var r := FilterOutcome(catalog, c).value;
    FilterEmpty(catalog, Through(c, 4));
    assert |multiset(r)| == |r| && |multiset(matching)| == |matching|;
  }

  /**
   * The order of a successful result: catalog order under a null or "desc"
   * order, otherwise the stable ascending sort by name of the matching records.
   */
  lemma FilterOrder(catalog: seq<Policy>, c: Criteria)
    requires FilterOutcome(catalog, c).Success?
    ensures c.sortOrder.None? || EqualsIgnoreCase(DESC, c.sortOrder.value) ==>
              FilterOutcome(catalog, c).value == Matching(catalog, c)
    ensures c.sortOrder.Some? && !EqualsIgnoreCase(DESC, c.sortOrder.value) ==>
              FilterOutcome(catalog, c).value == SortByName(Matching(catalog, c))
  {
  }

  /** The query throws exactly when a record reaching a premium, type or coverage stage has that field null, or the sort meets a null name. */
  lemma FilterThrowsIff(catalog: seq<Policy>, c: Criteria)
    ensures FilterOutcome(catalog, c).Failure? <==>
              (exists p :: p in catalog && ThrowsBy(p, c, 3))
              || (SortThrows(Matching(catalog, c)) && c.sortOrder.Some?)
  {
  }

  // ---------------------------------------------------------------------
  // getPoliciesWithTotalCount

  /**
   * The values of the response map: the page of records under "policies",
   * and under "totalPages" a number of records (not of pages).
   */
  datatype OutputValue = PolicyPage(policies: seq<Policy>) | RecordCount(count: int)

  const POLICIES_KEY: string := "policies"
  const TOTAL_PAGES_KEY: string := "totalPages"

  // ---------------------------------------------------------------------
  // The service object

  /** PolicyService: the catalog, loaded once, and the queries over it. */
  class PolicyService {
    var policyList: seq<Policy>

    constructor ()
      ensures policyList == []
    {
      policyList := [];
    }

    /**
     * loadPolicies, given the outcome of reading the JSON resource (None for
     * a null result or a failed read): only a non-empty load replaces the catalog.
     */
    method LoadPolicies(loaded: Option<seq<Policy>>)
      modifies this
      ensures policyList == if NullOrEmptyCollection(loaded) then old(policyList) else loaded.value
    {
      if !NullOrEmptyCollection(loaded) {
        policyList := loaded.value;
      }
    }

    function GetPolicies(): (r: seq<Policy>)
      reads this
      ensures r == policyList
    {
      policyList
    }

    /** getPolicies(page, size): the same slicing as Paginate, on the catalog. */
    function GetPoliciesPage(page: int, size: int): (r: Result<seq<Policy>>)
      reads this
      requires PageFitsInt(page, size)
      ensures r == Paginate(page, size, policyList)
    {
      var start := Min(page * size, |policyList|);
      var end := Min(start + size, |policyList|);
      if start < 0 then Failure(IndexOutOfBoundsException)
      else if start > end then Failure(IllegalArgumentException)
      else Success(policyList[start..end])
    }

    /**
     * getPoliciesWithTotalCount: without a name, the catalog page and, when
     * asked for, the catalog size; with a name, the page of the name matches
     * and always their number, whatever the flag says.
     */
    method GetPoliciesWithTotalCount(page: int, size: int, name: Option<string>, totalPagesRequired: bool)
      returns (r: Result<map<string, OutputValue>>)
      requires PageFitsInt(page, size)
      ensures NullOrEmptyString(name) ==>
                && r.Success? == Paginate(page, size, policyList).Success?
                && (r.Success? ==> r.value.Keys == {POLICIES_KEY} + (if totalPagesRequired then {TOTAL_PAGES_KEY} else {}))
                && (r.Success? ==> r.value[POLICIES_KEY] == PolicyPage(Paginate(page, size, policyList).value))
                && (r.Success? && totalPagesRequired ==> r.value[TOTAL_PAGES_KEY] == RecordCount(|policyList|))
                && (r.Failure? ==> r.fault == Paginate(page, size, policyList).fault)
      ensures !NullOrEmptyString(name) ==>
                var byName := GetPoliciesByName(policyList, name);
                && r.Success? == Paginate(page, size, byName).Success?
                && (r.Success? ==> r.value.Keys == {POLICIES_KEY, TOTAL_PAGES_KEY})
                && (r.Success? ==> r.value[POLICIES_KEY] == PolicyPage(Paginate(page, size, byName).value))
                && (r.Success? ==> r.value[TOTAL_PAGES_KEY] == RecordCount(|byName|))
                && (r.Failure? ==> r.fault == Paginate(page, size, byName).fault)
    {
      var uiOutputMap: map<string, OutputValue> := map[];
      if NullOrEmptyString(name) {
        var policies :- GetPoliciesPage(page, size);
        uiOutputMap := uiOutputMap[POLICIES_KEY := PolicyPage(policies)];
        if totalPagesRequired {
          uiOutputMap := uiOutputMap[TOTAL_PAGES_KEY := RecordCount(|GetPolicies()|)];
        }
      } else {
        var policiesByName := GetPoliciesByName(policyList, name);
        var policies :- Paginate(page, size, policiesByName);
        uiOutputMap := uiOutputMap[POLICIES_KEY := PolicyPage(policies)];
        uiOutputMap := uiOutputMap[TOTAL_PAGES_KEY := RecordCount(|policiesByName|)];
      }
      r := Success(uiOutputMap);
    }

    /**
     * filterPolicies: the active stages (premium range, type, minimum
     * coverage, name) run in that order, each on the previous stage's list;
     * an empty stage result is returned at once; what survives is sorted.
     */
    method FilterPolicies(minPremium: Option<int>, maxPremium: Option<int>, policyType: Option<string>,
                          minCoverage: Option<int>, sortOrder: Option<string>, policyName: Option<string>)
      returns (r: Result<seq<Policy>>)
      ensures r == FilterOutcome(policyList,
                                 Criteria(minPremium, maxPremium, policyType, minCoverage, sortOrder, policyName))
    {
      ghost var c := Criteria(minPremium, maxPremium, policyType, minCoverage, sortOrder, policyName);
      ghost var catalog := policyList;
      var filtered := GetPolicies();
      StartStage(catalog, c);

      if !NullOrEmptyInteger(maxPremium) && !NullOrEmptyInteger(minPremium) {
        PremiumStage(catalog, c, filtered);
        var stage := FilterByPremiumRange(filtered, minPremium, maxPremium);
        if stage.Failure? { return stage; }
        filtered := stage.value;
        if |filtered| == 0 {
          ShortCircuit(catalog, c, 1, filtered);
          return Success(filtered);
        }
      } else {
        SkipStage(catalog, c, 1, filtered);
      }

      if !NullOrEmptyString(policyType) {
        TypeStage(catalog, c, filtered);
        var stage := FilterByPolicyType(filtered, policyType);
        if stage.Failure? { return stage; }
        filtered := stage.value;
        if |filtered| == 0 {
          ShortCircuit(catalog, c, 2, filtered);
          return Success(filtered);
        }
      } else {
        SkipStage(catalog, c, 2, filtered);
      }

      if !NullOrEmptyInteger(minCoverage) {
        CoverageStage(catalog, c, filtered);
        var stage := FilterByCoverage(filtered, minCoverage);
        if stage.Failure? { return stage; }
        filtered := stage.value;
        if |filtered| == 0 {
          ShortCircuit(catalog, c, 3, filtered);
          return Success(filtered);
        }
      } else {
        SkipStage(catalog, c, 3, filtered);
      }

      if !NullOrEmptyString(policyName) {
        NameStage(catalog, c, filtered);
        filtered := GetPoliciesByName(filtered, policyName);
        if |filtered| == 0 {
          ShortCircuit(catalog, c, 4, filtered);
          return Success(filtered);
        }
      } else {
        SkipStage(catalog, c, 4, filtered);
      }

      FinalStage(catalog, c, filtered);
      r := SortPolicies(filtered, sortOrder);
    }
  }

  // Proof steps of FilterPolicies, one per stage.

  /**
   * The state of filterPolicies after its first `k` stages: `filtered` holds
   * the catalog records that pass them, and none of them threw.
   */
  ghost predicate Reached(catalog: seq<Policy>, c: Criteria, k: nat, filtered: seq<Policy>) {
    && filtered == Filter(catalog, Through(c, k))
    && forall p :: p in catalog ==> !ThrowsBy(p, c, k)
  }

  lemma StartStage(catalog: seq<Policy>, c: Criteria)
    ensures Reached(catalog, c, 0, catalog)
  {
    FilterKeepsAll(catalog, Through(c, 0));
  }

  /** An inactive stage `k` changes neither the surviving records nor who throws. */
  lemma SkipStage(catalog: seq<Policy>, c: Criteria, k: nat, filtered: seq<Policy>)
    requires 1 <= k <= 4
    requires k == 1 ==> !PremiumActive(c)
    requires k == 2 ==> !TypeActive(c)
    requires k == 3 ==> !CoverageActive(c)
    requires k == 4 ==> !NameActive(c)
    requires Reached(catalog, c, k - 1, filtered)
    ensures Reached(catalog, c, k, filtered)
  {
    FilterAgree(catalog, Through(c, k - 1), Through(c, k));
  }

  /** The premium stage runs on the whole catalog. */
  lemma PremiumStage(catalog: seq<Policy>, c: Criteria, filtered: seq<Policy>)
    requires PremiumActive(c)
    requires Reached(catalog, c, 0, filtered)
    ensures var stage := FilterByPremiumRange(filtered, c.minPremium, c.maxPremium);
            && (stage.Failure? ==> FilterOutcome(catalog, c) == stage)
            && (stage.Success? ==> Reached(catalog, c, 1, stage.value))
  {
    var stage := FilterByPremiumRange(filtered, c.minPremium, c.maxPremium);
    FilterKeepsAll(catalog, Through(c, 0));
    if stage.Failure? {
      var w :| w in filtered && w.premium.None?;
      assert ThrowsBy(w, c, 3);
    } else {
      FilterThenFilter(catalog, Through(c, 0), PremiumFilter(c.minPremium, c.maxPremium), Through(c, 1));
    }
  }

  /** The type stage runs on the records that met the premium stage. */
  lemma TypeStage(catalog: seq<Policy>, c: Criteria, filtered: seq<Policy>)
    requires TypeActive(c)
    requires Reached(catalog, c, 1, filtered)
    ensures var stage := FilterByPolicyType(filtered, c.policyType);
            && (stage.Failure? ==> FilterOutcome(catalog, c) == stage)
            && (stage.Success? ==> Reached(catalog, c, 2, stage.value))
  {
    var stage := FilterByPolicyType(filtered, c.policyType);
    if stage.Failure? {
      var w :| w in filtered && w.policyType.None?;
      FilterMembers(catalog, Through(c, 1), w);
      assert ThrowsBy(w, c, 3);
    } else {
      FilterThenFilter(catalog, Through(c, 1), TypeFilter(c.policyType), Through(c, 2));
      forall p | p in catalog ensures !ThrowsBy(p, c, 2) {
        FilterMembers(catalog, Through(c, 1), p);
      }
    }
  }

  /** The coverage stage runs on the records that met the premium and type stages. */
  lemma CoverageStage(catalog: seq<Policy>, c: Criteria, filtered: seq<Policy>)
    requires CoverageActive(c)
    requires Reached(catalog, c, 2, filtered)
    ensures var stage := FilterByCoverage(filtered, c.minCoverage);
            && (stage.Failure? ==> FilterOutcome(catalog, c) == stage)
            && (stage.Success? ==> Reached(catalog, c, 3, stage.value))
  {
    var stage := FilterByCoverage(filtered, c.minCoverage);
    if stage.Failure? {
      var w :| w in filtered && w.coverage.None?;
      FilterMembers(catalog, Through(c, 2), w);
      assert ThrowsBy(w, c, 3);
    } else {
      FilterThenFilter(catalog, Through(c, 2), CoverageFilter(c.minCoverage), Through(c, 3));
      forall p | p in catalog ensures !ThrowsBy(p, c, 3) {
        FilterMembers(catalog, Through(c, 2), p);
      }
    }
  }

  /** The name stage never throws. */
  lemma NameStage(catalog: seq<Policy>, c: Criteria, filtered: seq<Policy>)
    requires NameActive(c)
    requires Reached(catalog, c, 3, filtered)
    ensures Reached(catalog, c, 4, GetPoliciesByName(filtered, c.name))
  {
    FilterThenFilter(catalog, Through(c, 3), NameFilter(c.name), Through(c, 4));
  }

  /** A stage that leaves nothing ends the query with an empty list, whatever the later stages would do. */
  lemma ShortCircuit(catalog: seq<Policy>, c: Criteria, k: nat, filtered: seq<Policy>)
    requires Reached(catalog, c, k, filtered) && |filtered| == 0
    ensures FilterOutcome(catalog, c) == Success(filtered)
  {
    forall p | p in catalog ensures !ThrowsBy(p, c, 3) && !Through(c, 4)(p) {
      FilterMembers(catalog, Through(c, k), p);
    }
    FilterEmpty(catalog, Through(c, 4));
  }

  /** What survives every stage without a throw is sorted. */
  lemma FinalStage(catalog: seq<Policy>, c: Criteria, filtered: seq<Policy>)
    requires Reached(catalog, c, 4, filtered)
    ensures FilterOutcome(catalog, c) == SortPolicies(filtered, c.sortOrder)
  {
  }
}
