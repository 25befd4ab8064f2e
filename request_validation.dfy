/**
 * RequestValidationInterceptor.preHandle as a decision over the request URI
 * and its parameter map: the request either proceeds to its handler or is
 * refused with an InvalidRequestException carrying a message.
 */
module RequestValidation {
  import opened Wrappers
  import opened Strings

  const FILTER_PATH: string := "/filter"
  const POLICIES_PATH: string := "/policies"
  const SEARCH_PATH: string := "/search"

  const NO_FILTER_MESSAGE: string := "At least one filter parameter must be provided."
  const RANGE_MESSAGE: string := "Page must be >= 0 and size must be > 0."
  const FORMAT_MESSAGE: string := "Page and size must be valid integers."

  /** The servlet parameter map: each parameter name with its values, in request order. */
  type ParameterMap = map<string, seq<string>>

  /** preHandle returns true, or throws InvalidRequestException(message). */
  datatype Verdict = Proceed | InvalidRequest(message: string)

  /** request.getParameter(key): the first value, or null when the parameter is absent. */
  function GetParameter(params: ParameterMap, key: string): (r: Option<string>)
    ensures r.Some? <==> key in params && |params[key]| > 0
    ensures r.Some? ==> r.value == params[key][0]
  {
    if key in params && |params[key]| > 0 then Some(params[key][0]) else None
  }

  /** A listing request: under "/policies" but neither a filter nor a search. */
  predicate IsListingUri(uri: string) {
    Contains(uri, POLICIES_PATH) && !Contains(uri, FILTER_PATH) && !Contains(uri, SEARCH_PATH)
  }

  /** A present `page` that parses to a non-negative int, or no page at all. */
  predicate PageInRange(page: Option<string>) {
    page.None? || (ParseInt(page.value).Some? && ParseInt(page.value).value >= 0)
  }

  /** A present `size` that parses to a positive int, or no size at all. */
  predicate SizeInRange(size: Option<string>) {
    size.None? || (ParseInt(size.value).Some? && ParseInt(size.value).value > 0)
  }

  /** The parameter is present and Integer.parseInt throws NumberFormatException on it. */
  predicate Malformed(param: Option<string>) {
    param.Some? && ParseInt(param.value).None?
  }

  /**
   * The pagination check of a listing request. The condition is evaluated
   * left to right with short-circuit `||`: `page` is parsed and compared
   * before `size` is parsed, and a parse failure anywhere becomes the
   * integer message.
   */
  function CheckPagination(page: Option<string>, size: Option<string>): (v: Verdict)
    ensures v == Proceed <==> PageInRange(page) && SizeInRange(size)
    ensures v.InvalidRequest? ==> v.message == RANGE_MESSAGE || v.message == FORMAT_MESSAGE
    ensures v == InvalidRequest(FORMAT_MESSAGE) <==>
              Malformed(page) || (PageInRange(page) && Malformed(size))
  {
    if page.Some? && ParseInt(page.value).None? then InvalidRequest(FORMAT_MESSAGE)
    else if page.Some? && ParseInt(page.value).value < 0 then InvalidRequest(RANGE_MESSAGE)
    else if size.Some? && ParseInt(size.value).None? then InvalidRequest(FORMAT_MESSAGE)
    else if size.Some? && ParseInt(size.value).value <= 0 then InvalidRequest(RANGE_MESSAGE)
    else Proceed
  }

  /** preHandle(request): the filter check, then the pagination check of listing requests. */
  function PreHandle(uri: string, params: ParameterMap): (v: Verdict)
    ensures Contains(uri, FILTER_PATH) ==>
              v == if |params| == 0 then InvalidRequest(NO_FILTER_MESSAGE) else Proceed
    ensures IsListingUri(uri) ==>
              v == CheckPagination(GetParameter(params, "page"), GetParameter(params, "size"))
    ensures !Contains(uri, FILTER_PATH) && !IsListingUri(uri) ==> v == Proceed
  {
    if Contains(uri, FILTER_PATH) && |params| == 0 then InvalidRequest(NO_FILTER_MESSAGE)
    else if IsListingUri(uri) then CheckPagination(GetParameter(params, "page"), GetParameter(params, "size"))
    else Proceed
  }

  // ---------------------------------------------------------------------
  // Properties of the decision

  /** A filter request always passes once it carries any parameter, whatever its page and size say. */
  lemma FilterWithParametersProceeds(uri: string, params: ParameterMap, key: string)
    requires Contains(uri, FILTER_PATH) && key in params
    ensures PreHandle(uri, params) == Proceed
  {
  }

  /** A request proceeds exactly when it is a listing request with good pagination, or a filter request with parameters, or neither. */
  lemma ProceedIff(uri: string, params: ParameterMap)
    ensures PreHandle(uri, params) == Proceed <==>
              if Contains(uri, FILTER_PATH) then |params| > 0
              else IsListingUri(uri) ==>
                PageInRange(GetParameter(params, "page")) && SizeInRange(GetParameter(params, "size"))
  {
  }

  /** The messages a rejection can carry, and from which kind of request. */
  lemma RejectionMessages(uri: string, params: ParameterMap)
    requires PreHandle(uri, params).InvalidRequest?
    ensures PreHandle(uri, params).message == NO_FILTER_MESSAGE <==> Contains(uri, FILTER_PATH)
    ensures PreHandle(uri, params).message != NO_FILTER_MESSAGE ==> IsListingUri(uri)
  {
  }

  /** A page written as a negative 32-bit integer is refused with the range message, whatever the size. */
  lemma NegativePageRejected(p: int, size: Option<string>)
    requires IsInt32(p) && p < 0
    ensures CheckPagination(Some(FormatInt(p)), size) == InvalidRequest(RANGE_MESSAGE)
  {
    ParseFormatted(p);
  }

  /** A size written as a 32-bit integer that is zero or negative is refused with the range message. */
  lemma NonPositiveSizeRejected(page: Option<string>, s: int)
    requires IsInt32(s) && s <= 0 && PageInRange(page)
    ensures CheckPagination(page, Some(FormatInt(s))) == InvalidRequest(RANGE_MESSAGE)
  {
    ParseFormatted(s);
  }

  /** A page or size given as a decimal integer outside the 32-bit range is refused as not an integer. */
  lemma OutOfRangeRejected(n: int, other: Option<string>)
    requires !IsInt32(n)
    ensures CheckPagination(Some(FormatInt(n)), other) == InvalidRequest(FORMAT_MESSAGE)
    ensures PageInRange(other) ==>
              CheckPagination(other, Some(FormatInt(n))) == InvalidRequest(FORMAT_MESSAGE)
  {
    ParseFormatted(n);
  }

  /** Every page from 0 and size from 1, written in decimal, passes. */
  lemma GoodPaginationProceeds(p: int, s: int)
    requires IsInt32(p) && IsInt32(s) && p >= 0 && s > 0
    ensures CheckPagination(Some(FormatInt(p)), Some(FormatInt(s))) == Proceed
  {
    ParseFormatted(p);
    ParseFormatted(s);
  }

  /** `page=-1&size=abc`: the page is checked first, so the range message wins. */
  lemma PageCheckedFirst()
    ensures CheckPagination(Some("-1"), Some("abc")) == InvalidRequest(RANGE_MESSAGE)
    ensures CheckPagination(Some("abc"), None) == InvalidRequest(FORMAT_MESSAGE)
    ensures CheckPagination(Some("abc"), Some("-1")) == InvalidRequest(FORMAT_MESSAGE)
  {
    assert !AllDigits("abc") by {
      assert !IsDigit("abc"[0]);
    }
    ParseFormatted(-1);
    assert FormatInt(-1) == "-1";
  }

  /** An empty value ("page=") is not an integer. */
  lemma EmptyValueRejected(other: Option<string>)
    ensures CheckPagination(Some(""), other) == InvalidRequest(FORMAT_MESSAGE)
  {
  }

  /**
   * A page or size with a character that is not a digit, other than a
   * leading sign, is refused as not an integer; for the size, once the
   * page is good.
   */
  lemma NonNumericRejectedAsMalformed(s: string, i: int, other: Option<string>)
    requires 0 <= i < |s| && !IsDigit(s[i]) && !(i == 0 && (s[0] == '-' || s[0] == '+'))
    ensures CheckPagination(Some(s), other) == InvalidRequest(FORMAT_MESSAGE)
    ensures PageInRange(other) ==> CheckPagination(other, Some(s)) == InvalidRequest(FORMAT_MESSAGE)
  {
    NonNumericRejected(s, i);
  }

  /** Absent page and size pass, on every listing request. */
  lemma AbsentPaginationProceeds(uri: string, params: ParameterMap)
    requires IsListingUri(uri)
    requires "page" !in params && "size" !in params
    ensures PreHandle(uri, params) == Proceed
  {
  }

  /** A search request is never refused, whatever its parameters. */
  lemma SearchProceeds(uri: string, params: ParameterMap)
    requires Contains(uri, SEARCH_PATH) && !Contains(uri, FILTER_PATH)
    ensures PreHandle(uri, params) == Proceed
  {
  }

  /** One character of `t` that never occurs in `s` rules out every occurrence of `t`. */
  lemma MissingCharacter(s: string, t: string, c: char)
    requires c in t && c !in s
    ensures !Contains(s, t)
  {
    if exists i :: OccursAt(s, t, i) {
      var i :| OccursAt(s, t, i);
    }
  }

  /**
   * A URI under "/policies" with no 'f' and no 'h' in it is a listing
   * request, so its page and size are checked; "/policies/getPolicyTypes" is one.
   */
  lemma ListingWithoutFilterOrSearch(uri: string)
    requires StartsWith(uri, POLICIES_PATH)
    requires 'f' !in uri && 'h' !in uri
    ensures IsListingUri(uri)
  {
    assert 'f' in FILTER_PATH && 'h' in SEARCH_PATH;
    MissingCharacter(uri, FILTER_PATH, 'f');
    MissingCharacter(uri, SEARCH_PATH, 'h');
  }

  lemma PolicyTypesIsListing(uri: string)
    requires uri == "/policies/getPolicyTypes"
    ensures IsListingUri(uri)
  {
    assert uri[..|POLICIES_PATH|] == POLICIES_PATH;
    ListingWithoutFilterOrSearch(uri);
  }
}
