# mivdhi-server query core in Dafny

This project models the query core of mivdhi-server, a Spring service that
serves an in-memory catalog of insurance policies. The model covers:

- **PolicyService**: the catalog, loaded once, and the queries over it:
  - clamped paging with `subList`;
  - the page plus count response;
  - the case-insensitive name search;
  - the staged filter pipeline (premium range, type, minimum coverage, name) with an early return on an empty stage;
  - the final sort by name.
- **RequestValidationInterceptor.preHandle**: the decision to let a request through or refuse it with `InvalidRequestException(message)`, including `Integer.parseInt`.
- **CommonUtils**: the three `nullOrEmpty` overloads. They decide which criteria count as supplied.
- **PolicyController**: the parameter defaults.

Java semantics are written out as follows:

- Every `Policy` field is nullable, so each is an `Option` (`None` is null).
- A Java exception thrown inside the service is a `Result.Failure`:
  - a `NullPointerException` from unboxing a null `Integer`, dereferencing a null type, or comparing a null name in the sort;
  - the `IndexOutOfBoundsException` and `IllegalArgumentException` that `subList` throws.
- The stream operations used are modelled in module `Streams`: the order-preserving `filter`, and a filter whose predicate can throw.
- The `String`, `Character` and `Integer` behaviour used is modelled in module `Strings`: `isBlank`, `toLowerCase`, `equalsIgnoreCase`, `contains`, `compareTo`, `parseInt`.

Modules, one per source unit:

| module | file | models |
|---|---|---|
| `Wrappers` | wrappers.dfy | null and exceptions |
| `Streams` | streams.dfy | `stream().filter(..).toList()` |
| `Strings` | strings.dfy | the java.lang string and integer operations used |
| `CommonUtils` | common_utils.dfy | `CommonUtils` |
| `PolicyModel` | policy.dfy | `Policy` |
| `NameOrder` | name_order.dfy | `sorted(Comparator.comparing(Policy::getName))` |
| `PolicyService` | policy_service.dfy | `PolicyService` |
| `RequestValidation` | request_validation.dfy | `RequestValidationInterceptor.preHandle` |
| `PolicyController` | policy_controller.dfy | the controller's parameter defaults |
| `Scenarios` | scenarios.dfy | worked examples |

`filterPolicies` is a method of class `PolicyService.PolicyService`. It reassigns a local list stage by stage and returns early, as the Java code does. It is proved equal to `FilterOutcome`, a stage-free statement of its result:

- a `NullPointerException` when some catalog record reaching an active premium, type or coverage stage has that field null;
- otherwise the catalog records meeting every active criterion (`Matching`), passed through `sortPolicies`.

The soundness, completeness, emptiness, order and exception lemmas are stated about `FilterOutcome`.

Behaviour the model follows as the code is written:

- Sorting happens last, on the filtered records (PolicyService.java:111). It does not happen first.
- A `"desc"` order sorts in reverse but discards the sorted list, so the records come back in catalog order (PolicyService.java:137). The sort still runs, so a null name can still throw there.
- A null premium, type or coverage that reaches an active stage throws a `NullPointerException`. It is not silently excluded (PolicyService.java:117, :124, :130).
- A null name throws as soon as the sort compares it. There is no "absent names first" rule.
- The name stage filters the list left by the earlier stages, despite the comment at PolicyService.java:107.
- The response of `getPoliciesWithTotalCount` is modelled as the map the code fills, with the keys `"policies"` and `"totalPages"`.

## Model

| member | source | states |
|---|---|---|
| CommonUtils.NullOrEmptyCollection | src/main/java/com/example/insurance/util/CommonUtils.java:8-11 | true exactly for null or the empty list |
| CommonUtils.NullOrEmptyInteger | src/main/java/com/example/insurance/util/CommonUtils.java:13-16 | true exactly for null |
| CommonUtils.IntegerSupplied | src/main/java/com/example/insurance/util/CommonUtils.java:15 | zero and negative integers count as supplied |
| CommonUtils.NullOrEmptyString | src/main/java/com/example/insurance/util/CommonUtils.java:18-21 | true exactly for null or a string made only of whitespace |
| CommonUtils.BlankStringsNotSupplied | src/main/java/com/example/insurance/util/CommonUtils.java:20 | "" and any run of spaces are not supplied |
| CommonUtils.NonBlankSupplied | src/main/java/com/example/insurance/util/CommonUtils.java:20 | one non-whitespace character makes a string supplied whatever surrounds it; nothing is trimmed |
| Strings.IsWhitespace | src/main/java/com/example/insurance/util/CommonUtils.java:20 | Character.isWhitespace, as used by isBlank: the Unicode space, line and paragraph separators other than the non-breaking spaces, and the controls U+0009..U+000D and U+001C..U+001F; space, tab, newline and carriage return are whitespace, the non-breaking spaces U+00A0, U+2007 and U+202F are not, and no digit is |
| Strings.IsBlank | src/main/java/com/example/insurance/util/CommonUtils.java:20 | isBlank holds exactly when every character is whitespace |
| Strings.Contains | src/main/java/com/example/insurance/service/PolicyService.java:83 | `contains` holds exactly when the term occurs at some offset |
| Strings.ContainsEmpty | src/main/java/com/example/insurance/service/PolicyService.java:83 | every string contains the empty term |
| Strings.LowerChar | src/main/java/com/example/insurance/service/PolicyService.java:83 | an upper-case ASCII letter becomes its lower-case letter, every other character is unchanged |
| Strings.ToLowerCase | src/main/java/com/example/insurance/service/PolicyService.java:83 | same length, each character lower-cased |
| Strings.EqualsIgnoreCase | src/main/java/com/example/insurance/service/PolicyService.java:124 | equal length and, position by position, characters equal after lower-casing (also used for "desc" at :136); equal strings always match, and matching strings have the same length |
| Strings.EqualsIgnoreCaseIsLowerEquality | src/main/java/com/example/insurance/service/PolicyService.java:124 | equalsIgnoreCase holds exactly when the lower-cased strings are equal |
| Strings.Less | src/main/java/com/example/insurance/service/PolicyService.java:140 | `compareTo < 0`: at the first differing character the smaller one, otherwise the shorter string first; a string never comes before itself, and a proper prefix comes before the longer string; the order properties are the lemmas below |
| Strings.LessIrreflexive | src/main/java/com/example/insurance/service/PolicyService.java:140 | no name sorts before itself |
| Strings.LessTransitive | src/main/java/com/example/insurance/service/PolicyService.java:140 | `compareTo < 0` is transitive |
| Strings.LessTotal | src/main/java/com/example/insurance/service/PolicyService.java:140 | any two distinct names are ordered one way or the other |
| Strings.LessAsymmetric | src/main/java/com/example/insurance/service/PolicyService.java:140 | two names are never each before the other |
| Strings.NotAfterTransitive | src/main/java/com/example/insurance/service/PolicyService.java:140 | `compareTo <= 0` is transitive |
| Strings.ParseInt | src/main/java/com/example/insurance/interceptor/RequestValidationInterceptor.java:33-34 | a parsed value is a 32-bit int, and the text is an optional sign followed by at least one digit and nothing else |
| Strings.NonNumericRejected | src/main/java/com/example/insurance/interceptor/RequestValidationInterceptor.java:33-34 | any character that is not a digit, other than a leading sign, makes parseInt throw ("1a", "5 ", " 5") |
| Strings.ParseFormatted | src/main/java/com/example/insurance/interceptor/RequestValidationInterceptor.java:33-34 | parseInt returns every 32-bit value written in decimal and rejects every value outside the range |
| Streams.Filter | src/main/java/com/example/insurance/service/PolicyService.java:82-84 | the result is no longer than the input and holds only accepted input elements |
| Streams.FilterMembers | src/main/java/com/example/insurance/service/PolicyService.java:82-84 | an element survives exactly when it is in the input and accepted |
| Streams.FilterConcat | src/main/java/com/example/insurance/service/PolicyService.java:82-84 | filtering commutes with concatenation, so relative order is kept |
| Streams.FilterEmpty | src/main/java/com/example/insurance/service/PolicyService.java:82-84 | the result is empty exactly when no element is accepted |
| Streams.FilterThenFilter | src/main/java/com/example/insurance/service/PolicyService.java:97 | filtering twice is filtering once by the conjunction |
| Streams.FilterOrThrow | src/main/java/com/example/insurance/service/PolicyService.java:116-119 | NullPointerException exactly when some element makes the predicate throw; otherwise the plain filter |
| PolicyService.Paginate | src/main/java/com/example/insurance/service/PolicyService.java:51-56 | succeeds exactly when size and page*size are non-negative, with subList's exception otherwise; the result has at most `size` records and exactly `min(size, N - page*size)` of them (none once page*size >= N), each equal to input record page*size+i |
| PolicyService.PageHoldsRecord | src/main/java/com/example/insurance/service/PolicyService.java:51-56 | every record is on page i / size at position i % size, so paging loses nothing |
| PolicyService.PolicyService.GetPolicies | src/main/java/com/example/insurance/service/PolicyService.java:40-42 | the catalog as loaded, in load order |
| PolicyService.PolicyService.GetPoliciesPage | src/main/java/com/example/insurance/service/PolicyService.java:44-49 | the catalog page is Paginate on the catalog |
| PolicyService.GetPoliciesByName | src/main/java/com/example/insurance/service/PolicyService.java:81-85 | every result record is an input record with a name, and the term is non-null |
| PolicyService.ByNameMembers | src/main/java/com/example/insurance/service/PolicyService.java:81-85 | a record is kept exactly when it is an input record and its lower-cased name contains the lower-cased term |
| PolicyService.ByNameKeepsOrder | src/main/java/com/example/insurance/service/PolicyService.java:81-85 | the kept records stay in input order |
| PolicyService.ByNameNullTerm | src/main/java/com/example/insurance/service/PolicyService.java:83 | a null term finds nothing |
| PolicyService.ByNameEmptyTerm | src/main/java/com/example/insurance/service/PolicyService.java:83 | an empty term keeps exactly the records that have a name |
| PolicyService.FilterByPremiumRange | src/main/java/com/example/insurance/service/PolicyService.java:115-120 | throws exactly when a bound is given and some record's premium is null; otherwise keeps, in order, the records with min <= premium <= max |
| PolicyService.FilterByPolicyType | src/main/java/com/example/insurance/service/PolicyService.java:122-126 | throws exactly when a type is given and some record's type is null; otherwise keeps, in order, the records whose type equals it ignoring case |
| PolicyService.FilterByCoverage | src/main/java/com/example/insurance/service/PolicyService.java:128-132 | throws exactly when a minimum is given and some record's coverage is null; otherwise keeps, in order, the records with coverage >= minimum |
| PolicyService.SortPolicies | src/main/java/com/example/insurance/service/PolicyService.java:134-145 | throws exactly when an order is given, there are two or more records and one has a null name; otherwise a permutation, unchanged for a null order or any-case "desc", sorted ascending by name for any other order |
| PolicyService.SortPoliciesStable | src/main/java/com/example/insurance/service/PolicyService.java:139-141 | records sharing a name keep their relative order |
| PolicyService.SortPoliciesIdempotent | src/main/java/com/example/insurance/service/PolicyService.java:134-145 | sorting the result again with the same order changes nothing |
| NameOrder.InsertByName | src/main/java/com/example/insurance/service/PolicyService.java:139-141 | inserting adds exactly the one record |
| NameOrder.SortByName | src/main/java/com/example/insurance/service/PolicyService.java:139-141 | the sort is a permutation |
| NameOrder.SortByNameSorted | src/main/java/com/example/insurance/service/PolicyService.java:139-141 | the sort orders the records by name under compareTo |
| NameOrder.SortByNameStable | src/main/java/com/example/insurance/service/PolicyService.java:139-141 | for every name, the records carrying it keep their input order |
| NameOrder.SortByNameOfSorted | src/main/java/com/example/insurance/service/PolicyService.java:139-141 | an already sorted list is left as it is |
| NameOrder.SortByNameIdempotent | src/main/java/com/example/insurance/service/PolicyService.java:139-141 | sorting twice equals sorting once |
| PolicyService.PolicyService.constructor | src/main/java/com/example/insurance/service/PolicyService.java:19 | the catalog starts empty |
| PolicyService.PolicyService.LoadPolicies | src/main/java/com/example/insurance/service/PolicyService.java:22-38 | a null, empty or failed load leaves the catalog as it was; otherwise the catalog becomes the loaded list |
| PolicyService.PolicyService.GetPoliciesWithTotalCount | src/main/java/com/example/insurance/service/PolicyService.java:59-78 | without a name: the catalog page, with "totalPages" present exactly when requested and equal to the catalog size; with a name: the page of the name matches and always "totalPages" equal to their number; it fails exactly when the page fails, with the same exception as subList: IndexOutOfBoundsException for page*size < 0, IllegalArgumentException for size < 0 |
| PolicyService.PolicyService.FilterPolicies | src/main/java/com/example/insurance/service/PolicyService.java:88-112 | the staged pipeline with early returns yields exactly FilterOutcome: NullPointerException when a record reaching an active stage has that field null, otherwise the matching records then sorted |
| PolicyService.FilterOutcome | src/main/java/com/example/insurance/service/PolicyService.java:88-145 | the stage-free reference for filterPolicies: NullPointerException when a catalog record reaching an active premium, type or coverage stage has that field null, otherwise the matching records in catalog order passed through sortPolicies; its only failure is a NullPointerException, and a success is a permutation of the matching records; FilterSound, FilterComplete, FilterEmptyIff, FilterOrder and FilterThrowsIff are proved about it |
| PolicyService.ShortCircuit | src/main/java/com/example/insurance/service/PolicyService.java:93 | once a stage leaves nothing the query returns the empty list, whatever later stages would do |
| PolicyService.FilterSound | src/main/java/com/example/insurance/service/PolicyService.java:91-109 | every returned record is a catalog record meeting every active criterion |
| PolicyService.FilterComplete | src/main/java/com/example/insurance/service/PolicyService.java:91-109 | no catalog record meeting every active criterion is dropped |
| PolicyService.FilterEmptyIff | src/main/java/com/example/insurance/service/PolicyService.java:93-108 | a successful result is empty exactly when no catalog record meets every active criterion |
| PolicyService.FilterOrder | src/main/java/com/example/insurance/service/PolicyService.java:111 | catalog order under a null or "desc" order; otherwise the stable ascending sort of the matching records |
| PolicyService.FilterThrowsIff | src/main/java/com/example/insurance/service/PolicyService.java:115-145 | the query throws exactly when a record reaching an active premium, type or coverage stage has that field null, or the sort meets a null name |
| RequestValidation.GetParameter | src/main/java/com/example/insurance/interceptor/RequestValidationInterceptor.java:30-31 | the first value of a parameter, or null when it has none |
| RequestValidation.CheckPagination | src/main/java/com/example/insurance/interceptor/RequestValidationInterceptor.java:29-41 | passes exactly when a present page parses to >= 0 and a present size parses to > 0; otherwise one of the two messages, the integer message exactly when the page does not parse, or the page is fine and the size does not parse |
| RequestValidation.PreHandle | src/main/java/com/example/insurance/interceptor/RequestValidationInterceptor.java:16-45 | a "/filter" URI is refused exactly when it has no parameters; a listing URI gets the pagination check; anything else passes |
| RequestValidation.FilterWithParametersProceeds | src/main/java/com/example/insurance/interceptor/RequestValidationInterceptor.java:20-28 | a filter request with any parameter passes, whatever its page and size say |
| RequestValidation.ProceedIff | src/main/java/com/example/insurance/interceptor/RequestValidationInterceptor.java:16-45 | exactly when a request passes |
| RequestValidation.RejectionMessages | src/main/java/com/example/insurance/interceptor/RequestValidationInterceptor.java:24-40 | the missing-parameter message comes exactly from filter URIs, the other two only from listing URIs |
| RequestValidation.NegativePageRejected | src/main/java/com/example/insurance/interceptor/RequestValidationInterceptor.java:33-36 | a negative page gives the range message, whatever the size |
| RequestValidation.NonPositiveSizeRejected | src/main/java/com/example/insurance/interceptor/RequestValidationInterceptor.java:33-36 | a zero or negative size after a good page gives the range message |
| RequestValidation.OutOfRangeRejected | src/main/java/com/example/insurance/interceptor/RequestValidationInterceptor.java:38-40 | a decimal outside the 32-bit range gives the integer message |
| RequestValidation.GoodPaginationProceeds | src/main/java/com/example/insurance/interceptor/RequestValidationInterceptor.java:33-34 | every page from 0 and size from 1 passes |
| RequestValidation.PageCheckedFirst | src/main/java/com/example/insurance/interceptor/RequestValidationInterceptor.java:33-34 | `page=-1&size=abc` gives the range message; `page=abc` gives the integer message |
| RequestValidation.NonNumericRejectedAsMalformed | src/main/java/com/example/insurance/interceptor/RequestValidationInterceptor.java:33-40 | a page, or a size after a good page, with a non-digit other than a leading sign gets the integer message |
| RequestValidation.EmptyValueRejected | src/main/java/com/example/insurance/interceptor/RequestValidationInterceptor.java:38-40 | an empty page value is not an integer |
| RequestValidation.AbsentPaginationProceeds | src/main/java/com/example/insurance/interceptor/RequestValidationInterceptor.java:33 | absent page and size pass |
| RequestValidation.SearchProceeds | src/main/java/com/example/insurance/interceptor/RequestValidationInterceptor.java:28 | a search request is never refused |
| RequestValidation.ListingWithoutFilterOrSearch | src/main/java/com/example/insurance/interceptor/RequestValidationInterceptor.java:28 | a URI under "/policies" with no 'f' and no 'h' is a listing request |
| RequestValidation.PolicyTypesIsListing | src/main/java/com/example/insurance/interceptor/RequestValidationInterceptor.java:28 | "/policies/getPolicyTypes" gets the pagination check |
| PolicyController.WithDefault | src/main/java/com/example/insurance/controller/PolicyController.java:47 | an absent or empty parameter takes the default |
| PolicyController.BindInt | src/main/java/com/example/insurance/controller/PolicyController.java:23-24 | an absent page or size binds its default; a bound value is a 32-bit int |
| PolicyController.FilterCriteria | src/main/java/com/example/insurance/controller/PolicyController.java:41-50 | `coverage` becomes the minimum coverage, and a missing sort order becomes "aesc" |
| PolicyController.DefaultOrderSortsAscending | src/main/java/com/example/insurance/controller/PolicyController.java:47 | the default "aesc" is the ascending sort by name |
| PolicyController.ControllerFilterSorted | src/main/java/com/example/insurance/controller/PolicyController.java:41-50 | a filter request without a sort order returns the matching records sorted by name |
| PolicyController.ValidatedListingPages | src/main/java/com/example/insurance/controller/PolicyController.java:22-31 | a listing request that passes validation binds a page from 0 and a size from 1, so its page never throws when `page*size + size` fits in an int |
| Scenarios.HomeFilterScenario | src/main/java/com/example/insurance/service/PolicyService.java:88-112 | three records filtered by premium 100..150 and type "home" give "Home Basic" then "Home Plus" |
| Scenarios.PageBeyondTheEnd | src/main/java/com/example/insurance/service/PolicyService.java:44-49 | page 5 of size 10 over three records is empty, not an error |
| Scenarios.ListingBeyondTheEnd | src/main/java/com/example/insurance/service/PolicyService.java:59-78 | a service loaded with three records answers page 5 of size 10 with totalPagesRequired by no policies and a "totalPages" of 3 |
| Scenarios.EmptyFilterRequestRefused | src/main/java/com/example/insurance/interceptor/RequestValidationInterceptor.java:20-25 | "/policies/filter" with no parameters is refused |
| Scenarios.BadListingRequestsRefused | src/main/java/com/example/insurance/interceptor/RequestValidationInterceptor.java:28-41 | page=-1, size=0 and page=abc on "/policies" are refused with the right messages |

## Left out

- JSON loading: reading `/insurance_policies.json` with Jackson is I/O. `LoadPolicies` takes the outcome of the read as a parameter, with None for a null result or a failed read.
- Logging: it has no effect on results.
- Aliasing: `getPolicies()` returns the catalog list itself and `subList` returns a view, so a caller could mutate the catalog through them. The model works on values.
- Static state: the catalog is a static field in Java. Here it is a field of the service object.
- Concurrency: there is none in the source.
- PolicyService.Paginate: it requires `page * size` and `page * size + size` to fit in an int (`PageFitsInt`), so the 32-bit wrap-around of the offsets is not modelled. The same holds for PolicyService.PolicyService.GetPoliciesPage and PolicyService.PolicyService.GetPoliciesWithTotalCount.
- PolicyController.ValidatedListingPages: it promises a page without an exception only when `page * size + size` fits in an int. Validation does not ensure that: `page=1&size=2147483647` wraps the end offset negative and `subList` throws IllegalArgumentException, and `page=3&size=1000000000` wraps the start negative and `subList` throws IndexOutOfBoundsException.
- Case folding: `toLowerCase` and `equalsIgnoreCase` are modelled on ASCII letters only. Java also folds other Unicode letters, some of them in a locale-dependent way (for example 'ſ' and the Kelvin sign).
- Strings.ParseInt: it accepts ASCII digits only. `Integer.parseInt` also accepts digits of other Unicode scripts.
- compareTo: a Dafny `char` is a Unicode code point, so the model orders strings by code point. Java's `compareTo` compares UTF-16 code units, so the two differ when a supplementary character (U+10000 and above, a surrogate pair from 0xD800) is compared with a character in U+E000..U+FFFF: the model puts U+10000 after U+FFFF, Java puts it first. Lengths count code points too, which also affects the length test in `EqualsIgnoreCase`.
- Policy id: the `Long` id is an unbounded `int`. No operation reads it.
- Routing: PolicyController's routing and the `getPolicyTypes` endpoint (PolicyController.java:53-57) are left out. The latter projects the catalog onto its set of types.
- PolicyController.BindInt: Spring's conversion of a query parameter to `int`, `Integer` or `boolean` is not part of the source. `BindInt` binds page and size with `Integer.parseInt` and the default; Spring's number conversion also trims whitespace and accepts `0x`/`#` hexadecimal, which is not modelled. On a listing URI the interceptor refuses such text before binding, because `parseInt` rejects it. The other parameters are taken as already bound.
- Response ordering: the response map is a `LinkedHashMap`. Its key order ("policies" first) is not modelled.
- GlobalExceptionHandler: it turns InvalidRequestException into a 400 response and any other exception into a 500 response, each with a wall-clock timestamp. It is framework advice and is not modelled.
- Wiring: WebConfig (interceptor registration, CORS) and MivdhiServer (startup) are not part of this model.
