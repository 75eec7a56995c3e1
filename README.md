# Employee and department search specifications, in Dafny

This project models the query-building core of a Spring Data JPA service over
employees, departments, projects and users, and proves what the queries it
builds select.

The source builds JPA `Specification`s: lambdas that, given a root, a query and
a `CriteriaBuilder`, create joins and return a predicate. Here a specification
is a value `Criteria.Query`. It holds the inner joins that were created,
each recorded by its relationship chain from the root, and a predicate tree
`Criteria.Pred` (AND, OR, comparisons, `in`, `like(lower(..))`, `between`).
`Criteria.Matches` evaluates a query on a row. A row is an entity instance
with its attribute values and, per relationship, the related instances. A test
on a joined attribute holds when some instance reached through the chain passes
it. A missing attribute is SQL NULL and passes no test. The attribute and
relationship names each entity declares form the schema (`Schema`). Reading an
undeclared attribute or joining an undeclared relationship raises an error, as
JPA does.

The modules follow the source:

- `EmployeeSpecification`:
  - the free-text search;
  - the search by the user who created the employee's department, eager and
    lazy;
  - `byFilters`, which applies a filter list to root attributes. It is
    modelled as a method whose loop appends one predicate per filter;
  - `byFiltersWithJoin`, which also resolves dotted columns such as
    `department.createdBy.username` into inner joins. It is a method with the
    same loop, and it resolves each column in a second loop that walks the
    relationship chain one step at a time.
- `GenericSpecification`: a class holding its filter list in a constant field,
  whose `ToPredicate` method folds the list with AND. Unlike the employee
  translators, it maps `lessThan`/`lessThanEqual` by their names and skips
  unknown tags.
- `DepartmentSpecification`: four guarded single conditions (location, creator
  name, budget, creation time window).
- `CommonService`:
  - the composition of the department conditions with AND;
  - the listings, which return null when nothing is found;
  - the paging arithmetic, with 32-bit wrap-around;
  - the response envelope.
- `JavaText`: the string operations these rely on, modelled as Java and
  Spring define them. It covers `trim`, `toLowerCase` (ASCII letters),
  `equalsIgnoreCase`, `String.split` (trailing empty fields dropped),
  `StringUtils.hasText` and LIKE matching with `%` and `_`.

Errors that the source raises as exceptions are `Err` values of
`Criteria.Error`:
- a failed cast of the filter value;
- an unknown operation tag;
- an unknown attribute or relationship;
- a dotted column with no parts;
- a null filter list.

Each error is raised at the point where the source raises it.

The discrepancies in the source are modelled as written and exhibited by
lemmas:
- both employee translators build `<=` for `lessThan` and `<` for
  `lessThanEqual` (`GenericSpecification.JoinTranslatorSwapsLessTags`,
  `GenericSpecification.LessThanDiffersOnTheBound`);
- the generic translator ignores unknown tags where the employee ones throw;
- `byFiltersWithJoin` creates its joins afresh for every filter;
- page 0 becomes index -1;
- the envelope's `totalElements` is the number of pages
  (`CommonService.TotalElementsReportsPages`).

In several places the intended behaviour and the code differ. The model
follows the code:
- Joins are meant to be shared per relationship and query. The code creates a
  fresh join for each filter (`EmployeeSpecification.RepeatedFilterJoinsTwice`,
  `EmployeeSpecification.RepeatedPathJoinsTwice`).
- `lessThan` is meant to be `<` and `lessThanEqual` to be `<=`. The employee
  translators swap the two.
- An unknown operation tag is meant to fail. The generic translator skips it.
- A value is meant to be converted to the field's type, with a failed
  conversion reported. The code passes the value through to the criteria
  builder, and the model compares values of different kinds as unequal and
  unordered.
- OR is meant to be selectable as an alternative to AND. The code only
  combines with AND.
- A page size below 1 is meant to be rejected or clamped, and `totalElements`
  is meant to be the row count. The code passes the size through and reports
  the page count.
- The generic translator reads each column off the root and does not split
  dotted paths, so a dotted column is an unknown attribute
  (`GenericSpecification.DottedColumnIsUnknown`).

## Model

| member | source | states |
|---|---|---|
| Criteria.AndSpec | src/main/java/com/example/service/CommonService.java:58-62 | a row matches the combination of two specifications exactly when it matches both |
| Criteria.ConjIff | src/main/java/com/example/specification/EmployeeSpecification.java:113 | an AND of predicates holds exactly when each of them holds |
| Criteria.TrueQueryMatchesAll | src/main/java/com/example/specification/EmployeeSpecification.java:89-91 | the conjunction returned for a null or empty filter list selects every row |
| Criteria.SingletonConnectives | src/main/java/com/example/specification/EmployeeSpecification.java:79-81 | an OR (and an AND) of a single predicate is that predicate |
| Criteria.HoldsMeaning | src/main/java/com/example/specification/GenericSpecification.java:34-40 | equal, notEqual, greaterThan, lessThan, greaterThanOrEqualTo and lessThanOrEqualTo test what their names say, on values of the same kind |
| Criteria.LikeMeaning | src/main/java/com/example/specification/GenericSpecification.java:36 | like(lower(x), "%" + lower(v) + "%") with a wildcard-free v holds exactly when lower(v) is a substring of lower(x) |
| Criteria.AtomOnRoot | src/main/java/com/example/specification/GenericSpecification.java:30 | a test on a root attribute looks only at that attribute, and fails when it is NULL |
| Criteria.WalkPrefixFailure | src/main/java/com/example/specification/EmployeeSpecification.java:137-139 | when a prefix of a relationship chain fails to join, the whole chain fails with that prefix's error |
| Criteria.MapAllOk | src/main/java/com/example/specification/EmployeeSpecification.java:95-111 | translating a filter list succeeds exactly when every filter translates, and then yields every filter's predicate, in list order |
| Criteria.MapAllFirstFailure | src/main/java/com/example/specification/EmployeeSpecification.java:95-111 | translating a filter list raises the exception of the first filter that fails |
| JavaText.TrimEmptyIff | src/main/java/com/example/specification/EmployeeSpecification.java:24 | `trim().isEmpty()` holds exactly when every character is at or below U+0020 |
| JavaText.BlankTestsDiffer | src/main/java/com/example/specification/DepartmentSpecification.java:16 | `hasText` and `trim().isEmpty()` disagree on an ideographic space and on a NUL character |
| JavaText.EqualsIgnoreCaseIff | src/main/java/com/example/service/CommonService.java:121 | `equalsIgnoreCase` holds exactly when both strings lower-case to the same string |
| JavaText.LikeExact | src/main/java/com/example/specification/EmployeeSpecification.java:64 | a LIKE pattern without wildcards matches only itself |
| JavaText.LikeContains | src/main/java/com/example/specification/EmployeeSpecification.java:27 | the pattern "%" + s + "%" with a wildcard-free s matches exactly the texts containing s |
| JavaText.LowerConcat | src/main/java/com/example/specification/DepartmentSpecification.java:24-25 | lower-casing a concatenation lower-cases each part |
| JavaText.UpperPatternNeverMatchesLowered | src/main/java/com/example/specification/EmployeeSpecification.java:80 | a pattern with an upper-case literal never matches a lower-cased text |
| JavaText.JavaSplitFieldsFree | src/main/java/com/example/specification/EmployeeSpecification.java:134 | no part produced by splitting on the dot contains a dot |
| JavaText.JavaSplitJoin | src/main/java/com/example/specification/EmployeeSpecification.java:134 | splitting the dot-join of dot-free parts whose last part is not empty gives the parts back |
| JavaText.JavaSplitJoinBack | src/main/java/com/example/specification/EmployeeSpecification.java:134 | a string not ending with the separator is the join of its split fields |
| JavaText.JavaSplitOfSeparators | src/main/java/com/example/specification/EmployeeSpecification.java:134 | a string made only of separators splits into no fields |
| EmployeeSpecification.SearchByTextSelects | src/main/java/com/example/specification/EmployeeSpecification.java:22-35 | blank text selects every employee; other text selects exactly the employees with a department where first name, last name, email or department name contains the lower-cased text |
| EmployeeSpecification.LikeAtomContains | src/main/java/com/example/specification/EmployeeSpecification.java:27-32 | each of the four search tests is a case-insensitive containment test on its field |
| EmployeeSpecification.CreatorValuesNeedJoins | src/main/java/com/example/specification/EmployeeSpecification.java:58-62 | a user name reached through department and createdBy means both inner joins find a partner |
| EmployeeSpecification.EmpByDeptCreatedBySelects | src/main/java/com/example/specification/EmployeeSpecification.java:51-66 | a blank name selects everyone; otherwise exactly the employees whose department's creator has that user name, ignoring case, in full |
| EmployeeSpecification.LazyUpperCaseNameMatchesNothing | src/main/java/com/example/specification/EmployeeSpecification.java:72-83 | the lazy variant, which does not lower-case the name, selects nobody for a name with an upper-case letter |
| EmployeeSpecification.LazyAgreesOnLowerCaseNames | src/main/java/com/example/specification/EmployeeSpecification.java:72-83 | on names without upper-case letters the lazy variant selects the same employees as the eager one |
| EmployeeSpecification.ByFilters | src/main/java/com/example/specification/EmployeeSpecification.java:87-115 | the loop builds the AND of one predicate per filter in list order, or raises the first filter's exception; null or empty lists give the always-true predicate |
| EmployeeSpecification.ByFiltersIntersection | src/main/java/com/example/specification/EmployeeSpecification.java:89-113 | a row passes a filter list exactly when it passes each filter alone |
| EmployeeSpecification.ByFiltersOperators | src/main/java/com/example/specification/EmployeeSpecification.java:99-108 | each tag tests its named meaning on the attribute, with `in` over the comma-split text, except that lessThan tests <= and lessThanEqual tests < |
| EmployeeSpecification.ByFiltersRejectsUnknownOperation | src/main/java/com/example/specification/EmployeeSpecification.java:109 | an unknown tag raises UnsupportedOperationException naming it, unless an earlier filter raised first |
| EmployeeSpecification.ByFiltersCastsFirst | src/main/java/com/example/specification/EmployeeSpecification.java:97 | a value that is not a String raises ClassCastException before the tag is examined |
| EmployeeSpecification.ResolveColumn | src/main/java/com/example/specification/EmployeeSpecification.java:130-143 | the loop joins each part before the last in turn and reads the last part; failures are the first unknown relationship, an unknown attribute, or an empty split |
| EmployeeSpecification.ColumnPathResolves | src/main/java/com/example/specification/EmployeeSpecification.java:133-142 | a resolved column reads an attribute declared on the entity its chain reaches, with one join per chain prefix; dot-joining the chain and attribute gives the column back; a plain column is a root attribute with no join |
| EmployeeSpecification.DotsOnlyColumnFails | src/main/java/com/example/specification/EmployeeSpecification.java:134-140 | a column of dots only has no parts and fails on reading its last part |
| EmployeeSpecification.JoinTest | src/main/java/com/example/specification/EmployeeSpecification.java:145-155 | the tag switch fails exactly on an unknown tag (UnsupportedOperation), a non-collection for `in` or a collection for an ordering tag (ClassCast) |
| EmployeeSpecification.JoinTestMeaning | src/main/java/com/example/specification/EmployeeSpecification.java:146-153 | each accepted tag tests its named meaning, with lessThan and lessThanEqual swapped |
| EmployeeSpecification.ByFiltersWithJoin | src/main/java/com/example/specification/EmployeeSpecification.java:118-159 | the loop collects every join each filter creates and the AND of the filters' predicates, or raises the first filter's exception |
| EmployeeSpecification.SingleJoinFilter | src/main/java/com/example/specification/EmployeeSpecification.java:126-156 | one filter selects a row when its joins find partners and its predicate holds |
| EmployeeSpecification.WithJoinIntersection | src/main/java/com/example/specification/EmployeeSpecification.java:120-157 | a row passes a filter list exactly when it passes each filter alone, joins included |
| EmployeeSpecification.WithJoinFilterSelects | src/main/java/com/example/specification/EmployeeSpecification.java:130-155 | one accepted filter selects the rows where its joins find partners and some value along the path passes the (swapped) named test |
| EmployeeSpecification.WithJoinCreatesEveryJoin | src/main/java/com/example/specification/EmployeeSpecification.java:135-139 | the query holds one join per relationship step of every filter: joins are never shared |
| EmployeeSpecification.RepeatedFilterJoinsTwice | src/main/java/com/example/specification/EmployeeSpecification.java:138 | a filter given twice creates its joins twice |
| EmployeeSpecification.CreatorNameColumnSplits | src/main/java/com/example/specification/EmployeeSpecification.java:134 | "department.createdBy.username" splits into department, createdBy and username |
| EmployeeSpecification.CreatorNameColumnResolves | src/main/java/com/example/specification/EmployeeSpecification.java:133-140 | that column joins department, then department.createdBy, and reads username |
| EmployeeSpecification.RepeatedPathJoinsTwice | src/main/java/com/example/specification/EmployeeSpecification.java:133-139 | two equality filters on that column produce four joins, the department and its creator each twice |
| GenericSpecification.GenericTest | src/main/java/com/example/specification/GenericSpecification.java:33-42 | an unknown tag adds nothing; `in` with a non-collection and an ordering tag with a collection raise ClassCast; every other filter adds one test on the path |
| GenericSpecification.GenericSpecification.constructor | src/main/java/com/example/specification/GenericSpecification.java:21-23 | the filter list is stored as given |
| GenericSpecification.GenericSpecification.ToPredicate | src/main/java/com/example/specification/GenericSpecification.java:25-46 | the loop builds the AND of the predicates the filters add, raises the first exception, and fails on a null list |
| GenericSpecification.PresentEval | src/main/java/com/example/specification/GenericSpecification.java:45 | the AND of the added predicates holds when every filter that added one holds |
| GenericSpecification.SingleGenericFilter | src/main/java/com/example/specification/GenericSpecification.java:29-42 | one filter selects a row when it translates and its test, if any, holds |
| GenericSpecification.GenericIntersection | src/main/java/com/example/specification/GenericSpecification.java:27-45 | a row passes the filter list exactly when it passes each filter alone |
| GenericSpecification.UnknownOperationSelectsAll | src/main/java/com/example/specification/GenericSpecification.java:33-42 | a filter with an unknown tag on a declared attribute gives the always-true predicate |
| GenericSpecification.UnknownOperationIgnored | src/main/java/com/example/specification/GenericSpecification.java:33-42 | removing a filter with an unknown tag does not change which rows are selected |
| GenericSpecification.DottedColumnIsUnknown | src/main/java/com/example/specification/GenericSpecification.java:30 | a column containing a dot is looked up as one attribute name on the root, which fails with the unknown-attribute error |
| GenericSpecification.GenericOperators | src/main/java/com/example/specification/GenericSpecification.java:30-41 | each recognised tag tests exactly its named meaning on the root attribute |
| GenericSpecification.JoinTranslatorSwapsLessTags | src/main/java/com/example/specification/GenericSpecification.java:37-40 | on a plain column, byFiltersWithJoin with a tag builds the same query as the generic translator with lessThan and lessThanEqual exchanged |
| GenericSpecification.LessThanDiffersOnTheBound | src/main/java/com/example/specification/GenericSpecification.java:38 | a row whose value equals the bound passes byFiltersWithJoin's lessThan but not the generic lessThan |
| DepartmentSpecification.HasLocationSelects | src/main/java/com/example/specification/DepartmentSpecification.java:14-19 | without text every department; otherwise exactly those whose location equals the text |
| DepartmentSpecification.CreatedByLikeSelects | src/main/java/com/example/specification/DepartmentSpecification.java:21-27 | without text every department; otherwise exactly those whose creator's user name contains the text, ignoring case |
| DepartmentSpecification.BudgetGreaterThenSelects | src/main/java/com/example/specification/DepartmentSpecification.java:29-34 | without an amount every department; otherwise exactly those whose budget is strictly greater |
| DepartmentSpecification.CreatedBetweenDatesSelects | src/main/java/com/example/specification/DepartmentSpecification.java:36-41 | with either bound missing every department; otherwise exactly those created between the bounds, both included, and none when start is after end |
| CommonService.FindAll | src/main/java/com/example/service/CommonService.java:63 | the store returns exactly the stored rows the query selects, never more rows than it holds |
| CommonService.FindAllKeepsEverything | src/main/java/com/example/service/CommonService.java:63 | when the query selects every stored row the store returns them all, in order |
| CommonService.Listing | src/main/java/com/example/service/CommonService.java:64-68 | null exactly when nothing was found, otherwise one converted row per row found, in order |
| CommonService.ListingNullIff | src/main/java/com/example/service/CommonService.java:78-82 | a listing is null exactly when no stored row is selected |
| CommonService.CreatedByListingNullIff | src/main/java/com/example/service/CommonService.java:85-94 | the listing by creator is null exactly when no stored employee's department creator has that user name, ignoring case; a blank name nulls only an empty store |
| CommonService.DepartmentQuery | src/main/java/com/example/service/CommonService.java:52-62 | a department matches the combined specification exactly when it matches all four conditions |
| CommonService.NoCriteriaListsEveryDepartment | src/main/java/com/example/service/CommonService.java:47-69 | with no criterion every stored department is listed, or null for an empty store |
| CommonService.BlankSearchListsEveryone | src/main/java/com/example/service/CommonService.java:74-83 | a blank search text lists every stored employee |
| CommonService.FilteredListing | src/main/java/com/example/service/CommonService.java:98-107 | the filtered listing is null exactly when every stored employee fails some filter |
| CommonService.Wrap32 | src/main/java/com/example/service/CommonService.java:116 | int arithmetic: the result lies in the int range and agrees with the exact result modulo 2^32 |
| CommonService.SortDirection | src/main/java/com/example/service/CommonService.java:121-123 | the sort is on sortBy, and descending exactly when sortOrder is "desc" in any case |
| CommonService.PageIndexing | src/main/java/com/example/service/CommonService.java:116 | page p >= 1 asks for index p - 1 and no page for index 0, both accepted; page 0 asks for -1, which is refused; the smallest int wraps to the largest |
| CommonService.PageSizing | src/main/java/com/example/service/CommonService.java:119 | no size means 10; a given size is passed on unchanged, so one below 1 is refused |
| CommonService.PrepareEmployeeResponse | src/main/java/com/example/service/CommonService.java:134-149 | data is the converted content, same length and order; noOfElements is its length; pageNumber is the page index plus 1; totalElements equals totalPages |
| CommonService.PageNumberRoundTrip | src/main/java/com/example/service/CommonService.java:138 | subtracting 1 and adding it back with int wrap-around gives every int back |
| CommonService.RequestedPageReported | src/main/java/com/example/service/CommonService.java:111-131 | when the store reports the index it was asked for, the envelope reports the requested page, or 1 when none was given |
| CommonService.SlicePage | src/main/java/com/example/service/CommonService.java:129 | a paged store returns at most a page size of selected stored rows, with the requested index and the full match count |
| CommonService.ElementsWithinPageSize | src/main/java/com/example/service/CommonService.java:139-140 | on the paged store noOfElements never exceeds pageSize |
| CommonService.TotalElementsReportsPages | src/main/java/com/example/service/CommonService.java:141-142 | with 23 matches and pages of 10, the third page reports 3 elements, 3 pages and 3 total elements |

## Left out

- The HTTP controller, the repositories and the transfer-object conversions are not part of this model. The store is a row sequence filtered by a query, or any page-returning function. The conversion is a function parameter.
- Logging calls are left out. They do not affect results.
- Eager fetch and lazy join differ only in when related rows are loaded. Both are modelled as inner joins, because that choice does not change which rows match.
- Duplicate result rows that a to-many join can produce are not modelled. A query is modelled as a row filter.
- The store's escaping of backslashes in LIKE patterns is left out. LIKE is modelled with `%` and `_` and no escape character.
- The store's coercion of a text value to a numeric or date attribute is left out. In the model, values of different kinds never compare equal or ordered.
- Null filter values, null column names and null operation tags are not modelled. Neither are a null `sortOrder` (which throws on `equalsIgnoreCase`) and a null `sortBy`.
- Case mapping covers the ASCII letters only.
- `BigDecimal` amounts and `LocalDateTime` values are whole numbers on one line.
- `PageRequest.of` throws on a negative page index or a size below 1. The model does not raise this exception. `CommonService.AcceptedRequest` states what it accepts.
- The store's paging is represented by the stand-in `CommonService.SlicePage`, not by Spring's implementation. The stand-in keeps store order: it does not sort rows by the request's `sortBy` and `sortOrder`.
- The JPA path API lets `get` name an association as well as an attribute. The model accepts only declared attributes.
- Criteria.LikeMeaning: states the containment reading only for patterns built from text without `%` or `_`. For other text the model still applies LIKE matching.
- EmployeeSpecification.SearchByTextSelects: the containment reading is stated for text without `%` or `_`. For other text the model still applies LIKE matching.
- EmployeeSpecification.EmpByDeptCreatedBySelects: the exact-match reading is stated for names without `%` or `_`.
- CommonService.CreatedByListingNullIff: the exact-match reading is stated for names without `%` or `_`.
- EmployeeSpecification.ByFiltersOperators: the `like` case is stated for values without `%` or `_`.
- EmployeeSpecification.JoinTestMeaning: the `like` case is stated for values whose text has no `%` or `_`.
- EmployeeSpecification.WithJoinFilterSelects: the `like` case is stated for values whose text has no `%` or `_`.
- GenericSpecification.GenericOperators: the `like` case is stated for values whose text has no `%` or `_`.
- DepartmentSpecification.CreatedByLikeSelects: the containment reading is stated for text without `%` or `_`.
