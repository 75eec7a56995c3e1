/**
 * The service layer: it composes the specifications, hands them to the store
 * and shapes what comes back. The store is a sequence of rows filtered by a
 * query (or any function from a query and a page request to a page); the
 * conversion of a row to its transfer object is a parameter.
 */
module CommonService {

  import opened Results
  import opened JavaText
  import opened Criteria
  import EmployeeSpecification
  import DepartmentSpecification

  // ---------------------------------------------------------------------
  // The store and the null-on-empty listings
  // ---------------------------------------------------------------------

  /** findAll(spec) on a store holding `rows`: the rows the query selects, in store order. */
  function FindAll(rows: seq<Obj>, q: Query): (r: seq<Obj>)
    ensures |r| <= |rows|
    ensures forall o :: o in r <==> o in rows && Matches(q, o)
  {
    if rows == [] then []
    else (if Matches(q, rows[0]) then [rows[0]] else []) + FindAll(rows[1..], q)
  }

  lemma {:induction false} FindAllKeepsEverything(rows: seq<Obj>, q: Query)
    requires forall o :: o in rows ==> Matches(q, o)
    ensures FindAll(rows, q) == rows
  {
    if rows != [] {
      FindAllKeepsEverything(rows[1..], q);
      assert [rows[0]] + rows[1..] == rows;
    }
  }

  function MapSeq<A, B>(xs: seq<A>, f: A -> B): (r: seq<B>)
    ensures |r| == |xs| && forall i :: 0 <= i < |xs| ==> r[i] == f(xs[i])
  {
    seq(|xs|, i requires 0 <= i < |xs| => f(xs[i]))
  }

  /** The listing convention: null when nothing was found, otherwise one
      transfer object per row found, in order. */
  function Listing<D>(found: seq<Obj>, convert: Obj -> D): (r: Option<seq<D>>)
    ensures r.None? <==> found == []
    ensures r.Some? ==> |r.value| == |found| && forall i :: 0 <= i < |found| ==> r.value[i] == convert(found[i])
  {
    if found == [] then None else Some(MapSeq(found, convert))
  }

  /** A listing is null exactly when no stored row is selected. */
  lemma ListingNullIff<D>(rows: seq<Obj>, q: Query, convert: Obj -> D)
    ensures Listing(FindAll(rows, q), convert).None? <==> forall o :: o in rows ==> !Matches(q, o)
  {
    var found := FindAll(rows, q);
    if found != [] {
      assert found[0] in found;
    }
  }

  // ---------------------------------------------------------------------
  // The four listings
  // ---------------------------------------------------------------------

  /** where(location).and(createdBy).and(budget).and(between) */
  function DepartmentQuery(location: Option<string>, budget: Option<int>, createdBy: Option<string>,
                           startDate: Option<int>, endDate: Option<int>): (r: Query)
    ensures forall o :: Matches(r, o) <==>
      Matches(DepartmentSpecification.HasLocation(location), o) &&
      Matches(DepartmentSpecification.CreatedByLike(createdBy), o) &&
      Matches(DepartmentSpecification.BudgetGreaterThen(budget), o) &&
      Matches(DepartmentSpecification.CreatedBetweenDates(startDate, endDate), o)
  {
    AndSpec(AndSpec(AndSpec(
      DepartmentSpecification.HasLocation(location),
      DepartmentSpecification.CreatedByLike(createdBy)),
      DepartmentSpecification.BudgetGreaterThen(budget)),
      DepartmentSpecification.CreatedBetweenDates(startDate, endDate))
  }

  function FetchDepartments<D>(rows: seq<Obj>, convert: Obj -> D,
                               location: Option<string>, budget: Option<int>, createdBy: Option<string>,
                               startDate: Option<int>, endDate: Option<int>): Option<seq<D>>
  {
    Listing(FindAll(rows, DepartmentQuery(location, budget, createdBy, startDate, endDate)), convert)
  }

  /** With no criterion given every stored department is listed, in store order
      (or null when the store is empty). */
  lemma NoCriteriaListsEveryDepartment<D>(rows: seq<Obj>, convert: Obj -> D)
    ensures FetchDepartments(rows, convert, None, None, None, None, None) ==
            if rows == [] then None else Some(MapSeq(rows, convert))
  {
    var q := DepartmentQuery(None, None, None, None, None);
    forall o | o in rows
      ensures Matches(q, o)
    {
      DepartmentSpecification.HasLocationSelects(None, o);
      DepartmentSpecification.CreatedByLikeSelects(None, o);
      DepartmentSpecification.BudgetGreaterThenSelects(None, o);
      DepartmentSpecification.CreatedBetweenDatesSelects(None, None, o);
    }
    FindAllKeepsEverything(rows, q);
  }

  function SearchEmployees<D>(rows: seq<Obj>, convert: Obj -> D, searchText: Option<string>): Option<seq<D>>
  {
    Listing(FindAll(rows, EmployeeSpecification.SearchByText(searchText)), convert)
  }

  function GetAllEmployeeByDepartmentCreatedBy<D>(rows: seq<Obj>, convert: Obj -> D, username: Option<string>): Option<seq<D>>
  {
    Listing(FindAll(rows, EmployeeSpecification.EmpByDeptCreatedBy(username)), convert)
  }

  /** The listing by creator is null exactly when no stored employee's department
      was created by a user of that name (ignoring case); a blank name lists every
      stored employee, so only an empty store gives null. */
  lemma CreatedByListingNullIff<D>(rows: seq<Obj>, convert: Obj -> D, username: Option<string>)
    requires username.Some? ==> NoWildcards(username.value)
    ensures EmployeeSpecification.Blank(username) ==>
      (GetAllEmployeeByDepartmentCreatedBy(rows, convert, username).None? <==> rows == [])
    ensures !EmployeeSpecification.Blank(username) ==>
      (GetAllEmployeeByDepartmentCreatedBy(rows, convert, username).None? <==>
        forall o :: o in rows ==> !EmployeeSpecification.CreatorNamed(o, username.value))
  {
    var q := EmployeeSpecification.EmpByDeptCreatedBy(username);
    ListingNullIff(rows, q, convert);
    forall o | o in rows
      ensures EmployeeSpecification.Blank(username) ==> Matches(q, o)
      ensures !EmployeeSpecification.Blank(username) ==>
        (Matches(q, o) <==> EmployeeSpecification.CreatorNamed(o, username.value))
    {
      EmployeeSpecification.EmpByDeptCreatedBySelects(username, o);
    }
    if rows != [] {
      assert rows[0] in rows;
    }
  }

  /** An exception raised while building the specification propagates. */
  function GetEmployeesByFilter<D>(rows: seq<Obj>, convert: Obj -> D,
                                   filters: Option<seq<SearchFilter>>): Result<Option<seq<D>>, Error>
  {
    match EmployeeSpecification.FiltersQuery(filters)
    case Err(e) => Err(e)
    case Ok(q) => Ok(Listing(FindAll(rows, q), convert))
  }

  /** A blank search lists every stored employee. */
  lemma BlankSearchListsEveryone<D>(rows: seq<Obj>, convert: Obj -> D, searchText: Option<string>)
    requires EmployeeSpecification.Blank(searchText)
    ensures SearchEmployees(rows, convert, searchText) == if rows == [] then None else Some(MapSeq(rows, convert))
  {
    FindAllKeepsEverything(rows, EmployeeSpecification.SearchByText(searchText));
  }

  /** The filtered listing holds an employee's transfer object only for employees
      that pass every filter, and is null when none does. */
  lemma FilteredListing<D>(rows: seq<Obj>, convert: Obj -> D, fs: seq<SearchFilter>)
    requires EmployeeSpecification.FiltersQuery(Some(fs)).Ok?
    ensures GetEmployeesByFilter(rows, convert, Some(fs)).Ok?
    ensures GetEmployeesByFilter(rows, convert, Some(fs)).value.None? <==>
      forall o :: o in rows ==> exists i :: 0 <= i < |fs| && !Selects(EmployeeSpecification.FiltersQuery(Some([fs[i]])), o)
  {
    var q := EmployeeSpecification.FiltersQuery(Some(fs)).value;
    ListingNullIff(rows, q, convert);
    forall o
      ensures Matches(q, o) <==> forall i :: 0 <= i < |fs| ==> Selects(EmployeeSpecification.FiltersQuery(Some([fs[i]])), o)
    {
      EmployeeSpecification.ByFiltersIntersection(fs, o);
    }
  }

  // ---------------------------------------------------------------------
  // Paging
  // ---------------------------------------------------------------------

  const MinInt32: int := -0x8000_0000
  const MaxInt32: int := 0x7fff_ffff

  type Int32 = x: int | MinInt32 <= x <= MaxInt32

  /** Java int arithmetic: the result modulo 2^32, in the signed range. */
  function Wrap32(x: int): (r: Int32)
    ensures MinInt32 <= x <= MaxInt32 ==> r == x
    ensures (r - x) % 0x1_0000_0000 == 0
  {
    (x - MinInt32) % 0x1_0000_0000 + MinInt32
  }

  /** `page - 1` for a given page, 0 otherwise. */
  function PageIndex(page: Option<Int32>): Int32
  {
    if page.Some? then Wrap32(page.value - 1) else 0
  }

  /** The given size, 10 otherwise. */
  function PageSize(size: Option<Int32>): Int32
  {
    if size.Some? then size.value else 10
  }

  datatype Direction = Ascending | Descending

  datatype Sort = Sort(property: string, direction: Direction)

  function SortFor(sortBy: string, sortOrder: string): Sort
  {
    Sort(sortBy, if EqualsIgnoreCase(sortOrder, "desc") then Descending else Ascending)
  }

  datatype PageRequest = PageRequest(page: Int32, size: Int32, sort: Sort)

  function PageRequestFor(page: Option<Int32>, size: Option<Int32>, sortBy: string, sortOrder: string): PageRequest
  {
    PageRequest(PageIndex(page), PageSize(size), SortFor(sortBy, sortOrder))
  }

  /** What PageRequest.of accepts: a page index of at least 0 and a size of at least 1. */
  predicate AcceptedRequest(page: int, size: int)
  {
    page >= 0 && size >= 1
  }

  /** The sort is descending exactly when the order is "desc" in any case, and
      always on the property given. */
  lemma SortDirection(sortBy: string, sortOrder: string)
    ensures SortFor(sortBy, sortOrder).property == sortBy
    ensures SortFor(sortBy, sortOrder).direction == Descending <==> Lower(sortOrder) == "desc"
  {
    EqualsIgnoreCaseIff(sortOrder, "desc");
    LowerOfLowerCase("desc");
  }

  /** Pages are numbered from 1 by the caller and from 0 by the store: a page
      p >= 1 asks for index p - 1 and an absent page for index 0, both accepted;
      a page of 0 asks for index -1, which PageRequest.of refuses, and the
      smallest int wraps round to the largest. */
  lemma PageIndexing(page: Option<Int32>)
    ensures page.None? ==> PageIndex(page) == 0
    ensures page.Some? && page.value >= 1 ==> PageIndex(page) == page.value - 1 && AcceptedRequest(PageIndex(page), 10)
    ensures page == Some(0) ==> PageIndex(page) == -1 && forall size :: !AcceptedRequest(PageIndex(page), size)
    ensures page == Some(MinInt32) ==> PageIndex(page) == MaxInt32
  {
  }

  /** A size is taken as given when present and is 10 otherwise, so a size of 0 or less reaches PageRequest.of and is refused. */
  lemma PageSizing(size: Option<Int32>)
    ensures size.None? ==> PageSize(size) == 10
    ensures size.Some? ==> PageSize(size) == size.value
    ensures size.Some? && size.value < 1 ==> forall page :: !AcceptedRequest(page, PageSize(size))
  {
  }

  /** Page as the store returns it. */
  datatype Page<T> = Page(content: seq<T>, number: Int32, size: Int32, totalPages: Int32, totalElements: int)

  datatype PageMetadata = PageMetadata(pageNumber: Int32, pageSize: Int32, totalPages: Int32,
                                       noOfElements: Int32, totalElements: Int32)

  datatype EmployeeResponse<D> = EmployeeResponse(data: seq<D>, pageMetadata: PageMetadata)

  /** List.size(): the length, or the largest int for a longer list. */
  function Size<T>(xs: seq<T>): Int32
  {
    if |xs| <= MaxInt32 then |xs| else MaxInt32
  }

  /** The envelope: the converted content and the page's metadata, with the page
      number moved back to 1-based and totalElements filled from the total pages. */
  function PrepareEmployeeResponse<D>(entities: Page<Obj>, convert: Obj -> D): (r: EmployeeResponse<D>)
    ensures |r.data| == |entities.content|
    ensures forall i :: 0 <= i < |r.data| ==> r.data[i] == convert(entities.content[i])
    ensures |r.data| <= MaxInt32 ==> r.pageMetadata.noOfElements == |r.data|
    ensures r.pageMetadata.totalElements == r.pageMetadata.totalPages == entities.totalPages
    ensures r.pageMetadata.pageSize == entities.size
    ensures entities.number < MaxInt32 ==> r.pageMetadata.pageNumber == entities.number + 1
  {
    EmployeeResponse(
      MapSeq(entities.content, convert),
      PageMetadata(
        Wrap32(entities.number + 1),
        entities.size,
        entities.totalPages,
        Size(entities.content),
        entities.totalPages))
  }

  /** The search page: the text search, with the request built from the paging arguments. */
  function GetEmployeesBySearch<D>(findPage: (Query, PageRequest) -> Page<Obj>, convert: Obj -> D,
                                   searchText: Option<string>, page: Option<Int32>, size: Option<Int32>,
                                   sortBy: string, sortOrder: string): EmployeeResponse<D>
  {
    var request := PageRequestFor(page, size, sortBy, sortOrder);
    PrepareEmployeeResponse(findPage(EmployeeSpecification.SearchByText(searchText), request), convert)
  }

  /** Going down to 0-based and back up to 1-based gives every int back, the
      smallest one included (both steps wrap). */
  lemma PageNumberRoundTrip(p: Int32)
    ensures Wrap32(Wrap32(p - 1) + 1) == p
  {
    if p == MinInt32 {
      assert Wrap32(p - 1) == MaxInt32;
    }
  }

  /** When the store reports back the page index it was asked for, the envelope
      reports the page the caller asked for, and page 1 when none was given. */
  lemma RequestedPageReported<D>(findPage: (Query, PageRequest) -> Page<Obj>, convert: Obj -> D,
                                 searchText: Option<string>, page: Option<Int32>, size: Option<Int32>,
                                 sortBy: string, sortOrder: string)
    requires forall q, request :: findPage(q, request).number == request.page
    ensures GetEmployeesBySearch(findPage, convert, searchText, page, size, sortBy, sortOrder).pageMetadata.pageNumber ==
            if page.Some? then page.value else 1
  {
    if page.Some? {
      PageNumberRoundTrip(page.value);
    }
  }

  /** A store that pages by slicing the selected rows, for accepted requests. */
  function TotalPagesFor(total: nat, size: int): Int32
    requires size >= 1
  {
    var pages := (total + size - 1) / size;
    if pages <= MaxInt32 then pages else MaxInt32
  }

  function SlicePage(rows: seq<Obj>, q: Query, request: PageRequest): (p: Page<Obj>)
    requires AcceptedRequest(request.page, request.size)
    ensures |p.content| <= request.size
    ensures p.number == request.page && p.totalElements == |FindAll(rows, q)|
    ensures forall o :: o in p.content ==> o in rows && Matches(q, o)
  {
    var found := FindAll(rows, q);
    var start := request.page * request.size;
    var stop := start + request.size;
    var content := if start >= |found| then [] else found[start..if stop <= |found| then stop else |found|];
    assert forall o :: o in content ==> o in found;
    Page(content, request.page, request.size, TotalPagesFor(|found|, request.size), |found|)
  }

  /** On the sliced store a page never reports more elements than the page size. */
  lemma ElementsWithinPageSize<D>(rows: seq<Obj>, q: Query, request: PageRequest, convert: Obj -> D)
    requires AcceptedRequest(request.page, request.size)
    ensures var meta := PrepareEmployeeResponse(SlicePage(rows, q, request), convert).pageMetadata;
      meta.noOfElements <= meta.pageSize
  {
  }

  /** With 23 matching rows and pages of 10, the third page holds 3 rows and the
      envelope reports 3 pages and 3 elements, though 23 rows match. */
  lemma TotalElementsReportsPages<D>(rows: seq<Obj>, q: Query, convert: Obj -> D)
    requires |FindAll(rows, q)| == 23
    ensures var request := PageRequest(2, 10, Sort("id", Ascending));
      var page := SlicePage(rows, q, request);
      var meta := PrepareEmployeeResponse(page, convert).pageMetadata;
      meta.noOfElements == 3 && meta.totalPages == 3 && meta.totalElements == 3 &&
      page.totalElements == 23 && meta.pageNumber == 3
  {
  }
}
