/**
 * The employee specifications: free-text search, the search by the user who
 * created the employee's department (eager and lazy variants), and the two
 * translators of a filter list, on root attributes only and along dotted
 * relationship paths.
 */
module EmployeeSpecification {

  import opened Results
  import opened JavaText
  import opened Schema
  import opened Criteria

  /** `text == null || text.trim().isEmpty()` */
  predicate Blank(text: Option<string>)
  {
    text.None? || Trim(text.value) == []
  }

  /** Some non-NULL value of the field contains `s` once lower-cased. */
  predicate FieldContains(o: Obj, f: Field, s: string)
  {
    exists x | x in FieldValues(o, f) :: IsSubstring(s, Lower(Text(x)))
  }

  // ---------------------------------------------------------------------
  // searchByText
  // ---------------------------------------------------------------------

  function SearchByText(searchText: Option<string>): Query
  {
    if Blank(searchText) then TrueQuery
    else
      var pattern := "%" + Lower(searchText.value) + "%";
      Query([["department"]], Disj([
        LowerLike(Field([], "firstName"), pattern),
        LowerLike(Field([], "lastName"), pattern),
        LowerLike(Field([], "email"), pattern),
        LowerLike(Field(["department"], "departmentName"), pattern)]))
  }

  /** like(lower(field), "%" + s.toLowerCase() + "%") is a case-insensitive containment test. */
  lemma LikeAtomContains(o: Obj, f: Field, s: string)
    requires NoWildcards(s)
    ensures Eval(LowerLike(f, "%" + Lower(s) + "%"), o) <==> FieldContains(o, f, Lower(s))
  {
    forall x | x in FieldValues(o, f)
      ensures LikeMatch(Lower(Text(x)), "%" + Lower(s) + "%") <==> IsSubstring(Lower(s), Lower(Text(x)))
    {
      LikeMeaning(x, Str(s));
    }
  }

  /** A blank search selects every employee; any other text selects the employees
      with a department whose first name, last name, email or department name
      contains the text, ignoring case. */
  lemma SearchByTextSelects(searchText: Option<string>, o: Obj)
    requires searchText.Some? ==> NoWildcards(searchText.value)
    ensures Blank(searchText) ==> Matches(SearchByText(searchText), o)
    ensures !Blank(searchText) ==>
      (Matches(SearchByText(searchText), o) <==>
        Reach(o, ["department"]) != [] &&
        (FieldContains(o, Field([], "firstName"), Lower(searchText.value)) ||
         FieldContains(o, Field([], "lastName"), Lower(searchText.value)) ||
         FieldContains(o, Field([], "email"), Lower(searchText.value)) ||
         FieldContains(o, Field(["department"], "departmentName"), Lower(searchText.value))))
  {
    if !Blank(searchText) {
      var t := searchText.value;
      var pattern := "%" + Lower(t) + "%";
      var a := LowerLike(Field([], "firstName"), pattern);
      var b := LowerLike(Field([], "lastName"), pattern);
      var c := LowerLike(Field([], "email"), pattern);
      var d := LowerLike(Field(["department"], "departmentName"), pattern);
      LikeAtomContains(o, a.field, t);
      LikeAtomContains(o, b.field, t);
      LikeAtomContains(o, c.field, t);
      LikeAtomContains(o, d.field, t);
      var ps := [a, b, c, d];
      assert ps[0] == a && ps[1] == b && ps[2] == c && ps[3] == d;
      assert Eval(Disj(ps), o) <==> Eval(a, o) || Eval(b, o) || Eval(c, o) || Eval(d, o);
      var joins: seq<Chain> := [["department"]];
      assert joins[0] == ["department"];
      assert JoinsPresent(o, joins) <==> Reach(o, ["department"]) != [];
    }
  }

  // ---------------------------------------------------------------------
  // empByDeptCreatedBy and its lazy variant
  // ---------------------------------------------------------------------

  /** The chain from an employee to the creator of its department. */
  const CreatorChain: Chain := ["department", "createdBy"]

  /** Both variants join the department, then its creator, as inner joins. */
  const CreatorJoins: seq<Chain> := [["department"], CreatorChain]

  function EmpByDeptCreatedBy(userName: Option<string>): Query
  {
    if Blank(userName) then TrueQuery
    else Query(CreatorJoins, LowerLike(Field(CreatorChain, "username"), Lower(userName.value)))
  }

  function EmpByDeptCreatedByLazyMultipleQueries(userName: Option<string>): Query
  {
    if Blank(userName) then TrueQuery
    else Query(CreatorJoins, Disj([LowerLike(Field(CreatorChain, "username"), userName.value)]))
  }

  /** A value reached through the creator chain means both inner joins find a partner. */
  lemma CreatorValuesNeedJoins(o: Obj)
    requires FieldValues(o, Field(CreatorChain, "username")) != []
    ensures JoinsPresent(o, CreatorJoins)
  {
    var os := o.links["department"];
    assert ReachAll(os, ["createdBy"]) != [];
    assert Reach(os[0], []) == [os[0]];
    assert Reach(o, ["department"]) == ReachAll(os, []);
    assert CreatorJoins[0] == ["department"] && CreatorJoins[1] == CreatorChain;
  }

  /** Some creator's user name, lower-cased, is exactly the one given, lower-cased. */
  predicate CreatorNamed(o: Obj, userName: string)
  {
    exists x | x in FieldValues(o, Field(CreatorChain, "username")) :: Lower(Text(x)) == Lower(userName)
  }

  /** The eager search matches the department creator's user name case-insensitively
      and in full; a blank name selects every employee. */
  lemma EmpByDeptCreatedBySelects(userName: Option<string>, o: Obj)
    requires userName.Some? ==> NoWildcards(userName.value)
    ensures Blank(userName) ==> Matches(EmpByDeptCreatedBy(userName), o)
    ensures !Blank(userName) ==>
      (Matches(EmpByDeptCreatedBy(userName), o) <==> CreatorNamed(o, userName.value))
  {
    if !Blank(userName) {
      var u := userName.value;
      LowerKeepsWildcards(u);
      forall x | x in FieldValues(o, Field(CreatorChain, "username"))
        ensures LikeMatch(Lower(Text(x)), Lower(u)) <==> Lower(Text(x)) == Lower(u)
      {
        LikeExact(Lower(Text(x)), Lower(u));
      }
      if CreatorNamed(o, u) {
        CreatorValuesNeedJoins(o);
      }
    }
  }

  /** The lazy variant does not lower-case the pattern: a name holding an upper-case
      letter selects no employee at all. */
  lemma LazyUpperCaseNameMatchesNothing(userName: string, i: int, o: Obj)
    requires 0 <= i < |userName| && IsUpper(userName[i])
    ensures !Matches(EmpByDeptCreatedByLazyMultipleQueries(Some(userName)), o)
  {
    TrimEmptyIff(userName);
    var p := LowerLike(Field(CreatorChain, "username"), userName);
    forall x | x in FieldValues(o, p.field)
      ensures !LikeMatch(Lower(Text(x)), userName)
    {
      UpperPatternNeverMatchesLowered(Text(x), userName, i);
    }
    SingletonConnectives(p, o);
  }

  /** On a name without upper-case letters the lazy variant selects what the eager one does. */
  lemma LazyAgreesOnLowerCaseNames(userName: Option<string>, o: Obj)
    requires userName.Some? ==> NoUpper(userName.value)
    ensures Matches(EmpByDeptCreatedByLazyMultipleQueries(userName), o) <==>
            Matches(EmpByDeptCreatedBy(userName), o)
  {
    if !Blank(userName) {
      LowerOfLowerCase(userName.value);
      SingletonConnectives(LowerLike(Field(CreatorChain, "username"), userName.value), o);
    }
  }

  // ---------------------------------------------------------------------
  // byFilters: root attributes only
  // ---------------------------------------------------------------------

  /** The tag whose meaning the translators actually give `op`: both employee
      translators build lessThanOrEqualTo for "lessThan" and lessThan for
      "lessThanEqual". */
  function SwapLess(op: string): string
  {
    if op == "lessThan" then "lessThanEqual"
    else if op == "lessThanEqual" then "lessThan"
    else op
  }

  function StrValues(parts: seq<string>): (r: seq<Value>)
    ensures |r| == |parts| && forall k :: 0 <= k < |parts| ==> r[k] == Str(parts[k])
  {
    seq(|parts|, k requires 0 <= k < |parts| => Str(parts[k]))
  }

  /** The operand `op` is compared with: for "in", the comma-separated fields of the text. */
  function ByFiltersOperand(op: string, value: string): Value
  {
    if op == "in" then Items(StrValues(JavaSplit(value, ','))) else Str(value)
  }

  /** The predicate built for one recognised tag on a root attribute. */
  function ByFiltersTest(op: string, path: Field, value: string): (p: Pred)
    requires op in OperationTags
    ensures IsAtom(p) && p.field == path
  {
    if op == "equal" then Compare(EqOp, path, Str(value))
    else if op == "notEqual" then Compare(NeOp, path, Str(value))
    else if op == "like" then LowerLike(path, "%" + Lower(value) + "%")
    else if op == "in" then Member(path, StrValues(JavaSplit(value, ',')))
    else if op == "greaterThan" then Compare(GtOp, path, Str(value))
    else if op == "lessThan" then Compare(LeOp, path, Str(value))
    else if op == "greaterThanEqual" then Compare(GeOp, path, Str(value))
    else Compare(LtOp, path, Str(value))
  }

  /** One filter: the value is cast to String first, the tag is checked next and
      the attribute is looked up last. */
  function FilterPredicate(f: SearchFilter): Result<Pred, Error>
  {
    if !f.value.Str? then Err(ClassCast)
    else if f.operation !in OperationTags then Err(UnsupportedOperation(f.operation))
    else match Get(Employee, [], f.columnName)
      case Err(e) => Err(e)
      case Ok(path) => Ok(ByFiltersTest(f.operation, path, f.value.s))
  }

  /** The specification byFilters builds: no filters select everything, otherwise
      the AND of the filters' predicates, or the first exception raised. */
  function FiltersQuery(filters: Option<seq<SearchFilter>>): Result<Query, Error>
  {
    if filters.None? || filters.value == [] then Ok(TrueQuery)
    else match MapAll(filters.value, FilterPredicate)
      case Err(e) => Err(e)
      case Ok(ps) => Ok(Query([], Conj(ps)))
  }

  method ByFilters(filters: Option<seq<SearchFilter>>) returns (r: Result<Query, Error>)
    ensures r == FiltersQuery(filters)
  {
    if filters.None? || filters.value == [] {
      return Ok(TrueQuery);
    }
    var fs := filters.value;
    var predicates: seq<Pred> := [];
    var i := 0;
    while i < |fs|
      invariant 0 <= i <= |fs|
      invariant MapAll(fs[..i], FilterPredicate) == Ok(predicates)
    {
      var filter := fs[i];
      if !filter.value.Str? {
        MapAllPrefixFailure(fs, FilterPredicate, i);
        return Err(ClassCast);
      }
      var column := filter.columnName;
      var value := filter.value.s;
      if filter.operation !in OperationTags {
        MapAllPrefixFailure(fs, FilterPredicate, i);
        return Err(UnsupportedOperation(filter.operation));
      }
      var path := Get(Employee, [], column);
      if path.Err? {
        MapAllPrefixFailure(fs, FilterPredicate, i);
        return Err(path.error);
      }
      var test := ByFiltersTest(filter.operation, path.value, value);
      MapAllStep(fs, FilterPredicate, i, predicates, test);
      predicates := predicates + [test];
      i := i + 1;
    }
    assert fs[..i] == fs;
    return Ok(Query([], Conj(predicates)));
  }

  /** A row passes the filters exactly when it passes each filter on its own. */
  lemma ByFiltersIntersection(fs: seq<SearchFilter>, o: Obj)
    ensures Selects(FiltersQuery(Some(fs)), o) <==>
            forall i :: 0 <= i < |fs| ==> Selects(FiltersQuery(Some([fs[i]])), o)
  {
    MapAllOk(fs, FilterPredicate);
    forall i | 0 <= i < |fs|
      ensures Selects(FiltersQuery(Some([fs[i]])), o) <==>
              FilterPredicate(fs[i]).Ok? && Eval(FilterPredicate(fs[i]).value, o)
    {
      MapAllSingle(fs[i], FilterPredicate);
      if FilterPredicate(fs[i]).Ok? {
        SingletonConnectives(FilterPredicate(fs[i]).value, o);
      }
    }
    if fs != [] && MapAll(fs, FilterPredicate).Ok? {
      ConjIff(MapAll(fs, FilterPredicate).value, o);
    }
  }

  /** Each recognised tag tests what its name says on the attribute's value, except
      that "lessThan" and "lessThanEqual" test each other's meaning; "in" tests
      membership among the comma-separated fields. */
  lemma ByFiltersOperators(f: SearchFilter, o: Obj)
    requires f.value.Str? && f.operation in OperationTags && f.columnName in Attributes(Employee)
    requires f.operation == "like" ==> NoWildcards(f.value.s)
    ensures FilterPredicate(f).Ok?
    ensures Eval(FilterPredicate(f).value, o) <==>
      f.columnName in o.attrs &&
      Meaning(SwapLess(f.operation), o.attrs[f.columnName], ByFiltersOperand(f.operation, f.value.s))
  {
    var p := FilterPredicate(f).value;
    AtomOnRoot(p, o);
    if f.columnName in o.attrs {
      var x := o.attrs[f.columnName];
      HoldsMeaning(x, Str(f.value.s));
      if f.operation == "like" {
        LikeMeaning(x, Str(f.value.s));
      }
    }
  }

  /** An unrecognised tag on a text value raises UnsupportedOperationException,
      unless an earlier filter has already raised. */
  lemma ByFiltersRejectsUnknownOperation(fs: seq<SearchFilter>, k: nat)
    requires k < |fs| && fs[k].value.Str? && fs[k].operation !in OperationTags
    requires forall i :: 0 <= i < k ==> FilterPredicate(fs[i]).Ok?
    ensures FiltersQuery(Some(fs)) == Err(UnsupportedOperation(fs[k].operation))
  {
    MapAllFirstFailure(fs, FilterPredicate, k);
  }

  /** A value that is not text raises ClassCastException before the tag is looked at. */
  lemma ByFiltersCastsFirst(f: SearchFilter)
    requires !f.value.Str?
    ensures FiltersQuery(Some([f])) == Err(ClassCast)
  {
    MapAllSingle(f, FilterPredicate);
  }

  // ---------------------------------------------------------------------
  // byFiltersWithJoin: dotted relationship paths
  // ---------------------------------------------------------------------

  /** A resolved column: the inner joins created for it, in order, and the field read. */
  datatype Resolved = Resolved(joins: seq<Chain>, field: Field)

  /** The joins created along a chain: one per step, each extending the previous one. */
  function Prefixes(rels: Chain): (r: seq<Chain>)
    ensures |r| == |rels| && forall k :: 0 <= k < |rels| ==> r[k] == rels[..k + 1]
  {
    seq(|rels|, k requires 0 <= k < |rels| => rels[..k + 1])
  }

  lemma PrefixesExtend(rels: Chain, name: string)
    ensures Prefixes(rels + [name]) == Prefixes(rels) + [rels + [name]]
  {
    var longer := rels + [name];
    assert forall k :: 0 <= k < |rels| ==> Prefixes(longer)[k] == Prefixes(rels)[k];
    assert longer[..|rels| + 1] == longer;
  }

  lemma PrefixOfPrefix(xs: seq<string>, n: nat, k: nat)
    requires k <= n <= |xs|
    ensures xs[..n][..k] == xs[..k]
  {
  }

  /** A column with a dot is split on dots; every part but the last is joined in
      turn and the last is read off the final join. */
  function ColumnPath(root: Entity, column: string): Result<Resolved, Error>
  {
    if '.' in column then
      var parts := JavaSplit(column, '.');
      if parts == [] then Err(IndexOutOfBounds)
      else
        var rels := parts[..|parts| - 1];
        match Walk(root, rels)
        case Err(e) => Err(e)
        case Ok(target) =>
          match Get(target, rels, parts[|parts| - 1])
          case Err(e) => Err(e)
          case Ok(field) => Ok(Resolved(Prefixes(rels), field))
    else
      match Get(root, [], column)
      case Err(e) => Err(e)
      case Ok(field) => Ok(Resolved([], field))
  }

  method ResolveColumn(root: Entity, column: string) returns (r: Result<Resolved, Error>)
    ensures r == ColumnPath(root, column)
  {
    if '.' !in column {
      var path := Get(root, [], column);
      if path.Err? {
        return Err(path.error);
      }
      return Ok(Resolved([], path.value));
    }
    var parts := JavaSplit(column, '.');
    var join := root;
    var chain: Chain := [];
    var joins: seq<Chain> := [];
    var i := 0;
    while i < |parts| - 1
      invariant 0 <= i <= |parts|
      invariant parts != [] ==> i <= |parts| - 1
      invariant chain == parts[..i] && joins == Prefixes(chain)
      invariant Walk(root, chain) == Ok(join)
    {
      var name := parts[i];
      var next := parts[..i + 1];
      assert next[..i] == chain && next[i] == name;
      if name !in Relationships(join) {
        PrefixOfPrefix(parts, |parts| - 1, i + 1);
        WalkPrefixFailure(root, parts[..|parts| - 1], i + 1);
        return Err(UnknownRelationship(name));
      }
      join := Relationships(join)[name].target;
      PrefixesExtend(chain, name);
      assert next == chain + [name];
      chain := next;
      joins := joins + [chain];
      i := i + 1;
    }
    if parts == [] {
      return Err(IndexOutOfBounds);
    }
    assert chain == parts[..|parts| - 1];
    var path := Get(join, chain, parts[|parts| - 1]);
    if path.Err? {
      return Err(path.error);
    }
    return Ok(Resolved(joins, path.value));
  }

  /** The ordering tags, whose value is cast to Comparable. */
  const OrderingTags: set<string> := {"greaterThan", "lessThan", "greaterThanEqual", "lessThanEqual"}

  /** The predicate built for one tag on a resolved path, with the casts it makes:
      "in" casts the value to a collection, the ordering tags to Comparable. */
  function JoinTest(op: string, path: Field, v: Value): (r: Result<Pred, Error>)
    ensures r.Err? <==>
      op !in OperationTags || (op == "in" && !v.Items?) || (op in OrderingTags && v.Items?)
    ensures op !in OperationTags ==> r == Err(UnsupportedOperation(op))
    ensures op in OperationTags && r.Err? ==> r == Err(ClassCast)
    ensures r.Ok? ==> IsAtom(r.value) && r.value.field == path
  {
    if op == "equal" then Ok(Compare(EqOp, path, v))
    else if op == "notEqual" then Ok(Compare(NeOp, path, v))
    else if op == "like" then Ok(LowerLike(path, "%" + Lower(Text(v)) + "%"))
    else if op == "in" then (if v.Items? then Ok(Member(path, v.vs)) else Err(ClassCast))
    else if op in OrderingTags then
      if v.Items? then Err(ClassCast)
      else if op == "greaterThan" then Ok(Compare(GtOp, path, v))
      else if op == "lessThan" then Ok(Compare(LeOp, path, v))
      else if op == "greaterThanEqual" then Ok(Compare(GeOp, path, v))
      else Ok(Compare(LtOp, path, v))
    else Err(UnsupportedOperation(op))
  }

  /** Each tag the translator accepts tests what its name says, with "lessThan"
      and "lessThanEqual" swapped as in byFilters. */
  lemma JoinTestMeaning(op: string, path: Field, v: Value, x: Value)
    requires JoinTest(op, path, v).Ok?
    requires op == "like" ==> NoWildcards(Text(v))
    ensures Satisfies(JoinTest(op, path, v).value, x) <==> Meaning(SwapLess(op), x, v)
  {
    HoldsMeaning(x, v);
    if op == "like" {
      LikeMeaning(x, v);
    }
  }

  /** What one filter contributes: its joins and its predicate. */
  datatype Piece = Piece(joins: seq<Chain>, pred: Pred)

  /** One filter: the path is resolved (joins, then the attribute) before the tag is examined. */
  function JoinFilter(f: SearchFilter): Result<Piece, Error>
  {
    match ColumnPath(Employee, f.columnName)
    case Err(e) => Err(e)
    case Ok(res) =>
      match JoinTest(f.operation, res.field, f.value)
      case Err(e) => Err(e)
      case Ok(p) => Ok(Piece(res.joins, p))
  }

  function AllJoins(pieces: seq<Piece>): seq<Chain>
  {
    if pieces == [] then [] else AllJoins(pieces[..|pieces| - 1]) + pieces[|pieces| - 1].joins
  }

  function PredsOf(pieces: seq<Piece>): (r: seq<Pred>)
    ensures |r| == |pieces| && forall k :: 0 <= k < |pieces| ==> r[k] == pieces[k].pred
  {
    seq(|pieces|, k requires 0 <= k < |pieces| => pieces[k].pred)
  }

  /** The specification byFiltersWithJoin builds: every join any filter creates,
      and the AND of the filters' predicates, or the first exception raised. */
  function FiltersWithJoinQuery(filters: Option<seq<SearchFilter>>): Result<Query, Error>
  {
    if filters.None? || filters.value == [] then Ok(TrueQuery)
    else match MapAll(filters.value, JoinFilter)
      case Err(e) => Err(e)
      case Ok(pieces) => Ok(Query(AllJoins(pieces), Conj(PredsOf(pieces))))
  }

  method ByFiltersWithJoin(filters: Option<seq<SearchFilter>>) returns (r: Result<Query, Error>)
    ensures r == FiltersWithJoinQuery(filters)
  {
    if filters.None? || filters.value == [] {
      return Ok(TrueQuery);
    }
    var fs := filters.value;
    var joins: seq<Chain> := [];
    var predicates: seq<Pred> := [];
    ghost var pieces: seq<Piece> := [];
    var i := 0;
    while i < |fs|
      invariant 0 <= i <= |fs|
      invariant MapAll(fs[..i], JoinFilter) == Ok(pieces)
      invariant joins == AllJoins(pieces) && predicates == PredsOf(pieces)
    {
      var filter := fs[i];
      var path := ResolveColumn(Employee, filter.columnName);
      if path.Err? {
        MapAllPrefixFailure(fs, JoinFilter, i);
        return Err(path.error);
      }
      var test := JoinTest(filter.operation, path.value.field, filter.value);
      if test.Err? {
        MapAllPrefixFailure(fs, JoinFilter, i);
        return Err(test.error);
      }
      var piece := Piece(path.value.joins, test.value);
      MapAllStep(fs, JoinFilter, i, pieces, piece);
      assert (pieces + [piece])[..|pieces|] == pieces;
      pieces := pieces + [piece];
      joins := joins + path.value.joins;
      predicates := predicates + [test.value];
      i := i + 1;
    }
    assert fs[..i] == fs;
    return Ok(Query(joins, Conj(predicates)));
  }

  lemma {:induction false} AllJoinsPresent(o: Obj, pieces: seq<Piece>)
    ensures JoinsPresent(o, AllJoins(pieces)) <==>
            forall k :: 0 <= k < |pieces| ==> JoinsPresent(o, pieces[k].joins)
  {
    if pieces != [] {
      var init := pieces[..|pieces| - 1];
      AllJoinsPresent(o, init);
      JoinsPresentConcat(o, AllJoins(init), pieces[|pieces| - 1].joins);
      assert forall k :: 0 <= k < |init| ==> init[k] == pieces[k];
    }
  }

  /** A single filter selects a row when its joins find partners and its predicate holds. */
  lemma SingleJoinFilter(f: SearchFilter, o: Obj)
    ensures Selects(FiltersWithJoinQuery(Some([f])), o) <==>
            JoinFilter(f).Ok? && JoinsPresent(o, JoinFilter(f).value.joins) && Eval(JoinFilter(f).value.pred, o)
  {
    MapAllSingle(f, JoinFilter);
    if JoinFilter(f).Ok? {
      var piece := JoinFilter(f).value;
      SingletonConnectives(piece.pred, o);
      assert [piece][..0] == [];
      assert AllJoins([piece]) == [] + piece.joins;
      assert PredsOf([piece]) == [piece.pred];
    }
  }

  /** A row passes the filters exactly when it passes each filter on its own,
      joins included. */
  lemma WithJoinIntersection(fs: seq<SearchFilter>, o: Obj)
    ensures Selects(FiltersWithJoinQuery(Some(fs)), o) <==>
            forall i :: 0 <= i < |fs| ==> Selects(FiltersWithJoinQuery(Some([fs[i]])), o)
  {
    MapAllOk(fs, JoinFilter);
    forall i | 0 <= i < |fs|
      ensures Selects(FiltersWithJoinQuery(Some([fs[i]])), o) <==>
              JoinFilter(fs[i]).Ok? &&
              JoinsPresent(o, JoinFilter(fs[i]).value.joins) && Eval(JoinFilter(fs[i]).value.pred, o)
    {
      SingleJoinFilter(fs[i], o);
    }
    if fs != [] && MapAll(fs, JoinFilter).Ok? {
      var pieces := MapAll(fs, JoinFilter).value;
      AllJoinsPresent(o, pieces);
      ConjIff(PredsOf(pieces), o);
    }
  }

  /** One filter on a path the translator accepts selects the rows where every
      join it creates finds a partner and some value along the path passes the
      tag's test, read with "lessThan" and "lessThanEqual" swapped. */
  lemma WithJoinFilterSelects(f: SearchFilter, o: Obj)
    requires JoinFilter(f).Ok?
    requires f.operation == "like" ==> NoWildcards(Text(f.value))
    ensures Selects(FiltersWithJoinQuery(Some([f])), o) <==>
      JoinsPresent(o, JoinFilter(f).value.joins) &&
      exists x | x in FieldValues(o, JoinFilter(f).value.pred.field) :: Meaning(SwapLess(f.operation), x, f.value)
  {
    var piece := JoinFilter(f).value;
    var path := ColumnPath(Employee, f.columnName).value.field;
    SingleJoinFilter(f, o);
    assert piece.pred == JoinTest(f.operation, path, f.value).value;
    forall x | x in FieldValues(o, path)
      ensures Satisfies(piece.pred, x) <==> Meaning(SwapLess(f.operation), x, f.value)
    {
      JoinTestMeaning(f.operation, path, f.value, x);
    }
  }

  /** The number of joins a column creates: one per part before the last. */
  function JoinCount(column: string): nat
  {
    if '.' in column && JavaSplit(column, '.') != [] then |JavaSplit(column, '.')| - 1 else 0
  }

  function TotalJoins(fs: seq<SearchFilter>): nat
  {
    if fs == [] then 0 else TotalJoins(fs[..|fs| - 1]) + JoinCount(fs[|fs| - 1].columnName)
  }

  lemma {:induction false} AllJoinsCount(fs: seq<SearchFilter>, pieces: seq<Piece>)
    requires |pieces| == |fs| && forall i :: 0 <= i < |fs| ==> JoinFilter(fs[i]) == Ok(pieces[i])
    ensures |AllJoins(pieces)| == TotalJoins(fs)
  {
    if fs != [] {
      var n := |fs| - 1;
      AllJoinsCount(fs[..n], pieces[..n]);
      assert pieces[n].joins == ColumnPath(Employee, fs[n].columnName).value.joins;
    }
  }

  /** Joins are never shared: every filter creates its own joins, so the query
      holds one join per relationship step of every filter. */
  lemma WithJoinCreatesEveryJoin(fs: seq<SearchFilter>)
    requires fs != [] && FiltersWithJoinQuery(Some(fs)).Ok?
    ensures |FiltersWithJoinQuery(Some(fs)).value.joins| == TotalJoins(fs)
  {
    MapAllOk(fs, JoinFilter);
    AllJoinsCount(fs, MapAll(fs, JoinFilter).value);
  }

  /** The column naming the department creator's user name. */
  const CreatorNameColumn: string := "department.createdBy.username"

  lemma CreatorNameColumnSplits()
    ensures '.' in CreatorNameColumn
    ensures JavaSplit(CreatorNameColumn, '.') == ["department", "createdBy", "username"]
  {
    var parts := ["department", "createdBy", "username"];
    assert JoinWith(parts, '.') == CreatorNameColumn;
    assert CreatorNameColumn[10] == '.';
    JavaSplitJoin(parts, '.');
  }

  lemma CreatorChainReachesUser()
    ensures Walk(Employee, CreatorChain) == Ok(User)
    ensures Prefixes(CreatorChain) == [["department"], CreatorChain]
  {
    assert CreatorChain[..1] == ["department"];
    assert ["department"][..0] == [];
    var p := Prefixes(CreatorChain);
    assert |p| == 2 && p[0] == ["department"] && p[1] == CreatorChain;
  }

  /** The resolution of a dotted column, given how it splits. */
  lemma DottedColumnPath(root: Entity, column: string, rels: Chain, attr: string)
    requires '.' in column && JavaSplit(column, '.') == rels + [attr]
    ensures ColumnPath(root, column) ==
      match Walk(root, rels)
      case Err(e) => Err(e)
      case Ok(target) => if attr in Attributes(target) then Ok(Resolved(Prefixes(rels), Field(rels, attr)))
                         else Err(UnknownAttribute(attr))
  {
    var parts := rels + [attr];
    assert parts[..|parts| - 1] == rels && parts[|parts| - 1] == attr;
  }

  /** A column that splits into department, createdBy and username (the literal
      column above is one) resolves to the creator's user name behind two joins. */
  lemma CreatorNameColumnResolves(column: string)
    requires '.' in column && JavaSplit(column, '.') == ["department", "createdBy", "username"]
    ensures ColumnPath(Employee, column) ==
            Ok(Resolved([["department"], CreatorChain], Field(CreatorChain, "username")))
  {
    CreatorChainReachesUser();
    assert CreatorChain + ["username"] == ["department", "createdBy", "username"];
    DottedColumnPath(Employee, column, CreatorChain, "username");
  }

  /** Joins are not reused: a filter given twice creates its joins twice. */
  lemma RepeatedFilterJoinsTwice(f: SearchFilter)
    requires JoinFilter(f).Ok?
    ensures var piece := JoinFilter(f).value;
      FiltersWithJoinQuery(Some([f, f])) ==
        Ok(Query(piece.joins + piece.joins, Conj([piece.pred, piece.pred])))
  {
    var piece := JoinFilter(f).value;
    var fs := [f, f];
    var none: seq<Piece> := [];
    assert fs[..0] == [] && none + [piece] == [piece];
    MapAllStep(fs, JoinFilter, 0, none, piece);
    MapAllStep(fs, JoinFilter, 1, [piece], piece);
    assert fs[..2] == fs;
    var pieces := [piece, piece];
    assert [piece] + [piece] == pieces;
    assert MapAll(fs, JoinFilter) == Ok(pieces);
    assert [piece][..0] == none;
    assert AllJoins([piece]) == piece.joins;
    assert pieces[..1] == [piece];
    assert AllJoins(pieces) == piece.joins + piece.joins;
    assert PredsOf(pieces) == [piece.pred, piece.pred];
  }

  /** Two equality filters on the creator's user name join the department and its
      creator twice each. */
  lemma RepeatedPathJoinsTwice(column: string)
    requires '.' in column && JavaSplit(column, '.') == ["department", "createdBy", "username"]
    ensures var f := SearchFilter(column, "equal", Str("raj"));
      var p := Compare(EqOp, Field(CreatorChain, "username"), Str("raj"));
      FiltersWithJoinQuery(Some([f, f])) ==
        Ok(Query([["department"], CreatorChain, ["department"], CreatorChain], Conj([p, p])))
  {
    CreatorNameColumnResolves(column);
    var f := SearchFilter(column, "equal", Str("raj"));
    var p := Compare(EqOp, Field(CreatorChain, "username"), Str("raj"));
    var joins: seq<Chain> := [["department"], CreatorChain];
    assert JoinFilter(f) == Ok(Piece(joins, p));
    RepeatedFilterJoinsTwice(f);
    assert joins + joins == [["department"], CreatorChain, ["department"], CreatorChain];
  }

  /** A dotted column resolves to a field declared on the entity its chain reaches,
      behind one join per prefix of that chain; joining the chain and the attribute
      with dots gives the column back unless it ends with a dot. A plain column
      is an attribute of the root, read without joins. */
  lemma ColumnPathResolves(root: Entity, column: string)
    requires ColumnPath(root, column).Ok?
    ensures var res := ColumnPath(root, column).value;
      Walk(root, res.field.chain).Ok? &&
      res.field.attr in Attributes(Walk(root, res.field.chain).value) &&
      res.joins == Prefixes(res.field.chain) &&
      ('.' !in column ==> res.field == Field([], column)) &&
      (column != [] && column[|column| - 1] != '.' ==> JoinWith(res.field.chain + [res.field.attr], '.') == column)
  {
    if '.' in column {
      var parts := JavaSplit(column, '.');
      assert parts[..|parts| - 1] + [parts[|parts| - 1]] == parts;
      if column != [] && column[|column| - 1] != '.' {
        JavaSplitJoinBack(column, '.');
      }
    }
  }

  /** A column made only of dots splits into no parts, and the read of the last part fails. */
  lemma DotsOnlyColumnFails(root: Entity, column: string)
    requires column != [] && forall i :: 0 <= i < |column| ==> column[i] == '.'
    ensures ColumnPath(root, column) == Err(IndexOutOfBounds)
  {
    JavaSplitOfSeparators(column, '.');
    assert column[0] == '.';
  }
}
