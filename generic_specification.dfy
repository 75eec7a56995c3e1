/**
 * The generic specification: a filter list held by an object and translated,
 * on demand, into the AND of one test per filter on attributes of the root.
 * Unlike the employee translators it gives every tag its own meaning and
 * silently skips a tag it does not recognise.
 */
module GenericSpecification {

  import opened Results
  import opened JavaText
  import opened Schema
  import opened Criteria
  import EmployeeSpecification

  /** The test built for one tag; an unrecognised tag contributes nothing. The
      value is cast to a collection for "in" and to Comparable for the ordering tags. */
  function GenericTest(op: string, path: Field, v: Value): (r: Result<Option<Pred>, Error>)
    ensures (r.Ok? && r.value.None?) <==> op !in OperationTags
    ensures r.Err? <==> (op == "in" && !v.Items?) || (op in EmployeeSpecification.OrderingTags && v.Items?)
    ensures r.Err? ==> r == Err(ClassCast)
    ensures r.Ok? && r.value.Some? ==> IsAtom(r.value.value) && r.value.value.field == path
  {
    if op == "equal" then Ok(Some(Compare(EqOp, path, v)))
    else if op == "notEqual" then Ok(Some(Compare(NeOp, path, v)))
    else if op == "like" then Ok(Some(LowerLike(path, "%" + Lower(Text(v)) + "%")))
    else if op in EmployeeSpecification.OrderingTags then
      if v.Items? then Err(ClassCast)
      else if op == "greaterThan" then Ok(Some(Compare(GtOp, path, v)))
      else if op == "lessThan" then Ok(Some(Compare(LtOp, path, v)))
      else if op == "greaterThanEqual" then Ok(Some(Compare(GeOp, path, v)))
      else Ok(Some(Compare(LeOp, path, v)))
    else if op == "in" then (if v.Items? then Ok(Some(Member(path, v.vs))) else Err(ClassCast))
    else Ok(None)
  }

  /** One filter: the attribute is looked up before the tag is examined. */
  function GenericFilter(root: Entity, f: SearchFilter): Result<Option<Pred>, Error>
  {
    match Get(root, [], f.columnName)
    case Err(e) => Err(e)
    case Ok(path) => GenericTest(f.operation, path, f.value)
  }

  function GenericStep(root: Entity): SearchFilter -> Result<Option<Pred>, Error>
  {
    f => GenericFilter(root, f)
  }

  /** The predicates actually added, in order. */
  function Present(opts: seq<Option<Pred>>): seq<Pred>
  {
    if opts == [] then []
    else Present(opts[..|opts| - 1]) + (if opts[|opts| - 1].Some? then [opts[|opts| - 1].value] else [])
  }

  /** The predicate toPredicate builds: a null list throws, otherwise the AND of
      the predicates the filters add, or the first exception raised. */
  function GenericQuery(filters: Option<seq<SearchFilter>>, root: Entity): Result<Query, Error>
  {
    if filters.None? then Err(NullPointer)
    else match MapAll(filters.value, GenericStep(root))
      case Err(e) => Err(e)
      case Ok(opts) => Ok(Query([], Conj(Present(opts))))
  }

  class GenericSpecification {

    const filters: Option<seq<SearchFilter>>

    constructor (filters: Option<seq<SearchFilter>>)
      ensures this.filters == filters
    {
      this.filters := filters;
    }

    method ToPredicate(root: Entity) returns (r: Result<Query, Error>)
      ensures r == GenericQuery(filters, root)
    {
      if filters.None? {
        return Err(NullPointer);
      }
      var fs := filters.value;
      var predicates: seq<Pred> := [];
      ghost var opts: seq<Option<Pred>> := [];
      var i := 0;
      while i < |fs|
        invariant 0 <= i <= |fs|
        invariant MapAll(fs[..i], GenericStep(root)) == Ok(opts) && predicates == Present(opts)
      {
        var filter := fs[i];
        var path := Get(root, [], filter.columnName);
        if path.Err? {
          MapAllPrefixFailure(fs, GenericStep(root), i);
          return Err(path.error);
        }
        var value := filter.value;
        var test := GenericTest(filter.operation, path.value, value);
        if test.Err? {
          MapAllPrefixFailure(fs, GenericStep(root), i);
          return Err(test.error);
        }
        MapAllStep(fs, GenericStep(root), i, opts, test.value);
        assert (opts + [test.value])[..|opts|] == opts;
        opts := opts + [test.value];
        if test.value.Some? {
          predicates := predicates + [test.value.value];
        }
        i := i + 1;
      }
      assert fs[..i] == fs;
      return Ok(Query([], Conj(predicates)));
    }
  }

  lemma {:induction false} PresentMembers(opts: seq<Option<Pred>>)
    ensures forall q :: q in Present(opts) <==> exists k :: 0 <= k < |opts| && opts[k] == Some(q)
  {
    if opts != [] {
      var init := opts[..|opts| - 1];
      PresentMembers(init);
      assert forall k :: 0 <= k < |init| ==> init[k] == opts[k];
    }
  }

  /** The AND of the added predicates holds when every filter that added one holds. */
  lemma PresentEval(opts: seq<Option<Pred>>, o: Obj)
    ensures Eval(Conj(Present(opts)), o) <==>
            forall k :: 0 <= k < |opts| && opts[k].Some? ==> Eval(opts[k].value, o)
  {
    PresentMembers(opts);
    if forall k :: 0 <= k < |opts| && opts[k].Some? ==> Eval(opts[k].value, o) {
      forall q | q in Present(opts)
        ensures Eval(q, o)
      {
        var k :| 0 <= k < |opts| && opts[k] == Some(q);
      }
    }
  }

  /** A single filter selects a row when it translates and its test, if any, holds. */
  lemma SingleGenericFilter(f: SearchFilter, root: Entity, o: Obj)
    ensures Selects(GenericQuery(Some([f]), root), o) <==>
      GenericFilter(root, f).Ok? &&
      (GenericFilter(root, f).value.Some? ==> Eval(GenericFilter(root, f).value.value, o))
  {
    MapAllSingle(f, GenericStep(root));
    if GenericFilter(root, f).Ok? {
      var opt := GenericFilter(root, f).value;
      PresentEval([opt], o);
    }
  }

  /** A row passes the filters exactly when it passes each filter on its own. */
  lemma GenericIntersection(fs: seq<SearchFilter>, root: Entity, o: Obj)
    ensures Selects(GenericQuery(Some(fs), root), o) <==>
            forall i :: 0 <= i < |fs| ==> Selects(GenericQuery(Some([fs[i]]), root), o)
  {
    MapAllOk(fs, GenericStep(root));
    forall i | 0 <= i < |fs|
      ensures Selects(GenericQuery(Some([fs[i]]), root), o) <==>
        GenericFilter(root, fs[i]).Ok? &&
        (GenericFilter(root, fs[i]).value.Some? ==> Eval(GenericFilter(root, fs[i]).value.value, o))
    {
      SingleGenericFilter(fs[i], root, o);
    }
    if MapAll(fs, GenericStep(root)).Ok? {
      PresentEval(MapAll(fs, GenericStep(root)).value, o);
    }
  }

  /** A filter with an unrecognised tag on a declared attribute selects every row:
      the tag is ignored rather than rejected. */
  lemma UnknownOperationSelectsAll(f: SearchFilter, root: Entity, o: Obj)
    requires f.operation !in OperationTags && f.columnName in Attributes(root)
    ensures GenericQuery(Some([f]), root) == Ok(TrueQuery)
    ensures Selects(GenericQuery(Some([f]), root), o)
  {
    MapAllSingle(f, GenericStep(root));
    var skipped: seq<Option<Pred>> := [None];
    assert skipped[..0] == [];
    assert Present(skipped) == [];
  }

  /** Dropping a filter whose tag is unrecognised does not change which rows are selected. */
  lemma UnknownOperationIgnored(fs: seq<SearchFilter>, k: nat, root: Entity, o: Obj)
    requires k < |fs| && fs[k].operation !in OperationTags && fs[k].columnName in Attributes(root)
    ensures Selects(GenericQuery(Some(fs), root), o) <==>
            Selects(GenericQuery(Some(fs[..k] + fs[k + 1..]), root), o)
  {
    var rest := fs[..k] + fs[k + 1..];
    GenericIntersection(fs, root, o);
    GenericIntersection(rest, root, o);
    UnknownOperationSelectsAll(fs[k], root, o);
    if Selects(GenericQuery(Some(fs), root), o) {
      forall j | 0 <= j < |rest|
        ensures Selects(GenericQuery(Some([rest[j]]), root), o)
      {
        if j < k {
          assert rest[j] == fs[j];
        } else {
          assert rest[j] == fs[j + 1];
        }
      }
    }
    if Selects(GenericQuery(Some(rest), root), o) {
      forall i | 0 <= i < |fs|
        ensures Selects(GenericQuery(Some([fs[i]]), root), o)
      {
        if i < k {
          assert rest[i] == fs[i];
        } else if i > k {
          assert rest[i - 1] == fs[i];
        }
      }
    }
  }

  /** Columns are read off the root only: a dotted path is not split, names no
      attribute, and raises the unknown-attribute error. */
  lemma DottedColumnIsUnknown(f: SearchFilter, root: Entity)
    requires '.' in f.columnName
    ensures GenericQuery(Some([f]), root) == Err(UnknownAttribute(f.columnName))
  {
    if f.columnName in Attributes(root) {
      AttributesHaveNoDots(root, f.columnName);
    }
    MapAllSingle(f, GenericStep(root));
  }

  /** Each recognised tag tests what its name says on the attribute's value. */
  lemma GenericOperators(f: SearchFilter, root: Entity, o: Obj)
    requires GenericFilter(root, f).Ok? && f.operation in OperationTags
    requires f.operation == "like" ==> NoWildcards(Text(f.value))
    ensures Selects(GenericQuery(Some([f]), root), o) <==>
      f.columnName in o.attrs && Meaning(f.operation, o.attrs[f.columnName], f.value)
  {
    SingleGenericFilter(f, root, o);
    var p := GenericFilter(root, f).value.value;
    AtomOnRoot(p, o);
    if f.columnName in o.attrs {
      var x := o.attrs[f.columnName];
      HoldsMeaning(x, f.value);
      if f.operation == "like" {
        LikeMeaning(x, f.value);
      }
    }
  }

  /** On a plain column, byFiltersWithJoin given a recognised tag builds exactly
      what the generic specification builds for the tag with "lessThan" and
      "lessThanEqual" exchanged. */
  lemma JoinTranslatorSwapsLessTags(column: string, op: string, v: Value)
    requires '.' !in column && op in OperationTags
    ensures EmployeeSpecification.FiltersWithJoinQuery(Some([SearchFilter(column, op, v)])) ==
            GenericQuery(Some([SearchFilter(column, EmployeeSpecification.SwapLess(op), v)]), Employee)
  {
    var f := SearchFilter(column, op, v);
    var g := SearchFilter(column, EmployeeSpecification.SwapLess(op), v);
    MapAllSingle(f, EmployeeSpecification.JoinFilter);
    MapAllSingle(g, GenericStep(Employee));
    if EmployeeSpecification.JoinFilter(f).Ok? {
      var piece := EmployeeSpecification.JoinFilter(f).value;
      assert [piece][..0] == [];
      assert EmployeeSpecification.AllJoins([piece]) == [];
      assert EmployeeSpecification.PredsOf([piece]) == [piece.pred];
      var opt := GenericFilter(Employee, g).value;
      assert opt == Some(piece.pred);
      assert [opt][..0] == [];
      assert Present([opt]) == [piece.pred];
    }
  }

  /** The two translators disagree on a row whose value equals the bound:
      byFiltersWithJoin's "lessThan" selects it, the generic "lessThan" does not. */
  lemma LessThanDiffersOnTheBound(column: string, v: Value, o: Obj)
    requires '.' !in column && column in Attributes(Employee) && !v.Items?
    requires column in o.attrs && o.attrs[column] == v
    ensures Selects(EmployeeSpecification.FiltersWithJoinQuery(Some([SearchFilter(column, "lessThan", v)])), o)
    ensures !Selects(GenericQuery(Some([SearchFilter(column, "lessThan", v)]), Employee), o)
  {
    JoinTranslatorSwapsLessTags(column, "lessThan", v);
    GenericOperators(SearchFilter(column, "lessThanEqual", v), Employee, o);
    GenericOperators(SearchFilter(column, "lessThan", v), Employee, o);
    LessAsymmetric(v, v);
  }
}
