/**
 * The department specifications, each a single optional condition: a location
 * equal to the one given, a creator whose user name contains the given text,
 * a budget above the given amount, a creation time between two given times.
 * A missing argument (or text without a non-whitespace character) leaves the
 * condition out.
 */
module DepartmentSpecification {

  import opened Results
  import opened JavaText
  import opened Criteria

  /** StringUtils.hasText on a nullable string. */
  predicate Given(text: Option<string>)
  {
    text.Some? && HasText(text.value)
  }

  function HasLocation(location: Option<string>): Query
  {
    if !Given(location) then TrueQuery
    else Query([], Compare(EqOp, Field([], "location"), Str(location.value)))
  }

  function CreatedByLike(createdBy: Option<string>): Query
  {
    if !Given(createdBy) then TrueQuery
    else Query([["createdBy"]], LowerLike(Field(["createdBy"], "username"), Lower("%" + createdBy.value + "%")))
  }

  /** Amounts are whole numbers here. */
  function BudgetGreaterThen(budget: Option<int>): Query
  {
    if budget.None? then TrueQuery
    else Query([], Compare(GtOp, Field([], "budget"), Num(budget.value)))
  }

  /** Times are numbers on one time line here. */
  function CreatedBetweenDates(startDate: Option<int>, endDate: Option<int>): Query
  {
    if startDate.None? || endDate.None? then TrueQuery
    else Query([], Between(Field([], "createdAt"), Num(startDate.value), Num(endDate.value)))
  }

  /** With a location given, exactly the departments at that location, compared
      case-sensitively; otherwise every department. */
  lemma HasLocationSelects(location: Option<string>, o: Obj)
    ensures !Given(location) ==> Matches(HasLocation(location), o)
    ensures Given(location) ==>
      (Matches(HasLocation(location), o) <==>
        "location" in o.attrs && o.attrs["location"] == Str(location.value))
  {
    if Given(location) {
      AtomOnRoot(HasLocation(location).where, o);
    }
  }

  /** With text given, exactly the departments whose creator's user name contains
      the text, ignoring case; otherwise every department. */
  lemma CreatedByLikeSelects(createdBy: Option<string>, o: Obj)
    requires createdBy.Some? ==> NoWildcards(createdBy.value)
    ensures !Given(createdBy) ==> Matches(CreatedByLike(createdBy), o)
    ensures Given(createdBy) ==>
      (Matches(CreatedByLike(createdBy), o) <==>
        exists x | x in FieldValues(o, Field(["createdBy"], "username")) ::
          IsSubstring(Lower(createdBy.value), Lower(Text(x))))
  {
    if Given(createdBy) {
      var c := createdBy.value;
      LowerConcat("%" + c, "%");
      LowerConcat("%", c);
      assert Lower("%") == "%";
      var f := Field(["createdBy"], "username");
      forall x | x in FieldValues(o, f)
        ensures LikeMatch(Lower(Text(x)), "%" + Lower(c) + "%") <==> IsSubstring(Lower(c), Lower(Text(x)))
      {
        LikeMeaning(x, Str(c));
      }
      var joins: seq<Chain> := [["createdBy"]];
      assert joins[0] == ["createdBy"];
    }
  }

  /** With an amount given, exactly the departments whose budget exceeds it
      strictly; otherwise every department. */
  lemma BudgetGreaterThenSelects(budget: Option<int>, o: Obj)
    ensures budget.None? ==> Matches(BudgetGreaterThen(budget), o)
    ensures budget.Some? ==>
      (Matches(BudgetGreaterThen(budget), o) <==>
        "budget" in o.attrs && o.attrs["budget"].Num? && o.attrs["budget"].n > budget.value)
  {
    if budget.Some? {
      AtomOnRoot(BudgetGreaterThen(budget).where, o);
    }
  }

  /** With both times given, exactly the departments created between them, both
      ends included (none when the start is after the end); with either one
      missing, every department. */
  lemma CreatedBetweenDatesSelects(startDate: Option<int>, endDate: Option<int>, o: Obj)
    ensures startDate.None? || endDate.None? ==> Matches(CreatedBetweenDates(startDate, endDate), o)
    ensures startDate.Some? && endDate.Some? ==>
      (Matches(CreatedBetweenDates(startDate, endDate), o) <==>
        "createdAt" in o.attrs && o.attrs["createdAt"].Num? &&
        startDate.value <= o.attrs["createdAt"].n <= endDate.value)
    ensures startDate.Some? && endDate.Some? && startDate.value > endDate.value ==>
      !Matches(CreatedBetweenDates(startDate, endDate), o)
  {
    if startDate.Some? && endDate.Some? {
      AtomOnRoot(CreatedBetweenDates(startDate, endDate).where, o);
    }
  }
}
