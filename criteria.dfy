/**
 * The predicate trees the specifications build, the rows they are evaluated
 * on, and the resolution of attribute names and relationship chains against
 * the schema.
 *
 * A row is an entity instance with its attribute values and, per
 * relationship, the related instances (at most one for a to-one
 * relationship). A query is the list of inner joins created while building
 * it, each recorded by its relationship chain from the root, and a WHERE
 * predicate. A test on a joined attribute holds when some instance reached
 * through the chain passes it; an attribute that is absent is SQL NULL and
 * passes no test.
 */
module Criteria {

  import opened Results
  import opened JavaText
  import opened Schema

  /** A filter value or an attribute value: text, a number (ids, amounts,
      dates and timestamps) or, as a filter payload only, a collection. */
  datatype Value = Str(s: string) | Num(n: int) | Items(vs: seq<Value>)

  /** Object.toString of a value, and the store's cast of an attribute to text. */
  function Text(v: Value): string
    decreases v, 1
  {
    match v
    case Str(s) => s
    case Num(n) => DecimalText(n)
    case Items(vs) => "[" + ItemsText(vs) + "]"
  }

  function ItemsText(vs: seq<Value>): string
    decreases vs, 0
  {
    if vs == [] then ""
    else if |vs| == 1 then Text(vs[0])
    else Text(vs[0]) + ", " + ItemsText(vs[1..])
  }

  datatype Obj = Obj(attrs: map<string, Value>, links: map<string, seq<Obj>>)

  /** Relationship names from the root, in traversal order. */
  type Chain = seq<string>

  /** The instances an inner-join chain reaches from a row. */
  function Reach(o: Obj, chain: Chain): seq<Obj>
    decreases |chain|, 0
  {
    if chain == [] then [o]
    else if chain[0] in o.links then ReachAll(o.links[chain[0]], chain[1..])
    else []
  }

  function ReachAll(os: seq<Obj>, chain: Chain): seq<Obj>
    decreases |chain|, 1, |os|
  {
    if os == [] then [] else Reach(os[0], chain) + ReachAll(os[1..], chain)
  }

  /** An attribute read off the root (empty chain) or off a join. */
  datatype Field = Field(chain: Chain, attr: string)

  function ValuesOf(ys: seq<Obj>, attr: string): seq<Value>
  {
    if ys == [] then []
    else (if attr in ys[0].attrs then [ys[0].attrs[attr]] else []) + ValuesOf(ys[1..], attr)
  }

  /** The non-NULL values a field takes on a row. */
  function FieldValues(o: Obj, f: Field): seq<Value>
  {
    ValuesOf(Reach(o, f.chain), f.attr)
  }

  datatype CmpOp = EqOp | NeOp | LtOp | LeOp | GtOp | GeOp

  /** The predicate tree: cb.and / cb.or over equal, notEqual, lessThan,
      lessThanOrEqualTo, greaterThan, greaterThanOrEqualTo, in,
      like(lower(field), pattern) and between. */
  datatype Pred =
    | Conj(ps: seq<Pred>)
    | Disj(ps: seq<Pred>)
    | Compare(op: CmpOp, field: Field, operand: Value)
    | Member(field: Field, options: seq<Value>)
    | LowerLike(field: Field, pattern: string)
    | Between(field: Field, low: Value, high: Value)

  datatype Query = Query(joins: seq<Chain>, where: Pred)

  /** One filter of a request: the attribute (or dotted relationship path), the
      operation tag and the value, which may be of any kind. */
  datatype SearchFilter = SearchFilter(columnName: string, operation: string, value: Value)

  /** cb.conjunction(): no joins, the empty AND. */
  const TrueQuery: Query := Query([], Conj([]))

  predicate Comparable(x: Value, y: Value)
  {
    (x.Str? && y.Str?) || (x.Num? && y.Num?)
  }

  /** The store's `<` on two values of the same kind. */
  predicate Less(x: Value, y: Value)
  {
    match (x, y)
    case (Num(a), Num(b)) => a < b
    case (Str(a), Str(b)) => StrLess(a, b)
    case _ => false
  }

  predicate Holds(op: CmpOp, x: Value, y: Value)
  {
    match op
    case EqOp => Comparable(x, y) && x == y
    case NeOp => Comparable(x, y) && x != y
    case LtOp => Less(x, y)
    case LeOp => Less(x, y) || (Comparable(x, y) && x == y)
    case GtOp => Less(y, x)
    case GeOp => Less(y, x) || (Comparable(x, y) && x == y)
  }

  predicate IsAtom(p: Pred)
  {
    !p.Conj? && !p.Disj?
  }

  /** Whether one non-NULL attribute value passes a test. */
  predicate Satisfies(p: Pred, x: Value)
    requires IsAtom(p)
  {
    match p
    case Compare(op, _, v) => Holds(op, x, v)
    case Member(_, vs) => x in vs
    case LowerLike(_, pattern) => LikeMatch(Lower(Text(x)), pattern)
    case Between(_, lo, hi) => Holds(GeOp, x, lo) && Holds(LeOp, x, hi)
  }

  predicate Eval(p: Pred, o: Obj)
    decreases p
  {
    match p
    case Conj(ps) => forall q | q in ps :: Eval(q, o)
    case Disj(ps) => exists q | q in ps :: Eval(q, o)
    case _ => exists x | x in FieldValues(o, p.field) :: Satisfies(p, x)
  }

  predicate JoinsPresent(o: Obj, joins: seq<Chain>)
  {
    forall j | j in joins :: Reach(o, j) != []
  }

  /** A row is selected when every inner join finds a partner and the WHERE predicate holds. */
  predicate Matches(q: Query, o: Obj)
  {
    JoinsPresent(o, q.joins) && Eval(q.where, o)
  }

  /** A built specification that selects a row: building did not throw and the row matches. */
  predicate Selects(r: Result<Query, Error>, o: Obj)
  {
    r.Ok? && Matches(r.value, o)
  }

  /** Specification.and of two specifications whose predicates are both present. */
  function AndSpec(a: Query, b: Query): (r: Query)
    ensures forall o :: Matches(r, o) <==> Matches(a, o) && Matches(b, o)
  {
    Query(a.joins + b.joins, Conj([a.where, b.where]))
  }

  // ---------------------------------------------------------------------
  // Facts about the predicate semantics
  // ---------------------------------------------------------------------

  lemma {:induction false} ValuesOfIff(ys: seq<Obj>, attr: string, x: Value)
    ensures x in ValuesOf(ys, attr) <==> exists y :: y in ys && attr in y.attrs && y.attrs[attr] == x
  {
    if ys != [] {
      ValuesOfIff(ys[1..], attr, x);
      assert forall y :: y in ys <==> y == ys[0] || y in ys[1..];
    }
  }

  /** A root attribute has one value on a row, or none when it is NULL. */
  lemma RootValues(o: Obj, attr: string)
    ensures FieldValues(o, Field([], attr)) == if attr in o.attrs then [o.attrs[attr]] else []
  {
    assert Reach(o, []) == [o];
    assert [o][1..] == [];
    assert ValuesOf([o], attr) == (if attr in o.attrs then [o.attrs[attr]] else []) + ValuesOf([], attr);
  }

  /** The empty AND selects every row. */
  lemma TrueQueryMatchesAll(o: Obj)
    ensures Matches(TrueQuery, o)
  {
  }

  /** An AND or an OR of a single predicate is that predicate. */
  lemma SingletonConnectives(p: Pred, o: Obj)
    ensures Eval(Conj([p]), o) <==> Eval(p, o)
    ensures Eval(Disj([p]), o) <==> Eval(p, o)
  {
    assert p in [p];
  }

  /** An AND holds when each of its predicates does. */
  lemma ConjIff(ps: seq<Pred>, o: Obj)
    ensures Eval(Conj(ps), o) <==> forall i :: 0 <= i < |ps| ==> Eval(ps[i], o)
  {
    if forall i :: 0 <= i < |ps| ==> Eval(ps[i], o) {
      forall q | q in ps
        ensures Eval(q, o)
      {
        var i :| 0 <= i < |ps| && ps[i] == q;
      }
    }
  }

  /** The inner joins of two lists are present when those of each list are. */
  lemma JoinsPresentConcat(o: Obj, a: seq<Chain>, b: seq<Chain>)
    ensures JoinsPresent(o, a + b) <==> JoinsPresent(o, a) && JoinsPresent(o, b)
  {
  }

  /** The operation tags both filter translators recognise. */
  const OperationTags: set<string> :=
    {"equal", "notEqual", "like", "in", "greaterThan", "lessThan", "greaterThanEqual", "lessThanEqual"}

  /** What each tag says by its name, stated on values independently of the
      comparison nodes: for `like`, a case-insensitive substring test; for `in`,
      membership in a collection operand. */
  predicate Meaning(op: string, x: Value, v: Value)
  {
    if op == "equal" then Comparable(x, v) && x == v
    else if op == "notEqual" then Comparable(x, v) && x != v
    else if op == "like" then IsSubstring(Lower(Text(v)), Lower(Text(x)))
    else if op == "in" then v.Items? && x in v.vs
    else if op == "greaterThan" then Less(v, x)
    else if op == "lessThan" then Less(x, v)
    else if op == "greaterThanEqual" then Comparable(x, v) && !Less(x, v)
    else if op == "lessThanEqual" then Comparable(x, v) && !Less(v, x)
    else false
  }

  lemma LessAsymmetric(x: Value, y: Value)
    ensures Less(x, y) ==> !Less(y, x) && Comparable(x, y) && x != y
  {
    if x.Str? && y.Str? && Less(x, y) {
      StrLessIrreflexive(x.s);
      if StrLess(y.s, x.s) {
        StrLessTransitive(x.s, y.s, x.s);
      }
    }
  }

  /** Each comparison node tests what the tag of the same name says. */
  lemma HoldsMeaning(x: Value, v: Value)
    ensures Holds(EqOp, x, v) <==> Meaning("equal", x, v)
    ensures Holds(NeOp, x, v) <==> Meaning("notEqual", x, v)
    ensures Holds(GtOp, x, v) <==> Meaning("greaterThan", x, v)
    ensures Holds(LtOp, x, v) <==> Meaning("lessThan", x, v)
    ensures Holds(GeOp, x, v) <==> Meaning("greaterThanEqual", x, v)
    ensures Holds(LeOp, x, v) <==> Meaning("lessThanEqual", x, v)
  {
    LessAsymmetric(x, v);
    LessAsymmetric(v, x);
    if x.Str? && v.Str? {
      StrLessTotal(x.s, v.s);
    }
  }

  /** like(lower(field), "%" + lower(s) + "%") with a wildcard-free s is a
      case-insensitive substring test. */
  lemma LikeMeaning(x: Value, v: Value)
    requires NoWildcards(Text(v))
    ensures LikeMatch(Lower(Text(x)), "%" + Lower(Text(v)) + "%") <==> Meaning("like", x, v)
  {
    LowerKeepsWildcards(Text(v));
    LikeContains(Lower(Text(x)), Lower(Text(v)));
  }

  /** A test on a root attribute looks at that attribute's value alone. */
  lemma AtomOnRoot(p: Pred, o: Obj)
    requires IsAtom(p) && p.field.chain == []
    ensures Eval(p, o) <==> p.field.attr in o.attrs && Satisfies(p, o.attrs[p.field.attr])
  {
    RootValues(o, p.field.attr);
  }

  // ---------------------------------------------------------------------
  // Errors and resolution against the schema
  // ---------------------------------------------------------------------

  /** The exceptions a specification throws while building its predicate. */
  datatype Error =
    | UnsupportedOperation(tag: string)   // UnsupportedOperationException naming the tag
    | UnknownAttribute(name: string)      // Path.get of a name that is no attribute
    | UnknownRelationship(name: string)   // From.join of a name that is no relationship
    | ClassCast                           // a cast of the filter value failed
    | IndexOutOfBounds                    // an empty split result was indexed
    | NullPointer                         // iteration over a null filter list

  /** The entity reached by joining along a chain, or the first name that is no relationship. */
  function Walk(root: Entity, rels: Chain): Result<Entity, Error>
  {
    if rels == [] then Ok(root)
    else match Walk(root, rels[..|rels| - 1])
      case Err(e) => Err(e)
      case Ok(e) =>
        var name := rels[|rels| - 1];
        if name in Relationships(e) then Ok(Relationships(e)[name].target)
        else Err(UnknownRelationship(name))
  }

  /** A failure on a prefix of a chain is the failure of the whole chain. */
  lemma {:induction false} WalkPrefixFailure(root: Entity, rels: Chain, k: nat)
    requires k <= |rels| && Walk(root, rels[..k]).Err?
    ensures Walk(root, rels) == Walk(root, rels[..k])
    decreases |rels| - k
  {
    if k < |rels| {
      var next := rels[..k + 1];
      assert next[..|next| - 1] == rels[..k];
      WalkPrefixFailure(root, rels, k + 1);
    } else {
      assert rels[..k] == rels;
    }
  }

  /** Path.get on an entity: the attribute must be declared on it. */
  function Get(e: Entity, chain: Chain, attr: string): Result<Field, Error>
  {
    if attr in Attributes(e) then Ok(Field(chain, attr)) else Err(UnknownAttribute(attr))
  }

  // ---------------------------------------------------------------------
  // Translating a filter list in order, stopping at the first exception
  // ---------------------------------------------------------------------

  function MapAll<A, B>(xs: seq<A>, f: A -> Result<B, Error>): Result<seq<B>, Error>
  {
    if xs == [] then Ok([])
    else match MapAll(xs[..|xs| - 1], f)
      case Err(e) => Err(e)
      case Ok(ys) =>
        match f(xs[|xs| - 1])
        case Err(e) => Err(e)
        case Ok(y) => Ok(ys + [y])
  }

  /** The translation succeeds exactly when every element translates, and then
      it holds every element's translation, in order. */
  lemma {:induction false} MapAllOk<A, B>(xs: seq<A>, f: A -> Result<B, Error>)
    ensures MapAll(xs, f).Ok? <==> forall i :: 0 <= i < |xs| ==> f(xs[i]).Ok?
    ensures MapAll(xs, f).Ok? ==>
      |MapAll(xs, f).value| == |xs| &&
      forall i :: 0 <= i < |xs| ==> f(xs[i]) == Ok(MapAll(xs, f).value[i])
  {
    if xs != [] {
      var init := xs[..|xs| - 1];
      MapAllOk(init, f);
      assert forall i :: 0 <= i < |init| ==> init[i] == xs[i];
    }
  }

  /** The exception raised is that of the first element that fails. */
  lemma {:induction false} MapAllFirstFailure<A, B>(xs: seq<A>, f: A -> Result<B, Error>, k: nat)
    requires k < |xs| && f(xs[k]).Err?
    requires forall i :: 0 <= i < k ==> f(xs[i]).Ok?
    ensures MapAll(xs, f) == Err(f(xs[k]).error)
  {
    var init := xs[..|xs| - 1];
    if k == |xs| - 1 {
      MapAllOk(init, f);
      assert forall i :: 0 <= i < |init| ==> init[i] == xs[i];
    } else {
      assert init[k] == xs[k];
      assert forall i :: 0 <= i < k ==> init[i] == xs[i];
      MapAllFirstFailure(init, f, k);
    }
  }

  /** After a successful prefix, the first failing element decides the outcome. */
  lemma MapAllPrefixFailure<A, B>(xs: seq<A>, f: A -> Result<B, Error>, i: nat)
    requires i < |xs| && MapAll(xs[..i], f).Ok? && f(xs[i]).Err?
    ensures MapAll(xs, f) == Err(f(xs[i]).error)
  {
    MapAllOk(xs[..i], f);
    assert forall j :: 0 <= j < i ==> xs[..i][j] == xs[j];
    MapAllFirstFailure(xs, f, i);
  }

  lemma MapAllSingle<A, B>(x: A, f: A -> Result<B, Error>)
    ensures MapAll([x], f) == match f(x) case Ok(y) => Ok([y]) case Err(e) => Err(e)
  {
    var xs := [x];
    assert xs[..|xs| - 1] == [] && xs[|xs| - 1] == x;
    assert MapAll(xs[..|xs| - 1], f) == Ok([]);
    match f(x)
    case Ok(y) =>
      var none: seq<B> := [];
      assert none + [y] == [y];
    case Err(_) =>
  }

  lemma MapAllStep<A, B>(xs: seq<A>, f: A -> Result<B, Error>, i: nat, ys: seq<B>, y: B)
    requires i < |xs| && MapAll(xs[..i], f) == Ok(ys) && f(xs[i]) == Ok(y)
    ensures MapAll(xs[..i + 1], f) == Ok(ys + [y])
  {
    assert xs[..i + 1][..i] == xs[..i];
  }
}
