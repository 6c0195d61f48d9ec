/** The request models of the editor: the filters of events and objects and the
    object-to-object rule. They carry no behaviour of their own. */
module Models {
  import opened Tables

  /** `Literal["eq", "lt", "gt"]`. */
  datatype NumericalOp = EqOp | LtOp | GtOp

  datatype NumericalFilter = NumericalFilter(filter: NumericalOp, fieldName: string, value: real)

  datatype NominalFilter = NominalFilter(fieldName: string, value: seq<string>)

  /** `Union[NumericalFilter, NominalFilter]`, told apart by their `type` field. */
  datatype Filter = Numerical(numerical: NumericalFilter) | Nominal(nominal: NominalFilter)

  /** Start and end instants, each optional. */
  datatype TimeSpan = TimeSpan(start: Option<int>, end: Option<int>)

  datatype EventFilter = EventFilter(
    timeSpan: Option<TimeSpan>,
    activityNames: Option<seq<string>>,
    objectTypes: Option<seq<string>>,
    objectCounts: Option<seq<NumericalFilter>>,
    objectAttributesValues: Option<seq<Filter>>,
    eventAttributes: Option<seq<Filter>>)

  datatype ObjectFilter = ObjectFilter(objectTypes: Option<seq<string>>, attributes: Option<seq<Filter>>)

  /** The operator is kept as the string the request carries. */
  datatype JoinCondition = JoinCondition(sourceAttribute: string, targetAttribute: string, operator: string)

  datatype O2ORule = O2ORule(
    relationType: string,
    qualifier: string,
    sourceType: string,
    targetType: string,
    sourceFilter: Option<ObjectFilter>,
    targetFilter: Option<ObjectFilter>,
    joinConditions: seq<JoinCondition>)

  /** The operators the request model admits. */
  const Operators: seq<string> := ["==", "!=", ">", "<", ">=", "<=", "contains", "regex"]

  function FieldName(f: Filter): string
  {
    match f
    case Numerical(n) => n.fieldName
    case Nominal(n) => n.fieldName
  }

  /** A list that Python treats as true: present and not empty. */
  predicate Truthy<T>(o: Option<seq<T>>)
  {
    o.Some? && o.value != []
  }

  /** How many filters, from the first on, name a column of the frame: the filter at
      that position, if any, is the first whose column is unknown. */
  function KnownPrefix(columns: seq<Label>, filters: seq<Filter>): (n: nat)
    ensures n <= |filters|
    ensures forall j :: 0 <= j < n ==> Name(FieldName(filters[j])) in columns
    ensures n < |filters| ==> Name(FieldName(filters[n])) !in columns
    decreases |filters|
  {
    if filters == [] || Name(FieldName(filters[0])) !in columns then 0
    else
      var n := KnownPrefix(columns, filters[1..]);
      assert forall j :: 0 < j <= n ==> filters[j] == filters[1..][j - 1];
      1 + n
  }
}
