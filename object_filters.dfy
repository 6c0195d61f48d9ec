/** The editor's object filter: object types and attribute filters, each narrowing a
    row mask over the object table. Numerical filters here are strict. */
module ObjectFilters {
  import opened Tables
  import opened Models

  /** The comparison a numerical filter makes in this file: "gt" is `>` and "lt" is `<`. */
  function StrictOp(op: NumericalOp): CmpOp
  {
    match op
    case GtOp => Gt
    case LtOp => Lt
    case EqOp => Eq
  }

  /** One filter on an object row: a numerical filter compares the column coerced to
      numbers (a cell that does not coerce fails); a nominal one tests membership. */
  predicate ObjectAttributeHolds(row: Row, f: Filter)
  {
    match f
    case Numerical(n) => CoercedHolds(Cell(row, Name(n.fieldName)), StrictOp(n.filter), n.value)
    case Nominal(n) => IsIn(Cell(row, Name(n.fieldName)), n.value)
  }

  predicate AllObjectAttributes(row: Row, filters: seq<Filter>)
  {
    forall j :: 0 <= j < |filters| ==> ObjectAttributeHolds(row, filters[j])
  }

  /** The attribute mask, or the `KeyError` of the first filter on an unknown column. */
  function AttributeMask(objects: Frame, filters: seq<Filter>): (r: Result<seq<bool>>)
    ensures r.Ok? ==> |r.value| == |objects.rows|
  {
    var n := KnownPrefix(objects.columns, filters);
    if n < |filters| then Err(KeyError(Name(FieldName(filters[n]))))
    else Ok(seq(|objects.rows|, i requires 0 <= i < |objects.rows| => AllObjectAttributes(objects.rows[i], filters)))
  }

  /** Narrows the mask filter by filter; an unknown column raises `KeyError`. With no
      filters the mask is all true. */
  method FilterMaskByObjectAttributes(objects: Frame, filters: seq<Filter>) returns (r: Result<seq<bool>>)
    ensures var n := KnownPrefix(objects.columns, filters);
      n < |filters| ==> r == Err(KeyError(Name(FieldName(filters[n]))))
    ensures KnownPrefix(objects.columns, filters) == |filters| ==>
      && r.Ok? && |r.value| == |objects.rows|
      && forall i :: 0 <= i < |objects.rows| ==> (r.value[i] <==> AllObjectAttributes(objects.rows[i], filters))
  {
    var rows := objects.rows;
    var mask := Constant(|rows|, true);
    var i := 0;
    while i < |filters|
      invariant 0 <= i <= |filters|
      invariant forall j :: 0 <= j < i ==> Name(FieldName(filters[j])) in objects.columns
      invariant |mask| == |rows|
      invariant forall k :: 0 <= k < |rows| ==> (mask[k] <==> AllObjectAttributes(rows[k], filters[..i]))
    {
      var f := filters[i];
      if Name(FieldName(f)) !in objects.columns {
        return Err(KeyError(Name(FieldName(f))));
      }
      mask := And(mask, seq(|rows|, k requires 0 <= k < |rows| => ObjectAttributeHolds(rows[k], f)));
      assert forall k :: 0 <= k < |rows| ==>
        (mask[k] <==> AllObjectAttributes(rows[k], filters[..i]) && ObjectAttributeHolds(rows[k], f));
      assert filters[..i + 1] == filters[..i] + [f];
      i := i + 1;
    }
    assert filters[..i] == filters;
    return Ok(mask);
  }

  /** Whether an object row passes the type criterion. */
  predicate TypePasses(row: Row, filter: ObjectFilter)
  {
    Truthy(filter.objectTypes) ==> IsIn(Cell(row, ObjectType), filter.objectTypes.value)
  }

  /** The mask of the whole filter, or the exception of the attribute criterion. */
  function ObjectFilterMask(objects: Frame, filter: ObjectFilter): (r: Result<seq<bool>>)
    ensures r.Ok? ==> |r.value| == |objects.rows|
  {
    var m := seq(|objects.rows|, i requires 0 <= i < |objects.rows| => TypePasses(objects.rows[i], filter));
    if Truthy(filter.attributes) then
      match AttributeMask(objects, filter.attributes.value)
      case Err(e) => Err(e)
      case Ok(a) => Ok(And(m, a))
    else Ok(m)
  }

  /** The filtered object table; no filter at all returns the table itself. */
  function ObjectFilterResult(objects: Frame, filter: Option<ObjectFilter>): (r: Result<Frame>)
    ensures filter.None? ==> r == Ok(objects)
    ensures r.Ok? ==> r.value.columns == objects.columns && |r.value.rows| <= |objects.rows|
  {
    if filter.None? then Ok(objects)
    else
      match ObjectFilterMask(objects, filter.value)
      case Err(e) => Err(e)
      case Ok(mask) => Ok(Frame(objects.columns, Select(objects.rows, mask)))
  }

  /** `objects.loc[mask]` after narrowing the mask criterion by criterion. */
  method ApplyObjectFilter(objects: Frame, filter: Option<ObjectFilter>) returns (r: Result<Frame>)
    ensures r == ObjectFilterResult(objects, filter)
  {
    var rows := objects.rows;
    var mask := Constant(|rows|, true);
    if filter.None? {
      return Ok(objects);
    }
    var f := filter.value;
    if Truthy(f.objectTypes) {
      mask := And(mask, seq(|rows|, i requires 0 <= i < |rows| => IsIn(Cell(rows[i], ObjectType), f.objectTypes.value)));
    }
    assert mask == seq(|rows|, i requires 0 <= i < |rows| => TypePasses(rows[i], f));
    if Truthy(f.attributes) {
      var attributeMask := FilterMaskByObjectAttributes(objects, f.attributes.value);
      if attributeMask.Err? {
        return Err(attributeMask.error);
      }
      assert attributeMask.value == AttributeMask(objects, f.attributes.value).value;
      mask := And(mask, attributeMask.value);
    }
    assert mask == ObjectFilterMask(objects, f).value;
    return Ok(Frame(objects.columns, Select(rows, mask)));
  }

  // ---------------------------------------------------------------------------
  // Properties

  /** The filter fails exactly when an attribute filter names an unknown column;
      otherwise it keeps, in order, exactly the objects of a listed type (any type
      when the list is missing or empty) that satisfy every attribute filter. */
  lemma ObjectFilterSelects(objects: Frame, filter: ObjectFilter)
    ensures ObjectFilterResult(objects, Some(filter)).Err? <==>
      Truthy(filter.attributes) && KnownPrefix(objects.columns, filter.attributes.value) < |filter.attributes.value|
    ensures ObjectFilterResult(objects, Some(filter)).Ok? ==>
      var out := ObjectFilterResult(objects, Some(filter)).value;
      && out.columns == objects.columns
      && IsSubsequence(out.rows, objects.rows)
      && forall x :: x in out.rows <==> (x in objects.rows && TypePasses(x, filter) &&
           (Truthy(filter.attributes) ==> AllObjectAttributes(x, filter.attributes.value)))
  {
    var r := ObjectFilterResult(objects, Some(filter));
    if r.Ok? {
      var mask := ObjectFilterMask(objects, filter).value;
      SelectIsSubsequence(objects.rows, mask);
      forall x ensures x in Select(objects.rows, mask) <==> (x in objects.rows && TypePasses(x, filter) &&
           (Truthy(filter.attributes) ==> AllObjectAttributes(x, filter.attributes.value)))
      {
        SelectMembers(objects.rows, mask, x);
      }
    }
  }

  /** An object whose value equals the bound passes "eq" and fails both "gt" and "lt". */
  lemma ComparisonsStrict(row: Row, field: string, x: real)
    requires AsNumber(Cell(row, Name(field))) == Some(x)
    ensures ObjectAttributeHolds(row, Numerical(NumericalFilter(EqOp, field, x)))
    ensures !ObjectAttributeHolds(row, Numerical(NumericalFilter(GtOp, field, x)))
    ensures !ObjectAttributeHolds(row, Numerical(NumericalFilter(LtOp, field, x)))
  {
  }

  /** A value that does not coerce to a number fails every numerical filter. */
  lemma NonNumericFails(row: Row, f: NumericalFilter)
    requires AsNumber(Cell(row, Name(f.fieldName))).None?
    ensures !ObjectAttributeHolds(row, Numerical(f))
  {
  }

  /** Empty lists restrict nothing, and with no attribute filters the mask is all true. */
  lemma EmptyListsRestrictNothing(objects: Frame)
    ensures ObjectFilterResult(objects, Some(ObjectFilter(Some([]), Some([])))) == Ok(objects)
    ensures ObjectFilterResult(objects, Some(ObjectFilter(None, None))) == Ok(objects)
  {
    var m1 := ObjectFilterMask(objects, ObjectFilter(Some([]), Some([]))).value;
    SelectAll(objects.rows, m1);
    var m2 := ObjectFilterMask(objects, ObjectFilter(None, None)).value;
    SelectAll(objects.rows, m2);
  }
}
