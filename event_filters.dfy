/** The editor's event filter: time span, activities, related object types, counts
    of related objects per type, attributes of related objects, and attributes of
    the event itself, each narrowing a row mask over the event table. */
module EventFilters {
  import opened Tables
  import opened Models

  // ---------------------------------------------------------------------------
  // Counts of related objects per type

  /** The relation rows that grouping by (event id, object type) keeps: both keys present. */
  predicate Keyed(r: Row)
  {
    !Cell(r, EventId).Missing? && !Cell(r, ObjectType).Missing?
  }

  /** The index of the count table: the events that have a keyed relation. */
  function CountedEvents(rels: seq<Row>): set<Value>
  {
    set r | r in rels && Keyed(r) :: Cell(r, EventId)
  }

  /** The columns of the count table: the object types that occur in keyed relations. */
  function CountedTypes(rels: seq<Row>): set<Value>
  {
    set r | r in rels && Keyed(r) :: Cell(r, ObjectType)
  }

  /** How many relations link event `e` to an object of type `t` (0 where the table
      was filled in). */
  function TypeCount(rels: seq<Row>, e: Value, t: Value): nat
    decreases |rels|
  {
    if rels == [] then 0
    else
      var r := rels[|rels| - 1];
      TypeCount(rels[..|rels| - 1], e, t) + if Keyed(r) && Cell(r, EventId) == e && Cell(r, ObjectType) == t then 1 else 0
  }

  /** "lt" keeps counts up to the value and "gt" counts from the value on. */
  predicate CountCompare(op: NumericalOp, count: nat, value: real)
  {
    match op
    case LtOp => count as real <= value
    case GtOp => count as real >= value
    case EqOp => count as real == value
  }

  /** One count filter: its type must be a column of the count table. */
  predicate CountPasses(rels: seq<Row>, e: Value, f: NumericalFilter)
  {
    Str(f.fieldName) in CountedTypes(rels) && CountCompare(f.filter, TypeCount(rels, e, Str(f.fieldName)), f.value)
  }

  /** The events that pass every count filter. */
  function CountMatching(rels: seq<Row>, filters: seq<NumericalFilter>): set<Value>
  {
    set e | e in CountedEvents(rels) && forall j :: 0 <= j < |filters| ==> CountPasses(rels, e, filters[j])
  }

  /** Narrows the set of passing events filter by filter. */
  method FilterByObjectCount(rels: seq<Row>, filters: seq<NumericalFilter>) returns (eids: set<Value>)
    ensures eids == CountMatching(rels, filters)
  {
    var types := CountedTypes(rels);
    eids := CountedEvents(rels);
    var i := 0;
    while i < |filters|
      invariant 0 <= i <= |filters|
      invariant eids == set e | e in CountedEvents(rels) && forall j :: 0 <= j < i ==> CountPasses(rels, e, filters[j])
    {
      var f := filters[i];
      if Str(f.fieldName) in types {
        eids := set e | e in eids && CountCompare(f.filter, TypeCount(rels, e, Str(f.fieldName)), f.value);
      } else {
        eids := {};
      }
      i := i + 1;
    }
  }

  /** A count is positive exactly when some keyed relation links the event to the type. */
  lemma {:induction false} TypeCountPositive(rels: seq<Row>, e: Value, t: Value)
    ensures TypeCount(rels, e, t) > 0 <==>
      exists r :: r in rels && Keyed(r) && Cell(r, EventId) == e && Cell(r, ObjectType) == t
    decreases |rels|
  {
    if rels != [] {
      var pre := rels[..|rels| - 1];
      assert rels == pre + [rels[|rels| - 1]];
      TypeCountPositive(pre, e, t);
    }
  }

  /** An event not related to a type counts 0 objects of it: it passes "eq 0" and
      every "lt" with a non-negative value, and fails every "gt" above 0. */
  lemma UnrelatedTypeCountsZero(rels: seq<Row>, e: Value, t: string, value: real)
    requires Str(t) in CountedTypes(rels)
    requires forall r :: r in rels && Cell(r, EventId) == e ==> Cell(r, ObjectType) != Str(t)
    ensures CountPasses(rels, e, NumericalFilter(EqOp, t, 0.0))
    ensures value >= 0.0 ==> CountPasses(rels, e, NumericalFilter(LtOp, t, value))
    ensures value > 0.0 ==> !CountPasses(rels, e, NumericalFilter(GtOp, t, value))
  {
    TypeCountPositive(rels, e, Str(t));
  }

  /** A count filter on a type no relation has rejects every event. */
  lemma AbsentTypeRejectsAll(rels: seq<Row>, filters: seq<NumericalFilter>, j: nat)
    requires j < |filters| && Str(filters[j].fieldName) !in CountedTypes(rels)
    ensures CountMatching(rels, filters) == {}
  {
    forall e ensures e !in CountMatching(rels, filters) {
      assert !CountPasses(rels, e, filters[j]);
    }
  }

  /** Only events that occur in a keyed relation can pass. */
  lemma CountMatchingRelated(rels: seq<Row>, filters: seq<NumericalFilter>, e: Value)
    requires e in CountMatching(rels, filters)
    ensures exists r :: r in rels && Keyed(r) && Cell(r, EventId) == e
  {
  }

  // ---------------------------------------------------------------------------
  // Attributes of related objects

  /** The comparison a numerical filter makes in this file: "gt" is `>=` and "lt" is `<=`. */
  function InclusiveOp(op: NumericalOp): CmpOp
  {
    match op
    case GtOp => Ge
    case LtOp => Le
    case EqOp => Eq
  }

  /** The object mask of one filter on the uncoerced column, or the exception pandas
      raises: a `KeyError` for an unknown column, a `TypeError` for ordering a string
      or a timestamp against a number. */
  function ObjectMask(objects: Frame, f: Filter): (r: Result<seq<bool>>)
    ensures Name(FieldName(f)) !in objects.columns ==> r == Err(KeyError(Name(FieldName(f))))
    ensures r.Ok? ==> |r.value| == |objects.rows|
  {
    var rows := objects.rows;
    if Name(FieldName(f)) !in objects.columns then Err(KeyError(Name(FieldName(f))))
    else
      match f
      case Nominal(n) =>
        Ok(seq(|rows|, i requires 0 <= i < |rows| => IsIn(Cell(rows[i], Name(n.fieldName)), n.value)))
      case Numerical(n) =>
        var op := InclusiveOp(n.filter);
        if exists i :: 0 <= i < |rows| && CompareToNumber(Cell(rows[i], Name(n.fieldName)), op, n.value).Err? then
          Err(TypeError)
        else
          Ok(seq(|rows|, i requires 0 <= i < |rows| => CompareToNumber(Cell(rows[i], Name(n.fieldName)), op, n.value).value))
  }

  /** `objects.loc[mask, oid]`, as a set of ids. */
  function SelectedIds(objects: Frame, mask: seq<bool>): set<Value>
    requires |mask| == |objects.rows|
  {
    set i | 0 <= i < |mask| && mask[i] :: Cell(objects.rows[i], ObjectId)
  }

  /** The ids of the objects that satisfy one filter. */
  function PassingIds(objects: Frame, f: Filter): Result<set<Value>>
  {
    match ObjectMask(objects, f)
    case Err(e) => Err(e)
    case Ok(mask) => Ok(SelectedIds(objects, mask))
  }

  /** How many filters, from the first on, evaluate without an exception. */
  function OkPrefix(objects: Frame, filters: seq<Filter>): (n: nat)
    ensures n <= |filters|
    ensures forall j :: 0 <= j < n ==> PassingIds(objects, filters[j]).Ok?
    ensures n < |filters| ==> PassingIds(objects, filters[n]).Err?
    decreases |filters|
  {
    if filters == [] || PassingIds(objects, filters[0]).Err? then 0
    else
      var n := OkPrefix(objects, filters[1..]);
      assert forall j :: 0 < j <= n ==> filters[j] == filters[1..][j - 1];
      1 + n
  }

  /** The passing-object sets of the first `n` filters. */
  function Sets(objects: Frame, filters: seq<Filter>, n: nat): (s: seq<set<Value>>)
    requires n <= |filters| && forall j :: 0 <= j < n ==> PassingIds(objects, filters[j]).Ok?
    ensures |s| == n
  {
    seq(n, j requires 0 <= j < n => PassingIds(objects, filters[j]).value)
  }

  /** `frame[c] = values`: overwrites the column, or appends it as the last one. */
  function SetColumn(f: Frame, c: Label, values: seq<Value>): (r: Frame)
    requires |values| == |f.rows|
    ensures |r.rows| == |f.rows|
  {
    Frame(if c in f.columns then f.columns else f.columns + [c],
      seq(|f.rows|, i requires 0 <= i < |f.rows| => f.rows[i][c := values[i]]))
  }

  /** `relations[oid].isin(ids)` as a column of booleans. */
  function MembershipColumn(rows: seq<Row>, ids: set<Value>): (vs: seq<Value>)
    ensures |vs| == |rows|
  {
    seq(|rows|, i requires 0 <= i < |rows| => Bool(Cell(rows[i], ObjectId) in ids))
  }

  /** The relation table after the columns 0, 1, ... have been written, one per set. */
  function WriteColumns(rels: Frame, sets: seq<set<Value>>): (r: Frame)
    ensures |r.rows| == |rels.rows|
    decreases |sets|
  {
    if sets == [] then rels
    else
      var pre := WriteColumns(rels, sets[..|sets| - 1]);
      SetColumn(pre, Position(|sets| - 1), MembershipColumn(pre.rows, sets[|sets| - 1]))
  }

  /** Grouping the relations by event and asking, for each column `0 .. n-1`, whether
      any of the event's rows is true there; the events for which all are. */
  function AnyAll(rows: seq<Row>, n: nat): set<Value>
  {
    set r | r in rows && !Cell(r, EventId).Missing? && (forall j :: 0 <= j < n ==> AnyTrue(rows, Cell(r, EventId), j))
      :: Cell(r, EventId)
  }

  predicate AnyTrue(rows: seq<Row>, e: Value, j: nat)
  {
    exists r :: r in rows && Cell(r, EventId) == e && Cell(r, Position(j)) == Bool(true)
  }

  /** Some relation links event `e` to one of the objects `ids`. */
  predicate RelatedTo(rows: seq<Row>, e: Value, ids: set<Value>)
  {
    exists r :: r in rows && Cell(r, EventId) == e && Cell(r, ObjectId) in ids
  }

  /** The events that, for every filter, have at least one related object passing it. */
  function EventsPassing(rows: seq<Row>, sets: seq<set<Value>>): set<Value>
  {
    set r | r in rows && !Cell(r, EventId).Missing? && (forall j :: 0 <= j < |sets| ==> RelatedTo(rows, Cell(r, EventId), sets[j]))
      :: Cell(r, EventId)
  }

  /** Writing the membership columns changes no other cell, and column `j` holds
      whether the row's object passes filter `j`. */
  lemma {:induction false} WriteColumnsCells(rels: Frame, sets: seq<set<Value>>, k: nat)
    requires k < |rels.rows|
    ensures var row := WriteColumns(rels, sets).rows[k];
      && Cell(row, EventId) == Cell(rels.rows[k], EventId)
      && Cell(row, ObjectId) == Cell(rels.rows[k], ObjectId)
      && forall j :: 0 <= j < |sets| ==> Cell(row, Position(j)) == Bool(Cell(rels.rows[k], ObjectId) in sets[j])
    decreases |sets|
  {
    if sets != [] {
      WriteColumnsCells(rels, sets[..|sets| - 1], k);
    }
  }

  /** Column `j` is true in some row of event `e` exactly when one of its relations
      points at an object passing filter `j`. */
  lemma AnyTrueIffRelated(rels: Frame, sets: seq<set<Value>>, e: Value, j: nat)
    requires j < |sets|
    ensures AnyTrue(WriteColumns(rels, sets).rows, e, j) <==> RelatedTo(rels.rows, e, sets[j])
  {
    var written := WriteColumns(rels, sets).rows;
    if AnyTrue(written, e, j) {
      var r :| r in written && Cell(r, EventId) == e && Cell(r, Position(j)) == Bool(true);
      var k :| 0 <= k < |written| && written[k] == r;
      WriteColumnsCells(rels, sets, k);
      assert rels.rows[k] in rels.rows;
    }
    if RelatedTo(rels.rows, e, sets[j]) {
      var r :| r in rels.rows && Cell(r, EventId) == e && Cell(r, ObjectId) in sets[j];
      var k :| 0 <= k < |rels.rows| && rels.rows[k] == r;
      WriteColumnsCells(rels, sets, k);
      assert written[k] in written;
    }
  }

  /** An event of the written table passes all columns exactly when it passes all
      filters through its related objects. */
  lemma AllColumnsIffAllFilters(rels: Frame, sets: seq<set<Value>>, e: Value)
    ensures (forall j :: 0 <= j < |sets| ==> AnyTrue(WriteColumns(rels, sets).rows, e, j))
      <==> (forall j :: 0 <= j < |sets| ==> RelatedTo(rels.rows, e, sets[j]))
  {
    forall j | 0 <= j < |sets| {
      AnyTrueIffRelated(rels, sets, e, j);
    }
  }

  /** The group-any-all over the written columns is exactly "every filter is passed by
      some related object". */
  lemma AnyAllIsRelatedPassing(rels: Frame, sets: seq<set<Value>>)
    ensures AnyAll(WriteColumns(rels, sets).rows, |sets|) == EventsPassing(rels.rows, sets)
  {
    var written := WriteColumns(rels, sets).rows;
    forall e | e in AnyAll(written, |sets|) ensures e in EventsPassing(rels.rows, sets) {
      var r :| r in written && !Cell(r, EventId).Missing? && Cell(r, EventId) == e
        && forall j :: 0 <= j < |sets| ==> AnyTrue(written, e, j);
      var k :| 0 <= k < |written| && written[k] == r;
      WriteColumnsCells(rels, sets, k);
      AllColumnsIffAllFilters(rels, sets, e);
      assert rels.rows[k] in rels.rows;
    }
    forall e | e in EventsPassing(rels.rows, sets) ensures e in AnyAll(written, |sets|) {
      var r :| r in rels.rows && !Cell(r, EventId).Missing? && Cell(r, EventId) == e
        && forall j :: 0 <= j < |sets| ==> RelatedTo(rels.rows, e, sets[j]);
      var k :| 0 <= k < |rels.rows| && rels.rows[k] == r;
      WriteColumnsCells(rels, sets, k);
      AllColumnsIffAllFilters(rels, sets, e);
      assert written[k] in written;
    }
  }

  /** For each filter in turn, writes into the relation table (in place) the column
      telling which relations point at a passing object; then keeps the events for
      which every column is true in at least one of their relations. The first filter
      that raises stops the loop, leaving the columns written so far. */
  method FilterByObjectAttributesValues(ocel: Ocel, filters: seq<Filter>) returns (r: Result<set<Value>>)
    modifies ocel
    ensures ocel.events == old(ocel.events) && ocel.objects == old(ocel.objects)
    ensures ocel.objectChanges == old(ocel.objectChanges)
    ensures var n := OkPrefix(ocel.objects, filters);
      ocel.relations == WriteColumns(old(ocel.relations), Sets(ocel.objects, filters, n))
    ensures var n := OkPrefix(ocel.objects, filters);
      if n < |filters| then r == Err(PassingIds(ocel.objects, filters[n]).error)
      else r == Ok(EventsPassing(old(ocel.relations).rows, Sets(ocel.objects, filters, n)))
  {
    var objects := ocel.objects;
    ghost var rels0 := ocel.relations;
    var i := 0;
    while i < |filters|
      invariant 0 <= i <= |filters|
      invariant ocel.events == old(ocel.events) && ocel.objects == objects
      invariant ocel.objectChanges == old(ocel.objectChanges) && rels0 == old(ocel.relations)
      invariant forall j :: 0 <= j < i ==> PassingIds(objects, filters[j]).Ok?
      invariant ocel.relations == WriteColumns(rels0, Sets(objects, filters, i))
    {
      var mask := ObjectMask(objects, filters[i]);
      if mask.Err? {
        return Err(mask.error);
      }
      var ids := SelectedIds(objects, mask.value);
      ghost var s := Sets(objects, filters, i + 1);
      assert s[..i] == Sets(objects, filters, i);
      ocel.relations := SetColumn(ocel.relations, Position(i), MembershipColumn(ocel.relations.rows, ids));
      i := i + 1;
    }
    AnyAllIsRelatedPassing(rels0, Sets(objects, filters, |filters|));
    r := Ok(AnyAll(ocel.relations.rows, |filters|));
  }

  // ---------------------------------------------------------------------------
  // Attributes of the event itself

  /** One filter on an event row: a numerical filter compares the column coerced to
      numbers (a cell that does not coerce fails); a nominal one tests membership. */
  predicate EventAttributeHolds(row: Row, f: Filter)
  {
    match f
    case Numerical(n) => CoercedHolds(Cell(row, Name(n.fieldName)), InclusiveOp(n.filter), n.value)
    case Nominal(n) => IsIn(Cell(row, Name(n.fieldName)), n.value)
  }

  /** Whether a row passes every filter in `filters`. */
  predicate AllEventAttributes(row: Row, filters: seq<Filter>)
  {
    forall j :: 0 <= j < |filters| ==> EventAttributeHolds(row, filters[j])
  }

  /** Narrows the mask filter by filter; an unknown column raises `KeyError`. */
  method FilterMaskByEventAttributes(events: Frame, filters: seq<Filter>) returns (r: Result<seq<bool>>)
    ensures var n := KnownPrefix(events.columns, filters);
      n < |filters| ==> r == Err(KeyError(Name(FieldName(filters[n]))))
    ensures KnownPrefix(events.columns, filters) == |filters| ==>
      && r.Ok? && |r.value| == |events.rows|
      && forall i :: 0 <= i < |events.rows| ==> (r.value[i] <==> AllEventAttributes(events.rows[i], filters))
  {
    var rows := events.rows;
    var mask := Constant(|rows|, true);
    var i := 0;
    while i < |filters|
      invariant 0 <= i <= |filters|
      invariant forall j :: 0 <= j < i ==> Name(FieldName(filters[j])) in events.columns
      invariant |mask| == |rows|
      invariant forall k :: 0 <= k < |rows| ==> (mask[k] <==> AllEventAttributes(rows[k], filters[..i]))
    {
      var f := filters[i];
      if Name(FieldName(f)) !in events.columns {
        return Err(KeyError(Name(FieldName(f))));
      }
      mask := And(mask, seq(|rows|, k requires 0 <= k < |rows| => EventAttributeHolds(rows[k], f)));
      assert forall k :: 0 <= k < |rows| ==> (mask[k] <==> AllEventAttributes(rows[k], filters[..i]) && EventAttributeHolds(rows[k], f));
      assert filters[..i + 1] == filters[..i] + [f];
      i := i + 1;
    }
    assert filters[..i] == filters;
    return Ok(mask);
  }

  // ---------------------------------------------------------------------------
  // The whole event filter

  /** A timestamp cell compared with an instant; a missing timestamp fails. */
  predicate TimeHolds(v: Value, op: CmpOp, t: int)
  {
    v.Time? && ApplyInt(op, v.t, t)
  }

  /** Both bounds are inclusive. */
  predicate InTimeSpan(row: Row, span: Option<TimeSpan>)
  {
    span.Some? ==>
      && (span.value.start.Some? ==> TimeHolds(Cell(row, Timestamp), Ge, span.value.start.value))
      && (span.value.end.Some? ==> TimeHolds(Cell(row, Timestamp), Le, span.value.end.value))
  }

  /** The events related to an object of one of `types`. */
  function TypedEvents(rels: seq<Row>, types: seq<string>): set<Value>
  {
    set r | r in rels && IsIn(Cell(r, ObjectType), types) :: Cell(r, EventId)
  }

  /** The criteria that cannot raise: time span, activities, object types, counts. */
  predicate BasePasses(row: Row, rels: seq<Row>, filter: EventFilter)
  {
    && InTimeSpan(row, filter.timeSpan)
    && ActivityPasses(row, filter)
    && TypesPass(row, rels, filter)
    && CountsPass(row, rels, filter)
  }

  function BaseMask(events: Frame, rels: Frame, filter: EventFilter): (m: seq<bool>)
    ensures |m| == |events.rows|
  {
    seq(|events.rows|, i requires 0 <= i < |events.rows| => BasePasses(events.rows[i], rels.rows, filter))
  }

  /** The mask of a set of event ids over the event table (`events[eid].isin(ids)`). */
  function IdMask(events: Frame, ids: set<Value>): (m: seq<bool>)
    ensures |m| == |events.rows|
  {
    seq(|events.rows|, i requires 0 <= i < |events.rows| => Cell(events.rows[i], EventId) in ids)
  }

  /** The object-attribute criterion: the events passing it, or the exception. */
  function ObjectAttributeEvents(rels: Frame, objects: Frame, filters: seq<Filter>): Result<set<Value>>
  {
    var n := OkPrefix(objects, filters);
    if n < |filters| then Err(PassingIds(objects, filters[n]).error)
    else Ok(EventsPassing(rels.rows, Sets(objects, filters, n)))
  }

  /** The event-attribute criterion: the mask, or the exception. */
  function EventAttributeMask(events: Frame, filters: seq<Filter>): (r: Result<seq<bool>>)
    ensures r.Ok? ==> |r.value| == |events.rows|
  {
    var n := KnownPrefix(events.columns, filters);
    if n < |filters| then Err(KeyError(Name(FieldName(filters[n]))))
    else Ok(seq(|events.rows|, i requires 0 <= i < |events.rows| => AllEventAttributes(events.rows[i], filters)))
  }

  /** The final mask, or the exception that ends the filter. */
  function FilterMask(events: Frame, rels: Frame, objects: Frame, filter: EventFilter): (r: Result<seq<bool>>)
    ensures r.Ok? ==> |r.value| == |events.rows|
  {
    var m1 := BaseMask(events, rels, filter);
    var oav := filter.objectAttributesValues;
    var ea := filter.eventAttributes;
    if Truthy(oav) && ObjectAttributeEvents(rels, objects, oav.value).Err? then
      Err(ObjectAttributeEvents(rels, objects, oav.value).error)
    else
      var m2 := if Truthy(oav) then And(m1, IdMask(events, ObjectAttributeEvents(rels, objects, oav.value).value)) else m1;
      if Truthy(ea) && EventAttributeMask(events, ea.value).Err? then Err(EventAttributeMask(events, ea.value).error)
      else Ok(if Truthy(ea) then And(m2, EventAttributeMask(events, ea.value).value) else m2)
  }

  /** The filtered event table, or the exception that ends the filter. */
  function EventFilterResult(events: Frame, rels: Frame, objects: Frame, filter: EventFilter): (r: Result<Frame>)
    ensures r.Ok? ==> r.value.columns == events.columns && |r.value.rows| <= |events.rows|
  {
    match FilterMask(events, rels, objects, filter)
    case Err(e) => Err(e)
    case Ok(mask) => Ok(Frame(events.columns, Select(events.rows, mask)))
  }

  /** Whether an event row passes the activity criterion. */
  predicate ActivityPasses(row: Row, filter: EventFilter)
  {
    filter.activityNames.Some? ==> IsIn(Cell(row, Activity), filter.activityNames.value)
  }

  /** Whether an event row passes the object-type criterion. */
  predicate TypesPass(row: Row, rels: seq<Row>, filter: EventFilter)
  {
    Truthy(filter.objectTypes) ==> Cell(row, EventId) in TypedEvents(rels, filter.objectTypes.value)
  }

  /** Whether an event row passes the object-count criterion. */
  predicate CountsPass(row: Row, rels: seq<Row>, filter: EventFilter)
  {
    Truthy(filter.objectCounts) ==> Cell(row, EventId) in CountMatching(rels, filter.objectCounts.value)
  }

  /** Lines 98-103: the time bounds. */
  method NarrowByTime(rows: seq<Row>, span: Option<TimeSpan>, mask: seq<bool>) returns (m: seq<bool>)
    requires |mask| == |rows|
    ensures |m| == |rows| && forall i :: 0 <= i < |rows| ==> (m[i] <==> mask[i] && InTimeSpan(rows[i], span))
  {
    m := mask;
    if span.Some? {
      if span.value.start.Some? {
        var start := span.value.start.value;
        m := And(m, seq(|rows|, i requires 0 <= i < |rows| => TimeHolds(Cell(rows[i], Timestamp), Ge, start)));
      }
      if span.value.end.Some? {
        var end := span.value.end.value;
        m := And(m, seq(|rows|, i requires 0 <= i < |rows| => TimeHolds(Cell(rows[i], Timestamp), Le, end)));
      }
    }
  }

  /** Lines 105-106: the activity names. */
  method NarrowByActivity(rows: seq<Row>, filter: EventFilter, mask: seq<bool>) returns (m: seq<bool>)
    requires |mask| == |rows|
    ensures |m| == |rows| && forall i :: 0 <= i < |rows| ==> (m[i] <==> mask[i] && ActivityPasses(rows[i], filter))
  {
    m := mask;
    if filter.activityNames.Some? {
      var names := filter.activityNames.value;
      m := And(m, seq(|rows|, i requires 0 <= i < |rows| => IsIn(Cell(rows[i], Activity), names)));
    }
  }

  /** Lines 108-112: the related object types. */
  method NarrowByTypes(events: Frame, rels: seq<Row>, filter: EventFilter, mask: seq<bool>) returns (m: seq<bool>)
    requires |mask| == |events.rows|
    ensures |m| == |events.rows|
    ensures forall i :: 0 <= i < |events.rows| ==> (m[i] <==> mask[i] && TypesPass(events.rows[i], rels, filter))
  {
    m := mask;
    if Truthy(filter.objectTypes) {
      var relevant := TypedEvents(rels, filter.objectTypes.value);
      m := And(m, IdMask(events, relevant));
    }
  }

  /** Lines 114-116: the counts of related objects. */
  method NarrowByCounts(events: Frame, rels: seq<Row>, filter: EventFilter, mask: seq<bool>) returns (m: seq<bool>)
    requires |mask| == |events.rows|
    ensures |m| == |events.rows|
    ensures forall i :: 0 <= i < |events.rows| ==> (m[i] <==> mask[i] && CountsPass(events.rows[i], rels, filter))
  {
    m := mask;
    if Truthy(filter.objectCounts) {
      var matching := FilterByObjectCount(rels, filter.objectCounts.value);
      m := And(m, IdMask(events, matching));
    }
  }

  /** The criteria that cannot raise, one `mask &=` after the other. */
  method BaseFilterMask(events: Frame, relations: Frame, filter: EventFilter) returns (mask: seq<bool>)
    ensures mask == BaseMask(events, relations, filter)
  {
    var rows := events.rows;
    mask := Constant(|rows|, true);
    mask := NarrowByTime(rows, filter.timeSpan, mask);
    mask := NarrowByActivity(rows, filter, mask);
    mask := NarrowByTypes(events, relations.rows, filter, mask);
    mask := NarrowByCounts(events, relations.rows, filter, mask);
    assert forall i :: 0 <= i < |rows| ==> (mask[i] <==> BasePasses(rows[i], relations.rows, filter));
  }

  /** `events[mask]` after narrowing the mask criterion by criterion. */
  method ApplyEventFilter(ocel: Ocel, filter: EventFilter) returns (r: Result<Frame>)
    modifies ocel
    ensures r == EventFilterResult(old(ocel.events), old(ocel.relations), old(ocel.objects), filter)
    ensures ocel.events == old(ocel.events) && ocel.objects == old(ocel.objects)
    ensures ocel.objectChanges == old(ocel.objectChanges)
    ensures Truthy(filter.objectAttributesValues) ==>
      var fs := filter.objectAttributesValues.value;
      ocel.relations == WriteColumns(old(ocel.relations), Sets(ocel.objects, fs, OkPrefix(ocel.objects, fs)))
    ensures !Truthy(filter.objectAttributesValues) ==> ocel.relations == old(ocel.relations)
  {
    var events := ocel.events;
    var relations := ocel.relations;
    var mask := BaseFilterMask(events, relations, filter);
    if Truthy(filter.objectAttributesValues) {
      var matching := FilterByObjectAttributesValues(ocel, filter.objectAttributesValues.value);
      if matching.Err? {
        return Err(matching.error);
      }
      mask := And(mask, IdMask(events, matching.value));
    }
    if Truthy(filter.eventAttributes) {
      var eventMask := FilterMaskByEventAttributes(events, filter.eventAttributes.value);
      if eventMask.Err? {
        return Err(eventMask.error);
      }
      assert eventMask.value == EventAttributeMask(events, filter.eventAttributes.value).value;
      mask := And(mask, eventMask.value);
    }
    return Ok(Frame(events.columns, Select(events.rows, mask)));
  }

  // ---------------------------------------------------------------------------
  // Properties of the event filter

  /** Whether an event row passes every active criterion. */
  predicate Passes(row: Row, rels: Frame, objects: Frame, filter: EventFilter)
    requires Truthy(filter.objectAttributesValues) ==>
      ObjectAttributeEvents(rels, objects, filter.objectAttributesValues.value).Ok?
  {
    && BasePasses(row, rels.rows, filter)
    && (Truthy(filter.objectAttributesValues) ==>
          Cell(row, EventId) in ObjectAttributeEvents(rels, objects, filter.objectAttributesValues.value).value)
    && (Truthy(filter.eventAttributes) ==> AllEventAttributes(row, filter.eventAttributes.value))
  }

  /** The filter fails exactly when an active attribute criterion raises; otherwise
      an event is kept exactly when it passes every active criterion. */
  lemma FilterMaskPointwise(events: Frame, rels: Frame, objects: Frame, filter: EventFilter)
    ensures var oav, ea := filter.objectAttributesValues, filter.eventAttributes;
      FilterMask(events, rels, objects, filter).Err? <==>
        (Truthy(oav) && ObjectAttributeEvents(rels, objects, oav.value).Err?) ||
        (Truthy(ea) && KnownPrefix(events.columns, ea.value) < |ea.value|)
    ensures FilterMask(events, rels, objects, filter).Ok? ==>
      forall i :: 0 <= i < |events.rows| ==>
        (FilterMask(events, rels, objects, filter).value[i] <==> Passes(events.rows[i], rels, objects, filter))
  {
  }

  /** The result keeps the columns and is an order-preserving selection of the events
      holding exactly the rows that pass every active criterion. */
  lemma EventFilterSelects(events: Frame, rels: Frame, objects: Frame, filter: EventFilter)
    requires EventFilterResult(events, rels, objects, filter).Ok?
    ensures var out := EventFilterResult(events, rels, objects, filter).value;
      && out.columns == events.columns
      && IsSubsequence(out.rows, events.rows)
    ensures Truthy(filter.objectAttributesValues) ==>
      ObjectAttributeEvents(rels, objects, filter.objectAttributesValues.value).Ok?
    ensures forall x :: x in EventFilterResult(events, rels, objects, filter).value.rows <==>
      exists i :: 0 <= i < |events.rows| && events.rows[i] == x && Passes(x, rels, objects, filter)
  {
    var mask := FilterMask(events, rels, objects, filter).value;
    FilterMaskPointwise(events, rels, objects, filter);
    SelectIsSubsequence(events.rows, mask);
    forall x ensures x in Select(events.rows, mask) <==>
      exists i :: 0 <= i < |events.rows| && events.rows[i] == x && Passes(x, rels, objects, filter)
    {
      SelectMembers(events.rows, mask, x);
    }
  }

  /** A filter with no criteria returns the event table as it is. */
  lemma NoCriteriaKeepsAll(events: Frame, rels: Frame, objects: Frame)
    ensures EventFilterResult(events, rels, objects, EventFilter(None, None, None, None, None, None)) == Ok(events)
  {
    var filter := EventFilter(None, None, None, None, None, None);
    var mask := FilterMask(events, rels, objects, filter).value;
    assert forall i :: 0 <= i < |mask| ==> mask[i];
    SelectAll(events.rows, mask);
  }

  /** An empty list of activity names keeps no event. */
  lemma EmptyActivitiesKeepNothing(events: Frame, rels: Frame, objects: Frame, filter: EventFilter)
    requires filter.activityNames == Some([])
    requires EventFilterResult(events, rels, objects, filter).Ok?
    ensures EventFilterResult(events, rels, objects, filter).value.rows == []
  {
    var mask := FilterMask(events, rels, objects, filter).value;
    FilterMaskPointwise(events, rels, objects, filter);
    SelectNone(events.rows, mask);
  }

  /** An empty list of object types restricts nothing: it acts as no list at all. */
  lemma EmptyTypesRestrictNothing(events: Frame, rels: Frame, objects: Frame, filter: EventFilter)
    ensures EventFilterResult(events, rels, objects, filter.(objectTypes := Some([])))
      == EventFilterResult(events, rels, objects, filter.(objectTypes := None))
  {
    var f1, f2 := filter.(objectTypes := Some([])), filter.(objectTypes := None);
    assert BaseMask(events, rels, f1) == BaseMask(events, rels, f2);
  }

  /** Both time bounds are inclusive: an event exactly at the start or the end is kept
      by the time criterion, and an event without a timestamp is not. */
  lemma TimeBoundsInclusive(row: Row, start: int, end: int)
    ensures InTimeSpan(row, Some(TimeSpan(Some(start), Some(end)))) <==>
      Cell(row, Timestamp).Time? && start <= Cell(row, Timestamp).t <= end
  {
  }

  /** `g` drops some of `f`'s criteria and keeps the others as they are. */
  predicate Relaxes(g: EventFilter, f: EventFilter)
  {
    && (g.timeSpan == f.timeSpan || g.timeSpan.None?)
    && (g.activityNames == f.activityNames || g.activityNames.None?)
    && (g.objectTypes == f.objectTypes || g.objectTypes.None?)
    && (g.objectCounts == f.objectCounts || g.objectCounts.None?)
    && (g.objectAttributesValues == f.objectAttributesValues || g.objectAttributesValues.None?)
    && (g.eventAttributes == f.eventAttributes || g.eventAttributes.None?)
  }

  /** Each criterion can only remove events: adding criteria to a filter selects an
      order-preserving subsequence of what it selected before. */
  lemma CriteriaOnlyRemove(events: Frame, rels: Frame, objects: Frame, f: EventFilter, g: EventFilter)
    requires Relaxes(g, f)
    requires EventFilterResult(events, rels, objects, f).Ok?
    ensures EventFilterResult(events, rels, objects, g).Ok?
    ensures IsSubsequence(EventFilterResult(events, rels, objects, f).value.rows,
                          EventFilterResult(events, rels, objects, g).value.rows)
  {
    FilterMaskPointwise(events, rels, objects, f);
    FilterMaskPointwise(events, rels, objects, g);
    var mf := FilterMask(events, rels, objects, f).value;
    var mg := FilterMask(events, rels, objects, g).value;
    forall i | 0 <= i < |events.rows| && mf[i] ensures mg[i] {
      assert Passes(events.rows[i], rels, objects, f);
    }
    SelectNarrower(events.rows, mg, mf);
  }
}
