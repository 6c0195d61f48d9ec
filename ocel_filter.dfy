/** The simpler event filter of the OCEL service: a time span and activity names. */
module OcelFilter {
  import opened Tables

  /** The request of this service: the time span is always given, each bound optional;
      the object types it carries are not used by this filter. */
  datatype TimeSpan = TimeSpan(start: Option<int>, end: Option<int>)
  datatype EventFilter = EventFilter(timeSpan: TimeSpan, activityNames: Option<seq<string>>,
                                     objectTypes: Option<seq<string>>)

  /** A timestamp cell compared with an instant; a missing timestamp fails. */
  predicate AtOrAfter(v: Value, t: int)
  {
    v.Time? && v.t >= t
  }

  predicate AtOrBefore(v: Value, t: int)
  {
    v.Time? && v.t <= t
  }

  /** Whether an event row passes the filter: inclusive bounds, listed activity. */
  predicate Keeps(row: Row, filter: EventFilter)
  {
    && (filter.timeSpan.start.Some? ==> AtOrAfter(Cell(row, Timestamp), filter.timeSpan.start.value))
    && (filter.timeSpan.end.Some? ==> AtOrBefore(Cell(row, Timestamp), filter.timeSpan.end.value))
    && (filter.activityNames.Some? ==> IsIn(Cell(row, Activity), filter.activityNames.value))
  }

  /** The mask of the filter over the event rows. */
  function KeepMask(events: Frame, filter: EventFilter): (m: seq<bool>)
    ensures |m| == |events.rows|
  {
    seq(|events.rows|, i requires 0 <= i < |events.rows| => Keeps(events.rows[i], filter))
  }

  /** `events[mask]` after narrowing the mask bound by bound, then by activity. */
  method ApplyEventFilter(events: Frame, filter: EventFilter) returns (out: Frame)
    ensures out == Frame(events.columns, Select(events.rows, KeepMask(events, filter)))
  {
    var rows := events.rows;
    var mask := Constant(|rows|, true);
    if filter.timeSpan.start.Some? {
      var start := filter.timeSpan.start.value;
      mask := And(mask, seq(|rows|, i requires 0 <= i < |rows| => AtOrAfter(Cell(rows[i], Timestamp), start)));
    }
    if filter.timeSpan.end.Some? {
      var end := filter.timeSpan.end.value;
      mask := And(mask, seq(|rows|, i requires 0 <= i < |rows| => AtOrBefore(Cell(rows[i], Timestamp), end)));
    }
    if filter.activityNames.Some? {
      var names := filter.activityNames.value;
      mask := And(mask, seq(|rows|, i requires 0 <= i < |rows| => IsIn(Cell(rows[i], Activity), names)));
    }
    assert mask == KeepMask(events, filter);
    out := Frame(events.columns, Select(rows, mask));
  }

  /** The result is an order-preserving subsequence of the events holding exactly the
      rows that pass. */
  lemma KeptRows(events: Frame, filter: EventFilter)
    ensures IsSubsequence(Select(events.rows, KeepMask(events, filter)), events.rows)
    ensures forall x :: x in Select(events.rows, KeepMask(events, filter)) <==> x in events.rows && Keeps(x, filter)
  {
    var mask := KeepMask(events, filter);
    SelectIsSubsequence(events.rows, mask);
    forall x ensures x in Select(events.rows, mask) <==> x in events.rows && Keeps(x, filter) {
      SelectMembers(events.rows, mask, x);
    }
  }

  /** With no bounds and no activity list, every event is kept. */
  lemma NoCriteriaKeepsAll(events: Frame, types: Option<seq<string>>)
    ensures Select(events.rows, KeepMask(events, EventFilter(TimeSpan(None, None), None, types))) == events.rows
  {
    SelectAll(events.rows, KeepMask(events, EventFilter(TimeSpan(None, None), None, types)));
  }

  /** An empty activity list keeps nothing. */
  lemma EmptyActivitiesKeepNothing(events: Frame, span: TimeSpan, types: Option<seq<string>>)
    ensures Select(events.rows, KeepMask(events, EventFilter(span, Some([]), types))) == []
  {
    SelectNone(events.rows, KeepMask(events, EventFilter(span, Some([]), types)));
  }

  /** Adding a criterion can only remove events. */
  lemma ActivitiesOnlyRemove(events: Frame, span: TimeSpan, names: seq<string>, types: Option<seq<string>>)
    ensures IsSubsequence(Select(events.rows, KeepMask(events, EventFilter(span, Some(names), types))),
                          Select(events.rows, KeepMask(events, EventFilter(span, None, types))))
  {
    SelectNarrower(events.rows, KeepMask(events, EventFilter(span, None, types)),
      KeepMask(events, EventFilter(span, Some(names), types)));
  }

  /** Both bounds are inclusive. */
  lemma BoundsInclusive(row: Row, t: int, names: Option<seq<string>>)
    requires Cell(row, Timestamp) == Time(t)
    ensures Keeps(row, EventFilter(TimeSpan(Some(t), Some(t)), None, names))
  {
  }
}
