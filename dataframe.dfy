/** Paging a frame for the editor's tables, and splitting each record into the
    explicitly requested fields plus a `metadata` dictionary of the rest. */
module Dataframe {
  import opened Tables

  /** The requested order of the rows: a column name and a direction. */
  datatype SortObject = SortObject(column: Option<string>, ascending: Option<bool>)

  /** One page of a table: the transformed rows, the page number and the page count. */
  datatype PaginatedResponse<T> = PaginatedResponse(data: seq<T>, page: int, totalPages: int)

  /** pandas' `sort_values`, which is not part of this model. */
  type Sorter = (Frame, Label, Option<bool>) -> Frame

  // ---------------------------------------------------------------------------
  // Paging

  /** Whether the rows get sorted: a sort object whose column name is set (a
      non-empty string) and names a column of the frame. */
  predicate SortApplies(df: Frame, sort: Option<SortObject>)
  {
    sort.Some? && sort.value.column.Some? && sort.value.column.value != [] && Name(sort.value.column.value) in df.columns
  }

  function Sorted(df: Frame, sort: Option<SortObject>, sortValues: Sorter): (r: Frame)
    ensures !SortApplies(df, sort) ==> r == df
  {
    if SortApplies(df, sort) then sortValues(df, Name(sort.value.column.value), sort.value.ascending) else df
  }

  /** `(len + page_size - 1) // page_size`. */
  function TotalPages(n: nat, pageSize: int): int
    requires pageSize != 0
  {
    FloorDiv(n + pageSize - 1, pageSize)
  }

  /** `max(1, current_page)`. */
  function PageNumber(currentPage: int): (p: int)
    ensures p >= 1 && p >= currentPage
    ensures currentPage >= 1 ==> p == currentPage
  {
    if currentPage > 1 then currentPage else 1
  }

  /** `df.iloc[(page - 1) * page_size : (page - 1) * page_size + page_size]`. */
  function PageRows<T>(rows: seq<T>, currentPage: int, pageSize: int): seq<T>
  {
    var start := (PageNumber(currentPage) - 1) * pageSize;
    PySlice(rows, start, start + pageSize)
  }

  /** The whole response. A page size of 0 makes the page count divide by zero. */
  function PaginatedDataframe<T>(df: Frame, currentPage: int, pageSize: int, sort: Option<SortObject>,
                                 sortValues: Sorter, transformer: Frame -> seq<T>): (r: Result<PaginatedResponse<T>>)
    ensures pageSize == 0 <==> r == Err(ZeroDivisionError)
    ensures r.Ok? ==> r.value.page == PageNumber(currentPage)
    ensures r.Ok? ==> var sorted := Sorted(df, sort, sortValues);
      r.value.data == transformer(Frame(sorted.columns, PageRows(sorted.rows, currentPage, pageSize)))
    ensures r.Ok? ==> r.value.totalPages == TotalPages(|Sorted(df, sort, sortValues).rows|, pageSize)
    ensures r.Ok? && pageSize > 0 ==> var n := |Sorted(df, sort, sortValues).rows|;
      r.value.totalPages >= 0 && n <= r.value.totalPages * pageSize < n + pageSize
  {
    if pageSize == 0 then Err(ZeroDivisionError)
    else
      var sorted := Sorted(df, sort, sortValues);
      var page := PageNumber(currentPage);
      var response := PaginatedResponse(transformer(Frame(sorted.columns, PageRows(sorted.rows, currentPage, pageSize))),
        page, TotalPages(|sorted.rows|, pageSize));
      if pageSize > 0 then TotalPagesIsCeiling(|sorted.rows|, pageSize); Ok(response) else Ok(response)
  }

  /** For a positive page size the page count is the ceiling of `n / pageSize`:
      the smallest count of pages that holds `n` rows. */
  lemma TotalPagesIsCeiling(n: nat, pageSize: int)
    requires pageSize > 0
    ensures var t := TotalPages(n, pageSize);
      t >= 0 && n <= t * pageSize < n + pageSize
    ensures n == 0 ==> TotalPages(n, pageSize) == 0
  {
  }

  /** A page holds the rows from `(page - 1) * pageSize` up to `page * pageSize`,
      cut off at the end of the table: never more than `pageSize`, and none past the
      last page. */
  lemma PageContents<T>(rows: seq<T>, currentPage: int, pageSize: int)
    requires pageSize > 0
    ensures var p := PageNumber(currentPage);
      var start := (p - 1) * pageSize;
      var data := PageRows(rows, currentPage, pageSize);
      && |data| <= pageSize
      && (start < |rows| ==> data == rows[start..Min(start + pageSize, |rows|)])
      && (p > TotalPages(|rows|, pageSize) ==> data == [])
  {
    var p := PageNumber(currentPage);
    var start := (p - 1) * pageSize;
    var t := TotalPages(|rows|, pageSize);
    MulMonotone(p - 1, 0, pageSize);
    TotalPagesIsCeiling(|rows|, pageSize);
    if p > t {
      MulMonotone(p - 1, t, pageSize);
    }
  }

  lemma MulMonotone(a: int, b: int, c: nat)
    requires a >= b
    ensures a * c >= b * c
  {
  }

  function Min(a: int, b: int): int
  {
    if a <= b then a else b
  }

  /** Pages 1 to `k`, one after the other. */
  function FirstPages<T>(rows: seq<T>, pageSize: int, k: nat): seq<T>
  {
    if k == 0 then [] else FirstPages(rows, pageSize, k - 1) + PageRows(rows, k, pageSize)
  }

  lemma {:induction false} FirstPagesPrefix<T>(rows: seq<T>, pageSize: int, k: nat)
    requires pageSize > 0
    ensures FirstPages(rows, pageSize, k) == rows[..Min(k * pageSize, |rows|)]
  {
    if k > 0 {
      FirstPagesPrefix(rows, pageSize, k - 1);
      assert (k - 1) * pageSize + pageSize == k * pageSize;
    }
  }

  /** Reading pages 1 to `totalPages` in order gives every row exactly once, in order. */
  lemma PagesCoverRows<T>(rows: seq<T>, pageSize: int)
    requires pageSize > 0
    ensures FirstPages(rows, pageSize, TotalPages(|rows|, pageSize)) == rows
  {
    TotalPagesIsCeiling(|rows|, pageSize);
    FirstPagesPrefix(rows, pageSize, TotalPages(|rows|, pageSize));
  }

  // ---------------------------------------------------------------------------
  // Records to models

  /** A record with its explicit fields at the top level and the rest under
      `metadata`. */
  datatype GeneralModel = GeneralModel(fields: map<string, Value>, metadata: map<Label, Value>)

  /** The first explicit field the record lacks, if any. */
  function FirstMissing(rec: Row, explicitFields: seq<string>): (r: Option<string>)
    ensures r.None? <==> forall k :: k in explicitFields ==> Name(k) in rec
    ensures r.Some? ==> r.value in explicitFields && Name(r.value) !in rec
  {
    if explicitFields == [] then None
    else if Name(explicitFields[0]) !in rec then Some(explicitFields[0])
    else FirstMissing(rec, explicitFields[1..])
  }

  /** One record: a `KeyError` for the first missing explicit field; otherwise the
      explicit fields (an explicit field named "metadata" is replaced by the metadata
      dictionary) and the metadata of every other column. */
  function RecordToModel(rec: Row, explicitFields: seq<string>): (r: Result<GeneralModel>)
    ensures r.Err? <==> exists k :: k in explicitFields && Name(k) !in rec
    ensures r.Err? ==> exists k :: k in explicitFields && Name(k) !in rec && r.error == KeyError(Name(k))
  {
    match FirstMissing(rec, explicitFields)
    case Some(k) => Err(KeyError(Name(k)))
    case None =>
      Ok(GeneralModel(
        map k | k in explicitFields && k != "metadata" :: rec[Name(k)],
        map c | c in rec && !(c.Name? && c.name in explicitFields) :: rec[c]))
  }

  /** A model's two halves split the record: each column is either an explicit field,
      with its value, or a metadata entry, with its value, never both. */
  lemma RecordSplit(rec: Row, explicitFields: seq<string>)
    requires forall k :: k in explicitFields ==> Name(k) in rec
    ensures RecordToModel(rec, explicitFields).Ok?
    ensures var m := RecordToModel(rec, explicitFields).value;
      && (forall k :: k in m.fields <==> k in explicitFields && k != "metadata")
      && (forall k :: k in m.fields ==> m.fields[k] == rec[Name(k)])
      && (forall c :: c in m.metadata ==> c in rec && m.metadata[c] == rec[c])
      && (forall c :: c in rec ==> (c in m.metadata <==> !(c.Name? && c.name in explicitFields)))
      && (forall k :: k in m.fields ==> Name(k) !in m.metadata)
  {
  }

  /** The models of all records in record order, or the first record's error. */
  function ToModels(recs: seq<Row>, explicitFields: seq<string>): (r: Result<seq<GeneralModel>>)
    ensures r.Ok? ==> |r.value| == |recs|
    ensures r.Err? ==> r.error.KeyError?
  {
    if recs == [] then Ok([])
    else
      match ToModels(recs[..|recs| - 1], explicitFields)
      case Err(e) => Err(e)
      case Ok(ms) =>
        match RecordToModel(recs[|recs| - 1], explicitFields)
        case Err(e) => Err(e)
        case Ok(m) => Ok(ms + [m])
  }

  predicate FailsWith(rec: Row, explicitFields: seq<string>, e: Error)
  {
    RecordToModel(rec, explicitFields) == Err(e)
  }

  /** One model per record, in record order; otherwise the error of the first record
      that lacks a field. */
  lemma {:induction false} ToModelsPerRecord(recs: seq<Row>, explicitFields: seq<string>)
    ensures var r := ToModels(recs, explicitFields);
      r.Ok? <==> forall i :: 0 <= i < |recs| ==> RecordToModel(recs[i], explicitFields).Ok?
    ensures var r := ToModels(recs, explicitFields);
      r.Ok? ==> (|r.value| == |recs| &&
        forall i :: 0 <= i < |recs| ==> r.value[i] == RecordToModel(recs[i], explicitFields).value)
    ensures var r := ToModels(recs, explicitFields);
      r.Err? ==> exists i :: (0 <= i < |recs| && FailsWith(recs[i], explicitFields, r.error)
        && forall j :: 0 <= j < i ==> RecordToModel(recs[j], explicitFields).Ok?)
  {
    if recs != [] {
      var pre := recs[..|recs| - 1];
      ToModelsPerRecord(pre, explicitFields);
      ToModelsOkStep(recs, explicitFields);
      ToModelsValuesStep(recs, explicitFields);
      ToModelsErrStep(recs, explicitFields);
    }
  }

  lemma ToModelsOkStep(recs: seq<Row>, explicitFields: seq<string>)
    requires recs != []
    requires var pre := recs[..|recs| - 1];
      ToModels(pre, explicitFields).Ok? <==> forall i :: 0 <= i < |pre| ==> RecordToModel(pre[i], explicitFields).Ok?
    ensures ToModels(recs, explicitFields).Ok? <==> forall i :: 0 <= i < |recs| ==> RecordToModel(recs[i], explicitFields).Ok?
  {
    var pre := recs[..|recs| - 1];
    assert forall j :: 0 <= j < |pre| ==> recs[j] == pre[j];
  }

  lemma ToModelsValuesStep(recs: seq<Row>, explicitFields: seq<string>)
    requires recs != []
    requires var pre := recs[..|recs| - 1];
      ToModels(pre, explicitFields).Ok? ==> forall i :: 0 <= i < |pre| ==> RecordToModel(pre[i], explicitFields).Ok?
    requires ToModels(recs, explicitFields).Ok? ==> forall i :: 0 <= i < |recs| ==> RecordToModel(recs[i], explicitFields).Ok?
    requires var pre := recs[..|recs| - 1]; var r := ToModels(pre, explicitFields);
      r.Ok? ==> (|r.value| == |pre| &&
        forall i :: 0 <= i < |pre| ==> r.value[i] == RecordToModel(pre[i], explicitFields).value)
    ensures var r := ToModels(recs, explicitFields);
      r.Ok? ==> (|r.value| == |recs| &&
        forall i :: 0 <= i < |recs| ==> r.value[i] == RecordToModel(recs[i], explicitFields).value)
  {
    var pre := recs[..|recs| - 1];
    assert forall j :: 0 <= j < |pre| ==> recs[j] == pre[j];
  }

  lemma ToModelsErrStep(recs: seq<Row>, explicitFields: seq<string>)
    requires recs != []
    requires var pre := recs[..|recs| - 1]; var r := ToModels(pre, explicitFields);
      r.Err? ==> exists i :: (0 <= i < |pre| && FailsWith(pre[i], explicitFields, r.error)
        && forall j :: 0 <= j < i ==> RecordToModel(pre[j], explicitFields).Ok?)
    requires var pre := recs[..|recs| - 1];
      ToModels(pre, explicitFields).Ok? ==> forall i :: 0 <= i < |pre| ==> RecordToModel(pre[i], explicitFields).Ok?
    ensures var r := ToModels(recs, explicitFields);
      r.Err? ==> exists i :: (0 <= i < |recs| && FailsWith(recs[i], explicitFields, r.error)
        && forall j :: 0 <= j < i ==> RecordToModel(recs[j], explicitFields).Ok?)
  {
    var pre := recs[..|recs| - 1];
    var last := RecordToModel(recs[|recs| - 1], explicitFields);
    if ToModels(pre, explicitFields).Err? {
      var i :| 0 <= i < |pre| && FailsWith(pre[i], explicitFields, ToModels(pre, explicitFields).error)
        && forall j :: 0 <= j < i ==> RecordToModel(pre[j], explicitFields).Ok?;
      assert recs[i] == pre[i];
      assert forall j :: 0 <= j < i ==> recs[j] == pre[j];
    } else if last.Err? {
      assert FailsWith(recs[|recs| - 1], explicitFields, ToModels(recs, explicitFields).error);
      assert forall j :: 0 <= j < |pre| ==> recs[j] == pre[j];
    }
  }

  /** Builds the models by appending one per record. */
  method DataframeToModel(df: Frame, explicitFields: seq<string>) returns (r: Result<seq<GeneralModel>>)
    ensures r == ToModels(df.rows, explicitFields)
  {
    var models: seq<GeneralModel> := [];
    var i := 0;
    while i < |df.rows|
      invariant 0 <= i <= |df.rows|
      invariant ToModels(df.rows[..i], explicitFields) == Ok(models)
    {
      var rec := df.rows[i];
      assert df.rows[..i + 1][..i] == df.rows[..i];
      var m := RecordToModel(rec, explicitFields);
      if m.Err? {
        assert ToModels(df.rows[..i + 1], explicitFields) == Err(m.error);
        ToModelsStopsAtError(df.rows, explicitFields, i + 1);
        return Err(m.error);
      }
      models := models + [m.value];
      i := i + 1;
    }
    assert df.rows[..|df.rows|] == df.rows;
    return Ok(models);
  }

  /** Once a prefix fails, the whole list fails with the same error. */
  lemma {:induction false} ToModelsStopsAtError(recs: seq<Row>, explicitFields: seq<string>, n: nat)
    requires n <= |recs|
    requires ToModels(recs[..n], explicitFields).Err?
    ensures ToModels(recs, explicitFields) == ToModels(recs[..n], explicitFields)
    decreases |recs| - n
  {
    if n < |recs| {
      assert recs[..n + 1][..n] == recs[..n];
      ToModelsStopsAtError(recs, explicitFields, n + 1);
    } else {
      assert recs[..n] == recs;
    }
  }

  /** A frame whose columns include every explicit field never fails, and a frame
      without rows never fails either, whatever the fields. */
  lemma ToModelsFails(df: Frame, explicitFields: seq<string>)
    requires WellFormed(df)
    ensures ToModels(df.rows, explicitFields).Err? <==>
      |df.rows| > 0 && exists k :: k in explicitFields && Name(k) !in df.columns
  {
    ToModelsPerRecord(df.rows, explicitFields);
    if |df.rows| > 0 && exists k :: k in explicitFields && Name(k) !in df.columns {
      var k :| k in explicitFields && Name(k) !in df.columns;
      assert df.rows[0] in df.rows;
      assert Name(k) !in df.rows[0];
    }
    if ToModels(df.rows, explicitFields).Err? {
      var i :| 0 <= i < |df.rows| && RecordToModel(df.rows[i], explicitFields).Err?;
      assert df.rows[i] in df.rows;
      var k :| k in explicitFields && Name(k) !in df.rows[i];
    }
  }
}
