/** Upserting objects: incoming rows are matched with the object table on
    (object id, object type) by an outer merge; added attributes take the incoming or
    the existing value according to the replace policy. */
module UpsertObjects {
  import opened Tables
  import opened Merge

  /** A table the caller owns and the upsert may change in place. */
  class Table {
    var frame: Frame

    constructor (frame: Frame)
      ensures this.frame == frame
    {
      this.frame := frame;
    }
  }

  /** The incoming table with its type column: when the type field is not a column,
      every row gets the field's own name as its type. */
  function WithTypeColumn(f: Frame, typeField: string): (r: Frame)
    ensures Name(typeField) in f.columns ==> r == f
    ensures Name(typeField) !in f.columns ==>
      && r.columns == f.columns + [Name(typeField)]
      && |r.rows| == |f.rows|
      && forall i :: 0 <= i < |f.rows| ==> Cell(r.rows[i], Name(typeField)) == Str(typeField)
    ensures forall i, c :: 0 <= i < |f.rows| && c != Name(typeField) ==> Cell(r.rows[i], c) == Cell(f.rows[i], c)
  {
    if Name(typeField) in f.columns then f
    else Frame(f.columns + [Name(typeField)],
               seq(|f.rows|, i requires 0 <= i < |f.rows| => f.rows[i][Name(typeField) := Str(typeField)]))
  }

  /** The incoming columns kept: the source of every added attribute, then id and type. */
  function IncomingColumns(idField: string, typeField: string, added: seq<(string, string)>): (cols: seq<Label>)
    ensures |cols| == |added| + 2
    ensures forall k :: 0 <= k < |added| ==> cols[k] == Name(added[k].0)
    ensures cols[|added|] == Name(idField) && cols[|added| + 1] == Name(typeField)
  {
    seq(|added|, k requires 0 <= k < |added| => Name(added[k].0)) + [Name(idField), Name(typeField)]
  }

  /** The renaming: each added attribute to its new name, id and type to the OCEL names. */
  function RenamePairs(idField: string, typeField: string, added: seq<(string, string)>): seq<(string, string)>
  {
    added + [(idField, "ocel:oid"), (typeField, "ocel:type")]
  }

  const ObjectKeys: Keys := Keys([ObjectId, ObjectType], [ObjectId, ObjectType])

  /** The new names of the added attributes, in order. */
  function Targets(added: seq<(string, string)>): (t: seq<string>)
    ensures |t| == |added| && forall k :: 0 <= k < |added| ==> t[k] == added[k].1
  {
    seq(|added|, k requires 0 <= k < |added| => added[k].1)
  }

  /** The elements in order of first occurrence, each once. */
  function Dedup(s: seq<string>): (d: seq<string>)
    ensures forall x :: x in d <==> x in s
    ensures forall i, j :: 0 <= i < j < |d| ==> d[i] != d[j]
  {
    if s == [] then []
    else
      var init := Dedup(s[..|s| - 1]);
      assert forall x :: x in s <==> x in s[..|s| - 1] || x == s[|s| - 1] by {
        assert s == s[..|s| - 1] + [s[|s| - 1]];
      }
      init + (if s[|s| - 1] in s[..|s| - 1] then [] else [s[|s| - 1]])
  }

  /** The `_new` columns left over once the updates are done. */
  function StaleColumns(columns: seq<Label>, added: seq<(string, string)>): (r: seq<Label>)
    ensures forall c :: c in r <==> c in columns && exists k :: 0 <= k < |added| && c == Suffixed(Name(added[k].1))
  {
    var all := seq(|added|, k requires 0 <= k < |added| => Suffixed(Name(added[k].1)));
    var keep := seq(|added|, k requires 0 <= k < |added| => all[k] in columns);
    assert forall c :: c in Select(all, keep) <==> c in columns && exists k :: 0 <= k < |added| && c == Suffixed(Name(added[k].1)) by {
      forall c ensures c in Select(all, keep) <==> c in columns && exists k :: 0 <= k < |added| && c == Suffixed(Name(added[k].1)) {
        SelectMembers(all, keep, c);
        if c in columns && exists k :: 0 <= k < |added| && c == Suffixed(Name(added[k].1)) {
          var k :| 0 <= k < |added| && c == Suffixed(Name(added[k].1));
          assert keep[k] && all[k] == c;
        }
      }
    }
    Select(all, keep)
  }

  /** The new object table, or the exception the upsert raises. */
  function UpsertResult(objects: Frame, incoming: Frame, idField: string, typeField: string,
                        added: seq<(string, string)>, replace: bool): (r: Result<Frame>)
    ensures r.Ok? ==> forall k :: 0 <= k < |added| ==> Suffixed(Name(added[k].1)) !in r.value.columns
  {
    match Project(incoming, IncomingColumns(idField, typeField, added))
    case Err(e) => Err(e)
    case Ok(p) =>
      match MergeFrames(objects, Rename(p, RenamePairs(idField, typeField, added)), ObjectKeys, Outer)
      case Err(e) => Err(e)
      case Ok(merged) =>
        match UpdateAll(merged, Dedup(Targets(added)), replace)
        case Err(e) => Err(e)
        case Ok(updated) => Drop(updated, StaleColumns(updated.columns, added))
  }

  /** Applies the update of every added attribute in order, skipping a name already
      seen; the first `KeyError` stops it. */
  method UpdateTargets(merged0: Frame, added: seq<(string, string)>, replace: bool) returns (r: Result<Frame>)
    ensures r == UpdateAll(merged0, Dedup(Targets(added)), replace)
  {
    var merged := merged0;
    var targets := Targets(added);
    var seen: set<string> := {};
    var i := 0;
    while i < |added|
      invariant 0 <= i <= |added|
      invariant forall x :: x in seen <==> x in targets[..i]
      invariant UpdateAll(merged0, Dedup(targets[..i]), replace) == Ok(merged)
    {
      var c := added[i].1;
      DedupSnoc(targets, i);
      if c in seen {
        i := i + 1;
        continue;
      }
      seen := seen + {c};
      var updated := Update(merged, c, replace);
      UpdateAllSnoc(merged0, Dedup(targets[..i]), c, replace);
      if updated.Err? {
        DedupPrefixErr(merged0, targets, i + 1, replace);
        return Err(updated.error);
      }
      merged := updated.value;
      i := i + 1;
    }
    assert targets[..i] == targets;
    return Ok(merged);
  }

  /** The steps of the upsert on the object table: select and rename the incoming
      columns, merge them into the objects, update every added attribute once and
      drop the `_new` columns. */
  method UpsertedObjects(objects: Frame, incoming: Frame, idField: string, typeField: string,
                         added: seq<(string, string)>, replace: bool) returns (r: Result<Frame>)
    ensures r == UpsertResult(objects, incoming, idField, typeField, added, replace)
  {
    var projected := Project(incoming, IncomingColumns(idField, typeField, added));
    if projected.Err? {
      return Err(projected.error);
    }
    var renamed := Rename(projected.value, RenamePairs(idField, typeField, added));
    var mergedResult := MergeFrames(objects, renamed, ObjectKeys, Outer);
    if mergedResult.Err? {
      return Err(mergedResult.error);
    }
    var updated := UpdateTargets(mergedResult.value, added, replace);
    if updated.Err? {
      return Err(updated.error);
    }
    var merged := updated.value;
    r := Drop(merged, StaleColumns(merged.columns, added));
  }

  /** Adds the type column to the caller's table if it has none, then replaces the
      object table by the upserted one. */
  method Upsert(ocel: Ocel, objectTable: Table, idField: string, typeField: string,
                added: seq<(string, string)>, replace: bool) returns (err: Option<Error>)
    modifies ocel, objectTable
    ensures objectTable.frame == WithTypeColumn(old(objectTable.frame), typeField)
    ensures var r := UpsertResult(old(ocel.objects), objectTable.frame, idField, typeField, added, replace);
      && (r.Ok? ==> err.None? && ocel.objects == r.value)
      && (r.Err? ==> err == Some(r.error) && ocel.objects == old(ocel.objects))
    ensures ocel.events == old(ocel.events) && ocel.relations == old(ocel.relations)
    ensures ocel.objectChanges == old(ocel.objectChanges)
  {
    if Name(typeField) !in objectTable.frame.columns {
      objectTable.frame := WithTypeColumn(objectTable.frame, typeField);
    }
    var r := UpsertedObjects(ocel.objects, objectTable.frame, idField, typeField, added, replace);
    if r.Err? {
      return Some(r.error);
    }
    ocel.objects := r.value;
    return None;
  }

  /** Deduplicating one more element appends it exactly when it is new. */
  lemma DedupSnoc(s: seq<string>, i: nat)
    requires i < |s|
    ensures s[i] in s[..i] ==> Dedup(s[..i + 1]) == Dedup(s[..i])
    ensures s[i] !in s[..i] ==> Dedup(s[..i + 1]) == Dedup(s[..i]) + [s[i]]
    ensures forall x :: x in s[..i + 1] <==> x in s[..i] || x == s[i]
  {
    assert s[..i + 1][..i] == s[..i];
    assert s[..i + 1] == s[..i] + [s[i]];
  }

  /** One more update applies to the result of the earlier ones. */
  lemma UpdateAllSnoc(f: Frame, cs: seq<string>, c: string, replace: bool)
    requires UpdateAll(f, cs, replace).Ok?
    ensures UpdateAll(f, cs + [c], replace) == Update(UpdateAll(f, cs, replace).value, c, replace)
  {
    assert (cs + [c])[..|cs|] == cs;
  }

  /** Once the updates of a prefix's names raise, the updates of all names raise the same. */
  lemma DedupPrefixErr(f: Frame, targets: seq<string>, m: nat, replace: bool)
    requires m <= |targets| && UpdateAll(f, Dedup(targets[..m]), replace).Err?
    ensures UpdateAll(f, Dedup(targets), replace) == UpdateAll(f, Dedup(targets[..m]), replace)
  {
    DedupPrefix(targets, m);
    var n := |Dedup(targets[..m])|;
    assert Dedup(targets)[..n] == Dedup(targets[..m]);
    UpdateAllPrefixErr(f, Dedup(targets), n, replace);
  }

  /** The elements of a prefix, deduplicated, are a prefix of the whole deduplicated. */
  lemma {:induction false} DedupPrefix(s: seq<string>, n: nat)
    requires n <= |s|
    ensures Dedup(s[..n]) <= Dedup(s)
    decreases |s| - n
  {
    if n < |s| {
      var init := s[..|s| - 1];
      assert init[..n] == s[..n];
      DedupPrefix(init, n);
    } else {
      assert s[..n] == s;
    }
  }

  /** Once a prefix of the updates raises, all of them raise the same. */
  lemma {:induction false} UpdateAllPrefixErr(f: Frame, cs: seq<string>, n: nat, replace: bool)
    requires n <= |cs|
    requires UpdateAll(f, cs[..n], replace).Err?
    ensures UpdateAll(f, cs, replace) == UpdateAll(f, cs[..n], replace)
    decreases |cs| - n
  {
    if n < |cs| {
      var init := cs[..|cs| - 1];
      assert init[..n] == cs[..n];
      UpdateAllPrefixErr(f, init, n, replace);
    } else {
      assert cs[..n] == cs;
    }
  }

  // ---------------------------------------------------------------------------
  // Properties

  /** A `_new` label is never an OCEL key column. */
  lemma SuffixedNotKey(x: string)
    ensures Suffixed(Name(x)) != ObjectId && Suffixed(Name(x)) != ObjectType
  {
    var s := x + "_new";
    assert s[|s| - 1] == 'w';
    assert "ocel:oid"[7] == 'd' && "ocel:type"[8] == 'e';
  }

  /** The conditions under which the keys travel through unchanged: the id and type
      fields are distinct and are not sources of added attributes, no added attribute
      is renamed to an OCEL key, the object table has its key columns, and no incoming
      column lands, suffixed, on an object column. */
  predicate KeysApart(objects: Frame, idField: string, typeField: string, added: seq<(string, string)>)
  {
    && KeysApartFields(idField, typeField, added)
    && ObjectId in objects.columns && ObjectType in objects.columns
    && NoClash(objects.columns, RenameColumns(IncomingColumns(idField, typeField, added), RenamePairs(idField, typeField, added)))
  }

  /** The updates and the drop keep every row and its key cells. */
  lemma KeysSurviveUpdates(merged: Frame, added: seq<(string, string)>, replace: bool, i: nat)
    requires i < |merged.rows|
    requires forall k :: 0 <= k < |added| ==> Name(added[k].1) != ObjectId && Name(added[k].1) != ObjectType
    requires UpdateAll(merged, Dedup(Targets(added)), replace).Ok?
    requires Drop(UpdateAll(merged, Dedup(Targets(added)), replace).value,
                  StaleColumns(UpdateAll(merged, Dedup(Targets(added)), replace).value.columns, added)).Ok?
    ensures var out := Drop(UpdateAll(merged, Dedup(Targets(added)), replace).value,
                            StaleColumns(UpdateAll(merged, Dedup(Targets(added)), replace).value.columns, added)).value;
      i < |out.rows| && Cell(out.rows[i], ObjectId) == Cell(merged.rows[i], ObjectId) &&
      Cell(out.rows[i], ObjectType) == Cell(merged.rows[i], ObjectType)
  {
    var updated := UpdateAll(merged, Dedup(Targets(added)), replace).value;
    UpdatesKeepKeys(merged, added, replace, i);
    StaleNotKeys(updated.columns, added);
  }

  /** Updating the target columns leaves the key cells alone. */
  lemma UpdatesKeepKeys(merged: Frame, added: seq<(string, string)>, replace: bool, i: nat)
    requires i < |merged.rows|
    requires forall k :: 0 <= k < |added| ==> Name(added[k].1) != ObjectId && Name(added[k].1) != ObjectType
    requires UpdateAll(merged, Dedup(Targets(added)), replace).Ok?
    ensures var updated := UpdateAll(merged, Dedup(Targets(added)), replace).value;
      i < |updated.rows| && Cell(updated.rows[i], ObjectId) == Cell(merged.rows[i], ObjectId) &&
      Cell(updated.rows[i], ObjectType) == Cell(merged.rows[i], ObjectType)
  {
    var d := Dedup(Targets(added));
    assert forall k :: 0 <= k < |d| ==> d[k] in Targets(added);
  }

  /** No stale suffixed column is a key column. */
  lemma StaleNotKeys(columns: seq<Label>, added: seq<(string, string)>)
    ensures ObjectId !in StaleColumns(columns, added) && ObjectType !in StaleColumns(columns, added)
  {
    forall k | 0 <= k < |added| {
      SuffixedNotKey(added[k].1);
    }
  }

  /** Every existing object keeps its (id, type) key in the new table. */
  lemma ExistingKeysKept(objects: Frame, incoming: Frame, idField: string, typeField: string,
                         added: seq<(string, string)>, replace: bool, o: nat)
    requires UpsertResult(objects, incoming, idField, typeField, added, replace).Ok?
    requires KeysApart(objects, idField, typeField, added) && o < |objects.rows|
    ensures exists m :: (m in UpsertResult(objects, incoming, idField, typeField, added, replace).value.rows &&
      Cell(m, ObjectId) == Cell(objects.rows[o], ObjectId) && Cell(m, ObjectType) == Cell(objects.rows[o], ObjectType))
  {
    var p := Project(incoming, IncomingColumns(idField, typeField, added)).value;
    var renamed := Rename(p, RenamePairs(idField, typeField, added));
    var merged := MergeFrames(objects, renamed, ObjectKeys, Outer).value;
    LeftRowKept(objects.rows, renamed.rows, objects.columns, renamed.columns, ObjectKeys, o);
    var m0 :| m0 in LeftRows(objects.rows, renamed.rows, objects.columns, renamed.columns, ObjectKeys) &&
      (forall c :: c in objects.columns ==> Cell(m0, c) == Cell(objects.rows[o], c)) &&
      (Matching(objects.rows[o], renamed.rows, ObjectKeys) == [] ==>
         forall c :: c in RightLabels(objects.columns, renamed.columns, ObjectKeys) ==> Cell(m0, c) == Missing);
    assert m0 in merged.rows;
    var i :| 0 <= i < |merged.rows| && merged.rows[i] == m0;
    KeysSurviveUpdates(merged, added, replace, i);
    var out := UpsertResult(objects, incoming, idField, typeField, added, replace).value;
    assert out.rows[i] in out.rows;
  }

  /** The renamed incoming row carries the id field as the object id and the type
      field as the object type. */
  lemma RenamedKeys(row: Row, idField: string, typeField: string, added: seq<(string, string)>)
    requires KeysApartFields(idField, typeField, added)
    ensures var cols := IncomingColumns(idField, typeField, added);
      var pairs := RenamePairs(idField, typeField, added);
      Cell(RenameRow(row, cols, pairs), ObjectId) == Cell(row, Name(idField)) &&
      Cell(RenameRow(row, cols, pairs), ObjectType) == Cell(row, Name(typeField))
  {
    var cols := IncomingColumns(idField, typeField, added);
    var pairs := RenamePairs(idField, typeField, added);
    var n := |added|;
    RenameLastPair(idField, pairs, n);
    RenameLastPair(typeField, pairs, n + 1);
    forall j | 0 <= j < |cols| && j != n && j != n + 1
      ensures RenameLabel(cols[j], pairs) != ObjectId && RenameLabel(cols[j], pairs) != ObjectType
    {
      AddedLabelNotKey(idField, typeField, added, j);
    }
    RenamedCell(row, cols, pairs, n);
    RenamedCell(row, cols, pairs, n + 1);
  }

  /** The source column of an added attribute is never renamed to an OCEL key. */
  lemma AddedLabelNotKey(idField: string, typeField: string, added: seq<(string, string)>, j: nat)
    requires KeysApartFields(idField, typeField, added) && j < |added|
    ensures var r := RenameLabel(Name(added[j].0), RenamePairs(idField, typeField, added));
      r != ObjectId && r != ObjectType
  {
    var pairs := RenamePairs(idField, typeField, added);
    assert pairs[j].0 == added[j].0;
    var r := RenameLabel(Name(added[j].0), pairs);
    var k :| 0 <= k < |pairs| && Name(added[j].0) == Name(pairs[k].0) && r == Name(pairs[k].1);
    assert pairs[|added|].0 == idField && pairs[|added| + 1].0 == typeField;
    assert k < |added|;
    assert pairs[k] == added[k];
  }

  predicate KeysApartFields(idField: string, typeField: string, added: seq<(string, string)>)
  {
    && idField != typeField
    && (forall k :: 0 <= k < |added| ==> added[k].0 != idField && added[k].0 != typeField)
    && (forall k :: 0 <= k < |added| ==> Name(added[k].1) != ObjectId && Name(added[k].1) != ObjectType)
  }

  /** In the outer merge on the OCEL keys every incoming row's keys appear. */
  lemma MergedIncomingKeys(objects: Frame, renamed: Frame, j: nat) returns (i: nat)
    requires MergeFrames(objects, renamed, ObjectKeys, Outer).Ok? && j < |renamed.rows|
    requires ObjectId in objects.columns && ObjectType in objects.columns
    requires NoClash(objects.columns, renamed.columns)
    ensures var merged := MergeFrames(objects, renamed, ObjectKeys, Outer).value;
      i < |merged.rows| &&
      Cell(merged.rows[i], ObjectId) == Cell(renamed.rows[j], ObjectId) &&
      Cell(merged.rows[i], ObjectType) == Cell(renamed.rows[j], ObjectType)
  {
    var merged := MergeFrames(objects, renamed, ObjectKeys, Outer).value;
    RightKeysKept(objects.rows, renamed.rows, objects.columns, renamed.columns, ObjectKeys, j);
    var m0 :| m0 in LeftRows(objects.rows, renamed.rows, objects.columns, renamed.columns, ObjectKeys) +
      RightOnlyRows(objects.rows, renamed.rows, objects.columns, renamed.columns, ObjectKeys) &&
      KeysEqual(m0, renamed.rows[j], ObjectKeys);
    assert m0 in merged.rows;
    i :| 0 <= i < |merged.rows| && merged.rows[i] == m0;
    assert ObjectKeys.leftOn[0] == ObjectId && ObjectKeys.leftOn[1] == ObjectType;
  }

  /** The selected and renamed incoming row carries the id field as the object id and
      the type field as the object type. */
  lemma IncomingRowKeys(incoming: Frame, idField: string, typeField: string, added: seq<(string, string)>, j: nat)
    requires KeysApartFields(idField, typeField, added) && j < |incoming.rows|
    requires Project(incoming, IncomingColumns(idField, typeField, added)).Ok?
    ensures var renamed := Rename(Project(incoming, IncomingColumns(idField, typeField, added)).value,
                                  RenamePairs(idField, typeField, added));
      j < |renamed.rows| &&
      Cell(renamed.rows[j], ObjectId) == Cell(incoming.rows[j], Name(idField)) &&
      Cell(renamed.rows[j], ObjectType) == Cell(incoming.rows[j], Name(typeField))
  {
    var cols := IncomingColumns(idField, typeField, added);
    var p := Project(incoming, cols).value;
    RenamedKeys(p.rows[j], idField, typeField, added);
    assert Name(idField) in cols && Name(typeField) in cols;
  }

  /** Every incoming row's id and type appear as a key of the new table. */
  lemma IncomingKeysKept(objects: Frame, incoming: Frame, idField: string, typeField: string,
                         added: seq<(string, string)>, replace: bool, j: nat)
    requires UpsertResult(objects, incoming, idField, typeField, added, replace).Ok?
    requires KeysApart(objects, idField, typeField, added) && j < |incoming.rows|
    ensures exists m :: (m in UpsertResult(objects, incoming, idField, typeField, added, replace).value.rows &&
      Cell(m, ObjectId) == Cell(incoming.rows[j], Name(idField)) && Cell(m, ObjectType) == Cell(incoming.rows[j], Name(typeField)))
  {
    var p := Project(incoming, IncomingColumns(idField, typeField, added)).value;
    var renamed := Rename(p, RenamePairs(idField, typeField, added));
    var merged := MergeFrames(objects, renamed, ObjectKeys, Outer).value;
    IncomingRowKeys(incoming, idField, typeField, added, j);
    var i := MergedIncomingKeys(objects, renamed, j);
    KeysSurviveUpdates(merged, added, replace, i);
    var out := UpsertResult(objects, incoming, idField, typeField, added, replace).value;
    assert out.rows[i] in out.rows;
  }

  /** Every added attribute is updated once, however often it is listed. */
  lemma EachTargetOnce(added: seq<(string, string)>)
    ensures forall x :: x in Dedup(Targets(added)) <==> exists k :: 0 <= k < |added| && added[k].1 == x
    ensures forall i, j :: 0 <= i < j < |Dedup(Targets(added))| ==> Dedup(Targets(added))[i] != Dedup(Targets(added))[j]
  {
    forall x ensures x in Targets(added) <==> exists k :: 0 <= k < |added| && added[k].1 == x {
      if x in Targets(added) {
        var k :| 0 <= k < |added| && Targets(added)[k] == x;
      }
    }
  }

  // ---------------------------------------------------------------------------
  // The replace policy on the new table

  /** The new names of the added attributes, as labels. */
  function TargetLabels(added: seq<(string, string)>): (ls: seq<Label>)
    ensures |ls| == |added| && forall k :: 0 <= k < |added| ==> ls[k] == Name(added[k].1)
  {
    seq(|added|, k requires 0 <= k < |added| => Name(added[k].1))
  }

  /** Added attributes with distinct sources and distinct new names, no new name being
      another with "_new" appended. */
  predicate DistinctAttributes(added: seq<(string, string)>)
  {
    && (forall a, b :: 0 <= a < b < |added| ==> added[a].0 != added[b].0 && added[a].1 != added[b].1)
    && SuffixApart(Targets(added))
  }

  /** A column no added attribute is renamed to. */
  predicate Untargeted(c: Label, added: seq<(string, string)>)
  {
    forall k :: 0 <= k < |added| ==> c != Name(added[k].1)
  }

  /** What a column held before the upsert: its value in `before` when the table has it,
      missing otherwise. */
  function OldCell(columns: seq<Label>, before: Row, c: Label): Value
  {
    if c in columns then Cell(before, c) else Missing
  }

  /** A row of the new table standing for the existing row `before` and the incoming
      row `given`: each added attribute is resolved by the replace policy from the incoming
      source value and the old value, and every other column keeps its old value. */
  predicate ResolvedRow(m: Row, columns: seq<Label>, before: Row, given: Row, added: seq<(string, string)>, replace: bool)
  {
    && (forall k :: 0 <= k < |added| ==>
          Cell(m, Name(added[k].1)) == Resolve(Cell(given, Name(added[k].0)), OldCell(columns, before, Name(added[k].1)), replace))
    && (forall c :: c in columns && Untargeted(c, added) ==> Cell(m, c) == Cell(before, c))
  }

  /** An existing row and an incoming row describing the same object. */
  predicate SameObject(o: Row, n: Row, idField: string, typeField: string)
  {
    Cell(o, ObjectId) == Cell(n, Name(idField)) && Cell(o, ObjectType) == Cell(n, Name(typeField))
  }

  /** The existing row an incoming object without a match stands against: its keys
      and nothing else. */
  function KeyRow(n: Row, idField: string, typeField: string): Row
  {
    map[ObjectId := Cell(n, Name(idField)), ObjectType := Cell(n, Name(typeField))]
  }

  /** An existing object met by an incoming row keeps its row, with every added
      attribute resolved by the replace policy and every other column unchanged. */
  lemma MatchedObjectResolved(objects: Frame, incoming: Frame, idField: string, typeField: string,
                              added: seq<(string, string)>, replace: bool, o: nat, n: nat)
    requires UpsertResult(objects, incoming, idField, typeField, added, replace).Ok?
    requires KeysApart(objects, idField, typeField, added) && DistinctAttributes(added)
    requires o < |objects.rows| && n < |incoming.rows|
    requires SameObject(objects.rows[o], incoming.rows[n], idField, typeField)
    ensures exists m :: (m in UpsertResult(objects, incoming, idField, typeField, added, replace).value.rows &&
      ResolvedRow(m, objects.columns, objects.rows[o], incoming.rows[n], added, replace))
  {
    var p := Project(incoming, IncomingColumns(idField, typeField, added)).value;
    var renamed := Rename(p, RenamePairs(idField, typeField, added));
    var merged := MergeFrames(objects, renamed, ObjectKeys, Outer).value;
    RenamedRowCells(incoming, idField, typeField, added, n);
    var l, r := objects.rows[o], renamed.rows[n];
    ObjectKeysEqual(l, r);
    MatchedRowIncluded(objects.rows, renamed.rows, objects.columns, renamed.columns, ObjectKeys, o, n);
    var m0 := Combine(Some(l), Some(r), objects.columns, renamed.columns, ObjectKeys);
    var i := MergedRowIndex(objects, renamed, m0);
    forall c | c in objects.columns ensures Cell(m0, c) == Cell(l, c) {
      LeftCells(l, Some(r), objects.columns, renamed.columns, ObjectKeys, c);
    }
    TargetsApart(added);
    CombinedFacts(Some(l), r, objects.columns, renamed.columns, ObjectKeys, added, l, incoming.rows[n]);
    ResolvedAt(objects, incoming, idField, typeField, added, replace, i, l, incoming.rows[n]);
  }

  /** An incoming object no existing row describes is inserted with its keys, its
      added attributes and every other column missing. */
  lemma IncomingObjectInserted(objects: Frame, incoming: Frame, idField: string, typeField: string,
                               added: seq<(string, string)>, replace: bool, n: nat)
    requires UpsertResult(objects, incoming, idField, typeField, added, replace).Ok?
    requires KeysApart(objects, idField, typeField, added) && DistinctAttributes(added)
    requires n < |incoming.rows|
    requires forall o :: 0 <= o < |objects.rows| ==> !SameObject(objects.rows[o], incoming.rows[n], idField, typeField)
    ensures exists m :: (m in UpsertResult(objects, incoming, idField, typeField, added, replace).value.rows &&
      ResolvedRow(m, objects.columns, KeyRow(incoming.rows[n], idField, typeField), incoming.rows[n], added, replace))
  {
    var p := Project(incoming, IncomingColumns(idField, typeField, added)).value;
    var renamed := Rename(p, RenamePairs(idField, typeField, added));
    var merged := MergeFrames(objects, renamed, ObjectKeys, Outer).value;
    RenamedRowCells(incoming, idField, typeField, added, n);
    var r := renamed.rows[n];
    var before := KeyRow(incoming.rows[n], idField, typeField);
    forall o | 0 <= o < |objects.rows| ensures !KeysEqual(objects.rows[o], r, ObjectKeys) {
      ObjectKeysEqual(objects.rows[o], r);
    }
    UnmatchedRowIncluded(objects.rows, renamed.rows, objects.columns, renamed.columns, ObjectKeys, n);
    var m0 := Combine(None, Some(r), objects.columns, renamed.columns, ObjectKeys);
    var i := MergedRowIndex(objects, renamed, m0);
    InsertedCells(r, objects.columns, added, before, incoming.rows[n]);
    TargetsApart(added);
    CombinedFacts(None, r, objects.columns, renamed.columns, ObjectKeys, added, before, incoming.rows[n]);
    ResolvedAt(objects, incoming, idField, typeField, added, replace, i, before, incoming.rows[n]);
  }

  /** A merged row without an existing partner holds the incoming keys in the key
      columns and nothing in the other object columns. */
  lemma InsertedCells(r: Row, columns: seq<Label>, added: seq<(string, string)>, before: Row, given: Row)
    requires NoClash(columns, TargetLabels(added) + [ObjectId, ObjectType])
    requires before == map[ObjectId := Cell(r, ObjectId), ObjectType := Cell(r, ObjectType)]
    ensures forall c :: c in columns ==>
      Cell(Combine(None, Some(r), columns, TargetLabels(added) + [ObjectId, ObjectType], ObjectKeys), c) == Cell(before, c)
  {
    var right := TargetLabels(added) + [ObjectId, ObjectType];
    ObjectSharedKeys();
    forall c | c in columns ensures Cell(Combine(None, Some(r), columns, right, ObjectKeys), c) == Cell(before, c) {
      if c == ObjectId || c == ObjectType {
        SharedKeyCells(r, columns, right, ObjectKeys, c);
      } else {
        RightOnlyLeftCells(r, columns, right, ObjectKeys, c);
      }
    }
  }

  /** Two rows meet in the object merge exactly when their ids and types agree. */
  lemma ObjectKeysEqual(l: Row, r: Row)
    ensures KeysEqual(l, r, ObjectKeys) <==> Cell(l, ObjectId) == Cell(r, ObjectId) && Cell(l, ObjectType) == Cell(r, ObjectType)
  {
    assert ObjectKeys.leftOn[0] == ObjectId && ObjectKeys.leftOn[1] == ObjectType;
  }

  /** A row of either part of the outer merge is a row of the merged table. */
  lemma MergedRowIndex(objects: Frame, renamed: Frame, m0: Row) returns (i: nat)
    requires MergeFrames(objects, renamed, ObjectKeys, Outer).Ok?
    requires m0 in LeftRows(objects.rows, renamed.rows, objects.columns, renamed.columns, ObjectKeys) ||
             m0 in RightOnlyRows(objects.rows, renamed.rows, objects.columns, renamed.columns, ObjectKeys)
    ensures i < |MergeFrames(objects, renamed, ObjectKeys, Outer).value.rows|
    ensures MergeFrames(objects, renamed, ObjectKeys, Outer).value.rows[i] == m0
  {
    var rows := MergeFrames(objects, renamed, ObjectKeys, Outer).value.rows;
    assert m0 in rows;
    i :| 0 <= i < |rows| && rows[i] == m0;
  }

  /** The row the upsert makes of merged row `i` is a row of the new table and is
      resolved once the merge has put the right values into it. */
  lemma ResolvedAt(objects: Frame, incoming: Frame, idField: string, typeField: string,
                   added: seq<(string, string)>, replace: bool, i: nat, before: Row, given: Row)
    requires UpsertResult(objects, incoming, idField, typeField, added, replace).Ok?
    requires KeysApart(objects, idField, typeField, added) && DistinctAttributes(added)
    requires var p := Project(incoming, IncomingColumns(idField, typeField, added)).value;
      var merged := MergeFrames(objects, Rename(p, RenamePairs(idField, typeField, added)), ObjectKeys, Outer).value;
      i < |merged.rows| && MergedFacts(merged.rows[i], merged.columns, objects.columns, before, given, added)
    ensures exists m :: (m in UpsertResult(objects, incoming, idField, typeField, added, replace).value.rows &&
      ResolvedRow(m, objects.columns, before, given, added, replace))
  {
    var p := Project(incoming, IncomingColumns(idField, typeField, added)).value;
    var merged := MergeFrames(objects, Rename(p, RenamePairs(idField, typeField, added)), ObjectKeys, Outer).value;
    RenamedColumnsAre(idField, typeField, added);
    forall k | 0 <= k < |added| ensures Suffixed(Name(added[k].1)) !in objects.columns {
      assert TargetLabels(added)[k] == Name(added[k].1);
    }
    UpsertedRow(merged, added, replace, i, objects.columns, before, given);
  }

  /** The updates and the drop of the object upsert keep merged row `i` as a resolved
      row of the new table. */
  lemma UpsertedRow(merged: Frame, added: seq<(string, string)>, replace: bool, i: nat,
                    columns: seq<Label>, before: Row, given: Row)
    requires UpdateAll(merged, Dedup(Targets(added)), replace).Ok?
    requires Drop(UpdateAll(merged, Dedup(Targets(added)), replace).value,
                  StaleColumns(UpdateAll(merged, Dedup(Targets(added)), replace).value.columns, added)).Ok?
    requires i < |merged.rows| && DistinctAttributes(added)
    requires forall k :: 0 <= k < |added| ==> Suffixed(Name(added[k].1)) !in columns
    requires MergedFacts(merged.rows[i], merged.columns, columns, before, given, added)
    ensures var updated := UpdateAll(merged, Dedup(Targets(added)), replace).value;
      exists m :: (m in Drop(updated, StaleColumns(updated.columns, added)).value.rows &&
        ResolvedRow(m, columns, before, given, added, replace))
  {
    var cs := Dedup(Targets(added));
    var updated := UpdateAll(merged, cs, replace).value;
    var stale := StaleColumns(updated.columns, added);
    assert stale + [] == stale;
    FinalRow(merged, cs, [], added, replace, i, columns, before, given);
    var out := Drop(updated, stale).value;
    assert out.rows[i] in out.rows;
  }

  /** What the merge puts into a row: the old values in the object columns that no
      added attribute targets; for a new name the table has, the old value and a
      `_new` helper holding the incoming value; for a new name it lacks, the incoming
      value and no helper. */
  predicate MergedFacts(mrow: Row, mcols: seq<Label>, columns: seq<Label>, before: Row, given: Row,
                        added: seq<(string, string)>)
  {
    && (forall c :: c in columns && Untargeted(c, added) ==> Cell(mrow, c) == Cell(before, c))
    && forall k :: 0 <= k < |added| ==>
      && (Name(added[k].1) in columns ==>
            Cell(mrow, Name(added[k].1)) == Cell(before, Name(added[k].1)) &&
            Suffixed(Name(added[k].1)) in mcols &&
            Cell(mrow, Suffixed(Name(added[k].1))) == Cell(given, Name(added[k].0)))
      && (Name(added[k].1) !in columns ==>
            Suffixed(Name(added[k].1)) !in mcols &&
            Cell(mrow, Name(added[k].1)) == Cell(given, Name(added[k].0)))
  }

  /** The merge of an existing row (or none) whose table columns already read as
      `before` with a renamed incoming row carrying `given`'s values. */
  lemma CombinedFacts(l: Option<Row>, r: Row, columns: seq<Label>, right: seq<Label>, keys: Keys,
                      added: seq<(string, string)>, before: Row, given: Row)
    requires NoClash(columns, right)
    requires forall k :: 0 <= k < |added| ==>
      Name(added[k].1) in right && !SharedKey(Name(added[k].1), keys) && LabelApart(Name(added[k].1), right, keys)
    requires forall k :: 0 <= k < |added| ==> Cell(r, Name(added[k].1)) == Cell(given, Name(added[k].0))
    requires forall c :: c in columns ==> Cell(Combine(l, Some(r), columns, right, keys), c) == Cell(before, c)
    ensures MergedFacts(Combine(l, Some(r), columns, right, keys), MergedColumns(columns, right, keys),
                        columns, before, given, added)
  {
    MergedTargets(l, r, columns, right, keys, added);
  }

  /** The renamed incoming columns are the new names followed by the OCEL keys, and a
      renamed row carries its source values and keys. */
  lemma RenamedRowCells(incoming: Frame, idField: string, typeField: string, added: seq<(string, string)>, n: nat)
    requires KeysApartFields(idField, typeField, added) && DistinctAttributes(added)
    requires Project(incoming, IncomingColumns(idField, typeField, added)).Ok? && n < |incoming.rows|
    ensures var renamed := Rename(Project(incoming, IncomingColumns(idField, typeField, added)).value,
                                  RenamePairs(idField, typeField, added));
      && renamed.columns == TargetLabels(added) + [ObjectId, ObjectType]
      && n < |renamed.rows|
      && Cell(renamed.rows[n], ObjectId) == Cell(incoming.rows[n], Name(idField))
      && Cell(renamed.rows[n], ObjectType) == Cell(incoming.rows[n], Name(typeField))
      && forall k :: 0 <= k < |added| ==> Cell(renamed.rows[n], Name(added[k].1)) == Cell(incoming.rows[n], Name(added[k].0))
  {
    var cols := IncomingColumns(idField, typeField, added);
    var pairs := RenamePairs(idField, typeField, added);
    var p := Project(incoming, cols).value;
    RenamedColumnsAre(idField, typeField, added);
    IncomingRowKeys(incoming, idField, typeField, added, n);
    forall k | 0 <= k < |added|
      ensures Cell(RenameRow(p.rows[n], cols, pairs), Name(added[k].1)) == Cell(incoming.rows[n], Name(added[k].0))
    {
      RenamedAttributeCell(p.rows[n], idField, typeField, added, k);
      assert cols[k] in cols;
    }
  }

  /** A renamed row holds each added attribute's source value under its new name. */
  lemma RenamedAttributeCell(row: Row, idField: string, typeField: string, added: seq<(string, string)>, k: nat)
    requires KeysApartFields(idField, typeField, added) && DistinctAttributes(added) && k < |added|
    ensures Cell(RenameRow(row, IncomingColumns(idField, typeField, added), RenamePairs(idField, typeField, added)),
                 Name(added[k].1)) == Cell(row, Name(added[k].0))
  {
    var cols := IncomingColumns(idField, typeField, added);
    var pairs := RenamePairs(idField, typeField, added);
    var renamedCols := RenameColumns(cols, pairs);
    RenamedColumnsAre(idField, typeField, added);
    assert renamedCols[k] == Name(added[k].1);
    forall i | 0 <= i < |cols| && i != k ensures RenameLabel(cols[i], pairs) != RenameLabel(cols[k], pairs) {
      assert renamedCols[i] == RenameLabel(cols[i], pairs);
      if i < |added| {
        assert renamedCols[i] == Name(added[i].1);
        if i < k {
          assert added[i].1 != added[k].1;
        } else {
          assert added[k].1 != added[i].1;
        }
      }
    }
    RenamedCell(row, cols, pairs, k);
  }

  /** Each source is renamed to its new name, the id and type fields to the OCEL keys. */
  lemma RenamedColumnsAre(idField: string, typeField: string, added: seq<(string, string)>)
    requires KeysApartFields(idField, typeField, added) && DistinctAttributes(added)
    ensures RenameColumns(IncomingColumns(idField, typeField, added), RenamePairs(idField, typeField, added)) ==
      TargetLabels(added) + [ObjectId, ObjectType]
  {
    var pairs := RenamePairs(idField, typeField, added);
    var n := |added|;
    forall k | 0 <= k < n ensures RenameLabel(Name(added[k].0), pairs) == Name(added[k].1) {
      assert pairs[k] == added[k];
      forall j | k < j < |pairs| ensures pairs[j].0 != added[k].0 {
        if j < n {
          assert pairs[j] == added[j];
        }
      }
      RenameLastPair(added[k].0, pairs, k);
    }
    RenameLastPair(idField, pairs, n);
    RenameLastPair(typeField, pairs, n + 1);
  }

  /** The shared keys of the object merge are the two OCEL keys. */
  lemma ObjectSharedKeys()
    ensures forall a :: SharedKey(a, ObjectKeys) <==> a == ObjectId || a == ObjectType
  {
    assert ObjectKeys.leftOn[0] == ObjectId && ObjectKeys.leftOn[1] == ObjectType;
  }

  lemma SuffixedInjective(x: string, y: string)
    requires Suffixed(Name(x)) == Suffixed(Name(y))
    ensures x == y
  {
    assert |x| == |y|;
    assert (x + "_new")[..|x|] == x && (y + "_new")[..|y|] == y;
  }

  /** In the merge of an existing row (or none) with a renamed incoming row, a new name
      the table has keeps the old cell and gets a `_new` helper holding the incoming
      value; a new name the table lacks holds the incoming value and has no helper. */
  lemma MergedTargets(l: Option<Row>, r: Row, columns: seq<Label>, right: seq<Label>, keys: Keys,
                      added: seq<(string, string)>)
    requires NoClash(columns, right)
    requires forall k :: 0 <= k < |added| ==>
      Name(added[k].1) in right && !SharedKey(Name(added[k].1), keys) && LabelApart(Name(added[k].1), right, keys)
    ensures var m := Combine(l, Some(r), columns, right, keys);
      forall k :: 0 <= k < |added| ==>
        && (Name(added[k].1) in columns ==>
              Suffixed(Name(added[k].1)) in MergedColumns(columns, right, keys) &&
              Cell(m, Suffixed(Name(added[k].1))) == Cell(r, Name(added[k].1)))
        && (Name(added[k].1) !in columns ==>
              Suffixed(Name(added[k].1)) !in MergedColumns(columns, right, keys) &&
              Cell(m, Name(added[k].1)) == Cell(r, Name(added[k].1)))
  {
    forall k | 0 <= k < |added|
      ensures var m := Combine(l, Some(r), columns, right, keys);
        && (Name(added[k].1) in columns ==>
              Suffixed(Name(added[k].1)) in MergedColumns(columns, right, keys) &&
              Cell(m, Suffixed(Name(added[k].1))) == Cell(r, Name(added[k].1)))
        && (Name(added[k].1) !in columns ==>
              Suffixed(Name(added[k].1)) !in MergedColumns(columns, right, keys) &&
              Cell(m, Name(added[k].1)) == Cell(r, Name(added[k].1)))
    {
      var c := Name(added[k].1);
      SuffixedInMerged(columns, right, keys, c);
      RightCells(l, r, columns, right, keys, c);
    }
  }

  /** The new names travel through the object merge as right columns of their own. */
  lemma TargetsApart(added: seq<(string, string)>)
    requires DistinctAttributes(added)
    requires forall k :: 0 <= k < |added| ==> Name(added[k].1) != ObjectId && Name(added[k].1) != ObjectType
    ensures forall k :: 0 <= k < |added| ==>
      var right := TargetLabels(added) + [ObjectId, ObjectType];
      Name(added[k].1) in right && !SharedKey(Name(added[k].1), ObjectKeys) && LabelApart(Name(added[k].1), right, ObjectKeys)
  {
    ObjectSharedKeys();
    forall k | 0 <= k < |added|
      ensures var right := TargetLabels(added) + [ObjectId, ObjectType];
        Name(added[k].1) in right && !SharedKey(Name(added[k].1), ObjectKeys) && LabelApart(Name(added[k].1), right, ObjectKeys)
    {
      assert (TargetLabels(added) + [ObjectId, ObjectType])[k] == Name(added[k].1);
      TargetApart(added, k);
    }
  }

  /** No other renamed incoming column can take the merge label of a new name. */
  lemma TargetApart(added: seq<(string, string)>, k: nat)
    requires DistinctAttributes(added) && k < |added|
    ensures LabelApart(Name(added[k].1), TargetLabels(added) + [ObjectId, ObjectType], ObjectKeys)
  {
    var right := TargetLabels(added) + [ObjectId, ObjectType];
    var c := Name(added[k].1);
    ObjectSharedKeys();
    forall a | a in right && !SharedKey(a, ObjectKeys) && a != c
      ensures a != Suffixed(c) && c != Suffixed(a) && Suffixed(a) != Suffixed(c)
    {
      var j :| 0 <= j < |right| && right[j] == a;
      assert j < |added| && a == Name(added[j].1);
      assert added[j].1 in Targets(added) && added[k].1 in Targets(added);
      if Suffixed(a) == Suffixed(c) {
        SuffixedInjective(added[j].1, added[k].1);
      }
    }
  }

  /** The updates and the drop turn a merged row into a resolved row, given what the
      merge put into its cells: `cs` updates each new name, and the drop removes the
      stale helpers and `extra`, which holds no new name and no table column. */
  lemma FinalRow(merged: Frame, cs: seq<string>, extra: seq<Label>, added: seq<(string, string)>, replace: bool,
                 i: nat, columns: seq<Label>, before: Row, given: Row)
    requires forall x :: x in cs <==> x in Targets(added)
    requires UpdateAll(merged, cs, replace).Ok?
    requires Drop(UpdateAll(merged, cs, replace).value,
                  StaleColumns(UpdateAll(merged, cs, replace).value.columns, added) + extra).Ok?
    requires i < |merged.rows| && DistinctAttributes(added)
    requires forall k :: 0 <= k < |added| ==> Suffixed(Name(added[k].1)) !in columns && Name(added[k].1) !in extra
    requires forall c :: c in columns ==> c !in extra
    requires MergedFacts(merged.rows[i], merged.columns, columns, before, given, added)
    ensures var out := Drop(UpdateAll(merged, cs, replace).value,
                            StaleColumns(UpdateAll(merged, cs, replace).value.columns, added) + extra).value;
      i < |out.rows| && ResolvedRow(out.rows[i], columns, before, given, added, replace)
  {
    var updated := UpdateAll(merged, cs, replace).value;
    var drops := StaleColumns(updated.columns, added) + extra;
    var out := Drop(updated, drops).value;
    assert SuffixApart(cs) by {
      forall a, b | a in cs && b in cs ensures a != b + "_new" {
        assert a in Targets(added) && b in Targets(added);
      }
    }
    forall k | 0 <= k < |added|
      ensures Cell(out.rows[i], Name(added[k].1)) ==
        Resolve(Cell(given, Name(added[k].0)), OldCell(columns, before, Name(added[k].1)), replace)
    {
      var t := added[k].1;
      assert t in Targets(added);
      UpdateAllCell(merged, cs, replace, i, t);
      assert Name(t) !in drops by {
        forall j | 0 <= j < |added| ensures Name(t) != Suffixed(Name(added[j].1)) {
          assert added[j].1 in Targets(added);
        }
      }
    }
    forall c | c in columns && Untargeted(c, added) ensures Cell(out.rows[i], c) == Cell(before, c) {
      assert forall x :: x in cs ==> c != Name(x);
      assert c !in drops;
    }
  }

}
