/** Upserting attributes: an extension table is joined to the object or event table
    by a left merge on chosen key pairs, and each added attribute takes the incoming
    or the existing value according to the replace policy. */
module UpsertAttributes {
  import opened Tables
  import opened Merge
  import opened UpsertObjects

  /** The extension columns kept: the source of every added attribute, then the
      extension side of every key pair. */
  function ExtensionColumns(mergeFields: seq<(string, string)>, added: seq<(string, string)>): (cols: seq<Label>)
    ensures |cols| == |added| + |mergeFields|
    ensures forall k :: 0 <= k < |added| ==> cols[k] == Name(added[k].0)
    ensures forall k :: 0 <= k < |mergeFields| ==> cols[|added| + k] == Name(mergeFields[k].0)
  {
    seq(|added|, k requires 0 <= k < |added| => Name(added[k].0)) +
    seq(|mergeFields|, k requires 0 <= k < |mergeFields| => Name(mergeFields[k].0))
  }

  /** The join: each pair is (extension column, target column). */
  function JoinKeys(mergeFields: seq<(string, string)>): (keys: Keys)
    ensures |keys.leftOn| == |keys.rightOn| == |mergeFields|
    ensures forall k :: 0 <= k < |mergeFields| ==>
      keys.leftOn[k] == Name(mergeFields[k].1) && keys.rightOn[k] == Name(mergeFields[k].0)
  {
    Keys(seq(|mergeFields|, k requires 0 <= k < |mergeFields| => Name(mergeFields[k].1)),
         seq(|mergeFields|, k requires 0 <= k < |mergeFields| => Name(mergeFields[k].0)))
  }

  /** The extension key columns dropped after the merge, as written: each extension
      column paired with a differently named target column, by its own name. */
  function KeyDropsAsWritten(mergeFields: seq<(string, string)>): (r: seq<Label>)
    ensures forall c :: c in r <==> exists k :: 0 <= k < |mergeFields| && mergeFields[k].1 != mergeFields[k].0 && c == Name(mergeFields[k].0)
  {
    var all := seq(|mergeFields|, k requires 0 <= k < |mergeFields| => Name(mergeFields[k].0));
    var keep := seq(|mergeFields|, k requires 0 <= k < |mergeFields| => mergeFields[k].1 != mergeFields[k].0);
    assert forall c :: c in Select(all, keep) <==> exists k :: 0 <= k < |mergeFields| && mergeFields[k].1 != mergeFields[k].0 && c == Name(mergeFields[k].0) by {
      forall c ensures c in Select(all, keep) <==> exists k :: 0 <= k < |mergeFields| && mergeFields[k].1 != mergeFields[k].0 && c == Name(mergeFields[k].0) {
        SelectMembers(all, keep, c);
        if exists k :: 0 <= k < |mergeFields| && mergeFields[k].1 != mergeFields[k].0 && c == Name(mergeFields[k].0) {
          var k :| 0 <= k < |mergeFields| && mergeFields[k].1 != mergeFields[k].0 && c == Name(mergeFields[k].0);
          assert keep[k] && all[k] == c;
        }
      }
    }
    Select(all, keep)
  }

  /** The same columns under the label the merge gave them: suffixed when the target
      table has a column of that name. */
  function KeyDrops(mergeFields: seq<(string, string)>, target: seq<Label>): (r: seq<Label>)
    ensures forall c :: c in r <==> exists k :: (0 <= k < |mergeFields| && mergeFields[k].1 != mergeFields[k].0 &&
      c == RightLabel(Name(mergeFields[k].0), target))
  {
    var all := seq(|mergeFields|, k requires 0 <= k < |mergeFields| => RightLabel(Name(mergeFields[k].0), target));
    var keep := seq(|mergeFields|, k requires 0 <= k < |mergeFields| => mergeFields[k].1 != mergeFields[k].0);
    assert forall c :: c in Select(all, keep) <==> exists k :: (0 <= k < |mergeFields| && mergeFields[k].1 != mergeFields[k].0 &&
      c == RightLabel(Name(mergeFields[k].0), target)) by {
      forall c ensures c in Select(all, keep) <==> exists k :: (0 <= k < |mergeFields| && mergeFields[k].1 != mergeFields[k].0 &&
        c == RightLabel(Name(mergeFields[k].0), target))
      {
        SelectMembers(all, keep, c);
        if exists k :: 0 <= k < |mergeFields| && mergeFields[k].1 != mergeFields[k].0 && c == RightLabel(Name(mergeFields[k].0), target) {
          var k :| 0 <= k < |mergeFields| && mergeFields[k].1 != mergeFields[k].0 && c == RightLabel(Name(mergeFields[k].0), target);
          assert keep[k] && all[k] == c;
        }
      }
    }
    Select(all, keep)
  }

  /** The extension table selected and renamed as the merge receives it. */
  function Extension(ext: Frame, mergeFields: seq<(string, string)>, added: seq<(string, string)>): Result<Frame>
  {
    match Project(ext, ExtensionColumns(mergeFields, added))
    case Err(e) => Err(e)
    case Ok(p) => Ok(Rename(p, added))
  }

  /** The merged and updated table, before the drop. */
  function Updated(target: Frame, ext: Frame, mergeFields: seq<(string, string)>, added: seq<(string, string)>,
                   replace: bool): Result<Frame>
  {
    match Extension(ext, mergeFields, added)
    case Err(e) => Err(e)
    case Ok(renamed) =>
      match MergeFrames(target, renamed, JoinKeys(mergeFields), LeftJoin)
      case Err(e) => Err(e)
      case Ok(merged) => UpdateAll(merged, Targets(added), replace)
  }

  /** The new table as written: the extension key columns are dropped by their
      unsuffixed names. */
  function AttributesResultAsWritten(target: Frame, ext: Frame, mergeFields: seq<(string, string)>,
                                     added: seq<(string, string)>, replace: bool): (r: Result<Frame>)
    ensures r.Ok? ==> forall k :: 0 <= k < |added| ==> Suffixed(Name(added[k].1)) !in r.value.columns
    ensures r.Ok? ==> forall k :: 0 <= k < |mergeFields| && mergeFields[k].1 != mergeFields[k].0 ==>
      Name(mergeFields[k].0) !in r.value.columns
  {
    match Updated(target, ext, mergeFields, added, replace)
    case Err(e) => Err(e)
    case Ok(updated) =>
      KeysDroppedAsWritten(updated, added, mergeFields);
      Drop(updated, StaleColumns(updated.columns, added) + KeyDropsAsWritten(mergeFields))
  }

  /** The new table: the extension key columns are dropped under the labels the merge
      gave them. */
  function AttributesResult(target: Frame, ext: Frame, mergeFields: seq<(string, string)>,
                            added: seq<(string, string)>, replace: bool): (r: Result<Frame>)
    ensures r.Ok? ==> forall k :: 0 <= k < |added| ==> Suffixed(Name(added[k].1)) !in r.value.columns
    ensures r.Ok? ==> forall k :: 0 <= k < |mergeFields| && mergeFields[k].1 != mergeFields[k].0 ==>
      RightLabel(Name(mergeFields[k].0), target.columns) !in r.value.columns
  {
    match Updated(target, ext, mergeFields, added, replace)
    case Err(e) => Err(e)
    case Ok(updated) =>
      KeysDropped(updated, added, mergeFields, target.columns);
      Drop(updated, StaleColumns(updated.columns, added) + KeyDrops(mergeFields, target.columns))
  }

  /** Dropping the `_new` columns and some key columns leaves none of either. */
  lemma HelpersDropped(updated: Frame, added: seq<(string, string)>, keyDrops: seq<Label>)
    ensures var r := Drop(updated, StaleColumns(updated.columns, added) + keyDrops);
      && (r.Ok? ==> forall k :: 0 <= k < |added| ==> Suffixed(Name(added[k].1)) !in r.value.columns)
      && (r.Ok? ==> forall c :: c in keyDrops ==> c !in r.value.columns)
  {
  }

  lemma KeysDroppedAsWritten(updated: Frame, added: seq<(string, string)>, mergeFields: seq<(string, string)>)
    ensures var r := Drop(updated, StaleColumns(updated.columns, added) + KeyDropsAsWritten(mergeFields));
      && (r.Ok? ==> forall k :: 0 <= k < |added| ==> Suffixed(Name(added[k].1)) !in r.value.columns)
      && (r.Ok? ==> forall k :: 0 <= k < |mergeFields| && mergeFields[k].1 != mergeFields[k].0 ==>
            Name(mergeFields[k].0) !in r.value.columns)
  {
    var drops := KeyDropsAsWritten(mergeFields);
    HelpersDropped(updated, added, drops);
    forall k | 0 <= k < |mergeFields| && mergeFields[k].1 != mergeFields[k].0
      ensures Name(mergeFields[k].0) in drops
    {
    }
  }

  lemma KeysDropped(updated: Frame, added: seq<(string, string)>, mergeFields: seq<(string, string)>, target: seq<Label>)
    ensures var r := Drop(updated, StaleColumns(updated.columns, added) + KeyDrops(mergeFields, target));
      && (r.Ok? ==> forall k :: 0 <= k < |added| ==> Suffixed(Name(added[k].1)) !in r.value.columns)
      && (r.Ok? ==> forall k :: 0 <= k < |mergeFields| && mergeFields[k].1 != mergeFields[k].0 ==>
            RightLabel(Name(mergeFields[k].0), target) !in r.value.columns)
  {
    var drops := KeyDrops(mergeFields, target);
    HelpersDropped(updated, added, drops);
    forall k | 0 <= k < |mergeFields| && mergeFields[k].1 != mergeFields[k].0
      ensures RightLabel(Name(mergeFields[k].0), target) in drops
    {
    }
  }

  /** Applies the update of every added attribute in order, repeats included; the
      first `KeyError` stops it. */
  method UpdateColumns(merged0: Frame, added: seq<(string, string)>, replace: bool) returns (r: Result<Frame>)
    ensures r == UpdateAll(merged0, Targets(added), replace)
  {
    var merged := merged0;
    var targets := Targets(added);
    var i := 0;
    while i < |added|
      invariant 0 <= i <= |added|
      invariant UpdateAll(merged0, targets[..i], replace) == Ok(merged)
    {
      var c := added[i].1;
      assert targets[..i + 1] == targets[..i] + [c];
      UpdateAllSnoc(merged0, targets[..i], c, replace);
      var updated := Update(merged, c, replace);
      if updated.Err? {
        UpdateAllPrefixErr(merged0, targets, i + 1, replace);
        return Err(updated.error);
      }
      merged := updated.value;
      i := i + 1;
    }
    assert targets[..i] == targets;
    return Ok(merged);
  }

  /** The steps of the upsert on the chosen table: select and rename the extension,
      merge it in, update the added attributes and drop the helper columns. */
  method UpsertedTable(target: Frame, ext: Frame, mergeFields: seq<(string, string)>,
                       added: seq<(string, string)>, replace: bool) returns (r: Result<Frame>)
    ensures r == AttributesResultAsWritten(target, ext, mergeFields, added, replace)
  {
    var renamed := Extension(ext, mergeFields, added);
    if renamed.Err? {
      return Err(renamed.error);
    }
    var merged := MergeFrames(target, renamed.value, JoinKeys(mergeFields), LeftJoin);
    if merged.Err? {
      return Err(merged.error);
    }
    var updated := UpdateColumns(merged.value, added, replace);
    if updated.Err? {
      return Err(updated.error);
    }
    var u := updated.value;
    r := Drop(u, StaleColumns(u.columns, added) + KeyDropsAsWritten(mergeFields));
  }

  /** Merges the extension into the chosen table ("objects", otherwise the events),
      updates the added attributes, drops the helper columns and replaces that table
      alone. */
  method Upsert(ocel: Ocel, ext: Frame, table: string, mergeFields: seq<(string, string)>,
                added: seq<(string, string)>, replace: bool) returns (err: Option<Error>)
    modifies ocel
    ensures var target := if table == "objects" then old(ocel.objects) else old(ocel.events);
      var r := AttributesResultAsWritten(target, ext, mergeFields, added, replace);
      && (r.Err? ==> err == Some(r.error) && ocel.objects == old(ocel.objects) && ocel.events == old(ocel.events))
      && (r.Ok? && table == "objects" ==> err.None? && ocel.objects == r.value && ocel.events == old(ocel.events))
      && (r.Ok? && table != "objects" ==> err.None? && ocel.events == r.value && ocel.objects == old(ocel.objects))
    ensures ocel.relations == old(ocel.relations) && ocel.objectChanges == old(ocel.objectChanges)
  {
    var target := if table == "objects" then ocel.objects else ocel.events;
    var r := UpsertedTable(target, ext, mergeFields, added, replace);
    if r.Err? {
      return Some(r.error);
    }
    if table == "objects" {
      ocel.objects := r.value;
    } else {
      ocel.events := r.value;
    }
    return None;
  }

  // ---------------------------------------------------------------------------
  // Properties

  /** No target column is named like a helper column of the merge. */
  predicate NoSuffixedTargets(target: Frame, renamed: Frame, added: seq<(string, string)>)
  {
    && NoClash(target.columns, renamed.columns)
    && forall k :: 0 <= k < |added| ==> Suffixed(Name(added[k].1)) !in target.columns
  }

  /** The stages of a successful upsert: the extension is selected, every extension
      key is one of its columns, the merge succeeds, the updates keep its columns, and
      the result is the drop of the helper columns. */
  lemma ResultStages(target: Frame, ext: Frame, mergeFields: seq<(string, string)>,
                     added: seq<(string, string)>, replace: bool)
    requires AttributesResult(target, ext, mergeFields, added, replace).Ok?
    ensures Extension(ext, mergeFields, added).Ok?
    ensures var renamed := Extension(ext, mergeFields, added).value;
      && (forall k :: 0 <= k < |mergeFields| ==> Name(mergeFields[k].0) in renamed.columns)
      && MergeFrames(target, renamed, JoinKeys(mergeFields), LeftJoin).Ok?
      && Updated(target, ext, mergeFields, added, replace) ==
           UpdateAll(MergeFrames(target, renamed, JoinKeys(mergeFields), LeftJoin).value, Targets(added), replace)
      && Updated(target, ext, mergeFields, added, replace).Ok?
      && Updated(target, ext, mergeFields, added, replace).value.columns ==
           MergedColumns(target.columns, renamed.columns, JoinKeys(mergeFields))
    ensures var updated := Updated(target, ext, mergeFields, added, replace).value;
      AttributesResult(target, ext, mergeFields, added, replace) ==
        Drop(updated, StaleColumns(updated.columns, added) + KeyDrops(mergeFields, target.columns))
  {
    var renamed := Extension(ext, mergeFields, added).value;
    var keys := JoinKeys(mergeFields);
    forall k | 0 <= k < |mergeFields| ensures Name(mergeFields[k].0) in renamed.columns {
      assert keys.rightOn[k] == Name(mergeFields[k].0);
      assert MissingColumn(renamed.columns, keys.rightOn).None?;
    }
  }

  /** The corrected drop keeps every column of the target table. */
  lemma TargetColumnsKept(target: Frame, ext: Frame, mergeFields: seq<(string, string)>,
                          added: seq<(string, string)>, replace: bool)
    requires AttributesResult(target, ext, mergeFields, added, replace).Ok?
    requires NoSuffixedTargets(target, Extension(ext, mergeFields, added).value, added)
    ensures forall c :: c in target.columns ==> c in AttributesResult(target, ext, mergeFields, added, replace).value.columns
  {
    ResultStages(target, ext, mergeFields, added, replace);
    var renamed := Extension(ext, mergeFields, added).value;
    var updated := Updated(target, ext, mergeFields, added, replace).value;
    forall k | 0 <= k < |mergeFields| ensures RightLabel(Name(mergeFields[k].0), target.columns) !in target.columns {
      assert Name(mergeFields[k].0) in renamed.columns;
    }
    TargetColumnsSurvive(updated, target.columns, renamed.columns, JoinKeys(mergeFields), added, mergeFields);
  }

  /** Target columns that are neither helper columns nor merge-labelled keys survive the drop. */
  lemma TargetColumnsSurvive(updated: Frame, targetColumns: seq<Label>, renamedColumns: seq<Label>, keys: Keys,
                             added: seq<(string, string)>, mergeFields: seq<(string, string)>)
    requires updated.columns == MergedColumns(targetColumns, renamedColumns, keys)
    requires forall k :: 0 <= k < |added| ==> Suffixed(Name(added[k].1)) !in targetColumns
    requires forall k :: 0 <= k < |mergeFields| ==> RightLabel(Name(mergeFields[k].0), targetColumns) !in targetColumns
    ensures var r := Drop(updated, StaleColumns(updated.columns, added) + KeyDrops(mergeFields, targetColumns));
      r.Ok? ==> forall c :: c in targetColumns ==> c in r.value.columns
  {
    forall c | c in targetColumns
      ensures c in updated.columns && c !in StaleColumns(updated.columns, added) + KeyDrops(mergeFields, targetColumns)
    {
      assert c !in StaleColumns(updated.columns, added);
      assert c !in KeyDrops(mergeFields, targetColumns);
    }
  }

  /** The updates leave alone a row whose merge-added cells are all missing. */
  lemma {:induction false} UpdatesKeepUnmatched(f: Frame, cs: seq<string>, replace: bool, i: nat, left: seq<Label>)
    requires UpdateAll(f, cs, replace).Ok? && i < |f.rows|
    requires forall c :: c in f.columns && c !in left ==> Cell(f.rows[i], c) == Missing
    requires forall k :: 0 <= k < |cs| ==> Suffixed(Name(cs[k])) !in left
    ensures forall c :: Cell(UpdateAll(f, cs, replace).value.rows[i], c) == Cell(f.rows[i], c)
    decreases |cs|
  {
    if cs != [] {
      var init := cs[..|cs| - 1];
      var c := cs[|cs| - 1];
      UpdatesKeepUnmatched(f, init, replace, i, left);
      var g := UpdateAll(f, init, replace).value;
      var h := Update(g, c, replace).value;
      assert Suffixed(Name(c)) !in left;
      forall l ensures Cell(h.rows[i], l) == Cell(g.rows[i], l) {
        if l == Name(c) && Suffixed(Name(c)) in g.columns {
          assert Cell(g.rows[i], Suffixed(Name(c))) == Missing;
        }
      }
    }
  }

  /** A left row no right row meets has a merged row of its own values, with every
      column the merge added missing. */
  lemma UnmatchedMergedRow(target: Frame, renamed: Frame, keys: Keys, o: nat) returns (i: nat)
    requires MergeFrames(target, renamed, keys, LeftJoin).Ok? && NoClash(target.columns, renamed.columns)
    requires o < |target.rows| && Matching(target.rows[o], renamed.rows, keys) == []
    ensures var merged := MergeFrames(target, renamed, keys, LeftJoin).value;
      && i < |merged.rows|
      && (forall c :: c in target.columns ==> Cell(merged.rows[i], c) == Cell(target.rows[o], c))
      && (forall c :: c in merged.columns && c !in target.columns ==> Cell(merged.rows[i], c) == Missing)
  {
    var merged := MergeFrames(target, renamed, keys, LeftJoin).value;
    LeftRowKept(target.rows, renamed.rows, target.columns, renamed.columns, keys, o);
    var m0 :| m0 in LeftRows(target.rows, renamed.rows, target.columns, renamed.columns, keys) &&
      (forall c :: c in target.columns ==> Cell(m0, c) == Cell(target.rows[o], c)) &&
      (forall c :: c in RightLabels(target.columns, renamed.columns, keys) ==> Cell(m0, c) == Missing);
    LeftMergeRows(target, renamed, keys);
    i :| 0 <= i < |merged.rows| && merged.rows[i] == m0;
  }

  /** A target row no extension row matches keeps all its values. */
  lemma UnmatchedRowKept(target: Frame, ext: Frame, mergeFields: seq<(string, string)>,
                         added: seq<(string, string)>, replace: bool, o: nat)
    requires AttributesResult(target, ext, mergeFields, added, replace).Ok?
    requires NoSuffixedTargets(target, Extension(ext, mergeFields, added).value, added)
    requires o < |target.rows|
    requires Matching(target.rows[o], Extension(ext, mergeFields, added).value.rows, JoinKeys(mergeFields)) == []
    ensures exists m :: (m in AttributesResult(target, ext, mergeFields, added, replace).value.rows &&
      forall c :: c in target.columns ==> Cell(m, c) == Cell(target.rows[o], c))
  {
    ResultStages(target, ext, mergeFields, added, replace);
    var renamed := Extension(ext, mergeFields, added).value;
    var keys := JoinKeys(mergeFields);
    var merged := MergeFrames(target, renamed, keys, LeftJoin).value;
    var i := UnmatchedMergedRow(target, renamed, keys, o);
    UpdatesKeepUnmatched(merged, Targets(added), replace, i, target.columns);
    TargetColumnsKept(target, ext, mergeFields, added, replace);
    var updated := UpdateAll(merged, Targets(added), replace).value;
    var drops := StaleColumns(updated.columns, added) + KeyDrops(mergeFields, target.columns);
    var out := AttributesResult(target, ext, mergeFields, added, replace).value;
    forall c | c in target.columns ensures Cell(out.rows[i], c) == Cell(target.rows[o], c) {
      assert c !in drops;
    }
    assert out.rows[i] in out.rows;
  }

  /** When no target row meets more than one extension row, the result has one row per
      target row, in order: row `i` holds target row `i`'s value in every target column
      it keeps other than the added attributes. */
  lemma OneRowPerTarget(target: Frame, ext: Frame, mergeFields: seq<(string, string)>,
                        added: seq<(string, string)>, replace: bool)
    requires AttributesResult(target, ext, mergeFields, added, replace).Ok?
    requires NoClash(target.columns, Extension(ext, mergeFields, added).value.columns)
    requires forall i :: 0 <= i < |target.rows| ==>
      |Matching(target.rows[i], Extension(ext, mergeFields, added).value.rows, JoinKeys(mergeFields))| <= 1
    ensures var out := AttributesResult(target, ext, mergeFields, added, replace).value;
      && |out.rows| == |target.rows|
      && forall i, c :: 0 <= i < |target.rows| && c in target.columns && c in out.columns && Untargeted(c, added) ==>
           Cell(out.rows[i], c) == Cell(target.rows[i], c)
  {
    ResultStages(target, ext, mergeFields, added, replace);
    var renamed := Extension(ext, mergeFields, added).value;
    var keys := JoinKeys(mergeFields);
    var merged := MergeFrames(target, renamed, keys, LeftJoin).value;
    LeftMergeOneToOne(target.rows, renamed.rows, target.columns, renamed.columns, keys);
    LeftMergeRows(target, renamed, keys);
    var updated := UpdateAll(merged, Targets(added), replace).value;
    var drops := StaleColumns(updated.columns, added) + KeyDrops(mergeFields, target.columns);
    UntargetedCellsKept(target, merged, updated, AttributesResult(target, ext, mergeFields, added, replace).value,
                        added, drops, replace);
  }

  /** A merge that keeps the target rows in place, then the updates and a drop, leave
      every untargeted target column that survives with its target values. */
  lemma UntargetedCellsKept(target: Frame, merged: Frame, updated: Frame, out: Frame,
                            added: seq<(string, string)>, drops: seq<Label>, replace: bool)
    requires |merged.rows| == |target.rows|
    requires forall i, c :: 0 <= i < |target.rows| && c in target.columns ==> Cell(merged.rows[i], c) == Cell(target.rows[i], c)
    requires UpdateAll(merged, Targets(added), replace) == Ok(updated)
    requires Drop(updated, drops) == Ok(out)
    ensures |out.rows| == |target.rows|
    ensures forall i, c :: 0 <= i < |target.rows| && c in target.columns && c in out.columns && Untargeted(c, added) ==>
      Cell(out.rows[i], c) == Cell(target.rows[i], c)
  {
    forall i, c | 0 <= i < |target.rows| && c in target.columns && c in out.columns && Untargeted(c, added)
      ensures Cell(out.rows[i], c) == Cell(target.rows[i], c)
    {
      assert forall k :: 0 <= k < |Targets(added)| ==> c != Name(Targets(added)[k]);
      assert c !in drops;
    }
  }

  // ---------------------------------------------------------------------------
  // The replace policy on the new table

  /** The extension side of every key pair, as labels. */
  function KeyLabels(mergeFields: seq<(string, string)>): (ls: seq<Label>)
    ensures |ls| == |mergeFields| && forall j :: 0 <= j < |mergeFields| ==> ls[j] == Name(mergeFields[j].0)
  {
    seq(|mergeFields|, j requires 0 <= j < |mergeFields| => Name(mergeFields[j].0))
  }

  /** Added attributes with distinct sources and new names, and extension keys that
      are neither a source nor a new name, nor a new name with "_new" appended or the
      other way round. */
  predicate ExtensionApart(mergeFields: seq<(string, string)>, added: seq<(string, string)>)
  {
    && DistinctAttributes(added)
    && forall j, k :: 0 <= j < |mergeFields| && 0 <= k < |added| ==>
      && mergeFields[j].0 != added[k].0 && mergeFields[j].0 != added[k].1
      && mergeFields[j].0 != added[k].1 + "_new" && added[k].1 != mergeFields[j].0 + "_new"
  }

  /** The extension and target names keep apart, and no extension column lands,
      suffixed, on a target column. */
  predicate AttributesApart(columns: seq<Label>, mergeFields: seq<(string, string)>, added: seq<(string, string)>)
  {
    ExtensionApart(mergeFields, added) && NoClash(columns, TargetLabels(added) + KeyLabels(mergeFields))
  }

  /** A target row and an extension row matching on every key pair, each added
      attribute resolved by the replace policy from the extension's source value and
      the row's old value, and every other target column unchanged. */
  lemma MatchedRowResolved(target: Frame, ext: Frame, mergeFields: seq<(string, string)>,
                           added: seq<(string, string)>, replace: bool, o: nat, n: nat)
    requires AttributesResult(target, ext, mergeFields, added, replace).Ok?
    requires AttributesApart(target.columns, mergeFields, added)
    requires o < |target.rows| && n < |ext.rows| && KeysEqual(target.rows[o], ext.rows[n], JoinKeys(mergeFields))
    ensures exists m :: (m in AttributesResult(target, ext, mergeFields, added, replace).value.rows &&
      ResolvedRow(m, target.columns, target.rows[o], ext.rows[n], added, replace))
  {
    ResultStages(target, ext, mergeFields, added, replace);
    var keys := JoinKeys(mergeFields);
    var renamed := Extension(ext, mergeFields, added).value;
    var merged := MergeFrames(target, renamed, keys, LeftJoin).value;
    ExtensionRowCells(ext, mergeFields, added, n);
    RenamedKeysEqual(target.rows[o], ext.rows[n], renamed.rows[n], mergeFields);
    var i := MatchedMergedFacts(target, renamed, mergeFields, added, o, n, ext.rows[n]);
    var updated := UpdateAll(merged, Targets(added), replace).value;
    assert AttributesResult(target, ext, mergeFields, added, replace) ==
      Drop(updated, StaleColumns(updated.columns, added) + KeyDrops(mergeFields, target.columns));
    AttributesRow(target, merged, mergeFields, added, replace, i, target.rows[o], ext.rows[n]);
  }

  /** A row matching an extension row on the keys matches its renamed row too. */
  lemma RenamedKeysEqual(l: Row, extRow: Row, renamedRow: Row, mergeFields: seq<(string, string)>)
    requires KeysEqual(l, extRow, JoinKeys(mergeFields))
    requires forall j :: 0 <= j < |mergeFields| ==> Cell(renamedRow, Name(mergeFields[j].0)) == Cell(extRow, Name(mergeFields[j].0))
    ensures KeysEqual(l, renamedRow, JoinKeys(mergeFields))
  {
  }

  /** The row a left merge makes of a target row and a matching extension row holds
      the target row's values, the extension's values and the `_new` helpers. */
  lemma MatchedMergedFacts(target: Frame, renamed: Frame, mergeFields: seq<(string, string)>,
                           added: seq<(string, string)>, o: nat, n: nat, given: Row) returns (i: nat)
    requires MergeFrames(target, renamed, JoinKeys(mergeFields), LeftJoin).Ok?
    requires AttributesApart(target.columns, mergeFields, added)
    requires renamed.columns == TargetLabels(added) + KeyLabels(mergeFields)
    requires o < |target.rows| && n < |renamed.rows| && KeysEqual(target.rows[o], renamed.rows[n], JoinKeys(mergeFields))
    requires forall k :: 0 <= k < |added| ==> Cell(renamed.rows[n], Name(added[k].1)) == Cell(given, Name(added[k].0))
    ensures var merged := MergeFrames(target, renamed, JoinKeys(mergeFields), LeftJoin).value;
      i < |merged.rows| && MergedFacts(merged.rows[i], merged.columns, target.columns, target.rows[o], given, added)
  {
    var keys := JoinKeys(mergeFields);
    var merged := MergeFrames(target, renamed, keys, LeftJoin).value;
    var l, r := target.rows[o], renamed.rows[n];
    MatchedRowIncluded(target.rows, renamed.rows, target.columns, renamed.columns, keys, o, n);
    var m0 := Combine(Some(l), Some(r), target.columns, renamed.columns, keys);
    LeftMergeRows(target, renamed, keys);
    i :| 0 <= i < |merged.rows| && merged.rows[i] == m0;
    forall c | c in target.columns ensures Cell(m0, c) == Cell(l, c) {
      LeftCells(l, Some(r), target.columns, renamed.columns, keys, c);
    }
    AttributeTargetsApart(mergeFields, added);
    CombinedFacts(Some(l), r, target.columns, renamed.columns, keys, added, l, given);
  }

  /** The updates and the drop of the attribute upsert keep merged row `i` as a
      resolved row of the new table. */
  lemma AttributesRow(target: Frame, merged: Frame, mergeFields: seq<(string, string)>,
                      added: seq<(string, string)>, replace: bool, i: nat, before: Row, given: Row)
    requires AttributesApart(target.columns, mergeFields, added)
    requires UpdateAll(merged, Targets(added), replace).Ok?
    requires Drop(UpdateAll(merged, Targets(added), replace).value,
                  StaleColumns(UpdateAll(merged, Targets(added), replace).value.columns, added) +
                  KeyDrops(mergeFields, target.columns)).Ok?
    requires i < |merged.rows|
    requires MergedFacts(merged.rows[i], merged.columns, target.columns, before, given, added)
    ensures var updated := UpdateAll(merged, Targets(added), replace).value;
      exists m :: (m in Drop(updated, StaleColumns(updated.columns, added) + KeyDrops(mergeFields, target.columns)).value.rows &&
        ResolvedRow(m, target.columns, before, given, added, replace))
  {
    var extra := KeyDrops(mergeFields, target.columns);
    KeyDropsApart(target.columns, mergeFields, added);
    FinalRow(merged, Targets(added), extra, added, replace, i, target.columns, before, given);
    var updated := UpdateAll(merged, Targets(added), replace).value;
    var out := Drop(updated, StaleColumns(updated.columns, added) + extra).value;
    assert out.rows[i] in out.rows;
  }

  /** The extension key columns dropped are neither new names nor target columns, and
      no new name with "_new" appended is a target column. */
  lemma KeyDropsApart(columns: seq<Label>, mergeFields: seq<(string, string)>, added: seq<(string, string)>)
    requires AttributesApart(columns, mergeFields, added)
    ensures forall k :: 0 <= k < |added| ==>
      Suffixed(Name(added[k].1)) !in columns && Name(added[k].1) !in KeyDrops(mergeFields, columns)
    ensures forall c :: c in columns ==> c !in KeyDrops(mergeFields, columns)
  {
    var right := TargetLabels(added) + KeyLabels(mergeFields);
    forall k | 0 <= k < |added|
      ensures Suffixed(Name(added[k].1)) !in columns && Name(added[k].1) !in KeyDrops(mergeFields, columns)
    {
      assert right[k] == Name(added[k].1);
      forall j | 0 <= j < |mergeFields| ensures Name(added[k].1) != RightLabel(Name(mergeFields[j].0), columns) {
        assert mergeFields[j].0 != added[k].1 && added[k].1 != mergeFields[j].0 + "_new";
      }
    }
    forall c | c in columns ensures c !in KeyDrops(mergeFields, columns) {
      forall j | 0 <= j < |mergeFields| ensures c != RightLabel(Name(mergeFields[j].0), columns) {
        assert right[|added| + j] == Name(mergeFields[j].0);
      }
    }
  }

  /** Every new name reaches the merge as a right column of its own. */
  lemma AttributeTargetsApart(mergeFields: seq<(string, string)>, added: seq<(string, string)>)
    requires ExtensionApart(mergeFields, added)
    ensures forall k :: 0 <= k < |added| ==>
      var right := TargetLabels(added) + KeyLabels(mergeFields);
      Name(added[k].1) in right && !SharedKey(Name(added[k].1), JoinKeys(mergeFields)) &&
      LabelApart(Name(added[k].1), right, JoinKeys(mergeFields))
  {
    var right := TargetLabels(added) + KeyLabels(mergeFields);
    var keys := JoinKeys(mergeFields);
    forall k | 0 <= k < |added|
      ensures Name(added[k].1) in right && !SharedKey(Name(added[k].1), keys) && LabelApart(Name(added[k].1), right, keys)
    {
      var c := Name(added[k].1);
      assert right[k] == c;
      forall a | a in right && !SharedKey(a, keys) && a != c
        ensures a != Suffixed(c) && c != Suffixed(a) && Suffixed(a) != Suffixed(c)
      {
        var x :| 0 <= x < |right| && right[x] == a;
        assert added[k].1 in Targets(added);
        if x < |added| {
          assert a == Name(added[x].1) && added[x].1 in Targets(added);
          if Suffixed(a) == Suffixed(c) {
            SuffixedInjective(added[x].1, added[k].1);
          }
        } else {
          var j := x - |added|;
          assert a == Name(mergeFields[j].0);
          assert mergeFields[j].0 != added[k].1 && mergeFields[j].0 != added[k].1 + "_new";
          assert added[k].1 != mergeFields[j].0 + "_new";
          if Suffixed(a) == Suffixed(c) {
            SuffixedInjective(mergeFields[j].0, added[k].1);
          }
        }
      }
    }
  }

  /** The extension is renamed to the new names followed by its keys, and a renamed
      row holds its source values under the new names and its own key values. */
  lemma ExtensionRowCells(ext: Frame, mergeFields: seq<(string, string)>, added: seq<(string, string)>, n: nat)
    requires ExtensionApart(mergeFields, added)
    requires Extension(ext, mergeFields, added).Ok? && n < |ext.rows|
    ensures var renamed := Extension(ext, mergeFields, added).value;
      && renamed.columns == TargetLabels(added) + KeyLabels(mergeFields)
      && n < |renamed.rows|
      && (forall k :: 0 <= k < |added| ==> Cell(renamed.rows[n], Name(added[k].1)) == Cell(ext.rows[n], Name(added[k].0)))
      && forall j :: 0 <= j < |mergeFields| ==> Cell(renamed.rows[n], Name(mergeFields[j].0)) == Cell(ext.rows[n], Name(mergeFields[j].0))
  {
    var cols := ExtensionColumns(mergeFields, added);
    var p := Project(ext, cols).value;
    ExtensionRenamed(mergeFields, added);
    forall k | 0 <= k < |added| ensures Cell(RenameRow(p.rows[n], cols, added), Name(added[k].1)) == Cell(ext.rows[n], Name(added[k].0)) {
      RenamedSource(p.rows[n], mergeFields, added, k);
      assert cols[k] in cols;
    }
    forall j | 0 <= j < |mergeFields|
      ensures Cell(RenameRow(p.rows[n], cols, added), Name(mergeFields[j].0)) == Cell(ext.rows[n], Name(mergeFields[j].0))
    {
      RenamedKey(p.rows[n], mergeFields, added, j);
      assert cols[|added| + j] in cols;
    }
  }

  /** A renamed extension row holds each source value under its new name. */
  lemma RenamedSource(row: Row, mergeFields: seq<(string, string)>, added: seq<(string, string)>, k: nat)
    requires ExtensionApart(mergeFields, added) && k < |added|
    ensures Cell(RenameRow(row, ExtensionColumns(mergeFields, added), added), Name(added[k].1)) == Cell(row, Name(added[k].0))
  {
    var cols := ExtensionColumns(mergeFields, added);
    var labels := RenameColumns(cols, added);
    ExtensionRenamed(mergeFields, added);
    assert labels[k] == Name(added[k].1);
    forall i | 0 <= i < |cols| && cols[i] != Name(added[k].0) ensures RenameLabel(cols[i], added) != Name(added[k].1) {
      assert labels[i] == RenameLabel(cols[i], added);
      if i < |added| {
        assert labels[i] == Name(added[i].1);
        if i < k {
          assert added[i].1 != added[k].1;
        } else {
          assert added[k].1 != added[i].1;
        }
      } else {
        assert labels[i] == Name(mergeFields[i - |added|].0);
      }
    }
    RenamedCellFrom(row, cols, added, Name(added[k].0), Name(added[k].1));
  }

  /** A renamed extension row keeps each key value under the key's own name. */
  lemma RenamedKey(row: Row, mergeFields: seq<(string, string)>, added: seq<(string, string)>, j: nat)
    requires ExtensionApart(mergeFields, added) && j < |mergeFields|
    ensures Cell(RenameRow(row, ExtensionColumns(mergeFields, added), added), Name(mergeFields[j].0)) == Cell(row, Name(mergeFields[j].0))
  {
    var cols := ExtensionColumns(mergeFields, added);
    var labels := RenameColumns(cols, added);
    var e := Name(mergeFields[j].0);
    ExtensionRenamed(mergeFields, added);
    assert labels[|added| + j] == e;
    forall i | 0 <= i < |cols| && cols[i] != e ensures RenameLabel(cols[i], added) != e {
      assert labels[i] == RenameLabel(cols[i], added);
      if i < |added| {
        assert labels[i] == Name(added[i].1) && mergeFields[j].0 != added[i].1;
      } else {
        assert labels[i] == Name(mergeFields[i - |added|].0) == cols[i];
      }
    }
    RenamedCellFrom(row, cols, added, e, e);
  }

  /** Each source is renamed to its new name; the extension keys keep their names. */
  lemma ExtensionRenamed(mergeFields: seq<(string, string)>, added: seq<(string, string)>)
    requires ExtensionApart(mergeFields, added)
    ensures RenameColumns(ExtensionColumns(mergeFields, added), added) == TargetLabels(added) + KeyLabels(mergeFields)
  {
    forall k | 0 <= k < |added| ensures RenameLabel(Name(added[k].0), added) == Name(added[k].1) {
      RenameLastPair(added[k].0, added, k);
    }
    forall j | 0 <= j < |mergeFields| ensures RenameLabel(Name(mergeFields[j].0), added) == Name(mergeFields[j].0) {
      assert forall k :: 0 <= k < |added| ==> Name(mergeFields[j].0) != Name(added[k].0);
    }
  }

  /** When no extension key paired with a differently named target column is itself a
      target column, the drop as written and the corrected drop coincide. */
  lemma AsWrittenAgrees(target: Frame, ext: Frame, mergeFields: seq<(string, string)>,
                        added: seq<(string, string)>, replace: bool)
    requires forall j :: 0 <= j < |mergeFields| && mergeFields[j].1 != mergeFields[j].0 ==>
      Name(mergeFields[j].0) !in target.columns
    ensures AttributesResultAsWritten(target, ext, mergeFields, added, replace) ==
      AttributesResult(target, ext, mergeFields, added, replace)
  {
    var n := |mergeFields|;
    var all := seq(n, k requires 0 <= k < n => RightLabel(Name(mergeFields[k].0), target.columns));
    var written := seq(n, k requires 0 <= k < n => Name(mergeFields[k].0));
    var keep := seq(n, k requires 0 <= k < n => mergeFields[k].1 != mergeFields[k].0);
    SelectAgree(all, written, keep);
    assert KeyDrops(mergeFields, target.columns) == Select(all, keep);
    assert KeyDropsAsWritten(mergeFields) == Select(written, keep);
  }

  // ---------------------------------------------------------------------------
  // The key drop as written

  /** The key pair joining an extension's "name" column to the object id. */
  const NameKeyed: seq<(string, string)> := [("name", "ocel:oid")]

  /** The renamed extension key and the corrected drop list for a target with a "name" column. */
  lemma NameKeyedLabels()
    ensures RightLabel(Name("name"), [ObjectId, Name("name")]) == Name("name_new")
    ensures KeyDrops(NameKeyed, [ObjectId, Name("name")]) == [Name("name_new")]
    ensures KeyDropsAsWritten(NameKeyed) == [Name("name")]
  {
    assert Name("name") in [ObjectId, Name("name")];
    assert "name" + "_new" == "name_new";
  }

  /** Joining an extension's "name" to the object id of a table that also has a "name"
      column keeps the target's "name" and brings the extension key in as "name_new". */
  lemma NameKeyedMerge(target: Frame, ext: Frame)
    requires target.columns == [ObjectId, Name("name")] && ext.columns == [Name("name")]
    ensures Updated(target, ext, NameKeyed, [], true).Ok?
    ensures Updated(target, ext, NameKeyed, [], true).value.columns == [ObjectId, Name("name"), Name("name_new")]
  {
    NameKeyedLabels();
    var keys := JoinKeys(NameKeyed);
    assert keys == Keys([ObjectId], [Name("name")]);
    assert ExtensionColumns(NameKeyed, []) == [Name("name")];
    var renamed := Extension(ext, NameKeyed, []).value;
    assert renamed.columns == [Name("name")];
    assert !SharedKey(Name("name"), keys);
    assert RightColumns(renamed.columns, keys) == [Name("name")];
  }

  /** With the extension key "name" joined to the object id and a target column also
      called "name", the drop as written removes the target's own "name" column and
      keeps the extension's "name_new". */
  lemma KeyDropRemovesTargetColumn(target: Frame, ext: Frame)
    requires target.columns == [ObjectId, Name("name")] && ext.columns == [Name("name")]
    ensures var asWritten := AttributesResultAsWritten(target, ext, NameKeyed, [], true);
      && asWritten.Ok? && Name("name") !in asWritten.value.columns && Name("name_new") in asWritten.value.columns
  {
    NameKeyedLabels();
    NameKeyedMerge(target, ext);
    var updated := Updated(target, ext, NameKeyed, [], true).value;
    var drops := StaleColumns(updated.columns, []) + KeyDropsAsWritten(NameKeyed);
    assert drops == [Name("name")];
    assert MissingColumn(updated.columns, drops).None?;
  }

  /** The corrected drop keeps the target's "name" and removes "name_new". */
  lemma CorrectedKeyDropKeepsTargetColumn(target: Frame, ext: Frame)
    requires target.columns == [ObjectId, Name("name")] && ext.columns == [Name("name")]
    ensures var corrected := AttributesResult(target, ext, NameKeyed, [], true);
      && corrected.Ok? && Name("name") in corrected.value.columns && Name("name_new") !in corrected.value.columns
  {
    NameKeyedLabels();
    NameKeyedMerge(target, ext);
    var updated := Updated(target, ext, NameKeyed, [], true).value;
    var drops := StaleColumns(updated.columns, []) + KeyDrops(NameKeyed, target.columns);
    assert drops == [Name("name_new")];
    assert MissingColumn(updated.columns, drops).None?;
  }
}
