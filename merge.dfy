/** The table operations the upserts are made of: column selection, renaming, the
    key merge of two tables, `combine_first` and dropping columns. Rows keep their
    multiplicity; the row order of an outer merge is not modelled. */
module Merge {
  import opened Tables

  /** The first wanted label that is not a column, if any. */
  function MissingColumn(columns: seq<Label>, wanted: seq<Label>): (r: Option<Label>)
    ensures r.None? <==> forall k :: 0 <= k < |wanted| ==> wanted[k] in columns
    ensures r.Some? ==> r.value in wanted && r.value !in columns
  {
    if wanted == [] then None
    else if wanted[0] !in columns then Some(wanted[0])
    else
      assert forall k :: 0 < k < |wanted| ==> wanted[k] == wanted[1..][k - 1];
      MissingColumn(columns, wanted[1..])
  }

  // ---------------------------------------------------------------------------
  // Writing cells

  /** Writes the values under the labels, one after the other: a later label wins. */
  function SetCells(row: Row, labels: seq<Label>, values: seq<Value>): (r: Row)
    requires |labels| == |values|
    ensures forall c :: c in r <==> c in row || c in labels
    ensures forall c :: c !in labels ==> Cell(r, c) == Cell(row, c)
    decreases |labels|
  {
    if labels == [] then row
    else
      var n := |labels| - 1;
      SetCells(row, labels[..n], values[..n])[labels[n] := values[n]]
  }

  /** A written label holds the value written with its last occurrence. */
  lemma {:induction false} SetCellsIn(row: Row, labels: seq<Label>, values: seq<Value>, c: Label)
    requires |labels| == |values| && c in labels
    ensures exists i :: 0 <= i < |labels| && labels[i] == c && Cell(SetCells(row, labels, values), c) == values[i]
    decreases |labels|
  {
    var n := |labels| - 1;
    if labels[n] != c {
      assert c in labels[..n] by {
        var i :| 0 <= i < |labels| && labels[i] == c;
        assert labels[..n][i] == c;
      }
      SetCellsIn(row, labels[..n], values[..n], c);
      var i :| 0 <= i < n && labels[..n][i] == c && Cell(SetCells(row, labels[..n], values[..n]), c) == values[..n][i];
      assert labels[i] == c && values[i] == values[..n][i];
    } else {
      assert Cell(SetCells(row, labels, values), c) == values[n];
    }
  }

  /** A label written once holds its value. */
  lemma SetCellsAt(row: Row, labels: seq<Label>, values: seq<Value>, i: nat)
    requires |labels| == |values| && i < |labels|
    requires forall j :: 0 <= j < |labels| && j != i ==> labels[j] != labels[i]
    ensures Cell(SetCells(row, labels, values), labels[i]) == values[i]
  {
    SetCellsIn(row, labels, values, labels[i]);
  }

  // ---------------------------------------------------------------------------
  // Selecting and renaming columns

  /** `df[cols]`: the listed columns, or `KeyError` for the first one that is missing. */
  function Project(f: Frame, cols: seq<Label>): (r: Result<Frame>)
    ensures r.Err? <==> MissingColumn(f.columns, cols).Some?
    ensures r.Err? ==> r.error == KeyError(MissingColumn(f.columns, cols).value)
    ensures r.Ok? ==> (r.value.columns == cols && |r.value.rows| == |f.rows| &&
      forall i, c :: 0 <= i < |f.rows| && c in cols ==> Cell(r.value.rows[i], c) == Cell(f.rows[i], c))
  {
    var m := MissingColumn(f.columns, cols);
    if m.Some? then Err(KeyError(m.value))
    else Ok(Frame(cols, seq(|f.rows|, i requires 0 <= i < |f.rows| => map c | c in cols :: Cell(f.rows[i], c))))
  }

  /** The label `dict(pairs)` maps a column to: the last pair naming it decides, and a
      column no pair names keeps its label. */
  function RenameLabel(c: Label, pairs: seq<(string, string)>): (r: Label)
    ensures (forall k :: 0 <= k < |pairs| ==> c != Name(pairs[k].0)) ==> r == c
    ensures (exists k :: 0 <= k < |pairs| && c == Name(pairs[k].0)) ==>
      exists k :: 0 <= k < |pairs| && c == Name(pairs[k].0) && r == Name(pairs[k].1)
  {
    if pairs == [] then c
    else if c == Name(pairs[|pairs| - 1].0) then Name(pairs[|pairs| - 1].1)
    else
      var init := pairs[..|pairs| - 1];
      assert forall k :: 0 <= k < |init| ==> init[k] == pairs[k];
      RenameLabel(c, init)
  }

  /** A column named by a pair that no later pair names gets that pair's new name. */
  lemma {:induction false} RenameLastPair(a: string, pairs: seq<(string, string)>, k: nat)
    requires k < |pairs| && pairs[k].0 == a
    requires forall j :: k < j < |pairs| ==> pairs[j].0 != a
    ensures RenameLabel(Name(a), pairs) == Name(pairs[k].1)
    decreases |pairs|
  {
    if k < |pairs| - 1 {
      RenameLastPair(a, pairs[..|pairs| - 1], k);
    }
  }

  function RenameColumns(cols: seq<Label>, pairs: seq<(string, string)>): (r: seq<Label>)
    ensures |r| == |cols| && forall i :: 0 <= i < |cols| ==> r[i] == RenameLabel(cols[i], pairs)
  {
    seq(|cols|, i requires 0 <= i < |cols| => RenameLabel(cols[i], pairs))
  }

  function RenameRow(row: Row, cols: seq<Label>, pairs: seq<(string, string)>): Row
  {
    SetCells(map[], RenameColumns(cols, pairs), seq(|cols|, j requires 0 <= j < |cols| => Cell(row, cols[j])))
  }

  /** `df.rename(columns=dict(pairs))`. */
  function Rename(f: Frame, pairs: seq<(string, string)>): (r: Frame)
    ensures r.columns == RenameColumns(f.columns, pairs) && |r.rows| == |f.rows|
  {
    Frame(RenameColumns(f.columns, pairs),
          seq(|f.rows|, i requires 0 <= i < |f.rows| => RenameRow(f.rows[i], f.columns, pairs)))
  }

  /** A column whose new label no other column takes carries its value to that label. */
  lemma RenamedCell(row: Row, cols: seq<Label>, pairs: seq<(string, string)>, j: nat)
    requires j < |cols|
    requires forall i :: 0 <= i < |cols| && i != j ==> RenameLabel(cols[i], pairs) != RenameLabel(cols[j], pairs)
    ensures Cell(RenameRow(row, cols, pairs), RenameLabel(cols[j], pairs)) == Cell(row, cols[j])
  {
    SetCellsAt(map[], RenameColumns(cols, pairs), seq(|cols|, i requires 0 <= i < |cols| => Cell(row, cols[i])), j);
  }

  /** A renamed row holds, under a new label, the value of the one old column that
      every column renamed to that label comes from. */
  lemma RenamedCellFrom(row: Row, cols: seq<Label>, pairs: seq<(string, string)>, c: Label, target: Label)
    requires target in RenameColumns(cols, pairs)
    requires forall i :: 0 <= i < |cols| && RenameLabel(cols[i], pairs) == target ==> cols[i] == c
    ensures Cell(RenameRow(row, cols, pairs), target) == Cell(row, c)
  {
    var labels := RenameColumns(cols, pairs);
    var values := seq(|cols|, i requires 0 <= i < |cols| => Cell(row, cols[i]));
    SetCellsIn(map[], labels, values, target);
    var i :| 0 <= i < |labels| && labels[i] == target && Cell(SetCells(map[], labels, values), target) == values[i];
    assert cols[i] == c;
  }

  // ---------------------------------------------------------------------------
  // Merging on keys

  datatype How = Outer | LeftJoin

  /** The key columns of the two sides, position by position. */
  datatype Keys = Keys(leftOn: seq<Label>, rightOn: seq<Label>)

  /** Whether a left and a right row agree on every key; `merge` pairs missing keys
      with each other. */
  predicate KeysEqual(l: Row, r: Row, keys: Keys)
  {
    forall k :: 0 <= k < |keys.leftOn| && k < |keys.rightOn| ==> Cell(l, keys.leftOn[k]) == Cell(r, keys.rightOn[k])
  }

  /** A key with the same name on both sides becomes one column of the result. */
  predicate SharedKey(c: Label, keys: Keys)
  {
    exists k :: 0 <= k < |keys.leftOn| && k < |keys.rightOn| && keys.leftOn[k] == c && keys.rightOn[k] == c
  }

  /** The label with the suffix "_new" appended. */
  function Suffixed(c: Label): Label
  {
    match c
    case Name(n) => Name(n + "_new")
    case Position(i) => Name(DecimalString(i) + "_new")
  }

  /** The right columns that stay apart from the left ones. */
  function RightColumns(right: seq<Label>, keys: Keys): (r: seq<Label>)
    ensures forall c :: c in r <==> c in right && !SharedKey(c, keys)
  {
    if right == [] then []
    else (if SharedKey(right[0], keys) then [] else [right[0]]) + RightColumns(right[1..], keys)
  }

  /** A right column whose name the left side also has gets the suffix "_new"
      (`suffixes=("", "_new")`). */
  function RightLabel(c: Label, left: seq<Label>): Label
  {
    if c in left then Suffixed(c) else c
  }

  function RightLabels(left: seq<Label>, right: seq<Label>, keys: Keys): (r: seq<Label>)
    ensures |r| == |RightColumns(right, keys)|
    ensures forall i :: 0 <= i < |r| ==> r[i] == RightLabel(RightColumns(right, keys)[i], left)
  {
    var rc := RightColumns(right, keys);
    seq(|rc|, i requires 0 <= i < |rc| => RightLabel(rc[i], left))
  }

  function MergedColumns(left: seq<Label>, right: seq<Label>, keys: Keys): seq<Label>
  {
    left + RightLabels(left, right, keys)
  }

  /** One merged row from a left row, a right row, or both: a missing side leaves its
      columns missing, except that a shared key comes from whichever side is there. */
  function Combine(l: Option<Row>, r: Option<Row>, left: seq<Label>, right: seq<Label>, keys: Keys): Row
  {
    SetCells(SetCells(map[], left, LeftValues(l, r, left, keys)),
             RightLabels(left, right, keys), RightValues(r, RightColumns(right, keys)))
  }

  function LeftValues(l: Option<Row>, r: Option<Row>, left: seq<Label>, keys: Keys): (vs: seq<Value>)
    ensures |vs| == |left|
  {
    seq(|left|, i requires 0 <= i < |left| =>
      if l.Some? then Cell(l.value, left[i])
      else if r.Some? && SharedKey(left[i], keys) then Cell(r.value, left[i])
      else Missing)
  }

  function RightValues(r: Option<Row>, rc: seq<Label>): (vs: seq<Value>)
    ensures |vs| == |rc|
  {
    seq(|rc|, i requires 0 <= i < |rc| => if r.Some? then Cell(r.value, rc[i]) else Missing)
  }

  /** The right rows a left row meets, in right order. */
  function Matching(l: Row, right: seq<Row>, keys: Keys): seq<Row>
  {
    Select(right, seq(|right|, j requires 0 <= j < |right| => KeysEqual(l, right[j], keys)))
  }

  /** The merged rows of one left row: one per matching right row, or the left row
      alone when none matches. */
  function RowsFor(l: Row, right: seq<Row>, left: seq<Label>, rightCols: seq<Label>, keys: Keys): (rs: seq<Row>)
    ensures |rs| >= 1
  {
    var ms := Matching(l, right, keys);
    if ms == [] then [Combine(Some(l), None, left, rightCols, keys)]
    else seq(|ms|, j requires 0 <= j < |ms| => Combine(Some(l), Some(ms[j]), left, rightCols, keys))
  }

  /** The blocks one after the other. */
  function Concat<T>(blocks: seq<seq<T>>): seq<T>
  {
    if blocks == [] then [] else Concat(blocks[..|blocks| - 1]) + blocks[|blocks| - 1]
  }

  lemma {:induction false} ConcatIncludes<T>(blocks: seq<seq<T>>, i: nat, x: T)
    requires i < |blocks| && x in blocks[i]
    ensures x in Concat(blocks)
    decreases |blocks|
  {
    var n := |blocks| - 1;
    if i < n {
      assert blocks[..n][i] == blocks[i];
      ConcatIncludes(blocks[..n], i, x);
    }
  }

  /** Element `j` of block `k` sits after the elements of the blocks before it. */
  lemma {:induction false} ConcatAt<T>(blocks: seq<seq<T>>, k: nat, j: nat)
    requires k < |blocks| && j < |blocks[k]|
    ensures |Concat(blocks[..k])| + j < |Concat(blocks)|
    ensures Concat(blocks)[|Concat(blocks[..k])| + j] == blocks[k][j]
    decreases |blocks|
  {
    var n := |blocks| - 1;
    if k < n {
      assert blocks[..n][..k] == blocks[..k];
      ConcatAt(blocks[..n], k, j);
    } else {
      assert blocks[..k] == blocks[..n];
    }
  }

  function Blocks(lrows: seq<Row>, rrows: seq<Row>, left: seq<Label>, right: seq<Label>, keys: Keys): (b: seq<seq<Row>>)
    ensures |b| == |lrows| && forall i :: 0 <= i < |lrows| ==> b[i] == RowsFor(lrows[i], rrows, left, right, keys)
  {
    seq(|lrows|, i requires 0 <= i < |lrows| => RowsFor(lrows[i], rrows, left, right, keys))
  }

  /** The left-major merged rows: the rows of each left row in turn. */
  function LeftRows(lrows: seq<Row>, rrows: seq<Row>, left: seq<Label>, right: seq<Label>, keys: Keys): seq<Row>
  {
    Concat(Blocks(lrows, rrows, left, right, keys))
  }

  predicate Unmatched(r: Row, lrows: seq<Row>, keys: Keys)
  {
    forall i :: 0 <= i < |lrows| ==> !KeysEqual(lrows[i], r, keys)
  }

  /** The right rows no left row meets, each alone; only an outer merge keeps them. */
  function RightOnlyRows(lrows: seq<Row>, rrows: seq<Row>, left: seq<Label>, right: seq<Label>, keys: Keys): seq<Row>
  {
    var only := Select(rrows, seq(|rrows|, j requires 0 <= j < |rrows| => Unmatched(rrows[j], lrows, keys)));
    seq(|only|, j requires 0 <= j < |only| => Combine(None, Some(only[j]), left, right, keys))
  }

  /** The label pandas reports for the first key pair with a label missing from its
      side: the pairs are looked up in order, the right label of a pair before its left. */
  function MissingKeyPair(left: seq<Label>, right: seq<Label>, leftOn: seq<Label>, rightOn: seq<Label>): (r: Option<Label>)
    requires |leftOn| == |rightOn|
    ensures r.None? <==> forall k :: 0 <= k < |leftOn| ==> leftOn[k] in left && rightOn[k] in right
    ensures r.Some? ==> exists k :: (0 <= k < |leftOn|
      && (forall i :: 0 <= i < k ==> leftOn[i] in left && rightOn[i] in right)
      && (rightOn[k] !in right || leftOn[k] !in left)
      && r.value == if rightOn[k] !in right then rightOn[k] else leftOn[k])
  {
    if leftOn == [] then None
    else if rightOn[0] !in right then Some(rightOn[0])
    else if leftOn[0] !in left then Some(leftOn[0])
    else
      var r := MissingKeyPair(left, right, leftOn[1..], rightOn[1..]);
      assert forall k :: 0 < k < |leftOn| ==> leftOn[k] == leftOn[1..][k - 1] && rightOn[k] == rightOn[1..][k - 1];
      if r.Some? then
        var k :| 0 <= k < |leftOn[1..]|
          && (forall i :: 0 <= i < k ==> leftOn[1..][i] in left && rightOn[1..][i] in right)
          && (rightOn[1..][k] !in right || leftOn[1..][k] !in left)
          && r.value == if rightOn[1..][k] !in right then rightOn[1..][k] else leftOn[1..][k];
        assert forall i :: 0 <= i < k + 1 ==> leftOn[i] in left && rightOn[i] in right by {
          forall i | 0 < i < k + 1 ensures leftOn[i] in left && rightOn[i] in right {
            assert leftOn[i] == leftOn[1..][i - 1] && rightOn[i] == rightOn[1..][i - 1];
          }
        }
        r
      else r
  }

  /** `left.merge(right, left_on, right_on, how, suffixes=("", "_new"))`: key lists of
      different lengths raise `ValueError`, a key that is not a column `KeyError`. */
  function MergeFrames(left: Frame, right: Frame, keys: Keys, how: How): (r: Result<Frame>)
    ensures r.Err? <==> (|keys.leftOn| != |keys.rightOn|
      || MissingColumn(left.columns, keys.leftOn).Some? || MissingColumn(right.columns, keys.rightOn).Some?)
    ensures |keys.leftOn| != |keys.rightOn| ==> r == Err(ValueError("len(right_on) must equal len(left_on)"))
    ensures |keys.leftOn| == |keys.rightOn| && r.Err? ==>
      r.error == KeyError(MissingKeyPair(left.columns, right.columns, keys.leftOn, keys.rightOn).value)
    ensures r.Ok? ==> r.value.columns == MergedColumns(left.columns, right.columns, keys)
  {
    if |keys.leftOn| != |keys.rightOn| then Err(ValueError("len(right_on) must equal len(left_on)"))
    else
      var m := MissingKeyPair(left.columns, right.columns, keys.leftOn, keys.rightOn);
      if m.Some? then Err(KeyError(m.value))
      else
        var rows := LeftRows(left.rows, right.rows, left.columns, right.columns, keys);
        Ok(Frame(MergedColumns(left.columns, right.columns, keys),
                 if how == Outer then rows + RightOnlyRows(left.rows, right.rows, left.columns, right.columns, keys) else rows))
  }

  /** A successful left merge holds the left-major rows and nothing else. */
  lemma LeftMergeRows(left: Frame, right: Frame, keys: Keys)
    requires MergeFrames(left, right, keys, LeftJoin).Ok?
    ensures MergeFrames(left, right, keys, LeftJoin).value.rows == LeftRows(left.rows, right.rows, left.columns, right.columns, keys)
  {
  }

  /** With both keys of a pair absent, the right one is reported. */
  lemma RightKeyReportedFirst(a: Label, b: Label, how: How)
    requires a != b
    ensures MergeFrames(Frame([], []), Frame([], []), Keys([a], [b]), how) == Err(KeyError(b))
  {
  }

  // ---------------------------------------------------------------------------
  // What a merge keeps

  /** No right column, once suffixed, lands on a left column. */
  predicate NoClash(left: seq<Label>, right: seq<Label>)
  {
    forall c :: c in right ==> Suffixed(c) !in left
  }

  /** The right labels of the result are not left columns. */
  lemma RightLabelsApart(left: seq<Label>, right: seq<Label>, keys: Keys)
    requires NoClash(left, right)
    ensures forall c :: c in RightLabels(left, right, keys) ==> c !in left
  {
    var rl := RightLabels(left, right, keys);
    forall c | c in rl ensures c !in left {
      var i :| 0 <= i < |rl| && rl[i] == c;
      assert RightColumns(right, keys)[i] in RightColumns(right, keys);
    }
  }

  /** A merged row holds its left row's value in every left column. */
  lemma LeftCells(l: Row, r: Option<Row>, left: seq<Label>, right: seq<Label>, keys: Keys, c: Label)
    requires NoClash(left, right) && c in left
    ensures Cell(Combine(Some(l), r, left, right, keys), c) == Cell(l, c)
  {
    RightLabelsApart(left, right, keys);
    SetCellsIn(map[], left, LeftValues(Some(l), r, left, keys), c);
  }

  /** A row alone from the right holds its shared keys. */
  lemma SharedKeyCells(r: Row, left: seq<Label>, right: seq<Label>, keys: Keys, c: Label)
    requires NoClash(left, right) && c in left && SharedKey(c, keys)
    ensures Cell(Combine(None, Some(r), left, right, keys), c) == Cell(r, c)
  {
    RightLabelsApart(left, right, keys);
    SetCellsIn(map[], left, LeftValues(None, Some(r), left, keys), c);
  }

  /** A left row that meets nothing has every right label missing. */
  lemma UnmatchedRightCells(l: Row, left: seq<Label>, right: seq<Label>, keys: Keys, c: Label)
    requires NoClash(left, right) && c in RightLabels(left, right, keys)
    ensures Cell(Combine(Some(l), None, left, right, keys), c) == Missing
  {
    SetCellsIn(SetCells(map[], left, LeftValues(Some(l), None, left, keys)),
               RightLabels(left, right, keys), RightValues(None, RightColumns(right, keys)), c);
  }

  /** No other right column can take the label that `c` gets in the merge. */
  predicate LabelApart(c: Label, right: seq<Label>, keys: Keys)
  {
    forall a :: a in right && !SharedKey(a, keys) && a != c ==>
      a != Suffixed(c) && c != Suffixed(a) && Suffixed(a) != Suffixed(c)
  }

  /** Appending "_new" always changes a label. */
  lemma SuffixedNotSelf(c: Label)
    ensures Suffixed(c) != c
  {
    if c.Name? {
      assert |Suffixed(c).name| == |c.name| + 4;
    }
  }

  /** A merged row holds a right row's value under the label its column gets. */
  lemma RightCells(l: Option<Row>, r: Row, left: seq<Label>, right: seq<Label>, keys: Keys, c: Label)
    requires c in right && !SharedKey(c, keys) && LabelApart(c, right, keys)
    ensures Cell(Combine(l, Some(r), left, right, keys), RightLabel(c, left)) == Cell(r, c)
  {
    var rc := RightColumns(right, keys);
    var labels := RightLabels(left, right, keys);
    var k :| 0 <= k < |rc| && rc[k] == c;
    assert labels[k] == RightLabel(c, left);
    var base := SetCells(map[], left, LeftValues(l, Some(r), left, keys));
    SetCellsIn(base, labels, RightValues(Some(r), rc), RightLabel(c, left));
    var i :| 0 <= i < |labels| && labels[i] == RightLabel(c, left) &&
      Cell(SetCells(base, labels, RightValues(Some(r), rc)), RightLabel(c, left)) == RightValues(Some(r), rc)[i];
    assert rc[i] in rc;
    SuffixedNotSelf(c);
    SuffixedNotSelf(rc[i]);
  }

  /** The helper column `c_new` is in the merge exactly when the left side has `c`. */
  lemma SuffixedInMerged(left: seq<Label>, right: seq<Label>, keys: Keys, c: Label)
    requires NoClash(left, right) && c in right && !SharedKey(c, keys) && LabelApart(c, right, keys)
    ensures Suffixed(c) in MergedColumns(left, right, keys) <==> c in left
  {
    var rc := RightColumns(right, keys);
    var labels := RightLabels(left, right, keys);
    if c in left {
      var k :| 0 <= k < |rc| && rc[k] == c;
      assert labels[k] == Suffixed(c);
    } else if Suffixed(c) in labels {
      var k :| 0 <= k < |labels| && labels[k] == Suffixed(c);
      assert rc[k] in rc;
      SuffixedNotSelf(c);
    }
  }

  /** A merged row of a right row alone has every left column that is not a shared
      key missing. */
  lemma RightOnlyLeftCells(r: Row, left: seq<Label>, right: seq<Label>, keys: Keys, c: Label)
    requires NoClash(left, right) && c in left && !SharedKey(c, keys)
    ensures Cell(Combine(None, Some(r), left, right, keys), c) == Missing
  {
    RightLabelsApart(left, right, keys);
    SetCellsIn(map[], left, LeftValues(None, Some(r), left, keys), c);
  }

  /** A left row and a right row meeting on the keys give a merged row. */
  lemma MatchedRowIncluded(lrows: seq<Row>, rrows: seq<Row>, left: seq<Label>, right: seq<Label>, keys: Keys,
                           i: nat, j: nat)
    requires i < |lrows| && j < |rrows| && KeysEqual(lrows[i], rrows[j], keys)
    ensures Combine(Some(lrows[i]), Some(rrows[j]), left, right, keys) in LeftRows(lrows, rrows, left, right, keys)
  {
    var mask := seq(|rrows|, x requires 0 <= x < |rrows| => KeysEqual(lrows[i], rrows[x], keys));
    SelectMembers(rrows, mask, rrows[j]);
    var ms := Matching(lrows[i], rrows, keys);
    var t :| 0 <= t < |ms| && ms[t] == rrows[j];
    var m := Combine(Some(lrows[i]), Some(rrows[j]), left, right, keys);
    assert RowsFor(lrows[i], rrows, left, right, keys)[t] == m;
    RowsForIncluded(lrows, rrows, left, right, keys, i, m);
  }

  /** A right row no left row meets gives a merged row of its own. */
  lemma UnmatchedRowIncluded(lrows: seq<Row>, rrows: seq<Row>, left: seq<Label>, right: seq<Label>, keys: Keys, j: nat)
    requires j < |rrows| && Unmatched(rrows[j], lrows, keys)
    ensures Combine(None, Some(rrows[j]), left, right, keys) in RightOnlyRows(lrows, rrows, left, right, keys)
  {
    var mask := seq(|rrows|, x requires 0 <= x < |rrows| => Unmatched(rrows[x], lrows, keys));
    SelectMembers(rrows, mask, rrows[j]);
    var only := Select(rrows, mask);
    var t :| 0 <= t < |only| && only[t] == rrows[j];
    assert RightOnlyRows(lrows, rrows, left, right, keys)[t] == Combine(None, Some(rrows[j]), left, right, keys);
  }

  /** The left-major rows grow by the rows of the last left row. */
  lemma LeftRowsSnoc(lrows: seq<Row>, rrows: seq<Row>, left: seq<Label>, right: seq<Label>, keys: Keys)
    requires lrows != []
    ensures LeftRows(lrows, rrows, left, right, keys) ==
      LeftRows(lrows[..|lrows| - 1], rrows, left, right, keys) + RowsFor(lrows[|lrows| - 1], rrows, left, right, keys)
  {
    var n := |lrows| - 1;
    var b := Blocks(lrows, rrows, left, right, keys);
    assert b[..n] == Blocks(lrows[..n], rrows, left, right, keys);
  }

  /** Every merged row a left row gives is among the left-major rows. */
  lemma RowsForIncluded(lrows: seq<Row>, rrows: seq<Row>, left: seq<Label>, right: seq<Label>, keys: Keys,
                        i: nat, x: Row)
    requires i < |lrows| && x in RowsFor(lrows[i], rrows, left, right, keys)
    ensures x in LeftRows(lrows, rrows, left, right, keys)
  {
    ConcatIncludes(Blocks(lrows, rrows, left, right, keys), i, x);
  }

  /** The first merged row of a left row pairs it with its first match, if any. */
  function FirstMatch(l: Row, rrows: seq<Row>, keys: Keys): Option<Row>
  {
    var ms := Matching(l, rrows, keys);
    if ms == [] then None else Some(ms[0])
  }

  lemma FirstRowFor(l: Row, rrows: seq<Row>, left: seq<Label>, right: seq<Label>, keys: Keys)
    ensures RowsFor(l, rrows, left, right, keys)[0] == Combine(Some(l), FirstMatch(l, rrows, keys), left, right, keys)
  {
  }

  /** Every left row survives the merge with all its values, and one that meets no
      right row has every right column missing. */
  lemma LeftRowKept(lrows: seq<Row>, rrows: seq<Row>, left: seq<Label>, right: seq<Label>, keys: Keys, i: nat)
    requires i < |lrows| && NoClash(left, right)
    ensures exists m :: (m in LeftRows(lrows, rrows, left, right, keys) &&
      (forall c :: c in left ==> Cell(m, c) == Cell(lrows[i], c)) &&
      (Matching(lrows[i], rrows, keys) == [] ==> forall c :: c in RightLabels(left, right, keys) ==> Cell(m, c) == Missing))
  {
    var l := lrows[i];
    var m := Combine(Some(l), FirstMatch(l, rrows, keys), left, right, keys);
    FirstRowFor(l, rrows, left, right, keys);
    RowsForIncluded(lrows, rrows, left, right, keys, i, m);
    forall c | c in left ensures Cell(m, c) == Cell(l, c) {
      LeftCells(l, FirstMatch(l, rrows, keys), left, right, keys, c);
    }
    if Matching(l, rrows, keys) == [] {
      forall c | c in RightLabels(left, right, keys) ensures Cell(m, c) == Missing {
        UnmatchedRightCells(l, left, right, keys, c);
      }
    }
  }

  /** In an outer merge on keys of the same name every right row's keys appear too:
      with the left row it meets, or alone. */
  lemma RightKeysKept(lrows: seq<Row>, rrows: seq<Row>, left: seq<Label>, right: seq<Label>, keys: Keys, j: nat)
    requires j < |rrows| && NoClash(left, right)
    requires keys.leftOn == keys.rightOn && forall c :: c in keys.leftOn ==> c in left
    ensures exists m :: (m in LeftRows(lrows, rrows, left, right, keys) + RightOnlyRows(lrows, rrows, left, right, keys) &&
      KeysEqual(m, rrows[j], keys))
  {
    var r := rrows[j];
    if Unmatched(r, lrows, keys) {
      var mask := seq(|rrows|, x requires 0 <= x < |rrows| => Unmatched(rrows[x], lrows, keys));
      SelectMembers(rrows, mask, r);
      var only := Select(rrows, mask);
      var t :| 0 <= t < |only| && only[t] == r;
      var m := Combine(None, Some(r), left, right, keys);
      assert RightOnlyRows(lrows, rrows, left, right, keys)[t] == m;
      forall k | 0 <= k < |keys.leftOn| ensures Cell(m, keys.leftOn[k]) == Cell(r, keys.rightOn[k]) {
        SharedKeyCells(r, left, right, keys, keys.leftOn[k]);
      }
      assert m in LeftRows(lrows, rrows, left, right, keys) + RightOnlyRows(lrows, rrows, left, right, keys);
    } else {
      var i :| 0 <= i < |lrows| && KeysEqual(lrows[i], r, keys);
      var mask := seq(|rrows|, x requires 0 <= x < |rrows| => KeysEqual(lrows[i], rrows[x], keys));
      SelectMembers(rrows, mask, r);
      var ms := Matching(lrows[i], rrows, keys);
      var t :| 0 <= t < |ms| && ms[t] == r;
      var m := Combine(Some(lrows[i]), Some(r), left, right, keys);
      assert RowsFor(lrows[i], rrows, left, right, keys)[t] == m;
      RowsForIncluded(lrows, rrows, left, right, keys, i, m);
      forall k | 0 <= k < |keys.leftOn| ensures Cell(m, keys.leftOn[k]) == Cell(r, keys.rightOn[k]) {
        LeftCells(lrows[i], Some(r), left, right, keys, keys.leftOn[k]);
      }
      assert m in LeftRows(lrows, rrows, left, right, keys) + RightOnlyRows(lrows, rrows, left, right, keys);
    }
  }

  /** A left row meeting at most one right row gives exactly one merged row. */
  lemma SingleRowFor(l: Row, rrows: seq<Row>, left: seq<Label>, right: seq<Label>, keys: Keys)
    requires |Matching(l, rrows, keys)| <= 1
    ensures RowsFor(l, rrows, left, right, keys) == [Combine(Some(l), FirstMatch(l, rrows, keys), left, right, keys)]
  {
  }

  /** When every left row meets at most one right row, a left merge gives one row per
      left row, in order, each holding that left row's values. */
  lemma {:induction false} LeftMergeOneToOne(lrows: seq<Row>, rrows: seq<Row>, left: seq<Label>, right: seq<Label>, keys: Keys)
    requires NoClash(left, right)
    requires forall i :: 0 <= i < |lrows| ==> |Matching(lrows[i], rrows, keys)| <= 1
    ensures |LeftRows(lrows, rrows, left, right, keys)| == |lrows|
    ensures forall i, c :: 0 <= i < |lrows| && c in left ==> Cell(LeftRows(lrows, rrows, left, right, keys)[i], c) == Cell(lrows[i], c)
    decreases |lrows|
  {
    if lrows != [] {
      var n := |lrows| - 1;
      var init := lrows[..n];
      assert forall i :: 0 <= i < n ==> init[i] == lrows[i];
      LeftMergeOneToOne(init, rrows, left, right, keys);
      LeftRowsSnoc(lrows, rrows, left, right, keys);
      SingleRowFor(lrows[n], rrows, left, right, keys);
      var prev := LeftRows(init, rrows, left, right, keys);
      var last := Combine(Some(lrows[n]), FirstMatch(lrows[n], rrows, keys), left, right, keys);
      assert LeftRows(lrows, rrows, left, right, keys) == prev + [last];
      forall i, c | 0 <= i < |lrows| && c in left ensures Cell((prev + [last])[i], c) == Cell(lrows[i], c) {
        if i == n {
          LeftCells(lrows[n], FirstMatch(lrows[n], rrows, keys), left, right, keys, c);
        } else {
          assert (prev + [last])[i] == prev[i];
        }
      }
    }
  }

  // ---------------------------------------------------------------------------
  // combine_first and drop

  /** `a.combine_first(b)` on one row: `a` unless it is missing. */
  function CombineFirst(a: Value, b: Value): (r: Value)
    ensures !a.Missing? ==> r == a
    ensures a.Missing? ==> r == b
  {
    if a.Missing? then b else a
  }

  /** The value an upsert keeps: with `replace` a present new value wins over the old,
      otherwise a present old value wins over the new. */
  function Resolve(newValue: Value, oldValue: Value, replace: bool): (r: Value)
    ensures replace && !newValue.Missing? ==> r == newValue
    ensures replace && newValue.Missing? ==> r == oldValue
    ensures !replace && !oldValue.Missing? ==> r == oldValue
    ensures !replace && oldValue.Missing? ==> r == newValue
  {
    if replace then CombineFirst(newValue, oldValue) else CombineFirst(oldValue, newValue)
  }

  /** Resolving against an already resolved value changes nothing. */
  lemma ResolveIdempotent(newValue: Value, oldValue: Value, replace: bool)
    ensures Resolve(newValue, Resolve(newValue, oldValue, replace), replace) == Resolve(newValue, oldValue, replace)
  {
  }

  /** The update of one added column: when `<c>_new` is a column, `c` becomes the
      resolved value row by row (`c` itself must then be a column); otherwise nothing. */
  function Update(f: Frame, c: string, replace: bool): (r: Result<Frame>)
    ensures r.Err? <==> Suffixed(Name(c)) in f.columns && Name(c) !in f.columns
    ensures r.Ok? ==> r.value.columns == f.columns && |r.value.rows| == |f.rows|
    ensures r.Ok? && Suffixed(Name(c)) in f.columns ==> forall i :: 0 <= i < |f.rows| ==>
      Cell(r.value.rows[i], Name(c)) == Resolve(Cell(f.rows[i], Suffixed(Name(c))), Cell(f.rows[i], Name(c)), replace)
    ensures r.Ok? ==> forall i, l :: 0 <= i < |f.rows| && l != Name(c) ==> Cell(r.value.rows[i], l) == Cell(f.rows[i], l)
    ensures Suffixed(Name(c)) !in f.columns ==> r == Ok(f)
  {
    var s := Suffixed(Name(c));
    if s !in f.columns then Ok(f)
    else if Name(c) !in f.columns then Err(KeyError(Name(c)))
    else Ok(Frame(f.columns, seq(|f.rows|, i requires 0 <= i < |f.rows| =>
      f.rows[i][Name(c) := Resolve(Cell(f.rows[i], s), Cell(f.rows[i], Name(c)), replace)])))
  }

  /** Updating the same column twice in a row is updating it once. */
  lemma UpdateTwice(f: Frame, c: string, replace: bool)
    requires Update(f, c, replace).Ok?
    ensures Update(Update(f, c, replace).value, c, replace) == Update(f, c, replace)
  {
    var g := Update(f, c, replace).value;
    if Suffixed(Name(c)) in f.columns {
      assert Suffixed(Name(c)) != Name(c) by {
        assert |Suffixed(Name(c)).name| == |c| + 4;
      }
      var h := Update(g, c, replace).value;
      forall i | 0 <= i < |g.rows| ensures h.rows[i] == g.rows[i] {
        ResolveIdempotent(Cell(f.rows[i], Suffixed(Name(c))), Cell(f.rows[i], Name(c)), replace);
        assert Name(c) in g.rows[i];
        assert Cell(g.rows[i], Suffixed(Name(c))) == Cell(f.rows[i], Suffixed(Name(c)));
        assert h.rows[i] == g.rows[i][Name(c) := g.rows[i][Name(c)]];
      }
      assert h.rows == g.rows;
    }
  }

  /** The updates of the given columns in order, stopping at the first `KeyError`. */
  function UpdateAll(f: Frame, cs: seq<string>, replace: bool): (r: Result<Frame>)
    ensures r.Ok? ==> r.value.columns == f.columns && |r.value.rows| == |f.rows|
    ensures r.Ok? ==> forall i, l :: 0 <= i < |f.rows| && (forall k :: 0 <= k < |cs| ==> l != Name(cs[k])) ==>
      Cell(r.value.rows[i], l) == Cell(f.rows[i], l)
  {
    if cs == [] then Ok(f)
    else
      match UpdateAll(f, cs[..|cs| - 1], replace)
      case Err(e) => Err(e)
      case Ok(g) => Update(g, cs[|cs| - 1], replace)
  }

  /** Names none of which is another one with "_new" appended. */
  predicate SuffixApart(cs: seq<string>)
  {
    forall a, b :: a in cs && b in cs ==> a != b + "_new"
  }

  /** After the updates, an updated column holds the resolved value of its row when
      its `_new` column is there, and its old value otherwise; updating a column more
      than once resolves it once. */
  lemma {:induction false} UpdateAllCell(f: Frame, cs: seq<string>, replace: bool, i: nat, c: string)
    requires UpdateAll(f, cs, replace).Ok? && i < |f.rows| && c in cs && SuffixApart(cs)
    ensures Cell(UpdateAll(f, cs, replace).value.rows[i], Name(c)) ==
      if Suffixed(Name(c)) in f.columns then Resolve(Cell(f.rows[i], Suffixed(Name(c))), Cell(f.rows[i], Name(c)), replace)
      else Cell(f.rows[i], Name(c))
    decreases |cs|
  {
    var init, d := cs[..|cs| - 1], cs[|cs| - 1];
    assert cs == init + [d];
    var g := UpdateAll(f, init, replace).value;
    var s := Suffixed(Name(c));
    forall k | 0 <= k < |init| ensures s != Name(init[k]) {
      assert init[k] in cs;
    }
    assert Cell(g.rows[i], s) == Cell(f.rows[i], s);
    if c in init {
      assert SuffixApart(init) by {
        forall a, b | a in init && b in init ensures a != b + "_new" {
          assert a in cs && b in cs;
        }
      }
      UpdateAllCell(f, init, replace, i, c);
      if d == c && s in f.columns {
        ResolveIdempotent(Cell(f.rows[i], s), Cell(f.rows[i], Name(c)), replace);
      }
    }
  }

  /** `df.drop(columns=labels)`: `KeyError` for a label that is not a column. */
  function Drop(f: Frame, labels: seq<Label>): (r: Result<Frame>)
    ensures r.Err? <==> MissingColumn(f.columns, labels).Some?
    ensures r.Ok? ==> (|r.value.rows| == |f.rows| &&
      (forall c :: c in r.value.columns <==> c in f.columns && c !in labels) &&
      forall i, c :: 0 <= i < |f.rows| && c !in labels ==> Cell(r.value.rows[i], c) == Cell(f.rows[i], c))
  {
    var m := MissingColumn(f.columns, labels);
    if m.Some? then Err(KeyError(m.value))
    else
      var cols := Select(f.columns, seq(|f.columns|, i requires 0 <= i < |f.columns| => f.columns[i] !in labels));
      assert forall c :: c in cols <==> c in f.columns && c !in labels by {
        forall c ensures c in cols <==> c in f.columns && c !in labels {
          SelectMembers(f.columns, seq(|f.columns|, i requires 0 <= i < |f.columns| => f.columns[i] !in labels), c);
        }
      }
      Ok(Frame(cols, seq(|f.rows|, i requires 0 <= i < |f.rows| => f.rows[i] - set c | c in labels)))
  }
}
