/** Small table utilities: the display renaming of column labels, the LaTeX label
    prefix, swapping suffixed column pairs, concatenating frames, turning a
    multi-indexed series into nested dictionaries, and the sort key of a given order. */
module PandasUtil {
  import opened Tables
  import opened Merge

  // ---------------------------------------------------------------------------
  // Display names of columns

  /** The fixed display names of common columns. */
  const CommonColumnRenamer: map<string, string> :=
    map["ocel:type" := "Object type", "ocel:activity" := "Activity",
        "ocel:qualifier" := "Qualifier", "freq" := "Freq."]

  /** `s.split(sep)` for a one-character separator: the pieces between separators. */
  function Split(s: string, sep: char): (parts: seq<string>)
    ensures |parts| >= 1
    ensures forall k :: 0 <= k < |parts| ==> sep !in parts[k]
    decreases |s|
  {
    var i := FirstIndexOf(s, sep);
    if i == |s| then [s] else [s[..i]] + Split(s[i + 1..], sep)
  }

  /** `sep.join(parts)`. */
  function Join(sep: string, parts: seq<string>): string
  {
    if parts == [] then ""
    else if |parts| == 1 then parts[0]
    else parts[0] + sep + Join(sep, parts[1..])
  }

  /** Joining the pieces with the separator gives the string back. */
  lemma {:induction false} JoinSplit(s: string, sep: char)
    ensures Join([sep], Split(s, sep)) == s
    decreases |s|
  {
    var i := FirstIndexOf(s, sep);
    if i < |s| {
      JoinSplit(s[i + 1..], sep);
      assert Split(s, sep) == [s[..i]] + Split(s[i + 1..], sep);
      assert |Split(s[i + 1..], sep)| >= 1;
      assert s == s[..i] + [sep] + s[i + 1..];
    }
  }

  /** The string with every `_` written as a space. */
  function Spaced(s: string): (r: string)
  {
    seq(|s|, i requires 0 <= i < |s| => if s[i] == '_' then ' ' else s[i])
  }

  /** Joining the pieces between underscores with spaces puts a space for each `_`. */
  lemma {:induction false} JoinSpaced(s: string)
    ensures Join(" ", Split(s, '_')) == Spaced(s)
    decreases |s|
  {
    var i := FirstIndexOf(s, '_');
    if i < |s| {
      JoinSpaced(s[i + 1..]);
      assert Split(s, '_') == [s[..i]] + Split(s[i + 1..], '_');
      assert |Split(s[i + 1..], '_')| >= 1;
      SpacedFirstUnderscore(s, i);
    } else {
      assert Spaced(s) == s;
    }
  }

  /** Up to the first `_` nothing changes; the `_` becomes a space. */
  lemma SpacedFirstUnderscore(s: string, i: nat)
    requires i < |s| && s[i] == '_' && forall j :: 0 <= j < i ==> s[j] != '_'
    ensures s[..i] + " " + Spaced(s[i + 1..]) == Spaced(s)
  {
    var r := s[..i] + " " + Spaced(s[i + 1..]);
    forall j | 0 <= j < |s| ensures r[j] == Spaced(s)[j] {
      if j > i {
        assert r[j] == Spaced(s[i + 1..])[j - i - 1];
      }
    }
  }

  function Upper(c: char): char
  {
    if 'a' <= c <= 'z' then (c as int - 32) as char else c
  }

  function Lower(c: char): char
  {
    if 'A' <= c <= 'Z' then (c as int + 32) as char else c
  }

  /** `str.capitalize()` on ASCII letters: the first upper case, the rest lower case. */
  function Capitalize(w: string): (r: string)
    ensures |r| == |w|
  {
    if w == [] then [] else [Upper(w[0])] + seq(|w| - 1, i requires 0 <= i < |w| - 1 => Lower(w[i + 1]))
  }

  /** `auto_renamer`: a common column's fixed name; otherwise the words between
      underscores joined with spaces, the first word capitalised. */
  function AutoRename(s: string): string
  {
    if s in CommonColumnRenamer then CommonColumnRenamer[s]
    else
      var parts := Split(s, '_');
      Join(" ", [Capitalize(parts[0])] + parts[1..])
  }

  lemma SpacedAtUnderscore(t: string)
    requires |t| > 0 && t[0] == '_'
    ensures Spaced(t) == " " + Spaced(t[1..])
  {
  }

  /** Outside the common columns, the display name is the first word capitalised
      followed by the rest of the label with each `_` a space. */
  lemma {:induction false} AutoRenameShape(s: string)
    requires s !in CommonColumnRenamer
    ensures var w := FirstIndexOf(s, '_');
      AutoRename(s) == Capitalize(s[..w]) + Spaced(s[w..])
  {
    var w := FirstIndexOf(s, '_');
    AutoRenameOther(s);
    if w == |s| {
      SplitNone(s);
      assert s[..w] == s && Spaced(s[w..]) == [];
    } else {
      JoinRestAtUnderscore(s, Capitalize(s[..w]));
      assert s[w..][1..] == s[w + 1..];
      SpacedAtUnderscore(s[w..]);
    }
  }

  lemma AutoRenameOther(s: string)
    requires s !in CommonColumnRenamer
    ensures AutoRename(s) == Join(" ", [Capitalize(Split(s, '_')[0])] + Split(s, '_')[1..])
  {
  }

  lemma {:induction false} SplitNone(s: string)
    requires FirstIndexOf(s, '_') == |s|
    ensures Split(s, '_') == [s]
  {
  }

  /** Past the first underscore, the pieces joined with spaces are the rest spaced. */
  lemma {:induction false} JoinRestAtUnderscore(s: string, c: string)
    requires FirstIndexOf(s, '_') < |s|
    ensures var w := FirstIndexOf(s, '_');
      && Split(s, '_')[0] == s[..w]
      && Join(" ", [c] + Split(s, '_')[1..]) == c + " " + Spaced(s[w + 1..])
  {
    var w := FirstIndexOf(s, '_');
    var rest := Split(s[w + 1..], '_');
    SplitAt(s);
    assert Split(s, '_')[1..] == rest;
    JoinCons(c, rest);
    JoinSpaced(s[w + 1..]);
  }

  lemma {:induction false} SplitAt(s: string)
    requires FirstIndexOf(s, '_') < |s|
    ensures var w := FirstIndexOf(s, '_');
      Split(s, '_') == [s[..w]] + Split(s[w + 1..], '_')
  {
  }

  lemma {:induction false} JoinCons(c: string, rest: seq<string>)
    requires |rest| >= 1
    ensures Join(" ", [c] + rest) == c + " " + Join(" ", rest)
  {
    assert ([c] + rest)[1..] == rest;
  }

  /** Outside the common columns, the display name is the label character by
      character: each `_` a space, the first word capitalised, the rest unchanged. */
  lemma AutoRenameSpelledOut(s: string)
    requires s !in CommonColumnRenamer
    ensures var r := AutoRename(s);
      var w := FirstIndexOf(s, '_');
      && |r| == |s|
      && '_' !in r
      && forall i :: 0 <= i < |s| ==>
           r[i] == (if s[i] == '_' then ' ' else if i == 0 then Upper(s[0]) else if i < w then Lower(s[i]) else s[i])
  {
    AutoRenameShape(s);
    CapitalizedSpaced(s);
  }

  /** The first word capitalised followed by the rest with each `_` a space, character
      by character. */
  lemma CapitalizedSpaced(s: string)
    ensures var w := FirstIndexOf(s, '_');
      var r := Capitalize(s[..w]) + Spaced(s[w..]);
      && |r| == |s|
      && '_' !in r
      && forall i :: 0 <= i < |s| ==>
           r[i] == (if s[i] == '_' then ' ' else if i == 0 then Upper(s[0]) else if i < w then Lower(s[i]) else s[i])
  {
    var w := FirstIndexOf(s, '_');
    var r := Capitalize(s[..w]) + Spaced(s[w..]);
    forall i | 0 <= i < |s|
      ensures r[i] == (if s[i] == '_' then ' ' else if i == 0 then Upper(s[0]) else if i < w then Lower(s[i]) else s[i])
      ensures r[i] != '_'
    {
      CapitalizedSpacedAt(s, i);
    }
  }

  lemma CapitalizedSpacedAt(s: string, i: nat)
    requires i < |s|
    ensures var w := FirstIndexOf(s, '_');
      var r := Capitalize(s[..w]) + Spaced(s[w..]);
      && |r| == |s|
      && r[i] == (if s[i] == '_' then ' ' else if i == 0 then Upper(s[0]) else if i < w then Lower(s[i]) else s[i])
      && r[i] != '_'
  {
    var w := FirstIndexOf(s, '_');
    var c := Capitalize(s[..w]);
    var r := c + Spaced(s[w..]);
    if i < w {
      assert r[i] == c[i];
      assert s[..w][i] == s[i] != '_';
      if i == 0 {
        assert c[i] == Upper(s[0]);
      } else {
        assert c[i] == Lower(s[i]);
      }
    } else {
      assert r[i] == Spaced(s[w..])[i - w];
    }
  }

  /** The display names of a table's columns: the names given win, every other column
      gets its automatic name. */
  function ColumnRenamer(given: map<string, string>, columns: seq<string>): (m: map<string, string>)
    ensures forall c :: c in m <==> c in given || c in columns
    ensures forall c :: c in given ==> m[c] == given[c]
    ensures forall c :: c in columns && c !in given ==> m[c] == AutoRename(c)
  {
    given + map c | c in columns && c !in given :: AutoRename(c)
  }

  // ---------------------------------------------------------------------------
  // The LaTeX label

  const TablePrefix := "tab:"

  /** A table label gets the `tab:` prefix unless it already has it. */
  function TableLabel(name: string): (r: string)
    ensures StartsWith(r, TablePrefix)
    ensures r == name || r == TablePrefix + name
    ensures StartsWith(name, TablePrefix) <==> r == name
  {
    if StartsWith(name, TablePrefix) then name else TablePrefix + name
  }

  /** Prefixing twice is prefixing once. */
  lemma TableLabelIdempotent(name: string)
    ensures TableLabel(TableLabel(name)) == TableLabel(name)
  {
  }

  // ---------------------------------------------------------------------------
  // Mirroring suffixed column pairs

  /** One suffix ends with the other (the empty suffix ends every string). */
  predicate SuffixesNested(s1: string, s2: string)
  {
    EndsWith(s1, s2) || EndsWith(s2, s1)
  }

  /** `c[:-len(suffix)]` for a suffix `c` ends with. */
  function Base(c: string, suffix: string): string
    requires EndsWith(c, suffix)
  {
    c[..|c| - |suffix|]
  }

  lemma BaseAppend(b: string, suffix: string)
    ensures EndsWith(b + suffix, suffix) && Base(b + suffix, suffix) == b
  {
    assert (b + suffix)[|b|..] == suffix;
  }

  lemma BaseSplit(c: string, suffix: string)
    requires EndsWith(c, suffix)
    ensures Base(c, suffix) + suffix == c
  {
  }

  /** A string ending with two suffixes: the shorter ends the longer. */
  lemma BothSuffixes(c: string, a: string, b: string)
    requires EndsWith(c, a) && EndsWith(c, b) && |a| <= |b|
    ensures EndsWith(b, a)
  {
    forall k | 0 <= k < |a| ensures b[|b| - |a| + k] == a[k] {
      assert b[|b| - |a| + k] == c[|c| - |a| + k];
    }
  }

  /** With suffixes that are not nested, no label ends with both. */
  lemma NotBothSuffixes(c: string, s1: string, s2: string)
    requires !SuffixesNested(s1, s2)
    ensures !(EndsWith(c, s1) && EndsWith(c, s2))
  {
    if EndsWith(c, s1) && EndsWith(c, s2) {
      if |s1| <= |s2| {
        BothSuffixes(c, s1, s2);
      } else {
        BothSuffixes(c, s2, s1);
      }
    }
  }

  /** The column a column trades places with: a `suffix1` column with its `suffix2`
      twin and the other way round; any other column with itself. */
  function Twin(c: Label, s1: string, s2: string): Label
  {
    match c
    case Name(n) =>
      if EndsWith(n, s1) then Name(Base(n, s1) + s2)
      else if EndsWith(n, s2) then Name(Base(n, s2) + s1)
      else c
    case Position(_) => c
  }

  /** Trading places twice leaves every column where it was. */
  lemma TwinInvolution(c: Label, s1: string, s2: string)
    requires !SuffixesNested(s1, s2)
    ensures Twin(Twin(c, s1, s2), s1, s2) == c
  {
    if c.Name? {
      NotBothSuffixes(c.name, s1, s2);
      if EndsWith(c.name, s1) {
        var b := Base(c.name, s1);
        BaseAppend(b, s2);
        NotBothSuffixes(b + s2, s1, s2);
        BaseSplit(c.name, s1);
      } else if EndsWith(c.name, s2) {
        var b := Base(c.name, s2);
        BaseAppend(b, s1);
        NotBothSuffixes(b + s1, s1, s2);
        BaseSplit(c.name, s2);
      }
    }
  }

  /** The `ValueError` of a missing twin. */
  function NotFound(c: string): Error
  {
    ValueError("mirror_dataframe: Column " + c + " not found.")
  }

  /** The first error of a pass over the columns, if any. */
  function FirstSome(xs: seq<Option<Error>>): (r: Option<Error>)
    ensures r.None? <==> forall k :: 0 <= k < |xs| ==> xs[k].None?
    ensures r.Some? ==> exists k :: 0 <= k < |xs| && xs[k] == r && forall j :: 0 <= j < k ==> xs[j].None?
  {
    if xs == [] then None
    else
      var init := xs[..|xs| - 1];
      assert forall k :: 0 <= k < |init| ==> init[k] == xs[k];
      match FirstSome(init)
      case Some(e) => Some(e)
      case None => xs[|xs| - 1]
  }

  /** Once a pass has failed, later columns do not change its error. */
  lemma {:induction false} FirstSomeExtend(xs: seq<Option<Error>>, n: nat)
    requires n <= |xs| && FirstSome(xs[..n]).Some?
    ensures FirstSome(xs) == FirstSome(xs[..n])
  {
    if n < |xs| {
      var init := xs[..|xs| - 1];
      assert init[..n] == xs[..n];
      FirstSomeExtend(init, n);
    } else {
      assert xs[..n] == xs;
    }
  }

  /** The first loop's verdict on one column: an `AttributeError` for a label that is
      not a string, a `ValueError` for a `suffix1` column without its twin. */
  function FirstChecks(columns: seq<Label>, s1: string, s2: string): (xs: seq<Option<Error>>)
    ensures |xs| == |columns|
  {
    seq(|columns|, k requires 0 <= k < |columns| =>
      if !columns[k].Name? then Some(AttributeError)
      else if EndsWith(columns[k].name, s1) && Twin(columns[k], s1, s2) !in columns then Some(NotFound(Twin(columns[k], s1, s2).name))
      else None)
  }

  /** The second loop's verdict on one column: a `ValueError` for a `suffix2` column
      without its twin. */
  function SecondChecks(columns: seq<Label>, s1: string, s2: string): (xs: seq<Option<Error>>)
    ensures |xs| == |columns|
  {
    seq(|columns|, k requires 0 <= k < |columns| =>
      if columns[k].Name? && EndsWith(columns[k].name, s2) && Twin(columns[k], s1, s2) !in columns
      then Some(NotFound(Twin(columns[k], s1, s2).name))
      else None)
  }

  /** A row with every column reading its twin's cell. */
  function SwapRow(row: Row, columns: seq<Label>, s1: string, s2: string): Row
  {
    map c | c in columns :: Cell(row, Twin(c, s1, s2))
  }

  /** `mirror_dataframe`: `NotImplementedError` for nested suffixes, the first pass's
      error, the second pass's error, or the frame with each suffixed pair of columns
      traded, the column labels kept in their order. */
  function Mirrored(df: Frame, s1: string, s2: string): (r: Result<Frame>)
    ensures r.Ok? ==> r.value.columns == df.columns && |r.value.rows| == |df.rows|
  {
    if SuffixesNested(s1, s2) then Err(NotImplementedError)
    else if FirstSome(FirstChecks(df.columns, s1, s2)).Some? then Err(FirstSome(FirstChecks(df.columns, s1, s2)).value)
    else if FirstSome(SecondChecks(df.columns, s1, s2)).Some? then Err(FirstSome(SecondChecks(df.columns, s1, s2)).value)
    else Ok(Frame(df.columns, seq(|df.rows|, i requires 0 <= i < |df.rows| => SwapRow(df.rows[i], df.columns, s1, s2))))
  }

  /** Mirroring succeeds exactly when the suffixes are not nested, every label is a
      string, and every suffixed column has its twin. */
  lemma MirroredOk(df: Frame, s1: string, s2: string)
    ensures Mirrored(df, s1, s2).Ok? <==> (
      && !SuffixesNested(s1, s2)
      && forall c :: c in df.columns ==> (
           && c.Name?
           && ((EndsWith(c.name, s1) || EndsWith(c.name, s2)) ==> Twin(c, s1, s2) in df.columns)))
  {
    var first := FirstChecks(df.columns, s1, s2);
    var second := SecondChecks(df.columns, s1, s2);
    if !SuffixesNested(s1, s2) && FirstSome(first).None? && FirstSome(second).None? {
      forall c | c in df.columns
        ensures c.Name? && ((EndsWith(c.name, s1) || EndsWith(c.name, s2)) ==> Twin(c, s1, s2) in df.columns)
      {
        var k :| 0 <= k < |df.columns| && df.columns[k] == c;
        assert first[k].None? && second[k].None?;
      }
    }
    if !SuffixesNested(s1, s2) && forall c :: c in df.columns ==> (c.Name? &&
         ((EndsWith(c.name, s1) || EndsWith(c.name, s2)) ==> Twin(c, s1, s2) in df.columns)) {
      forall k | 0 <= k < |df.columns| ensures first[k].None? && second[k].None? {
        assert df.columns[k] in df.columns;
      }
    }
  }

  /** After mirroring, a `suffix1` column holds what its twin held and the twin what it
      held; a column with neither suffix keeps its cells. */
  lemma MirroredSwapsPairs(df: Frame, s1: string, s2: string, i: nat, c: Label)
    requires Mirrored(df, s1, s2).Ok? && i < |df.rows| && c in df.columns && c.Name?
    ensures var row := Mirrored(df, s1, s2).value.rows[i];
      && (EndsWith(c.name, s1) ==> (
           && Cell(row, c) == Cell(df.rows[i], Name(Base(c.name, s1) + s2))
           && Cell(row, Name(Base(c.name, s1) + s2)) == Cell(df.rows[i], c)))
      && (!EndsWith(c.name, s1) && !EndsWith(c.name, s2) ==> Cell(row, c) == Cell(df.rows[i], c))
  {
    MirroredOk(df, s1, s2);
    if EndsWith(c.name, s1) {
      TwinInvolution(c, s1, s2);
      assert Twin(c, s1, s2) in df.columns;
    }
  }

  /** Mirroring a mirrored frame gives back the original frame. */
  lemma MirroredTwice(df: Frame, s1: string, s2: string)
    requires WellFormed(df) && Mirrored(df, s1, s2).Ok?
    ensures Mirrored(Mirrored(df, s1, s2).value, s1, s2) == Ok(df)
  {
    var m := Mirrored(df, s1, s2).value;
    MirroredOk(df, s1, s2);
    MirroredOk(m, s1, s2);
    assert Mirrored(m, s1, s2).Ok?;
    var back := Mirrored(m, s1, s2).value;
    forall i | 0 <= i < |df.rows| ensures back.rows[i] == df.rows[i] {
      assert df.rows[i] in df.rows;
      forall c | c in df.columns ensures Cell(m.rows[i], Twin(c, s1, s2)) == df.rows[i][c] {
        TwinInvolution(c, s1, s2);
        assert Twin(c, s1, s2) in df.columns;
      }
    }
    assert back.rows == df.rows;
  }

  /** The label `df.rename(columns=renamer)` gives a column. */
  function Renamed(renamer: map<Label, Label>, c: Label): Label
  {
    if c in renamer then renamer[c] else c
  }

  /** Every column in the renamer is mapped to its twin, which is in the renamer too. */
  ghost predicate Paired(renamer: map<Label, Label>, s1: string, s2: string)
  {
    forall c :: c in renamer ==> renamer[c] == Twin(c, s1, s2) && Twin(c, s1, s2) in renamer
  }

  /** Recording a `suffix1` column and its twin, both ways, keeps the renamer paired. */
  lemma PairedAdd(renamer: map<Label, Label>, c: Label, s1: string, s2: string)
    requires !SuffixesNested(s1, s2) && Paired(renamer, s1, s2)
    ensures Paired(renamer[c := Twin(c, s1, s2)][Twin(c, s1, s2) := c], s1, s2)
  {
    TwinInvolution(c, s1, s2);
  }

  /** The first loop's verdict on column `i`, spelled out. */
  lemma FirstCheckAt(columns: seq<Label>, s1: string, s2: string, i: nat)
    requires i < |columns|
    ensures !columns[i].Name? ==> FirstChecks(columns, s1, s2)[i] == Some(AttributeError)
    ensures columns[i].Name? && EndsWith(columns[i].name, s1) ==>
      Twin(columns[i], s1, s2) == Name(Base(columns[i].name, s1) + s2) &&
      FirstChecks(columns, s1, s2)[i] ==
        if Twin(columns[i], s1, s2) in columns then None else Some(NotFound(Base(columns[i].name, s1) + s2))
    ensures columns[i].Name? && !EndsWith(columns[i].name, s1) ==> FirstChecks(columns, s1, s2)[i] == None
  {
  }

  /** After a prefix without verdict, the verdict of one more item is that item's. */
  lemma FirstSomeNext(xs: seq<Option<Error>>, i: nat)
    requires i < |xs| && FirstSome(xs[..i]).None?
    ensures FirstSome(xs[..i + 1]) == xs[i]
    ensures xs[i].Some? ==> FirstSome(xs) == xs[i]
  {
    assert xs[..i + 1][..i] == xs[..i];
    if xs[i].Some? {
      FirstSomeExtend(xs, i + 1);
    }
  }

  /** The first loop: fills the renamer with each `suffix1` column and its twin, both
      ways, stopping at the first column that fails. */
  method FillRenamer(columns: seq<Label>, suffix1: string, suffix2: string)
    returns (err: Option<Error>, renamer: map<Label, Label>)
    requires !SuffixesNested(suffix1, suffix2)
    ensures err == FirstSome(FirstChecks(columns, suffix1, suffix2))
    ensures Paired(renamer, suffix1, suffix2)
    ensures err.None? ==> forall c :: c in columns && c.Name? && EndsWith(c.name, suffix1) ==> c in renamer
  {
    var first := FirstChecks(columns, suffix1, suffix2);
    renamer := map[];
    for i := 0 to |columns|
      invariant FirstSome(first[..i]).None?
      invariant Paired(renamer, suffix1, suffix2)
      invariant forall k :: 0 <= k < i && columns[k].Name? && EndsWith(columns[k].name, suffix1) ==> columns[k] in renamer
    {
      FirstCheckAt(columns, suffix1, suffix2, i);
      FirstSomeNext(first, i);
      var col1 := columns[i];
      if !col1.Name? {
        return Some(AttributeError), renamer;
      }
      if EndsWith(col1.name, suffix1) {
        var col := Base(col1.name, suffix1);
        var col2 := Name(col + suffix2);
        if col2 !in columns {
          return Some(NotFound(col + suffix2)), renamer;
        }
        PairedAdd(renamer, col1, suffix1, suffix2);
        renamer := renamer[col1 := col2][col2 := col1];
      }
    }
    assert first[..|columns|] == first;
    err := None;
  }

  /** The second loop: every `suffix2` column must have its twin. */
  method CheckTwins(columns: seq<Label>, suffix1: string, suffix2: string) returns (err: Option<Error>)
    requires !SuffixesNested(suffix1, suffix2)
    ensures err == FirstSome(SecondChecks(columns, suffix1, suffix2))
  {
    var second := SecondChecks(columns, suffix1, suffix2);
    for i := 0 to |columns|
      invariant FirstSome(second[..i]).None?
    {
      assert second[..i + 1][..i] == second[..i];
      var col2 := columns[i];
      if col2.Name? && EndsWith(col2.name, suffix2) {
        var col := Base(col2.name, suffix2);
        var col1 := Name(col + suffix1);
        NotBothSuffixes(col2.name, suffix1, suffix2);
        if col1 !in columns {
          FirstSomeExtend(second, i + 1);
          return Some(NotFound(col + suffix1));
        }
      }
    }
    assert second[..|columns|] == second;
    err := None;
  }

  /** When both loops pass, the renamer sends every column to its twin. */
  lemma RenamerIsTwin(columns: seq<Label>, renamer: map<Label, Label>, s1: string, s2: string, c: Label)
    requires !SuffixesNested(s1, s2) && c in columns
    requires FirstSome(FirstChecks(columns, s1, s2)).None? && FirstSome(SecondChecks(columns, s1, s2)).None?
    requires Paired(renamer, s1, s2)
    requires forall c :: c in columns && c.Name? && EndsWith(c.name, s1) ==> c in renamer
    ensures Renamed(renamer, c) == Twin(c, s1, s2)
  {
    var k :| 0 <= k < |columns| && columns[k] == c;
    assert FirstChecks(columns, s1, s2)[k].None? && SecondChecks(columns, s1, s2)[k].None?;
    if c.Name? && EndsWith(c.name, s2) {
      NotBothSuffixes(c.name, s1, s2);
      var t := Twin(c, s1, s2);
      BaseAppend(Base(c.name, s2), s1);
      TwinInvolution(c, s1, s2);
      assert t in columns && t.Name? && EndsWith(t.name, s1);
      assert Twin(t, s1, s2) == c;
    } else if c.Name? {
      NotBothSuffixes(c.name, s1, s2);
    }
  }

  /** `mirror_dataframe` as written: the suffix check, the two loops, then the renamed
      frame reordered as the original. */
  method MirrorDataframe(df: Frame, suffix1: string, suffix2: string) returns (r: Result<Frame>)
    ensures r == Mirrored(df, suffix1, suffix2)
  {
    if EndsWith(suffix1, suffix2) || EndsWith(suffix2, suffix1) {
      return Err(NotImplementedError);
    }
    var err, renamer := FillRenamer(df.columns, suffix1, suffix2);
    if err.Some? {
      return Err(err.value);
    }
    err := CheckTwins(df.columns, suffix1, suffix2);
    if err.Some? {
      return Err(err.value);
    }
    forall c | c in df.columns ensures Renamed(renamer, c) == Twin(c, suffix1, suffix2) {
      RenamerIsTwin(df.columns, renamer, suffix1, suffix2, c);
    }
    r := Ok(Frame(df.columns, seq(|df.rows|, i requires 0 <= i < |df.rows| =>
      map c | c in df.columns :: Cell(df.rows[i], Renamed(renamer, c)))));
    forall i | 0 <= i < |df.rows|
      ensures r.value.rows[i] == SwapRow(df.rows[i], df.columns, suffix1, suffix2)
    {
    }
    var swapped := seq(|df.rows|, i requires 0 <= i < |df.rows| => SwapRow(df.rows[i], df.columns, suffix1, suffix2));
    assert r.value.rows == swapped;
    assert Mirrored(df, suffix1, suffix2) == Ok(Frame(df.columns, swapped));
  }

  // ---------------------------------------------------------------------------
  // Concatenating frames

  /** The columns not yet collected, in order; each is checked against the collection as
      it stood before the step, as the list comprehension does. */
  function NewColumns(cols: seq<Label>, seen: seq<Label>): (r: seq<Label>)
    ensures forall c :: c in r <==> c in cols && c !in seen
    ensures (forall i, j :: 0 <= i < j < |cols| ==> cols[i] != cols[j]) ==>
      forall i, j :: 0 <= i < j < |r| ==> r[i] != r[j]
  {
    if cols == [] then []
    else
      var init := cols[..|cols| - 1];
      var last := cols[|cols| - 1];
      assert cols == init + [last];
      assert forall i :: 0 <= i < |init| ==> init[i] == cols[i];
      NewColumns(init, seen) + (if last in seen then [] else [last])
  }

  /** `_columns` when no columns are given: the columns of the frames that are there,
      collected frame by frame. */
  function ColumnUnion(dfs: seq<Option<Frame>>): seq<Label>
  {
    if dfs == [] then []
    else
      var u := ColumnUnion(dfs[..|dfs| - 1]);
      var last := dfs[|dfs| - 1];
      u + (if last.Some? then NewColumns(last.value.columns, u) else [])
  }

  /** The collected columns are those of the frames that are there. */
  lemma {:induction false} ColumnUnionMembers(dfs: seq<Option<Frame>>, c: Label)
    ensures c in ColumnUnion(dfs) <==> exists k :: 0 <= k < |dfs| && dfs[k].Some? && c in dfs[k].value.columns
  {
    if dfs != [] {
      var init := dfs[..|dfs| - 1];
      ColumnUnionMembers(init, c);
      assert forall k :: 0 <= k < |init| ==> init[k] == dfs[k];
      if exists k :: 0 <= k < |dfs| && dfs[k].Some? && c in dfs[k].value.columns {
        var k :| 0 <= k < |dfs| && dfs[k].Some? && c in dfs[k].value.columns;
        if k < |init| {
          assert init[k] == dfs[k];
        }
      }
    }
  }

  predicate DistinctLabels(u: seq<Label>)
  {
    forall i, j :: 0 <= i < j < |u| ==> u[i] != u[j]
  }

  /** Each collected column is collected once when no frame repeats a column. */
  lemma {:induction false} ColumnUnionDistinct(dfs: seq<Option<Frame>>)
    requires forall k :: 0 <= k < |dfs| && dfs[k].Some? ==>
      forall i, j :: 0 <= i < j < |dfs[k].value.columns| ==> dfs[k].value.columns[i] != dfs[k].value.columns[j]
    ensures DistinctLabels(ColumnUnion(dfs))
  {
    if dfs != [] {
      var init := dfs[..|dfs| - 1];
      assert forall k :: 0 <= k < |init| ==> init[k] == dfs[k];
      ColumnUnionDistinct(init);
      var u := ColumnUnion(init);
      var last := dfs[|dfs| - 1];
      if last.Some? {
        var n := NewColumns(last.value.columns, u);
        var r := u + n;
        forall i, j | 0 <= i < j < |r| ensures r[i] != r[j] {
          if j >= |u| && i < |u| {
            assert r[j] in n;
            assert r[i] in u;
          } else if i >= |u| {
            assert r[i] == n[i - |u|] && r[j] == n[j - |u|];
          } else {
            assert r[i] == u[i] && r[j] == u[j];
          }
        }
        assert ColumnUnion(dfs) == r;
      } else {
        assert ColumnUnion(dfs) == u;
      }
    }
  }

  /** The frames that are there and not empty, in order. */
  function Kept(dfs: seq<Option<Frame>>): (fs: seq<Frame>)
    ensures forall f :: f in fs <==> Some(f) in dfs && !Empty(f)
  {
    if dfs == [] then []
    else
      var init := dfs[..|dfs| - 1];
      var last := dfs[|dfs| - 1];
      assert dfs == init + [last];
      Kept(init) + (if last.Some? && !Empty(last.value) then [last.value] else [])
  }

  /** A row on the given columns; a column it lacks reads as missing. */
  function RowOn(row: Row, cols: seq<Label>): Row
  {
    map c | c in cols :: Cell(row, c)
  }

  /** `reindex(columns=cols)`: exactly the given columns, rows kept. */
  function Reindex(f: Frame, cols: seq<Label>): (r: Frame)
    ensures r.columns == cols && |r.rows| == |f.rows|
  {
    Frame(cols, seq(|f.rows|, i requires 0 <= i < |f.rows| => RowOn(f.rows[i], cols)))
  }

  function AsPresent(fs: seq<Frame>): (dfs: seq<Option<Frame>>)
    ensures |dfs| == |fs| && forall k :: 0 <= k < |fs| ==> dfs[k] == Some(fs[k])
  {
    seq(|fs|, k requires 0 <= k < |fs| => Some(fs[k]))
  }

  /** The row blocks of the frames, each on the given columns. */
  function Blocks(fs: seq<Frame>, cols: seq<Label>): (bs: seq<seq<Row>>)
    ensures |bs| == |fs| && forall k :: 0 <= k < |fs| ==> bs[k] == Reindex(fs[k], cols).rows
  {
    seq(|fs|, k requires 0 <= k < |fs| => Reindex(fs[k], cols).rows)
  }

  /** `pd.concat(frames)`: the union of their columns, their rows one frame after the
      other, a cell of a column a frame lacks missing. */
  function ConcatFrames(fs: seq<Frame>): Frame
  {
    var cols := ColumnUnion(AsPresent(fs));
    Frame(cols, Concat(Blocks(fs, cols)))
  }

  /** `concat_dfs`: the frames that are there and not empty, concatenated (then
      reindexed to the given columns); with none left, an empty frame on the given
      columns or on the columns collected from every frame that is there. */
  function Concatenated(dfs: seq<Option<Frame>>, columns: Option<seq<Label>>): Frame
  {
    var kept := Kept(dfs);
    if kept == [] then Frame(if columns.Some? then columns.value else ColumnUnion(dfs), [])
    else
      var res := ConcatFrames(kept);
      if columns.Some? then Reindex(res, columns.value) else res
  }

  /** The total number of rows of the frames. */
  function TotalRows(fs: seq<Frame>): nat
  {
    if fs == [] then 0 else TotalRows(fs[..|fs| - 1]) + |fs[|fs| - 1].rows|
  }

  lemma {:induction false} ConcatLength(fs: seq<Frame>, cols: seq<Label>)
    ensures |Concat(Blocks(fs, cols))| == TotalRows(fs)
  {
    if fs != [] {
      var init := fs[..|fs| - 1];
      ConcatLength(init, cols);
      assert Blocks(fs, cols)[..|fs| - 1] == Blocks(init, cols);
    }
  }

  /** The columns of the result: the given ones exactly, otherwise each column of a
      frame that takes part once, and no other. */
  lemma ConcatenatedColumns(dfs: seq<Option<Frame>>, columns: Option<seq<Label>>, c: Label)
    ensures var r := Concatenated(dfs, columns);
      && (columns.Some? ==> r.columns == columns.value)
      && (columns.None? && Kept(dfs) == [] ==>
            (c in r.columns <==> exists k :: 0 <= k < |dfs| && dfs[k].Some? && c in dfs[k].value.columns))
      && (columns.None? && Kept(dfs) != [] ==>
            (c in r.columns <==> exists f :: Some(f) in dfs && !Empty(f) && c in f.columns))
  {
    if columns.None? {
      if Kept(dfs) == [] {
        ColumnUnionMembers(dfs, c);
      } else {
        KeptColumns(dfs, c);
      }
    }
  }

  /** A column is among those of the frames that take part exactly when one of them has it. */
  lemma KeptColumns(dfs: seq<Option<Frame>>, c: Label)
    ensures c in ColumnUnion(AsPresent(Kept(dfs))) <==> exists f :: Some(f) in dfs && !Empty(f) && c in f.columns
  {
    var kept := Kept(dfs);
    ColumnUnionMembers(AsPresent(kept), c);
    if exists f :: Some(f) in dfs && !Empty(f) && c in f.columns {
      var f :| Some(f) in dfs && !Empty(f) && c in f.columns;
      var k :| 0 <= k < |kept| && kept[k] == f;
      assert AsPresent(kept)[k] == Some(f);
    }
    if exists k :: 0 <= k < |kept| && AsPresent(kept)[k].Some? && c in AsPresent(kept)[k].value.columns {
      var k :| 0 <= k < |kept| && AsPresent(kept)[k].Some? && c in AsPresent(kept)[k].value.columns;
      assert kept[k] in kept;
    }
  }

  /** The result holds the rows of the frames that take part one frame after the other,
      each in its frame's order and on the result's columns: row `j` of the `k`-th such
      frame is row `TotalRows(before it) + j`. Frames that are absent or empty
      contribute none. */
  lemma {:induction false} ConcatenatedRows(dfs: seq<Option<Frame>>, columns: Option<seq<Label>>)
    requires forall k :: 0 <= k < |dfs| && dfs[k].Some? ==> WellFormed(dfs[k].value)
    ensures |Concatenated(dfs, columns).rows| == TotalRows(Kept(dfs))
    ensures RowsInOrder(Concatenated(dfs, columns), Kept(dfs))
  {
    ConcatenatedLength(dfs, columns);
    forall k, j | 0 <= k < |Kept(dfs)| && 0 <= j < |Kept(dfs)[k].rows|
      ensures RowAt(Concatenated(dfs, columns), Kept(dfs), k, j)
    {
      ConcatRowAt(dfs, columns, k, j);
    }
  }

  /** Whether the frame holds the rows of the frames one frame after the other, each
      in its frame's order and on the frame's columns. */
  predicate RowsInOrder(r: Frame, fs: seq<Frame>)
  {
    forall k, j :: 0 <= k < |fs| && 0 <= j < |fs[k].rows| ==> RowAt(r, fs, k, j)
  }

  /** Whether row `j` of frame `k` is row `TotalRows(fs[..k]) + j` of the frame, on its
      columns. */
  predicate RowAt(r: Frame, fs: seq<Frame>, k: nat, j: nat)
    requires k < |fs| && j < |fs[k].rows|
  {
    && TotalRows(fs[..k]) + j < |r.rows|
    && r.rows[TotalRows(fs[..k]) + j] == RowOn(fs[k].rows[j], r.columns)
  }

  lemma ConcatenatedLength(dfs: seq<Option<Frame>>, columns: Option<seq<Label>>)
    ensures |Concatenated(dfs, columns).rows| == TotalRows(Kept(dfs))
  {
    var kept := Kept(dfs);
    if kept != [] {
      ConcatLength(kept, ColumnUnion(AsPresent(kept)));
    }
  }

  /** Where one row of a frame that takes part lands in the result. */
  lemma ConcatRowAt(dfs: seq<Option<Frame>>, columns: Option<seq<Label>>, k: nat, j: nat)
    requires forall k :: 0 <= k < |dfs| && dfs[k].Some? ==> WellFormed(dfs[k].value)
    requires k < |Kept(dfs)| && j < |Kept(dfs)[k].rows|
    ensures RowAt(Concatenated(dfs, columns), Kept(dfs), k, j)
  {
    var kept := Kept(dfs);
    var r := Concatenated(dfs, columns);
    var res := ConcatFrames(kept);
    var i := TotalRows(kept[..k]) + j;
    FrameRowAt(kept, k, j);
    if columns.Some? {
      assert r == Reindex(res, columns.value);
      ReindexRow(res, columns.value, i);
      forall c | c in columns.value ensures Cell(res.rows[i], c) == Cell(kept[k].rows[j], c) {
        UnionCell(dfs, k, j, c);
      }
      RowOnSameCells(res.rows[i], kept[k].rows[j], columns.value);
    } else {
      assert r == res;
    }
  }

  /** Row `j` of frame `k` is row `TotalRows(fs[..k]) + j` of `pd.concat(fs)`. */
  lemma FrameRowAt(fs: seq<Frame>, k: nat, j: nat)
    requires k < |fs| && j < |fs[k].rows|
    ensures TotalRows(fs[..k]) + j < |ConcatFrames(fs).rows|
    ensures ConcatFrames(fs).rows[TotalRows(fs[..k]) + j] == RowOn(fs[k].rows[j], ColumnUnion(AsPresent(fs)))
  {
    BlocksRowAt(fs, ColumnUnion(AsPresent(fs)), k, j);
  }

  /** The same for the blocks of the frames on any columns. */
  lemma BlocksRowAt(fs: seq<Frame>, cols: seq<Label>, k: nat, j: nat)
    requires k < |fs| && j < |fs[k].rows|
    ensures TotalRows(fs[..k]) + j < |Concat(Blocks(fs, cols))|
    ensures Concat(Blocks(fs, cols))[TotalRows(fs[..k]) + j] == RowOn(fs[k].rows[j], cols)
  {
    var b := Blocks(fs, cols);
    ReindexRow(fs[k], cols, j);
    ConcatAt(b, k, j);
    var pre := Blocks(fs[..k], cols);
    assert b[..k] == pre by {
      forall i | 0 <= i < k ensures b[..k][i] == pre[i] {
        assert fs[..k][i] == fs[i];
      }
    }
    ConcatLength(fs[..k], cols);
  }

  lemma ReindexRow(f: Frame, cols: seq<Label>, i: nat)
    requires i < |f.rows|
    ensures Reindex(f, cols).rows[i] == RowOn(f.rows[i], cols)
  {
  }

  /** Rows that agree on the given columns look the same on them. */
  lemma RowOnSameCells(a: Row, b: Row, cols: seq<Label>)
    requires forall c :: c in cols ==> Cell(a, c) == Cell(b, c)
    ensures RowOn(a, cols) == RowOn(b, cols)
  {
  }

  /** Putting a row of a frame that takes part on the union of the columns changes no cell. */
  lemma UnionCell(dfs: seq<Option<Frame>>, k: nat, j: nat, c: Label)
    requires forall k :: 0 <= k < |dfs| && dfs[k].Some? ==> WellFormed(dfs[k].value)
    requires k < |Kept(dfs)| && j < |Kept(dfs)[k].rows|
    ensures Cell(RowOn(Kept(dfs)[k].rows[j], ColumnUnion(AsPresent(Kept(dfs)))), c) == Cell(Kept(dfs)[k].rows[j], c)
  {
    var kept := Kept(dfs);
    var cols := ColumnUnion(AsPresent(kept));
    ColumnUnionMembers(AsPresent(kept), c);
    if c !in cols {
      assert AsPresent(kept)[k] == Some(kept[k]);
      assert c !in kept[k].columns;
      assert kept[k] in kept;
      assert Some(kept[k]) in dfs;
      var d :| 0 <= d < |dfs| && dfs[d] == Some(kept[k]);
      assert kept[k].rows[j] in kept[k].rows;
      assert c !in kept[k].rows[j];
    }
  }

  /** `concat_dfs` as written: the loop that collects `_columns`, then the filter, the
      concatenation and the reindexing. */
  method ConcatDfs(dfs: seq<Option<Frame>>, columns: Option<seq<Label>>) returns (r: Frame)
    ensures r == Concatenated(dfs, columns)
  {
    var cols: seq<Label>;
    if columns.Some? {
      cols := columns.value;
    } else {
      cols := [];
      for i := 0 to |dfs|
        invariant cols == ColumnUnion(dfs[..i])
      {
        assert dfs[..i + 1][..i] == dfs[..i];
        if dfs[i].Some? {
          cols := cols + NewColumns(dfs[i].value.columns, cols);
        }
      }
      assert dfs[..|dfs|] == dfs;
    }
    var kept := Kept(dfs);
    if kept == [] {
      return Frame(cols, []);
    }
    var res := ConcatFrames(kept);
    if columns.Some? {
      return Reindex(res, columns.value);
    }
    return res;
  }

  // ---------------------------------------------------------------------------
  // A multi-indexed series as nested dictionaries

  /** A nested dictionary: a value at the bottom, a dictionary above it. */
  datatype Nested = Leaf(value: Value) | Node(children: map<Value, Nested>)

  /** Dictionaries `depth` levels deep with the values at the bottom. */
  predicate Shaped(t: Nested, depth: nat)
    decreases depth
  {
    if depth == 0 then t.Leaf?
    else t.Node? && forall k :: k in t.children ==> Shaped(t.children[k], depth - 1)
  }

  /** The value at the end of a path of keys, if any. */
  function Get(t: Nested, path: seq<Value>): Option<Value>
    decreases |path|
  {
    if path == [] then (if t.Leaf? then Some(t.value) else None)
    else if t.Node? && path[0] in t.children then Get(t.children[path[0]], path[1..])
    else None
  }

  /** One entry: walks down the keys but the last, creating the dictionaries that are
      not there (`setdefault(key, {})`), and sets the last key to the value. */
  function Put(t: Nested, path: seq<Value>, v: Value): (r: Nested)
    requires |path| >= 1 && Shaped(t, |path|)
    ensures Shaped(r, |path|)
    decreases |path|
  {
    var k := path[0];
    if |path| == 1 then Node(t.children[k := Leaf(v)])
    else
      var child := if k in t.children then t.children[k] else Node(map[]);
      Node(t.children[k := Put(child, path[1..], v)])
  }

  /** After an entry, its path leads to its value. */
  lemma {:induction false} GetPut(t: Nested, path: seq<Value>, v: Value)
    requires |path| >= 1 && Shaped(t, |path|)
    ensures Get(Put(t, path, v), path) == Some(v)
    decreases |path|
  {
    if |path| > 1 {
      var k := path[0];
      var child := if k in t.children then t.children[k] else Node(map[]);
      GetPut(child, path[1..], v);
    }
  }

  /** An entry leaves every other path of the same length as it was. */
  lemma {:induction false} GetPutOther(t: Nested, path: seq<Value>, v: Value, q: seq<Value>)
    requires |path| >= 1 && Shaped(t, |path|) && |q| == |path| && q != path
    ensures Get(Put(t, path, v), q) == Get(t, q)
    decreases |path|
  {
    var k := path[0];
    if q[0] == k && |path| > 1 {
      var child := if k in t.children then t.children[k] else Node(map[]);
      assert q[1..] != path[1..] by {
        assert q == [q[0]] + q[1..] && path == [k] + path[1..];
      }
      GetPutOther(child, path[1..], v, q[1..]);
      if k !in t.children {
        EmptyGet(path[1..], q[1..]);
      }
    }
  }

  /** An empty dictionary has nothing at the end of any path. */
  lemma EmptyGet(path: seq<Value>, q: seq<Value>)
    requires |q| >= 1
    ensures Get(Node(map[]), q) == None
  {
  }

  /** Every path has the number of levels. */
  predicate PathsOfLength(index: seq<seq<Value>>, levels: nat)
  {
    forall i :: 0 <= i < |index| ==> |index[i]| == levels
  }

  /** The entries put one after the other into an empty dictionary. */
  function Build(index: seq<seq<Value>>, values: seq<Value>, levels: nat): (t: Nested)
    requires |index| == |values| && levels >= 1 && PathsOfLength(index, levels)
    ensures Shaped(t, levels)
  {
    if index == [] then Node(map[])
    else
      var n := |index| - 1;
      Put(Build(index[..n], values[..n], levels), index[n], values[n])
  }

  /** The position of the last occurrence of a path. */
  function LastIndex(index: seq<seq<Value>>, q: seq<Value>): (i: nat)
    requires q in index
    ensures i < |index| && index[i] == q && forall j :: i < j < |index| ==> index[j] != q
  {
    var n := |index| - 1;
    if index[n] == q then n
    else
      assert q in index[..n] by {
        var j :| 0 <= j < |index| && index[j] == q;
        assert j < n && index[..n][j] == q;
      }
      LastIndex(index[..n], q)
  }

  /** Each path of the index leads to the value of its last entry; a path of the same
      length that is not in the index leads nowhere. */
  lemma {:induction false} BuildLookup(index: seq<seq<Value>>, values: seq<Value>, levels: nat, q: seq<Value>)
    requires |index| == |values| && levels >= 1 && PathsOfLength(index, levels) && |q| == levels
    ensures Get(Build(index, values, levels), q) == (if q in index then Some(values[LastIndex(index, q)]) else None)
  {
    if index == [] {
      EmptyGet(q, q);
    } else {
      var n := |index| - 1;
      var init, vinit := index[..n], values[..n];
      BuildLookup(init, vinit, levels, q);
      if index[n] == q {
        GetPut(Build(init, vinit, levels), index[n], values[n]);
      } else {
        GetPutOther(Build(init, vinit, levels), index[n], values[n], q);
        assert q in index <==> q in init;
        if q in index {
          assert LastIndex(index, q) == LastIndex(init, q);
        }
      }
    }
  }

  /** `series_to_nested_dict`: a `ValueError` when values are given for a different
      number of entries, otherwise the nested dictionary of the entries (the series'
      own values when none are given). */
  function NestedDict(index: seq<seq<Value>>, series: seq<Value>, values: Option<seq<Value>>, levels: nat): Result<Nested>
    requires |index| == |series| && levels >= 1 && PathsOfLength(index, levels)
  {
    if values.Some? && |values.value| != |series| then Err(ValueError(""))
    else Ok(Build(index, if values.Some? then values.value else series, levels))
  }

  /** `series_to_nested_dict` as written: one entry after the other. */
  method SeriesToNestedDict(index: seq<seq<Value>>, series: seq<Value>, values: Option<seq<Value>>, levels: nat)
    returns (r: Result<Nested>)
    requires |index| == |series| && levels >= 1 && PathsOfLength(index, levels)
    ensures r == NestedDict(index, series, values, levels)
  {
    var vs := series;
    if values.Some? {
      if |values.value| != |series| {
        return Err(ValueError(""));
      }
      vs := values.value;
    }
    var result := Node(map[]);
    for i := 0 to |index|
      invariant result == Build(index[..i], vs[..i], levels)
    {
      assert index[..i + 1][..i] == index[..i] && vs[..i + 1][..i] == vs[..i];
      result := Put(result, index[i], vs[i]);
    }
    assert index[..|index|] == index && vs[..|index|] == vs;
    return Ok(result);
  }

  // ---------------------------------------------------------------------------
  // Sorting by a given order

  /** `{x: i for i, x in enumerate(order)}`: each key to its position, the last one
      when a key repeats. */
  function Positions<T(==, !new)>(order: seq<T>): (m: map<T, nat>)
    ensures forall x :: x in m <==> x in order
    ensures forall x :: x in m ==> (m[x] < |order| && order[m[x]] == x &&
      forall j :: m[x] < j < |order| ==> order[j] != x)
  {
    if order == [] then map[]
    else
      var n := |order| - 1;
      var init := order[..n];
      assert order == init + [order[n]];
      Positions(init)[order[n] := n]
  }

  /** The sort key of one index value: its position in the order, or the length of the
      order when it is not there. */
  function SortKey<T(==, !new)>(order: seq<T>, k: T): nat
  {
    var m := Positions(order);
    if k in m then m[k] else |order|
  }

  /** The sorter `index_order` returns, applied to an index level: all missing when a
      subset of level names is given that does not name this level, otherwise the sort
      key of each value. */
  function Sorter<T(==, !new)>(order: seq<T>, subset: Option<seq<string>>, levelName: Option<string>, ix: seq<T>): (r: seq<Option<nat>>)
    ensures |r| == |ix|
    ensures subset.Some? && !(levelName.Some? && levelName.value in subset.value) ==>
      forall i :: 0 <= i < |ix| ==> r[i].None?
    ensures subset.None? || (levelName.Some? && levelName.value in subset.value) ==>
      forall i :: 0 <= i < |ix| ==> (r[i].Some? &&
        (ix[i] in order <==> r[i].value < |order|) &&
        (ix[i] in order ==> order[r[i].value] == ix[i]))
  {
    if subset.Some? && !(levelName.Some? && levelName.value in subset.value) then seq(|ix|, i => None)
    else seq(|ix|, i requires 0 <= i < |ix| => Some(SortKey(order, ix[i])))
  }

  /** A value in the order sorts before every value that is not; a value's key is the
      position of its last occurrence. */
  lemma SortKeyPlacement<T(!new)>(order: seq<T>, k: T)
    ensures k in order <==> SortKey(order, k) < |order|
    ensures k in order ==> (order[SortKey(order, k)] == k &&
      forall j :: SortKey(order, k) < j < |order| ==> order[j] != k)
    ensures k !in order ==> SortKey(order, k) == |order|
  {
  }

  /** Without repeats, the sort key of the order's `i`-th value is `i`, so sorting by it
      puts the values in the given order. */
  lemma SortKeyInverse<T(!new)>(order: seq<T>, i: nat)
    requires i < |order| && forall a, b :: 0 <= a < b < |order| ==> order[a] != order[b]
    ensures SortKey(order, order[i]) == i
  {
    var p := SortKey(order, order[i]);
    assert order[i] in order;
    assert order[p] == order[i];
  }
}
