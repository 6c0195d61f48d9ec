/** Object-to-object rules: join the objects of a source side with those of a target
    side under equality and other join conditions, and emit one relation record per
    joined pair. */
module O2O {
  import opened Tables
  import opened Models
  import ObjectFilters

  /** `re.matchStart` of a value against a pattern; regular expressions are not part of
      this model, so the matcher is a parameter. */
  type Matcher = (string, string) -> bool

  /** The comparison an operator string names, if it names one. */
  function CmpOf(op: string): (c: Option<CmpOp>)
    ensures c.Some? ==> op in Operators && op != "contains" && op != "regex"
  {
    if op == "==" then Some(Eq)
    else if op == "!=" then Some(Ne)
    else if op == ">" then Some(Gt)
    else if op == "<" then Some(Lt)
    else if op == ">=" then Some(Ge)
    else if op == "<=" then Some(Le)
    else None
  }

  /** The operator on one row: comparisons compare the two cells; "contains" tests the
      string form of the right cell for a substring of the left one; "regex" matches
      the left string form against the right one. */
  function RowOperator(left: Value, op: string, right: Value, matches: Matcher): (r: Result<bool>)
    ensures r.Err? && r.error.ValueError? <==> op !in Operators
    ensures op == "contains" ==> r == Ok(Contains(CellString(left), CellString(right)))
  {
    var c := CmpOf(op);
    if c.Some? then
      var b := CompareCells(left, c.value, right);
      if b.Err? then Err(TypeError) else b
    else if op == "contains" then Ok(Contains(CellString(left), CellString(right)))
    else if op == "regex" then Ok(matches(CellString(left), CellString(right)))
    else Err(ValueError("Unsupported operator: " + op))
  }

  /** `apply_operator` on two aligned columns, row by row: an unsupported operator
      raises `ValueError`, one row that cannot be ordered raises `TypeError`. */
  function ApplyOperator(left: seq<Value>, op: string, right: seq<Value>, matches: Matcher): (r: Result<seq<bool>>)
    requires |left| == |right|
    ensures r.Ok? ==> (|r.value| == |left| &&
      forall i :: 0 <= i < |left| ==> RowOperator(left[i], op, right[i], matches) == Ok(r.value[i]))
    ensures r.Err? <==> op !in Operators || exists i :: 0 <= i < |left| && RowOperator(left[i], op, right[i], matches).Err?
  {
    if op !in Operators then Err(ValueError("Unsupported operator: " + op))
    else if exists i :: 0 <= i < |left| && RowOperator(left[i], op, right[i], matches).Err? then Err(TypeError)
    else Ok(seq(|left|, i requires 0 <= i < |left| => RowOperator(left[i], op, right[i], matches).value))
  }

  // ---------------------------------------------------------------------------
  // The operator as written: "contains" and "regex" receive the whole right column

  /** Python's `re` module: whether a pattern compiles, whether `re.search` finds it
      somewhere in a string, and whether `re.matchStart` finds it at the start. Regular
      expressions are not part of this model, so these are parameters. */
  datatype Regex = Regex(compiles: string -> bool, search: Matcher, matchStart: Matcher)

  /** The characters that can make a pattern more than a literal string in `re`. */
  const Metacharacters: set<char> := {'.', '^', '$', '*', '+', '?', '{', '}', '[', ']', '\\', '|', '(', ')'}

  /** A pattern without metacharacters: `re` searches for it as a plain substring. */
  predicate Literal(p: string)
  {
    forall i :: 0 <= i < |p| ==> p[i] !in Metacharacters
  }

  lemma LiteralAppend(a: string, b: string)
    requires Literal(a) && Literal(b)
    ensures Literal(a + b)
  {
    forall i | 0 <= i < |a + b| ensures (a + b)[i] !in Metacharacters {
      if i < |a| {
        assert (a + b)[i] == a[i];
      } else {
        assert (a + b)[i] == b[i - |a|];
      }
    }
  }

  /** An approximation of `str(series)` for a column with the default index: one line
      per row, then the footer with its name and dtype. */
  function SeriesRepr(values: seq<Value>, name: string): (s: string)
    ensures |s| >= |name| + 21
  {
    ReprLines(values) + "Name: " + name + ", dtype: object"
  }

  function ReprLines(values: seq<Value>): string
  {
    if values == [] then ""
    else ReprLines(values[..|values| - 1]) + DecimalString(|values| - 1) + "    " + CellString(values[|values| - 1]) + "\n"
  }

  /** The printed column is a literal pattern when its name and every printed value are:
      the row numbers, the padding and the footer add no metacharacter. */
  lemma {:induction false} ReprLiteral(values: seq<Value>, name: string)
    requires Literal(name)
    requires forall j :: 0 <= j < |values| ==> Literal(CellString(values[j]))
    ensures Literal(SeriesRepr(values, name))
    decreases |values|
  {
    ReprLinesLiteral(values);
    LiteralAppend(ReprLines(values), "Name: ");
    LiteralAppend(ReprLines(values) + "Name: ", name);
    LiteralAppend(ReprLines(values) + "Name: " + name, ", dtype: object");
  }

  lemma {:induction false} ReprLinesLiteral(values: seq<Value>)
    requires forall j :: 0 <= j < |values| ==> Literal(CellString(values[j]))
    ensures Literal(ReprLines(values))
    decreases |values|
  {
    if values != [] {
      var init := values[..|values| - 1];
      ReprLinesLiteral(init);
      var digits := DecimalString(|values| - 1);
      assert Literal(digits);
      LiteralAppend(ReprLines(init), digits);
      LiteralAppend(ReprLines(init) + digits, "    ");
      LiteralAppend(ReprLines(init) + digits + "    ", CellString(values[|values| - 1]));
      LiteralAppend(ReprLines(init) + digits + "    " + CellString(values[|values| - 1]), "\n");
    }
  }

  /** `str.contains` with its default `regex=True` on every row: a literal pattern is a
      substring test, any other pattern goes through `re`, and one that does not
      compile raises `re.error` whatever the rows hold. */
  function SearchColumn(left: seq<Value>, pattern: string, re: Regex): (r: Result<seq<bool>>)
    ensures r.Err? <==> !Literal(pattern) && !re.compiles(pattern)
    ensures r.Ok? ==> |r.value| == |left|
    ensures Literal(pattern) ==> forall i :: 0 <= i < |left| ==> (r.value[i] <==> Contains(CellString(left[i]), pattern))
  {
    if Literal(pattern) then Ok(seq(|left|, i requires 0 <= i < |left| => Contains(CellString(left[i]), pattern)))
    else if !re.compiles(pattern) then Err(RegexError)
    else Ok(seq(|left|, i requires 0 <= i < |left| => re.search(CellString(left[i]), pattern)))
  }

  /** `apply_operator` exactly as written: "contains" uses the printed form of the
      whole right column as its regular expression, and "regex" hands the column
      itself to the regular-expression compiler, which refuses anything but a string.
      The comparisons are those of the corrected operator. */
  function ApplyOperatorAsWritten(left: seq<Value>, op: string, right: seq<Value>, rightName: string,
                                  re: Regex): (r: Result<seq<bool>>)
    requires |left| == |right|
    ensures r.Ok? ==> |r.value| == |left|
    ensures op == "regex" ==> r == Err(TypeError)
    ensures op != "contains" && op != "regex" ==> r == ApplyOperator(left, op, right, re.matchStart)
  {
    if op == "contains" then SearchColumn(left, SeriesRepr(right, rightName), re)
    else if op == "regex" then Err(TypeError)
    else ApplyOperator(left, op, right, re.matchStart)
  }

  /** As written, "contains" over right values and a column name free of
      metacharacters never raises, and holds only for left values at least as long as
      the printed right column, whatever the right values are. */
  lemma AsWrittenContainsNeedsLongValues(left: seq<Value>, right: seq<Value>, rightName: string, re: Regex, i: nat)
    requires |left| == |right| && i < |left|
    requires Literal(rightName) && forall j :: 0 <= j < |right| ==> Literal(CellString(right[j]))
    ensures ApplyOperatorAsWritten(left, "contains", right, rightName, re).Ok?
    ensures ApplyOperatorAsWritten(left, "contains", right, rightName, re).value[i] ==>
      |CellString(left[i])| >= |rightName| + 21
  {
    ReprLiteral(right, rightName);
    if Contains(CellString(left[i]), SeriesRepr(right, rightName)) {
      ContainsNotLonger(CellString(left[i]), SeriesRepr(right, rightName));
    }
  }

  /** A one-row join where the left value "abc" contains the right value "b": the
      corrected operator keeps the row, the one as written drops it; "regex" as
      written raises where the corrected one matches. */
  lemma ContainsAsWrittenMissesSubstring(re: Regex)
    requires re.matchStart("abc", "a.c")
    ensures ApplyOperator([Str("abc")], "contains", [Str("b")], re.matchStart) == Ok([true])
    ensures ApplyOperatorAsWritten([Str("abc")], "contains", [Str("b")], "name_tgt", re) == Ok([false])
    ensures ApplyOperator([Str("abc")], "regex", [Str("a.c")], re.matchStart) == Ok([true])
    ensures ApplyOperatorAsWritten([Str("abc")], "regex", [Str("a.c")], "name_tgt", re) == Err(TypeError)
  {
    var matches := re.matchStart;
    assert OccursAt("abc", "b", 1);
    assert Operators[6] == "contains" && Operators[7] == "regex";
    assert RowOperator(Str("abc"), "contains", Str("b"), matches) == Ok(true);
    assert RowOperator(Str("abc"), "regex", Str("a.c"), matches) == Ok(true);
    var c := ApplyOperator([Str("abc")], "contains", [Str("b")], matches);
    assert !exists i :: 0 <= i < 1 && RowOperator([Str("abc")][i], "contains", [Str("b")][i], matches).Err?;
    assert c.Ok? && |c.value| == 1 && c.value[0];
    assert c.value == [true];
    var m := ApplyOperator([Str("abc")], "regex", [Str("a.c")], matches);
    assert !exists i :: 0 <= i < 1 && RowOperator([Str("abc")][i], "regex", [Str("a.c")][i], matches).Err?;
    assert m.Ok? && |m.value| == 1 && m.value[0];
    assert m.value == [true];
    AsWrittenContainsNeedsLongValues([Str("abc")], [Str("b")], "name_tgt", re, 0);
    var r := ApplyOperatorAsWritten([Str("abc")], "contains", [Str("b")], "name_tgt", re);
    assert r.Ok? && |r.value| == 1 && !r.value[0];
    assert r.value == [false];
  }

  /** The corrected "contains" on every row: the left string form contains the right. */
  lemma ContainsElementwise(left: seq<Value>, right: seq<Value>, matches: Matcher)
    requires |left| == |right|
    ensures ApplyOperator(left, "contains", right, matches).Ok?
    ensures forall i :: 0 <= i < |left| ==>
      (ApplyOperator(left, "contains", right, matches).value[i] <==> Contains(CellString(left[i]), CellString(right[i])))
  {
  }

  /** "==" and "!=" never raise and are each other's negation; on rows without a
      missing cell "<" and ">=" (and ">" and "<=") are each other's negation too,
      while a missing cell fails all four. */
  lemma NegatedOperators(l: Value, r: Value, matches: Matcher)
    ensures RowOperator(l, "==", r, matches).Ok? && RowOperator(l, "!=", r, matches).Ok?
    ensures RowOperator(l, "!=", r, matches).value == !RowOperator(l, "==", r, matches).value
    ensures RowOperator(l, "<", r, matches).Ok? ==>
      && RowOperator(l, ">=", r, matches).Ok?
      && (!l.Missing? && !r.Missing? ==> RowOperator(l, ">=", r, matches).value == !RowOperator(l, "<", r, matches).value)
      && (l.Missing? || r.Missing? ==> !RowOperator(l, "<", r, matches).value && !RowOperator(l, ">=", r, matches).value)
    ensures RowOperator(l, ">", r, matches).Ok? ==>
      && RowOperator(l, "<=", r, matches).Ok?
      && (!l.Missing? && !r.Missing? ==> RowOperator(l, "<=", r, matches).value == !RowOperator(l, ">", r, matches).value)
  {
    CmpOfComparisons();
    RowComparison(l, "==", Eq, r, matches);
    RowComparison(l, "!=", Ne, r, matches);
    RowComparison(l, "<", Lt, r, matches);
    RowComparison(l, ">=", Ge, r, matches);
    RowComparison(l, ">", Gt, r, matches);
    RowComparison(l, "<=", Le, r, matches);
    CompareNegations(l, r);
  }

  lemma CmpOfComparisons()
    ensures CmpOf("==") == Some(Eq) && CmpOf("!=") == Some(Ne)
    ensures CmpOf("<") == Some(Lt) && CmpOf(">=") == Some(Ge)
    ensures CmpOf(">") == Some(Gt) && CmpOf("<=") == Some(Le)
  {
  }

  /** A comparison operator compares the two cells; a pair that cannot be ordered raises. */
  lemma RowComparison(l: Value, op: string, c: CmpOp, r: Value, matches: Matcher)
    requires CmpOf(op) == Some(c)
    ensures CompareCells(l, c, r).Ok? ==> RowOperator(l, op, r, matches) == CompareCells(l, c, r)
    ensures CompareCells(l, c, r).Err? ==> RowOperator(l, op, r, matches) == Err(TypeError)
  {
  }

  /** The cell comparisons behind `NegatedOperators`. */
  lemma CompareNegations(l: Value, r: Value)
    ensures CompareCells(l, Eq, r).Ok? && CompareCells(l, Ne, r).Ok?
    ensures CompareCells(l, Ne, r).value == !CompareCells(l, Eq, r).value
    ensures CompareCells(l, Lt, r).Ok? ==>
      && CompareCells(l, Ge, r).Ok?
      && (!l.Missing? && !r.Missing? ==> CompareCells(l, Ge, r).value == !CompareCells(l, Lt, r).value)
      && (l.Missing? || r.Missing? ==> !CompareCells(l, Lt, r).value && !CompareCells(l, Ge, r).value)
    ensures CompareCells(l, Gt, r).Ok? ==>
      && CompareCells(l, Le, r).Ok?
      && (!l.Missing? && !r.Missing? ==> CompareCells(l, Le, r).value == !CompareCells(l, Gt, r).value)
  {
    if !l.Missing? && !r.Missing? && l.Str? && r.Str? {
      StrLessTotal(l.s, r.s);
      StrLessAsymmetric(l.s, r.s);
    }
  }

  /** Distinct strings are ordered one way or the other. */
  lemma {:induction false} StrLessTotal(a: string, b: string)
    ensures a == b || StrLess(a, b) || StrLess(b, a)
    decreases |a|
  {
    if a != [] && b != [] && a[0] == b[0] {
      StrLessTotal(a[1..], b[1..]);
      if a[1..] == b[1..] {
        assert a == [a[0]] + a[1..] && b == [b[0]] + b[1..];
      }
    }
  }

  lemma {:induction false} StrLessAsymmetric(a: string, b: string)
    ensures !(StrLess(a, b) && StrLess(b, a))
    ensures !StrLess(a, a)
    decreases |a|
  {
    if a != [] && b != [] && a[0] == b[0] {
      StrLessAsymmetric(a[1..], b[1..]);
    }
    if a != [] {
      StrLessAsymmetric(a[1..], a[1..]);
    }
  }

  // ---------------------------------------------------------------------------
  // The join

  /** One row of the merged table: a source object and a target object. */
  datatype Pair = Pair(source: Row, target: Row)

  /** One output record. */
  datatype O2ORecord = O2ORecord(sourceObject: Value, targetObject: Value, relationType: string)

  /** The side filter: the rule's explicit filter, else the objects of the given type. */
  function SideFilter(explicit: Option<ObjectFilter>, objectType: string): (f: ObjectFilter)
    ensures explicit.Some? ==> f == explicit.value
  {
    if explicit.Some? then explicit.value else ObjectFilter(Some([objectType]), None)
  }

  /** The conditions that become merge keys, and the rest, in their order. */
  function EqConditions(cs: seq<JoinCondition>): seq<JoinCondition>
  {
    if cs == [] then []
    else (if cs[0].operator == "==" then [cs[0]] else []) + EqConditions(cs[1..])
  }

  function OtherConditions(cs: seq<JoinCondition>): seq<JoinCondition>
  {
    if cs == [] then []
    else (if cs[0].operator != "==" then [cs[0]] else []) + OtherConditions(cs[1..])
  }

  /** Every condition lands in exactly one of the two lists, the equalities in the first. */
  lemma {:induction false} ConditionsPartition(cs: seq<JoinCondition>)
    ensures multiset(EqConditions(cs)) + multiset(OtherConditions(cs)) == multiset(cs)
    ensures forall c :: c in EqConditions(cs) ==> c in cs && c.operator == "=="
    ensures forall c :: c in OtherConditions(cs) ==> c in cs && c.operator != "=="
  {
    if cs != [] {
      ConditionsPartition(cs[1..]);
      assert cs == [cs[0]] + cs[1..];
    }
  }

  /** The merge keys agree: `merge` pairs equal keys, and missing keys with each other. */
  predicate KeysMatch(p: Pair, eqs: seq<JoinCondition>)
  {
    forall k :: 0 <= k < |eqs| ==>
      Cell(p.source, Name(eqs[k].sourceAttribute)) == Cell(p.target, Name(eqs[k].targetAttribute))
  }

  /** The target rows paired with one source row under the merge keys, in target order. */
  function PairsOf(s: Row, tgt: seq<Row>, eqs: seq<JoinCondition>): seq<Pair>
  {
    Select(seq(|tgt|, j requires 0 <= j < |tgt| => Pair(s, tgt[j])),
           seq(|tgt|, j requires 0 <= j < |tgt| => KeysMatch(Pair(s, tgt[j]), eqs)))
  }

  /** The inner merge, source row by source row; with no keys, the cross product. */
  function Join(src: seq<Row>, tgt: seq<Row>, eqs: seq<JoinCondition>): seq<Pair>
  {
    if src == [] then []
    else Join(src[..|src| - 1], tgt, eqs) + PairsOf(src[|src| - 1], tgt, eqs)
  }

  lemma PairsOfMembers(s: Row, tgt: seq<Row>, eqs: seq<JoinCondition>, p: Pair)
    ensures p in PairsOf(s, tgt, eqs) <==> p.source == s && p.target in tgt && KeysMatch(p, eqs)
  {
    var all := seq(|tgt|, j requires 0 <= j < |tgt| => Pair(s, tgt[j]));
    var keep := seq(|tgt|, j requires 0 <= j < |tgt| => KeysMatch(Pair(s, tgt[j]), eqs));
    SelectMembers(all, keep, p);
    if p.source == s && p.target in tgt && KeysMatch(p, eqs) {
      var j :| 0 <= j < |tgt| && tgt[j] == p.target;
      assert all[j] == p && keep[j];
    }
  }

  /** The merged rows are exactly the key-matching pairs of a source and a target row. */
  lemma {:induction false} JoinMembers(src: seq<Row>, tgt: seq<Row>, eqs: seq<JoinCondition>, p: Pair)
    ensures p in Join(src, tgt, eqs) <==> p.source in src && p.target in tgt && KeysMatch(p, eqs)
    decreases |src|
  {
    if src != [] {
      var init := src[..|src| - 1];
      JoinMembers(init, tgt, eqs, p);
      PairsOfMembers(src[|src| - 1], tgt, eqs, p);
      assert src == init + [src[|src| - 1]];
    }
  }

  /** Without merge keys every source row meets every target row. */
  lemma {:induction false} CrossJoinSize(src: seq<Row>, tgt: seq<Row>)
    ensures |Join(src, tgt, [])| == |src| * |tgt|
    decreases |src|
  {
    if src != [] {
      CrossJoinSize(src[..|src| - 1], tgt);
      SelectAll(seq(|tgt|, j requires 0 <= j < |tgt| => Pair(src[|src| - 1], tgt[j])),
                seq(|tgt|, j requires 0 <= j < |tgt| => KeysMatch(Pair(src[|src| - 1], tgt[j]), [])));
    }
  }

  /** Whether both keys of an equality condition are columns of their sides. */
  predicate KeysPresent(srcColumns: seq<Label>, tgtColumns: seq<Label>, c: JoinCondition)
  {
    Name(c.sourceAttribute) in srcColumns && Name(c.targetAttribute) in tgtColumns
  }

  /** The merge raises `KeyError` for the first condition, in order, with a key that is
      not a column of its side, naming the target key when it is absent and otherwise
      the source key: pandas looks up the right key of a pair before the left one. */
  function MergeKeyError(srcColumns: seq<Label>, tgtColumns: seq<Label>, eqs: seq<JoinCondition>): (r: Option<Error>)
    ensures r.None? <==> forall k :: 0 <= k < |eqs| ==>
      Name(eqs[k].sourceAttribute) in srcColumns && Name(eqs[k].targetAttribute) in tgtColumns
    ensures r.Some? ==> exists k :: (0 <= k < |eqs|
      && (forall i :: 0 <= i < k ==> KeysPresent(srcColumns, tgtColumns, eqs[i]))
      && !KeysPresent(srcColumns, tgtColumns, eqs[k])
      && r.value == KeyError(Name(if Name(eqs[k].targetAttribute) !in tgtColumns
                                  then eqs[k].targetAttribute else eqs[k].sourceAttribute)))
  {
    if eqs == [] then None
    else if Name(eqs[0].targetAttribute) !in tgtColumns then Some(KeyError(Name(eqs[0].targetAttribute)))
    else if Name(eqs[0].sourceAttribute) !in srcColumns then Some(KeyError(Name(eqs[0].sourceAttribute)))
    else
      var r := MergeKeyError(srcColumns, tgtColumns, eqs[1..]);
      assert forall k :: 0 < k < |eqs| ==> eqs[k] == eqs[1..][k - 1];
      if r.Some? then
        var k :| 0 <= k < |eqs[1..]|
          && (forall i :: 0 <= i < k ==> KeysPresent(srcColumns, tgtColumns, eqs[1..][i]))
          && !KeysPresent(srcColumns, tgtColumns, eqs[1..][k])
          && r.value == KeyError(Name(if Name(eqs[1..][k].targetAttribute) !in tgtColumns
                                      then eqs[1..][k].targetAttribute else eqs[1..][k].sourceAttribute));
        assert forall i :: 0 <= i < k + 1 ==> KeysPresent(srcColumns, tgtColumns, eqs[i]) by {
          forall i | 0 < i < k + 1 ensures KeysPresent(srcColumns, tgtColumns, eqs[i]) {
            assert eqs[i] == eqs[1..][i - 1];
          }
        }
        r
      else r
  }

  /** A condition whose two keys are both absent reports the target key. */
  lemma TargetKeyReportedFirst(c: JoinCondition)
    requires c.sourceAttribute != c.targetAttribute
    ensures MergeKeyError([], [], [c]) == Some(KeyError(Name(c.targetAttribute)))
  {
  }

  // ---------------------------------------------------------------------------
  // The labels of the merged table

  /** Whether an equality condition joins the attribute to itself: the merge then drops
      the target's key column and keeps one column under the plain name. */
  predicate Collapsed(a: string, eqs: seq<JoinCondition>)
  {
    exists k :: 0 <= k < |eqs| && eqs[k].sourceAttribute == a && eqs[k].targetAttribute == a
  }

  /** Whether the merged table holds the attribute as `<a>_src` and `<a>_tgt`: it is a
      column of both sides, so the suffixes apply, and not a key joined to itself. */
  predicate Suffixed(a: string, srcColumns: seq<Label>, tgtColumns: seq<Label>, eqs: seq<JoinCondition>)
  {
    Name(a) in srcColumns && Name(a) in tgtColumns && !Collapsed(a, eqs)
  }

  // ---------------------------------------------------------------------------
  // The other conditions

  /** Which reading of `apply_operator` a rule runs under: the one as written, or the
      corrected element-wise one. */
  datatype Semantics = AsWritten | Corrected

  /** Whether one condition holds on one merged row under the corrected operator. */
  predicate CondHolds(p: Pair, c: JoinCondition, matches: Matcher)
  {
    RowOperator(Cell(p.source, Name(c.sourceAttribute)), c.operator, Cell(p.target, Name(c.targetAttribute)), matches) == Ok(true)
  }

  /** One condition over the merged table: it reads the columns `<a>_src` and `<b>_tgt`,
      which must exist, and applies the operator to them. */
  function ConditionMask(merged: seq<Pair>, c: JoinCondition, srcColumns: seq<Label>, tgtColumns: seq<Label>,
                         eqs: seq<JoinCondition>, sem: Semantics, re: Regex): (r: Result<seq<bool>>)
    ensures r.Ok? ==> |r.value| == |merged|
    ensures r.Ok? ==> Suffixed(c.sourceAttribute, srcColumns, tgtColumns, eqs) && Suffixed(c.targetAttribute, srcColumns, tgtColumns, eqs)
    ensures r.Ok? && sem.Corrected? ==> forall i :: 0 <= i < |merged| ==> (r.value[i] <==> CondHolds(merged[i], c, re.matchStart))
  {
    if !Suffixed(c.sourceAttribute, srcColumns, tgtColumns, eqs) then Err(KeyError(Name(c.sourceAttribute + "_src")))
    else if !Suffixed(c.targetAttribute, srcColumns, tgtColumns, eqs) then Err(KeyError(Name(c.targetAttribute + "_tgt")))
    else
      var left := seq(|merged|, i requires 0 <= i < |merged| => Cell(merged[i].source, Name(c.sourceAttribute)));
      var right := seq(|merged|, i requires 0 <= i < |merged| => Cell(merged[i].target, Name(c.targetAttribute)));
      if sem.Corrected? then ApplyOperator(left, c.operator, right, re.matchStart)
      else ApplyOperatorAsWritten(left, c.operator, right, c.targetAttribute + "_tgt", re)
  }

  /** Whether a merged row satisfies every condition that is not an equality. */
  predicate OthersHold(p: Pair, others: seq<JoinCondition>, matches: Matcher)
  {
    forall k :: 0 <= k < |others| ==> CondHolds(p, others[k], matches)
  }

  /** Whether every condition's lookup and operator succeed on the merged rows. */
  predicate MasksOk(merged: seq<Pair>, cs: seq<JoinCondition>, srcColumns: seq<Label>, tgtColumns: seq<Label>,
                    eqs: seq<JoinCondition>, sem: Semantics, re: Regex)
  {
    forall k :: 0 <= k < |cs| ==> ConditionMask(merged, cs[k], srcColumns, tgtColumns, eqs, sem, re).Ok?
  }

  lemma OthersHoldSnoc(cs: seq<JoinCondition>, matches: Matcher)
    requires cs != []
    ensures forall p :: OthersHold(p, cs, matches) <==>
      OthersHold(p, cs[..|cs| - 1], matches) && CondHolds(p, cs[|cs| - 1], matches)
  {
    forall p ensures OthersHold(p, cs, matches) <==>
      OthersHold(p, cs[..|cs| - 1], matches) && CondHolds(p, cs[|cs| - 1], matches)
    {
      if OthersHold(p, cs[..|cs| - 1], matches) && CondHolds(p, cs[|cs| - 1], matches) {
        forall k | 0 <= k < |cs| ensures CondHolds(p, cs[k], matches) {
          if k < |cs| - 1 { assert cs[..|cs| - 1][k] == cs[k]; }
        }
      }
    }
  }

  lemma MasksOkSnoc(merged: seq<Pair>, cs: seq<JoinCondition>, srcColumns: seq<Label>, tgtColumns: seq<Label>,
                    eqs: seq<JoinCondition>, sem: Semantics, re: Regex)
    requires cs != []
    ensures MasksOk(merged, cs, srcColumns, tgtColumns, eqs, sem, re) <==>
      MasksOk(merged, cs[..|cs| - 1], srcColumns, tgtColumns, eqs, sem, re) &&
      ConditionMask(merged, cs[|cs| - 1], srcColumns, tgtColumns, eqs, sem, re).Ok?
  {
    var init := cs[..|cs| - 1];
    assert forall k :: 0 <= k < |init| ==> init[k] == cs[k];
  }

  /** `join_mask` after the given conditions, or the first exception one raises. */
  function JoinMask(merged: seq<Pair>, cs: seq<JoinCondition>, srcColumns: seq<Label>, tgtColumns: seq<Label>,
                    eqs: seq<JoinCondition>, sem: Semantics, re: Regex): (r: Result<seq<bool>>)
    ensures r.Ok? ==> |r.value| == |merged|
    ensures r.Ok? && sem.Corrected? ==>
      forall i :: 0 <= i < |merged| ==> (r.value[i] <==> OthersHold(merged[i], cs, re.matchStart))
    ensures r.Ok? <==> MasksOk(merged, cs, srcColumns, tgtColumns, eqs, sem, re)
  {
    if cs == [] then Ok(Constant(|merged|, true))
    else
      var init := cs[..|cs| - 1];
      var last := cs[|cs| - 1];
      MasksOkSnoc(merged, cs, srcColumns, tgtColumns, eqs, sem, re);
      match JoinMask(merged, init, srcColumns, tgtColumns, eqs, sem, re)
      case Err(e) => Err(e)
      case Ok(m) =>
        match ConditionMask(merged, last, srcColumns, tgtColumns, eqs, sem, re)
        case Err(e) => Err(e)
        case Ok(c) =>
          OthersHoldSnoc(cs, re.matchStart);
          Ok(And(m, c))
  }

  /** Whether no condition uses an operator whose reading as written differs. */
  predicate NoPatterns(cs: seq<JoinCondition>)
  {
    forall k :: 0 <= k < |cs| ==> cs[k].operator != "contains" && cs[k].operator != "regex"
  }

  /** Without "contains" and "regex" the mask as written is the corrected one. */
  lemma {:induction false} JoinMaskAgrees(merged: seq<Pair>, cs: seq<JoinCondition>, srcColumns: seq<Label>,
                                          tgtColumns: seq<Label>, eqs: seq<JoinCondition>, re: Regex)
    requires NoPatterns(cs)
    ensures JoinMask(merged, cs, srcColumns, tgtColumns, eqs, AsWritten, re) ==
            JoinMask(merged, cs, srcColumns, tgtColumns, eqs, Corrected, re)
    decreases |cs|
  {
    if cs != [] {
      var init := cs[..|cs| - 1];
      assert NoPatterns(init) by {
        forall k | 0 <= k < |init| ensures init[k] == cs[k] {}
      }
      JoinMaskAgrees(merged, init, srcColumns, tgtColumns, eqs, re);
      var last := cs[|cs| - 1];
      assert last.operator != "contains" && last.operator != "regex";
      assert ConditionMask(merged, last, srcColumns, tgtColumns, eqs, AsWritten, re) ==
             ConditionMask(merged, last, srcColumns, tgtColumns, eqs, Corrected, re);
    }
  }


  function RecordOf(p: Pair, relationType: string): O2ORecord
  {
    O2ORecord(Cell(p.source, ObjectId), Cell(p.target, ObjectId), relationType)
  }

  function Records(kept: seq<Pair>, relationType: string): (recs: seq<O2ORecord>)
    ensures |recs| == |kept| && forall i :: 0 <= i < |kept| ==> recs[i] == RecordOf(kept[i], relationType)
  {
    seq(|kept|, i requires 0 <= i < |kept| => RecordOf(kept[i], relationType))
  }

  /** What the rule produces from the join, once both sides are known and not empty:
      the merge, the narrowed rows, and one record per row read from the renamed id
      columns, which raise `KeyError` when the merge did not suffix the id. */
  function JoinResult(src: Frame, tgt: Frame, rule: O2ORule, sem: Semantics, re: Regex): (r: Result<seq<O2ORecord>>)
    ensures var eqs := EqConditions(rule.joinConditions);
      r.Ok? && r.value != [] ==> Suffixed(ObjectId.name, src.columns, tgt.columns, eqs)
    ensures r.Ok? ==> |r.value| <= |Join(src.rows, tgt.rows, EqConditions(rule.joinConditions))|
  {
    var eqs := EqConditions(rule.joinConditions);
    var others := OtherConditions(rule.joinConditions);
    var err := MergeKeyError(src.columns, tgt.columns, eqs);
    if err.Some? then Err(err.value)
    else
      var merged := Join(src.rows, tgt.rows, eqs);
      if merged == [] then Ok([])
      else
        match JoinMask(merged, others, src.columns, tgt.columns, eqs, sem, re)
        case Err(e) => Err(e)
        case Ok(mask) =>
          var kept := Select(merged, mask);
          if kept == [] then Ok([])
          else if !Suffixed(ObjectId.name, src.columns, tgt.columns, eqs) then Err(KeyError(Name("source-object")))
          else Ok(Records(kept, rule.relationType))
  }

  /** The records of a rule over the object table, or the exception it raises. */
  function O2OResult(objects: Frame, rule: O2ORule, sem: Semantics, re: Regex): (r: Result<seq<O2ORecord>>)
    ensures r.Ok? && r.value != [] ==> SidesOk(objects, rule)
    ensures r.Ok? && r.value != [] ==>
      Suffixed(ObjectId.name, SourceSide(objects, rule).columns, TargetSide(objects, rule).columns, EqConditions(rule.joinConditions))
  {
    match ObjectFilters.ObjectFilterResult(objects, Some(SideFilter(rule.sourceFilter, rule.sourceType)))
    case Err(e) => Err(e)
    case Ok(src) =>
      match ObjectFilters.ObjectFilterResult(objects, Some(SideFilter(rule.targetFilter, rule.targetType)))
      case Err(e) => Err(e)
      case Ok(tgt) =>
        if src.rows == [] || tgt.rows == [] then Ok([])
        else JoinResult(src, tgt, rule, sem, re)
  }

  /** Filters both sides, merges them on the equality conditions (the cross product
      when there are none), narrows the merged rows condition by condition with the
      operator as written, and emits one record per remaining row. */
  method ApplyO2ORule(objects: Frame, rule: O2ORule, re: Regex) returns (r: Result<seq<O2ORecord>>)
    ensures r == O2OResult(objects, rule, AsWritten, re)
  {
    var source := ObjectFilters.ApplyObjectFilter(objects, Some(SideFilter(rule.sourceFilter, rule.sourceType)));
    if source.Err? {
      return Err(source.error);
    }
    var target := ObjectFilters.ApplyObjectFilter(objects, Some(SideFilter(rule.targetFilter, rule.targetType)));
    if target.Err? {
      return Err(target.error);
    }
    var src, tgt := source.value, target.value;
    if src.rows == [] || tgt.rows == [] {
      return Ok([]);
    }
    var eqs := EqConditions(rule.joinConditions);
    var others := OtherConditions(rule.joinConditions);
    var err := MergeKeyError(src.columns, tgt.columns, eqs);
    if err.Some? {
      return Err(err.value);
    }
    var merged := Join(src.rows, tgt.rows, eqs);
    if merged == [] {
      return Ok([]);
    }
    var mask := NarrowMask(merged, others, src.columns, tgt.columns, eqs, re);
    if mask.Err? {
      return Err(mask.error);
    }
    var kept := Select(merged, mask.value);
    if kept == [] {
      return Ok([]);
    }
    if !Suffixed(ObjectId.name, src.columns, tgt.columns, eqs) {
      return Err(KeyError(Name("source-object")));
    }
    return Ok(Records(kept, rule.relationType));
  }

  /** The loop over the remaining conditions: each one's mask, as written, is and-ed
      into the running mask, and the first one that raises ends the loop. */
  method NarrowMask(merged: seq<Pair>, others: seq<JoinCondition>, srcColumns: seq<Label>, tgtColumns: seq<Label>,
                    eqs: seq<JoinCondition>, re: Regex) returns (r: Result<seq<bool>>)
    ensures r == JoinMask(merged, others, srcColumns, tgtColumns, eqs, AsWritten, re)
  {
    var joinMask := Constant(|merged|, true);
    var i := 0;
    while i < |others|
      invariant 0 <= i <= |others|
      invariant JoinMask(merged, others[..i], srcColumns, tgtColumns, eqs, AsWritten, re) == Ok(joinMask)
    {
      var c := others[i];
      var m := ConditionMask(merged, c, srcColumns, tgtColumns, eqs, AsWritten, re);
      assert others[..i + 1][..i] == others[..i];
      if m.Err? {
        JoinMaskPrefixErr(merged, others, i + 1, srcColumns, tgtColumns, eqs, re);
        return Err(m.error);
      }
      joinMask := And(joinMask, m.value);
      i := i + 1;
    }
    assert others[..i] == others;
    return Ok(joinMask);
  }

  /** Once a prefix of the conditions raises, the whole fold raises the same. */
  lemma {:induction false} JoinMaskPrefixErr(merged: seq<Pair>, cs: seq<JoinCondition>, n: nat,
                                             srcColumns: seq<Label>, tgtColumns: seq<Label>,
                                             eqs: seq<JoinCondition>, re: Regex)
    requires n <= |cs|
    requires JoinMask(merged, cs[..n], srcColumns, tgtColumns, eqs, AsWritten, re).Err?
    ensures JoinMask(merged, cs, srcColumns, tgtColumns, eqs, AsWritten, re) ==
            JoinMask(merged, cs[..n], srcColumns, tgtColumns, eqs, AsWritten, re)
    decreases |cs| - n
  {
    if n < |cs| {
      var init := cs[..|cs| - 1];
      assert init[..n] == cs[..n];
      if n < |init| {
        JoinMaskPrefixErr(merged, init, n, srcColumns, tgtColumns, eqs, re);
      } else {
        assert init == cs[..n];
      }
    } else {
      assert cs[..n] == cs;
    }
  }

  // ---------------------------------------------------------------------------
  // Properties

  /** Both sides filtered without error, and what they hold. */
  predicate SidesOk(objects: Frame, rule: O2ORule)
  {
    && ObjectFilters.ObjectFilterResult(objects, Some(SideFilter(rule.sourceFilter, rule.sourceType))).Ok?
    && ObjectFilters.ObjectFilterResult(objects, Some(SideFilter(rule.targetFilter, rule.targetType))).Ok?
  }

  function SourceSide(objects: Frame, rule: O2ORule): Frame
    requires SidesOk(objects, rule)
  {
    ObjectFilters.ObjectFilterResult(objects, Some(SideFilter(rule.sourceFilter, rule.sourceType))).value
  }

  function TargetSide(objects: Frame, rule: O2ORule): Frame
    requires SidesOk(objects, rule)
  {
    ObjectFilters.ObjectFilterResult(objects, Some(SideFilter(rule.targetFilter, rule.targetType))).value
  }

  /** Whether a pair of objects is related by the rule: a source-side row and a
      target-side row whose merge keys agree and which satisfy every other condition. */
  predicate Related(objects: Frame, rule: O2ORule, matches: Matcher, p: Pair)
    requires SidesOk(objects, rule)
  {
    && p.source in SourceSide(objects, rule).rows
    && p.target in TargetSide(objects, rule).rows
    && KeysMatch(p, EqConditions(rule.joinConditions))
    && OthersHold(p, OtherConditions(rule.joinConditions), matches)
  }

  /** Under the corrected operator a successful rule emits exactly the related pairs,
      each as a record carrying the two object ids and the rule's relation type. */
  lemma O2ORecordsAreRelatedPairs(objects: Frame, rule: O2ORule, re: Regex)
    requires O2OResult(objects, rule, Corrected, re).Ok?
    ensures SidesOk(objects, rule)
    ensures forall rec :: rec in O2OResult(objects, rule, Corrected, re).value ==>
      rec.relationType == rule.relationType &&
      exists p :: Related(objects, rule, re.matchStart, p) && rec == RecordOf(p, rule.relationType)
    ensures forall p :: Related(objects, rule, re.matchStart, p) ==>
      RecordOf(p, rule.relationType) in O2OResult(objects, rule, Corrected, re).value
  {
    var src, tgt := SourceSide(objects, rule), TargetSide(objects, rule);
    var eqs, others := EqConditions(rule.joinConditions), OtherConditions(rule.joinConditions);
    var recs := O2OResult(objects, rule, Corrected, re).value;
    if src.rows == [] || tgt.rows == [] {
      forall p | Related(objects, rule, re.matchStart, p) ensures false {}
    } else {
      var merged := Join(src.rows, tgt.rows, eqs);
      forall p ensures p in merged <==> p.source in src.rows && p.target in tgt.rows && KeysMatch(p, eqs) {
        JoinMembers(src.rows, tgt.rows, eqs, p);
      }
      if merged == [] {
        forall p | Related(objects, rule, re.matchStart, p) ensures false {
          JoinMembers(src.rows, tgt.rows, eqs, p);
        }
      } else {
        var mask := JoinMask(merged, others, src.columns, tgt.columns, eqs, Corrected, re).value;
        var kept := Select(merged, mask);
        forall p ensures p in kept <==> Related(objects, rule, re.matchStart, p) {
          SelectMembers(merged, mask, p);
        }
        if kept == [] {
          assert recs == [];
          forall p ensures !Related(objects, rule, re.matchStart, p) {
            assert p !in kept;
          }
        } else {
          assert recs == Records(kept, rule.relationType);
          forall rec | rec in recs
            ensures rec.relationType == rule.relationType &&
              exists p :: Related(objects, rule, re.matchStart, p) && rec == RecordOf(p, rule.relationType)
          {
            var i :| 0 <= i < |recs| && recs[i] == rec;
            assert kept[i] in kept;
          }
          forall p | Related(objects, rule, re.matchStart, p) ensures RecordOf(p, rule.relationType) in recs {
            var i :| 0 <= i < |kept| && kept[i] == p;
            assert recs[i] == RecordOf(p, rule.relationType);
          }
        }
      }
    }
  }

  /** Without "contains" and "regex" the rule as written produces what the corrected
      rule does. */
  lemma AsWrittenAgrees(objects: Frame, rule: O2ORule, re: Regex)
    requires NoPatterns(rule.joinConditions)
    ensures O2OResult(objects, rule, AsWritten, re) == O2OResult(objects, rule, Corrected, re)
  {
    var others := OtherConditions(rule.joinConditions);
    assert NoPatterns(others) by {
      ConditionsPartition(rule.joinConditions);
      forall k | 0 <= k < |others| ensures others[k] in rule.joinConditions {
        assert others[k] in others;
      }
    }
    if SidesOk(objects, rule) {
      var src, tgt := SourceSide(objects, rule), TargetSide(objects, rule);
      var eqs := EqConditions(rule.joinConditions);
      JoinMaskAgrees(Join(src.rows, tgt.rows, eqs), others, src.columns, tgt.columns, eqs, re);
    }
  }

  /** So, for a rule without "contains" and "regex", the program as written emits
      exactly the related pairs whenever it succeeds. */
  lemma AsWrittenRecordsAreRelatedPairs(objects: Frame, rule: O2ORule, re: Regex)
    requires NoPatterns(rule.joinConditions)
    requires O2OResult(objects, rule, AsWritten, re).Ok?
    ensures SidesOk(objects, rule)
    ensures forall rec :: rec in O2OResult(objects, rule, AsWritten, re).value ==>
      rec.relationType == rule.relationType &&
      exists p :: Related(objects, rule, re.matchStart, p) && rec == RecordOf(p, rule.relationType)
    ensures forall p :: Related(objects, rule, re.matchStart, p) ==>
      RecordOf(p, rule.relationType) in O2OResult(objects, rule, AsWritten, re).value
  {
    AsWrittenAgrees(objects, rule, re);
    O2ORecordsAreRelatedPairs(objects, rule, re);
  }

  /** Without an explicit filter a side holds exactly the objects of the rule's type. */
  lemma DefaultSide(objects: Frame, objectType: string)
    ensures ObjectFilters.ObjectFilterResult(objects, Some(SideFilter(None, objectType))).Ok?
    ensures forall x :: x in ObjectFilters.ObjectFilterResult(objects, Some(SideFilter(None, objectType))).value.rows <==>
      (x in objects.rows && Cell(x, ObjectType) == Str(objectType))
  {
    ObjectFilters.ObjectFilterSelects(objects, SideFilter(None, objectType));
  }

  /** An empty side gives no records, once both sides filter without error. */
  lemma EmptySideGivesNothing(objects: Frame, rule: O2ORule, sem: Semantics, re: Regex)
    requires SidesOk(objects, rule)
    requires SourceSide(objects, rule).rows == [] || TargetSide(objects, rule).rows == []
    ensures O2OResult(objects, rule, sem, re) == Ok([])
  {
  }

  /** With only equality conditions on known columns, every key-matching pair of the
      two sides is emitted, so the records number as many as the merged rows, unless
      the merge joined the object id to itself: then there is no `ocel:oid_src` to
      rename and any non-empty merge raises `KeyError`. */
  lemma OnlyKeysKeepsMerge(objects: Frame, rule: O2ORule, sem: Semantics, re: Regex)
    requires SidesOk(objects, rule)
    requires forall k :: 0 <= k < |rule.joinConditions| ==> rule.joinConditions[k].operator == "=="
    requires MergeKeyError(SourceSide(objects, rule).columns, TargetSide(objects, rule).columns,
                           EqConditions(rule.joinConditions)).None?
    ensures var merged := Join(SourceSide(objects, rule).rows, TargetSide(objects, rule).rows, EqConditions(rule.joinConditions));
      var idSuffixed := Suffixed(ObjectId.name, SourceSide(objects, rule).columns, TargetSide(objects, rule).columns,
                                 EqConditions(rule.joinConditions));
      && (merged == [] || idSuffixed ==> O2OResult(objects, rule, sem, re).Ok? &&
                                          |O2OResult(objects, rule, sem, re).value| == |merged|)
      && (merged != [] && !idSuffixed ==> O2OResult(objects, rule, sem, re) == Err(KeyError(Name("source-object"))))
  {
    var src, tgt := SourceSide(objects, rule), TargetSide(objects, rule);
    NoOtherConditions(rule.joinConditions);
    var others := OtherConditions(rule.joinConditions);
    if src.rows != [] && tgt.rows != [] {
      var merged := Join(src.rows, tgt.rows, EqConditions(rule.joinConditions));
      if merged != [] {
        SelectAll(merged, JoinMask(merged, others, src.columns, tgt.columns, EqConditions(rule.joinConditions), sem, re).value);
      }
    } else {
      CrossJoinSizeEmpty(src.rows, tgt.rows, EqConditions(rule.joinConditions));
    }
  }

  lemma {:induction false} NoOtherConditions(cs: seq<JoinCondition>)
    requires forall k :: 0 <= k < |cs| ==> cs[k].operator == "=="
    ensures OtherConditions(cs) == []
  {
    if cs != [] {
      NoOtherConditions(cs[1..]);
    }
  }

  lemma {:induction false} CrossJoinSizeEmpty(src: seq<Row>, tgt: seq<Row>, eqs: seq<JoinCondition>)
    requires src == [] || tgt == []
    ensures Join(src, tgt, eqs) == []
    decreases |src|
  {
    if src != [] {
      CrossJoinSizeEmpty(src[..|src| - 1], tgt, eqs);
    }
  }
}
