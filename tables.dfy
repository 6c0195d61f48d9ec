/** Shared value model for the backend: pandas cells, rows and frames as values,
    Python's slicing and floor division, numeric coercion, element-wise comparisons,
    and the OCEL object (pm4py) whose tables the editing operations replace in place. */
module Tables {

  datatype Option<T> = None | Some(value: T)

  /** The exceptions the backend raises (or lets pandas raise). */
  datatype Error =
    | KeyError(column: Label)
    | TypeError
    | ValueError(message: string)
    | NotImplementedError
    | ZeroDivisionError
    | AttributeError
    | ValidationError
    | RegexError

  datatype Result<T> = Ok(value: T) | Err(error: Error)

  /** A column label: a string, or the integer labels the event filter writes. */
  datatype Label = Name(name: string) | Position(index: nat)

  /** A cell. `Missing` stands for NaN / None / NaT; `Time` for a timestamp (an instant). */
  datatype Value = Missing | Num(n: real) | Str(s: string) | Bool(b: bool) | Time(t: int)

  type Row = map<Label, Value>

  /** A data frame: its column labels in order and its rows in order. */
  datatype Frame = Frame(columns: seq<Label>, rows: seq<Row>)

  /** Every row carries exactly the frame's columns, and the columns are distinct. */
  ghost predicate WellFormed(f: Frame)
  {
    && (forall i, j :: 0 <= i < j < |f.columns| ==> f.columns[i] != f.columns[j])
    && (forall r :: r in f.rows ==> r.Keys == set c | c in f.columns)
  }

  /** `df.empty`: no rows or no columns. */
  predicate Empty(f: Frame)
  {
    |f.rows| == 0 || |f.columns| == 0
  }

  /** `row[c]`; a row without the column reads as missing. */
  function Cell(r: Row, c: Label): Value
  {
    if c in r then r[c] else Missing
  }

  /** A column's cells, top to bottom. */
  function ColumnValues(rows: seq<Row>, c: Label): (vs: seq<Value>)
    ensures |vs| == |rows| && forall i :: 0 <= i < |rows| ==> vs[i] == Cell(rows[i], c)
  {
    seq(|rows|, i requires 0 <= i < |rows| => Cell(rows[i], c))
  }

  /** The column names pm4py uses for an OCEL. */
  const EventId: Label := Name("ocel:eid")
  const ObjectId: Label := Name("ocel:oid")
  const ObjectType: Label := Name("ocel:type")
  const Activity: Label := Name("ocel:activity")
  const Timestamp: Label := Name("ocel:timestamp")
  const Qualifier: Label := Name("ocel:qualifier")

  /** pm4py's OCEL object. The editing operations replace its tables in place. */
  class Ocel {
    var events: Frame
    var objects: Frame
    var relations: Frame
    var objectChanges: Frame

    constructor (events: Frame, objects: Frame, relations: Frame, objectChanges: Frame)
      ensures this.events == events && this.objects == objects
      ensures this.relations == relations && this.objectChanges == objectChanges
    {
      this.events := events;
      this.objects := objects;
      this.relations := relations;
      this.objectChanges := objectChanges;
    }
  }

  // ---------------------------------------------------------------------------
  // Masks and selections (`df[mask]`, `df.loc[mask]`)

  /** The elements of `s` whose mask entry is true, in order. */
  function Select<T>(s: seq<T>, mask: seq<bool>): (r: seq<T>)
    requires |mask| == |s|
    ensures |r| <= |s|
    decreases |s|
  {
    if s == [] then [] else (if mask[0] then [s[0]] else []) + Select(s[1..], mask[1..])
  }

  /** Two sequences that agree at every selected position select the same elements. */
  lemma {:induction false} SelectAgree<T>(s: seq<T>, t: seq<T>, mask: seq<bool>)
    requires |mask| == |s| == |t|
    requires forall i :: 0 <= i < |s| && mask[i] ==> s[i] == t[i]
    ensures Select(s, mask) == Select(t, mask)
    decreases |s|
  {
    if s != [] {
      SelectAgree(s[1..], t[1..], mask[1..]);
    }
  }

  /** `x in Select(s, mask)` exactly when some selected position holds `x`. */
  lemma {:induction false} SelectMembers<T>(s: seq<T>, mask: seq<bool>, x: T)
    requires |mask| == |s|
    ensures x in Select(s, mask) <==> exists i :: 0 <= i < |s| && mask[i] && s[i] == x
    decreases |s|
  {
    if s != [] {
      SelectMembers(s[1..], mask[1..], x);
      if x in Select(s[1..], mask[1..]) {
        var i :| 0 <= i < |s[1..]| && mask[1..][i] && s[1..][i] == x;
        assert mask[i + 1] && s[i + 1] == x;
      }
      forall i | 0 < i < |s| && mask[i] && s[i] == x
        ensures x in Select(s[1..], mask[1..])
      {
        assert mask[1..][i - 1] && s[1..][i - 1] == x;
      }
    }
  }

  /** Selecting everything changes nothing. */
  lemma {:induction false} SelectAll<T>(s: seq<T>, mask: seq<bool>)
    requires |mask| == |s|
    requires forall i :: 0 <= i < |mask| ==> mask[i]
    ensures Select(s, mask) == s
    decreases |s|
  {
    if s != [] {
      SelectAll(s[1..], mask[1..]);
    }
  }

  /** Selecting nothing gives the empty sequence. */
  lemma {:induction false} SelectNone<T>(s: seq<T>, mask: seq<bool>)
    requires |mask| == |s|
    requires forall i :: 0 <= i < |mask| ==> !mask[i]
    ensures Select(s, mask) == []
    decreases |s|
  {
    if s != [] {
      SelectNone(s[1..], mask[1..]);
    }
  }

  /** `a` is an order-preserving subsequence of `b`: it picks elements of `b` at
      strictly increasing positions. */
  ghost predicate IsSubsequence<T>(a: seq<T>, b: seq<T>)
  {
    exists mask: seq<bool> :: |mask| == |b| && Select(b, mask) == a
  }

  lemma SelectIsSubsequence<T>(s: seq<T>, mask: seq<bool>)
    requires |mask| == |s|
    ensures IsSubsequence(Select(s, mask), s)
  {
  }

  /** A mask that only removes more (`mask2` implies `mask1`) selects a subsequence
      of what `mask1` selects: each `&=` step can only drop rows. */
  lemma {:induction false} SelectNarrower<T>(s: seq<T>, mask1: seq<bool>, mask2: seq<bool>)
    requires |mask1| == |s| && |mask2| == |s|
    requires forall i :: 0 <= i < |s| && mask2[i] ==> mask1[i]
    ensures |Select(mask2, mask1)| == |Select(s, mask1)|
    ensures Select(s, mask2) == Select(Select(s, mask1), Select(mask2, mask1))
    ensures IsSubsequence(Select(s, mask2), Select(s, mask1))
    decreases |s|
  {
    if s != [] {
      SelectNarrower(s[1..], mask1[1..], mask2[1..]);
      var sel, sub := Select(s, mask1), Select(mask2, mask1);
      if mask1[0] {
        assert sel == [s[0]] + Select(s[1..], mask1[1..]);
        assert sub == [mask2[0]] + Select(mask2[1..], mask1[1..]);
        assert sel[1..] == Select(s[1..], mask1[1..]) && sub[1..] == Select(mask2[1..], mask1[1..]);
      } else {
        assert sel == Select(s[1..], mask1[1..]);
        assert sub == Select(mask2[1..], mask1[1..]);
      }
    }
    SelectIsSubsequence(Select(s, mask1), Select(mask2, mask1));
  }

  /** Pointwise conjunction of two masks (`mask &= other`). */
  function And(m1: seq<bool>, m2: seq<bool>): (r: seq<bool>)
    requires |m1| == |m2|
    ensures |r| == |m1|
    ensures forall i :: 0 <= i < |r| ==> (r[i] <==> m1[i] && m2[i])
  {
    seq(|m1|, i requires 0 <= i < |m1| => m1[i] && m2[i])
  }

  /** A mask of `n` copies of `b` (`pd.Series(True, index=...)`). */
  function Constant(n: nat, b: bool): (r: seq<bool>)
    ensures |r| == n && forall i :: 0 <= i < n ==> r[i] == b
  {
    seq(n, _ => b)
  }

  // ---------------------------------------------------------------------------
  // Python integer and slice semantics

  /** Python's `a // b`, which rounds toward negative infinity. */
  function FloorDiv(a: int, b: int): (q: int)
    requires b != 0
    ensures b > 0 ==> q * b <= a < q * b + b
    ensures b < 0 ==> q * b + b < a <= q * b
  {
    if b > 0 then a / b else (-a) / (-b)
  }

  /** Where a Python slice bound lands in a sequence of length `n`. */
  function SliceBound(i: int, n: nat): (r: nat)
    ensures r <= n
    ensures 0 <= i <= n ==> r == i
  {
    if i < 0 then (if i + n < 0 then 0 else i + n) else if i > n then n else i
  }

  /** Python's `s[start:stop]` with step 1. */
  function PySlice<T>(s: seq<T>, start: int, stop: int): (r: seq<T>)
    ensures 0 <= start <= stop ==> r == s[SliceBound(start, |s|)..SliceBound(stop, |s|)]
  {
    var a := SliceBound(start, |s|);
    var b := SliceBound(stop, |s|);
    if a <= b then s[a..b] else []
  }

  // ---------------------------------------------------------------------------
  // Decimal digits

  predicate IsDigit(c: char)
  {
    '0' <= c <= '9'
  }

  function DigitChar(d: nat): (c: char)
    requires d < 10
    ensures IsDigit(c) && c as int - '0' as int == d
  {
    (d + '0' as int) as char
  }

  /** `str(n)` for a natural number. */
  function DecimalString(n: nat): (s: string)
    ensures |s| > 0 && forall i :: 0 <= i < |s| ==> IsDigit(s[i])
  {
    if n < 10 then [DigitChar(n)] else DecimalString(n / 10) + [DigitChar(n % 10)]
  }

  /** The number a string of decimal digits denotes. */
  function DigitsValue(s: string): nat
    requires forall i :: 0 <= i < |s| ==> IsDigit(s[i])
  {
    if s == [] then 0
    else
      var last := s[|s| - 1];
      assert IsDigit(last);
      10 * DigitsValue(s[..|s| - 1]) + (last as int - '0' as int)
  }

  /** Reading back what `DecimalString` wrote gives the number again. */
  lemma {:induction false} DecimalRoundTrip(n: nat)
    ensures DigitsValue(DecimalString(n)) == n
  {
    if n >= 10 {
      DecimalRoundTrip(n / 10);
      var s := DecimalString(n);
      assert s[..|s| - 1] == DecimalString(n / 10);
    }
  }

  /** Hence different numbers print differently. */
  lemma DecimalStringInjective(m: nat, n: nat)
    requires DecimalString(m) == DecimalString(n)
    ensures m == n
  {
    DecimalRoundTrip(m);
    DecimalRoundTrip(n);
  }

  /** `10^k` as a real. */
  function Pow10(k: nat): (r: real)
    ensures r >= 1.0
  {
    if k == 0 then 1.0 else 10.0 * Pow10(k - 1)
  }

  /** Parses `digits[.digits]` with at least one digit; no sign. */
  function ParseUnsigned(s: string): Option<real>
  {
    var dot := FirstIndexOf(s, '.');
    var whole := s[..dot];
    var frac := if dot < |s| then s[dot + 1..] else [];
    if (whole == [] && frac == []) || (dot < |s| && |s| == 1) then None
    else if !(forall i :: 0 <= i < |whole| ==> IsDigit(whole[i])) then None
    else if !(forall i :: 0 <= i < |frac| ==> IsDigit(frac[i])) then None
    else Some(DigitsValue(whole) as real + DigitsValue(frac) as real / Pow10(|frac|))
  }

  /** The position of the first `c` in `s`, or `|s|` when there is none. */
  function FirstIndexOf(s: string, c: char): (i: nat)
    ensures i <= |s|
    ensures i < |s| ==> s[i] == c
    ensures forall j :: 0 <= j < i ==> s[j] != c
  {
    if s == [] then 0 else if s[0] == c then 0 else 1 + FirstIndexOf(s[1..], c)
  }

  /** The plain decimal numbers `pd.to_numeric` accepts: an optional sign, digits,
      an optional fractional part. */
  function ParseNumber(s: string): Option<real>
  {
    if |s| > 0 && (s[0] == '-' || s[0] == '+') then
      match ParseUnsigned(s[1..])
      case None => None
      case Some(r) => Some(if s[0] == '-' then -r else r)
    else ParseUnsigned(s)
  }

  /** A number written by `str(n)` parses back to `n`. */
  lemma ParseDecimalString(n: nat)
    ensures ParseNumber(DecimalString(n)) == Some(n as real)
  {
    var s := DecimalString(n);
    assert FirstIndexOf(s, '.') == |s|;
    DecimalRoundTrip(n);
    assert s[..|s|] == s;
  }

  // ---------------------------------------------------------------------------
  // Numeric coercion and comparisons

  /** `pd.to_numeric` of one cell: `None` where coercion gives NaN. Booleans count as
      0 and 1 and timestamps as their instant. */
  function AsNumber(v: Value): (r: Option<real>)
    ensures v.Num? ==> r == Some(v.n)
    ensures v.Missing? ==> r == None
  {
    match v
    case Missing => None
    case Num(n) => Some(n)
    case Bool(b) => Some(if b then 1.0 else 0.0)
    case Time(t) => Some(t as real)
    case Str(s) => ParseNumber(s)
  }

  /** Whether every cell coerces to a number (`pd.to_numeric(..., errors="raise")`
      does not raise). */
  predicate AllNumeric(vs: seq<Value>)
  {
    forall i :: 0 <= i < |vs| ==> AsNumber(vs[i]).Some?
  }

  datatype CmpOp = Eq | Ne | Lt | Le | Gt | Ge

  function ApplyReal(op: CmpOp, a: real, b: real): bool
  {
    match op
    case Eq => a == b
    case Ne => a != b
    case Lt => a < b
    case Le => a <= b
    case Gt => a > b
    case Ge => a >= b
  }

  function ApplyInt(op: CmpOp, a: int, b: int): bool
  {
    ApplyReal(op, a as real, b as real)
  }

  /** Lexicographic order on strings, as Python compares `str`. */
  predicate StrLess(a: string, b: string)
  {
    if a == [] then b != []
    else if b == [] then false
    else if a[0] != b[0] then a[0] < b[0]
    else StrLess(a[1..], b[1..])
  }

  function ApplyStr(op: CmpOp, a: string, b: string): bool
  {
    match op
    case Eq => a == b
    case Ne => a != b
    case Lt => StrLess(a, b)
    case Le => StrLess(a, b) || a == b
    case Gt => StrLess(b, a)
    case Ge => StrLess(b, a) || a == b
  }

  /** The number a cell holds without coercion: numbers and booleans. */
  function NumericCell(v: Value): Option<real>
  {
    match v
    case Num(n) => Some(n)
    case Bool(b) => Some(if b then 1.0 else 0.0)
    case _ => None
  }

  /** `column <op> x` for one cell of an uncoerced column against a number:
      NaN fails everything but `!=`; a string or timestamp equals no number and
      cannot be ordered against one. */
  function CompareToNumber(v: Value, op: CmpOp, x: real): (r: Result<bool>)
    ensures v.Missing? ==> r == Ok(op == Ne)
    ensures v.Num? ==> r == Ok(ApplyReal(op, v.n, x))
    ensures r.Err? <==> (v.Str? || v.Time?) && op !in {Eq, Ne}
  {
    match v
    case Missing => Ok(op == Ne)
    case Num(n) => Ok(ApplyReal(op, n, x))
    case Bool(b) => Ok(ApplyReal(op, if b then 1.0 else 0.0, x))
    case _ => if op == Eq then Ok(false) else if op == Ne then Ok(true) else Err(TypeError)
  }

  /** `column <op> x` after `pd.to_numeric(..., errors="coerce")`: a cell that does
      not coerce is NaN and fails every comparison used here. */
  predicate CoercedHolds(v: Value, op: CmpOp, x: real)
    requires op != Ne
  {
    match AsNumber(v)
    case None => false
    case Some(n) => ApplyReal(op, n, x)
  }

  /** `left <op> right` for two cells: NaN only satisfies `!=`; numbers compare as
      numbers, strings as strings, timestamps as instants; other pairs are unequal
      and cannot be ordered. */
  function CompareCells(a: Value, op: CmpOp, b: Value): (r: Result<bool>)
    ensures (a.Missing? || b.Missing?) ==> r == Ok(op == Ne)
  {
    if a.Missing? || b.Missing? then Ok(op == Ne)
    else if NumericCell(a).Some? && NumericCell(b).Some? then
      Ok(ApplyReal(op, NumericCell(a).value, NumericCell(b).value))
    else if a.Str? && b.Str? then Ok(ApplyStr(op, a.s, b.s))
    else if a.Time? && b.Time? then Ok(ApplyInt(op, a.t, b.t))
    else if op == Eq then Ok(false)
    else if op == Ne then Ok(true)
    else Err(TypeError)
  }

  /** `series.isin(names)` for one cell of strings. */
  predicate IsIn(v: Value, names: seq<string>)
  {
    v.Str? && v.s in names
  }

  /** `str(v)` / `astype(str)` of a cell; NaN prints as "nan". Numbers other than
      whole numbers are not printed faithfully. */
  function CellString(v: Value): string
  {
    match v
    case Missing => "nan"
    case Str(s) => s
    case Bool(b) => if b then "True" else "False"
    case Num(n) => if n == n.Floor as real && n >= 0.0 then DecimalString(n.Floor) + ".0"
                   else if n == n.Floor as real then "-" + DecimalString(-n.Floor) + ".0"
                   else "<float>"
    case Time(t) => "<timestamp>"
  }

  // ---------------------------------------------------------------------------
  // Strings

  predicate StartsWith(s: string, prefix: string)
  {
    |prefix| <= |s| && s[..|prefix|] == prefix
  }

  predicate EndsWith(s: string, suffix: string)
  {
    |suffix| <= |s| && s[|s| - |suffix|..] == suffix
  }

  /** Whether `needle` occurs as a contiguous part of `hay`. */
  predicate Contains(hay: string, needle: string)
  {
    exists i :: 0 <= i <= |hay| - |needle| && OccursAt(hay, needle, i)
  }

  predicate OccursAt(hay: string, needle: string, i: int)
    requires 0 <= i <= |hay| - |needle|
  {
    hay[i..i + |needle|] == needle
  }

  /** A string contains nothing longer than itself. */
  lemma ContainsNotLonger(hay: string, needle: string)
    requires Contains(hay, needle)
    ensures |needle| <= |hay|
  {
  }
}
