/** The overview of an OCEL: per object type, a summary of every attribute; per
    (qualifier, activity, object type), how many objects of the type an event of the
    activity relates with that qualifier; the time range and the activity counts. */
module Overview {
  import opened Tables
  import opened Merge

  // ---------------------------------------------------------------------------
  // Sequence helpers

  /** The elements in order of first occurrence, each once (`Series.unique()`). */
  function Distinct<T(==, !new)>(s: seq<T>): (d: seq<T>)
    ensures forall x :: x in d <==> x in s
    ensures forall i, j :: 0 <= i < j < |d| ==> d[i] != d[j]
    ensures |d| <= |s|
  {
    if s == [] then []
    else
      var init := s[..|s| - 1];
      var last := s[|s| - 1];
      assert s == init + [last];
      Distinct(init) + (if last in init then [] else [last])
  }

  /** A sequence without repeats has as many elements as its set. */
  lemma {:induction false} DistinctCardinality<T(!new)>(d: seq<T>)
    requires forall i, j :: 0 <= i < j < |d| ==> d[i] != d[j]
    ensures |set x | x in d| == |d|
  {
    if d != [] {
      var init := d[..|d| - 1];
      DistinctCardinality(init);
      assert d == init + [d[|d| - 1]];
      assert (set x | x in d) == (set x | x in init) + {d[|d| - 1]};
      assert d[|d| - 1] !in init;
    }
  }

  /** The least of a non-empty sequence. */
  function MinReal(s: seq<real>): (m: real)
    requires |s| > 0
    ensures m in s && forall x :: x in s ==> m <= x
  {
    if |s| == 1 then s[0]
    else
      var rest := MinReal(s[1..]);
      assert s == [s[0]] + s[1..];
      if s[0] <= rest then s[0] else rest
  }

  function MaxReal(s: seq<real>): (m: real)
    requires |s| > 0
    ensures m in s && forall x :: x in s ==> x <= m
  {
    if |s| == 1 then s[0]
    else
      var rest := MaxReal(s[1..]);
      assert s == [s[0]] + s[1..];
      if s[0] >= rest then s[0] else rest
  }

  /** Whole numbers as reals, so that their extremes are those of `MinReal` and `MaxReal`. */
  function AsReals(s: seq<int>): (r: seq<real>)
    ensures |r| == |s| && forall i :: 0 <= i < |s| ==> r[i] == s[i] as real
  {
    seq(|s|, i requires 0 <= i < |s| => s[i] as real)
  }

  /** The least of a non-empty sequence of whole numbers. */
  function MinInt(s: seq<int>): (m: int)
    requires |s| > 0
    ensures m in s && forall x :: x in s ==> m <= x
  {
    var rs := AsReals(s);
    var r := MinReal(rs);
    assert forall i :: 0 <= i < |s| ==> rs[i] in rs;
    assert exists k :: 0 <= k < |s| && r == s[k] as real && s[k] in s;
    r.Floor
  }

  function MaxInt(s: seq<int>): (m: int)
    requires |s| > 0
    ensures m in s && forall x :: x in s ==> x <= m
  {
    var rs := AsReals(s);
    var r := MaxReal(rs);
    assert forall i :: 0 <= i < |s| ==> rs[i] in rs;
    assert exists k :: 0 <= k < |s| && r == s[k] as real && s[k] in s;
    r.Floor
  }

  // ---------------------------------------------------------------------------
  // Melting the object tables

  /** A cell after `df.mask(df == "null")`. */
  function Unnull(v: Value): (r: Value)
    ensures r != Str("null")
    ensures r.Missing? <==> v.Missing? || v == Str("null")
    ensures !r.Missing? ==> r == v
  {
    if v == Str("null") then Missing else v
  }

  /** One melted cell: the row's object type, the attribute and its value. */
  datatype Record = Record(objectType: Value, attribute: string, value: Value)

  function MeltedCell(row: Row, attr: string): Record
  {
    Record(Unnull(Cell(row, ObjectType)), attr, Unnull(Cell(row, Name(attr))))
  }

  /** The attribute names that are columns of a table, in order. */
  function ColumnsIn(names: seq<string>, columns: seq<Label>): (r: seq<string>)
    ensures forall a :: a in r <==> a in names && Name(a) in columns
  {
    var mask := seq(|names|, i requires 0 <= i < |names| => Name(names[i]) in columns);
    assert forall a :: a in Select(names, mask) <==> a in names && Name(a) in columns by {
      forall a ensures a in Select(names, mask) <==> a in names && Name(a) in columns {
        SelectMembers(names, mask, a);
      }
    }
    Select(names, mask)
  }

  /** One attribute column melted: a record per row whose value is present. */
  function MeltColumn(rows: seq<Row>, attr: string): (r: seq<Record>)
    ensures forall x :: x in r <==> exists i :: 0 <= i < |rows| && x == MeltedCell(rows[i], attr) && !x.value.Missing?
  {
    var all := seq(|rows|, i requires 0 <= i < |rows| => MeltedCell(rows[i], attr));
    var mask := seq(|rows|, i requires 0 <= i < |rows| => !all[i].value.Missing?);
    assert forall x :: x in Select(all, mask) <==> exists i :: 0 <= i < |rows| && x == MeltedCell(rows[i], attr) && !x.value.Missing? by {
      forall x ensures x in Select(all, mask) <==> exists i :: 0 <= i < |rows| && x == MeltedCell(rows[i], attr) && !x.value.Missing? {
        SelectMembers(all, mask, x);
        if exists i :: 0 <= i < |rows| && x == MeltedCell(rows[i], attr) && !x.value.Missing? {
          var i :| 0 <= i < |rows| && x == MeltedCell(rows[i], attr) && !x.value.Missing?;
          assert mask[i] && all[i] == x;
        }
      }
    }
    Select(all, mask)
  }

  /** `df[[type] + attrs].melt(...).dropna(subset=["value"])`: column by column. */
  function Melt(rows: seq<Row>, attrs: seq<string>): (r: seq<Record>)
    ensures forall x :: x in r <==> exists k, i :: (0 <= k < |attrs| && 0 <= i < |rows| &&
      x == MeltedCell(rows[i], attrs[k]) && !x.value.Missing?)
  {
    if attrs == [] then []
    else
      var init := attrs[..|attrs| - 1];
      var r := Melt(rows, init) + MeltColumn(rows, attrs[|attrs| - 1]);
      assert forall k :: 0 <= k < |init| ==> init[k] == attrs[k];
      r
  }

  /** The melted objects followed by the melted object changes. */
  function Metadata(objects: Frame, changes: Frame, names: seq<string>): seq<Record>
  {
    Melt(objects.rows, ColumnsIn(names, objects.columns)) + Melt(changes.rows, ColumnsIn(names, changes.columns))
  }

  // ---------------------------------------------------------------------------
  // Grouping by (object type, attribute)

  datatype GroupKey = GroupKey(objectType: Value, attribute: string)

  function KeyOf(x: Record): GroupKey
  {
    GroupKey(x.objectType, x.attribute)
  }

  /** The groups of `groupby([type, "attribute"])`: records with a missing type are in
      none; listed in order of first occurrence. */
  function GroupKeys(records: seq<Record>): (keys: seq<GroupKey>)
    ensures forall k :: k in keys <==> exists i :: 0 <= i < |records| && !records[i].objectType.Missing? && KeyOf(records[i]) == k
    ensures forall i, j :: 0 <= i < j < |keys| ==> keys[i] != keys[j]
  {
    var all := seq(|records|, i requires 0 <= i < |records| => KeyOf(records[i]));
    var mask := seq(|records|, i requires 0 <= i < |records| => !records[i].objectType.Missing?);
    assert forall k :: k in Select(all, mask) <==> exists i :: 0 <= i < |records| && !records[i].objectType.Missing? && KeyOf(records[i]) == k by {
      forall k ensures k in Select(all, mask) <==> exists i :: 0 <= i < |records| && !records[i].objectType.Missing? && KeyOf(records[i]) == k {
        SelectMembers(all, mask, k);
        if exists i :: 0 <= i < |records| && !records[i].objectType.Missing? && KeyOf(records[i]) == k {
          var i :| 0 <= i < |records| && !records[i].objectType.Missing? && KeyOf(records[i]) == k;
          assert mask[i] && all[i] == k;
        }
      }
    }
    Distinct(Select(all, mask))
  }

  /** The values of one group, in order. */
  function GroupValues(records: seq<Record>, k: GroupKey): (vs: seq<Value>)
    ensures forall v :: v in vs <==> exists i :: 0 <= i < |records| && KeyOf(records[i]) == k && records[i].value == v
  {
    var all := seq(|records|, i requires 0 <= i < |records| => records[i].value);
    var mask := seq(|records|, i requires 0 <= i < |records| => KeyOf(records[i]) == k);
    assert forall v :: v in Select(all, mask) <==> exists i :: 0 <= i < |records| && KeyOf(records[i]) == k && records[i].value == v by {
      forall v ensures v in Select(all, mask) <==> exists i :: 0 <= i < |records| && KeyOf(records[i]) == k && records[i].value == v {
        SelectMembers(all, mask, v);
        if exists i :: 0 <= i < |records| && KeyOf(records[i]) == k && records[i].value == v {
          var i :| 0 <= i < |records| && KeyOf(records[i]) == k && records[i].value == v;
          assert mask[i] && all[i] == v;
        }
      }
    }
    Select(all, mask)
  }

  /** A group that exists has at least one value. */
  lemma GroupNonEmpty(records: seq<Record>, k: GroupKey)
    requires k in GroupKeys(records)
    ensures |GroupValues(records, k)| > 0
  {
    var i :| 0 <= i < |records| && !records[i].objectType.Missing? && KeyOf(records[i]) == k;
    assert records[i].value in GroupValues(records, k);
  }

  // ---------------------------------------------------------------------------
  // Attribute summaries

  datatype AttributeSummary =
    | Numerical(attribute: string, min: real, max: real)
    | Nominal(attribute: string, sampleValues: seq<Value>, numUnique: nat)

  /** The values as numbers, when every one coerces. */
  function Numbers(values: seq<Value>): (ns: seq<real>)
    requires AllNumeric(values)
    ensures |ns| == |values| && forall i :: 0 <= i < |values| ==> AsNumber(values[i]) == Some(ns[i])
  {
    seq(|values|, i requires 0 <= i < |values| && AllNumeric(values) => AsNumber(values[i]).value)
  }

  /** One group's summary: numerical with the least and greatest value when every value
      coerces to a number, otherwise nominal with the first `maxUnique` distinct values
      and the number of distinct values. */
  function Summarize(attr: string, values: seq<Value>, maxUnique: int): (r: AttributeSummary)
    ensures r.attribute == attr
    ensures r.Numerical? <==> |values| > 0 && AllNumeric(values)
  {
    if |values| > 0 && AllNumeric(values) then
      var ns := Numbers(values);
      Numerical(attr, MinReal(ns), MaxReal(ns))
    else
      var u := Distinct(values);
      Nominal(attr, PySlice(u, 0, maxUnique), |u|)
  }

  /** A numerical summary holds the least and the greatest of the values. */
  lemma NumericalSummary(attr: string, values: seq<Value>, maxUnique: int)
    requires |values| > 0 && AllNumeric(values)
    ensures var r := Summarize(attr, values, maxUnique);
      && r.min <= r.max
      && (exists i :: 0 <= i < |values| && AsNumber(values[i]) == Some(r.min))
      && (exists i :: 0 <= i < |values| && AsNumber(values[i]) == Some(r.max))
      && forall i :: 0 <= i < |values| ==> r.min <= AsNumber(values[i]).value <= r.max
  {
    var ns := Numbers(values);
    assert forall i :: 0 <= i < |values| ==> ns[i] in ns;
    var lo := MinReal(ns);
    var hi := MaxReal(ns);
    var a :| 0 <= a < |ns| && ns[a] == lo;
    var b :| 0 <= b < |ns| && ns[b] == hi;
    assert AsNumber(values[a]) == Some(lo) && AsNumber(values[b]) == Some(hi);
  }

  /** A nominal summary counts the distinct values and samples at most `maxUnique` of
      them, each once, in order of first occurrence. */
  lemma NominalSummary(attr: string, values: seq<Value>, maxUnique: int)
    requires !(|values| > 0 && AllNumeric(values))
    ensures var r := Summarize(attr, values, maxUnique);
      && r.numUnique == |set v | v in values|
      && |r.sampleValues| <= r.numUnique
      && (0 <= maxUnique ==> |r.sampleValues| <= maxUnique)
      && (0 <= maxUnique <= r.numUnique ==> |r.sampleValues| == maxUnique)
      && (forall v :: v in r.sampleValues ==> v in values)
      && forall i, j :: 0 <= i < j < |r.sampleValues| ==> r.sampleValues[i] != r.sampleValues[j]
  {
    var u := Distinct(values);
    DistinctCardinality(u);
    assert (set v | v in u) == (set v | v in values);
    var sample := PySlice(u, 0, maxUnique);
    var a := SliceBound(0, |u|);
    var b := SliceBound(maxUnique, |u|);
    if a <= b {
      assert forall i :: 0 <= i < |sample| ==> sample[i] == u[a + i];
    }
  }

  datatype ObjectTypeSummary = ObjectTypeSummary(objectType: Value, attributes: seq<AttributeSummary>)

  /** The summaries, in group order, of the groups of one object type. */
  function SummariesFor(records: seq<Record>, keys: seq<GroupKey>, t: Value, maxUnique: int): seq<AttributeSummary>
  {
    if keys == [] then []
    else
      var k := keys[|keys| - 1];
      SummariesFor(records, keys[..|keys| - 1], t, maxUnique) +
      (if k.objectType == t then [Summarize(k.attribute, GroupValues(records, k), maxUnique)] else [])
  }

  /** Whether one of the summaries is of the attribute. */
  predicate Names(r: seq<AttributeSummary>, a: string)
  {
    exists j :: 0 <= j < |r| && r[j].attribute == a
  }

  /** A type's summaries name exactly the attributes grouped under that type. */
  lemma {:induction false} SummariesForAttributes(records: seq<Record>, keys: seq<GroupKey>, t: Value, maxUnique: int)
    ensures forall a :: Names(SummariesFor(records, keys, t, maxUnique), a) <==> GroupKey(t, a) in keys
  {
    if keys != [] {
      var init := keys[..|keys| - 1];
      var k := keys[|keys| - 1];
      SummariesForAttributes(records, init, t, maxUnique);
      var prev := SummariesFor(records, init, t, maxUnique);
      var r := SummariesFor(records, keys, t, maxUnique);
      assert keys == init + [k];
      var last := if k.objectType == t then [Summarize(k.attribute, GroupValues(records, k), maxUnique)] else [];
      assert r == prev + last;
      assert k == GroupKey(k.objectType, k.attribute);
      forall a ensures Names(r, a) <==> GroupKey(t, a) in keys {
        if Names(r, a) {
          var j :| 0 <= j < |r| && r[j].attribute == a;
          if j < |prev| {
            assert prev[j].attribute == a;
            assert Names(prev, a);
            assert GroupKey(t, a) in init;
          } else {
            assert GroupKey(t, a) == k;
          }
        }
        if GroupKey(t, a) in keys {
          if GroupKey(t, a) in init {
            var j :| 0 <= j < |prev| && prev[j].attribute == a;
            assert r[j].attribute == a;
          } else {
            assert GroupKey(t, a) == k;
            assert r[|prev|].attribute == a;
          }
        }
      }
    }
  }

  /** A type without groups has no summaries. */
  lemma {:induction false} NoGroupsNoSummaries(records: seq<Record>, keys: seq<GroupKey>, t: Value, maxUnique: int)
    requires forall a :: GroupKey(t, a) !in keys
    ensures SummariesFor(records, keys, t, maxUnique) == []
  {
    if keys != [] {
      var k := keys[|keys| - 1];
      assert k == GroupKey(k.objectType, k.attribute);
      var init := keys[..|keys| - 1];
      assert forall x :: x in init ==> x in keys;
      NoGroupsNoSummaries(records, init, t, maxUnique);
    }
  }

  /** The summaries of one more group. */
  lemma SummariesForSnoc(records: seq<Record>, keys: seq<GroupKey>, i: nat, t: Value, maxUnique: int)
    requires i < |keys|
    ensures SummariesFor(records, keys[..i + 1], t, maxUnique) == SummariesFor(records, keys[..i], t, maxUnique) +
      (if keys[i].objectType == t then [Summarize(keys[i].attribute, GroupValues(records, keys[i]), maxUnique)] else [])
  {
    assert keys[..i + 1][..i] == keys[..i];
  }

  function TypesOf(keys: seq<GroupKey>): (ts: seq<Value>)
    ensures |ts| == |keys| && forall i :: 0 <= i < |keys| ==> ts[i] == keys[i].objectType
  {
    seq(|keys|, i requires 0 <= i < |keys| => keys[i].objectType)
  }

  /** The object types of the groups, in order of first occurrence (the insertion
      order of the summary dictionary). */
  function TypeOrder(keys: seq<GroupKey>): (ts: seq<Value>)
    ensures forall t :: t in ts <==> exists a :: GroupKey(t, a) in keys
    ensures forall i, j :: 0 <= i < j < |ts| ==> ts[i] != ts[j]
  {
    var all := TypesOf(keys);
    assert forall t :: t in all <==> exists a :: GroupKey(t, a) in keys by {
      forall t ensures t in all <==> exists a :: GroupKey(t, a) in keys {
        if exists a :: GroupKey(t, a) in keys {
          var a :| GroupKey(t, a) in keys;
          var i :| 0 <= i < |keys| && keys[i] == GroupKey(t, a);
          assert all[i] == t;
        }
        if t in all {
          var i :| 0 <= i < |keys| && all[i] == t;
          assert GroupKey(t, keys[i].attribute) == keys[i];
        }
      }
    }
    Distinct(all)
  }

  /** The type order of one more group. */
  lemma TypeOrderSnoc(keys: seq<GroupKey>, i: nat)
    requires i < |keys|
    ensures TypeOrder(keys[..i + 1]) == TypeOrder(keys[..i]) +
      (if keys[i].objectType in TypeOrder(keys[..i]) then [] else [keys[i].objectType])
  {
    var all := TypesOf(keys[..i + 1]);
    assert all[..i] == TypesOf(keys[..i]);
    assert all[i] == keys[i].objectType;
    assert keys[i].objectType in TypesOf(keys[..i]) <==> keys[i].objectType in TypeOrder(keys[..i]);
  }

  /** One summary per object type, in type order, each listing its groups' summaries. */
  function TypeSummaries(records: seq<Record>, keys: seq<GroupKey>, maxUnique: int): (r: seq<ObjectTypeSummary>)
    ensures |r| == |TypeOrder(keys)|
  {
    var order := TypeOrder(keys);
    seq(|order|, j requires 0 <= j < |order| => ObjectTypeSummary(order[j], SummariesFor(records, keys, order[j], maxUnique)))
  }

  /** The summary list, or the `KeyError` of a table without the type column. */
  function ObjectSummaries(objects: Frame, changes: Frame, names: seq<string>, maxUnique: int): (r: Result<seq<ObjectTypeSummary>>)
    ensures r.Err? <==> ObjectType !in objects.columns || ObjectType !in changes.columns
    ensures r.Err? ==> r.error == KeyError(ObjectType)
    ensures r.Ok? ==> var ts := SummaryTypes(r.value);
      && (forall i, j :: 0 <= i < j < |ts| ==> ts[i] != ts[j])
      && forall t :: t in ts <==> !t.Missing? && exists x :: x in Metadata(objects, changes, names) && x.objectType == t
  {
    if ObjectType !in objects.columns || ObjectType !in changes.columns then Err(KeyError(ObjectType))
    else
      var records := Metadata(objects, changes, names);
      ObjectTypesOnce(records, maxUnique);
      Ok(TypeSummaries(records, GroupKeys(records), maxUnique))
  }

  /** The per-type dictionary and its insertion order after the groups `keys`: every
      type seen, in order of first appearance, mapped to its groups' summaries. */
  ghost predicate Tabulated(records: seq<Record>, keys: seq<GroupKey>, maxUnique: int,
                      byType: map<Value, seq<AttributeSummary>>, order: seq<Value>)
  {
    && order == TypeOrder(keys)
    && (forall t :: t in byType <==> t in order)
    && (forall t :: t in byType ==> byType[t] == SummariesFor(records, keys, t, maxUnique))
  }

  /** The insertion order after one more group. */
  lemma TypeStepOrder(keys: seq<GroupKey>, i: nat, order: seq<Value>, order': seq<Value>)
    requires i < |keys|
    requires order == TypeOrder(keys[..i])
    requires order' == if keys[i].objectType in order then order else order + [keys[i].objectType]
    ensures order' == TypeOrder(keys[..i + 1])
  {
    TypeOrderSnoc(keys, i);
  }

  /** Adding a key to the dictionary adds it to the insertion order when new. */
  lemma DomainStep<V>(byType: map<Value, V>, order: seq<Value>, t0: Value, v: V)
    requires forall t :: t in byType <==> t in order
    ensures var order' := if t0 in byType then order else order + [t0];
      forall t :: t in byType[t0 := v] <==> t in order'
  {
  }

  /** The per-type lists after one more group: the group's summary appended to its
      type's list, a new type starting a list of its own. */
  lemma TypeStepSummaries(records: seq<Record>, keys: seq<GroupKey>, i: nat, maxUnique: int,
                          byType: map<Value, seq<AttributeSummary>>, byType': map<Value, seq<AttributeSummary>>)
    requires i < |keys|
    requires forall t :: t in byType <==> t in TypeOrder(keys[..i])
    requires forall t :: t in byType ==> byType[t] == SummariesFor(records, keys[..i], t, maxUnique)
    requires var k := keys[i];
      byType' == byType[k.objectType := (if k.objectType in byType then byType[k.objectType] else [])
                                           + [Summarize(k.attribute, GroupValues(records, k), maxUnique)]]
    ensures forall t :: t in byType' ==> byType'[t] == SummariesFor(records, keys[..i + 1], t, maxUnique)
  {
    var k := keys[i];
    forall t | t in byType' ensures byType'[t] == SummariesFor(records, keys[..i + 1], t, maxUnique) {
      SummariesForSnoc(records, keys, i, t, maxUnique);
      if t == k.objectType && t !in byType {
        NoGroupsNoSummaries(records, keys[..i], t, maxUnique);
      }
    }
  }

  /** Fills the per-type dictionary group by group, then lists it in insertion order. */
  method GroupByType(records: seq<Record>, keys: seq<GroupKey>, maxUnique: int) returns (r: seq<ObjectTypeSummary>)
    ensures r == TypeSummaries(records, keys, maxUnique)
  {
    var byType: map<Value, seq<AttributeSummary>> := map[];
    var order: seq<Value> := [];
    for i := 0 to |keys|
      invariant Tabulated(records, keys[..i], maxUnique, byType, order)
    {
      var k := keys[i];
      ghost var byType0, order0 := byType, order;
      var summaries := if k.objectType in byType then byType[k.objectType] else [];
      if k.objectType !in byType {
        order := order + [k.objectType];
      }
      byType := byType[k.objectType := summaries + [Summarize(k.attribute, GroupValues(records, k), maxUnique)]];
      TypeStepOrder(keys, i, order0, order);
      TypeStepSummaries(records, keys, i, maxUnique, byType0, byType);
      DomainStep(byType0, order0, k.objectType, byType[k.objectType]);
    }
    assert keys[..|keys|] == keys;
    r := seq(|order|, j requires 0 <= j < |order| => ObjectTypeSummary(order[j], byType[order[j]]));
  }

  /** `summarize_object_attributes`: melts both tables, groups, and summarises. */
  method SummarizeObjectAttributes(objects: Frame, changes: Frame, names: seq<string>, maxUnique: int)
    returns (r: Result<seq<ObjectTypeSummary>>)
    ensures r == ObjectSummaries(objects, changes, names, maxUnique)
  {
    if ObjectType !in objects.columns || ObjectType !in changes.columns {
      return Err(KeyError(ObjectType));
    }
    var records := Metadata(objects, changes, names);
    var summaries := GroupByType(records, GroupKeys(records), maxUnique);
    return Ok(summaries);
  }

  /** No attribute is summarised twice. */
  predicate DistinctAttributes(r: seq<AttributeSummary>)
  {
    forall i, j :: 0 <= i < j < |r| ==> r[i].attribute != r[j].attribute
  }

  /** Within a type, each attribute is summarised once when the groups are distinct. */
  lemma {:induction false} SummariesForDistinct(records: seq<Record>, keys: seq<GroupKey>, t: Value, maxUnique: int)
    requires forall i, j :: 0 <= i < j < |keys| ==> keys[i] != keys[j]
    ensures DistinctAttributes(SummariesFor(records, keys, t, maxUnique))
  {
    if keys != [] {
      var init := keys[..|keys| - 1];
      var k := keys[|keys| - 1];
      assert keys == init + [k];
      SummariesForDistinct(records, init, t, maxUnique);
      SummariesForAttributes(records, init, t, maxUnique);
      var prev := SummariesFor(records, init, t, maxUnique);
      if k.objectType == t {
        assert forall i :: 0 <= i < |init| ==> init[i] == keys[i];
        assert k !in init;
        assert GroupKey(t, k.attribute) == k;
        assert !Names(prev, k.attribute);
        var r := SummariesFor(records, keys, t, maxUnique);
        assert r == prev + [Summarize(k.attribute, GroupValues(records, k), maxUnique)];
        assert r[|prev|].attribute == k.attribute;
        forall i, j | 0 <= i < j < |r| ensures r[i].attribute != r[j].attribute {
          assert r[i] == prev[i];
          if j < |prev| {
            assert r[j] == prev[j];
          } else {
            assert prev[i].attribute != k.attribute;
          }
        }
      } else {
        assert SummariesFor(records, keys, t, maxUnique) == prev;
      }
    }
  }

  /** A melted record never holds a missing value nor the string "null", its type is
      never the string "null", and its attribute is one of the requested names. */
  lemma MetadataClean(objects: Frame, changes: Frame, names: seq<string>)
    ensures forall x :: x in Metadata(objects, changes, names) ==>
      && !x.value.Missing? && x.value != Str("null") && x.objectType != Str("null")
      && x.attribute in names
  {
    var a := ColumnsIn(names, objects.columns);
    var b := ColumnsIn(names, changes.columns);
    forall x | x in Metadata(objects, changes, names)
      ensures !x.value.Missing? && x.value != Str("null") && x.objectType != Str("null") && x.attribute in names
    {
      if x in Melt(objects.rows, a) {
        var k, i :| 0 <= k < |a| && 0 <= i < |objects.rows| && x == MeltedCell(objects.rows[i], a[k]) && !x.value.Missing?;
        assert a[k] in a;
      } else {
        assert x in Melt(changes.rows, b);
        var k, i :| 0 <= k < |b| && 0 <= i < |changes.rows| && x == MeltedCell(changes.rows[i], b[k]) && !x.value.Missing?;
        assert b[k] in b;
      }
    }
  }

  /** The object types of a summary list, in order. */
  function SummaryTypes(r: seq<ObjectTypeSummary>): (ts: seq<Value>)
    ensures |ts| == |r| && forall i :: 0 <= i < |r| ==> ts[i] == r[i].objectType
  {
    seq(|r|, i requires 0 <= i < |r| => r[i].objectType)
  }

  /** Each object type of the records (other than a missing one) gets exactly one
      summary. */
  lemma ObjectTypesOnce(records: seq<Record>, maxUnique: int)
    ensures var ts := SummaryTypes(TypeSummaries(records, GroupKeys(records), maxUnique));
      && (forall i, j :: 0 <= i < j < |ts| ==> ts[i] != ts[j])
      && forall t :: t in ts <==> !t.Missing? && exists x :: x in records && x.objectType == t
  {
    var keys := GroupKeys(records);
    var order := TypeOrder(keys);
    var ts := SummaryTypes(TypeSummaries(records, keys, maxUnique));
    assert ts == order;
    forall t ensures t in ts <==> !t.Missing? && exists x :: x in records && x.objectType == t {
      if t in ts {
        var a :| GroupKey(t, a) in keys;
        var i :| 0 <= i < |records| && !records[i].objectType.Missing? && KeyOf(records[i]) == GroupKey(t, a);
        assert records[i] in records;
      }
      if !t.Missing? && exists x :: x in records && x.objectType == t {
        var x :| x in records && x.objectType == t;
        var i :| 0 <= i < |records| && records[i] == x;
        assert KeyOf(records[i]) in keys;
      }
    }
  }

  /** Under each type, the summaries name exactly the attributes recorded for that
      type, each once. */
  lemma ObjectAttributesOnce(records: seq<Record>, maxUnique: int, i: nat)
    requires i < |TypeSummaries(records, GroupKeys(records), maxUnique)|
    ensures var s := TypeSummaries(records, GroupKeys(records), maxUnique)[i];
      && !s.objectType.Missing?
      && (forall a :: Names(s.attributes, a) <==> exists x :: x in records && x.objectType == s.objectType && x.attribute == a)
      && DistinctAttributes(s.attributes)
  {
    var keys := GroupKeys(records);
    var order := TypeOrder(keys);
    var s := TypeSummaries(records, keys, maxUnique)[i];
    var t := order[i];
    assert s == ObjectTypeSummary(t, SummariesFor(records, keys, t, maxUnique));
    SummariesForAttributes(records, keys, t, maxUnique);
    SummariesForDistinct(records, keys, t, maxUnique);
    assert !t.Missing? by {
      assert t in order;
      var a :| GroupKey(t, a) in keys;
      var j :| 0 <= j < |records| && !records[j].objectType.Missing? && KeyOf(records[j]) == GroupKey(t, a);
    }
    forall a ensures Names(s.attributes, a) <==> exists x :: x in records && x.objectType == t && x.attribute == a {
      if exists x :: x in records && x.objectType == t && x.attribute == a {
        var x :| x in records && x.objectType == t && x.attribute == a;
        var j :| 0 <= j < |records| && records[j] == x;
        assert KeyOf(records[j]) == GroupKey(t, a);
      }
      if GroupKey(t, a) in keys {
        var j :| 0 <= j < |records| && !records[j].objectType.Missing? && KeyOf(records[j]) == GroupKey(t, a);
        assert records[j] in records;
      }
    }
  }

  // ---------------------------------------------------------------------------
  // Relation counts

  /** A relation row's key in the first grouping: event, qualifier, activity, object type. */
  datatype Quad = Quad(event: Value, qualifier: Value, activity: Value, objectType: Value)

  /** The key of the second grouping: qualifier, activity, object type. */
  datatype Triple = Triple(qualifier: Value, activity: Value, objectType: Value)

  function QuadOf(row: Row): Quad
  {
    Quad(Cell(row, EventId), Cell(row, Qualifier), Cell(row, Activity), Cell(row, ObjectType))
  }

  function TripleOf(q: Quad): Triple
  {
    Triple(q.qualifier, q.activity, q.objectType)
  }

  /** A row with a missing key is in no group (`groupby`'s default `dropna=True`). */
  predicate Complete(q: Quad)
  {
    !q.event.Missing? && !q.qualifier.Missing? && !q.activity.Missing? && !q.objectType.Missing?
  }

  /** The keys of the rows that fall in a group, in row order, repeats kept. */
  function Quads(rows: seq<Row>): (qs: seq<Quad>)
    ensures forall q :: q in qs <==> Complete(q) && exists i :: 0 <= i < |rows| && QuadOf(rows[i]) == q
  {
    var all := seq(|rows|, i requires 0 <= i < |rows| => QuadOf(rows[i]));
    var mask := seq(|rows|, i requires 0 <= i < |rows| => Complete(all[i]));
    assert forall q :: q in Select(all, mask) <==> Complete(q) && exists i :: 0 <= i < |rows| && QuadOf(rows[i]) == q by {
      forall q ensures q in Select(all, mask) <==> Complete(q) && exists i :: 0 <= i < |rows| && QuadOf(rows[i]) == q {
        SelectMembers(all, mask, q);
        if Complete(q) && exists i :: 0 <= i < |rows| && QuadOf(rows[i]) == q {
          var i :| 0 <= i < |rows| && QuadOf(rows[i]) == q;
          assert mask[i] && all[i] == q;
        }
      }
    }
    Select(all, mask)
  }

  /** `size()` of a group: how many of the keys are this one. */
  function CountOf(qs: seq<Quad>, q: Quad): nat
  {
    multiset(qs)[q]
  }

  /** The groups (each once) whose key has the triple. */
  function GroupsWith(groups: seq<Quad>, t: Triple): (g: seq<Quad>)
    ensures forall q :: q in g <==> q in groups && TripleOf(q) == t
  {
    if groups == [] then []
    else
      var init := groups[..|groups| - 1];
      var last := groups[|groups| - 1];
      assert groups == init + [last];
      GroupsWith(init, t) + (if TripleOf(last) == t then [last] else [])
  }

  /** The sizes of the groups that have the triple. */
  function CountsFor(qs: seq<Quad>, t: Triple): (cs: seq<int>)
    ensures forall c :: c in cs <==> exists q :: q in qs && TripleOf(q) == t && c == CountOf(qs, q)
  {
    var g := GroupsWith(Distinct(qs), t);
    var cs := seq(|g|, i requires 0 <= i < |g| => CountOf(qs, g[i]) as int);
    assert forall c :: c in cs <==> exists q :: q in qs && TripleOf(q) == t && c == CountOf(qs, q) by {
      forall c ensures c in cs <==> exists q :: q in qs && TripleOf(q) == t && c == CountOf(qs, q) {
        if c in cs {
          var i :| 0 <= i < |g| && cs[i] == c;
          assert g[i] in g;
        }
        if exists q :: q in qs && TripleOf(q) == t && c == CountOf(qs, q) {
          var q :| q in qs && TripleOf(q) == t && c == CountOf(qs, q);
          var i :| 0 <= i < |g| && g[i] == q;
          assert cs[i] == c;
        }
      }
    }
    cs
  }

  /** A triple that some key has has at least one group size. */
  lemma CountsNonEmpty(qs: seq<Quad>, t: Triple)
    requires exists q :: q in qs && TripleOf(q) == t
    ensures |CountsFor(qs, t)| > 0
  {
    var q :| q in qs && TripleOf(q) == t;
    assert CountOf(qs, q) as int in CountsFor(qs, t);
  }

  datatype RelationCountSummary =
    RelationCountSummary(qualifier: Value, activity: Value, objectType: Value, minCount: int, maxCount: int)

  function SummaryTriple(s: RelationCountSummary): Triple
  {
    Triple(s.qualifier, s.activity, s.objectType)
  }

  /** `.agg(["min", "max"])` of the group sizes of one triple. */
  function RelationSummary(qs: seq<Quad>, t: Triple): RelationCountSummary
    requires exists q :: q in qs && TripleOf(q) == t
  {
    CountsNonEmpty(qs, t);
    var cs := CountsFor(qs, t);
    RelationCountSummary(t.qualifier, t.activity, t.objectType, MinInt(cs), MaxInt(cs))
  }

  /** The distinct triples of the keys, in order of first occurrence. */
  function Triples(qs: seq<Quad>): (ts: seq<Triple>)
    ensures forall t :: t in ts <==> exists q :: q in qs && TripleOf(q) == t
    ensures forall i, j :: 0 <= i < j < |ts| ==> ts[i] != ts[j]
  {
    var all := seq(|qs|, i requires 0 <= i < |qs| => TripleOf(qs[i]));
    assert forall t :: t in all <==> exists q :: q in qs && TripleOf(q) == t by {
      forall t ensures t in all <==> exists q :: q in qs && TripleOf(q) == t {
        if t in all {
          var i :| 0 <= i < |qs| && all[i] == t;
          assert qs[i] in qs;
        }
        if exists q :: q in qs && TripleOf(q) == t {
          var q :| q in qs && TripleOf(q) == t;
          var i :| 0 <= i < |qs| && qs[i] == q;
          assert all[i] == t;
        }
      }
    }
    Distinct(all)
  }

  function RelationSummaries(qs: seq<Quad>): (r: seq<RelationCountSummary>)
    ensures |r| == |Triples(qs)|
  {
    var ts := Triples(qs);
    seq(|ts|, i requires 0 <= i < |ts| => assert ts[i] in ts; RelationSummary(qs, ts[i]))
  }

  /** `get_ocel_relation_metadata`: the `KeyError` of the first grouping column the
      relation table lacks, otherwise one summary per triple. */
  function RelationMetadata(relations: Frame): (r: Result<seq<RelationCountSummary>>)
    ensures r.Ok? <==> EventId in relations.columns && Qualifier in relations.columns
                       && Activity in relations.columns && ObjectType in relations.columns
    ensures r.Err? ==> r.error.KeyError? && r.error.column in [EventId, Qualifier, Activity, ObjectType]
                       && r.error.column !in relations.columns
    ensures r.Ok? ==> var ts := SummaryTriples(r.value);
      && (forall i, j :: 0 <= i < j < |ts| ==> ts[i] != ts[j])
      && forall t :: t in ts <==> exists q :: q in Quads(relations.rows) && TripleOf(q) == t
  {
    var wanted := [EventId, Qualifier, Activity, ObjectType];
    var missing := MissingColumn(relations.columns, wanted);
    assert missing.None? <==> (EventId in relations.columns && Qualifier in relations.columns
      && Activity in relations.columns && ObjectType in relations.columns) by {
      assert wanted[0] == EventId && wanted[1] == Qualifier && wanted[2] == Activity && wanted[3] == ObjectType;
    }
    if missing.Some? then Err(KeyError(missing.value))
    else
      RelationTriplesOnce(Quads(relations.rows));
      Ok(RelationSummaries(Quads(relations.rows)))
  }

  /** A summary's counts: at least one, the least at most the greatest, both the size of
      some group of the triple, and every group of the triple in between. */
  lemma RelationCountBounds(qs: seq<Quad>, i: nat)
    requires i < |RelationSummaries(qs)|
    ensures var s := RelationSummaries(qs)[i];
      && 1 <= s.minCount <= s.maxCount
      && (exists q :: q in qs && TripleOf(q) == SummaryTriple(s) && CountOf(qs, q) == s.minCount)
      && (exists q :: q in qs && TripleOf(q) == SummaryTriple(s) && CountOf(qs, q) == s.maxCount)
      && forall q :: q in qs && TripleOf(q) == SummaryTriple(s) ==> s.minCount <= CountOf(qs, q) <= s.maxCount
  {
    var t := Triples(qs)[i];
    assert t in Triples(qs);
    CountsNonEmpty(qs, t);
    var cs := CountsFor(qs, t);
    var s := RelationSummaries(qs)[i];
    assert s == RelationCountSummary(t.qualifier, t.activity, t.objectType, MinInt(cs), MaxInt(cs));
    assert SummaryTriple(s) == t;
    assert MinInt(cs) in cs;
    var q :| q in qs && TripleOf(q) == t && MinInt(cs) == CountOf(qs, q);
    assert CountOf(qs, q) >= 1;
    forall q' | q' in qs && TripleOf(q') == t ensures s.minCount <= CountOf(qs, q') <= s.maxCount {
      assert CountOf(qs, q') as int in cs;
    }
  }

  /** The triples of a summary list, in order. */
  function SummaryTriples(r: seq<RelationCountSummary>): (ts: seq<Triple>)
    ensures |ts| == |r| && forall i :: 0 <= i < |r| ==> ts[i] == SummaryTriple(r[i])
  {
    seq(|r|, i requires 0 <= i < |r| => SummaryTriple(r[i]))
  }

  /** One summary per triple of the keys, and none for any other. */
  lemma RelationTriplesOnce(qs: seq<Quad>)
    ensures var ts := SummaryTriples(RelationSummaries(qs));
      && (forall i, j :: 0 <= i < j < |ts| ==> ts[i] != ts[j])
      && forall t :: t in ts <==> exists q :: q in qs && TripleOf(q) == t
  {
    var ts := SummaryTriples(RelationSummaries(qs));
    assert ts == Triples(qs);
  }

  // ---------------------------------------------------------------------------
  // The OCEL summary

  /** `dropna()`: the present cells in order, repeats kept. */
  function Present(vs: seq<Value>): (ps: seq<Value>)
    ensures forall v :: v in ps <==> v in vs && !v.Missing?
    ensures forall v: Value :: !v.Missing? ==> multiset(ps)[v] == multiset(vs)[v]
  {
    if vs == [] then []
    else
      var init := vs[..|vs| - 1];
      var last := vs[|vs| - 1];
      assert vs == init + [last];
      Present(init) + (if last.Missing? then [] else [last])
  }

  /** The cells of a timestamp column: timestamps or missing. */
  predicate TimeColumn(vs: seq<Value>)
  {
    forall v :: v in vs ==> v.Missing? || v.Time?
  }

  /** The instants of the present cells of a timestamp column. */
  function Instants(vs: seq<Value>): (ts: seq<int>)
    requires TimeColumn(vs)
    ensures forall t :: t in ts <==> Time(t) in vs
  {
    var ps := Present(vs);
    var ts := seq(|ps|, i requires 0 <= i < |ps| && TimeColumn(vs) => assert ps[i] in ps; ps[i].t);
    assert forall t :: t in ts <==> Time(t) in vs by {
      forall t ensures t in ts <==> Time(t) in vs {
        if t in ts {
          var i :| 0 <= i < |ts| && ts[i] == t;
          assert ps[i] in ps;
        }
        if Time(t) in vs {
          assert Time(t) in ps;
          var i :| 0 <= i < |ps| && ps[i] == Time(t);
          assert ts[i] == t;
        }
      }
    }
    ts
  }

  /** `timestamps.min()` and `timestamps.max()`: absent together when no event has a
      timestamp, otherwise the earliest and the latest, every timestamp in between. */
  function TimeRange(vs: seq<Value>): (r: (Option<int>, Option<int>))
    requires TimeColumn(vs)
    ensures r.0.Some? <==> exists t :: Time(t) in vs
    ensures r.1.Some? <==> r.0.Some?
    ensures r.0.Some? && r.1.Some? ==> (
      && r.0.value <= r.1.value
      && Time(r.0.value) in vs && Time(r.1.value) in vs
      && forall t :: Time(t) in vs ==> r.0.value <= t <= r.1.value)
  {
    var ts := Instants(vs);
    if ts == [] then
      assert forall t :: Time(t) !in vs by {
        forall t ensures Time(t) !in vs {
          assert t !in ts;
        }
      }
      (None, None)
    else
      assert Time(ts[0]) in vs by { assert ts[0] in ts; }
      (Some(MinInt(ts)), Some(MaxInt(ts)))
  }

  datatype ActivityCount = ActivityCount(activity: string, count: nat)

  /** `value_counts()` of the activity column: per distinct present activity, its
      string and how many events have it, at least one. */
  function ActivityCounts(vs: seq<Value>): (r: seq<ActivityCount>)
    ensures forall i :: 0 <= i < |r| ==>
      && r[i].count >= 1
      && exists v :: v in vs && !v.Missing? && r[i].activity == CellString(v) && r[i].count == multiset(vs)[v]
  {
    var acts := Distinct(Present(vs));
    assert forall i :: 0 <= i < |acts| ==> acts[i] in acts;
    seq(|acts|, i requires 0 <= i < |acts| => ActivityCount(CellString(acts[i]), multiset(vs)[acts[i]]))
  }

  /** One entry per distinct present activity. */
  lemma ActivityCountsSize(vs: seq<Value>)
    ensures |ActivityCounts(vs)| == |set v | v in vs && !v.Missing?|
  {
    var acts := Distinct(Present(vs));
    DistinctCardinality(acts);
    assert (set v | v in acts) == (set v | v in vs && !v.Missing?);
  }

  /** Every present activity has its entry, with the number of events that have it. */
  lemma ActivityCountsComplete(vs: seq<Value>, v: Value)
    requires v in vs && !v.Missing?
    ensures exists i :: 0 <= i < |ActivityCounts(vs)| && ActivityCounts(vs)[i] == ActivityCount(CellString(v), multiset(vs)[v])
  {
    var acts := Distinct(Present(vs));
    assert v in acts;
    var i :| 0 <= i < |acts| && acts[i] == v;
    assert ActivityCounts(vs)[i] == ActivityCount(CellString(v), multiset(vs)[v]);
  }

  /** The sum of the counts. */
  function TotalCount(r: seq<ActivityCount>): nat
  {
    if r == [] then 0 else TotalCount(r[..|r| - 1]) + r[|r| - 1].count
  }

  /** The sum, over distinct values, of their multiplicities in a bag. */
  function SumOver(d: seq<Value>, m: multiset<Value>): nat
  {
    if d == [] then 0 else SumOver(d[..|d| - 1], m) + m[d[|d| - 1]]
  }

  /** One more element in the bag adds one to the sum when it is among the values. */
  lemma {:induction false} SumOverAdd(d: seq<Value>, m: multiset<Value>, x: Value)
    requires forall i, j :: 0 <= i < j < |d| ==> d[i] != d[j]
    ensures SumOver(d, m + multiset{x}) == SumOver(d, m) + (if x in d then 1 else 0)
  {
    if d != [] {
      var init := d[..|d| - 1];
      assert d == init + [d[|d| - 1]];
      SumOverAdd(init, m, x);
      assert d[|d| - 1] !in init;
    }
  }

  /** Over distinct values that cover a sequence, the multiplicities add up to its length. */
  lemma {:induction false} SumOverAll(d: seq<Value>, s: seq<Value>)
    requires forall i, j :: 0 <= i < j < |d| ==> d[i] != d[j]
    requires forall x :: x in s ==> x in d
    ensures SumOver(d, multiset(s)) == |s|
  {
    if s == [] {
      SumOverEmpty(d);
    } else {
      var init := s[..|s| - 1];
      var x := s[|s| - 1];
      assert s == init + [x];
      assert multiset(s) == multiset(init) + multiset{x};
      SumOverAll(d, init);
      SumOverAdd(d, multiset(init), x);
    }
  }

  lemma {:induction false} SumOverEmpty(d: seq<Value>)
    ensures SumOver(d, multiset{}) == 0
  {
    if d != [] {
      SumOverEmpty(d[..|d| - 1]);
    }
  }

  /** The counts of the entries are the multiplicities of their activities. */
  lemma {:induction false} TotalPrefix(r: seq<ActivityCount>, d: seq<Value>, m: multiset<Value>, k: nat)
    requires |r| == |d| && k <= |r|
    requires forall i :: 0 <= i < |r| ==> r[i].count == m[d[i]]
    ensures TotalCount(r[..k]) == SumOver(d[..k], m)
  {
    if k > 0 {
      TotalPrefix(r, d, m, k - 1);
      assert r[..k][..k - 1] == r[..k - 1];
      assert d[..k][..k - 1] == d[..k - 1];
    }
  }

  /** The counts add up to the number of events with an activity. */
  lemma ActivityCountsTotal(vs: seq<Value>)
    ensures TotalCount(ActivityCounts(vs)) == |Present(vs)|
  {
    var ps := Present(vs);
    var acts := Distinct(ps);
    var r := ActivityCounts(vs);
    forall i | 0 <= i < |r| ensures r[i].count == multiset(ps)[acts[i]] {
      assert acts[i] in ps;
    }
    TotalPrefix(r, acts, multiset(ps), |r|);
    assert r[..|r|] == r && acts[..|r|] == acts;
    SumOverAll(acts, ps);
  }

  datatype OcelSummary = OcelSummary(
    start: Option<int>, end: Option<int>, activities: seq<ActivityCount>,
    objectSummaries: seq<ObjectTypeSummary>, relationSummaries: seq<RelationCountSummary>)

  /** The number of distinct values a nominal summary samples. */
  const MaxUnique := 100

  /** `get_ocel_information` over the OCEL's tables: the time range and activity counts
      of the events, the object summaries and the relation summaries; the first
      `KeyError` met stops it. */
  function OcelInformation(events: Frame, objects: Frame, relations: Frame, changes: Frame, names: seq<string>): (r: Result<OcelSummary>)
    requires TimeColumn(ColumnValues(events.rows, Timestamp))
    ensures r.Err? ==> r.error.KeyError?
    ensures r.Ok? ==> (r.value.start.Some? <==> exists t :: Time(t) in ColumnValues(events.rows, Timestamp))
    ensures r.Ok? && r.value.start.Some? ==>
      && r.value.end.Some? && r.value.start.value <= r.value.end.value
      && forall t :: Time(t) in ColumnValues(events.rows, Timestamp) ==> r.value.start.value <= t <= r.value.end.value
  {
    if Timestamp !in events.columns then Err(KeyError(Timestamp))
    else if Activity !in events.columns then Err(KeyError(Activity))
    else
      var range := TimeRange(ColumnValues(events.rows, Timestamp));
      var activities := ActivityCounts(ColumnValues(events.rows, Activity));
      match ObjectSummaries(objects, changes, names, MaxUnique)
      case Err(e) => Err(e)
      case Ok(os) =>
        match RelationMetadata(relations)
        case Err(e) => Err(e)
        case Ok(rs) => Ok(OcelSummary(range.0, range.1, activities, os, rs))
  }

  /** The summary exists exactly when every table has the columns the computation
      reads, and then it is assembled from the four parts. */
  lemma OcelInformationParts(events: Frame, objects: Frame, relations: Frame, changes: Frame, names: seq<string>)
    requires TimeColumn(ColumnValues(events.rows, Timestamp))
    ensures var r := OcelInformation(events, objects, relations, changes, names);
      && (r.Ok? <==> (
            && Timestamp in events.columns && Activity in events.columns
            && ObjectType in objects.columns && ObjectType in changes.columns
            && EventId in relations.columns && Qualifier in relations.columns
            && Activity in relations.columns && ObjectType in relations.columns))
      && (r.Ok? ==> && (r.value.start, r.value.end) == TimeRange(ColumnValues(events.rows, Timestamp))
                    && r.value.activities == ActivityCounts(ColumnValues(events.rows, Activity))
                    && r.value.objectSummaries == TypeSummaries(Metadata(objects, changes, names),
                         GroupKeys(Metadata(objects, changes, names)), MaxUnique)
                    && r.value.relationSummaries == RelationSummaries(Quads(relations.rows)))
  {
    var wanted := [EventId, Qualifier, Activity, ObjectType];
    var missing := MissingColumn(relations.columns, wanted);
    assert missing.None? <==> (EventId in relations.columns && Qualifier in relations.columns
      && Activity in relations.columns && ObjectType in relations.columns) by {
      assert wanted[0] == EventId && wanted[1] == Qualifier && wanted[2] == Activity && wanted[3] == ObjectType;
    }
  }
}
