/** The `/analysis-data` handler's grouping (app.py): the stored rows, read
    ordered by unit and then value, are folded into a dictionary from unit
    to the list of its values with `setdefault(unit, []).append(value)`.
    Python dictionaries keep insertion order, so the result is modelled as
    an association list. */
module Grouping {
  import opened Text
  import opened Pipeline

  /** One entry of the dictionary. */
  datatype Group = Group(unit: string, values: seq<real>)

  /** The units of the entries, in insertion order. */
  function Keys(g: seq<Group>): (ks: seq<string>)
    ensures |ks| == |g|
    ensures forall k :: 0 <= k < |g| ==> ks[k] == g[k].unit
  {
    seq(|g|, k requires 0 <= k < |g| => g[k].unit)
  }

  /** No unit has two entries. */
  predicate DistinctKeys(g: seq<Group>)
  {
    forall i, j :: 0 <= i < j < |g| ==> g[i].unit != g[j].unit
  }

  /** The position of the entry for `u`, if there is one. */
  function EntryOf(g: seq<Group>, u: string): (r: Option<nat>)
    ensures r.None? <==> forall k :: 0 <= k < |g| ==> g[k].unit != u
    ensures r.Some? ==> r.value < |g| && g[r.value].unit == u
  {
    if |g| == 0 then None
    else if g[|g| - 1].unit == u then Some(|g| - 1)
    else EntryOf(g[..|g| - 1], u)
  }

  /** `grouped.setdefault(unit, []).append(val)`: append to the unit's list,
      creating it at the end of the dictionary when the unit is new. */
  function AddRow(g: seq<Group>, m: Measurement): (r: seq<Group>)
  {
    match EntryOf(g, m.unit)
    case None => g + [Group(m.unit, [m.value])]
    case Some(k) => g[k := Group(m.unit, g[k].values + [m.value])]
  }

  /** The `for row in data` loop. */
  function GroupByUnit(rows: seq<Measurement>): seq<Group>
  {
    if |rows| == 0 then [] else AddRow(GroupByUnit(rows[..|rows| - 1]), rows[|rows| - 1])
  }

  /** The values of the rows of unit `u`, in row order: what the entry for
      `u` should hold. */
  function ValuesOf(rows: seq<Measurement>, u: string): seq<real>
  {
    if |rows| == 0 then []
    else
      var last := rows[|rows| - 1];
      ValuesOf(rows[..|rows| - 1], u) + (if last.unit == u then [last.value] else [])
  }

  /** The units the rows mention. */
  function UnitsOf(rows: seq<Measurement>): set<string>
  {
    set i | 0 <= i < |rows| :: rows[i].unit
  }

  /** The number of grouped values. */
  function Total(g: seq<Group>): nat
  {
    if |g| == 0 then 0 else |g[0].values| + Total(g[1..])
  }

  /** What the grouping promises about rows: one entry per unit present,
      nothing else, and each entry lists that unit's values in row order. */
  predicate Represents(g: seq<Group>, rows: seq<Measurement>)
  {
    && DistinctKeys(g)
    && (forall k :: 0 <= k < |g| ==> g[k].unit in UnitsOf(rows))
    && (forall i :: 0 <= i < |rows| ==> rows[i].unit in Keys(g))
    && (forall k :: 0 <= k < |g| ==> g[k].values == ValuesOf(rows, g[k].unit))
  }

  lemma UnitsOfSnoc(rows: seq<Measurement>)
    requires |rows| > 0
    ensures UnitsOf(rows) == UnitsOf(rows[..|rows| - 1]) + {rows[|rows| - 1].unit}
  {
    var pre := rows[..|rows| - 1];
    forall u | u in UnitsOf(rows) ensures u in UnitsOf(pre) + {rows[|rows| - 1].unit} {
      var i :| 0 <= i < |rows| && rows[i].unit == u;
      if i < |pre| {
        assert pre[i] == rows[i];
      }
    }
    forall u | u in UnitsOf(pre) ensures u in UnitsOf(rows) {
      var i :| 0 <= i < |pre| && pre[i].unit == u;
      assert rows[i] == pre[i];
    }
  }

  /** A unit no row mentions has no values. */
  lemma {:induction false} ValuesOfAbsent(rows: seq<Measurement>, u: string)
    requires u !in UnitsOf(rows)
    ensures ValuesOf(rows, u) == []
  {
    if |rows| > 0 {
      UnitsOfSnoc(rows);
      ValuesOfAbsent(rows[..|rows| - 1], u);
    }
  }

  /** One more row keeps the dictionary faithful to the rows. */
  lemma AddRowRepresents(g: seq<Group>, rows: seq<Measurement>)
    requires |rows| > 0 && Represents(g, rows[..|rows| - 1])
    ensures Represents(AddRow(g, rows[|rows| - 1]), rows)
  {
    match EntryOf(g, rows[|rows| - 1].unit)
    case None => AddRowNew(g, rows);
    case Some(j) => AddRowExisting(g, rows, j);
  }

  /** A row of a unit not seen before opens a new entry at the end. */
  lemma AddRowNew(g: seq<Group>, rows: seq<Measurement>)
    requires |rows| > 0 && Represents(g, rows[..|rows| - 1])
    requires forall k :: 0 <= k < |g| ==> g[k].unit != rows[|rows| - 1].unit
    ensures Represents(g + [Group(rows[|rows| - 1].unit, [rows[|rows| - 1].value])], rows)
  {
    var pre, m := rows[..|rows| - 1], rows[|rows| - 1];
    var r := g + [Group(m.unit, [m.value])];
    UnitsOfSnoc(rows);
    assert m.unit !in UnitsOf(pre);
    ValuesOfAbsent(pre, m.unit);
    assert ValuesOf(rows, m.unit) == [m.value];
    forall i | 0 <= i < |rows| ensures rows[i].unit in Keys(r) {
      if i < |pre| {
        assert pre[i] == rows[i];
        var k :| 0 <= k < |g| && Keys(g)[k] == rows[i].unit;
        assert Keys(r)[k] == rows[i].unit;
      } else {
        assert Keys(r)[|g|] == rows[i].unit;
      }
    }
  }

  /** A row of a known unit is appended to that unit's entry. */
  lemma AddRowExisting(g: seq<Group>, rows: seq<Measurement>, j: nat)
    requires |rows| > 0 && Represents(g, rows[..|rows| - 1])
    requires j < |g| && g[j].unit == rows[|rows| - 1].unit
    ensures Represents(g[j := Group(rows[|rows| - 1].unit, g[j].values + [rows[|rows| - 1].value])], rows)
  {
    var pre, m := rows[..|rows| - 1], rows[|rows| - 1];
    var r := g[j := Group(m.unit, g[j].values + [m.value])];
    UnitsOfSnoc(rows);
    forall i | 0 <= i < |rows| ensures rows[i].unit in Keys(r) {
      if i < |pre| {
        assert pre[i] == rows[i];
        var k :| 0 <= k < |g| && Keys(g)[k] == rows[i].unit;
        assert Keys(r)[k] == rows[i].unit;
      } else {
        assert Keys(r)[j] == rows[i].unit;
      }
    }
  }

  /** The grouping holds exactly the units present, each once, and under
      each unit exactly its rows' values in row order. */
  lemma {:induction false} GroupByUnitRepresents(rows: seq<Measurement>)
    ensures Represents(GroupByUnit(rows), rows)
  {
    if |rows| > 0 {
      GroupByUnitRepresents(rows[..|rows| - 1]);
      AddRowRepresents(GroupByUnit(rows[..|rows| - 1]), rows);
    }
  }

  /** Replacing one entry changes the total by the difference of the two
      entries' sizes. */
  lemma {:induction false} TotalUpdate(g: seq<Group>, k: nat, x: Group)
    requires k < |g|
    ensures Total(g[k := x]) + |g[k].values| == Total(g) + |x.values|
  {
    if k > 0 {
      assert g[k := x][1..] == g[1..][k - 1 := x];
      TotalUpdate(g[1..], k - 1, x);
    } else {
      assert g[k := x][1..] == g[1..];
    }
  }

  lemma {:induction false} TotalSnoc(g: seq<Group>, x: Group)
    ensures Total(g + [x]) == Total(g) + |x.values|
  {
    if |g| > 0 {
      assert (g + [x])[1..] == g[1..] + [x];
      TotalSnoc(g[1..], x);
    } else {
      assert (g + [x])[1..] == [];
    }
  }

  /** Every row's value is listed exactly once: the grouped values number
      as many as the rows. */
  lemma {:induction false} GroupByUnitTotal(rows: seq<Measurement>)
    ensures Total(GroupByUnit(rows)) == |rows|
  {
    if |rows| > 0 {
      var g := GroupByUnit(rows[..|rows| - 1]);
      var m := rows[|rows| - 1];
      GroupByUnitTotal(rows[..|rows| - 1]);
      match EntryOf(g, m.unit)
      case None => TotalSnoc(g, Group(m.unit, [m.value]));
      case Some(k) => TotalUpdate(g, k, Group(m.unit, g[k].values + [m.value]));
    }
  }

  /** The order `ORDER BY unit, value` delivers: within a unit, values do
      not decrease. */
  predicate SortedWithinUnits(rows: seq<Measurement>)
  {
    forall i, j :: 0 <= i < j < |rows| && rows[i].unit == rows[j].unit ==> rows[i].value <= rows[j].value
  }

  predicate Ascending(xs: seq<real>)
  {
    forall i, j :: 0 <= i < j < |xs| ==> xs[i] <= xs[j]
  }

  /** Every value listed for `u` is the value of an earlier-or-equal row of
      unit `u`; the last one is the value of the last such row. */
  lemma {:induction false} ValuesOfFrom(rows: seq<Measurement>, u: string, x: real)
    requires x in ValuesOf(rows, u)
    ensures exists i :: 0 <= i < |rows| && rows[i].unit == u && rows[i].value == x
  {
    var pre := rows[..|rows| - 1];
    if x in ValuesOf(pre, u) {
      ValuesOfFrom(pre, u, x);
      var i :| 0 <= i < |pre| && pre[i].unit == u && pre[i].value == x;
      assert rows[i] == pre[i];
    } else {
      assert rows[|rows| - 1].unit == u && rows[|rows| - 1].value == x;
    }
  }

  lemma {:induction false} ValuesOfAscending(rows: seq<Measurement>, u: string)
    requires SortedWithinUnits(rows)
    ensures Ascending(ValuesOf(rows, u))
  {
    if |rows| > 0 {
      var pre, m := rows[..|rows| - 1], rows[|rows| - 1];
      assert SortedWithinUnits(pre) by {
        forall i, j | 0 <= i < j < |pre| && pre[i].unit == pre[j].unit ensures pre[i].value <= pre[j].value {
          assert pre[i] == rows[i] && pre[j] == rows[j];
        }
      }
      ValuesOfAscending(pre, u);
      var vs := ValuesOf(pre, u);
      if m.unit == u {
        forall i | 0 <= i < |vs| ensures vs[i] <= m.value {
          ValuesOfFrom(pre, u, vs[i]);
          var k :| 0 <= k < |pre| && pre[k].unit == u && pre[k].value == vs[i];
          assert rows[k] == pre[k];
        }
      }
    }
  }

  /** Rows read in `ORDER BY unit, value` order give every unit's list in
      ascending order, as the handler's description promises. */
  lemma GroupsAscending(rows: seq<Measurement>)
    requires SortedWithinUnits(rows)
    ensures forall k :: 0 <= k < |GroupByUnit(rows)| ==> Ascending(GroupByUnit(rows)[k].values)
  {
    var g := GroupByUnit(rows);
    GroupByUnitRepresents(rows);
    forall k | 0 <= k < |g| ensures Ascending(g[k].values) {
      ValuesOfAscending(rows, g[k].unit);
    }
  }
}
