/** The two group-by-sum aggregations of the update handler: the count of
    people summed per year and per department. */
module Aggregation {
  import opened Records
  import opened Filtering

  /** The total count of people over some rows. */
  function Total(rows: seq<Row>): nat
  {
    if rows == [] then 0 else rows[0].count + Total(rows[1..])
  }

  /** A group-by on `key` with the count summed per group. */
  function GroupSum<K>(rows: seq<Row>, key: Row -> K): (m: map<K, nat>)
    ensures m.Keys == set r | r in rows :: key(r)
  {
    if rows == [] then map[]
    else
      assert forall r :: r in rows <==> r == rows[0] || r in rows[1..];
      var rest := GroupSum(rows[1..], key);
      var k := key(rows[0]);
      rest[k := rows[0].count + Lookup(rest, k)]
  }

  /** A group's sum, or 0 for a key that has no group. */
  function Lookup<K>(m: map<K, nat>, k: K): nat
  {
    if k in m then m[k] else 0
  }

  function KeyIs<K(==)>(key: Row -> K, k: K): Row -> bool
  {
    (r: Row) => key(r) == k
  }

  function YearOf(r: Row): int
  {
    r.year
  }

  function DepartmentOf(r: Row): string
  {
    r.department
  }

  /** The data behind the line chart. */
  function ByYear(rows: seq<Row>): (m: map<int, nat>)
    ensures m.Keys == set r | r in rows :: r.year
  {
    GroupSum(rows, YearOf)
  }

  /** The data behind the choropleth map. */
  function ByDepartment(rows: seq<Row>): (m: map<string, nat>)
    ensures m.Keys == set r | r in rows :: r.department
  {
    GroupSum(rows, DepartmentOf)
  }

  /** Each group holds the total count of the rows with that key (and a key
      with no group has no such rows). */
  lemma {:induction false} GroupSumValues<K>(rows: seq<Row>, key: Row -> K, k: K)
    ensures Lookup(GroupSum(rows, key), k) == Total(Select(rows, KeyIs(key, k)))
  {
    if rows != [] {
      GroupSumValues(rows[1..], key, k);
      if key(rows[0]) == k {
        assert Select(rows, KeyIs(key, k)) == [rows[0]] + Select(rows[1..], KeyIs(key, k));
        assert ([rows[0]] + Select(rows[1..], KeyIs(key, k)))[1..] == Select(rows[1..], KeyIs(key, k));
      }
    }
  }

  // Summing the values of a map.

  ghost function PickKey<K>(m: map<K, nat>): K
    requires m != map[]
  {
    var k :| k in m; k
  }

  /** The sum of all values of a grouping. */
  ghost function MapTotal<K>(m: map<K, nat>): nat
    decreases |m|
  {
    if m == map[] then 0
    else
      var k := PickKey(m);
      assert (m - {k}).Keys == m.Keys - {k};
      m[k] + MapTotal(m - {k})
  }

  /** The sum does not depend on which key is taken out first. */
  lemma {:induction false} MapTotalRemove<K>(m: map<K, nat>, k: K)
    requires k in m
    ensures MapTotal(m) == m[k] + MapTotal(m - {k})
    decreases |m|
  {
    var j := PickKey(m);
    if j != k {
      assert (m - {j}).Keys == m.Keys - {j};
      assert (m - {k}).Keys == m.Keys - {k};
      MapTotalRemove(m - {j}, k);
      MapTotalRemove(m - {k}, j);
      assert m - {j} - {k} == m - {k} - {j};
    }
  }

  /** The per-group sums add up to the total count of the grouped rows. */
  lemma {:induction false} GroupSumConserves<K>(rows: seq<Row>, key: Row -> K)
    ensures MapTotal(GroupSum(rows, key)) == Total(rows)
  {
    if rows != [] {
      var rest := GroupSum(rows[1..], key);
      var k := key(rows[0]);
      var m := GroupSum(rows, key);
      GroupSumConserves(rows[1..], key);
      MapTotalRemove(m, k);
      assert m - {k} == rest - {k};
      if k in rest {
        MapTotalRemove(rest, k);
      } else {
        assert rest - {k} == rest;
      }
    }
  }

  lemma ByYearValues(rows: seq<Row>, year: int)
    requires year in ByYear(rows)
    ensures ByYear(rows)[year] == Total(Select(rows, KeyIs(YearOf, year)))
  {
    GroupSumValues(rows, YearOf, year);
  }

  lemma ByDepartmentValues(rows: seq<Row>, department: string)
    requires department in ByDepartment(rows)
    ensures ByDepartment(rows)[department] == Total(Select(rows, KeyIs(DepartmentOf, department)))
  {
    GroupSumValues(rows, DepartmentOf, department);
  }

  /** The line chart and the map show the same total number of people, which
      is the total count of the grouped rows. */
  lemma GroupingsConserveTotal(rows: seq<Row>)
    ensures MapTotal(ByYear(rows)) == Total(rows)
    ensures MapTotal(ByDepartment(rows)) == Total(rows)
  {
    GroupSumConserves(rows, YearOf);
    GroupSumConserves(rows, DepartmentOf);
  }

  /** A grouping is empty exactly when there is nothing to group. */
  lemma GroupingsEmptyIff(rows: seq<Row>)
    ensures ByYear(rows) == map[] <==> rows == []
    ensures ByDepartment(rows) == map[] <==> rows == []
  {
    if rows != [] {
      assert rows[0].year in ByYear(rows).Keys;
      assert rows[0].department in ByDepartment(rows).Keys;
    }
  }
}
