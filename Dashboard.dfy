/** The update handler: filter the cleaned table by the four controls and
    compute the data behind the line chart and the choropleth map. */
module Dashboard {
  import opened Records
  import opened Cleaning
  import opened Filtering
  import opened Aggregation

  /** The data of the two figures, in the handler's output order: people per
      year (line chart) and people per department (map). */
  datatype Charts = Charts(lineSeries: map<int, nat>, mapValues: map<string, nat>)

  function UpdateGraph(table: seq<Row>, f: Filters): (c: Charts)
    ensures c.lineSeries == map[] <==> c.mapValues == map[]
    ensures forall y :: y in c.lineSeries ==> f.years.0 <= y <= f.years.1
  {
    var rows := FilterRows(table, f);
    assert rows != [] ==> rows[0].year in ByYear(rows) && rows[0].department in ByDepartment(rows);
    Charts(ByYear(rows), ByDepartment(rows))
  }

  /** Each chart's groups hold exactly the keys of the surviving rows, and each
      group holds those rows' total count. */
  lemma UpdateGraphGroups(table: seq<Row>, f: Filters)
    ensures UpdateGraph(table, f).lineSeries.Keys == set r | r in FilterRows(table, f) :: r.year
    ensures UpdateGraph(table, f).mapValues.Keys == set r | r in FilterRows(table, f) :: r.department
    ensures forall y :: y in UpdateGraph(table, f).lineSeries ==>
      UpdateGraph(table, f).lineSeries[y] == Total(Select(FilterRows(table, f), KeyIs(YearOf, y)))
    ensures forall d :: d in UpdateGraph(table, f).mapValues ==>
      UpdateGraph(table, f).mapValues[d] == Total(Select(FilterRows(table, f), KeyIs(DepartmentOf, d)))
  {
    var rows := FilterRows(table, f);
    forall y | y in ByYear(rows) ensures ByYear(rows)[y] == Total(Select(rows, KeyIs(YearOf, y))) {
      ByYearValues(rows, y);
    }
    forall d | d in ByDepartment(rows) ensures ByDepartment(rows)[d] == Total(Select(rows, KeyIs(DepartmentOf, d))) {
      ByDepartmentValues(rows, d);
    }
  }

  /** Every year on the line chart lies in the slider's range, and when
      departments are selected the map shows no other department. */
  lemma UpdateGraphKeysWithinControls(table: seq<Row>, f: Filters)
    ensures forall y :: y in UpdateGraph(table, f).lineSeries ==> f.years.0 <= y <= f.years.1
    ensures f.departments.Some? && f.departments.value != [] ==>
      forall d :: d in UpdateGraph(table, f).mapValues ==> d in f.departments.value
  {
    var rows := FilterRows(table, f);
    UpdateGraphGroups(table, f);
    forall r | r in rows ensures Passes(f, r) {
      FilterRowsMembership(table, f, r);
    }
  }

  /** Both charts show the same number of people: the total count of the
      rows that survive the filters. */
  lemma UpdateGraphConserves(table: seq<Row>, f: Filters)
    ensures MapTotal(UpdateGraph(table, f).lineSeries) == Total(FilterRows(table, f))
    ensures MapTotal(UpdateGraph(table, f).mapValues) == Total(FilterRows(table, f))
  {
    GroupingsConserveTotal(FilterRows(table, f));
  }

  /** The charts are empty exactly when no row passes the filters. */
  lemma UpdateGraphEmptyIff(table: seq<Row>, f: Filters)
    ensures UpdateGraph(table, f).lineSeries == map[] <==> (forall r :: r in table ==> !Passes(f, r))
    ensures UpdateGraph(table, f).mapValues == map[] <==> (forall r :: r in table ==> !Passes(f, r))
  {
    var rows := FilterRows(table, f);
    GroupingsEmptyIff(rows);
    forall r ensures r in rows <==> r in table && Passes(f, r) {
      FilterRowsMembership(table, f, r);
    }
    if rows != [] {
      assert rows[0] in rows;
    }
  }

  /** A first name that no row carries gives two empty charts. */
  lemma {:induction false} UnknownNameGivesEmptyCharts(table: seq<Row>, f: Filters)
    requires f.name.Some? && f.name.value != ""
    requires forall r :: r in table ==> r.firstName != f.name.value
    ensures UpdateGraph(table, f) == Charts(map[], map[])
  {
    UpdateGraphEmptyIff(table, f);
  }

  /** The charts drawn for an unfiltered table: no name, no sex, no
      department and the slider over the full year range. */
  lemma UnfilteredCharts(table: seq<Row>)
    requires table != []
    ensures UpdateGraph(table, Filters(None, None, (MinYear(table), MaxYear(table)), None))
         == Charts(ByYear(table), ByDepartment(table))
  {
    FullRangeKeepsAll(table);
  }

  /** The sex checklist starts out on the label "Homme", which the cleaning
      never produces, so with that selection every cleaned table gives two
      empty charts, whatever the other controls say. */
  lemma {:induction false} DefaultChecklistShowsNothing(raw: seq<RawRow>, name: Option<string>, years: (int, int), departments: Option<seq<string>>)
    ensures UpdateGraph(Clean(raw), Filters(name, Some([Str("Homme")]), years, departments)) == Charts(map[], map[])
  {
    var f := Filters(name, Some([Str("Homme")]), years, departments);
    forall r | r in Clean(raw) ensures !Passes(f, r) {
      CleanLabels(raw, r);
    }
    UpdateGraphEmptyIff(Clean(raw), f);
  }

  /** Two people of one department: Jean (code 1) and Marie (code 2), 1950,
      department 1. Selecting "Jean" among the men over 1900-2000 leaves one
      point (1950, 100) and department "01" at 100. */
  lemma WorkedExample()
    ensures UpdateGraph(Clean([RawRow(1, "Jean", 1950, 1, 100), RawRow(2, "Marie", 1950, 1, 80)]),
                        Filters(Some("Jean"), Some([Str("Man")]), (1900, 2000), None))
         == Charts(map[1950 := 100], map["01" := 100])
  {
    var raw := [RawRow(1, "Jean", 1950, 1, 100), RawRow(2, "Marie", 1950, 1, 80)];
    var f := Filters(Some("Jean"), Some([Str("Man")]), (1900, 2000), None);
    PadDepartmentShape(1);
    var jean := Row(1, "Jean", 1950, "01", 100, Str("Man"));
    var marie := Row(2, "Marie", 1950, "01", 80, Str("Woman"));
    assert Clean(raw) == [jean, marie];
    FilterRowsCharacterised(Clean(raw), f);
    assert Passes(f, jean) && !Passes(f, marie);
    assert Select([marie], PassesMask(f)) == [];
    assert FilterRows(Clean(raw), f) == [jean];
    assert [jean][1..] == [];
    assert GroupSum([jean], YearOf) == map[][1950 := 100 + Lookup(map[], 1950)];
    assert ByYear([jean]) == map[1950 := 100];
    assert GroupSum([jean], DepartmentOf) == map[]["01" := 100 + Lookup(map[], "01")];
    assert ByDepartment([jean]) == map["01" := 100];
  }
}
