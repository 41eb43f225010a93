/** The filter stages of the dashboard's update handler. Each stage is a
    boolean-mask selection over the table; the name, sex and department
    stages are skipped when their control is empty or unset. */
module Filtering {
  import opened Records

  /** The four control values: the first-name text box, the sex checklist,
      the two handles of the year slider and the department dropdown. */
  datatype Filters = Filters(name: Option<string>, sexes: Option<seq<Cell>>, years: (int, int), departments: Option<seq<string>>)

  /** Keeps the rows that satisfy `keep`, in their original order. */
  function Select(rows: seq<Row>, keep: Row -> bool): (kept: seq<Row>)
    ensures |kept| <= |rows|
    ensures forall r :: r in kept <==> r in rows && keep(r)
  {
    if rows == [] then []
    else if keep(rows[0]) then [rows[0]] + Select(rows[1..], keep)
    else Select(rows[1..], keep)
  }

  /** `a` is obtained from `b` by deleting elements. */
  predicate IsSubsequence(a: seq<Row>, b: seq<Row>)
  {
    if a == [] then true
    else if b == [] then false
    else (a[0] == b[0] && IsSubsequence(a[1..], b[1..])) || IsSubsequence(a, b[1..])
  }

  // The row masks used by the stages.

  function NameIs(name: string): Row -> bool
  {
    (r: Row) => r.firstName == name
  }

  function SexIn(labels: seq<Cell>): Row -> bool
  {
    (r: Row) => r.sexName in labels
  }

  function YearWithin(years: (int, int)): Row -> bool
  {
    (r: Row) => years.0 <= r.year && r.year <= years.1
  }

  function DepartmentIn(codes: seq<string>): Row -> bool
  {
    (r: Row) => r.department in codes
  }

  datatype Stage = NameStage | SexStage | YearStage | DepartmentStage

  /** Whether a stage filters at all: an empty or unset control is skipped;
      the year range always applies. */
  predicate StageActive(f: Filters, st: Stage)
  {
    match st
    case NameStage => f.name.Some? && f.name.value != ""
    case SexStage => f.sexes.Some? && f.sexes.value != []
    case YearStage => true
    case DepartmentStage => f.departments.Some? && f.departments.value != []
  }

  function StageMask(f: Filters, st: Stage): Row -> bool
    requires StageActive(f, st)
  {
    match st
    case NameStage => NameIs(f.name.value)
    case SexStage => SexIn(f.sexes.value)
    case YearStage => YearWithin(f.years)
    case DepartmentStage => DepartmentIn(f.departments.value)
  }

  function ApplyStage(rows: seq<Row>, f: Filters, st: Stage): (out: seq<Row>)
    ensures |out| <= |rows|
    ensures forall r :: r in out <==> r in rows && StagePasses(f, st, r)
  {
    if StageActive(f, st) then Select(rows, StageMask(f, st)) else rows
  }

  /** The handler's filtering, stage by stage in the order the handler applies them. */
  function FilterRows(table: seq<Row>, f: Filters): (rows: seq<Row>)
    ensures |rows| <= |table|
    ensures forall r :: r in rows <==> r in table && Passes(f, r)
  {
    var byName := ApplyStage(table, f, NameStage);
    var bySex := ApplyStage(byName, f, SexStage);
    var byYear := ApplyStage(bySex, f, YearStage);
    ApplyStage(byYear, f, DepartmentStage)
  }

  /** The stages applied in an arbitrary order (with repetitions allowed). */
  function ApplyStages(rows: seq<Row>, f: Filters, stages: seq<Stage>): seq<Row>
    decreases stages
  {
    if stages == [] then rows else ApplyStages(ApplyStage(rows, f, stages[0]), f, stages[1..])
  }

  /** The reference condition for a row to survive, written directly from the
      controls: each clause only applies when its control is set. */
  predicate Passes(f: Filters, r: Row)
  {
    && (f.name.Some? && f.name.value != "" ==> r.firstName == f.name.value)
    && (f.sexes.Some? && f.sexes.value != [] ==> r.sexName in f.sexes.value)
    && f.years.0 <= r.year <= f.years.1
    && (f.departments.Some? && f.departments.value != [] ==> r.department in f.departments.value)
  }

  function PassesMask(f: Filters): Row -> bool
  {
    (r: Row) => Passes(f, r)
  }

  /** What one stage demands of a row; an inactive stage demands nothing. */
  predicate StagePasses(f: Filters, st: Stage, r: Row)
  {
    StageActive(f, st) ==> StageMask(f, st)(r)
  }

  predicate AllStagesPass(f: Filters, stages: seq<Stage>, r: Row)
  {
    forall i :: 0 <= i < |stages| ==> StagePasses(f, stages[i], r)
  }

  function AllStagesMask(f: Filters, stages: seq<Stage>): Row -> bool
  {
    (r: Row) => AllStagesPass(f, stages, r)
  }

  // Facts about Select.

  lemma {:induction false} SelectSubsequence(rows: seq<Row>, keep: Row -> bool)
    ensures IsSubsequence(Select(rows, keep), rows)
  {
    if rows != [] {
      SelectSubsequence(rows[1..], keep);
      if !keep(rows[0]) {
        var s := Select(rows, keep);
        if s != [] {
          assert IsSubsequence(s, rows[1..]);
        }
      }
    }
  }

  lemma {:induction false} SelectExtensional(rows: seq<Row>, p: Row -> bool, q: Row -> bool)
    requires forall r :: r in rows ==> p(r) == q(r)
    ensures Select(rows, p) == Select(rows, q)
  {
    if rows != [] {
      SelectExtensional(rows[1..], p, q);
    }
  }

  lemma {:induction false} SelectAll(rows: seq<Row>, keep: Row -> bool)
    requires forall r :: r in rows ==> keep(r)
    ensures Select(rows, keep) == rows
  {
    if rows != [] {
      SelectAll(rows[1..], keep);
    }
  }

  function Both(p: Row -> bool, q: Row -> bool): Row -> bool
  {
    (r: Row) => p(r) && q(r)
  }

  lemma {:induction false} SelectSelect(rows: seq<Row>, p: Row -> bool, q: Row -> bool)
    ensures Select(Select(rows, p), q) == Select(rows, Both(p, q))
  {
    if rows != [] {
      SelectSelect(rows[1..], p, q);
      if p(rows[0]) {
        assert Select(rows, p) == [rows[0]] + Select(rows[1..], p);
        assert ([rows[0]] + Select(rows[1..], p))[1..] == Select(rows[1..], p);
      }
    }
  }

  // Facts about the stages.

  /** Every stage, whether applied or skipped, is a selection by its demand. */
  lemma ApplyStageSelect(rows: seq<Row>, f: Filters, st: Stage)
    ensures ApplyStage(rows, f, st) == Select(rows, r => StagePasses(f, st, r))
  {
    if StageActive(f, st) {
      SelectExtensional(rows, StageMask(f, st), r => StagePasses(f, st, r));
    } else {
      SelectAll(rows, r => StagePasses(f, st, r));
    }
  }

  /** Applying any list of stages keeps exactly the rows that every listed stage lets through. */
  lemma {:induction false} ApplyStagesSelect(rows: seq<Row>, f: Filters, stages: seq<Stage>)
    ensures ApplyStages(rows, f, stages) == Select(rows, AllStagesMask(f, stages))
    decreases stages
  {
    if stages == [] {
      SelectAll(rows, AllStagesMask(f, stages));
    } else {
      var first := r => StagePasses(f, stages[0], r);
      ApplyStageSelect(rows, f, stages[0]);
      ApplyStagesSelect(ApplyStage(rows, f, stages[0]), f, stages[1..]);
      SelectSelect(rows, first, AllStagesMask(f, stages[1..]));
      forall r | r in rows
        ensures Both(first, AllStagesMask(f, stages[1..]))(r) == AllStagesMask(f, stages)(r)
      {
        if AllStagesPass(f, stages, r) {
          forall i | 0 <= i < |stages[1..]| ensures StagePasses(f, stages[1..][i], r) {
            assert stages[1..][i] == stages[i + 1];
          }
        }
        if StagePasses(f, stages[0], r) && AllStagesPass(f, stages[1..], r) {
          forall i | 0 <= i < |stages| ensures StagePasses(f, stages[i], r) {
            if i > 0 {
              assert stages[i] == stages[1..][i - 1];
            }
          }
        }
      }
      SelectExtensional(rows, Both(first, AllStagesMask(f, stages[1..])), AllStagesMask(f, stages));
    }
  }

  /** A list that contains every stage demands exactly what the reference condition demands. */
  lemma AllStagesPassIffPasses(f: Filters, stages: seq<Stage>, r: Row)
    requires forall st: Stage :: st in stages
    ensures AllStagesPass(f, stages, r) <==> Passes(f, r)
  {
    if AllStagesPass(f, stages, r) {
      assert NameStage in stages && SexStage in stages && YearStage in stages && DepartmentStage in stages;
      var iName :| 0 <= iName < |stages| && stages[iName] == NameStage;
      var iSex :| 0 <= iSex < |stages| && stages[iSex] == SexStage;
      var iYear :| 0 <= iYear < |stages| && stages[iYear] == YearStage;
      var iDept :| 0 <= iDept < |stages| && stages[iDept] == DepartmentStage;
      assert StagePasses(f, stages[iName], r) && StagePasses(f, stages[iSex], r);
      assert StagePasses(f, stages[iYear], r) && StagePasses(f, stages[iDept], r);
    }
  }

  lemma {:induction false} FilterRowsAsStages(table: seq<Row>, f: Filters)
    ensures FilterRows(table, f) == ApplyStages(table, f, [NameStage, SexStage, YearStage, DepartmentStage])
  {
    var stages := [NameStage, SexStage, YearStage, DepartmentStage];
    var byName := ApplyStage(table, f, NameStage);
    var bySex := ApplyStage(byName, f, SexStage);
    var byYear := ApplyStage(bySex, f, YearStage);
    var byDepartment := ApplyStage(byYear, f, DepartmentStage);
    assert ApplyStages(byDepartment, f, []) == byDepartment;
    assert ApplyStages(byYear, f, [DepartmentStage]) == byDepartment;
    assert ApplyStages(bySex, f, [YearStage, DepartmentStage]) == byDepartment;
    assert ApplyStages(byName, f, [SexStage, YearStage, DepartmentStage]) == byDepartment;
  }

  // The properties of the handler's filtering.

  /** The filtered table is the base table restricted, in order and with
      multiplicity, to the rows that meet the reference condition. */
  lemma {:induction false} FilterRowsCharacterised(table: seq<Row>, f: Filters)
    ensures FilterRows(table, f) == Select(table, PassesMask(f))
  {
    var stages := [NameStage, SexStage, YearStage, DepartmentStage];
    assert forall st: Stage :: st in stages by {
      forall st: Stage ensures st in stages {
        match st
        case NameStage => assert stages[0] == st;
        case SexStage => assert stages[1] == st;
        case YearStage => assert stages[2] == st;
        case DepartmentStage => assert stages[3] == st;
      }
    }
    FilterRowsAsStages(table, f);
    ApplyStagesSelect(table, f, stages);
    forall r | r in table ensures AllStagesMask(f, stages)(r) == PassesMask(f)(r) {
      AllStagesPassIffPasses(f, stages, r);
    }
    SelectExtensional(table, AllStagesMask(f, stages), PassesMask(f));
  }

  /** A row survives the filters iff it is in the table and meets every set control. */
  lemma {:induction false} FilterRowsMembership(table: seq<Row>, f: Filters, r: Row)
    ensures r in FilterRows(table, f) <==> r in table && Passes(f, r)
  {
    FilterRowsCharacterised(table, f);
  }

  /** Filtering only removes rows and keeps the survivors in their original order. */
  lemma FilterRowsSubsequence(table: seq<Row>, f: Filters)
    ensures IsSubsequence(FilterRows(table, f), table)
  {
    FilterRowsCharacterised(table, f);
    SelectSubsequence(table, PassesMask(f));
  }

  /** Applying the stages in any order, each at least once, gives the handler's result. */
  lemma FilterOrderIndependent(table: seq<Row>, f: Filters, stages: seq<Stage>)
    requires forall st: Stage :: st in stages
    ensures ApplyStages(table, f, stages) == FilterRows(table, f)
  {
    ApplyStagesSelect(table, f, stages);
    FilterRowsCharacterised(table, f);
    forall r | r in table ensures AllStagesMask(f, stages)(r) == PassesMask(f)(r) {
      AllStagesPassIffPasses(f, stages, r);
    }
    SelectExtensional(table, AllStagesMask(f, stages), PassesMask(f));
  }

  /** With the name, sex and department controls empty or unset and a year
      range covering every row, nothing is filtered out. */
  lemma FilterRowsIdentity(table: seq<Row>, f: Filters)
    requires f.name == None || f.name == Some("")
    requires f.sexes == None || f.sexes == Some([])
    requires f.departments == None || f.departments == Some([])
    requires forall r :: r in table ==> f.years.0 <= r.year <= f.years.1
    ensures FilterRows(table, f) == table
  {
    FilterRowsCharacterised(table, f);
    SelectAll(table, PassesMask(f));
  }

  /** The year slider's bounds: the smallest and largest year in the table. */
  function MinYear(rows: seq<Row>): (y: int)
    requires rows != []
    ensures exists i :: 0 <= i < |rows| && rows[i].year == y
    ensures forall i :: 0 <= i < |rows| ==> y <= rows[i].year
  {
    if |rows| == 1 then rows[0].year
    else
      var rest := MinYear(rows[1..]);
      if rows[0].year <= rest then rows[0].year else rest
  }

  function MaxYear(rows: seq<Row>): (y: int)
    requires rows != []
    ensures exists i :: 0 <= i < |rows| && rows[i].year == y
    ensures forall i :: 0 <= i < |rows| ==> rows[i].year <= y
  {
    if |rows| == 1 then rows[0].year
    else
      var rest := MaxYear(rows[1..]);
      if rows[0].year >= rest then rows[0].year else rest
  }

  /** The controls as the page first shows them, except for the sex checklist:
      no name, no department and the slider at the table's full year range. */
  lemma FullRangeKeepsAll(table: seq<Row>)
    requires table != []
    ensures FilterRows(table, Filters(None, None, (MinYear(table), MaxYear(table)), None)) == table
  {
    var f := Filters(None, None, (MinYear(table), MaxYear(table)), None);
    forall r | r in table ensures f.years.0 <= r.year <= f.years.1 {
      var i :| 0 <= i < |table| && table[i] == r;
    }
    FilterRowsIdentity(table, f);
  }
}
