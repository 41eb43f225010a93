/** The one-time cleaning pass: sex codes become labels, department codes
    become zero-padded decimal strings. */
module Cleaning {
  import opened Records

  /** The sex relabelling: 1 is "Man", 2 is "Woman", anything else is kept. */
  function RenameSexe(value: Cell): (r: Cell)
    ensures r != Int(1) && r != Int(2)
    ensures r != value ==> value == Int(1) || value == Int(2)
    ensures r.Str? ==> r == value || r == Str("Man") || r == Str("Woman")
  {
    if value == Int(1) then Str("Man")
    else if value == Int(2) then Str("Woman")
    else value
  }

  lemma RenameSexeCases(value: Cell)
    ensures value == Int(1) ==> RenameSexe(value) == Str("Man")
    ensures value == Int(2) ==> RenameSexe(value) == Str("Woman")
    ensures value != Int(1) && value != Int(2) ==> RenameSexe(value) == value
  {
  }

  /** Relabelling an already relabelled value changes nothing. */
  lemma RenameSexeIdempotent(value: Cell)
    ensures RenameSexe(RenameSexe(value)) == RenameSexe(value)
  {
  }

  /** Distinct raw codes keep distinct labels, so no two groups of people merge. */
  lemma RenameSexeInjective(a: int, b: int)
    ensures RenameSexe(Int(a)) == RenameSexe(Int(b)) ==> a == b
  {
  }

  predicate IsDigit(c: char)
  {
    '0' <= c <= '9'
  }

  function DigitValue(c: char): nat
  {
    if IsDigit(c) then c as int - '0' as int else 0
  }

  function DigitChar(d: nat): (c: char)
    requires d < 10
    ensures IsDigit(c) && DigitValue(c) == d
  {
    ('0' as int + d) as char
  }

  /** The decimal representation of a natural number, most significant digit first. */
  function Decimal(n: nat): (s: string)
    ensures 1 <= |s|
    ensures forall i :: 0 <= i < |s| ==> IsDigit(s[i])
    ensures n >= 1 ==> s[0] != '0'
    ensures |s| == 1 <==> n < 10
    ensures |s| <= 2 <==> n < 100
  {
    if n < 10 then [DigitChar(n)] else Decimal(n / 10) + [DigitChar(n % 10)]
  }

  /** Reads a string of decimal digits back as a number. */
  function ParseDecimal(s: string): nat
  {
    if s == [] then 0 else 10 * ParseDecimal(s[..|s| - 1]) + DigitValue(s[|s| - 1])
  }

  lemma {:induction false} ParseDecimalOfDecimal(n: nat)
    ensures ParseDecimal(Decimal(n)) == n
  {
    var s := Decimal(n);
    if n < 10 {
      assert s[..|s| - 1] == [];
    } else {
      assert s[..|s| - 1] == Decimal(n / 10);
      ParseDecimalOfDecimal(n / 10);
    }
  }

  /** The department normalisation `f"{int(x):02}"`: the decimal form of the
      code, left-padded with zeros to a width of at least two. */
  function PadDepartment(code: nat): (s: string)
    ensures 2 <= |s|
    ensures |s| == 2 <==> code < 100
    ensures forall i :: 0 <= i < |s| ==> IsDigit(s[i])
    ensures ParseDecimal(s) == code
  {
    ParseDecimalOfDecimal(code);
    var digits := Decimal(code);
    if |digits| < 2 then
      var padded := "0" + digits;
      assert padded[..1] == "0" && padded[..|padded| - 1] == "0";
      padded
    else digits
  }

  /** Codes 0 to 9 get a leading zero; larger codes are their plain decimal form. */
  lemma PadDepartmentShape(code: nat)
    ensures code < 10 ==> PadDepartment(code) == ['0', DigitChar(code)]
    ensures code >= 10 ==> PadDepartment(code) == Decimal(code) && PadDepartment(code)[0] != '0'
  {
  }

  /** Two raw codes collide after padding only if they are the same code. */
  lemma PadDepartmentInjective(a: nat, b: nat)
    ensures PadDepartment(a) == PadDepartment(b) <==> a == b
  {
    if PadDepartment(a) == PadDepartment(b) {
      assert ParseDecimal(PadDepartment(a)) == a;
    }
  }

  /** The relation between a raw line and its cleaned row. */
  predicate CleanedFrom(row: Row, raw: RawRow)
  {
    && row.sex == raw.sex
    && row.firstName == raw.firstName
    && row.year == raw.year
    && row.count == raw.count
    && row.department == PadDepartment(raw.department)
    && 2 <= |row.department|
    && ParseDecimal(row.department) == raw.department
    && row.sexName == RenameSexe(Int(raw.sex))
  }

  function CleanRow(raw: RawRow): (row: Row)
    ensures CleanedFrom(row, raw)
  {
    Row(raw.sex, raw.firstName, raw.year, PadDepartment(raw.department), raw.count, RenameSexe(Int(raw.sex)))
  }

  /** The cleaning pass: an element-wise map over the table, which keeps its
      length and order. */
  function Clean(table: seq<RawRow>): (rows: seq<Row>)
    ensures |rows| == |table|
    ensures forall i :: 0 <= i < |table| ==> CleanedFrom(rows[i], table[i])
  {
    seq(|table|, i requires 0 <= i < |table| => CleanRow(table[i]))
  }

  /** After cleaning, a sex label is "Man", "Woman" or a raw code that is neither 1 nor 2. */
  lemma {:induction false} CleanLabels(table: seq<RawRow>, r: Row)
    requires r in Clean(table)
    ensures r.sexName == Str("Man") || r.sexName == Str("Woman") || (r.sexName.Int? && r.sexName.i != 1 && r.sexName.i != 2)
  {
    var i :| 0 <= i < |Clean(table)| && Clean(table)[i] == r;
    assert CleanedFrom(r, table[i]);
  }
}
