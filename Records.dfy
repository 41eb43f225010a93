/** The record types of the first-name table, before and after cleaning. */
module Records {

  datatype Option<T> = None | Some(value: T)

  /** A cell of the dynamically typed sex column: the raw file holds integer
      codes, and relabelling turns some of them into strings and keeps the
      others as they are. */
  datatype Cell = Int(i: int) | Str(s: string)

  /** One line of the semicolon-delimited input file, after the column rename
      (`sexe`, `preusuel`, `annais`, `dpt`, `nombre`). The department code is
      a natural number: codes that are not numbers make the cleaning step
      fail and are outside this model. */
  datatype RawRow = RawRow(sex: int, firstName: string, year: int, department: nat, count: nat)

  /** One row of the cleaned table: the department code is now a string
      and the derived `sexName` column holds the sex label. */
  datatype Row = Row(sex: int, firstName: string, year: int, department: string, count: nat, sexName: Cell)
}
