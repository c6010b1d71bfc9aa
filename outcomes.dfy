/** The three ways a scraping routine of stock.py can end: it returns a table,
    it prints a notice and returns nothing, or it raises. */
module Outcomes {

  datatype Option<+T> = None | Some(value: T)

  /** Why a routine printed a message and returned `None` instead of a table. */
  datatype Notice =
    | BadStatus(code: int)   // the response status was not 200
    | NoMatch                // the dividend payload pattern was not found

  /** What a routine raised instead of returning. */
  datatype Error =
    | JsonDecodeError                                    // the repaired payload is not a list of rows
    | ColumnCountMismatch(columns: nat, had: nat)         // `columns` names given, the widest row had `had` cells
    | DateFormatError(column: string, row: nat)          // a strict date column did not match its format
    | NoTable                                            // the IPO page holds no <table>
    | NoBody                                             // the IPO table holds no <tbody>

  datatype Outcome<+T> =
    | Table(rows: seq<T>)
    | Nothing(notice: Notice)
    | Raised(error: Error)
}
