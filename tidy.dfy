/**
 * The normalised passenger table the aggregator reads, and the long
 * ("tidy") tables it produces.
 */
module Tidy {
  import opened Wrappers

  /**
   * One row of the normalised table: the year (AÑO), month number
   * (NUM_MES) and semester (SEMESTRE) of an observation, and one count per
   * line column; None is a missing count (NaN), as for a line that did not
   * operate yet.
   */
  datatype Record = Record(year: int, month: int, semester: int, counts: seq<Option<int>>)

  /** The line column names (`columns.values[5:18]`) and the rows. */
  datatype Table = Table(lines: seq<string>, rows: seq<Record>)

  /** Every row has a cell for line column li. */
  predicate Covers(rows: seq<Record>, li: nat) {
    forall i :: 0 <= i < |rows| ==> li < |rows[i].counts|
  }

  /** Every row has one cell per line column. */
  predicate WellFormed(t: Table) {
    forall i :: 0 <= i < |t.rows| ==> |t.rows[i].counts| == |t.lines|
  }

  /** The time bucket of a tidy row: a calendar month, a "<year>-<semester>" label, or a year. */
  datatype Bucket = YearMonth(year: int, month: int) | YearSemester(text: string) | Year(year: int)

  /** One row of a tidy table: bucket, Passengers, Line. */
  datatype TidyRow = TidyRow(bucket: Bucket, passengers: int, line: string)

  /** The errors the aggregator raises. */
  datatype AggError =
    | MonthOutOfRange(year: int, month: int)          // "<year>-<month>" does not match %Y-%m
    | EmptyColumnAssignment(column: string)           // the empty-frame `apply` result assigned to one column
    | NoSuchColumns                                   // columns selected from a frame that has none

  /** What pandas' `sum` adds for one cell: a missing count adds nothing. */
  function CountOr0(c: Option<int>): int {
    match c
    case Some(n) => n
    case None => 0
  }

  /** The sum of the present counts of line column li. */
  function LineTotal(rows: seq<Record>, li: nat): int
    requires Covers(rows, li)
  {
    if rows == [] then 0
    else LineTotal(rows[..|rows| - 1], li) + CountOr0(rows[|rows| - 1].counts[li])
  }

  /** The sum of the present counts of the first k line columns. */
  function TotalUpTo(t: Table, k: nat): int
    requires WellFormed(t) && k <= |t.lines|
  {
    if k == 0 then 0 else TotalUpTo(t, k - 1) + LineTotal(t.rows, k - 1)
  }

  /** All passengers of the wide table: every present count of every line column. */
  function TableTotal(t: Table): int
    requires WellFormed(t)
  {
    TotalUpTo(t, |t.lines|)
  }

  /** The Passengers column of a tidy table, summed. */
  function Passengers(rows: seq<TidyRow>): int {
    if rows == [] then 0 else Passengers(rows[..|rows| - 1]) + rows[|rows| - 1].passengers
  }

  lemma {:induction false} PassengersAppend(a: seq<TidyRow>, b: seq<TidyRow>)
    ensures Passengers(a + b) == Passengers(a) + Passengers(b)
    decreases |b|
  {
    if b == [] {
      assert a + b == a;
    } else {
      assert (a + b)[..|a + b| - 1] == a + b[..|b| - 1];
      PassengersAppend(a, b[..|b| - 1]);
    }
  }
}
