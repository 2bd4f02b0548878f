/**
 * `EDA.__init__`: take the line columns of the loaded table and build its
 * monthly, semestral and yearly tidy views, in that order.
 */
module Eda {
  import opened Wrappers
  import opened Tidy
  import opened Grouping
  import opened MonthlyView
  import opened GroupedViews

  /** The three views the dashboard reads, with the line list they were built over. */
  datatype Views = Views(lines: seq<string>, byMonth: seq<TidyRow>, bySemester: seq<TidyRow>, byYear: seq<TidyRow>)

  /**
   * Build the three views. The monthly view is built first, so a month the
   * date parse rejects stops construction before the other two are built.
   * Every view carries all passengers of the wide table.
   */
  method Build(t: Table) returns (r: Result<Views, AggError>)
    requires WellFormed(t)
    ensures r.Success? <==> MonthlyTable(t).Success?
    ensures r.Failure? ==> r == Failure(MonthlyTable(t).error)
    ensures r.Success? ==> r.value == Views(t.lines, MonthlyTable(t).value, SemestralTable(t), YearlyTable(t))
    ensures r.Success? ==>
      && Passengers(r.value.byMonth) == TableTotal(t)
      && Passengers(r.value.bySemester) == TableTotal(t)
      && Passengers(r.value.byYear) == TableTotal(t)
    ensures MonthlyAsWritten(t).Success? ==> r.Success? && r.value.byMonth == MonthlyAsWritten(t).value
    ensures r.Success? ==>
      && |r.value.byMonth| == PresentUpTo(t, |t.lines|)
      && |r.value.bySemester| == |t.lines| * |GroupKeys(t.rows, ByYearSemester)|
      && |r.value.byYear| == |t.lines| * |GroupKeys(t.rows, ByYear)|
  {
    var monthly := TransformMonthly(t);
    if monthly.Failure? {
      if MonthlyAsWritten(t).Success? {
        MonthlyAsWrittenSucceeds(t);
      }
      return Failure(monthly.error);
    }
    var semestral := TransformSemestral(t);
    var yearly := TransformYearly(t);
    MonthlySpec(t);
    if MonthlyAsWritten(t).Success? {
      MonthlyAsWrittenSucceeds(t);
    }
    GroupedConserves(t, ByYearSemester);
    GroupedConserves(t, ByYear);
    StackedLength(GroupedFrame(t, ByYearSemester), t.lines, |t.lines|);
    StackedLength(GroupedFrame(t, ByYear), t.lines, |t.lines|);
    r := Success(Views(t.lines, monthly.value, semestral, yearly));
  }
}
