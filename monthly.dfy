/**
 * `EDA.transform_df_month`: one block per line column, in column order;
 * each block holds the rows whose count for that line is present, in
 * source order, keyed by (year, month).
 */
module MonthlyView {
  import opened Wrappers
  import opened Tidy

  /**
   * The calendar month `pd.to_datetime(str(year) + "-" + str(month),
   * format="%Y-%m")` reads; a month outside 1..12 does not match %m.
   */
  function MonthKey(year: int, month: int): (r: Result<Bucket, AggError>)
    ensures r.Success? <==> 1 <= month <= 12
    ensures r.Success? ==> r.value.YearMonth? && r.value.year == year && r.value.month == month
  {
    if 1 <= month <= 12 then Success(YearMonth(year, month)) else Failure(MonthOutOfRange(year, month))
  }

  /**
   * The position of a calendar month on the time line, counted in months:
   * it stands for the datetime the parse produces, which the model keeps
   * as a (year, month) pair.
   */
  function MonthOrdinal(b: Bucket): int
    requires b.YearMonth?
  {
    12 * b.year + (b.month - 1)
  }

  /**
   * Month keys compare as dates: by year, then by month, so 2019-9 comes
   * before 2019-10; distinct (year, month) pairs are distinct dates.
   */
  lemma MonthKeysOrderAsDates(y1: int, m1: int, y2: int, m2: int)
    requires 1 <= m1 <= 12 && 1 <= m2 <= 12
    ensures MonthOrdinal(MonthKey(y1, m1).value) < MonthOrdinal(MonthKey(y2, m2).value)
        <==> y1 < y2 || (y1 == y2 && m1 < m2)
    ensures MonthOrdinal(MonthKey(y1, m1).value) == MonthOrdinal(MonthKey(y2, m2).value)
        <==> y1 == y2 && m1 == m2
  {
  }

  /**
   * The block of one line over the rows: `dropna` keeps the rows whose
   * count is present, each becomes (month key, count, line); the first
   * kept row whose month is out of range makes the date parse fail.
   */
  function MonthBlock(rows: seq<Record>, li: nat, line: string): Result<seq<TidyRow>, AggError>
    requires Covers(rows, li)
  {
    if rows == [] then Success([])
    else
      var prev := MonthBlock(rows[..|rows| - 1], li, line);
      var r := rows[|rows| - 1];
      if prev.Failure? || r.counts[li].None? then prev
      else match MonthKey(r.year, r.month)
        case Failure(e) => Failure(e)
        case Success(b) => Success(prev.value + [TidyRow(b, r.counts[li].value, line)])
  }

  /** The blocks of the first k line columns, concatenated. */
  function MonthlyUpTo(t: Table, k: nat): Result<seq<TidyRow>, AggError>
    requires WellFormed(t) && k <= |t.lines|
  {
    if k == 0 then Success([])
    else
      var prev := MonthlyUpTo(t, k - 1);
      if prev.Failure? then prev
      else match MonthBlock(t.rows, k - 1, t.lines[k - 1])
        case Failure(e) => Failure(e)
        case Success(block) => Success(prev.value + block)
  }

  /** The monthly table. */
  function MonthlyTable(t: Table): Result<seq<TidyRow>, AggError>
    requires WellFormed(t)
  {
    MonthlyUpTo(t, |t.lines|)
  }

  lemma {:induction false} MonthBlockFailureSticks(rows: seq<Record>, n: nat, li: nat, line: string)
    requires Covers(rows, li) && n <= |rows|
    requires MonthBlock(rows[..n], li, line).Failure?
    ensures MonthBlock(rows, li, line) == MonthBlock(rows[..n], li, line)
    decreases |rows|
  {
    if n < |rows| {
      var init := rows[..|rows| - 1];
      assert init[..n] == rows[..n];
      MonthBlockFailureSticks(init, n, li, line);
    } else {
      assert rows[..n] == rows;
    }
  }

  lemma {:induction false} MonthlyFailureSticks(t: Table, k: nat, n: nat)
    requires WellFormed(t) && k <= n <= |t.lines|
    requires MonthlyUpTo(t, k).Failure?
    ensures MonthlyUpTo(t, n) == MonthlyUpTo(t, k)
    decreases n
  {
    if k < n {
      MonthlyFailureSticks(t, k, n - 1);
    }
  }

  /** The body of the loop over lines (lines 73-85): one line's block, or the error of its first bad month. */
  method BuildBlock(rows: seq<Record>, li: nat, line: string) returns (r: Result<seq<TidyRow>, AggError>)
    requires Covers(rows, li)
    ensures r == MonthBlock(rows, li, line)
  {
    var block: seq<TidyRow> := [];
    for i := 0 to |rows|
      invariant MonthBlock(rows[..i], li, line) == Success(block)
    {
      var rec := rows[i];
      assert rows[..i + 1][..i] == rows[..i];
      if rec.counts[li].Some? {
        if !(1 <= rec.month <= 12) {
          MonthBlockFailureSticks(rows, i + 1, li, line);
          return Failure(MonthOutOfRange(rec.year, rec.month));
        }
        block := block + [TidyRow(YearMonth(rec.year, rec.month), rec.counts[li].value, line)];
      }
    }
    assert rows[..|rows|] == rows;
    r := Success(block);
  }

  /** `transform_df_month`: the block of each line column, stacked in column order. */
  method TransformMonthly(t: Table) returns (r: Result<seq<TidyRow>, AggError>)
    requires WellFormed(t)
    ensures r == MonthlyTable(t)
  {
    var acc: seq<TidyRow> := [];
    for k := 0 to |t.lines|
      invariant MonthlyUpTo(t, k) == Success(acc)
    {
      var block := BuildBlock(t.rows, k, t.lines[k]);
      if block.Failure? {
        MonthlyFailureSticks(t, k + 1, |t.lines|);
        return Failure(block.error);
      }
      acc := acc + block.value;
    }
    r := Success(acc);
  }

  /** The number of rows whose count of line column li is present. */
  function PresentCount(rows: seq<Record>, li: nat): nat
    requires Covers(rows, li)
  {
    if rows == [] then 0
    else PresentCount(rows[..|rows| - 1], li) + (if rows[|rows| - 1].counts[li].Some? then 1 else 0)
  }

  /** The number of present counts in the first k line columns. */
  function PresentUpTo(t: Table, k: nat): nat
    requires WellFormed(t) && k <= |t.lines|
  {
    if k == 0 then 0 else PresentUpTo(t, k - 1) + PresentCount(t.rows, k - 1)
  }

  /** A row whose month the date parse rejects, and that `dropna` keeps for line column li. */
  predicate BadKeptRow(r: Record, li: nat)
    requires li < |r.counts|
  {
    r.counts[li].Some? && !(1 <= r.month <= 12)
  }

  /** A block fails exactly when a kept row has a month outside 1..12. */
  lemma {:induction false} MonthBlockFails(rows: seq<Record>, li: nat, line: string)
    requires Covers(rows, li)
    ensures MonthBlock(rows, li, line).Failure? <==> exists i :: 0 <= i < |rows| && BadKeptRow(rows[i], li)
  {
    if rows != [] {
      var init := rows[..|rows| - 1];
      assert forall i :: 0 <= i < |init| ==> init[i] == rows[i];
      MonthBlockFails(init, li, line);
    }
  }

  /** A block that succeeds has one row per present count, and they add up to the line's total. */
  lemma {:induction false} MonthBlockConserves(rows: seq<Record>, li: nat, line: string)
    requires Covers(rows, li)
    requires MonthBlock(rows, li, line).Success?
    ensures |MonthBlock(rows, li, line).value| == PresentCount(rows, li)
    ensures Passengers(MonthBlock(rows, li, line).value) == LineTotal(rows, li)
  {
    if rows != [] {
      var init, r := rows[..|rows| - 1], rows[|rows| - 1];
      var prev := MonthBlock(init, li, line);
      assert prev.Success?;
      MonthBlockConserves(init, li, line);
      if r.counts[li].Some? {
        var row := TidyRow(YearMonth(r.year, r.month), r.counts[li].value, line);
        PassengersAppend(prev.value, [row]);
        assert [row][..0] == [];
      }
    }
  }

  /** A kept row of the source, for line column li, as a tidy row: its month, its count unchanged, the line label. */
  predicate FromRow(row: TidyRow, r: Record, li: nat, line: string)
    requires li < |r.counts|
  {
    && row.line == line
    && row.bucket == YearMonth(r.year, r.month) && 1 <= r.month <= 12
    && r.counts[li] == Some(row.passengers)
  }

  /** Every row of a block is a kept source row of that line. */
  lemma {:induction false} MonthBlockRows(rows: seq<Record>, li: nat, line: string)
    requires Covers(rows, li)
    requires MonthBlock(rows, li, line).Success?
    ensures forall j :: 0 <= j < |MonthBlock(rows, li, line).value| ==>
      exists i :: 0 <= i < |rows| && FromRow(MonthBlock(rows, li, line).value[j], rows[i], li, line)
  {
    if rows != [] {
      var init, r := rows[..|rows| - 1], rows[|rows| - 1];
      var prev := MonthBlock(init, li, line);
      assert prev.Success?;
      MonthBlockRows(init, li, line);
      var block := MonthBlock(rows, li, line).value;
      forall j | 0 <= j < |block|
        ensures exists i :: 0 <= i < |rows| && FromRow(block[j], rows[i], li, line)
      {
        if j < |prev.value| {
          assert block[j] == prev.value[j];
          var i :| 0 <= i < |init| && FromRow(prev.value[j], init[i], li, line);
          assert rows[i] == init[i];
        } else {
          assert FromRow(block[j], rows[|rows| - 1], li, line);
        }
      }
    }
  }

  /** The positions, in source order, of the rows that `dropna` keeps for line column li. */
  function Kept(rows: seq<Record>, li: nat): (ks: seq<nat>)
    requires Covers(rows, li)
    ensures |ks| == PresentCount(rows, li)
    ensures forall j :: 0 <= j < |ks| ==> ks[j] < |rows| && rows[ks[j]].counts[li].Some?
    ensures forall j, j' :: 0 <= j < j' < |ks| ==> ks[j] < ks[j']
    ensures forall i :: 0 <= i < |rows| && rows[i].counts[li].Some? ==> i in ks
  {
    if rows == [] then []
    else Kept(rows[..|rows| - 1], li) + (if rows[|rows| - 1].counts[li].Some? then [|rows| - 1] else [])
  }

  /**
   * A block that succeeds is exactly the kept rows of its line, each once,
   * in source order: its j-th row is the j-th kept source row.
   */
  lemma {:induction false} MonthBlockIsKeptRows(rows: seq<Record>, li: nat, line: string)
    requires Covers(rows, li)
    requires MonthBlock(rows, li, line).Success?
    ensures |MonthBlock(rows, li, line).value| == |Kept(rows, li)|
    ensures forall j :: 0 <= j < |Kept(rows, li)| ==>
      FromRow(MonthBlock(rows, li, line).value[j], rows[Kept(rows, li)[j]], li, line)
  {
    if rows != [] {
      var init, r := rows[..|rows| - 1], rows[|rows| - 1];
      var prev := MonthBlock(init, li, line);
      assert prev.Success?;
      MonthBlockIsKeptRows(init, li, line);
      var block, ks := MonthBlock(rows, li, line).value, Kept(rows, li);
      forall j | 0 <= j < |ks|
        ensures FromRow(block[j], rows[ks[j]], li, line)
      {
        if j < |Kept(init, li)| {
          assert block[j] == prev.value[j];
          assert ks[j] == Kept(init, li)[j];
          assert rows[ks[j]] == init[ks[j]];
        }
      }
    }
  }

  /** The blocks of the first k lines hold one row per present count of those lines. */
  lemma {:induction false} MonthlyUpToLength(t: Table, k: nat)
    requires WellFormed(t) && k <= |t.lines|
    requires MonthlyUpTo(t, k).Success?
    ensures |MonthlyUpTo(t, k).value| == PresentUpTo(t, k)
  {
    if k > 0 {
      assert MonthlyUpTo(t, k - 1).Success?;
      MonthlyUpToLength(t, k - 1);
      assert MonthBlock(t.rows, k - 1, t.lines[k - 1]).Success?;
      MonthBlockConserves(t.rows, k - 1, t.lines[k - 1]);
    }
  }

  /**
   * Line-major order: in the blocks of the first k lines, line li's block
   * sits right after the present counts of the lines before it, unchanged.
   */
  lemma {:induction false} MonthlyUpToBlockAt(t: Table, k: nat, li: nat)
    requires WellFormed(t) && li < k <= |t.lines|
    requires MonthlyUpTo(t, k).Success?
    ensures MonthBlock(t.rows, li, t.lines[li]).Success?
    ensures PresentUpTo(t, li + 1) <= PresentUpTo(t, k) == |MonthlyUpTo(t, k).value|
    ensures MonthlyUpTo(t, k).value[PresentUpTo(t, li)..PresentUpTo(t, li + 1)]
         == MonthBlock(t.rows, li, t.lines[li]).value
  {
    var prev := MonthlyUpTo(t, k - 1);
    assert prev.Success?;
    MonthlyUpToLength(t, k);
    MonthlyUpToLength(t, k - 1);
    var block := MonthBlock(t.rows, k - 1, t.lines[k - 1]);
    assert block.Success?;
    var all := MonthlyUpTo(t, k).value;
    assert all == prev.value + block.value;
    if li < k - 1 {
      MonthlyUpToBlockAt(t, k - 1, li);
      assert all[PresentUpTo(t, li)..PresentUpTo(t, li + 1)] == prev.value[PresentUpTo(t, li)..PresentUpTo(t, li + 1)];
    } else {
      assert all[|prev.value|..] == block.value;
    }
  }

  /** Line li's block lies within the monthly table. */
  lemma MonthlyBlockBound(t: Table, li: nat)
    requires WellFormed(t) && li < |t.lines|
    requires MonthlyTable(t).Success?
    ensures PresentUpTo(t, li) + PresentCount(t.rows, li) <= |MonthlyTable(t).value|
  {
    MonthlyUpToBlockAt(t, |t.lines|, li);
  }

  /**
   * The monthly table, row by row: line li's block starts at the number of
   * present counts of the lines before it, and its j-th row is the j-th
   * row that `dropna` keeps for line li, in source order.
   */
  lemma MonthlyRowOf(t: Table, li: nat, j: nat)
    requires WellFormed(t) && li < |t.lines| && j < PresentCount(t.rows, li)
    requires MonthlyTable(t).Success?
    ensures PresentUpTo(t, li) + j < |MonthlyTable(t).value|
    ensures FromRow(MonthlyTable(t).value[PresentUpTo(t, li) + j], t.rows[Kept(t.rows, li)[j]], li, t.lines[li])
  {
    var all := MonthlyTable(t).value;
    MonthlyUpToBlockAt(t, |t.lines|, li);
    MonthBlockIsKeptRows(t.rows, li, t.lines[li]);
    assert all[PresentUpTo(t, li) + j] == all[PresentUpTo(t, li)..PresentUpTo(t, li + 1)][j];
  }

  /**
   * The monthly table fails exactly when some row with a present count
   * has a month outside 1..12; otherwise it has one row per present count
   * of the wide table, and its Passengers add up to the wide table's total.
   */
  lemma {:induction false} MonthlyUpToSpec(t: Table, k: nat)
    requires WellFormed(t) && k <= |t.lines|
    ensures MonthlyUpTo(t, k).Failure? <==>
      exists i, li :: 0 <= i < |t.rows| && 0 <= li < k && BadKeptRow(t.rows[i], li)
    ensures MonthlyUpTo(t, k).Success? ==>
      && |MonthlyUpTo(t, k).value| == PresentUpTo(t, k)
      && Passengers(MonthlyUpTo(t, k).value) == TotalUpTo(t, k)
  {
    if k > 0 {
      MonthlyUpToSpec(t, k - 1);
      MonthBlockFails(t.rows, k - 1, t.lines[k - 1]);
      var prev := MonthlyUpTo(t, k - 1);
      var block := MonthBlock(t.rows, k - 1, t.lines[k - 1]);
      if prev.Success? && block.Success? {
        MonthBlockConserves(t.rows, k - 1, t.lines[k - 1]);
        PassengersAppend(prev.value, block.value);
      }
    }
  }

  /** The monthly table, whole: fails iff a kept row has a bad month; otherwise conserves row count and passengers. */
  lemma MonthlySpec(t: Table)
    requires WellFormed(t)
    ensures MonthlyTable(t).Failure? <==>
      exists i, li :: 0 <= i < |t.rows| && 0 <= li < |t.lines| && BadKeptRow(t.rows[i], li)
    ensures MonthlyTable(t).Success? ==>
      && |MonthlyTable(t).value| == PresentUpTo(t, |t.lines|)
      && Passengers(MonthlyTable(t).value) == TableTotal(t)
  {
    MonthlyUpToSpec(t, |t.lines|);
  }

  /**
   * The `sort_values` result is thrown away: rows stay in source order
   * within a block, so a file listing October before September keeps that
   * order.
   */
  lemma MonthlyKeepsSourceOrder()
    ensures MonthlyTable(Table(["LineA"], [Record(2019, 10, 2, [Some(7)]), Record(2019, 9, 2, [Some(5)])]))
         == Success([TidyRow(YearMonth(2019, 10), 7, "LineA"), TidyRow(YearMonth(2019, 9), 5, "LineA")])
  {
    var rows := [Record(2019, 10, 2, [Some(7)]), Record(2019, 9, 2, [Some(5)])];
    var t := Table(["LineA"], rows);
    var oct, sep := TidyRow(YearMonth(2019, 10), 7, "LineA"), TidyRow(YearMonth(2019, 9), 5, "LineA");
    var r1 := rows[..1];
    assert r1[..0] == [] && r1[0] == rows[0];
    assert MonthBlock(r1, 0, "LineA") == Success([] + [oct]);
    assert [] + [oct] == [oct];
    assert rows[..|rows| - 1] == r1;
    assert MonthBlock(rows, 0, "LineA") == Success([oct] + [sep]);
    assert [oct] + [sep] == [oct, sep];
    assert MonthlyUpTo(t, 1) == Success([] + [oct, sep]);
    assert [] + [oct, sep] == [oct, sep];
  }

  /** A month outside 1..12 on a row whose count is missing is dropped before the date parse and raises nothing. */
  lemma MissingCountSkipsMonthCheck()
    ensures MonthlyTable(Table(["LineA"], [Record(2019, 13, 2, [None]), Record(2019, 9, 2, [Some(5)])]))
         == Success([TidyRow(YearMonth(2019, 9), 5, "LineA")])
  {
    var rows := [Record(2019, 13, 2, [None]), Record(2019, 9, 2, [Some(5)])];
    var t := Table(["LineA"], rows);
    var sep := TidyRow(YearMonth(2019, 9), 5, "LineA");
    var r1 := rows[..1];
    assert r1[..0] == [] && r1[0] == rows[0];
    assert MonthBlock(r1, 0, "LineA") == Success([]);
    assert rows[..|rows| - 1] == r1;
    assert MonthBlock(rows, 0, "LineA") == Success([] + [sep]);
    assert [] + [sep] == [sep];
    assert MonthlyUpTo(t, 1) == Success([] + [sep]);
  }

  // ---- the monthly table as the source computes it ----

  /**
   * As written, a line whose block is empty makes the column assignment at
   * lines 75-77 raise: `apply(axis=1)` on an empty frame returns a copy of
   * that frame, and a three-column frame cannot be assigned to the single
   * column "YearMonth".
   */
  function MonthlyAsWrittenUpTo(t: Table, k: nat): Result<seq<TidyRow>, AggError>
    requires WellFormed(t) && k <= |t.lines|
  {
    if k == 0 then Success([])
    else
      var prev := MonthlyAsWrittenUpTo(t, k - 1);
      if prev.Failure? then prev
      else if PresentCount(t.rows, k - 1) == 0 then Failure(EmptyColumnAssignment("YearMonth"))
      else match MonthBlock(t.rows, k - 1, t.lines[k - 1])
        case Failure(e) => Failure(e)
        case Success(block) => Success(prev.value + block)
  }

  /**
   * With no line column at all, the final column selection at line 90 on
   * the empty frame raises as well.
   */
  function MonthlyAsWritten(t: Table): Result<seq<TidyRow>, AggError>
    requires WellFormed(t)
  {
    if |t.lines| == 0 then Failure(NoSuchColumns) else MonthlyAsWrittenUpTo(t, |t.lines|)
  }

  lemma {:induction false} MonthlyAsWrittenUpToAgrees(t: Table, k: nat)
    requires WellFormed(t) && k <= |t.lines|
    requires forall li :: 0 <= li < k ==> PresentCount(t.rows, li) > 0
    ensures MonthlyAsWrittenUpTo(t, k) == MonthlyUpTo(t, k)
  {
    if k > 0 {
      MonthlyAsWrittenUpToAgrees(t, k - 1);
    }
  }

  /** When there are line columns and each has a present count, the code as written and the corrected table agree. */
  lemma MonthlyAsWrittenAgrees(t: Table)
    requires WellFormed(t) && |t.lines| > 0
    requires forall li :: 0 <= li < |t.lines| ==> PresentCount(t.rows, li) > 0
    ensures MonthlyAsWritten(t) == MonthlyTable(t)
  {
    MonthlyAsWrittenUpToAgrees(t, |t.lines|);
  }

  /** Where the code as written succeeds on the first k lines, each of them has a present count and it agrees with the corrected table. */
  lemma {:induction false} MonthlyAsWrittenUpToSucceeds(t: Table, k: nat)
    requires WellFormed(t) && k <= |t.lines|
    requires MonthlyAsWrittenUpTo(t, k).Success?
    ensures forall li :: 0 <= li < k ==> PresentCount(t.rows, li) > 0
    ensures MonthlyAsWrittenUpTo(t, k) == MonthlyUpTo(t, k)
  {
    if k > 0 {
      assert MonthlyAsWrittenUpTo(t, k - 1).Success?;
      MonthlyAsWrittenUpToSucceeds(t, k - 1);
    }
  }

  /**
   * The converse of `MonthlyAsWrittenAgrees`: whenever the code as written
   * does not raise, there are line columns, each has a present count, and
   * its table is the corrected one.
   */
  lemma MonthlyAsWrittenSucceeds(t: Table)
    requires WellFormed(t)
    requires MonthlyAsWritten(t).Success?
    ensures |t.lines| > 0 && forall li :: 0 <= li < |t.lines| ==> PresentCount(t.rows, li) > 0
    ensures MonthlyAsWritten(t) == MonthlyTable(t)
  {
    MonthlyAsWrittenUpToSucceeds(t, |t.lines|);
  }

  /** A line with no present count (LineB here) makes the code as written raise; the corrected table drops the line. */
  lemma MonthlyAsWrittenFailsOnEmptyLine()
    ensures MonthlyAsWritten(Table(["LineA", "LineB"], [Record(2019, 1, 1, [Some(5), None])]))
         == Failure(EmptyColumnAssignment("YearMonth"))
    ensures MonthlyTable(Table(["LineA", "LineB"], [Record(2019, 1, 1, [Some(5), None])]))
         == Success([TidyRow(YearMonth(2019, 1), 5, "LineA")])
  {
    var rows := [Record(2019, 1, 1, [Some(5), None])];
    var t := Table(["LineA", "LineB"], rows);
    var jan := TidyRow(YearMonth(2019, 1), 5, "LineA");
    assert rows[..|rows| - 1] == [];
    assert PresentCount(rows, 0) == 1 && PresentCount(rows, 1) == 0;
    assert MonthBlock(rows, 0, "LineA") == Success([] + [jan]);
    assert [] + [jan] == [jan];
    assert MonthBlock(rows, 1, "LineB") == Success([]);
    assert MonthlyAsWrittenUpTo(t, 1) == Success([] + [jan]);
    assert MonthlyUpTo(t, 1) == Success([] + [jan]);
    assert MonthlyUpTo(t, 2) == Success([jan] + []);
    assert [jan] + [] == [jan];
  }

  /** With no line column the code as written raises at the final selection; the corrected table is empty. */
  lemma MonthlyAsWrittenFailsWithoutLines(rows: seq<Record>)
    requires forall i :: 0 <= i < |rows| ==> rows[i].counts == []
    ensures MonthlyAsWritten(Table([], rows)) == Failure(NoSuchColumns)
    ensures MonthlyTable(Table([], rows)) == Success([])
  {
  }
}
