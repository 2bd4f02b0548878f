/**
 * `EDA.transform_df_sem` and `EDA.transform_df_yr`: group the wide table
 * by (year, semester) or by year, sum each line column, then stack one
 * block per line column, each block holding every group in key order.
 */
module GroupedViews {
  import opened Wrappers
  import opened Decimal
  import opened Tidy
  import opened Grouping

  /** The semester key `str(int(AÑO)) + "-" + str(int(SEMESTRE))`. */
  function SemesterLabel(year: int, semester: int): string {
    IntText(year) + "-" + IntText(semester)
  }

  /** The separator is the first '-' after position 0 of the label: the year's text holds none there. */
  lemma SeparatorPosition(year: int, semester: int)
    ensures |IntText(year)| < |SemesterLabel(year, semester)|
    ensures SemesterLabel(year, semester)[|IntText(year)|] == '-'
    ensures forall i :: 0 < i < |IntText(year)| ==> SemesterLabel(year, semester)[i] != '-'
  {
  }

  /** Distinct (year, semester) groups get distinct labels, so the label alone identifies the group. */
  lemma SemesterLabelInjective(y1: int, s1: int, y2: int, s2: int)
    requires SemesterLabel(y1, s1) == SemesterLabel(y2, s2)
    ensures y1 == y2 && s1 == s2
  {
    var a, b := IntText(y1), IntText(y2);
    var l := SemesterLabel(y1, s1);
    SeparatorPosition(y1, s1);
    SeparatorPosition(y2, s2);
    assert |a| == |b|;
    assert a == l[..|a|] == b;
    IntTextInjective(y1, y2);
    assert IntText(s1) == l[|a| + 1..] == IntText(s2);
    IntTextInjective(s1, s2);
  }

  /** The bucket of a group: its semester label, or its year. */
  function BucketOf(cols: By, key: seq<int>): Bucket
    requires |key| == KeyWidth(cols)
  {
    match cols
    case ByYearSemester => YearSemester(SemesterLabel(key[0], key[1]))
    case ByYear => Year(key[0])
  }

  /**
   * A row of the grouped frame once lines 100-103 (or the rename at line
   * 121) have replaced its key columns by the bucket column: the bucket and
   * one sum per line column.
   */
  datatype Bucketed = Bucketed(bucket: Bucket, sums: seq<int>)

  /** Every row of a bucketed frame has one sum per line column. */
  predicate SumsFit(fs: seq<Bucketed>, width: nat) {
    forall g :: 0 <= g < |fs| ==> |fs[g].sums| == width
  }

  /** Label each group with its bucket and drop the key columns. */
  function WithBuckets(gs: seq<Group>, cols: By): (fs: seq<Bucketed>)
    requires forall g :: 0 <= g < |gs| ==> |gs[g].key| == KeyWidth(cols)
    ensures |fs| == |gs|
  {
    seq(|gs|, g requires 0 <= g < |gs| => Bucketed(BucketOf(cols, gs[g].key), gs[g].sums))
  }

  /** The grouped frame the stacking loop reads: one bucketed row per group, in ascending key order. */
  function GroupedFrame(t: Table, cols: By): (fs: seq<Bucketed>)
    requires WellFormed(t)
    ensures |fs| == |GroupKeys(t.rows, cols)|
    ensures SumsFit(fs, |t.lines|)
  {
    WithBuckets(GroupBySum(t, cols), cols)
  }

  /** The block of one line column: (bucket, that line's sum, line) for every group, in group order. */
  function LineRows(fs: seq<Bucketed>, li: nat, line: string): (r: seq<TidyRow>)
    requires forall g :: 0 <= g < |fs| ==> li < |fs[g].sums|
    ensures |r| == |fs|
  {
    seq(|fs|, g requires 0 <= g < |fs| => TidyRow(fs[g].bucket, fs[g].sums[li], line))
  }

  /** The blocks of the first k line columns, concatenated. */
  function StackedUpTo(fs: seq<Bucketed>, lines: seq<string>, k: nat): seq<TidyRow>
    requires SumsFit(fs, |lines|) && k <= |lines|
  {
    if k == 0 then [] else StackedUpTo(fs, lines, k - 1) + LineRows(fs, k - 1, lines[k - 1])
  }

  /** The first k blocks hold k rows per group. */
  lemma {:induction false} StackedLength(fs: seq<Bucketed>, lines: seq<string>, k: nat)
    requires SumsFit(fs, |lines|) && k <= |lines|
    ensures |StackedUpTo(fs, lines, k)| == k * |fs|
  {
    if k > 0 {
      StackedLength(fs, lines, k - 1);
      assert k * |fs| == (k - 1) * |fs| + |fs|;
    }
  }

  /** The tidy table for the grouping columns. */
  function GroupedTable(t: Table, cols: By): seq<TidyRow>
    requires WellFormed(t)
  {
    StackedUpTo(GroupedFrame(t, cols), t.lines, |t.lines|)
  }

  function SemestralTable(t: Table): seq<TidyRow>
    requires WellFormed(t)
  {
    GroupedTable(t, ByYearSemester)
  }

  function YearlyTable(t: Table): seq<TidyRow>
    requires WellFormed(t)
  {
    GroupedTable(t, ByYear)
  }

  /** The `for line in lines` loop of lines 106-110 and 124-128: stack each line's column of the grouped frame. */
  method Unpivot(fs: seq<Bucketed>, lines: seq<string>) returns (r: seq<TidyRow>)
    requires SumsFit(fs, |lines|)
    ensures r == StackedUpTo(fs, lines, |lines|)
  {
    r := [];
    for k := 0 to |lines|
      invariant r == StackedUpTo(fs, lines, k)
    {
      var block: seq<TidyRow> := [];
      for g := 0 to |fs|
        invariant block == LineRows(fs[..g], k, lines[k])
      {
        block := block + [TidyRow(fs[g].bucket, fs[g].sums[k], lines[k])];
      }
      assert fs[..|fs|] == fs;
      r := r + block;
    }
  }

  /** `transform_df_sem`: group and sum (line 98), label (lines 100-103), stack (lines 106-110). */
  method TransformSemestral(t: Table) returns (r: seq<TidyRow>)
    requires WellFormed(t)
    ensures r == SemestralTable(t)
  {
    var gs := GroupBySum(t, ByYearSemester);
    r := Unpivot(WithBuckets(gs, ByYearSemester), t.lines);
  }

  /** `transform_df_yr`: group and sum (line 119), rename the key to Year (line 121), stack (lines 124-128). */
  method TransformYearly(t: Table) returns (r: seq<TidyRow>)
    requires WellFormed(t)
    ensures r == YearlyTable(t)
  {
    var gs := GroupBySum(t, ByYear);
    r := Unpivot(WithBuckets(gs, ByYear), t.lines);
  }

  lemma {:induction false} StackedAt(fs: seq<Bucketed>, lines: seq<string>, k: nat, li: nat, g: nat)
    requires SumsFit(fs, |lines|) && k <= |lines|
    requires li < k && g < |fs|
    ensures li * |fs| + g < |StackedUpTo(fs, lines, k)|
    ensures StackedUpTo(fs, lines, k)[li * |fs| + g] == TidyRow(fs[g].bucket, fs[g].sums[li], lines[li])
  {
    var n := |fs|;
    var prev := StackedUpTo(fs, lines, k - 1);
    var block := LineRows(fs, k - 1, lines[k - 1]);
    assert StackedUpTo(fs, lines, k) == prev + block;
    StackedLength(fs, lines, k - 1);
    if li < k - 1 {
      StackedAt(fs, lines, k - 1, li, g);
    } else {
      assert li * n == |prev|;
    }
  }

  /**
   * The table holds one row per (line column, group): the row of line li
   * and the g-th group in ascending key order sits at li * G + g, carries
   * that group's bucket, the sum of line li over the group, and the line's
   * name.
   */
  lemma GroupedRowAt(t: Table, cols: By, li: nat, g: nat)
    requires WellFormed(t)
    requires li < |t.lines| && g < |GroupKeys(t.rows, cols)|
    ensures |GroupedTable(t, cols)| == |t.lines| * |GroupKeys(t.rows, cols)|
    ensures li * |GroupKeys(t.rows, cols)| + g < |GroupedTable(t, cols)|
    ensures var ks := GroupKeys(t.rows, cols);
      && |ks[g]| == KeyWidth(cols)
      && GroupedTable(t, cols)[li * |ks| + g]
         == TidyRow(BucketOf(cols, ks[g]), GroupSum(t.rows, cols, ks[g], li), t.lines[li])
  {
    var gs := GroupBySum(t, cols);
    var fs := GroupedFrame(t, cols);
    var ks := GroupKeys(t.rows, cols);
    StackedLength(fs, t.lines, |t.lines|);
    StackedAt(fs, t.lines, |t.lines|, li, g);
    assert fs[g] == Bucketed(BucketOf(cols, gs[g].key), gs[g].sums);
    assert gs[g].key == ks[g] && gs[g].sums[li] == GroupSum(t.rows, cols, ks[g], li);
  }

  lemma {:induction false} LineRowsPassengers(fs: seq<Bucketed>, ks: seq<seq<int>>, rows: seq<Record>, cols: By, li: nat, line: string)
    requires Covers(rows, li) && |fs| == |ks|
    requires forall g :: 0 <= g < |fs| ==> li < |fs[g].sums| && fs[g].sums[li] == GroupSum(rows, cols, ks[g], li)
    ensures Passengers(LineRows(fs, li, line)) == SumOverKeys(rows, cols, ks, li, None)
  {
    if fs != [] {
      var head := TidyRow(fs[0].bucket, fs[0].sums[li], line);
      assert LineRows(fs, li, line) == [head] + LineRows(fs[1..], li, line);
      PassengersAppend([head], LineRows(fs[1..], li, line));
      assert [head][..0] == [];
      LineRowsPassengers(fs[1..], ks[1..], rows, cols, li, line);
    }
  }

  /** One line's block carries exactly that line's passengers. */
  lemma BlockPassengers(t: Table, cols: By, li: nat)
    requires WellFormed(t) && li < |t.lines|
    ensures Passengers(LineRows(GroupedFrame(t, cols), li, t.lines[li])) == LineTotal(t.rows, li)
  {
    var gs := GroupBySum(t, cols);
    var fs := GroupedFrame(t, cols);
    var ks := GroupKeys(t.rows, cols);
    forall g | 0 <= g < |fs|
      ensures fs[g].sums[li] == GroupSum(t.rows, cols, ks[g], li)
    {
      assert fs[g].sums == gs[g].sums && gs[g].key == ks[g];
    }
    LineRowsPassengers(fs, ks, t.rows, cols, li, t.lines[li]);
    GroupSumsConserve(t.rows, cols, li);
  }

  /** Stacked blocks that each carry their line's total carry the total of those lines. */
  lemma {:induction false} StackedPassengers(fs: seq<Bucketed>, t: Table, k: nat)
    requires WellFormed(t) && SumsFit(fs, |t.lines|) && k <= |t.lines|
    requires forall li :: 0 <= li < |t.lines| ==> Passengers(LineRows(fs, li, t.lines[li])) == LineTotal(t.rows, li)
    ensures Passengers(StackedUpTo(fs, t.lines, k)) == TotalUpTo(t, k)
  {
    if k > 0 {
      var prev := StackedUpTo(fs, t.lines, k - 1);
      var block := LineRows(fs, k - 1, t.lines[k - 1]);
      assert StackedUpTo(fs, t.lines, k) == prev + block;
      StackedPassengers(fs, t, k - 1);
      PassengersAppend(prev, block);
    }
  }

  /** The semestral and yearly tables carry every passenger of the wide table, no more and no fewer. */
  lemma GroupedConserves(t: Table, cols: By)
    requires WellFormed(t)
    ensures Passengers(GroupedTable(t, cols)) == TableTotal(t)
  {
    forall li | 0 <= li < |t.lines|
      ensures Passengers(LineRows(GroupedFrame(t, cols), li, t.lines[li])) == LineTotal(t.rows, li)
    {
      BlockPassengers(t, cols, li);
    }
    StackedPassengers(GroupedFrame(t, cols), t, |t.lines|);
  }

  /** Two months of 2019 on one line: 100 passengers in January (semester 1), 150 in July (semester 2). */
  function TwoMonths(): Table {
    Table(["LineA"], [Record(2019, 1, 1, [Some(100)]), Record(2019, 7, 2, [Some(150)])])
  }

  lemma TwoMonthsKeys()
    ensures GroupKeys(TwoMonths().rows, ByYearSemester) == [[2019, 1], [2019, 2]]
    ensures GroupKeys(TwoMonths().rows, ByYear) == [[2019]]
  {
    var rows := TwoMonths().rows;
    assert rows[..1] == [rows[0]];
    assert [rows[0]][..0] == [];
    assert GroupKeys([rows[0]], ByYearSemester) == [[2019, 1]];
    assert KeyOf(rows[1], ByYearSemester) == [2019, 2];
    assert [2019, 2] != [2019, 1] && !TupleLess([2019, 2], [2019, 1]);
    assert [[2019, 1]][1..] == [];
    assert Insert([[2019, 1]], [2019, 2]) == [[2019, 1]] + Insert([], [2019, 2]);
    assert GroupKeys([rows[0]], ByYear) == [[2019]];
  }

  lemma TwoMonthsSums()
    ensures GroupSum(TwoMonths().rows, ByYearSemester, [2019, 1], 0) == 100
    ensures GroupSum(TwoMonths().rows, ByYearSemester, [2019, 2], 0) == 150
    ensures GroupSum(TwoMonths().rows, ByYear, [2019], 0) == 250
  {
    var rows := TwoMonths().rows;
    assert rows[..1] == [rows[0]];
    assert [rows[0]][..0] == [];
    assert GroupSum([rows[0]], ByYearSemester, [2019, 1], 0) == 100;
    assert GroupSum([rows[0]], ByYearSemester, [2019, 2], 0) == 0;
    assert GroupSum([rows[0]], ByYear, [2019], 0) == 100;
  }

  lemma TwoMonthsSemesterGroups()
    ensures GroupBySum(TwoMonths(), ByYearSemester) == [Group([2019, 1], [100]), Group([2019, 2], [150])]
  {
    TwoMonthsKeys();
    TwoMonthsSums();
    var sem := GroupBySum(TwoMonths(), ByYearSemester);
    assert |sem| == 2 && |sem[0].sums| == 1 && |sem[1].sums| == 1;
    assert sem[0].sums[0] == 100 && sem[1].sums[0] == 150;
    assert sem[0].sums == [100] && sem[1].sums == [150];
  }

  lemma TwoMonthsYearGroups()
    ensures GroupBySum(TwoMonths(), ByYear) == [Group([2019], [250])]
  {
    TwoMonthsKeys();
    TwoMonthsSums();
    var yr := GroupBySum(TwoMonths(), ByYear);
    assert |yr| == 1 && |yr[0].sums| == 1 && yr[0].sums[0] == 250;
    assert yr[0].sums == [250];
  }

  /**
   * Months of one year in different semesters: each semester keeps its
   * own partial sum, 100 and 150, not 250 in either.
   */
  lemma TwoSemestersExample()
    ensures SemestralTable(TwoMonths()) == [TidyRow(YearSemester(SemesterLabel(2019, 1)), 100, "LineA"),
                                            TidyRow(YearSemester(SemesterLabel(2019, 2)), 150, "LineA")]
  {
    var t := TwoMonths();
    TwoMonthsSemesterGroups();
    var fs := GroupedFrame(t, ByYearSemester);
    var block := LineRows(fs, 0, "LineA");
    assert SemestralTable(t) == StackedUpTo(fs, t.lines, 0) + block;
    assert block[0] == TidyRow(YearSemester(SemesterLabel(2019, 1)), 100, "LineA");
    assert block[1] == TidyRow(YearSemester(SemesterLabel(2019, 2)), 150, "LineA");
  }

  /** The same two months make one yearly row of 250. */
  lemma OneYearExample()
    ensures YearlyTable(TwoMonths()) == [TidyRow(Year(2019), 250, "LineA")]
  {
    var t := TwoMonths();
    TwoMonthsYearGroups();
    var fs := GroupedFrame(t, ByYear);
    assert YearlyTable(t) == StackedUpTo(fs, t.lines, 0) + LineRows(fs, 0, "LineA");
  }

  // ---- the semestral table as the source computes it ----

  /**
   * As written, an empty wide table makes the "YearSemester" assignment
   * at lines 100-102 raise: `apply(axis=1)` on the empty grouped frame
   * returns a copy of that frame, which cannot be assigned to one column.
   */
  function SemestralAsWritten(t: Table): Result<seq<TidyRow>, AggError>
    requires WellFormed(t)
  {
    if t.rows == [] then Failure(EmptyColumnAssignment("YearSemester")) else Success(SemestralTable(t))
  }

  /** An empty table breaks the code as written; the corrected table is empty. */
  lemma SemestralAsWrittenFailsOnEmptyTable(lines: seq<string>)
    ensures SemestralAsWritten(Table(lines, [])) == Failure(EmptyColumnAssignment("YearSemester"))
    ensures SemestralTable(Table(lines, [])) == []
  {
    StackedLength(GroupedFrame(Table(lines, []), ByYearSemester), lines, |lines|);
  }
}
