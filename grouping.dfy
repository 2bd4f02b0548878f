/**
 * pandas' `groupby(keys, as_index=False)[lines].sum()`: one group per
 * distinct key tuple, groups in ascending key order, and per group the sum
 * of each line's present counts (0 when all are missing).
 */
module Grouping {
  import opened Wrappers
  import opened Tidy

  /** The grouping columns: ["AÑO", "SEMESTRE"] or ["AÑO"]. */
  datatype By = ByYearSemester | ByYear

  function KeyWidth(cols: By): nat {
    match cols
    case ByYearSemester => 2
    case ByYear => 1
  }

  /** The key tuple of a row. */
  function KeyOf(r: Record, cols: By): (k: seq<int>)
    ensures |k| == KeyWidth(cols) && k[0] == r.year
    ensures cols.ByYearSemester? ==> k == [r.year, r.semester]
    ensures cols.ByYear? ==> k == [r.year]
  {
    match cols
    case ByYearSemester => [r.year, r.semester]
    case ByYear => [r.year]
  }

  /** Python's tuple order: element by element, a proper prefix first. */
  predicate TupleLess(a: seq<int>, b: seq<int>) {
    if a == [] then b != []
    else b != [] && (a[0] < b[0] || (a[0] == b[0] && TupleLess(a[1..], b[1..])))
  }

  lemma {:induction false} TupleLessIrreflexive(a: seq<int>)
    ensures !TupleLess(a, a)
  {
    if a != [] {
      TupleLessIrreflexive(a[1..]);
    }
  }

  lemma {:induction false} TupleLessTransitive(a: seq<int>, b: seq<int>, c: seq<int>)
    requires TupleLess(a, b) && TupleLess(b, c)
    ensures TupleLess(a, c)
  {
    if a != [] && a[0] == b[0] && b[0] == c[0] {
      TupleLessTransitive(a[1..], b[1..], c[1..]);
    }
  }

  lemma {:induction false} TupleLessTotal(a: seq<int>, b: seq<int>)
    ensures a == b || TupleLess(a, b) || TupleLess(b, a)
  {
    if a != [] && b != [] && a[0] == b[0] {
      TupleLessTotal(a[1..], b[1..]);
      if a[1..] == b[1..] {
        assert a == [a[0]] + a[1..] && b == [b[0]] + b[1..];
      }
    }
  }

  /** TupleLess is a strict total order. */
  lemma TupleOrder()
    ensures forall a :: !TupleLess(a, a)
    ensures forall a, b, c :: TupleLess(a, b) && TupleLess(b, c) ==> TupleLess(a, c)
    ensures forall a, b :: a == b || TupleLess(a, b) || TupleLess(b, a)
  {
    forall a { TupleLessIrreflexive(a); }
    forall a, b, c | TupleLess(a, b) && TupleLess(b, c) { TupleLessTransitive(a, b, c); }
    forall a, b { TupleLessTotal(a, b); }
  }

  predicate StrictlySorted(ks: seq<seq<int>>) {
    forall i, j :: 0 <= i < j < |ks| ==> TupleLess(ks[i], ks[j])
  }

  predicate Distinct(ks: seq<seq<int>>) {
    forall i, j :: 0 <= i < j < |ks| ==> ks[i] != ks[j]
  }

  /** Insert a key into a list of keys before the first key above it, unless it is already there. */
  function Insert(ks: seq<seq<int>>, k: seq<int>): (r: seq<seq<int>>)
    ensures forall x :: x in r <==> x in ks || x == k
  {
    if ks == [] then [k]
    else if k == ks[0] then ks
    else if TupleLess(k, ks[0]) then [k] + ks
    else [ks[0]] + Insert(ks[1..], k)
  }

  /** Inserting into a strictly sorted list keeps it strictly sorted. */
  lemma {:induction false} InsertSorted(ks: seq<seq<int>>, k: seq<int>)
    requires StrictlySorted(ks)
    ensures StrictlySorted(Insert(ks, k))
  {
    TupleOrder();
    if ks != [] && k != ks[0] && !TupleLess(k, ks[0]) {
      InsertSorted(ks[1..], k);
      var rest := Insert(ks[1..], k);
      assert forall x :: x in rest ==> TupleLess(ks[0], x);
    }
  }

  /** The group keys: every distinct key tuple of the rows, in the order pandas' groupby yields them. */
  function GroupKeys(rows: seq<Record>, cols: By): (ks: seq<seq<int>>)
    ensures forall g :: 0 <= g < |ks| ==> |ks[g]| == KeyWidth(cols)
  {
    if rows == [] then []
    else
      var prev := GroupKeys(rows[..|rows| - 1], cols);
      var ks := Insert(prev, KeyOf(rows[|rows| - 1], cols));
      assert forall g :: 0 <= g < |ks| ==> ks[g] in prev || ks[g] == KeyOf(rows[|rows| - 1], cols);
      ks
  }

  /** The groups come out in ascending key order, each once. */
  lemma {:induction false} GroupKeysSorted(rows: seq<Record>, cols: By)
    ensures StrictlySorted(GroupKeys(rows, cols))
  {
    if rows != [] {
      GroupKeysSorted(rows[..|rows| - 1], cols);
      InsertSorted(GroupKeys(rows[..|rows| - 1], cols), KeyOf(rows[|rows| - 1], cols));
    }
  }

  /** The group keys are exactly the keys of the rows. */
  lemma {:induction false} GroupKeysMembers(rows: seq<Record>, cols: By)
    ensures forall k :: k in GroupKeys(rows, cols) <==> exists i :: 0 <= i < |rows| && KeyOf(rows[i], cols) == k
  {
    if rows != [] {
      var init := rows[..|rows| - 1];
      GroupKeysMembers(init, cols);
      assert forall i :: 0 <= i < |init| ==> init[i] == rows[i];
    }
  }

  lemma SortedDistinct(ks: seq<seq<int>>)
    requires StrictlySorted(ks)
    ensures Distinct(ks)
  {
    TupleOrder();
  }

  /** The sum of line li's present counts over the rows whose key is `key`. */
  function GroupSum(rows: seq<Record>, cols: By, key: seq<int>, li: nat): int
    requires Covers(rows, li)
  {
    if rows == [] then 0
    else
      var r := rows[|rows| - 1];
      GroupSum(rows[..|rows| - 1], cols, key, li) + (if KeyOf(r, cols) == key then CountOr0(r.counts[li]) else 0)
  }

  /** A group with no present count of a line sums to 0: it is kept, not dropped. */
  lemma {:induction false} AllMissingGroupSumsToZero(rows: seq<Record>, cols: By, key: seq<int>, li: nat)
    requires Covers(rows, li)
    requires forall i :: 0 <= i < |rows| && KeyOf(rows[i], cols) == key ==> rows[i].counts[li].None?
    ensures GroupSum(rows, cols, key, li) == 0
  {
    if rows != [] {
      AllMissingGroupSumsToZero(rows[..|rows| - 1], cols, key, li);
    }
  }

  /** One row of the grouped frame: the key tuple and one sum per line column. */
  datatype Group = Group(key: seq<int>, sums: seq<int>)

  /** Every group has a key of the grouping's width and one sum per line column. */
  predicate GroupsFit(gs: seq<Group>, width: nat, cols: By) {
    forall g :: 0 <= g < |gs| ==> |gs[g].key| == KeyWidth(cols) && |gs[g].sums| == width
  }

  /** The grouped frame of lines 98 and 119: one group per key, in key order. */
  function GroupBySum(t: Table, cols: By): (gs: seq<Group>)
    requires WellFormed(t)
    ensures GroupsFit(gs, |t.lines|, cols)
    ensures |gs| == |GroupKeys(t.rows, cols)|
    ensures forall g :: 0 <= g < |gs| ==> gs[g].key == GroupKeys(t.rows, cols)[g] && |gs[g].sums| == |t.lines|
    ensures forall g, li :: 0 <= g < |gs| && 0 <= li < |t.lines| ==>
      gs[g].sums[li] == GroupSum(t.rows, cols, gs[g].key, li)
  {
    var ks := GroupKeys(t.rows, cols);
    seq(|ks|, g requires 0 <= g < |ks| =>
      Group(ks[g], seq(|t.lines|, li requires 0 <= li < |t.lines| => GroupSum(t.rows, cols, ks[g], li))))
  }

  // ---- summing the groups back up ----

  /** Whether a key belongs to the given year; None stands for every year. */
  predicate InYear(k: seq<int>, year: Option<int>) {
    year.None? || (|k| > 0 && k[0] == year.value)
  }

  /** The sum of the group sums of the keys in ks that belong to `year`. */
  function SumOverKeys(rows: seq<Record>, cols: By, ks: seq<seq<int>>, li: nat, year: Option<int>): int
    requires Covers(rows, li)
  {
    if ks == [] then 0
    else (if InYear(ks[0], year) then GroupSum(rows, cols, ks[0], li) else 0) + SumOverKeys(rows, cols, ks[1..], li, year)
  }

  /** The sum of line li's present counts over the rows of `year`. */
  function LineTotalIn(rows: seq<Record>, li: nat, year: Option<int>): int
    requires Covers(rows, li)
  {
    if rows == [] then 0
    else
      var r := rows[|rows| - 1];
      LineTotalIn(rows[..|rows| - 1], li, year) + (if year.None? || r.year == year.value then CountOr0(r.counts[li]) else 0)
  }

  /** What one row adds to SumOverKeys: its count once for every key of ks equal to its own. */
  function Hits(ks: seq<seq<int>>, key: seq<int>, v: int, year: Option<int>): int {
    if ks == [] then 0
    else (if InYear(ks[0], year) && ks[0] == key then v else 0) + Hits(ks[1..], key, v, year)
  }

  lemma {:induction false} HitsAbsent(ks: seq<seq<int>>, key: seq<int>, v: int, year: Option<int>)
    requires key !in ks
    ensures Hits(ks, key, v, year) == 0
  {
    if ks != [] {
      HitsAbsent(ks[1..], key, v, year);
    }
  }

  lemma {:induction false} HitsOnce(ks: seq<seq<int>>, key: seq<int>, v: int, year: Option<int>)
    requires Distinct(ks) && key in ks
    ensures Hits(ks, key, v, year) == if InYear(key, year) then v else 0
  {
    if ks[0] == key {
      assert key !in ks[1..];
      HitsAbsent(ks[1..], key, v, year);
    } else {
      HitsOnce(ks[1..], key, v, year);
    }
  }

  lemma {:induction false} SumOverKeysSnoc(init: seq<Record>, x: Record, cols: By, ks: seq<seq<int>>, li: nat, year: Option<int>)
    requires Covers(init, li) && li < |x.counts|
    ensures Covers(init + [x], li)
    ensures SumOverKeys(init + [x], cols, ks, li, year)
         == SumOverKeys(init, cols, ks, li, year) + Hits(ks, KeyOf(x, cols), CountOr0(x.counts[li]), year)
  {
    var rows := init + [x];
    assert rows[..|rows| - 1] == init;
    if ks != [] {
      SumOverKeysSnoc(init, x, cols, ks[1..], li, year);
    }
  }

  lemma {:induction false} SumOverKeysNoRows(cols: By, ks: seq<seq<int>>, li: nat, year: Option<int>)
    ensures SumOverKeys([], cols, ks, li, year) == 0
  {
    if ks != [] {
      SumOverKeysNoRows(cols, ks[1..], li, year);
    }
  }

  /**
   * Summing the group sums of a list of distinct keys that covers every
   * row's key gives the total over the rows (of one year, or of all).
   */
  lemma {:induction false} PartitionSum(rows: seq<Record>, cols: By, ks: seq<seq<int>>, li: nat, year: Option<int>)
    requires Covers(rows, li) && Distinct(ks)
    requires forall i :: 0 <= i < |rows| ==> KeyOf(rows[i], cols) in ks
    ensures SumOverKeys(rows, cols, ks, li, year) == LineTotalIn(rows, li, year)
    decreases |rows|
  {
    if rows == [] {
      SumOverKeysNoRows(cols, ks, li, year);
    } else {
      var init, x := rows[..|rows| - 1], rows[|rows| - 1];
      assert rows == init + [x];
      assert KeyOf(x, cols) in ks;
      assert forall i :: 0 <= i < |init| ==> init[i] == rows[i];
      PartitionSum(init, cols, ks, li, year);
      SumOverKeysSnoc(init, x, cols, ks, li, year);
      HitsOnce(ks, KeyOf(x, cols), CountOr0(x.counts[li]), year);
      assert InYear(KeyOf(x, cols), year) <==> year.None? || x.year == year.value;
    }
  }

  lemma {:induction false} LineTotalInAll(rows: seq<Record>, li: nat)
    requires Covers(rows, li)
    ensures LineTotalIn(rows, li, None) == LineTotal(rows, li)
  {
    if rows != [] {
      LineTotalInAll(rows[..|rows| - 1], li);
    }
  }

  lemma {:induction false} LineTotalInYear(rows: seq<Record>, li: nat, y: int)
    requires Covers(rows, li)
    ensures LineTotalIn(rows, li, Some(y)) == GroupSum(rows, ByYear, [y], li)
  {
    if rows != [] {
      LineTotalInYear(rows[..|rows| - 1], li, y);
    }
  }

  /** The groups' sums of a line add up to the line's total: grouping loses and invents no passenger. */
  lemma GroupSumsConserve(rows: seq<Record>, cols: By, li: nat)
    requires Covers(rows, li)
    ensures SumOverKeys(rows, cols, GroupKeys(rows, cols), li, None) == LineTotal(rows, li)
  {
    var ks := GroupKeys(rows, cols);
    GroupKeysSorted(rows, cols);
    SortedDistinct(ks);
    GroupKeysMembers(rows, cols);
    PartitionSum(rows, cols, ks, li, None);
    LineTotalInAll(rows, li);
  }

  /** For each line and year, the sums of that year's semester groups add up to the year's group sum. */
  lemma SemestersAddUpToYear(rows: seq<Record>, li: nat, y: int)
    requires Covers(rows, li)
    ensures SumOverKeys(rows, ByYearSemester, GroupKeys(rows, ByYearSemester), li, Some(y))
         == GroupSum(rows, ByYear, [y], li)
  {
    var ks := GroupKeys(rows, ByYearSemester);
    GroupKeysSorted(rows, ByYearSemester);
    SortedDistinct(ks);
    GroupKeysMembers(rows, ByYearSemester);
    PartitionSum(rows, ByYearSemester, ks, li, Some(y));
    LineTotalInYear(rows, li, y);
  }
}
