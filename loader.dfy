/**
 * The loader (`MetroData`): renames the raw passenger-count columns to line
 * identifiers and turns their thousands-separated text into numbers.
 *
 * A frame is a header of column names and rows of cells; a cell is what
 * pandas holds after reading the semicolon-separated file: a missing value
 * (NaN), text, or an integer.
 */
module Loader {
  import opened Wrappers
  import opened Decimal

  /** The metro lines that have a passenger-count column. */
  datatype Line = LineA | LineB | LineK | LineJ | LineH | LineM | LineL
                | LineTA | Line1 | Line2 | LineC3 | LineC6 | LineO

  /** The lines in the order of the rename table. */
  const AllLines: seq<Line> :=
    [LineA, LineB, LineK, LineJ, LineH, LineM, LineL, LineTA, Line1, Line2, LineC3, LineC6, LineO]

  /** The column name the raw file uses for a line. */
  function RawName(l: Line): string {
    match l
    case LineA => "L-A_PAX_MOV"
    case LineB => "L-B_PAX_MOV"
    case LineK => "L-K_PAX_MOV"
    case LineJ => "L-J_PAX_MOV"
    case LineH => "L-H_PAX_MOV"
    case LineM => "L-M_PAX_MOV"
    case LineL => "L-L_PAX_MOV"
    case LineTA => "L-TA_PAX_MOV"
    case Line1 => "L-1_PAX_MOV"
    case Line2 => "L-2_PAX_MOV"
    case LineC3 => "C-3_PAX_MOV"
    case LineC6 => "C6_PAX_MOV"
    case LineO => "LÍNEA_O"
  }

  /** The line identifier the column is renamed to. */
  function LineName(l: Line): string {
    match l
    case LineA => "LineA"
    case LineB => "LineB"
    case LineK => "LineK"
    case LineJ => "LineJ"
    case LineH => "LineH"
    case LineM => "LineM"
    case LineL => "LineL"
    case LineTA => "LineTA"
    case Line1 => "Line1"
    case Line2 => "Line2"
    case LineC3 => "LineC3"
    case LineC6 => "LineC6"
    case LineO => "LineO"
  }

  /** The line whose raw column is called `name`, if any: the key lookup of the rename dictionary. */
  function RawLine(name: string): (r: Option<Line>)
    ensures r.Some? ==> RawName(r.value) == name
    ensures r.None? ==> forall l: Line :: RawName(l) != name
  {
    if name == RawName(LineA) then Some(LineA)
    else if name == RawName(LineB) then Some(LineB)
    else if name == RawName(LineK) then Some(LineK)
    else if name == RawName(LineJ) then Some(LineJ)
    else if name == RawName(LineH) then Some(LineH)
    else if name == RawName(LineM) then Some(LineM)
    else if name == RawName(LineL) then Some(LineL)
    else if name == RawName(LineTA) then Some(LineTA)
    else if name == RawName(Line1) then Some(Line1)
    else if name == RawName(Line2) then Some(Line2)
    else if name == RawName(LineC3) then Some(LineC3)
    else if name == RawName(LineC6) then Some(LineC6)
    else if name == RawName(LineO) then Some(LineO)
    else None
  }

  /** The line called `name` after renaming, if any; used to show the targets are distinct. */
  ghost function NamedLine(name: string): (r: Option<Line>)
    ensures r.Some? ==> LineName(r.value) == name
  {
    if name == LineName(LineA) then Some(LineA)
    else if name == LineName(LineB) then Some(LineB)
    else if name == LineName(LineK) then Some(LineK)
    else if name == LineName(LineJ) then Some(LineJ)
    else if name == LineName(LineH) then Some(LineH)
    else if name == LineName(LineM) then Some(LineM)
    else if name == LineName(LineL) then Some(LineL)
    else if name == LineName(LineTA) then Some(LineTA)
    else if name == LineName(Line1) then Some(Line1)
    else if name == LineName(Line2) then Some(Line2)
    else if name == LineName(LineC3) then Some(LineC3)
    else if name == LineName(LineC6) then Some(LineC6)
    else if name == LineName(LineO) then Some(LineO)
    else None
  }

  /** The lines the rename table lists first. */
  predicate EarlyLine(l: Line) {
    l.LineA? || l.LineB? || l.LineK? || l.LineJ? || l.LineH? || l.LineM? || l.LineL?
  }

  lemma RawLineOfEarlyName(l: Line)
    requires EarlyLine(l)
    ensures RawLine(RawName(l)) == Some(l)
  {
    match l
    case LineA =>
    case LineB =>
    case LineK =>
    case LineJ =>
    case LineH =>
    case LineM =>
    case LineL =>
  }

  lemma RawLineOfLateName(l: Line)
    requires !EarlyLine(l)
    ensures RawLine(RawName(l)) == Some(l)
  {
    match l
    case LineTA =>
    case Line1 =>
    case Line2 =>
    case LineC3 =>
    case LineC6 =>
    case LineO =>
  }

  /** Each raw name is looked up as its own line. */
  lemma RawLineOfRawName(l: Line)
    ensures RawLine(RawName(l)) == Some(l)
  {
    if EarlyLine(l) {
      RawLineOfEarlyName(l);
    } else {
      RawLineOfLateName(l);
    }
  }

  lemma NamedLineOfLineName(l: Line)
    ensures NamedLine(LineName(l)) == Some(l)
  {
    match l
    case LineA =>
    case LineB =>
    case LineK =>
    case LineJ =>
    case LineH =>
    case LineM =>
    case LineL =>
    case LineTA =>
    case Line1 =>
    case Line2 =>
    case LineC3 =>
    case LineC6 =>
    case LineO =>
  }

  lemma RawLineOfEveryRawName()
    ensures forall l: Line :: RawLine(RawName(l)) == Some(l)
  {
    forall l: Line {
      RawLineOfRawName(l);
    }
  }

  /** The rename of one column name: a raw line name becomes its identifier, any other name stays. */
  function Rename(name: string): (r: string)
    ensures forall l: Line :: name == RawName(l) ==> r == LineName(l)
    ensures (forall l: Line :: name != RawName(l)) ==> r == name
  {
    RawLineOfEveryRawName();
    match RawLine(name)
    case Some(l) => LineName(l)
    case None => name
  }

  /** The 13 raw names are distinct and so are the 13 identifiers they are renamed to. */
  lemma RenameTableInjective(a: Line, b: Line)
    ensures RawName(a) == RawName(b) ==> a == b
    ensures LineName(a) == LineName(b) ==> a == b
  {
    RawLineOfRawName(a);
    RawLineOfRawName(b);
    NamedLineOfLineName(a);
    NamedLineOfLineName(b);
  }

  /** `rename_cols`: the header with every column name renamed, in place. */
  function RenameCols(header: seq<string>): (r: seq<string>)
    ensures |r| == |header|
    ensures forall i, l: Line :: 0 <= i < |header| && header[i] == RawName(l) ==> r[i] == LineName(l)
    ensures forall i :: 0 <= i < |header| && RawLine(header[i]).None? ==> r[i] == header[i]
  {
    seq(|header|, i requires 0 <= i < |header| => Rename(header[i]))
  }

  /** `columns.values[5:18]`: the line columns, clipped to the header like a numpy slice. */
  function LineColumns(header: seq<string>): (r: seq<string>)
    ensures |r| == if |header| <= 5 then 0 else if |header| >= 18 then 13 else |header| - 5
    ensures forall k :: 0 <= k < |r| ==> r[k] == header[5 + k]
  {
    if |header| <= 5 then [] else header[5..if |header| < 18 then |header| else 18]
  }

  /** The column positions `replace_column_types` converts. */
  predicate IsCountColumn(width: nat, c: int) {
    5 <= c < 18 && c < width
  }

  /**
   * A raw header whose columns 5..17 are the 13 raw line names, in the
   * order of the rename table, yields the 13 identifiers as line list.
   */
  lemma LineListOfRawHeader(header: seq<string>)
    requires |header| >= 18
    requires forall k :: 0 <= k < 13 ==> header[5 + k] == RawName(AllLines[k])
    ensures LineColumns(RenameCols(header)) == seq(13, k requires 0 <= k < 13 => LineName(AllLines[k]))
  {
    var r := LineColumns(RenameCols(header));
    forall k | 0 <= k < 13
      ensures r[k] == LineName(AllLines[k])
    {
      RawLineOfRawName(AllLines[k]);
    }
  }

  datatype Cell = Missing | Text(text: string) | Number(value: int)

  datatype Frame = Frame(header: seq<string>, rows: seq<seq<Cell>>)

  /** Every row has one cell per column. */
  predicate Rectangular(f: Frame) {
    forall i :: 0 <= i < |f.rows| ==> |f.rows[i]| == |f.header|
  }

  /** `astype(str)`: NaN prints as "nan", an integer as its decimal text. */
  function AsText(c: Cell): string {
    match c
    case Missing => "nan"
    case Text(s) => s
    case Number(n) => IntText(n)
  }

  /** `replace(".", "")`: the text with every period deleted. */
  function StripDots(s: string): (r: string)
    ensures forall i :: 0 <= i < |r| ==> r[i] != '.'
    ensures |r| <= |s|
  {
    if s == [] then [] else (if s[0] == '.' then [] else [s[0]]) + StripDots(s[1..])
  }

  /**
   * `float(x.replace(".", ""))` on the text of one cell: "nan" reads as a
   * missing count, an optionally signed run of digits as that number;
   * None is the ValueError raised for any other text.
   */
  function ParseCount(text: string): (r: Option<Cell>)
    ensures r.Some? ==> !r.value.Text?
    ensures r == Some(Missing) <==> StripDots(text) == "nan"
    ensures r.Some? && r.value.Number? ==> ParseInt(StripDots(text)) == Some(r.value.value)
    ensures r.None? <==> StripDots(text) != "nan" && ParseInt(StripDots(text)).None?
  {
    var t := StripDots(text);
    if t == "nan" then Some(Missing)
    else match ParseInt(t)
      case Some(n) => Some(Number(n))
      case None => None
  }

  /** The three digits of a group after a thousands separator. */
  function Group3(m: nat): (s: string)
    requires m < 1000
    ensures |s| == 3 && AllDigits(s)
  {
    [DigitChar(m / 100), DigitChar(m / 10 % 10), DigitChar(m % 10)]
  }

  /** How the raw file writes a count: periods between groups of three digits ("1.234.567"). */
  function Grouped(n: nat): string
    decreases n
  {
    if n < 1000 then NatText(n) else Grouped(n / 1000) + "." + Group3(n % 1000)
  }

  lemma {:induction false} StripDotsAppend(a: string, b: string)
    ensures StripDots(a + b) == StripDots(a) + StripDots(b)
  {
    if a == [] {
      assert a + b == b;
    } else {
      assert (a + b)[0] == a[0];
      assert (a + b)[1..] == a[1..] + b;
      StripDotsAppend(a[1..], b);
    }
  }

  lemma {:induction false} StripDotsNoDots(s: string)
    requires forall i :: 0 <= i < |s| ==> s[i] != '.'
    ensures StripDots(s) == s
  {
    if s != [] {
      StripDotsNoDots(s[1..]);
    }
  }

  /** The decimal text of n is the text of n / 1000 followed by the last three digits. */
  lemma NatTextSplit(n: nat)
    requires n >= 1000
    ensures NatText(n) == NatText(n / 1000) + Group3(n % 1000)
  {
    var q, m := n / 1000, n % 1000;
    assert n == 1000 * q + m;
    assert n / 10 == 100 * q + m / 10;
    assert n / 100 == 10 * q + m / 100;
    assert (n / 10) / 10 == n / 100;
    assert (n / 100) / 10 == q;
    assert n % 10 == m % 10;
    assert (n / 10) % 10 == m / 10 % 10;
    assert (n / 100) % 10 == m / 100;
    calc {
      NatText(n);
      NatText(n / 10) + [DigitChar(n % 10)];
      NatText(n / 100) + [DigitChar(n / 10 % 10)] + [DigitChar(n % 10)];
      NatText(q) + [DigitChar(n / 100 % 10)] + [DigitChar(n / 10 % 10)] + [DigitChar(n % 10)];
      NatText(q) + Group3(m);
    }
  }

  /** Deleting the separators from a grouped count leaves its plain decimal text. */
  lemma {:induction false} StripDotsGrouped(n: nat)
    ensures StripDots(Grouped(n)) == NatText(n)
    decreases n
  {
    if n < 1000 {
      StripDotsNoDots(NatText(n));
    } else {
      var g := Group3(n % 1000);
      StripDotsAppend(Grouped(n / 1000) + ".", g);
      StripDotsAppend(Grouped(n / 1000), ".");
      StripDotsGrouped(n / 1000);
      StripDotsNoDots(g);
      NatTextSplit(n);
    }
  }

  /** Every count the raw file writes with separators parses back to itself. */
  lemma ParseGrouped(n: nat)
    ensures ParseCount(Grouped(n)) == Some(Number(n))
  {
    StripDotsGrouped(n);
    ParseIntText(n);
    assert NatText(n) == IntText(n);
    assert NatText(n) != "nan" by {
      assert IsDigit(NatText(n)[0]);
    }
  }

  /** "1.234.567" parses to 1234567. */
  lemma GroupedExample()
    ensures Grouped(1234567) == "1.234.567"
  {
    assert Grouped(1) == "1";
    assert Group3(234) == "234";
    assert Grouped(1234) == "1" + "." + "234" == "1.234";
    assert Group3(567) == "567";
    assert Grouped(1234567) == "1.234" + "." + "567";
  }

  lemma ParseSeparatedExample()
    ensures ParseCount("1.234.567") == Some(Number(1234567))
  {
    ParseGrouped(1234567);
    GroupedExample();
  }

  /** Text that is no number after deleting periods is an error, not a skipped cell. */
  lemma ParseRejectsLetters()
    ensures ParseCount("abc").None?
    ensures ParseCount("1.2a").None?
  {
    assert StripDots("abc") == "abc";
    assert !IsDigit("abc"[0]);
    assert StripDots("1.2a") == "12a";
    assert !IsDigit("12a"[2]);
  }

  /** A cell pandas already holds as a number or as NaN keeps its value through `astype(str)` and the parse. */
  lemma ParseAsText(c: Cell)
    requires !c.Text?
    ensures ParseCount(AsText(c)) == Some(c)
  {
    if c.Number? {
      var s := IntText(c.value);
      StripDotsNoDots(s);
      ParseIntText(c.value);
      assert s != "nan" by {
        if c.value < 0 { assert s[0] == '-'; } else { assert IsDigit(s[0]); }
      }
    } else {
      StripDotsNoDots("nan");
    }
  }

  /**
   * A count cell `float()` rejects. Python's ValueError carries only the
   * text ("could not convert string to float: '<text>'"); the column and
   * row are the model's record of where it is raised.
   */
  datatype LoadError = MalformedCount(column: nat, row: nat, text: string)

  /** The text of the cell survives `astype(str)` and the parse. */
  predicate Parses(c: Cell) {
    ParseCount(AsText(c)).Some?
  }

  function Converted(c: Cell): Cell
    requires Parses(c)
  {
    ParseCount(AsText(c)).value
  }

  /** Every cell of every count column parses. */
  ghost predicate AllCountsParse(f: Frame)
    requires Rectangular(f)
  {
    forall i, c :: 0 <= i < |f.rows| && IsCountColumn(|f.header|, c) ==> Parses(f.rows[i][c])
  }

  /** g is f with every count cell replaced by its parse and every other cell and name unchanged. */
  ghost predicate IsConversionOf(g: Frame, f: Frame)
    requires Rectangular(f)
  {
    && g.header == f.header
    && |g.rows| == |f.rows|
    && (forall i :: 0 <= i < |g.rows| ==> |g.rows[i]| == |f.header|)
    && (forall i, c :: 0 <= i < |f.rows| && 0 <= c < |f.header| ==>
          if IsCountColumn(|f.header|, c) then ParseCount(AsText(f.rows[i][c])) == Some(g.rows[i][c])
          else g.rows[i][c] == f.rows[i][c])
  }

  /**
   * e names the first cell that does not parse, scanning the count columns
   * left to right and each column top to bottom, as the column loop does.
   */
  ghost predicate IsFirstFailure(f: Frame, e: LoadError)
    requires Rectangular(f)
  {
    && IsCountColumn(|f.header|, e.column) && e.row < |f.rows|
    && !Parses(f.rows[e.row][e.column])
    && e.text == AsText(f.rows[e.row][e.column])
    && (forall i, c :: 0 <= i < |f.rows| && IsCountColumn(|f.header|, c) && c < e.column ==> Parses(f.rows[i][c]))
    && (forall i :: 0 <= i < e.row ==> Parses(f.rows[i][e.column]))
  }

  /** `df_pass[col] = df_pass[col].apply(...)`: parse column c of every row, failing at the first bad cell. */
  method ConvertColumn(rows: seq<seq<Cell>>, c: nat) returns (r: Result<seq<seq<Cell>>, LoadError>)
    requires forall i :: 0 <= i < |rows| ==> c < |rows[i]|
    ensures r.Success? <==> forall i :: 0 <= i < |rows| ==> Parses(rows[i][c])
    ensures r.Success? ==>
      && |r.value| == |rows|
      && forall i :: 0 <= i < |rows| ==> r.value[i] == rows[i][c := Converted(rows[i][c])]
    ensures r.Failure? ==>
      && r.error.column == c && r.error.row < |rows|
      && !Parses(rows[r.error.row][c]) && r.error.text == AsText(rows[r.error.row][c])
      && forall i :: 0 <= i < r.error.row ==> Parses(rows[i][c])
  {
    var out: seq<seq<Cell>> := [];
    var i := 0;
    while i < |rows|
      invariant 0 <= i <= |rows|
      invariant |out| == i
      invariant forall k :: 0 <= k < i ==> Parses(rows[k][c]) && out[k] == rows[k][c := Converted(rows[k][c])]
    {
      var parsed := ParseCount(AsText(rows[i][c]));
      if parsed.None? {
        return Failure(MalformedCount(c, i, AsText(rows[i][c])));
      }
      out := out + [rows[i][c := parsed.value]];
      i := i + 1;
    }
    return Success(out);
  }

  /** rows is f's rows with the count columns before c converted and every other cell as read. */
  ghost predicate ConvertedBefore(f: Frame, rows: seq<seq<Cell>>, c: int)
    requires Rectangular(f)
  {
    && |rows| == |f.rows|
    && (forall i :: 0 <= i < |rows| ==> |rows[i]| == |f.header|)
    && (forall i, c' :: 0 <= i < |rows| && IsCountColumn(|f.header|, c') && c' < c ==> Parses(f.rows[i][c']))
    && (forall i, c' :: 0 <= i < |rows| && 0 <= c' < |f.header| ==>
          if IsCountColumn(|f.header|, c') && c' < c then ParseCount(AsText(f.rows[i][c'])) == Some(rows[i][c'])
          else rows[i][c'] == f.rows[i][c'])
  }

  lemma ConvertStep(f: Frame, rows: seq<seq<Cell>>, c: int, next: seq<seq<Cell>>)
    requires Rectangular(f) && ConvertedBefore(f, rows, c) && IsCountColumn(|f.header|, c)
    requires forall i :: 0 <= i < |rows| ==> Parses(rows[i][c])
    requires |next| == |rows|
    requires forall i :: 0 <= i < |rows| ==> next[i] == rows[i][c := Converted(rows[i][c])]
    ensures ConvertedBefore(f, next, c + 1)
  {
    forall i | 0 <= i < |rows|
      ensures |next[i]| == |f.header|
      ensures next[i][c] == Converted(f.rows[i][c])
      ensures forall c' :: 0 <= c' < |f.header| && c' != c ==> next[i][c'] == rows[i][c']
    {
    }
    forall i, c' | 0 <= i < |rows| && IsCountColumn(|f.header|, c') && c' < c + 1
      ensures Parses(f.rows[i][c'])
    {
    }
  }

  lemma ConvertFailure(f: Frame, rows: seq<seq<Cell>>, c: int, e: LoadError)
    requires Rectangular(f) && ConvertedBefore(f, rows, c) && IsCountColumn(|f.header|, c)
    requires e.column == c && e.row < |rows|
    requires !Parses(rows[e.row][c]) && e.text == AsText(rows[e.row][c])
    requires forall i :: 0 <= i < e.row ==> Parses(rows[i][c])
    ensures IsFirstFailure(f, e)
  {
    assert rows[e.row][c] == f.rows[e.row][c];
    forall i | 0 <= i < e.row
      ensures Parses(f.rows[i][c])
    {
      assert rows[i][c] == f.rows[i][c];
    }
  }

  lemma ConvertDone(f: Frame, rows: seq<seq<Cell>>, c: int)
    requires Rectangular(f) && ConvertedBefore(f, rows, c) && (c >= 18 || c >= |f.header|)
    ensures AllCountsParse(f)
    ensures IsConversionOf(Frame(f.header, rows), f)
    ensures forall i, c' :: 0 <= i < |f.rows| && IsCountColumn(|f.header|, c') ==> !rows[i][c'].Text?
  {
  }

  /**
   * `replace_column_types`: converts the count columns (positions 5..17
   * that exist) one after the other; the first cell that does not parse
   * aborts the whole conversion.
   */
  method ReplaceColumnTypes(f: Frame) returns (r: Result<Frame, LoadError>)
    requires Rectangular(f)
    ensures r.Success? <==> AllCountsParse(f)
    ensures r.Success? ==> IsConversionOf(r.value, f)
    ensures r.Success? ==> forall i, c :: 0 <= i < |f.rows| && IsCountColumn(|f.header|, c) ==> !r.value.rows[i][c].Text?
    ensures r.Failure? ==> IsFirstFailure(f, r.error)
  {
    var hi := if |f.header| < 18 then |f.header| else 18;
    var rows := f.rows;
    var c := 5;
    while c < hi
      invariant 5 <= c && (c <= hi || hi < 5)
      invariant ConvertedBefore(f, rows, c)
    {
      var col := ConvertColumn(rows, c);
      if col.Failure? {
        ConvertFailure(f, rows, c, col.error);
        return Failure(col.error);
      }
      ConvertStep(f, rows, c, col.value);
      rows := col.value;
      c := c + 1;
    }
    ConvertDone(f, rows, c);
    return Success(Frame(f.header, rows));
  }

  /** `preprocess_data`: rename the columns, then convert the count columns. */
  method Preprocess(f: Frame) returns (r: Result<Frame, LoadError>)
    requires Rectangular(f)
    ensures Rectangular(Frame(RenameCols(f.header), f.rows))
    ensures r.Success? <==> AllCountsParse(Frame(RenameCols(f.header), f.rows))
    ensures r.Success? ==> IsConversionOf(r.value, Frame(RenameCols(f.header), f.rows))
    ensures r.Failure? ==> IsFirstFailure(Frame(RenameCols(f.header), f.rows), r.error)
  {
    r := ReplaceColumnTypes(Frame(RenameCols(f.header), f.rows));
  }
}
