/** A Markdown table with its columns padded to line up. */
module ReportTable {
  import opened Common
  import opened Text

  type Row = seq<string>

  // --- joining ---------------------------------------------------------------------------------------

  /** Where part `j` starts in the join; past the last part, one separator past the end. */
  function Start(sep: string, parts: Row, j: nat): nat
    requires j <= |parts|
    decreases j
  {
    if j == 0 then 0 else |parts[0]| + |sep| + Start(sep, parts[1..], j - 1)
  }

  /** `part` stands in `s` at `i`. */
  ghost predicate StandsAt(s: string, i: int, part: string) {
    0 <= i && i + |part| <= |s| && s[i..i + |part|] == part
  }

  lemma StandsBehind(before: string, s: string, i: int, part: string)
    requires StandsAt(s, i, part)
    ensures StandsAt(before + s, |before| + i, part)
  {
    assert (before + s)[|before| + i..|before| + i + |part|] == s[i..i + |part|];
  }

  lemma {:induction false} JoinAt(sep: string, parts: Row, j: nat)
    requires j < |parts|
    ensures StandsAt(Join(sep, parts), Start(sep, parts, j), parts[j])
    ensures j > 0 ==> StandsAt(Join(sep, parts), Start(sep, parts, j) - |sep|, sep)
    decreases j
  {
    if |parts| == 1 {
      assert parts[0][0..|parts[0]|] == parts[0];
    } else {
      var first, rest := parts[0] + sep, Join(sep, parts[1..]);
      assert Join(sep, parts) == first + rest;
      if j == 0 {
        assert (first + rest)[0..|parts[0]|] == parts[0];
      } else {
        JoinAt(sep, parts[1..], j - 1);
        StandsBehind(first, rest, Start(sep, parts[1..], j - 1), parts[j]);
        if j == 1 {
          assert (first + rest)[|parts[0]|..|first|] == sep;
        } else {
          StandsBehind(first, rest, Start(sep, parts[1..], j - 1) - |sep|, sep);
        }
      }
    }
  }

  lemma {:induction false} JoinLength(sep: string, parts: Row)
    requires parts != []
    ensures |Join(sep, parts)| + |sep| == Start(sep, parts, |parts|)
    decreases |parts|
  {
    if |parts| > 1 {
      JoinLength(sep, parts[1..]);
    }
  }

  /** The starts depend on the parts' lengths alone. */
  lemma {:induction false} SameStart(sep: string, parts: Row, widths: seq<nat>, j: nat, extra: nat)
    requires |parts| == |widths| && j <= |parts|
    requires forall i :: 0 <= i < |parts| ==> |parts[i]| + |sep| == widths[i] + extra
    ensures Start(sep, parts, j) == Offset(widths, j, extra)
    decreases j
  {
    if j > 0 {
      SameStart(sep, parts[1..], widths[1..], j - 1, extra);
    }
  }

  function Offset(widths: seq<nat>, j: nat, extra: nat): nat
    requires j <= |widths|
    decreases j
  {
    if j == 0 then 0 else widths[0] + extra + Offset(widths[1..], j - 1, extra)
  }

  // --- the table -------------------------------------------------------------------------------------

  function Repeat(c: char, n: nat): string {
    seq(n, _ => c)
  }

  /** `cell.ljust(width)` */
  function LJust(cell: string, width: nat): (s: string)
    ensures |s| == Max(|cell|, width)
  {
    cell + Repeat(' ', Max(0, width - |cell|))
  }

  /** The longest cell of column `j`. */
  function Width(header: Row, rows: seq<Row>, j: nat): nat
    requires j < |header| && forall i :: 0 <= i < |rows| ==> |rows[i]| == |header|
    decreases |rows|
  {
    if rows == [] then |header[j]|
    else Max(Width(header, rows[..|rows| - 1], j), |rows[|rows| - 1][j]|)
  }

  function Widths(header: Row, rows: seq<Row>): seq<nat>
    requires forall i :: 0 <= i < |rows| ==> |rows[i]| == |header|
  {
    seq(|header|, j requires 0 <= j < |header| => Width(header, rows, j))
  }

  function Padded(cells: Row, widths: seq<nat>): Row
    requires |cells| == |widths|
  {
    seq(|cells|, j requires 0 <= j < |cells| => LJust(cells[j], widths[j]))
  }

  function Line(cells: Row, widths: seq<nat>): string
    requires |cells| == |widths|
  {
    "| " + Join(" | ", Padded(cells, widths)) + " |"
  }

  function Dashes(widths: seq<nat>): Row {
    seq(|widths|, j requires 0 <= j < |widths| => Repeat('-', widths[j] + 2))
  }

  function Rule(widths: seq<nat>): string {
    "|" + Join("|", Dashes(widths)) + "|"
  }

  /** `None` is the ValueError of a row that is longer or shorter than the header. */
  function Table(header: Row, rows: seq<Row>): Option<seq<string>> {
    if exists i :: 0 <= i < |rows| && |rows[i]| != |header| then None
    else
      var widths := Widths(header, rows);
      Some([Line(header, widths), Rule(widths)] +
        seq(|rows|, i requires 0 <= i < |rows| => Line(rows[i], widths)))
  }

  // --- its shape ---------------------------------------------------------------------------------------

  lemma {:induction false} WidthFits(header: Row, rows: seq<Row>, j: nat)
    requires j < |header| && forall i :: 0 <= i < |rows| ==> |rows[i]| == |header|
    ensures |header[j]| <= Width(header, rows, j)
    ensures forall i :: 0 <= i < |rows| ==> |rows[i][j]| <= Width(header, rows, j)
    decreases |rows|
  {
    if rows != [] {
      WidthFits(header, rows[..|rows| - 1], j);
    }
  }

  ghost predicate Fits(cells: Row, widths: seq<nat>) {
    |cells| == |widths| && forall j :: 0 <= j < |cells| ==> |cells[j]| <= widths[j]
  }

  /** Column `j` starts at the same place in every line of the table, a bar and a
      blank before it and the cell padded to the column's width. */
  lemma LineShape(cells: Row, widths: seq<nat>, j: nat)
    requires Fits(cells, widths) && j < |widths|
    ensures |Line(cells, widths)| == Offset(widths, |widths|, 3) + 1
    ensures StandsAt(Line(cells, widths), Offset(widths, j, 3) + 2, LJust(cells[j], widths[j]))
    ensures StandsAt(Line(cells, widths), Offset(widths, j, 3), "| ")
  {
    hide Join, Start, Offset;
    StartsAtZero(widths);
    var parts, body := Padded(cells, widths), Join(" | ", Padded(cells, widths));
    JoinAt(" | ", parts, j);
    JoinLength(" | ", parts);
    SameStart(" | ", parts, widths, j, 3);
    SameStart(" | ", parts, widths, |widths|, 3);
    var at := Offset(widths, j, 3);
    StandsBefore("| ", body, " |", at, parts[j]);
    if j > 0 {
      StandsBefore("| ", body, " |", at - 3, " | ");
      var line := Line(cells, widths);
      assert line[at..at + 2] == line[at - 1..at + 2][1..] == " | "[1..];
    }
  }

  lemma StartsAtZero(widths: seq<nat>)
    ensures Offset(widths, 0, 3) == 0
  {
  }

  lemma StandsBefore(before: string, s: string, after: string, i: int, part: string)
    requires StandsAt(s, i, part)
    ensures StandsAt(before + s + after, |before| + i, part)
  {
    assert (before + s + after)[|before| + i..|before| + i + |part|] == s[i..i + |part|];
  }

  lemma RuleShape(widths: seq<nat>, j: nat)
    requires j < |widths|
    ensures |Rule(widths)| == Offset(widths, |widths|, 3) + 1
    ensures StandsAt(Rule(widths), Offset(widths, j, 3) + 1, Repeat('-', widths[j] + 2))
    ensures StandsAt(Rule(widths), Offset(widths, j, 3), "|")
  {
    hide Join, Start, Offset;
    StartsAtZero(widths);
    var parts, body := Dashes(widths), Join("|", Dashes(widths));
    JoinAt("|", parts, j);
    JoinLength("|", parts);
    SameStart("|", parts, widths, j, 3);
    SameStart("|", parts, widths, |widths|, 3);
    var at := Offset(widths, j, 3);
    StandsBefore("|", body, "|", at, parts[j]);
    if j > 0 {
      StandsBefore("|", body, "|", at - 1, "|");
    }
  }

  lemma TableRowsFit(header: Row, rows: seq<Row>)
    requires forall i :: 0 <= i < |rows| ==> |rows[i]| == |header|
    ensures Fits(header, Widths(header, rows))
    ensures forall i :: 0 <= i < |rows| ==> Fits(rows[i], Widths(header, rows))
  {
    forall j | 0 <= j < |header|
      ensures |header[j]| <= Widths(header, rows)[j]
      ensures forall i :: 0 <= i < |rows| ==> |rows[i][j]| <= Widths(header, rows)[j]
    {
      WidthFits(header, rows, j);
    }
  }

  /** The lines of a table line up: all of one length, exactly when there is a
      column to line up. */
  lemma LinesLineUp(header: Row, rows: seq<Row>)
    requires Table(header, rows).Some?
    ensures var lines := Table(header, rows).value;
            && |lines| == |rows| + 2
            && ((forall i :: 0 <= i < |lines| ==> |lines[i]| == |lines[0]|) <==> header != [])
  {
    var widths, lines := Widths(header, rows), Table(header, rows).value;
    if header == [] {
      assert Padded(header, widths) == [] && Dashes(widths) == [];
      assert lines[0] == "|  |" && lines[1] == "||";
      assert |lines[1]| != |lines[0]|;
    } else {
      TableRowsFit(header, rows);
      LineShape(header, widths, 0);
      RuleShape(widths, 0);
      forall i | 2 <= i < |lines| ensures |lines[i]| == |lines[0]| {
        assert lines[i] == Line(rows[i - 2], widths);
        LineShape(rows[i - 2], widths, 0);
      }
    }
  }

  /** Row `i` of a table has its cell of column `j` where the header has its own. */
  lemma CellsStandInTheirColumn(header: Row, rows: seq<Row>, i: nat, j: nat)
    requires Table(header, rows).Some? && i < |rows| && j < |header|
    ensures var lines, widths := Table(header, rows).value, Widths(header, rows);
            && StandsAt(lines[0], Offset(widths, j, 3) + 2, LJust(header[j], widths[j]))
            && StandsAt(lines[i + 2], Offset(widths, j, 3) + 2, LJust(rows[i][j], widths[j]))
            && StandsAt(lines[0], Offset(widths, j, 3), "|") && StandsAt(lines[1], Offset(widths, j, 3), "|")
            && StandsAt(lines[i + 2], Offset(widths, j, 3), "|")
  {
    hide Line, Rule, StandsAt, LJust, Repeat, Offset, Width, Fits;
    var widths, lines := Widths(header, rows), Table(header, rows).value;
    TableRowsFit(header, rows);
    LineShape(header, widths, j);
    RuleShape(widths, j);
    LineShape(rows[i], widths, j);
    assert lines[i + 2] == Line(rows[i], widths);
    BarAt(lines[0], Offset(widths, j, 3));
    BarAt(lines[i + 2], Offset(widths, j, 3));
  }

  lemma BarAt(s: string, i: int)
    requires StandsAt(s, i, "| ")
    ensures StandsAt(s, i, "|")
  {
    assert s[i..i + 1] == s[i..i + 2][..1];
  }

  // --- the picture of one cell -------------------------------------------------------------------------

  lemma {:induction false} OffsetNext(widths: seq<nat>, j: nat, extra: nat)
    requires j < |widths|
    ensures Offset(widths, j + 1, extra) == Offset(widths, j, extra) + widths[j] + extra
    decreases j
  {
    if j > 0 {
      OffsetNext(widths[1..], j - 1, extra);
    }
  }

  lemma EndsWith(before: string, s: string, after: string)
    ensures StandsAt(before + s + after, |before + s|, after)
  {
  }

  lemma LineCloses(cells: Row, widths: seq<nat>, j: nat)
    requires Fits(cells, widths) && j < |widths|
    ensures StandsAt(Line(cells, widths), Offset(widths, j, 3) + 2 + widths[j], " |")
  {
    hide Join, Start, Offset;
    StartsAtZero(widths);
    OffsetNext(widths, j, 3);
    var parts, body := Padded(cells, widths), Join(" | ", Padded(cells, widths));
    if j + 1 < |widths| {
      JoinAt(" | ", parts, j + 1);
      SameStart(" | ", parts, widths, j + 1, 3);
      var at := Offset(widths, j + 1, 3);
      StandsBefore("| ", body, " |", at - 3, " | ");
      var line := Line(cells, widths);
      SliceOfSlice(line, at - 1, 3, 2);
      assert " | "[..2] == " |";
    } else {
      JoinLength(" | ", parts);
      SameStart(" | ", parts, widths, |widths|, 3);
      EndsWith("| ", body, " |");
    }
  }

  lemma RuleCloses(widths: seq<nat>, j: nat)
    requires j < |widths|
    ensures StandsAt(Rule(widths), Offset(widths, j, 3) + widths[j] + 3, "|")
  {
    hide Join, Start, Offset;
    OffsetNext(widths, j, 3);
    if j + 1 < |widths| {
      RuleShape(widths, j + 1);
    } else {
      var body := Join("|", Dashes(widths));
      JoinLength("|", Dashes(widths));
      SameStart("|", Dashes(widths), widths, |widths|, 3);
      EndsWith("|", body, "|");
    }
  }

  lemma {:induction false} WidthIsTaken(header: Row, rows: seq<Row>, j: nat)
    requires j < |header| && forall i :: 0 <= i < |rows| ==> |rows[i]| == |header|
    ensures var w := Width(header, rows, j);
            w == |header[j]| || exists i :: 0 <= i < |rows| && |rows[i][j]| == w
    decreases |rows|
  {
    if rows != [] {
      WidthIsTaken(header, rows[..|rows| - 1], j);
    }
  }

  /** A column is as wide as its longest cell, and no wider. */
  lemma ColumnIsTight(header: Row, rows: seq<Row>, j: nat)
    requires j < |header| && forall i :: 0 <= i < |rows| ==> |rows[i]| == |header|
    ensures var w := Widths(header, rows)[j];
            && |header[j]| <= w && (forall i :: 0 <= i < |rows| ==> |rows[i][j]| <= w)
            && (w == |header[j]| || exists i :: 0 <= i < |rows| && |rows[i][j]| == w)
  {
    WidthFits(header, rows, j);
    WidthIsTaken(header, rows, j);
  }

  /** At `at` in `line`: a bar, a blank, the cell, blanks up to the width, a blank
      and a bar. */
  ghost predicate Cell(line: string, at: nat, cell: string, width: nat) {
    && |cell| <= width && at + width + 4 <= |line|
    && line[at..at + 2] == "| " && line[at + 2..at + 2 + |cell|] == cell
    && (forall k :: at + 2 + |cell| <= k < at + 3 + width ==> line[k] == ' ')
    && line[at + 3 + width] == '|'
  }

  /** A bar, dashes, and a bar. */
  ghost predicate Dashed(line: string, at: nat, width: nat) {
    && at + width + 4 <= |line| && line[at] == '|' && line[at + width + 3] == '|'
    && forall k :: at < k < at + width + 3 ==> line[k] == '-'
  }

  lemma SliceOfSlice(s: string, at: nat, width: nat, n: nat)
    requires at + width <= |s| && n <= width
    ensures s[at..at + width][..n] == s[at..at + n]
  {
  }

  lemma CellFrom(line: string, at: nat, cell: string, width: nat)
    requires |cell| <= width
    requires StandsAt(line, at, "| ") && StandsAt(line, at + 2, LJust(cell, width))
    requires StandsAt(line, at + 2 + width, " |")
    ensures Cell(line, at, cell, width)
  {
    var padded, close := LJust(cell, width), line[at + 2 + width..at + 4 + width];
    assert line[at + 2..at + 2 + width] == padded;
    SliceOfSlice(line, at + 2, width, |cell|);
    assert padded[..|cell|] == cell;
    forall k | at + 2 + |cell| <= k < at + 2 + width ensures line[k] == ' ' {
      assert line[k] == padded[k - at - 2];
    }
    assert close == " |" && close[0] == line[at + 2 + width] && close[1] == line[at + 3 + width];
  }

  lemma CellOfLine(cells: Row, widths: seq<nat>, j: nat)
    requires Fits(cells, widths) && j < |widths|
    ensures Cell(Line(cells, widths), Offset(widths, j, 3), cells[j], widths[j])
  {
    hide Line, Offset, StandsAt, LJust, Cell;
    LineShape(cells, widths, j);
    LineCloses(cells, widths, j);
    CellFrom(Line(cells, widths), Offset(widths, j, 3), cells[j], widths[j]);
  }

  lemma DashesOfRule(widths: seq<nat>, j: nat)
    requires j < |widths|
    ensures Dashed(Rule(widths), Offset(widths, j, 3), widths[j])
  {
    hide Rule, Offset;
    RuleShape(widths, j);
    RuleCloses(widths, j);
    var line, at := Rule(widths), Offset(widths, j, 3);
    assert line[at..at + 1] == "|" && line[at + widths[j] + 3..at + widths[j] + 4] == "|";
    assert line[at] == line[at..at + 1][0];
    assert line[at + widths[j] + 3] == line[at + widths[j] + 3..at + widths[j] + 4][0];
    forall k | at < k < at + widths[j] + 3 ensures line[k] == '-' {
      assert line[k] == line[at + 1..at + widths[j] + 3][k - at - 1];
    }
  }

  /** Every cell of the table between its bars, left-aligned, the dashes under the
      header's, all of one column at the same place. */
  lemma TablePicture(header: Row, rows: seq<Row>, j: nat)
    requires Table(header, rows).Some? && j < |header|
    ensures var lines, widths := Table(header, rows).value, Widths(header, rows);
            var at := Offset(widths, j, 3);
            && Cell(lines[0], at, header[j], widths[j]) && Dashed(lines[1], at, widths[j])
            && forall i :: 0 <= i < |rows| ==> Cell(lines[i + 2], at, rows[i][j], widths[j])
  {
    hide Line, Rule, Cell, Dashed, Offset, Width, Fits;
    var widths, lines := Widths(header, rows), Table(header, rows).value;
    TableRowsFit(header, rows);
    CellOfLine(header, widths, j);
    DashesOfRule(widths, j);
    forall i | 0 <= i < |rows| ensures Cell(lines[i + 2], Offset(widths, j, 3), rows[i][j], widths[j]) {
      CellOfLine(rows[i], widths, j);
      assert lines[i + 2] == Line(rows[i], widths);
    }
  }
}
