/** The two tables of a configuration's section, as they are printed. */
module ReportSection {
  import opened Common
  import opened Text
  import opened Report
  import opened ReportBadge
  import opened ReportTable
  import opened Sorted

  /** The cells of both tables and the lines printed of them. */
  datatype Tables = Tables(entryCells: Cells, testCells: Cells, entries: seq<string>, tests: seq<string>)

  function Code(text: string): string {
    "`" + text + "`"
  }

  function MarkText(mark: Mark): string {
    match mark
    case Pass => "\U{2705}"
    case Fail => "\U{274C}"
    case Nothing => "-"
  }

  /** The outcomes of a full-table cell, each once. */
  function OutcomeText(tests: seq<Test>): string {
    var outcomes := SortedSet(Outcomes(tests));
    if outcomes == [] then "-" else Join(", ", outcomes)
  }

  function EntryRow(cells: Cells, releases: seq<string>, entry: string): (row: Row)
    ensures |row| == |releases| + 1
  {
    [Code(entry)] +
    seq(|releases|, j requires 0 <= j < |releases| => MarkText(MarkOf(cells.Get(entry, releases[j]))))
  }

  function TestRow(cells: Cells, releases: seq<string>, id: string): (row: Row)
    ensures |row| == |releases| + 1
  {
    [Code(id)] + seq(|releases|, j requires 0 <= j < |releases| => OutcomeText(cells.Get(id, releases[j])))
  }

  /** The rows of the table of entries, those the results list first. */
  function EntryRows(cells: Cells, order: seq<string>, releases: seq<string>): seq<Row> {
    var names := InOrder(cells.rows, order);
    seq(|names|, i requires 0 <= i < |names| => EntryRow(cells, releases, names[i]))
  }

  function TestRows(cells: Cells, releases: seq<string>): seq<Row> {
    seq(|cells.rows|, i requires 0 <= i < |cells.rows| => TestRow(cells, releases, cells.rows[i]))
  }

  /** What the results of the releases list, one release after the other. */
  function AllListed(releases: seq<string>, listed: map<string, seq<string>>): seq<string> {
    if releases == [] then []
    else
      var last := releases[|releases| - 1];
      AllListed(releases[..|releases| - 1], listed) + if last in listed then listed[last] else []
  }

  lemma NothingListed(listed: map<string, seq<string>>)
    ensures Dedup(AllListed([], listed)) == []
  {
  }

  lemma ListedNext(releases: seq<string>, listed: map<string, seq<string>>, i: nat)
    requires i < |releases|
    ensures AllListed(releases[..i + 1], listed) ==
            AllListed(releases[..i], listed) + if releases[i] in listed then listed[releases[i]] else []
  {
    assert releases[..i + 1][..i] == releases[..i];
  }

  method EntryOrder(releases: seq<string>, listed: map<string, seq<string>>) returns (order: seq<string>)
    ensures order == Dedup(AllListed(releases, listed))
  {
    hide Dedup, AllListed;
    NothingListed(listed);
    order := [];
    assert releases[..0] == [];
    for i := 0 to |releases|
      invariant order == Dedup(AllListed(releases[..i], listed))
    {
      ListedNext(releases, listed, i);
      ghost var before := AllListed(releases[..i], listed);
      assert before + [] == before;
      if releases[i] in listed {
        var entries := listed[releases[i]];
        for k := 0 to |entries|
          invariant order == Dedup(before + entries[..k])
        {
          assert before + entries[..k + 1] == before + entries[..k] + [entries[k]];
          DedupSnoc(before + entries[..k], entries[k]);
          if entries[k] !in order {
            order := order + [entries[k]];
          }
        }
        assert entries[..|entries|] == entries;
      }
    }
    assert releases[..|releases|] == releases;
  }

  ghost predicate TablesOk(t: Tables, releases: seq<string>, cells: map<string, seq<Test>>,
        listed: map<string, seq<string>>) {
    && CellsOk(t.entryCells, Runs(releases, cells), false)
    && CellsOk(t.testCells, Runs(releases, cells), true)
    && Table(["Entry"] + releases, EntryRows(t.entryCells, Dedup(AllListed(releases, listed)), releases))
       == Some(t.entries)
    && Table(["Test"] + releases, TestRows(t.testCells, releases)) == Some(t.tests)
  }

  method TablesOf(releases: seq<string>, cells: map<string, seq<Test>>, listed: map<string, seq<string>>)
    returns (t: Tables)
    ensures TablesOk(t, releases, cells, listed)
  {
    hide CellsOk, EntryRow, TestRow, Dedup, InOrder, Line;
    var order := EntryOrder(releases, listed);
    var entryCells, testCells := Section(releases, cells);
    var entries := Table(["Entry"] + releases, EntryRows(entryCells, order, releases));
    var tests := Table(["Test"] + releases, TestRows(testCells, releases));
    t := Tables(entryCells, testCells, entries.value, tests.value);
  }

  /** A full-table cell's text: its outcomes once each in ascending order, a dash
      where nothing ran. */
  lemma OutcomeTextMeans(tests: seq<Test>)
    ensures tests == [] ==> OutcomeText(tests) == "-"
    ensures tests != [] ==>
              exists names :: Ascending(names) && Distinct(names) && OutcomeText(tests) == Join(", ", names)
                && forall o :: o in names <==> exists t :: t in tests && t.outcome == o
  {
    hide Ascending, SortedSet, Join;
    var names := SortedSet(Outcomes(tests));
    SortedSetAscends(Outcomes(tests));
    SortedSetOnce(Outcomes(tests));
    forall o ensures o in names <==> exists t :: t in tests && t.outcome == o {
      assert o in names <==> multiset(names)[o] > 0;
      if t :| t in tests && t.outcome == o {
        var i :| 0 <= i < |tests| && tests[i] == t;
        assert Outcomes(tests)[i] == o;
      }
      if o in Outcomes(tests) {
        var i :| 0 <= i < |tests| && Outcomes(tests)[i] == o;
        assert tests[i] in tests;
      }
    }
    if tests == [] {
      assert Outcomes(tests) == [] && SortedSet([]) == [] by { NothingSorted(); }
    } else {
      assert tests[0] in tests && tests[0].outcome in names;
    }
  }

  lemma NothingSorted()
    ensures SortedSet([]) == []
  {
  }

  /** An entry's cell: a cross where a test of it failed, else a check where one
      passed, expected or not, a dash where none did either. */
  lemma MarkTextMeans(tests: seq<Test>)
    ensures var failed := exists t :: t in tests && (t.outcome == "failed" || t.outcome == "xfailed");
            var passed := exists t :: t in tests && (t.outcome == "passed" || t.outcome == "xpassed");
            MarkText(MarkOf(tests)) == if failed then "\U{274C}" else if passed then "\U{2705}" else "-"
  {
    forall t | t in tests
      ensures t.outcome == "failed" || t.outcome == "xfailed" ==> MarkOf(tests) == Fail
      ensures t.outcome == "passed" || t.outcome == "xpassed" ==> MarkOf(tests) != Nothing
    {
      var i :| 0 <= i < |tests| && tests[i] == t;
    }
    if MarkOf(tests) == Fail {
      var i :| 0 <= i < |tests| && tests[i].outcome in ["failed", "xfailed"];
      assert tests[i] in tests;
    } else if MarkOf(tests) == Pass {
      var i :| 0 <= i < |tests| && tests[i].outcome in ["passed", "xpassed"];
      assert tests[i] in tests;
    }
  }

  /** In the printed full table, row `k` has its test's id under the first heading
      and the outcomes of its cell of release `j` under that release. */
  lemma OutcomesStandUnderTheirRelease(t: Tables, releases: seq<string>, cells: map<string, seq<Test>>,
        listed: map<string, seq<string>>, k: nat, j: nat)
    requires TablesOk(t, releases, cells, listed)
    requires k < |t.testCells.rows| && j < |releases|
    ensures |t.tests| == |t.testCells.rows| + 2
    ensures var id, widths := t.testCells.rows[k], Widths(["Test"] + releases, TestRows(t.testCells, releases));
            && Cell(t.tests[0], 0, "Test", widths[0]) && Cell(t.tests[k + 2], 0, "`" + id + "`", widths[0])
            && Cell(t.tests[0], Offset(widths, j + 1, 3), releases[j], widths[j + 1])
            && Cell(t.tests[k + 2], Offset(widths, j + 1, 3), OutcomeText(t.testCells.Get(id, releases[j])),
                    widths[j + 1])
  {
    hide CellsOk, Cell, Dashed, Offset, Width, Line, OutcomeText, Cells.Get, EntryRows, Rule;
    var header, rows := ["Test"] + releases, TestRows(t.testCells, releases);
    TablePicture(header, rows, 0);
    TablePicture(header, rows, j + 1);
    StartsAtZero(Widths(header, rows));
    assert rows[k] == TestRow(t.testCells, releases, t.testCells.rows[k]);
  }

  /** And in the table of entries the marks, entries in the order the results list them. */
  lemma MarksStandUnderTheirRelease(t: Tables, releases: seq<string>, cells: map<string, seq<Test>>,
        listed: map<string, seq<string>>, k: nat, j: nat)
    requires TablesOk(t, releases, cells, listed)
    requires k < |InOrder(t.entryCells.rows, Dedup(AllListed(releases, listed)))| && j < |releases|
    ensures |t.entries| == |InOrder(t.entryCells.rows, Dedup(AllListed(releases, listed)))| + 2
    ensures var order := Dedup(AllListed(releases, listed));
            var entry := InOrder(t.entryCells.rows, order)[k];
            var widths := Widths(["Entry"] + releases, EntryRows(t.entryCells, order, releases));
            && Cell(t.entries[0], 0, "Entry", widths[0]) && Cell(t.entries[k + 2], 0, "`" + entry + "`", widths[0])
            && Cell(t.entries[0], Offset(widths, j + 1, 3), releases[j], widths[j + 1])
            && Cell(t.entries[k + 2], Offset(widths, j + 1, 3), MarkText(MarkOf(t.entryCells.Get(entry, releases[j]))),
                    widths[j + 1])
  {
    hide CellsOk, Cell, Dashed, Offset, Width, Line, MarkText, MarkOf, Cells.Get, TestRows, Rule, InOrder, Dedup;
    var order := Dedup(AllListed(releases, listed));
    var header, rows := ["Entry"] + releases, EntryRows(t.entryCells, order, releases);
    TablePicture(header, rows, 0);
    TablePicture(header, rows, j + 1);
    StartsAtZero(Widths(header, rows));
    assert rows[k] == EntryRow(t.entryCells, releases, InOrder(t.entryCells.rows, order)[k]);
  }

  /** What an earlier release's results list comes ahead. */
  lemma {:induction false} AllListedConcat(a: seq<string>, b: seq<string>, listed: map<string, seq<string>>)
    ensures AllListed(a + b, listed) == AllListed(a, listed) + AllListed(b, listed)
    decreases |b|
  {
    if b == [] {
      assert a + b == a;
    } else {
      assert (a + b)[..|a + b| - 1] == a + b[..|b| - 1];
      AllListedConcat(a, b[..|b| - 1], listed);
    }
  }

  lemma AllListedOfOne(release: string, listed: map<string, seq<string>>)
    ensures AllListed([release], listed) == if release in listed then listed[release] else []
  {
    assert [release][..0] == [];
    assert AllListed([], listed) == [];
  }
}
