/** What a report page conserves: the order of its columns and sections, the tests
    in its cells, the counts of its badges. */
module Report {
  import opened Common

  /** A record of `results.json`, as far as the report reads it. */
  datatype Test = Test(id: string, entries: seq<string>, outcome: string, ok: bool)

  // --- ordering ----------------------------------------------------------------------------------------

  /** What of `s` is in `other`, or what is not. */
  function Keep(s: seq<string>, other: seq<string>, inside: bool): seq<string> {
    if s == [] then []
    else Keep(s[..|s| - 1], other, inside) + if (s[|s| - 1] in other) == inside then [s[|s| - 1]] else []
  }

  /** `found` in the order of `known`, what `known` lacks after it. */
  function InOrder(found: seq<string>, known: seq<string>): seq<string> {
    Keep(known, found, true) + Keep(found, known, false)
  }

  lemma {:induction false} KeepCounts(s: seq<string>, other: seq<string>, inside: bool)
    ensures forall x :: multiset(Keep(s, other, inside))[x] == if (x in other) == inside then multiset(s)[x] else 0
  {
    if s != [] {
      KeepCounts(s[..|s| - 1], other, inside);
      assert s == s[..|s| - 1] + [s[|s| - 1]];
    }
  }

  /** Counted: a known name that was found as often as `known` has it, any other
      as often as it was found. */
  lemma InOrderCounts(found: seq<string>, known: seq<string>)
    ensures forall x :: multiset(InOrder(found, known))[x] ==
              if x in known then (if x in found then multiset(known)[x] else 0) else multiset(found)[x]
  {
    KeepCounts(known, found, true);
    KeepCounts(found, known, false);
    forall x ensures multiset(InOrder(found, known))[x] ==
              if x in known then (if x in found then multiset(known)[x] else 0) else multiset(found)[x]
    {
      if x !in found {
        assert multiset(found)[x] == 0;
      }
    }
  }

  lemma {:induction false} DistinctOnce(s: seq<string>)
    requires Distinct(s)
    ensures forall x :: multiset(s)[x] == if x in s then 1 else 0
  {
    if s != [] {
      DistinctOnce(s[..|s| - 1]);
      assert s == s[..|s| - 1] + [s[|s| - 1]];
    }
  }

  /** Names that come once each are permuted, none lost and none doubled. */
  lemma InOrderPermutes(found: seq<string>, known: seq<string>)
    requires Distinct(found) && Distinct(known)
    ensures multiset(InOrder(found, known)) == multiset(found)
  {
    InOrderCounts(found, known);
    DistinctOnce(found);
    DistinctOnce(known);
  }

  /** `a` comes before `b` in `s`. */
  ghost predicate Before(s: seq<string>, a: string, b: string) {
    exists i, j :: 0 <= i < j < |s| && s[i] == a && s[j] == b
  }

  lemma {:induction false} KeepMembers(s: seq<string>, other: seq<string>, inside: bool)
    ensures forall x :: x in Keep(s, other, inside) <==> x in s && (x in other) == inside
  {
    if s != [] {
      KeepMembers(s[..|s| - 1], other, inside);
      assert s == s[..|s| - 1] + [s[|s| - 1]];
    }
  }

  lemma BeforeConcat(s: seq<string>, t: seq<string>, a: string, b: string)
    requires Before(s, a, b) || Before(t, a, b) || (a in s && b in t)
    ensures Before(s + t, a, b)
  {
    if Before(s, a, b) {
      var i, j :| 0 <= i < j < |s| && s[i] == a && s[j] == b;
      assert (s + t)[i] == a && (s + t)[j] == b;
    } else if Before(t, a, b) {
      var i, j :| 0 <= i < j < |t| && t[i] == a && t[j] == b;
      assert (s + t)[|s| + i] == a && (s + t)[|s| + j] == b;
    } else {
      var i :| 0 <= i < |s| && s[i] == a;
      var j :| 0 <= j < |t| && t[j] == b;
      assert (s + t)[i] == a && (s + t)[|s| + j] == b;
    }
  }

  lemma {:induction false} KeepInOrder(s: seq<string>, other: seq<string>, inside: bool, a: string, b: string)
    requires Before(s, a, b) && (a in other) == inside && (b in other) == inside
    ensures Before(Keep(s, other, inside), a, b)
  {
    var i, j :| 0 <= i < j < |s| && s[i] == a && s[j] == b;
    var init, last := s[..|s| - 1], s[|s| - 1];
    var kept := Keep(init, other, inside);
    if j < |s| - 1 {
      assert init[i] == a && init[j] == b;
      KeepInOrder(init, other, inside, a, b);
      BeforeConcat(kept, if (last in other) == inside then [last] else [], a, b);
    } else {
      KeepMembers(init, other, inside);
      assert init[i] == a;
      BeforeConcat(kept, [b], a, b);
    }
  }

  /** Known names follow `known`, the others come behind them as they were found. */
  lemma InOrderFollows(found: seq<string>, known: seq<string>, a: string, b: string)
    requires a in found && b in found
    requires (Before(known, a, b) && a in known && b in known)
             || (a in known && b !in known)
             || (a !in known && b !in known && Before(found, a, b))
    ensures Before(InOrder(found, known), a, b)
  {
    KeepMembers(known, found, true);
    KeepMembers(found, known, false);
    if b in known {
      KeepInOrder(known, found, true, a, b);
    } else if a !in known {
      KeepInOrder(found, known, false, a, b);
    }
    BeforeConcat(Keep(known, found, true), Keep(found, known, false), a, b);
  }

  // --- the tables of one configuration -------------------------------------------------------------------

  /** A test under its release. */
  datatype Run = Run(release: string, test: Test)

  /** The tests of a configuration, release after release. */
  function Runs(releases: seq<string>, cells: map<string, seq<Test>>): seq<Run> {
    if releases == [] then []
    else
      var last := releases[|releases| - 1];
      Runs(releases[..|releases| - 1], cells) + if last in cells then OfRelease(last, cells[last]) else []
  }

  function OfRelease(release: string, tests: seq<Test>): seq<Run> {
    seq(|tests|, i requires 0 <= i < |tests| => Run(release, tests[i]))
  }

  /** The rows of one test in the table of entries, or its one row in the full table. */
  function RowsOf(test: Test, full: bool): seq<string> {
    if full then [test.id] else test.entries
  }

  /** A run once for every time it belongs in the row. */
  function Times(run: Run, keys: seq<string>, row: string): seq<Test> {
    if keys == [] then []
    else Times(run, keys[..|keys| - 1], row) + if keys[|keys| - 1] == row then [run.test] else []
  }

  /** The tests of one cell, in the order they ran. */
  function CellOf(runs: seq<Run>, full: bool, row: string, release: string): seq<Test> {
    if runs == [] then []
    else
      var last := runs[|runs| - 1];
      CellOf(runs[..|runs| - 1], full, row, release) +
        if last.release == release then Times(last, RowsOf(last.test, full), row) else []
  }

  function AllRows(runs: seq<Run>, full: bool): seq<string> {
    if runs == [] then []
    else AllRows(runs[..|runs| - 1], full) + RowsOf(runs[|runs| - 1].test, full)
  }

  /** The cells of a table, by row and release, its rows in order. */
  datatype Cells = Cells(rows: seq<string>, tests: map<(string, string), seq<Test>>) {

    function Get(row: string, release: string): seq<Test> {
      if (row, release) in tests then tests[(row, release)] else []
    }

    function Append(row: string, release: string, test: Test): Cells {
      Cells(if row in rows then rows else rows + [row], tests[(row, release) := Get(row, release) + [test]])
    }
  }

  ghost predicate CellsOk(cells: Cells, runs: seq<Run>, full: bool) {
    && cells.rows == Dedup(AllRows(runs, full))
    && forall row, release :: cells.Get(row, release) == CellOf(runs, full, row, release)
  }

  /** Between two of a test's rows: `keys` of them are in. */
  ghost predicate CellsMidway(cells: Cells, runs: seq<Run>, full: bool, run: Run, keys: seq<string>) {
    && cells.rows == Dedup(AllRows(runs, full) + keys)
    && forall row, release ::
         cells.Get(row, release) == CellOf(runs, full, row, release) + Put(run, keys, row, release)
  }

  lemma DedupSnoc(s: seq<string>, x: string)
    ensures Dedup(s + [x]) == if x in Dedup(s) then Dedup(s) else Dedup(s) + [x]
  {
    assert (s + [x])[..|s|] == s;
  }

  lemma TimesSnoc(run: Run, keys: seq<string>, key: string, row: string)
    ensures Times(run, keys + [key], row) == Times(run, keys, row) + if key == row then [run.test] else []
  {
    assert (keys + [key])[..|keys|] == keys;
  }

  /** What a run puts in a cell by `keys` of its rows. */
  function Put(run: Run, keys: seq<string>, row: string, release: string): seq<Test> {
    if run.release == release then Times(run, keys, row) else []
  }

  lemma AppendCell(cells: Cells, run: Run, keys: seq<string>, key: string, row: string, release: string,
        old1: seq<Test>)
    requires cells.Get(row, release) == old1 + Put(run, keys, row, release)
    ensures cells.Append(key, run.release, run.test).Get(row, release) == old1 + Put(run, keys + [key], row, release)
  {
    hide Times;
    TimesSnoc(run, keys, key, row);
    var old2 := Put(run, keys, row, release);
    assert old1 + old2 + [run.test] == old1 + (old2 + [run.test]);
    assert old2 + [] == old2;
  }

  lemma AppendNext(cells: Cells, runs: seq<Run>, full: bool, run: Run, keys: seq<string>, key: string)
    requires CellsMidway(cells, runs, full, run, keys)
    ensures CellsMidway(cells.Append(key, run.release, run.test), runs, full, run, keys + [key])
  {
    hide CellOf, Put, Dedup, AllRows, Cells.Get;
    var all := AllRows(runs, full);
    DedupSnoc(all + keys, key);
    assert all + keys + [key] == all + (keys + [key]);
    var more := cells.Append(key, run.release, run.test);
    forall row, release
      ensures more.Get(row, release) == CellOf(runs, full, row, release) + Put(run, keys + [key], row, release)
    {
      AppendCell(cells, run, keys, key, row, release, CellOf(runs, full, row, release));
    }
  }

  lemma CellLast(runs: seq<Run>, full: bool, run: Run, row: string, release: string)
    ensures CellOf(runs + [run], full, row, release) ==
            CellOf(runs, full, row, release) + Put(run, RowsOf(run.test, full), row, release)
  {
    assert (runs + [run])[..|runs|] == runs;
  }

  lemma MidwayStart(cells: Cells, runs: seq<Run>, full: bool, run: Run)
    requires CellsOk(cells, runs, full)
    ensures CellsMidway(cells, runs, full, run, [])
  {
    hide CellOf, Dedup, AllRows, Cells.Get;
    assert AllRows(runs, full) + [] == AllRows(runs, full);
    forall row, release
      ensures cells.Get(row, release) == CellOf(runs, full, row, release) + Put(run, [], row, release)
    {
      assert Put(run, [], row, release) == [];
    }
  }

  lemma MidwayEnd(cells: Cells, runs: seq<Run>, full: bool, run: Run)
    requires CellsMidway(cells, runs, full, run, RowsOf(run.test, full))
    ensures CellsOk(cells, runs + [run], full)
  {
    hide CellOf, Put, Dedup, RowsOf, Cells.Get;
    assert (runs + [run])[..|runs|] == runs;
    forall row, release ensures cells.Get(row, release) == CellOf(runs + [run], full, row, release) {
      CellLast(runs, full, run, row, release);
    }
  }

  /** Puts one run into each of its rows. */
  method AddRun(before: Cells, ghost runs: seq<Run>, full: bool, run: Run) returns (cells: Cells)
    requires CellsOk(before, runs, full)
    ensures CellsOk(cells, runs + [run], full)
  {
    hide CellsOk, CellsMidway;
    MidwayStart(before, runs, full, run);
    cells := before;
    var keys := RowsOf(run.test, full);
    assert keys[..0] == [];
    for k := 0 to |keys|
      invariant CellsMidway(cells, runs, full, run, keys[..k])
    {
      AppendNext(cells, runs, full, run, keys[..k], keys[k]);
      assert keys[..k + 1] == keys[..k] + [keys[k]];
      cells := cells.Append(keys[k], run.release, run.test);
    }
    assert keys[..|keys|] == keys;
    MidwayEnd(cells, runs, full, run);
  }

  lemma NoCells(full: bool)
    ensures CellsOk(Cells([], map[]), [], full)
  {
  }

  /** The cells of the table of entries and of the full table. */
  method Section(releases: seq<string>, cells: map<string, seq<Test>>) returns (entries: Cells, tests: Cells)
    ensures CellsOk(entries, Runs(releases, cells), false)
    ensures CellsOk(tests, Runs(releases, cells), true)
  {
    hide CellsOk;
    NoCells(false);
    NoCells(true);
    entries, tests := Cells([], map[]), Cells([], map[]);
    for i := 0 to |releases|
      invariant CellsOk(entries, Runs(releases[..i], cells), false)
      invariant CellsOk(tests, Runs(releases[..i], cells), true)
    {
      var release := releases[i];
      ghost var before := Runs(releases[..i], cells);
      assert releases[..i + 1][..i] == releases[..i];
      assert before + [] == before;
      if release in cells {
        ghost var all := OfRelease(release, cells[release]);
        assert all[..0] == [];
        for k := 0 to |cells[release]|
          invariant CellsOk(entries, before + all[..k], false)
          invariant CellsOk(tests, before + all[..k], true)
        {
          var run := Run(release, cells[release][k]);
          assert before + all[..k] + [run] == before + all[..k + 1];
          tests := AddRun(tests, before + all[..k], true, run);
          entries := AddRun(entries, before + all[..k], false, run);
        }
        assert all[..|cells[release]|] == all;
      }
    }
    assert releases[..|releases|] == releases;
  }

  // --- order within the tables ------------------------------------------------------------------------------

  /** A cell has the tests of earlier runs ahead of those of later ones. */
  lemma {:induction false} CellConcat(a: seq<Run>, b: seq<Run>, full: bool, row: string, release: string)
    ensures CellOf(a + b, full, row, release) == CellOf(a, full, row, release) + CellOf(b, full, row, release)
    decreases |b|
  {
    hide Times, RowsOf;
    if b == [] {
      assert a + b == a;
    } else {
      assert (a + b)[..|a + b| - 1] == a + b[..|b| - 1];
      CellConcat(a, b[..|b| - 1], full, row, release);
    }
  }

  /** The rows first needed by an earlier run come ahead. */
  lemma {:induction false} AllRowsConcat(a: seq<Run>, b: seq<Run>, full: bool)
    ensures AllRows(a + b, full) == AllRows(a, full) + AllRows(b, full)
    decreases |b|
  {
    hide RowsOf;
    if b == [] {
      assert a + b == a;
    } else {
      assert (a + b)[..|a + b| - 1] == a + b[..|b| - 1];
      AllRowsConcat(a, b[..|b| - 1], full);
    }
  }

  /** The runs come release after release, in each as its results have them. */
  lemma {:induction false} RunsConcat(a: seq<string>, b: seq<string>, cells: map<string, seq<Test>>)
    ensures Runs(a + b, cells) == Runs(a, cells) + Runs(b, cells)
    decreases |b|
  {
    hide OfRelease;
    if b == [] {
      assert a + b == a;
    } else {
      assert (a + b)[..|a + b| - 1] == a + b[..|b| - 1];
      RunsConcat(a, b[..|b| - 1], cells);
    }
  }

  lemma RunsOfOne(release: string, cells: map<string, seq<Test>>, k: nat)
    ensures |Runs([release], cells)| == if release in cells then |cells[release]| else 0
    ensures release in cells && k < |cells[release]| ==> Runs([release], cells)[k] == Run(release, cells[release][k])
  {
    assert [release][..0] == [];
    assert Runs([], cells) == [];
  }

  /** One run is in the cells of its own release, once for every time it names the row. */
  lemma CellOfOne(run: Run, full: bool, row: string, release: string)
    ensures CellOf([run], full, row, release) ==
            if run.release == release then seq(multiset(RowsOf(run.test, full))[row], _ => run.test) else []
  {
    assert [run][..0] == [];
    assert CellOf([], full, row, release) == [];
    if run.release == release {
      TimesAre(run, RowsOf(run.test, full), row);
    }
  }

  lemma {:induction false} TimesAre(run: Run, keys: seq<string>, row: string)
    ensures Times(run, keys, row) == seq(multiset(keys)[row], _ => run.test)
  {
    if keys != [] {
      var n := |keys| - 1;
      TimesAre(run, keys[..n], row);
      assert keys == keys[..n] + [keys[n]];
    }
  }

  // --- every test is in one cell of the full table ----------------------------------------------------------

  /** The tests in the cells of one row, and of all rows. */
  function InRow(runs: seq<Run>, row: string, releases: seq<string>): nat {
    if releases == [] then 0
    else InRow(runs, row, releases[..|releases| - 1]) + |CellOf(runs, true, row, releases[|releases| - 1])|
  }

  function InTable(runs: seq<Run>, rows: seq<string>, releases: seq<string>): nat {
    if rows == [] then 0
    else InTable(runs, rows[..|rows| - 1], releases) + InRow(runs, rows[|rows| - 1], releases)
  }

  lemma CellSnoc(runs: seq<Run>, run: Run, row: string, release: string)
    ensures |CellOf(runs + [run], true, row, release)| ==
            |CellOf(runs, true, row, release)| + if run.test.id == row && run.release == release then 1 else 0
  {
    assert (runs + [run])[..|runs|] == runs;
    assert [run.test.id][..0] == [];
    assert Times(run, [run.test.id], row) == if run.test.id == row then [run.test] else [];
  }

  lemma {:induction false} RowSnoc(runs: seq<Run>, run: Run, row: string, releases: seq<string>)
    requires Distinct(releases)
    ensures InRow(runs + [run], row, releases) ==
            InRow(runs, row, releases) + if run.test.id == row && run.release in releases then 1 else 0
    decreases |releases|
  {
    hide CellOf;
    if releases != [] {
      var n := |releases| - 1;
      RowSnoc(runs, run, row, releases[..n]);
      CellSnoc(runs, run, row, releases[n]);
      assert releases == releases[..n] + [releases[n]];
    }
  }

  lemma {:induction false} TableSnoc(runs: seq<Run>, run: Run, rows: seq<string>, releases: seq<string>)
    requires Distinct(releases) && Distinct(rows)
    ensures InTable(runs + [run], rows, releases) ==
            InTable(runs, rows, releases) + if run.test.id in rows && run.release in releases then 1 else 0
    decreases |rows|
  {
    hide InRow;
    if rows != [] {
      var n := |rows| - 1;
      TableSnoc(runs, run, rows[..n], releases);
      RowSnoc(runs, run, rows[n], releases);
      assert rows == rows[..n] + [rows[n]];
    }
  }

  lemma {:induction false} NoRuns(rows: seq<string>, releases: seq<string>)
    ensures InTable([], rows, releases) == 0
  {
    if rows != [] {
      NoRuns(rows[..|rows| - 1], releases);
      NoRunsInRow(rows[|rows| - 1], releases);
    }
  }

  lemma {:induction false} NoRunsInRow(row: string, releases: seq<string>)
    ensures InRow([], row, releases) == 0
  {
    if releases != [] {
      NoRunsInRow(row, releases[..|releases| - 1]);
    }
  }

  lemma {:induction false} TableCounts(runs: seq<Run>, rows: seq<string>, releases: seq<string>)
    requires Distinct(releases) && Distinct(rows)
    requires forall i :: 0 <= i < |runs| ==> runs[i].release in releases && runs[i].test.id in rows
    ensures InTable(runs, rows, releases) == |runs|
  {
    if runs == [] {
      NoRuns(rows, releases);
    } else {
      var n := |runs| - 1;
      TableCounts(runs[..n], rows, releases);
      TableSnoc(runs[..n], runs[n], rows, releases);
      assert runs == runs[..n] + [runs[n]];
    }
  }

  lemma {:induction false} RunsHaveReleases(releases: seq<string>, cells: map<string, seq<Test>>)
    ensures forall i :: 0 <= i < |Runs(releases, cells)| ==> Runs(releases, cells)[i].release in releases
  {
    if releases != [] {
      RunsHaveReleases(releases[..|releases| - 1], cells);
      assert releases == releases[..|releases| - 1] + [releases[|releases| - 1]];
    }
  }

  lemma {:induction false} RowsHaveIds(runs: seq<Run>)
    ensures forall i :: 0 <= i < |runs| ==> runs[i].test.id in AllRows(runs, true)
  {
    if runs != [] {
      RowsHaveIds(runs[..|runs| - 1]);
    }
  }

  lemma {:induction false} TimesCount(run: Run, keys: seq<string>, row: string, t: Test)
    ensures multiset(Times(run, keys, row))[t] == if run.test == t then multiset(keys)[row] else 0
  {
    if keys != [] {
      var n := |keys| - 1;
      TimesCount(run, keys[..n], row, t);
      assert keys == keys[..n] + [keys[n]];
    }
  }

  lemma OneMore(a: int, b: int)
    ensures (a + 1) * b == a * b + b
  {
  }

  lemma SnocCount<T>(init: seq<T>, last: T, x: T)
    ensures multiset(init + [last])[x] == multiset(init)[x] + if last == x then 1 else 0
  {
  }

  lemma CellLastCount(init: seq<Run>, last: Run, full: bool, row: string, release: string, t: Test)
    ensures multiset(CellOf(init + [last], full, row, release))[t] ==
            multiset(CellOf(init, full, row, release))[t] +
              if last == Run(release, t) then multiset(RowsOf(t, full))[row] else 0
  {
    hide CellOf, RowsOf, Times;
    CellLast(init, full, last, row, release);
    TimesCount(last, RowsOf(last.test, full), row, t);
    var cell, more := CellOf(init, full, row, release), Put(last, RowsOf(last.test, full), row, release);
    assert multiset(cell + more) == multiset(cell) + multiset(more);
  }

  /** A cell has a test once for every run of it under the cell's release and every
      time the test names the cell's row. */
  lemma {:induction false} CellCounts(runs: seq<Run>, full: bool, row: string, release: string, t: Test)
    ensures multiset(CellOf(runs, full, row, release))[t] ==
            multiset(runs)[Run(release, t)] * multiset(RowsOf(t, full))[row]
  {
    if runs != [] {
      hide CellOf, RowsOf;
      var init, last := runs[..|runs| - 1], runs[|runs| - 1];
      CellCounts(init, full, row, release, t);
      assert runs == init + [last];
      CellLastCount(init, last, full, row, release, t);
      SnocCount(init, last, Run(release, t));
      var n, k := multiset(init)[Run(release, t)], multiset(RowsOf(t, full))[row];
      if last == Run(release, t) {
        assert multiset(runs)[last] == n + 1;
        OneMore(n, k);
      } else {
        assert multiset(runs)[Run(release, t)] == n;
      }
    }
  }

  lemma {:induction false} OfReleaseCounts(release: string, tests: seq<Test>, run: Run)
    ensures multiset(OfRelease(release, tests))[run] == if run.release == release then multiset(tests)[run.test] else 0
  {
    if tests != [] {
      var n := |tests| - 1;
      OfReleaseCounts(release, tests[..n], run);
      assert tests == tests[..n] + [tests[n]];
      assert OfRelease(release, tests) == OfRelease(release, tests[..n]) + [Run(release, tests[n])];
    }
  }

  /** How often a release's results have a test. */
  function Given(cells: map<string, seq<Test>>, release: string, t: Test): nat {
    if release in cells then multiset(cells[release])[t] else 0
  }

  lemma {:induction false} RunsCount(releases: seq<string>, cells: map<string, seq<Test>>, run: Run)
    requires Distinct(releases)
    ensures multiset(Runs(releases, cells))[run] ==
            if run.release in releases then Given(cells, run.release, run.test) else 0
  {
    hide OfRelease;
    if releases != [] {
      var n := |releases| - 1;
      RunsCount(releases[..n], cells, run);
      assert releases == releases[..n] + [releases[n]];
      if releases[n] in cells {
        OfReleaseCounts(releases[n], cells[releases[n]], run);
      }
    }
  }

  /** Either table: a cell has each test as often as the release's results have it,
      times the test's own namings of the row. */
  lemma CellsHoldTheResults(releases: seq<string>, cells: map<string, seq<Test>>, table: Cells, full: bool,
        row: string, release: string, t: Test)
    requires Distinct(releases) && release in releases && CellsOk(table, Runs(releases, cells), full)
    ensures multiset(table.Get(row, release))[t] == Given(cells, release, t) * multiset(RowsOf(t, full))[row]
  {
    hide CellOf, Runs, RowsOf, Given, Cells.Get;
    CellCounts(Runs(releases, cells), full, row, release, t);
    RunsCount(releases, cells, Run(release, t));
  }

  /** The full table: each record of a release's results stands in the cell of its
      id and its release, as often as it is there, and in no other; all cells
      together have as many as there are. */
  lemma FullTableHoldsEveryTest(releases: seq<string>, cells: map<string, seq<Test>>, full: Cells)
    requires Distinct(releases) && CellsOk(full, Runs(releases, cells), true)
    ensures forall row, release, t :: release in releases ==>
              multiset(full.Get(row, release))[t] == if t.id == row then Given(cells, release, t) else 0
    ensures forall release, t :: release in releases && Given(cells, release, t) > 0 ==> t.id in full.rows
    ensures InTable(Runs(releases, cells), full.rows, releases) == |Runs(releases, cells)|
  {
    hide CellOf, Dedup, AllRows, Runs, Given, Cells.Get;
    var runs := Runs(releases, cells);
    RunsHaveReleases(releases, cells);
    RowsHaveIds(runs);
    DedupMembers(AllRows(runs, true));
    TableCounts(runs, full.rows, releases);
    forall row, release, t | release in releases
      ensures multiset(full.Get(row, release))[t] == if t.id == row then Given(cells, release, t) else 0
    {
      CellsHoldTheResults(releases, cells, full, true, row, release, t);
      IdIsItsOneRow(t, row);
    }
    forall release, t | release in releases && Given(cells, release, t) > 0 ensures t.id in full.rows {
      RunsCount(releases, cells, Run(release, t));
      assert Run(release, t) in multiset(runs);
    }
  }

  lemma IdIsItsOneRow(t: Test, row: string)
    ensures multiset(RowsOf(t, true))[row] == if t.id == row then 1 else 0
  {
  }

  // --- a cell's mark ------------------------------------------------------------------------------------------

  datatype Mark = Pass | Fail | Nothing

  function MarkOf(tests: seq<Test>): Mark {
    if exists i :: 0 <= i < |tests| && tests[i].outcome in ["failed", "xfailed"] then Fail
    else if exists i :: 0 <= i < |tests| && tests[i].outcome in ["passed", "xpassed"] then Pass
    else Nothing
  }

  /** The mark of one test says what its boot did, whatever was expected of it. */
  lemma MarkOfOne(t: Test)
    ensures MarkOf([]) == Nothing
    ensures t.outcome == "failed" || t.outcome == "xfailed" ==> MarkOf([t]) == Fail
    ensures t.outcome == "passed" || t.outcome == "xpassed" ==> MarkOf([t]) == Pass
    ensures t.outcome == "skipped" ==> MarkOf([t]) == Nothing
  {
    assert [t][0] == t;
  }

  /** A mark is the worst of its parts' marks, however a cell is divided. */
  lemma MarkIsTheWorst(a: seq<Test>, b: seq<Test>)
    ensures MarkOf(a + b) == if MarkOf(a).Fail? || MarkOf(b).Fail? then Fail
                             else if MarkOf(a).Pass? || MarkOf(b).Pass? then Pass
                             else Nothing
  {
    var all := a + b;
    assert forall i :: 0 <= i < |a| ==> all[i] == a[i];
    assert forall i :: 0 <= i < |b| ==> all[|a| + i] == b[i];
    assert forall i :: 0 <= i < |all| ==> all[i] == if i < |a| then a[i] else b[i - |a|];
  }
}
