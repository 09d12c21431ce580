/** The session's two summaries of its reports: one record and one collapsed
    outcome per test, however the phases of different tests interleave. */
module Outcomes {
  import opened Common
  import opened Text

  datatype Phase = Passed | Failed | Skipped

  /** What pytest reports of one phase of one test; `wasxfail` is its expectation's
      reason. */
  datatype Report = Report(nodeid: string, outcome: Phase, wasxfail: Option<string>, text: string, duration: int)

  datatype Kind = KPassed | KFailed | KSkipped | KXFailed | KXPassed

  datatype Record = Record(
    id: string, file: string, entries: seq<string>,
    outcome: Kind, ok: bool, reason: Option<string>, duration: int)

  const XPASS_STRICT: string := "[XPASS(strict)]"

  /** `nodeid.split("::", 1)[0]` */
  function FileOf(nodeid: string): string {
    if nodeid == [] || "::" <= nodeid then [] else [nodeid[0]] + FileOf(nodeid[1..])
  }

  function Blank(id: string, entries: seq<string>): Record {
    Record(id, FileOf(id), entries, KPassed, true, None, 0)
  }

  /** The id up to its first double colon, or all of it without one. */
  lemma {:induction false} FileIsBeforeColons(nodeid: string)
    ensures FileOf(nodeid) <= nodeid
    ensures forall i :: 0 <= i < |FileOf(nodeid)| ==> !("::" <= nodeid[i..])
    ensures FileOf(nodeid) == nodeid || "::" <= nodeid[|FileOf(nodeid)|..]
  {
    if nodeid != [] && !("::" <= nodeid) {
      var rest := nodeid[1..];
      FileIsBeforeColons(rest);
      forall i | 0 <= i < |FileOf(nodeid)| ensures !("::" <= nodeid[i..]) {
        if i > 0 {
          assert nodeid[i..] == rest[i - 1..];
        }
      }
      assert nodeid[|FileOf(nodeid)|..] == rest[|FileOf(rest)|..];
    }
  }

  // --- one test's own reports ----------------------------------------------------------------------

  /** What one more report of its test makes of a record. */
  function Grow(record: Record, report: Report): Record {
    var r := record.(duration := record.duration + report.duration);
    match report.outcome
    case Failed =>
      if XPASS_STRICT <= report.text
      then r.(ok := false, outcome := KXPassed, reason := Some(Strip(report.text[|XPASS_STRICT|..])))
      else r.(ok := false, outcome := KFailed)
    case Skipped =>
      if report.wasxfail.Some? then r.(outcome := KXFailed, reason := report.wasxfail)
      else if r.outcome.KPassed? then r.(outcome := KSkipped)
      else r
    case Passed =>
      if report.wasxfail.Some? && r.ok then r.(outcome := KXPassed, reason := report.wasxfail) else r
  }

  function Fold(record: Record, own: seq<Report>): Record {
    if own == [] then record else Grow(Fold(record, own[..|own| - 1]), own[|own| - 1])
  }

  datatype Collapsed = Collapsed(outcome: Phase, duration: int)

  function Collapse(own: seq<Report>): Collapsed {
    if own == [] then Collapsed(Passed, 0)
    else
      var before, last := Collapse(own[..|own| - 1]), own[|own| - 1];
      Collapsed(if last.outcome.Passed? then before.outcome else last.outcome, before.duration + last.duration)
  }

  // --- all tests -------------------------------------------------------------------------------------

  function Ids(reports: seq<Report>): seq<string> {
    seq(|reports|, i requires 0 <= i < |reports| => reports[i].nodeid)
  }

  /** The reports of one test, in order. */
  function Own(reports: seq<Report>, id: string): seq<Report> {
    if reports == [] then []
    else
      Own(reports[..|reports| - 1], id) +
        if reports[|reports| - 1].nodeid == id then [reports[|reports| - 1]] else []
  }

  lemma {:induction false} OwnNone(reports: seq<Report>, id: string)
    requires id !in Ids(reports)
    ensures Own(reports, id) == []
  {
    if reports != [] {
      var init := reports[..|reports| - 1];
      assert Ids(reports) == Ids(init) + [reports[|reports| - 1].nodeid];
      OwnNone(init, id);
    }
  }

  /** The part of the session that reports go into and summaries come out of. */
  class ReportLog {
    var reports: seq<Report>

    /** The boots each collected test takes. */
    var entries: map<string, seq<string>>

    constructor ()
      ensures reports == [] && entries == map[]
    {
      reports, entries := [], map[];
    }

    method LogReport(report: Report)
      modifies `reports
      ensures reports == old(reports) + [report]
    {
      reports := reports + [report];
    }

    /** Each test's record, in the order of the tests' first reports, is the fold
        of that test's own reports. */
    method Records() returns (records: Dict<string, Record>)
      ensures RecordsOk(records, entries, reports)
    {
      hide RecordsOk, Grow;
      NothingYet(reports, entries);
      records := EmptyDict();
      for i := 0 to |reports|
        invariant RecordsOk(records, entries, reports[..i])
      {
        var report := reports[i];
        ghost var before := records;
        var id := report.nodeid;
        var record := if id in records.vals then records.vals[id] else Blank(id, EntriesOf(entries, id));
        record := Update(record, report);
        records := records.Put(id, record);
        RecordsNext(before, entries, reports, i);
      }
      assert reports[..|reports|] == reports;
    }

    /** Each test's worst word and its phases' durations together. */
    method OutcomePerTest() returns (collapsed: Dict<string, Collapsed>)
      ensures CollapsedOk(collapsed, reports)
    {
      hide CollapsedOk;
      NothingYet(reports, map[]);
      collapsed := EmptyDict();
      for i := 0 to |reports|
        invariant CollapsedOk(collapsed, reports[..i])
      {
        var report := reports[i];
        ghost var before := collapsed;
        var id := report.nodeid;
        var c := if id in collapsed.vals then collapsed.vals[id] else Collapsed(Passed, 0);
        var outcome := c.outcome;
        if report.outcome != Passed {
          outcome := report.outcome;
        }
        collapsed := collapsed.Put(id, Collapsed(outcome, c.duration + report.duration));
        CollapsedNext(before, reports, i);
      }
      assert reports[..|reports|] == reports;
    }

    /** The branches one report takes through its record. */
    static method Update(before: Record, report: Report) returns (record: Record)
      ensures record == Grow(before, report)
    {
      record := before.(duration := before.duration + report.duration);
      var reason := report.wasxfail;
      var text := report.text;
      if report.outcome.Failed? {
        record := record.(ok := false);
        if XPASS_STRICT <= text {
          record := record.(outcome := KXPassed, reason := Some(Strip(text[|XPASS_STRICT|..])));
        } else {
          record := record.(outcome := KFailed);
        }
      } else if report.outcome.Skipped? && reason != None {
        record := record.(outcome := KXFailed, reason := reason);
      } else if report.outcome.Skipped? && record.outcome.KPassed? {
        record := record.(outcome := KSkipped);
      } else if report.outcome.Passed? && reason != None && record.ok {
        record := record.(outcome := KXPassed, reason := reason);
      }
    }
  }

  function EntriesOf(entries: map<string, seq<string>>, id: string): seq<string> {
    if id in entries then entries[id] else []
  }

  ghost predicate RecordsOk(records: Dict<string, Record>, entries: map<string, seq<string>>, reports: seq<Report>) {
    && records.keys == Dedup(Ids(reports))
    && (forall id :: id in records.vals <==> id in records.keys)
    && forall id :: id in records.vals ==>
         records.vals[id] == Fold(Blank(id, EntriesOf(entries, id)), Own(reports, id))
  }

  ghost predicate CollapsedOk(collapsed: Dict<string, Collapsed>, reports: seq<Report>) {
    && collapsed.keys == Dedup(Ids(reports))
    && (forall id :: id in collapsed.vals <==> id in collapsed.keys)
    && forall id :: id in collapsed.vals ==> collapsed.vals[id] == Collapse(Own(reports, id))
  }

  /** What report `i` does to the tests seen and to each test's own reports. */
  lemma ReportNext(reports: seq<Report>, i: nat)
    requires i < |reports|
    ensures var id, seen := reports[i].nodeid, Dedup(Ids(reports[..i]));
            Dedup(Ids(reports[..i + 1])) == (if id in seen then seen else seen + [id])
    ensures forall id :: Own(reports[..i + 1], id) ==
                         Own(reports[..i], id) + if id == reports[i].nodeid then [reports[i]] else []
    ensures reports[i].nodeid !in Dedup(Ids(reports[..i])) ==> Own(reports[..i], reports[i].nodeid) == []
  {
    assert reports[..i + 1][..i] == reports[..i];
    assert Ids(reports[..i + 1])[..i] == Ids(reports[..i]);
    DedupMembers(Ids(reports[..i]));
    if reports[i].nodeid !in Ids(reports[..i]) {
      OwnNone(reports[..i], reports[i].nodeid);
    }
  }

  lemma FoldSnoc(blank: Record, own: seq<Report>, report: Report)
    ensures Fold(blank, own + [report]) == Grow(Fold(blank, own), report)
  {
    assert (own + [report])[..|own|] == own;
  }

  lemma CollapseSnoc(own: seq<Report>, report: Report)
    ensures Collapse(own + [report]) ==
            Collapsed(if report.outcome.Passed? then Collapse(own).outcome else report.outcome,
                      Collapse(own).duration + report.duration)
  {
    assert (own + [report])[..|own|] == own;
  }

  lemma RecordsNext(records: Dict<string, Record>, entries: map<string, seq<string>>, reports: seq<Report>, i: nat)
    requires i < |reports| && RecordsOk(records, entries, reports[..i])
    ensures var report := reports[i];
            var id := report.nodeid;
            var record := if id in records.vals then records.vals[id] else Blank(id, EntriesOf(entries, id));
            RecordsOk(records.Put(id, Grow(record, report)), entries, reports[..i + 1])
  {
    hide Own, Fold, Grow, Dedup, Ids, Blank, EntriesOf;
    ReportNext(reports, i);
    var id := reports[i].nodeid;
    var blank := Blank(id, EntriesOf(entries, id));
    NoReports(blank);
    FoldSnoc(blank, Own(reports[..i], id), reports[i]);
    forall other | other in records.vals &&
              other != id ensures Own(reports[..i + 1], other) == Own(reports[..i], other) {
      assert Own(reports[..i], other) + [] == Own(reports[..i], other);
    }
  }

  lemma CollapsedNext(collapsed: Dict<string, Collapsed>, reports: seq<Report>, i: nat)
    requires i < |reports| && CollapsedOk(collapsed, reports[..i])
    ensures var report := reports[i];
            var id := report.nodeid;
            var c := if id in collapsed.vals then collapsed.vals[id] else Collapsed(Passed, 0);
            var next := Collapsed(if report.outcome.Passed? then c.outcome else report.outcome,
                c.duration + report.duration);
            CollapsedOk(collapsed.Put(id, next), reports[..i + 1])
  {
    hide Own, Dedup, Ids;
    ReportNext(reports, i);
    var id := reports[i].nodeid;
    CollapseSnoc(Own(reports[..i], id), reports[i]);
    forall other | other in collapsed.vals &&
              other != id ensures Own(reports[..i + 1], other) == Own(reports[..i], other) {
      assert Own(reports[..i], other) + [] == Own(reports[..i], other);
    }
  }

  lemma NothingYet(reports: seq<Report>, entries: map<string, seq<string>>)
    ensures RecordsOk(EmptyDict(), entries, reports[..0]) && CollapsedOk(EmptyDict(), reports[..0])
  {
    assert Ids(reports[..0]) == [];
  }

  lemma NoReports(blank: Record)
    ensures Fold(blank, []) == blank
  {
  }

  /** Both summaries tell of the same tests in the same order. */
  lemma SameTests(records: Dict<string, Record>, entries: map<string, seq<string>>,
                  collapsed: Dict<string, Collapsed>, reports: seq<Report>)
    requires RecordsOk(records, entries, reports) && CollapsedOk(collapsed, reports)
    ensures records.keys == collapsed.keys && Distinct(records.keys)
    ensures forall id :: id in records.keys <==> id in Ids(reports)
    ensures forall id :: id in records.keys ==>
              && id in records.vals && id in collapsed.vals
              && records.vals[id].duration == collapsed.vals[id].duration == Durations(Own(reports, id))
              && records.vals[id].id == id && records.vals[id].file == FileOf(id)
              && records.vals[id].entries == (if id in entries then entries[id] else [])
              && (records.vals[id].ok <==> !AnyFailed(Own(reports, id)))
              && (collapsed.vals[id].outcome.Failed? <==> FailedLast(Own(reports, id)))
  {
    hide Own, Fold, Collapse, Durations, FileOf, Dedup, AnyFailed, FailedLast;
    DedupMembers(Ids(reports));
    forall id | id in records.keys
      ensures records.vals[id].duration == collapsed.vals[id].duration == Durations(Own(reports, id))
      ensures records.vals[id].id == id && records.vals[id].file == FileOf(id)
      ensures records.vals[id].entries == EntriesOf(entries, id)
      ensures records.vals[id].ok <==> !AnyFailed(Own(reports, id))
      ensures collapsed.vals[id].outcome.Failed? <==> FailedLast(Own(reports, id))
    {
      RecordMeans(Blank(id, EntriesOf(entries, id)), Own(reports, id));
      CollapsedIff(Own(reports, id));
      DurationIsTheSum(Own(reports, id));
    }
  }

  // --- what a record says of its test ----------------------------------------------------------------

  predicate AnyFailed(own: seq<Report>) {
    exists i :: 0 <= i < |own| && own[i].outcome.Failed?
  }

  /** `ok` is false exactly when a phase failed; a passed or skipped test is ok, a
      failed one is not, and both x outcomes carry a reason. */
  lemma {:induction false} RecordMeans(blank: Record, own: seq<Report>)
    requires blank.ok && blank.outcome.KPassed?
    ensures var r := Fold(blank, own);
            && (r.ok <==> !AnyFailed(own))
            && (r.outcome.KPassed? || r.outcome.KSkipped? ==> r.ok)
            && (r.outcome.KFailed? ==> !r.ok)
            && (r.outcome.KXFailed? || r.outcome.KXPassed? ==> r.reason.Some?)
            && r.id == blank.id && r.file == blank.file && r.entries == blank.entries
            && r.duration - blank.duration == Collapse(own).duration
  {
    if own != [] {
      var n := |own| - 1;
      RecordMeans(blank, own[..n]);
      assert AnyFailed(own) <==> AnyFailed(own[..n]) || own[n].outcome.Failed? by {
        assert own == own[..n] + [own[n]];
      }
    }
  }

  // --- which phases give which outcome ---------------------------------------------------------------

  /** Phase `i` is a failure, an expected one, or an unexpected pass of a test that
      has not failed: what it says of the test stands until another of these. */
  predicate Decides(own: seq<Report>, i: nat)
    requires i < |own|
  {
    || own[i].outcome.Failed?
    || (own[i].wasxfail.Some? && (own[i].outcome.Skipped? || forall j :: 0 <= j < i ==> !own[j].outcome.Failed?))
  }

  predicate Strict(report: Report) {
    "[XPASS(strict)]" <= report.text
  }

  /** Every failure but a strict pass leaves the reason alone. */
  predicate GivesReason(own: seq<Report>, i: nat)
    requires i < |own|
  {
    Decides(own, i) && (own[i].outcome.Failed? ==> Strict(own[i]))
  }

  function Says(report: Report): Kind {
    match report.outcome
    case Failed => if Strict(report) then KXPassed else KFailed
    case Skipped => KXFailed
    case Passed => KXPassed
  }

  function ReasonOf(report: Report): Option<string> {
    if report.outcome.Failed? && Strict(report) then Some(Strip(report.text[15..])) else report.wasxfail
  }

  ghost predicate LastDeciding(own: seq<Report>, i: nat) {
    i < |own| && Decides(own, i) && forall j :: i < j < |own| ==> !Decides(own, j)
  }

  ghost predicate LastReason(own: seq<Report>, i: nat) {
    i < |own| && GivesReason(own, i) && forall j :: i < j < |own| ==> !GivesReason(own, j)
  }

  lemma DecidesBefore(own: seq<Report>, i: nat)
    requires i + 1 < |own|
    ensures Decides(own[..|own| - 1], i) <==> Decides(own, i)
    ensures GivesReason(own[..|own| - 1], i) <==> GivesReason(own, i)
  {
    var init := own[..|own| - 1];
    assert forall j :: 0 <= j <= i ==> init[j] == own[j];
  }

  lemma FailedBefore(own: seq<Report>)
    requires own != []
    ensures AnyFailed(own[..|own| - 1]) <==> exists j :: 0 <= j < |own| - 1 && own[j].outcome.Failed?
  {
    var init := own[..|own| - 1];
    if j :| 0 <= j < |own| - 1 && own[j].outcome.Failed? {
      assert init[j].outcome.Failed?;
    }
  }

  /** With nothing decided a test passed, or it was skipped if a phase of it was. */
  lemma {:induction false} UndecidedOutcome(blank: Record, own: seq<Report>)
    requires blank.ok && blank.outcome.KPassed? && blank.reason == None
    requires forall i :: 0 <= i < |own| ==> !Decides(own, i)
    ensures Fold(blank, own).reason == None
    ensures Fold(blank, own).outcome ==
            if exists i :: 0 <= i < |own| && own[i].outcome.Skipped? then KSkipped else KPassed
  {
    if own != [] {
      var n := |own| - 1;
      var init := own[..n];
      forall i | 0 <= i < n ensures !Decides(init, i) {
        DecidesBefore(own, i);
      }
      UndecidedOutcome(blank, init);
      RecordMeans(blank, init);
      FailedBefore(own);
      assert !Decides(own, n);
      if i :| 0 <= i < |own| && own[i].outcome.Skipped? {
        assert i < n ==> init[i].outcome.Skipped?;
      }
    }
  }

  /** Otherwise the last phase that decides says what the outcome is. */
  lemma {:induction false} DecidedOutcome(blank: Record, own: seq<Report>, i: nat)
    requires blank.ok && blank.outcome.KPassed?
    requires LastDeciding(own, i)
    ensures Fold(blank, own).outcome == Says(own[i])
    decreases |own|
  {
    var n := |own| - 1;
    var init := own[..n];
    RecordMeans(blank, init);
    FailedBefore(own);
    if i < n {
      DecidesBefore(own, i);
      forall j | i < j < n ensures !Decides(init, j) {
        DecidesBefore(own, j);
      }
      DecidedOutcome(blank, init, i);
      assert !Decides(own, n);
    }
  }

  lemma {:induction false} LastOfThem(own: seq<Report>, i: nat) returns (last: nat)
    requires i < |own| && Decides(own, i)
    ensures i <= last && LastDeciding(own, last)
    decreases |own| - i
  {
    last := i;
    if j: nat :| i < j < |own| && Decides(own, j) {
      last := LastOfThem(own, j);
    }
  }

  ghost predicate NothingUnusual(own: seq<Report>) {
    forall i :: 0 <= i < |own| ==> !own[i].outcome.Failed? && own[i].wasxfail == None
  }

  /** A test is recorded as passed, or as skipped, exactly when no phase failed and
      none has an expectation, and none, or some, was skipped. */
  lemma PassedOrSkippedIff(blank: Record, own: seq<Report>)
    requires blank.ok && blank.outcome.KPassed? && blank.reason == None
    ensures var skipped := exists i :: 0 <= i < |own| && own[i].outcome.Skipped?;
            && (Fold(blank, own).outcome.KPassed? <==> NothingUnusual(own) && !skipped)
            && (Fold(blank, own).outcome.KSkipped? <==> NothingUnusual(own) && skipped)
  {
    hide Fold;
    if i: nat :| i < |own| && Decides(own, i) {
      var last := LastOfThem(own, i);
      DecidedOutcome(blank, own, last);
    } else {
      UndecidedOutcome(blank, own);
      forall i | 0 <= i < |own| ensures !own[i].outcome.Failed? {
        assert !Decides(own, i);
      }
      forall i | 0 <= i < |own| ensures own[i].wasxfail == None {
        assert !Decides(own, i);
      }
    }
  }

  /** No reason unless one was given. */
  lemma {:induction false} NoReasonGiven(blank: Record, own: seq<Report>)
    requires blank.ok && blank.outcome.KPassed? && blank.reason == None
    requires forall i :: 0 <= i < |own| ==> !GivesReason(own, i)
    ensures Fold(blank, own).reason == None
  {
    if own != [] {
      var n := |own| - 1;
      forall i | 0 <= i < n ensures !GivesReason(own[..n], i) {
        DecidesBefore(own, i);
      }
      NoReasonGiven(blank, own[..n]);
      RecordMeans(blank, own[..n]);
      FailedBefore(own);
      assert !GivesReason(own, n);
    }
  }

  /** The reason is the one given last. */
  lemma {:induction false} ReasonGiven(blank: Record, own: seq<Report>, i: nat)
    requires blank.ok && blank.outcome.KPassed?
    requires LastReason(own, i)
    ensures Fold(blank, own).reason == ReasonOf(own[i])
    decreases |own|
  {
    var n := |own| - 1;
    var init := own[..n];
    RecordMeans(blank, init);
    FailedBefore(own);
    if i < n {
      DecidesBefore(own, i);
      forall j | i < j < n ensures !GivesReason(init, j) {
        DecidesBefore(own, j);
      }
      ReasonGiven(blank, init, i);
      assert !GivesReason(own, n);
    }
  }

  function Durations(own: seq<Report>): int {
    if own == [] then 0 else own[0].duration + Durations(own[1..])
  }

  lemma {:induction false} DurationsSnoc(own: seq<Report>, report: Report)
    ensures Durations(own + [report]) == Durations(own) + report.duration
  {
    if own == [] {
      assert (own + [report])[1..] == [];
    } else {
      assert (own + [report])[1..] == own[1..] + [report];
      DurationsSnoc(own[1..], report);
    }
  }

  /** The duration of a test, in either summary, is that of its phases together. */
  lemma {:induction false} DurationIsTheSum(own: seq<Report>)
    ensures Collapse(own).duration == Durations(own)
  {
    if own != [] {
      var n := |own| - 1;
      DurationIsTheSum(own[..n]);
      DurationsSnoc(own[..n], own[n]);
      assert own == own[..n] + [own[n]];
    }
  }

  // --- the two summaries side by side --------------------------------------------------------------------

  /** Phase `i` failed, and no phase after it was skipped. */
  predicate FailureStands(own: seq<Report>, i: nat)
    requires i < |own|
  {
    own[i].outcome.Failed? && forall k :: i < k < |own| ==> !own[k].outcome.Skipped?
  }

  predicate FailedLast(own: seq<Report>) {
    exists i :: 0 <= i < |own| && FailureStands(own, i)
  }

  lemma FailedLastSnoc(init: seq<Report>, last: Report)
    ensures FailedLast(init + [last]) <==> last.outcome.Failed? || (!last.outcome.Skipped? && FailedLast(init))
  {
    var own, n := init + [last], |init|;
    if FailedLast(own) && !last.outcome.Failed? {
      var i :| 0 <= i < |own| && FailureStands(own, i);
      assert own[n] == last && forall k :: i < k < n ==> own[k] == init[k];
      assert FailureStands(init, i);
    }
    if last.outcome.Failed? {
      assert FailureStands(own, n);
    } else if !last.outcome.Skipped? && FailedLast(init) {
      var i :| 0 <= i < |init| && FailureStands(init, i);
      assert FailureStands(own, i);
    }
  }

  /** A line reads failed exactly when a phase failed and none after it was
      skipped; it reads passed when all of the test's phases passed. */
  lemma {:induction false} CollapsedIff(own: seq<Report>)
    ensures Collapse(own).outcome.Failed? <==> FailedLast(own)
    ensures Collapse(own).outcome.Passed? <==> forall i :: 0 <= i < |own| ==> own[i].outcome.Passed?
  {
    hide FailedLast;
    if own == [] {
      NoneFailed();
    } else {
      var n := |own| - 1;
      CollapsedIff(own[..n]);
      assert own == own[..n] + [own[n]];
      FailedLastSnoc(own[..n], own[n]);
      assert Collapse(own).outcome.Passed? <==> Collapse(own[..n]).outcome.Passed? && own[n].outcome.Passed?;
    }
  }

  lemma NoneFailed()
    ensures !FailedLast([])
  {
  }

  /** The two summaries side by side: a record that is not ok has a failed line,
      unless its failures all have a skipped phase behind them. */
  lemma SummariesAgreeIff(blank: Record, own: seq<Report>)
    requires blank.ok && blank.outcome.KPassed?
    ensures Collapse(own).outcome.Failed? ==> !Fold(blank, own).ok
    ensures !Fold(blank, own).ok && !Collapse(own).outcome.Failed? <==> AnyFailed(own) && !FailedLast(own)
  {
    hide Fold, Collapse, FailureStands;
    RecordMeans(blank, own);
    CollapsedIff(own);
    if FailedLast(own) {
      var i :| 0 <= i < |own| && FailureStands(own, i);
      FailureIsOne(own, i);
    }
  }

  lemma FailureIsOne(own: seq<Report>, i: nat)
    requires i < |own| && FailureStands(own, i)
    ensures AnyFailed(own)
  {
  }

  /** A failed call and a skipped teardown: the record is not ok, the line skipped. */
  lemma FailedThenSkipped(blank: Record)
    requires blank.ok && blank.outcome.KPassed?
    ensures var own := [Report(blank.id, Failed, None, "", 0), Report(blank.id, Skipped, None, "", 0)];
            !Fold(blank, own).ok && Fold(blank, own).outcome.KFailed? && Collapse(own).outcome.Skipped?
  {
  }

  /** Phase `j` is an expected failure behind phase `i`'s failure, no failure after it. */
  predicate ExpectedAfterFailure(own: seq<Report>, i: int, j: int) {
    && 0 <= i < j < |own| && own[i].outcome.Failed?
    && own[j].outcome.Skipped? && own[j].wasxfail.Some?
    && forall k :: j < k < |own| ==> !own[k].outcome.Failed?
  }

  predicate ExpectedLate(own: seq<Report>) {
    exists i, j :: 0 <= i < |own| && 0 <= j < |own| && ExpectedAfterFailure(own, i, j)
  }

  lemma ExpectedLateSnoc(init: seq<Report>, last: Report)
    ensures ExpectedLate(init + [last]) <==>
            && !last.outcome.Failed?
            && (ExpectedLate(init) || (last.outcome.Skipped? && last.wasxfail.Some? && AnyFailed(init)))
  {
    var own, n := init + [last], |init|;
    if ExpectedLate(own) {
      var i, j :| 0 <= i < |own| && 0 <= j < |own| && ExpectedAfterFailure(own, i, j);
      assert init[i].outcome.Failed? && !own[n].outcome.Failed?;
      if j < n {
        assert forall k :: j < k < n ==> init[k] == own[k];
        assert ExpectedAfterFailure(init, i, j);
      }
    }
    if !last.outcome.Failed? && ExpectedLate(init) {
      var i, j :| 0 <= i < |init| && 0 <= j < |init| && ExpectedAfterFailure(init, i, j);
      assert ExpectedAfterFailure(own, i, j);
    }
    if last.outcome.Skipped? && last.wasxfail.Some? && AnyFailed(init) {
      var i :| 0 <= i < |init| && init[i].outcome.Failed?;
      assert ExpectedAfterFailure(own, i, n);
    }
  }

  /** A record can say xfailed and not ok: exactly when a phase was an expected
      failure, a failure before it, as a strict pass is, and none after it. */
  lemma {:induction false} XFailedNotOkIff(blank: Record, own: seq<Report>)
    requires blank.ok && blank.outcome.KPassed?
    ensures (Fold(blank, own).outcome.KXFailed? && !Fold(blank, own).ok) <==> ExpectedLate(own)
  {
    hide ExpectedLate, AnyFailed;
    if own == [] {
      NotLate();
    } else {
      var n := |own| - 1;
      XFailedNotOkIff(blank, own[..n]);
      RecordMeans(blank, own[..n]);
      ExpectedLateSnoc(own[..n], own[n]);
      assert own == own[..n] + [own[n]];
    }
  }

  lemma NotLate()
    ensures !ExpectedLate([])
  {
  }

  /** A strict pass in the call, an expected failure in the teardown. */
  lemma StrictPassThenXFailed(blank: Record, reason: string)
    requires blank.ok && blank.outcome.KPassed?
    ensures var own := [Report(blank.id, Failed, None, "[XPASS(strict)] " + reason, 0),
                        Report(blank.id, Skipped, Some(reason), "", 0)];
            Fold(blank, own).outcome.KXFailed? && !Fold(blank, own).ok
  {
  }
}
