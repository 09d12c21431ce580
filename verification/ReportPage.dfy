/** The page and the badges from the results of a matrix run. */
module ReportPage {
  import opened Common
  import opened Report
  import opened ReportBadge
  import opened ReportOutline
  import opened ReportSection
  import opened Sorted

  /** A `results.json`: the configuration and the release it names itself by, the
      vendor it says, if any, the entries it lists and its tests. */
  datatype RunResult = RunResult(configuration: string, release: string, vendor: string, listed: seq<string>,
      tests: seq<Test>)

  /** What the matrix knows: its configurations, each with its vendor, its vendors
      and its releases, in its order. */
  datatype Matrix = Matrix(configurations: seq<string>, vendorOf: map<string, string>, vendors: seq<string>,
      releases: seq<string>)

  ghost predicate MatrixOk(m: Matrix) {
    && Distinct(m.configurations) && Distinct(m.vendors) && Distinct(m.releases)
    && forall c :: c in m.vendorOf <==> c in m.configurations
  }

  // --- grouping --------------------------------------------------------------------------------------------

  type Groups = Dict<string, Dict<string, RunResult>>

  function Member(groups: Groups, name: string): Dict<string, RunResult> {
    if name in groups.vals then groups.vals[name] else EmptyDict()
  }

  /** By configuration and release, a later result over an earlier one of both. */
  function GroupsOf(results: seq<RunResult>): Groups {
    if results == [] then EmptyDict()
    else
      var before, r := GroupsOf(results[..|results| - 1]), results[|results| - 1];
      before.Put(r.configuration, Member(before, r.configuration).Put(r.release, r))
  }

  function ConfigurationsOf(results: seq<RunResult>): seq<string> {
    seq(|results|, i requires 0 <= i < |results| => results[i].configuration)
  }

  function ReleasesOf(results: seq<RunResult>): seq<string> {
    seq(|results|, i requires 0 <= i < |results| => results[i].release)
  }

  ghost predicate GroupsOk(groups: Groups, results: seq<RunResult>) {
    && groups.keys == Dedup(ConfigurationsOf(results))
    && (forall c :: c in groups.vals <==> c in groups.keys)
    && forall c :: c in groups.vals ==>
         && groups.vals[c].keys != []
         && forall r :: r in groups.vals[c].vals <==> r in groups.vals[c].keys
  }

  lemma {:induction false} GroupsAreOk(results: seq<RunResult>)
    ensures GroupsOk(GroupsOf(results), results)
  {
    if results != [] {
      var n := |results| - 1;
      GroupsAreOk(results[..n]);
      assert ConfigurationsOf(results)[..n] == ConfigurationsOf(results[..n]);
    }
  }

  method Group(results: seq<RunResult>) returns (groups: Groups)
    ensures groups == GroupsOf(results)
  {
    groups := EmptyDict();
    for i := 0 to |results|
      invariant groups == GroupsOf(results[..i])
    {
      assert results[..i + 1][..i] == results[..i];
      var r := results[i];
      groups := groups.Put(r.configuration, Member(groups, r.configuration).Put(r.release, r));
    }
    assert results[..|results|] == results;
  }

  /** The last result of a configuration and a release. */
  function LastOf(results: seq<RunResult>, configuration: string, release: string): Option<RunResult> {
    if results == [] then None
    else
      var r := results[|results| - 1];
      if r.configuration == configuration && r.release == release then Some(r)
      else LastOf(results[..|results| - 1], configuration, release)
  }

  lemma {:induction false} LastIsLast(results: seq<RunResult>, i: nat)
    requires i < |results|
    requires forall j :: i < j < |results| ==>
               results[j].configuration != results[i].configuration || results[j].release != results[i].release
    ensures LastOf(results, results[i].configuration, results[i].release) == Some(results[i])
    decreases |results|
  {
    if i < |results| - 1 {
      LastIsLast(results[..|results| - 1], i);
    }
  }

  lemma {:induction false} LastIsThere(results: seq<RunResult>, configuration: string, release: string)
    requires LastOf(results, configuration, release).Some?
    ensures var r := LastOf(results, configuration, release).value;
            r in results && r.configuration == configuration && r.release == release
  {
    var r := results[|results| - 1];
    if r.configuration != configuration || r.release != release {
      LastIsThere(results[..|results| - 1], configuration, release);
    }
  }

  /** The groups hold the last result of each configuration and release, and
      nothing for a pair without one. */
  lemma {:induction false} GroupsKeepTheLast(results: seq<RunResult>, configuration: string, release: string)
    ensures var own := Member(GroupsOf(results), configuration);
            && (release in own.vals <==> LastOf(results, configuration, release).Some?)
            && (release in own.vals ==> own.vals[release] == LastOf(results, configuration, release).value)
  {
    if results != [] {
      GroupsKeepTheLast(results[..|results| - 1], configuration, release);
    }
  }

  /** The matrix's vendor, or what a session's first result says, AMD by default. */
  function VendorOf(m: Matrix, groups: Groups, name: string): string {
    if name in m.vendorOf then m.vendorOf[name]
    else
      var own := Member(groups, name);
      if own.keys != [] && own.keys[0] in own.vals && own.vals[own.keys[0]].vendor != []
      then own.vals[own.keys[0]].vendor
      else "amd"
  }

  lemma MemberOfPut(groups: Groups, r: RunResult, name: string)
    ensures var more := groups.Put(r.configuration, Member(groups, r.configuration).Put(r.release, r));
            && (name in more.vals <==> name in groups.vals || name == r.configuration)
            && Member(more, name) == if name == r.configuration then Member(groups, name).Put(r.release, r)
                                     else Member(groups, name)
  {
  }

  lemma FirstKeyStays(own: Dict<string, RunResult>, r: RunResult)
    requires own.keys != [] && own.keys[0] in own.vals
    ensures var more := own.Put(r.release, r);
            more.keys != [] && more.keys[0] == own.keys[0] && own.keys[0] in more.vals
  {
  }

  lemma GroupsSnoc(results: seq<RunResult>)
    requires results != []
    ensures var before, r := GroupsOf(results[..|results| - 1]), results[|results| - 1];
            GroupsOf(results) == before.Put(r.configuration, Member(before, r.configuration).Put(r.release, r))
  {
  }

  lemma {:induction false} FirstRelease(results: seq<RunResult>, name: string, i: nat)
    requires i < |results| && results[i].configuration == name
    requires forall j :: 0 <= j < i ==> results[j].configuration != name
    ensures var own := Member(GroupsOf(results), name);
            && name in GroupsOf(results).vals && own.keys != [] && own.keys[0] == results[i].release
            && own.keys[0] in own.vals
    decreases |results|
  {
    hide Member, GroupsOf;
    var n := |results| - 1;
    var before := GroupsOf(results[..n]);
    GroupsSnoc(results);
    MemberOfPut(before, results[n], name);
    if i < n {
      FirstRelease(results[..n], name, i);
      FirstKeyStays(Member(before, name), results[n]);
    } else {
      NoGroup(results[..n], name);
      assert Member(before, name) == EmptyDict() by { NoMember(before, name); }
    }
  }

  lemma NoMember(groups: Groups, name: string)
    requires name !in groups.vals
    ensures Member(groups, name) == EmptyDict()
  {
  }

  lemma {:induction false} NoGroup(results: seq<RunResult>, name: string)
    requires forall j :: 0 <= j < |results| ==> results[j].configuration != name
    ensures name !in GroupsOf(results).vals
  {
    if results != [] {
      NoGroup(results[..|results| - 1], name);
    }
  }

  /** A configuration stands under the matrix's vendor; one the matrix lacks under
      what the result kept for its first release says, AMD if that says nothing. */
  lemma VendorMeans(m: Matrix, results: seq<RunResult>, name: string, i: nat)
    requires i < |results| && results[i].configuration == name
    requires forall j :: 0 <= j < i ==> results[j].configuration != name
    ensures LastOf(results, name, results[i].release).Some?
    ensures VendorOf(m, GroupsOf(results), name) ==
            if name in m.vendorOf then m.vendorOf[name]
            else if LastOf(results, name, results[i].release).value.vendor != []
            then LastOf(results, name, results[i].release).value.vendor
            else "amd"
  {
    hide GroupsOf, LastOf;
    FirstRelease(results, name, i);
    GroupsKeepTheLast(results, name, results[i].release);
  }

  function VendorsOf(m: Matrix, groups: Groups): map<string, string> {
    map name | name in groups.vals :: VendorOf(m, groups, name)
  }

  function VendorList(m: Matrix, groups: Groups, configurations: seq<string>): seq<string> {
    seq(|configurations|, i requires 0 <= i < |configurations| => VendorOf(m, groups, configurations[i]))
  }

  function Sections(m: Matrix, results: seq<RunResult>): seq<string> {
    InOrder(GroupsOf(results).keys, m.configurations)
  }

  function VendorOrder(m: Matrix, results: seq<RunResult>): seq<string> {
    InOrder(SortedSet(VendorList(m, GroupsOf(results), Sections(m, results))), m.vendors)
  }

  function Columns(m: Matrix, results: seq<RunResult>): seq<string> {
    InOrder(SortedSet(ReleasesOf(results)), m.releases)
  }

  /** The tests of every configuration by release. */
  function TestsOf(groups: Groups): Results {
    map c | c in groups.vals :: map r | r in groups.vals[c].vals :: groups.vals[c].vals[r].tests
  }

  lemma SectionsHaveGroups(m: Matrix, results: seq<RunResult>)
    ensures forall c :: c in Sections(m, results) <==> c in GroupsOf(results).vals
  {
    GroupsAreOk(results);
    KeepMembers(m.configurations, GroupsOf(results).keys, true);
    KeepMembers(GroupsOf(results).keys, m.configurations, false);
  }

  /** What the results of a configuration list, by release. */
  function ListedOf(own: Dict<string, RunResult>): map<string, seq<string>> {
    map r | r in own.vals :: own.vals[r].listed
  }

  /** Every section has its tables. */
  ghost predicate SectionsOk(tables: map<string, Tables>, m: Matrix, results: seq<RunResult>) {
    && (forall c :: c in tables <==> c in GroupsOf(results).vals)
    && forall c :: c in tables ==> SectionOk(tables[c], m, results, c)
  }

  ghost predicate SectionOk(t: Tables, m: Matrix, results: seq<RunResult>, c: string)
    requires c in GroupsOf(results).vals
  {
    var own := GroupsOf(results).vals[c];
    TablesOk(t, Columns(m, results), TestsOf(GroupsOf(results))[c], ListedOf(own))
  }

  /** The page's headings and sections, the tables of each section and one badge a
      release. */
  method RenderPage(m: Matrix, results: seq<RunResult>)
    returns (lines: seq<Line>, tables: map<string, Tables>, badges: map<string, Badge>)
    ensures forall c :: c in Sections(m, results) ==>
              c in VendorsOf(m, GroupsOf(results)) && c in TestsOf(GroupsOf(results))
    ensures lines == Page(VendorOrder(m, results), Sections(m, results), VendorsOf(m, GroupsOf(results)))
    ensures SectionsOk(tables, m, results)
    ensures forall r :: r in badges <==> r in Columns(m, results)
    ensures forall r :: r in badges ==> badges[r] == BadgeOn(r, TestsOf(GroupsOf(results)), Sections(m, results))
  {
    hide InOrder, SortedSet, BadgeOn, GroupsOf, Page, VendorOf, SectionsOk, SectionOk;
    var groups := Group(results);
    SectionsHaveGroups(m, results);
    var configurations := InOrder(groups.keys, m.configurations);
    var releases := InOrder(SortedSet(ReleasesOf(results)), m.releases);
    var vendors := VendorsOf(m, groups);
    var order := InOrder(SortedSet(VendorList(m, groups, configurations)), m.vendors);
    lines := Render(order, configurations, vendors);
    var all := TestsOf(groups);
    tables := RenderSections(m, results, groups, configurations, releases, all);
    badges := map[];
    for i := 0 to |releases|
      invariant forall r :: r in badges <==> r in releases[..i]
      invariant forall r :: r in badges ==> badges[r] == BadgeOn(r, all, configurations)
    {
      var badge := BadgeOf(releases[i], all, configurations);
      badges := badges[releases[i] := badge];
    }
  }

  method RenderSections(ghost m: Matrix, ghost results: seq<RunResult>, groups: Groups, configurations: seq<string>,
        releases: seq<string>, all: Results) returns (tables: map<string, Tables>)
    requires groups == GroupsOf(results) && releases == Columns(m, results) && all == TestsOf(groups)
    requires forall c :: c in configurations <==> c in groups.vals
    ensures SectionsOk(tables, m, results)
  {
    hide GroupsOf, Columns, TestsOf, TablesOk;
    tables := map[];
    for i := 0 to |configurations|
      invariant forall c :: c in tables <==> c in configurations[..i]
      invariant forall c :: c in tables ==> c in GroupsOf(results).vals && SectionOk(tables[c], m, results, c)
    {
      var name := configurations[i];
      TestsOfGroups(groups);
      var t := TablesOf(releases, all[name], ListedOf(groups.vals[name]));
      tables := tables[name := t];
    }
    assert configurations[..|configurations|] == configurations;
  }

  lemma TestsOfGroups(groups: Groups)
    ensures forall c :: c in TestsOf(groups) <==> c in groups.vals
  {
  }

  lemma {:induction false} OncePermuted(s: seq<string>, t: seq<string>)
    requires multiset(s) == multiset(t) && Distinct(t)
    ensures Distinct(s) && forall x :: x in s <==> x in t
  {
    DistinctOnce(t);
    OnceIsDistinct(s);
    forall x ensures x in s <==> x in t {
      assert x in multiset(s) <==> x in multiset(t);
    }
  }

  /** Every configuration that has results gets one section, no other does, each
      vendor one heading, and every section stands under its own vendor's. */
  lemma PageIsComplete(m: Matrix, results: seq<RunResult>, lines: seq<Line>)
    requires MatrixOk(m)
    requires forall c :: c in Sections(m, results) ==> c in VendorsOf(m, GroupsOf(results))
    requires lines == Page(VendorOrder(m, results), Sections(m, results), VendorsOf(m, GroupsOf(results)))
    ensures multiset(Names(lines)) == multiset(Dedup(ConfigurationsOf(results)))
    ensures Distinct(Names(lines)) && forall c :: c in Names(lines) <==> c in ConfigurationsOf(results)
    ensures Distinct(VendorOrder(m, results))
    ensures forall i :: 0 <= i < |lines| && lines[i].Configuration? ==>
              VendorAt(lines, i) == Some(VendorOf(m, GroupsOf(results), lines[i].name))
  {
    hide InOrder, SortedSet, GroupsOf, Page, Dedup, GroupsOk, VendorOf, Names, VendorAt;
    var groups, sections, order := GroupsOf(results), Sections(m, results), VendorOrder(m, results);
    var vendors := VendorsOf(m, groups);
    KeysOfGroups(results);
    DedupMembers(ConfigurationsOf(results));
    InOrderPermutes(groups.keys, m.configurations);
    VendorsListed(m, results);
    PageHasEveryConfiguration(order, sections, vendors);
    OncePermuted(Names(lines), groups.keys);
    forall i | 0 <= i < |lines| && lines[i].Configuration?
      ensures VendorAt(lines, i) == Some(VendorOf(m, groups, lines[i].name))
    {
      SectionsStandUnderTheirVendor(order, sections, vendors, i);
    }
  }

  lemma KeysOfGroups(results: seq<RunResult>)
    ensures GroupsOf(results).keys == Dedup(ConfigurationsOf(results))
  {
    GroupsAreOk(results);
  }

  /** The vendors in order are those of the sections, once each. */
  lemma VendorsListed(m: Matrix, results: seq<RunResult>)
    requires MatrixOk(m)
    ensures Distinct(VendorOrder(m, results))
    ensures forall c :: c in Sections(m, results) ==> VendorOf(m, GroupsOf(results), c) in VendorOrder(m, results)
  {
    hide InOrder, SortedSet, GroupsOf, VendorOf;
    var sections := Sections(m, results);
    var all := VendorList(m, GroupsOf(results), sections);
    SortedSetOnce(all);
    InOrderPermutes(SortedSet(all), m.vendors);
    OncePermuted(VendorOrder(m, results), SortedSet(all));
    forall c | c in sections ensures VendorOf(m, GroupsOf(results), c) in VendorOrder(m, results) {
      var i :| 0 <= i < |sections| && sections[i] == c;
      assert all[i] == VendorOf(m, GroupsOf(results), c);
      assert multiset(SortedSet(all))[all[i]] == 1;
    }
  }

  // --- every test is on the page ---------------------------------------------------------------------------

  lemma ColumnsAreTheReleases(m: Matrix, results: seq<RunResult>)
    requires MatrixOk(m)
    ensures Distinct(Columns(m, results))
    ensures forall r :: r in Columns(m, results) <==> r in ReleasesOf(results)
  {
    hide InOrder, SortedSet;
    var releases := SortedSet(ReleasesOf(results));
    SortedSetOnce(ReleasesOf(results));
    InOrderPermutes(releases, m.releases);
    OncePermuted(Columns(m, results), releases);
    forall r ensures r in releases <==> r in ReleasesOf(results) {
      assert r in multiset(releases) <==> r in releases;
    }
  }

  /** A cell of a section's full table has exactly the tests of its id in the last
      result of its configuration and its release, however often it is there. */
  lemma PageHoldsEveryTest(m: Matrix, results: seq<RunResult>, tables: map<string, Tables>,
        c: string, row: string, release: string, t: Test)
    requires MatrixOk(m) && SectionsOk(tables, m, results)
    requires c in tables && release in Columns(m, results)
    ensures multiset(tables[c].testCells.Get(row, release))[t] ==
            if t.id == row then multiset(TestsIn(LastOf(results, c, release)))[t] else 0
    ensures t in TestsIn(LastOf(results, c, release)) ==> t.id in tables[c].testCells.rows
  {
    hide Columns, GroupsOf, CellsOk, Given, Runs, Cells.Get;
    var own := GroupsOf(results).vals[c];
    ColumnsAreTheReleases(m, results);
    FullTableHoldsEveryTest(Columns(m, results), TestsOf(GroupsOf(results))[c], tables[c].testCells);
    GivenIsTheLast(results, c, release, t);
  }

  function TestsIn(result: Option<RunResult>): seq<Test> {
    match result case Some(r) => r.tests case None => []
  }

  lemma GivenIsTheLast(results: seq<RunResult>, c: string, release: string, t: Test)
    requires c in GroupsOf(results).vals
    ensures Given(TestsOf(GroupsOf(results))[c], release, t) == multiset(TestsIn(LastOf(results, c, release)))[t]
  {
    hide GroupsOf, LastOf;
    GroupsKeepTheLast(results, c, release);
  }

  lemma LastResultsAreThere(m: Matrix, results: seq<RunResult>, tables: map<string, Tables>, i: nat)
    requires MatrixOk(m) && SectionsOk(tables, m, results) && i < |results|
    requires forall j :: i < j < |results| ==>
               results[j].configuration != results[i].configuration || results[j].release != results[i].release
    ensures results[i].configuration in tables && results[i].release in Columns(m, results)
    ensures LastOf(results, results[i].configuration, results[i].release) == Some(results[i])
  {
    hide Columns, GroupsOf, LastOf, SectionOk;
    LastIsLast(results, i);
    GroupsKeepTheLast(results, results[i].configuration, results[i].release);
    ColumnsAreTheReleases(m, results);
    assert ReleasesOf(results)[i] == results[i].release;
  }

  /** Every test of a result that no later one of its configuration and release
      replaces is on the page: in that configuration's one section, the row of its
      id and the column of its release, as often as the result has it. */
  lemma EveryTestIsOnThePage(m: Matrix, results: seq<RunResult>, lines: seq<Line>, tables: map<string, Tables>, i: nat)
    requires MatrixOk(m) && SectionsOk(tables, m, results) && i < |results|
    requires forall c :: c in Sections(m, results) ==> c in VendorsOf(m, GroupsOf(results))
    requires lines == Page(VendorOrder(m, results), Sections(m, results), VendorsOf(m, GroupsOf(results)))
    requires forall j :: i < j < |results| ==>
               results[j].configuration != results[i].configuration || results[j].release != results[i].release
    ensures var c, release := results[i].configuration, results[i].release;
            && multiset(Names(lines))[c] == 1 && c in tables
            && multiset(Columns(m, results))[release] == 1
            && forall t :: t in results[i].tests ==>
                 && t.id in tables[c].testCells.rows
                 && multiset(tables[c].testCells.Get(t.id, release))[t] == multiset(results[i].tests)[t] > 0
  {
    hide Columns, GroupsOf, LastOf, SectionsOk, Sections, VendorOrder, VendorsOf, Page, Names, Cells.Get, VendorAt,
         VendorOf;
    var c, release := results[i].configuration, results[i].release;
    LastResultsAreThere(m, results, tables, i);
    PageIsComplete(m, results, lines);
    DistinctOnce(Names(lines));
    assert ConfigurationsOf(results)[i] == c;
    ColumnsAreTheReleases(m, results);
    DistinctOnce(Columns(m, results));
    forall t | t in results[i].tests
      ensures t.id in tables[c].testCells.rows
      ensures multiset(tables[c].testCells.Get(t.id, release))[t] == multiset(results[i].tests)[t] > 0
    {
      PageHoldsEveryTest(m, results, tables, c, t.id, release, t);
    }
  }

  // --- in what order ---------------------------------------------------------------------------------------

  lemma LeadsIsBefore(s: seq<string>, a: string, b: string)
    requires a in s && b in s && Leads(s, a, b)
    ensures Before(Dedup(s), a, b)
  {
    hide Dedup;
    DedupMembers(s);
    DedupOrdered(s);
    var all := Dedup(s);
    assert a in all && b in all;
    var i :| 0 <= i < |all| && all[i] == a;
    var j :| 0 <= j < |all| && all[j] == b;
    NotBothLead(s, a, b);
    assert i < j;
  }

  lemma NotBothLead(s: seq<string>, a: string, b: string)
    ensures Leads(s, a, b) ==> a != b && !Leads(s, b, a)
  {
    if Leads(s, a, b) {
      var i :| 0 <= i < |s| && s[i] == a && b !in s[..i + 1];
      forall k | 0 <= k <= i ensures s[k] != b {
        assert s[..i + 1][k] == s[k];
      }
      forall j | 0 <= j < |s| && s[j] == b ensures a in s[..j + 1] {
        assert s[..j + 1][i] == a;
      }
    }
  }

  /** Columns: the matrix's releases in its order, behind them the others ascending. */
  lemma ColumnsFollow(m: Matrix, results: seq<RunResult>, a: string, b: string)
    requires a in ReleasesOf(results) && b in ReleasesOf(results)
    requires (Before(m.releases, a, b) && a in m.releases && b in m.releases)
             || (a in m.releases && b !in m.releases)
             || (a !in m.releases && b !in m.releases && a != b && AtMost(a, b))
    ensures Before(Columns(m, results), a, b)
  {
    hide SortedSet, AtMost;
    var found := SortedSet(ReleasesOf(results));
    SortedSetOnce(ReleasesOf(results));
    assert multiset(found)[a] == 1 && multiset(found)[b] == 1;
    if a !in m.releases {
      SmallerFirst(ReleasesOf(results), a, b);
    }
    InOrderFollows(found, m.releases, a, b);
  }

  /** Sections: the matrix's configurations in its order, behind them the others as
      their first results came. */
  lemma SectionsFollow(m: Matrix, results: seq<RunResult>, a: string, b: string)
    requires a in ConfigurationsOf(results) && b in ConfigurationsOf(results)
    requires (Before(m.configurations, a, b) && a in m.configurations && b in m.configurations)
             || (a in m.configurations && b !in m.configurations)
             || (a !in m.configurations && b !in m.configurations && Leads(ConfigurationsOf(results), a, b))
    ensures Before(Sections(m, results), a, b)
  {
    hide GroupsOf, Dedup, Leads;
    KeysOfGroups(results);
    DedupMembers(ConfigurationsOf(results));
    if a !in m.configurations {
      LeadsIsBefore(ConfigurationsOf(results), a, b);
    }
    InOrderFollows(GroupsOf(results).keys, m.configurations, a, b);
  }

  /** Vendors: the same of those of the sections, the others ascending. */
  lemma VendorsFollow(m: Matrix, results: seq<RunResult>, a: string, b: string)
    requires var all := VendorList(m, GroupsOf(results), Sections(m, results)); a in all && b in all
    requires (Before(m.vendors, a, b) && a in m.vendors && b in m.vendors)
             || (a in m.vendors && b !in m.vendors)
             || (a !in m.vendors && b !in m.vendors && a != b && AtMost(a, b))
    ensures Before(VendorOrder(m, results), a, b)
  {
    hide SortedSet, AtMost, Sections, GroupsOf, VendorList;
    var all := VendorList(m, GroupsOf(results), Sections(m, results));
    SortedSetOnce(all);
    assert multiset(SortedSet(all))[a] == 1 && multiset(SortedSet(all))[b] == 1;
    if a !in m.vendors {
      SmallerFirst(all, a, b);
    }
    InOrderFollows(SortedSet(all), m.vendors, a, b);
  }

  /** The entries the last results of a configuration list, column after column. */
  function ListedOn(results: seq<RunResult>, c: string, columns: seq<string>): seq<string> {
    if columns == [] then []
    else
      ListedOn(results, c, columns[..|columns| - 1]) +
        match LastOf(results, c, columns[|columns| - 1]) case Some(r) => r.listed case None => []
  }

  lemma {:induction false} ListedIsThat(results: seq<RunResult>, c: string, columns: seq<string>)
    ensures AllListed(columns, ListedOf(Member(GroupsOf(results), c))) == ListedOn(results, c, columns)
  {
    hide GroupsOf, LastOf, Member;
    if columns != [] {
      ListedIsThat(results, c, columns[..|columns| - 1]);
      GroupsKeepTheLast(results, c, columns[|columns| - 1]);
    }
  }

  /** Entry rows: those the last results list, in the order they are first listed,
      and behind them the others. */
  lemma EntriesFollow(m: Matrix, results: seq<RunResult>, c: string, rows: seq<string>, a: string, b: string)
    requires c in GroupsOf(results).vals && a in rows && b in rows
    requires var listed := ListedOn(results, c, Columns(m, results));
             a in listed && (b !in listed || Leads(listed, a, b))
    ensures var listed := ListedOf(GroupsOf(results).vals[c]);
            Before(InOrder(rows, Dedup(AllListed(Columns(m, results), listed))), a, b)
  {
    hide GroupsOf, Columns, AllListed, ListedOn, InOrder, Dedup, Leads;
    var listed := ListedOn(results, c, Columns(m, results));
    ListedIsThat(results, c, Columns(m, results));
    DedupMembers(listed);
    if b in listed {
      LeadsIsBefore(listed, a, b);
    }
    InOrderFollows(rows, Dedup(listed), a, b);
  }
}
