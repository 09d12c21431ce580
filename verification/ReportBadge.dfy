/** What a release's badge and a configuration's summary count. */
module ReportBadge {
  import opened Common
  import opened Report

  // --- the summary ---------------------------------------------------------------------------------------------

  function Outcomes(tests: seq<Test>): seq<string> {
    seq(|tests|, i requires 0 <= i < |tests| => tests[i].outcome)
  }

  /** How often each outcome came: nothing counted twice, nothing left out. */
  method Summary(tests: seq<Test>) returns (counts: map<string, nat>)
    ensures forall o :: o in counts <==> o in Outcomes(tests)
    ensures forall o :: o in counts ==> counts[o] == multiset(Outcomes(tests))[o]
  {
    counts := map[];
    for i := 0 to |tests|
      invariant forall o :: o in counts <==> o in Outcomes(tests[..i])
      invariant forall o :: o in counts ==> counts[o] == multiset(Outcomes(tests[..i]))[o]
    {
      var o := tests[i].outcome;
      assert Outcomes(tests[..i + 1]) == Outcomes(tests[..i]) + [o];
      counts := counts[o := (if o in counts then counts[o] else 0) + 1];
    }
    assert tests[..|tests|] == tests;
  }

  // --- the badge -----------------------------------------------------------------------------------------------

  type Results = map<string, map<string, seq<Test>>>

  /** The tests of one release under the configurations given. */
  function OfBadge(release: string, results: Results, configurations: seq<string>): seq<Test>
    requires forall c :: c in configurations ==> c in results
  {
    if configurations == [] then []
    else
      var last := configurations[|configurations| - 1];
      OfBadge(release, results, configurations[..|configurations| - 1]) +
        if release in results[last] then results[last][release] else []
  }

  function Oks(tests: seq<Test>): seq<bool> {
    seq(|tests|, i requires 0 <= i < |tests| => tests[i].ok)
  }

  /** The tests that are `ok`, or those that are not. */
  function CountOk(tests: seq<Test>, ok: bool): nat {
    multiset(Oks(tests))[ok]
  }

  /** Which of the configurations have the release. */
  function Having(release: string, results: Results, configurations: seq<string>): seq<bool>
    requires forall c :: c in configurations ==> c in results
  {
    seq(|configurations|, i requires 0 <= i < |configurations| => release in results[configurations[i]])
  }

  /** The configurations without the release. */
  function CountMissing(release: string, results: Results, configurations: seq<string>): nat
    requires forall c :: c in configurations ==> c in results
  {
    multiset(Having(release, results, configurations))[false]
  }

  datatype Badge = Failures(failed: nat) | Missing(missing: nat) | Passes(passed: nat) {
    predicate Green() {
      Passes?
    }
  }

  /** The badge of a release: its failures before anything else, then the
      configurations that lack it, its passes only without either. */
  function BadgeOn(release: string, results: Results, configurations: seq<string>): Badge
    requires forall c :: c in configurations ==> c in results
  {
    var tests := OfBadge(release, results, configurations);
    if CountOk(tests, false) > 0 then Failures(CountOk(tests, false))
    else if CountMissing(release, results, configurations) > 0
    then Missing(CountMissing(release, results, configurations))
    else Passes(CountOk(tests, true))
  }

  lemma CountsConcat(a: seq<Test>, b: seq<Test>, ok: bool)
    ensures CountOk(a + b, ok) == CountOk(a, ok) + CountOk(b, ok)
  {
    assert Oks(a + b) == Oks(a) + Oks(b);
  }

  /** The tests of a list that were ok and those that were not. */
  method CountTests(tests: seq<Test>) returns (passed: nat, failed: nat)
    ensures passed == CountOk(tests, true) && failed == CountOk(tests, false)
  {
    passed, failed := 0, 0;
    for i := 0 to |tests|
      invariant passed == CountOk(tests[..i], true) && failed == CountOk(tests[..i], false)
    {
      assert Oks(tests[..i + 1]) == Oks(tests[..i]) + [tests[i].ok];
      if tests[i].ok {
        passed := passed + 1;
      } else {
        failed := failed + 1;
      }
    }
    assert tests[..|tests|] == tests;
  }

  lemma BadgeNext(release: string, results: Results, configurations: seq<string>, i: nat)
    requires i < |configurations| && forall c :: c in configurations ==> c in results
    ensures var here := results[configurations[i]];
            var tests := if release in here then here[release] else [];
            && (forall ok :: CountOk(OfBadge(release, results, configurations[..i + 1]), ok) ==
                             CountOk(OfBadge(release, results, configurations[..i]), ok) + CountOk(tests, ok))
            && CountMissing(release, results, configurations[..i + 1]) ==
               CountMissing(release, results, configurations[..i]) + if release in here then 0 else 1
  {
    hide CountOk;
    assert configurations[..i + 1][..i] == configurations[..i];
    var here := results[configurations[i]];
    var tests := if release in here then here[release] else [];
    CountsConcat(OfBadge(release, results, configurations[..i]), tests, true);
    CountsConcat(OfBadge(release, results, configurations[..i]), tests, false);
    assert Having(release, results, configurations[..i + 1]) ==
           Having(release, results, configurations[..i]) + [release in here];
  }

  lemma NothingCounted(release: string, results: Results)
    ensures CountOk(OfBadge(release, results, []), true) == 0 && CountOk(OfBadge(release, results, []), false) == 0
    ensures CountMissing(release, results, []) == 0
  {
  }

  method BadgeOf(release: string, results: Results, configurations: seq<string>) returns (badge: Badge)
    requires forall c :: c in configurations ==> c in results
    ensures badge == BadgeOn(release, results, configurations)
  {
    hide OfBadge, CountOk, CountMissing;
    NothingCounted(release, results);
    var passed, failed, missing := 0, 0, 0;
    assert configurations[..0] == [];
    for i := 0 to |configurations|
      invariant passed == CountOk(OfBadge(release, results, configurations[..i]), true)
      invariant failed == CountOk(OfBadge(release, results, configurations[..i]), false)
      invariant missing == CountMissing(release, results, configurations[..i])
    {
      var name := configurations[i];
      BadgeNext(release, results, configurations, i);
      var tests := if release in results[name] then results[name][release] else [];
      if release !in results[name] {
        missing := missing + 1;
      }
      var p, f := CountTests(tests);
      passed, failed := passed + p, failed + f;
    }
    assert configurations[..|configurations|] == configurations;
    badge := if failed > 0 then Failures(failed) else if missing > 0 then Missing(missing) else Passes(passed);
  }

  // --- what the badge says ---------------------------------------------------------------------------------------

  /** No configuration is without the release. */
  ghost predicate Complete(release: string, results: Results, configurations: seq<string>)
    requires forall c :: c in configurations ==> c in results
  {
    forall i :: 0 <= i < |configurations| ==> release in results[configurations[i]]
  }

  ghost predicate AllOk(tests: seq<Test>) {
    forall i :: 0 <= i < |tests| ==> tests[i].ok
  }

  lemma {:induction false} FlagsCount(flags: seq<bool>)
    ensures multiset(flags)[true] + multiset(flags)[false] == |flags|
    ensures multiset(flags)[false] == 0 <==> forall i :: 0 <= i < |flags| ==> flags[i]
  {
    if flags == [] {
      assert multiset(flags) == multiset{};
    } else {
      var init, last := flags[..|flags| - 1], flags[|flags| - 1];
      FlagsCount(init);
      assert flags == init + [last];
      assert multiset(flags) == multiset(init) + multiset{last};
      assert last || multiset(flags)[false] == multiset(init)[false] + 1;
    }
  }

  /** Green exactly when every configuration has the release and every test of it was
      ok, and then it counts them all; red with what is wrong, tests before
      configurations. */
  lemma BadgeMeans(release: string, results: Results, configurations: seq<string>)
    requires forall c :: c in configurations ==> c in results
    ensures var badge, tests := BadgeOn(release, results, configurations), OfBadge(release, results, configurations);
            && (badge.Green() <==> Complete(release, results, configurations) && AllOk(tests))
            && (badge.Failures? <==> !AllOk(tests))
            && (badge.Passes? ==> badge.passed == |tests|)
            && (badge.Failures? ==> 0 < badge.failed == |tests| - CountOk(tests, true))
            && (badge.Missing? ==> 0 < badge.missing <= |configurations|)
  {
    hide OfBadge, AllOk, Complete;
    var tests, having := OfBadge(release, results, configurations), Having(release, results, configurations);
    FlagsCount(Oks(tests));
    FlagsCount(having);
    AllOkFlags(tests);
    CompleteFlags(release, results, configurations);
  }

  lemma AllOkFlags(tests: seq<Test>)
    ensures AllOk(tests) <==> forall i :: 0 <= i < |Oks(tests)| ==> Oks(tests)[i]
  {
    if forall i :: 0 <= i < |Oks(tests)| ==> Oks(tests)[i] {
      forall i | 0 <= i < |tests| ensures tests[i].ok {
        assert Oks(tests)[i];
      }
    }
  }

  lemma CompleteFlags(release: string, results: Results, configurations: seq<string>)
    requires forall c :: c in configurations ==> c in results
    ensures Complete(release, results, configurations) <==>
            forall i :: 0 <= i < |configurations| ==> Having(release, results, configurations)[i]
  {
    var having := Having(release, results, configurations);
    if forall i :: 0 <= i < |configurations| ==> having[i] {
      forall i | 0 <= i < |configurations| ensures release in results[configurations[i]] {
        assert having[i];
      }
    }
  }

  // --- what the counts are of --------------------------------------------------------------------------------------

  /** A badge's tests are those of each configuration that has the release, and no others. */
  lemma {:induction false} OfBadgeConcat(release: string, results: Results, a: seq<string>, b: seq<string>)
    requires forall c :: c in a + b ==> c in results
    ensures forall c :: c in a || c in b ==> c in results
    ensures OfBadge(release, results, a + b) == OfBadge(release, results, a) + OfBadge(release, results, b)
    decreases |b|
  {
    assert forall c :: c in a || c in b ==> c in a + b;
    if b == [] {
      assert a + b == a;
    } else {
      assert (a + b)[..|a + b| - 1] == a + b[..|b| - 1];
      OfBadgeConcat(release, results, a, b[..|b| - 1]);
    }
  }

  lemma OfBadgeOfOne(release: string, results: Results, c: string)
    requires c in results
    ensures OfBadge(release, results, [c]) == if release in results[c] then results[c][release] else []
  {
    assert [c][..0] == [];
    assert OfBadge(release, results, []) == [];
  }

  ghost function Where(flags: seq<bool>, ok: bool): set<int> {
    set i | 0 <= i < |flags| && flags[i] == ok
  }

  lemma {:induction false} FlagsCounted(flags: seq<bool>, ok: bool)
    ensures multiset(flags)[ok] == |Where(flags, ok)|
  {
    if flags == [] {
      assert multiset(flags) == multiset{};
    } else {
      var init, last := flags[..|flags| - 1], flags[|flags| - 1];
      FlagsCounted(init, ok);
      assert flags == init + [last];
      assert multiset(flags) == multiset(init) + multiset{last};
      WhereSnoc(init, last, ok);
    }
  }

  lemma WhereSnoc(init: seq<bool>, last: bool, ok: bool)
    ensures |Where(init + [last], ok)| == |Where(init, ok)| + if last == ok then 1 else 0
  {
    var those, all := Where(init, ok), Where(init + [last], ok);
    assert all == if last == ok then those + {|init|} else those;
  }

  /** The failures are the tests that were not ok, one by one. */
  lemma CountOkCounts(tests: seq<Test>, ok: bool)
    ensures CountOk(tests, ok) == |set i | 0 <= i < |tests| && tests[i].ok == ok|
  {
    FlagsCounted(Oks(tests), ok);
    assert (set i | 0 <= i < |tests| && tests[i].ok == ok) == Where(Oks(tests), ok);
  }

  /** The configurations without the release. */
  ghost function Lacking(release: string, results: Results, configurations: seq<string>): set<string> {
    set c | c in configurations && c in results && release !in results[c]
  }

  /** The missing ones are those, one by one. */
  lemma {:induction false} CountMissingCounts(release: string, results: Results, configurations: seq<string>)
    requires Distinct(configurations) && forall c :: c in configurations ==> c in results
    ensures CountMissing(release, results, configurations) == |Lacking(release, results, configurations)|
  {
    if configurations == [] {
      NothingCounted(release, results);
      assert Lacking(release, results, configurations) == {};
    } else {
      var init, last := configurations[..|configurations| - 1], configurations[|configurations| - 1];
      assert configurations == init + [last];
      CountMissingCounts(release, results, init);
      assert Having(release, results, configurations) == Having(release, results, init) + [release in results[last]];
      LackingSnoc(release, results, init, last);
    }
  }

  lemma LackingSnoc(release: string, results: Results, init: seq<string>, last: string)
    requires last !in init && last in results
    ensures |Lacking(release, results, init + [last])| ==
            |Lacking(release, results, init)| + if release in results[last] then 0 else 1
  {
    var those, all := Lacking(release, results, init), Lacking(release, results, init + [last]);
    assert all == if release in results[last] then those else those + {last};
  }
}
