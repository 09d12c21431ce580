/** The order of a page's headings and sections, and what stands under which. */
module ReportOutline {
  import opened Common
  import opened Report

  datatype Line = Heading(vendor: string) | Configuration(name: string)

  /** The configurations of one vendor. */
  function OfVendor(configurations: seq<string>, vendors: map<string, string>, vendor: string): seq<string>
    requires forall c :: c in configurations ==> c in vendors
  {
    if configurations == [] then []
    else
      var last := configurations[|configurations| - 1];
      OfVendor(configurations[..|configurations| - 1], vendors,
          vendor) + if vendors[last] == vendor then [last] else []
  }

  function SectionsOf(names: seq<string>): seq<Line> {
    seq(|names|, i requires 0 <= i < |names| => Configuration(names[i]))
  }

  /** The page: each vendor's heading and under it its configurations, in order. */
  function Page(order: seq<string>, configurations: seq<string>, vendors: map<string, string>): seq<Line>
    requires forall c :: c in configurations ==> c in vendors
  {
    if order == [] then []
    else
      var last := order[|order| - 1];
      Page(order[..|order| - 1], configurations, vendors) + [Heading(last)] +
        SectionsOf(OfVendor(configurations, vendors, last))
  }

  method Render(order: seq<string>, configurations: seq<string>, vendors: map<string, string>)
    returns (lines: seq<Line>)
    requires forall c :: c in configurations ==> c in vendors
    ensures lines == Page(order, configurations, vendors)
  {
    lines := [];
    for i := 0 to |order|
      invariant lines == Page(order[..i], configurations, vendors)
    {
      assert order[..i + 1][..i] == order[..i];
      lines := lines + [Heading(order[i])];
      ghost var before := lines;
      for k := 0 to |configurations|
        invariant lines == before + SectionsOf(OfVendor(configurations[..k], vendors, order[i]))
      {
        assert configurations[..k + 1][..k] == configurations[..k];
        ghost var names := OfVendor(configurations[..k], vendors, order[i]);
        if vendors[configurations[k]] == order[i] {
          assert SectionsOf(names + [configurations[k]]) == SectionsOf(names) + [Configuration(configurations[k])];
          lines := lines + [Configuration(configurations[k])];
        }
      }
      assert configurations[..|configurations|] == configurations;
    }
    assert order[..|order|] == order;
  }

  function Names(lines: seq<Line>): seq<string> {
    if lines == [] then []
    else Names(lines[..|lines| - 1]) + if lines[|lines| - 1].Configuration? then [lines[|lines| - 1].name] else []
  }

  /** The heading a line stands under. */
  function VendorAt(lines: seq<Line>, i: nat): Option<string>
    requires i < |lines|
  {
    if lines[i].Heading? then Some(lines[i].vendor) else if i == 0 then None else VendorAt(lines, i - 1)
  }

  lemma {:induction false} NamesConcat(a: seq<Line>, b: seq<Line>)
    ensures Names(a + b) == Names(a) + Names(b)
    decreases |b|
  {
    if b == [] {
      assert a + b == a;
    } else {
      assert (a + b)[..|a + b| - 1] == a + b[..|b| - 1];
      NamesConcat(a, b[..|b| - 1]);
    }
  }

  lemma {:induction false} NamesOfSections(names: seq<string>)
    ensures Names(SectionsOf(names)) == names
  {
    if names != [] {
      var init := names[..|names| - 1];
      NamesOfSections(init);
      assert SectionsOf(names)[..|names| - 1] == SectionsOf(init);
      assert names == init + [names[|names| - 1]];
    }
  }

  lemma {:induction false} OfVendorCounts(configurations: seq<string>, vendors: map<string, string>, vendor: string)
    requires forall c :: c in configurations ==> c in vendors
    ensures forall x :: multiset(OfVendor(configurations, vendors, vendor))[x] ==
              if x in vendors && vendors[x] == vendor then multiset(configurations)[x] else 0
  {
    if configurations != [] {
      OfVendorCounts(configurations[..|configurations| - 1], vendors, vendor);
      assert configurations == configurations[..|configurations| - 1] + [configurations[|configurations| - 1]];
    }
  }

  lemma {:induction false} PageCounts(order: seq<string>, configurations: seq<string>, vendors: map<string, string>)
    requires Distinct(order) && forall c :: c in configurations ==> c in vendors
    ensures forall x :: multiset(Names(Page(order, configurations, vendors)))[x] ==
              if x in vendors && vendors[x] in order then multiset(configurations)[x] else 0
  {
    hide OfVendor, Page, Names;
    if order == [] {
      EmptyPage(configurations, vendors);
    } else {
      var n := |order| - 1;
      PageCounts(order[..n], configurations, vendors);
      OfVendorCounts(configurations, vendors, order[n]);
      PageSnoc(order, configurations, vendors);
      assert order == order[..n] + [order[n]];
    }
  }

  lemma EmptyPage(configurations: seq<string>, vendors: map<string, string>)
    requires forall c :: c in configurations ==> c in vendors
    ensures Names(Page([], configurations, vendors)) == []
  {
  }

  lemma PageSnoc(order: seq<string>, configurations: seq<string>, vendors: map<string, string>)
    requires order != [] && forall c :: c in configurations ==> c in vendors
    ensures Names(Page(order, configurations, vendors)) ==
            Names(Page(order[..|order| - 1], configurations, vendors)) +
              OfVendor(configurations, vendors, order[|order| - 1])
  {
    hide OfVendor, Names;
    var last := order[|order| - 1];
    var names := OfVendor(configurations, vendors, last);
    var sections := SectionsOf(names);
    var before := Page(order[..|order| - 1], configurations, vendors);
    NamesConcat(before + [Heading(last)], sections);
    NamesConcat(before, [Heading(last)]);
    NamesOfSections(names);
    HeadingHasNoName(last);
    assert Page(order, configurations, vendors) == before + [Heading(last)] + sections;
    assert Names(before) + [] == Names(before);
  }

  lemma HeadingHasNoName(vendor: string)
    ensures Names([Heading(vendor)]) == []
  {
    assert [Heading(vendor)][..0] == [];
  }

  /** Every configuration has one section on the page, when the vendors listed are
      those of the configurations, each once. */
  lemma PageHasEveryConfiguration(order: seq<string>, configurations: seq<string>, vendors: map<string, string>)
    requires Distinct(order) && forall c :: c in configurations ==> c in vendors && vendors[c] in order
    ensures multiset(Names(Page(order, configurations, vendors))) == multiset(configurations)
  {
    PageCounts(order, configurations, vendors);
  }

  /** And it stands under its own vendor's heading. */
  lemma {:induction false} SectionsStandUnderTheirVendor(order: seq<string>, configurations: seq<string>,
        vendors: map<string, string>, i: nat)
    requires forall c :: c in configurations ==> c in vendors
    requires i < |Page(order, configurations, vendors)| && Page(order, configurations, vendors)[i].Configuration?
    ensures var lines := Page(order, configurations, vendors);
            lines[i].name in configurations && VendorAt(lines, i) == Some(vendors[lines[i].name])
  {
    var n := |order| - 1;
    var before := Page(order[..n], configurations, vendors);
    var lines := Page(order, configurations, vendors);
    if i < |before| {
      SectionsStandUnderTheirVendor(order[..n], configurations, vendors, i);
      SameVendor(before, lines, i);
    } else {
      var names := OfVendor(configurations, vendors, order[n]);
      VendorsOwn(configurations, vendors, order[n], i - |before| - 1);
      UnderHeading(lines, |before|, i);
    }
  }

  lemma {:induction false} SameVendor(before: seq<Line>, lines: seq<Line>, i: nat)
    requires before <= lines && i < |before|
    ensures VendorAt(before, i) == VendorAt(lines, i)
  {
    if before[i].Configuration? && i > 0 {
      SameVendor(before, lines, i - 1);
    }
  }

  lemma {:induction false} UnderHeading(lines: seq<Line>, h: nat, i: nat)
    requires h <= i < |lines| && lines[h].Heading? && forall k :: h < k <= i ==> lines[k].Configuration?
    ensures VendorAt(lines, i) == Some(lines[h].vendor)
  {
    if i > h {
      UnderHeading(lines, h, i - 1);
    }
  }

  lemma {:induction false} VendorsOwn(configurations: seq<string>, vendors: map<string, string>,
        vendor: string, k: nat)
    requires forall c :: c in configurations ==> c in vendors
    requires k < |OfVendor(configurations, vendors, vendor)|
    ensures var name := OfVendor(configurations, vendors, vendor)[k];
            name in configurations && vendors[name] == vendor
  {
    var n := |configurations| - 1;
    if k < |OfVendor(configurations[..n], vendors, vendor)| {
      VendorsOwn(configurations[..n], vendors, vendor, k);
    }
  }

  // --- in what order -------------------------------------------------------------------------------------------

  lemma {:induction false} OfVendorKeepsOrder(configurations: seq<string>, vendors: map<string, string>, c: string,
        d: string)
    requires forall x :: x in configurations ==> x in vendors
    requires Before(configurations, c, d) && c in vendors && d in vendors && vendors[c] == vendors[d]
    ensures Before(OfVendor(configurations, vendors, vendors[c]), c, d)
  {
    var i, j :| 0 <= i < j < |configurations| && configurations[i] == c && configurations[j] == d;
    var n := |configurations| - 1;
    var init, last := configurations[..n], configurations[n];
    var kept := OfVendor(init, vendors, vendors[c]);
    if j < n {
      assert init[i] == c && init[j] == d;
      OfVendorKeepsOrder(init, vendors, c, d);
      BeforeConcat(kept, if vendors[last] == vendors[c] then [last] else [], c, d);
    } else {
      assert init[i] == c;
      OfVendorHas(init, vendors, c);
      BeforeConcat(kept, [d], c, d);
    }
  }

  lemma {:induction false} OfVendorHas(configurations: seq<string>, vendors: map<string, string>, c: string)
    requires c in configurations && forall x :: x in configurations ==> x in vendors
    ensures c in OfVendor(configurations, vendors, vendors[c])
  {
    var n := |configurations| - 1;
    if configurations[n] != c {
      assert configurations == configurations[..n] + [configurations[n]];
      OfVendorHas(configurations[..n], vendors, c);
    }
  }

  lemma {:induction false} PageHas(order: seq<string>, configurations: seq<string>, vendors: map<string, string>,
        c: string)
    requires forall x :: x in configurations ==> x in vendors
    requires c in configurations && vendors[c] in order
    ensures c in Names(Page(order, configurations, vendors))
  {
    hide Names, Page, OfVendor;
    var n := |order| - 1;
    PageSnoc(order, configurations, vendors);
    if vendors[c] == order[n] {
      OfVendorHas(configurations, vendors, c);
    } else {
      assert order == order[..n] + [order[n]];
      PageHas(order[..n], configurations, vendors, c);
    }
  }

  /** Sections follow the order of their vendors, and under one vendor that of the
      configurations. */
  lemma {:induction false} PageFollows(order: seq<string>, configurations: seq<string>, vendors: map<string, string>,
        c: string, d: string)
    requires forall x :: x in configurations ==> x in vendors
    requires c in configurations && d in configurations && vendors[c] in order && vendors[d] in order
    requires Before(order, vendors[c], vendors[d]) || (vendors[c] == vendors[d] && Before(configurations, c, d))
    ensures Before(Names(Page(order, configurations, vendors)), c, d)
  {
    hide Names, Page, OfVendor;
    var n := |order| - 1;
    var init, last := order[..n], order[n];
    assert order == init + [last];
    PageSnoc(order, configurations, vendors);
    var names := Names(Page(init, configurations, vendors));
    if vendors[c] == vendors[d] && Before(configurations, c, d) {
      if vendors[c] == last {
        OfVendorKeepsOrder(configurations, vendors, c, d);
      } else {
        PageFollows(init, configurations, vendors, c, d);
      }
    } else {
      var i, j :| 0 <= i < j < |order| && order[i] == vendors[c] && order[j] == vendors[d];
      assert init[i] == vendors[c];
      if j < n {
        assert init[j] == vendors[d];
        PageFollows(init, configurations, vendors, c, d);
      } else {
        PageHas(init, configurations, vendors, c);
        OfVendorHas(configurations, vendors, d);
      }
    }
    BeforeConcat(names, OfVendor(configurations, vendors, last), c, d);
  }
}
