/** Which boots a session starts, and in what order. */
module BootQueue {
  import opened Common

  /** What a collected test names: its fixtures and its parameters' values. */
  datatype Param = Named(name: string) | Other

  datatype Item = Item(nodeid: string, named: seq<Param>)

  function Strings(named: seq<Param>): seq<string> {
    if named == [] then []
    else (if named[0].Named? then [named[0].name] else []) + Strings(named[1..])
  }

  function Within(s: seq<string>, names: set<string>): seq<string> {
    if s == [] then []
    else (if s[0] in names then [s[0]] else []) + Within(s[1..], names)
  }

  /** The boots a test takes, once each, in the order it names them. */
  function Taken(item: Item, names: set<string>): seq<string> {
    Within(Dedup(Strings(item.named)), names)
  }

  /** The boots of all the tests, one test after the other. */
  function Wanted(items: seq<Item>, names: set<string>): seq<string> {
    if items == [] then []
    else Wanted(items[..|items| - 1], names) + Taken(items[|items| - 1], names)
  }

  function EntriesAfter(before: map<string, seq<string>>, items: seq<Item>, names: set<string>): map<string,
        seq<string>> {
    if items == [] then before
    else
      var last := items[|items| - 1];
      EntriesAfter(before, items[..|items| - 1], names)[last.nodeid := Taken(last, names)]
  }

  // --- sorted(..., key=...) ------------------------------------------------------------------------

  predicate Keyed(s: seq<string>, key: map<string, nat>) {
    forall i :: 0 <= i < |s| ==> s[i] in key
  }

  ghost predicate Ordered(s: seq<string>, key: map<string, nat>)
    requires Keyed(s, key)
  {
    forall i, j :: 0 <= i < j < |s| ==> key[s[i]] <= key[s[j]]
  }

  /** `x` behind everything in `s` that does not come after it. */
  function Insert(s: seq<string>, x: string, key: map<string, nat>): (r: seq<string>)
    requires Keyed(s, key) && x in key
    ensures Keyed(r, key) && multiset(r) == multiset(s) + multiset{x}
  {
    if s == [] || key[s[|s| - 1]] <= key[x] then s + [x]
    else
      var rest := Insert(s[..|s| - 1], x, key);
      assert s == s[..|s| - 1] + [s[|s| - 1]];
      rest + [s[|s| - 1]]
  }

  /** The stable sort by key. */
  function Sorted(s: seq<string>, key: map<string, nat>): (r: seq<string>)
    requires Keyed(s, key)
    ensures Keyed(r, key) && multiset(r) == multiset(s)
  {
    if s == [] then []
    else
      assert s == s[..|s| - 1] + [s[|s| - 1]];
      Insert(Sorted(s[..|s| - 1], key), s[|s| - 1], key)
  }

  lemma {:induction false} InsertKeepsOrder(s: seq<string>, x: string, key: map<string, nat>)
    requires Keyed(s, key) && x in key && Ordered(s, key)
    ensures Ordered(Insert(s, x, key), key)
    ensures forall y :: y in Insert(s, x, key) <==> y == x || y in s
  {
    if s != [] && key[s[|s| - 1]] > key[x] {
      var init, last := s[..|s| - 1], s[|s| - 1];
      InsertKeepsOrder(init, x, key);
      var rest := Insert(init, x, key);
      forall i | 0 <= i < |rest| ensures key[rest[i]] <= key[last] {
        if rest[i] != x {
          assert rest[i] in init;
        }
      }
      assert s == init + [last];
    }
  }

  lemma {:induction false} SortedIsOrdered(s: seq<string>, key: map<string, nat>)
    requires Keyed(s, key)
    ensures Ordered(Sorted(s, key), key)
  {
    if s != [] {
      SortedIsOrdered(s[..|s| - 1], key);
      InsertKeepsOrder(Sorted(s[..|s| - 1], key), s[|s| - 1], key);
    }
  }

  lemma OrderedInit(s: seq<string>, key: map<string, nat>)
    requires s != [] && Keyed(s, key) && Ordered(s, key)
    ensures var init, last := s[..|s| - 1], s[|s| - 1];
            && Keyed(init, key) && Ordered(init, key) && last in key
            && (init != [] ==> init[|init| - 1] in key && key[init[|init| - 1]] <= key[last])
  {
    assert |s| > 1 ==> s[..|s| - 1][|s| - 2] == s[|s| - 2];
  }

  /** What is in order already is left alone. */
  lemma {:induction false} SortedIsIdentity(s: seq<string>, key: map<string, nat>)
    requires Keyed(s, key) && Ordered(s, key)
    ensures Sorted(s, key) == s
  {
    if s != [] {
      hide Ordered, Keyed;
      var init := s[..|s| - 1];
      OrderedInit(s, key);
      SortedIsIdentity(init, key);
      assert s == init + [s[|s| - 1]];
    }
  }

  // --- collection ------------------------------------------------------------------------------------

  /** The first test that wants each boot, by number, after `i` tests. */
  ghost predicate FirstWantedOk(first: Dict<string, nat>, flat: seq<string>, i: nat) {
    && first.keys == Dedup(flat)
    && (forall name :: name in first.vals <==> name in first.keys)
    && Keyed(first.keys, first.vals) && Ordered(first.keys, first.vals)
    && forall k :: 0 <= k < |first.keys| ==> first.vals[first.keys[k]] <= i
  }

  lemma WantNext(first: Dict<string, nat>, flat: seq<string>, name: string, i: nat)
    requires FirstWantedOk(first, flat, i)
    ensures FirstWantedOk(if name in first.vals then first else first.Put(name, i), flat + [name], i)
  {
    assert (flat + [name])[..|flat|] == flat;
    hide Ordered;
    assert Dedup(flat + [name]) == if name in first.keys then first.keys else first.keys + [name];
    if name !in first.vals {
      StaysOrdered(first, name, i);
    }
  }

  lemma StaysOrdered(first: Dict<string, nat>, name: string, i: nat)
    requires name !in first.vals && name !in first.keys
    requires Keyed(first.keys, first.vals) && Ordered(first.keys, first.vals)
    requires forall k :: 0 <= k < |first.keys| ==> first.vals[first.keys[k]] <= i
    ensures var more := first.Put(name, i); Keyed(more.keys, more.vals) && Ordered(more.keys, more.vals)
  {
  }

  /** The part of the session that collection feeds. */
  class Collection {
    /** The fixture names that stand for a boot. */
    const names: set<string>

    var entries: map<string, seq<string>>

    /** The boots handed to the pool, in order. */
    var submitted: seq<string>

    constructor (names: set<string>)
      ensures this.names == names && entries == map[] && submitted == []
    {
      this.names := names;
      entries, submitted := map[], [];
    }

    /** Submits every boot the tests want, once, in the order they first want it. */
    method ModifyItems(collectOnly: bool, items: seq<Item>)
      modifies this
      ensures collectOnly ==> entries == old(entries) && submitted == old(submitted)
      ensures !collectOnly ==>
                && entries == EntriesAfter(old(entries), items, names)
                && submitted == old(submitted) + Dedup(Wanted(items, names))
    {
      hide FirstWantedOk, Taken, Dedup, Sorted, Ordered;
      if collectOnly {
        return;
      }
      NoneWanted();
      var first: Dict<string, nat> := EmptyDict();
      for index := 0 to |items|
        invariant FirstWantedOk(first, Wanted(items[..index], names), index)
        invariant entries == EntriesAfter(old(entries), items[..index], names)
        invariant submitted == old(submitted)
      {
        var item := items[index];
        var taken := Taken(item, names);
        entries := entries[item.nodeid := taken];
        assert items[..index + 1][..index] == items[..index];
        first := WantAll(first, Wanted(items[..index], names), taken, index);
        LaterStill(first, Wanted(items[..index + 1], names), index);
      }
      assert items[..|items|] == items;
      WantedInOrder(first, Wanted(items, names), |items|);
      if first.keys == [] {
        assert submitted == old(submitted) + [];
        return;
      }
      SortedIsIdentity(first.keys, first.vals);
      Submit(Sorted(first.keys, first.vals));
    }

    method Submit(wanted: seq<string>)
      modifies `submitted
      ensures submitted == old(submitted) + wanted
    {
      for k := 0 to |wanted|
        invariant submitted == old(submitted) + wanted[..k]
      {
        submitted := submitted + [wanted[k]];
      }
    }
  }

  /** `setdefault` for the boots of one test. */
  method WantAll(before: Dict<string, nat>, ghost flat: seq<string>, taken: seq<string>, index: nat)
    returns (first: Dict<string, nat>)
    requires FirstWantedOk(before, flat, index)
    ensures FirstWantedOk(first, flat + taken, index)
  {
    hide FirstWantedOk;
    first := before;
    assert flat + taken[..0] == flat;
    for k := 0 to |taken|
      invariant FirstWantedOk(first, flat + taken[..k], index)
    {
      WantNext(first, flat + taken[..k], taken[k], index);
      assert flat + taken[..k] + [taken[k]] == flat + taken[..k + 1];
      if taken[k] !in first.vals {
        first := first.Put(taken[k], index);
      }
    }
    assert taken[..|taken|] == taken;
  }

  lemma NoneWanted()
    ensures FirstWantedOk(EmptyDict(), [], 0)
  {
  }

  lemma LaterStill(first: Dict<string, nat>, flat: seq<string>, i: nat)
    requires FirstWantedOk(first, flat, i)
    ensures FirstWantedOk(first, flat, i + 1)
  {
  }

  lemma WantedInOrder(first: Dict<string, nat>, flat: seq<string>, i: nat)
    requires FirstWantedOk(first, flat, i)
    ensures first.keys == Dedup(flat)
    ensures Keyed(first.keys, first.vals) && Ordered(first.keys, first.vals)
  {
  }

  // --- what the queue is -----------------------------------------------------------------------------

  lemma {:induction false} WithinMembers(s: seq<string>, names: set<string>)
    ensures forall x :: x in Within(s, names) <==> x in s && x in names
  {
    if s != [] {
      WithinMembers(s[1..], names);
    }
  }

  lemma {:induction false} WithinDistinct(s: seq<string>, names: set<string>)
    requires Distinct(s)
    ensures Distinct(Within(s, names))
  {
    if s != [] {
      WithinDistinct(s[1..], names);
      WithinMembers(s[1..], names);
    }
  }

  lemma {:induction false} StringsMembers(named: seq<Param>)
    ensures forall x :: x in Strings(named) <==> Named(x) in named
  {
    if named != [] {
      StringsMembers(named[1..]);
    }
  }

  /** A test takes each boot it names, by a fixture or by a parameter, once. */
  lemma TakenMeans(item: Item, names: set<string>)
    ensures Distinct(Taken(item, names))
    ensures forall x :: x in Taken(item, names) <==> Named(x) in item.named && x in names
  {
    hide Dedup, Strings;
    StringsMembers(item.named);
    DedupMembers(Strings(item.named));
    WithinMembers(Dedup(Strings(item.named)), names);
    WithinDistinct(Dedup(Strings(item.named)), names);
  }

  /** `part` stands in `s` at `ks`, in order. */
  ghost predicate PlacesOk(ks: seq<nat>, s: seq<string>, part: seq<string>) {
    && |ks| == |part|
    && (forall i :: 0 <= i < |ks| ==> ks[i] < |s| && part[i] == s[ks[i]])
    && forall i, j :: 0 <= i < j < |ks| ==> ks[i] < ks[j]
  }

  lemma PlacesBehind(ks: seq<nat>, x: string, s: seq<string>, part: seq<string>) returns (more: seq<nat>)
    requires PlacesOk(ks, s, part)
    ensures PlacesOk(more, [x] + s, part) && forall i :: 0 <= i < |more| ==> more[i] > 0
  {
    more := seq(|ks|, i requires 0 <= i < |ks| => ks[i] + 1);
  }

  lemma PlacesFrom(more: seq<nat>, x: string, s: seq<string>, part: seq<string>)
    requires PlacesOk(more, [x] + s, part) && forall i :: 0 <= i < |more| ==> more[i] > 0
    ensures PlacesOk([0] + more, [x] + s, [x] + part)
  {
  }

  lemma {:induction false} WithinPlaces(s: seq<string>, names: set<string>) returns (ks: seq<nat>)
    ensures PlacesOk(ks, s, Within(s, names))
  {
    if s == [] {
      ks := [];
    } else {
      hide PlacesOk;
      var rest := WithinPlaces(s[1..], names);
      assert s == [s[0]] + s[1..];
      ks := PlacesBehind(rest, s[0], s[1..], Within(s[1..], names));
      if s[0] in names {
        PlacesFrom(ks, s[0], s[1..], Within(s[1..], names));
        ks := [0] + ks;
      } else {
        assert [] + Within(s[1..], names) == Within(s[1..], names);
      }
    }
  }

  lemma {:induction false} StringsLead(named: seq<Param>, x: string, y: string)
    requires Leads(Strings(named), x, y)
    ensures Leads(named, Named(x), Named(y))
  {
    hide Leads;
    if named == [] {
      NothingLeads(x, y);
    } else {
      var rest := Strings(named[1..]);
      assert named == [named[0]] + named[1..];
      LeadsCons(named[0], named[1..], Named(x), Named(y));
      if named[0].Named? {
        LeadsCons(named[0].name, rest, x, y);
        if named[0].name != x {
          StringsLead(named[1..], x, y);
        }
      } else {
        assert Strings(named) == rest;
        LeadsDiffer(rest, x, y);
        StringsLead(named[1..], x, y);
      }
    }
  }

  lemma NothingLeads(x: string, y: string)
    ensures !Leads([], x, y)
  {
  }

  lemma LeadsDiffer(s: seq<string>, x: string, y: string)
    ensures Leads(s, x, y) ==> x != y
  {
    if Leads(s, x, y) {
      var a :| 0 <= a < |s| && s[a] == x && y !in s[..a + 1];
      assert s[..a + 1][a] == x;
    }
  }

  /** And in the order in which it names them first. */
  lemma TakenInOrder(item: Item, names: set<string>, i: nat, j: nat)
    requires i < j < |Taken(item, names)|
    ensures Leads(item.named, Named(Taken(item, names)[i]), Named(Taken(item, names)[j]))
  {
    hide Dedup, Strings, Within, Leads;
    var all := Dedup(Strings(item.named));
    var ks := WithinPlaces(all, names);
    DedupOrdered(Strings(item.named));
    assert Leads(Strings(item.named), all[ks[i]], all[ks[j]]);
    StringsLead(item.named, all[ks[i]], all[ks[j]]);
  }

  /** The test that makes a boot come ahead of another takes it, before any takes the
      other, or names it first itself. */
  ghost predicate WantsFirst(items: seq<Item>, names: set<string>, k: nat, x: string, y: string) {
    && k < |items| && x in Taken(items[k], names)
    && (forall m :: 0 <= m < k ==> y !in Taken(items[m], names))
    && (y in Taken(items[k], names) ==> Leads(Taken(items[k], names), x, y))
  }

  lemma {:induction false} WantedLeads(items: seq<Item>, names: set<string>, x: string, y: string) returns (k: nat)
    requires Leads(Wanted(items, names), x, y)
    ensures WantsFirst(items, names, k, x, y)
  {
    hide Taken;
    var flat := Wanted(items, names);
    var a :| 0 <= a < |flat| && flat[a] == x && y !in flat[..a + 1];
    var n := |items| - 1;
    var before, last := Wanted(items[..n], names), Taken(items[n], names);
    if a < |before| {
      assert before[..a + 1] == flat[..a + 1];
      k := WantedLeads(items[..n], names, x, y);
    } else {
      k := n;
      assert last[a - |before|] == x;
      assert flat[..a + 1] == before + last[..a - |before| + 1];
      WantedMembers(items[..n], names);
      forall m | 0 <= m < n ensures y !in Taken(items[m], names) {
        assert items[..n][m] == items[m];
      }
    }
  }

  /** The whole order of the queue. */
  lemma QueueOrder(items: seq<Item>, names: set<string>, i: nat, j: nat) returns (k: nat)
    requires i < j < |Dedup(Wanted(items, names))|
    ensures WantsFirst(items, names, k, Dedup(Wanted(items, names))[i], Dedup(Wanted(items, names))[j])
  {
    hide Taken, Wanted, Leads, WantsFirst;
    DedupOrdered(Wanted(items, names));
    k := WantedLeads(items, names, Dedup(Wanted(items, names))[i], Dedup(Wanted(items, names))[j]);
  }

  /** Collecting leaves the entries of other tests alone. */
  lemma {:induction false} OtherEntriesStay(before: map<string, seq<string>>, items: seq<Item>, names: set<string>,
        id: string)
    requires forall i :: 0 <= i < |items| ==> items[i].nodeid != id
    ensures id in EntriesAfter(before, items, names) <==> id in before
    ensures id in before ==> EntriesAfter(before, items, names)[id] == before[id]
  {
    hide Taken;
    if items != [] {
      OtherEntriesStay(before, items[..|items| - 1], names, id);
    }
  }

  /** A test's entries are what its last collected item takes. */
  lemma {:induction false} EntriesAreTaken(before: map<string, seq<string>>, items: seq<Item>, names: set<string>,
        i: nat)
    requires i < |items| && forall j :: i < j < |items| ==> items[j].nodeid != items[i].nodeid
    ensures items[i].nodeid in EntriesAfter(before, items, names)
    ensures EntriesAfter(before, items, names)[items[i].nodeid] == Taken(items[i], names)
    decreases |items|
  {
    hide Taken;
    if i < |items| - 1 {
      EntriesAreTaken(before, items[..|items| - 1], names, i);
    }
  }

  lemma {:induction false} WantedMembers(items: seq<Item>, names: set<string>)
    ensures forall x :: x in Wanted(items, names) <==> exists i :: 0 <= i < |items| && x in Taken(items[i], names)
  {
    hide Taken;
    if items != [] {
      var n := |items| - 1;
      WantedMembers(items[..n], names);
      forall x ensures x in Wanted(items, names) <==> exists i :: 0 <= i < |items| && x in Taken(items[i], names) {
        if x in Wanted(items[..n], names) {
          var i :| 0 <= i < n && x in Taken(items[..n][i], names);
          assert x in Taken(items[i], names);
        }
        if i :| 0 <= i < |items| && x in Taken(items[i], names) {
          if i < n {
            assert x in Taken(items[..n][i], names);
          }
        }
      }
    }
  }

  /** Each boot some test takes is queued exactly once, and no other. */
  lemma QueuedOnce(items: seq<Item>, names: set<string>)
    ensures Distinct(Dedup(Wanted(items, names)))
    ensures forall x :: x in Dedup(Wanted(items, names)) <==>
              exists i :: 0 <= i < |items| && x in Taken(items[i], names)
  {
    DedupMembers(Wanted(items, names));
    WantedMembers(items, names);
  }

  lemma {:induction false} DedupPrefix(a: seq<string>, b: seq<string>)
    ensures Dedup(a) <= Dedup(a + b)
    decreases |b|
  {
    if b == [] {
      assert a + b == a;
    } else {
      assert (a + b)[..|a + b| - 1] == a + b[..|b| - 1];
      DedupPrefix(a, b[..|b| - 1]);
    }
  }

  lemma {:induction false} WantedPrefix(items: seq<Item>, n: nat, names: set<string>) returns (rest: seq<string>)
    requires n <= |items|
    ensures Wanted(items, names) == Wanted(items[..n], names) + rest
    decreases |items|
  {
    if n == |items| {
      rest := [];
      assert items[..n] == items;
    } else {
      var m := |items| - 1;
      assert items[..m][..n] == items[..n];
      var more := WantedPrefix(items[..m], n, names);
      rest := more + Taken(items[m], names);
    }
  }

  /** A boot that test `i` takes is queued ahead of every boot that no test up to
      `i` takes. */
  lemma QueuedBeforeLaterBoots(items: seq<Item>, names: set<string>, i: nat, early: string, late: string)
    requires i < |items| && early in Taken(items[i], names)
    requires late in Wanted(items, names) && forall k :: 0 <= k <= i ==> late !in Taken(items[k], names)
    ensures var queue := Dedup(Wanted(items, names));
            exists a, b :: 0 <= a < b < |queue| && queue[a] == early && queue[b] == late
  {
    hide Taken;
    var rest := WantedPrefix(items, i + 1, names);
    var head := Wanted(items[..i + 1], names);
    DedupPrefix(head, rest);
    DedupMembers(head);
    DedupMembers(head + rest);
    WantedMembers(items[..i + 1], names);
    assert early in Taken(items[..i + 1][i], names);
    var queue := Dedup(Wanted(items, names));
    assert late in queue && early in Dedup(head);
    var a :| 0 <= a < |Dedup(head)| && Dedup(head)[a] == early;
    var b :| 0 <= b < |queue| && queue[b] == late;
    assert queue[a] == early;
    forall k | 0 <= k < |Dedup(head)| ensures queue[k] != late {
      assert queue[k] == Dedup(head)[k];
      if Dedup(head)[k] in head {
        var j :| 0 <= j < i + 1 && Dedup(head)[k] in Taken(items[..i + 1][j], names);
        assert Dedup(head)[k] in Taken(items[j], names);
      }
    }
  }
}
