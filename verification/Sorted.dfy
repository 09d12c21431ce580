/** `sorted(set(strings))`. */
module Sorted {
  import opened Common

  /** Strings in the order Python gives them. */
  predicate AtMost(a: string, b: string) {
    if a == [] then true
    else if b == [] then false
    else if a[0] == b[0] then AtMost(a[1..], b[1..])
    else a[0] < b[0]
  }

  /** They part at `k`, where `a` is the smaller. */
  ghost predicate PartAt(a: string, b: string, k: nat) {
    k < |a| && k < |b| && a[..k] == b[..k] && a[k] < b[k]
  }

  lemma PartCons(a: string, b: string, k: nat)
    requires a != [] && b != [] && a[0] == b[0]
    ensures PartAt(a, b, k + 1) <==> PartAt(a[1..], b[1..], k)
  {
    if k + 1 < |a| && k + 1 < |b| {
      assert a[..k + 1] == [a[0]] + a[1..][..k] && b[..k + 1] == [b[0]] + b[1..][..k];
      assert a[1..][..k] == a[..k + 1][1..] && b[1..][..k] == b[..k + 1][1..];
    }
  }

  /** Code point by code point: `a` starts `b`, or is the smaller where they part. */
  lemma {:induction false} AtMostIff(a: string, b: string)
    ensures AtMost(a, b) <==> a <= b || exists k: nat :: PartAt(a, b, k)
  {
    if a != [] && b != [] && a[0] == b[0] {
      AtMostIff(a[1..], b[1..]);
      assert a <= b <==> a[1..] <= b[1..];
      forall k: nat ensures PartAt(a, b, k + 1) <==> PartAt(a[1..], b[1..], k) {
        PartCons(a, b, k);
      }
      if k: nat :| PartAt(a[1..], b[1..], k) {
        assert PartAt(a, b, k + 1);
      }
      if k: nat :| PartAt(a, b, k) {
        assert PartAt(a[1..], b[1..], k - 1);
      }
    } else if a != [] && b != [] && a[0] < b[0] {
      assert PartAt(a, b, 0);
    }
  }

  function Insert(x: string, s: seq<string>): seq<string> {
    if s == [] || AtMost(x, s[0]) then [x] + s else [s[0]] + Insert(x, s[1..])
  }

  function SortedSet(s: seq<string>): seq<string> {
    if s == [] then []
    else
      var rest := SortedSet(s[1..]);
      if s[0] in rest then rest else Insert(s[0], rest)
  }

  lemma {:induction false} InsertAdds(x: string, s: seq<string>)
    ensures multiset(Insert(x, s)) == multiset(s) + multiset{x}
  {
    if s != [] && !AtMost(x, s[0]) {
      InsertAdds(x, s[1..]);
      assert s == [s[0]] + s[1..];
    }
  }

  lemma {:induction false} SortedSetOnce(s: seq<string>)
    ensures forall x :: multiset(SortedSet(s))[x] == if x in s then 1 else 0
    ensures Distinct(SortedSet(s))
  {
    if s != [] {
      SortedSetOnce(s[1..]);
      InsertAdds(s[0], SortedSet(s[1..]));
    }
    OnceIsDistinct(SortedSet(s));
  }

  lemma {:induction false} OnceIsDistinct(s: seq<string>)
    requires forall x :: multiset(s)[x] <= 1
    ensures Distinct(s)
  {
    if s != [] {
      var init, last := s[..|s| - 1], s[|s| - 1];
      assert s == init + [last];
      assert forall x :: multiset(s)[x] == multiset(init)[x] + multiset([last])[x];
      OnceIsDistinct(init);
      assert last !in init by {
        assert multiset(init)[last] == 0;
      }
    }
  }

  lemma {:induction false} AtMostIsTotal(a: string, b: string)
    ensures AtMost(a, b) || AtMost(b, a)
  {
    if a != [] && b != [] && a[0] == b[0] {
      AtMostIsTotal(a[1..], b[1..]);
    }
  }

  ghost predicate Ascending(s: seq<string>) {
    forall i :: 0 <= i < |s| - 1 ==> AtMost(s[i], s[i + 1])
  }

  lemma {:induction false} InsertAscends(x: string, s: seq<string>)
    requires Ascending(s)
    ensures Ascending(Insert(x, s))
    ensures s != [] && AtMost(s[0], x) ==> AtMost(s[0], Insert(x, s)[0])
  {
    hide AtMost;
    if s != [] {
      AtMostIsTotal(x, s[0]);
      AtMostIsTotal(s[0], s[0]);
      if !AtMost(x, s[0]) {
        InsertAscends(x, s[1..]);
        ConsAscends(s[0], Insert(x, s[1..]));
      } else {
        ConsAscends(x, s);
      }
    }
  }

  lemma ConsAscends(first: string, s: seq<string>)
    requires Ascending(s) && (s != [] ==> AtMost(first, s[0]))
    ensures Ascending([first] + s)
  {
    hide AtMost;
    var r := [first] + s;
    assert forall i :: 0 < i < |r| ==> r[i] == s[i - 1];
  }

  /** And in order. */
  lemma {:induction false} SortedSetAscends(s: seq<string>)
    ensures Ascending(SortedSet(s))
  {
    if s != [] {
      SortedSetAscends(s[1..]);
      InsertAscends(s[0], SortedSet(s[1..]));
    }
  }

  lemma {:induction false} AtMostBoth(a: string, b: string)
    requires AtMost(a, b) && AtMost(b, a)
    ensures a == b
  {
    if a != [] && b != [] {
      AtMostBoth(a[1..], b[1..]);
      assert a == [a[0]] + a[1..] && b == [b[0]] + b[1..];
    }
  }

  lemma {:induction false} AtMostChains(a: string, b: string, c: string)
    requires AtMost(a, b) && AtMost(b, c)
    ensures AtMost(a, c)
  {
    if a != [] && b != [] && c != [] && a[0] == b[0] == c[0] {
      AtMostChains(a[1..], b[1..], c[1..]);
    }
  }

  lemma {:induction false} AscendingFar(s: seq<string>, i: nat, j: nat)
    requires Ascending(s) && i <= j < |s|
    ensures AtMost(s[i], s[j])
    decreases j
  {
    hide AtMost;
    AtMostIsTotal(s[i], s[i]);
    if i < j {
      AscendingFar(s, i, j - 1);
      AtMostChains(s[i], s[j - 1], s[j]);
    }
  }

  /** In the sorted set the smaller of two members comes first. */
  lemma SmallerFirst(s: seq<string>, a: string, b: string)
    requires a in s && b in s && a != b && AtMost(a, b)
    ensures exists i, j :: 0 <= i < j < |SortedSet(s)| && SortedSet(s)[i] == a && SortedSet(s)[j] == b
  {
    hide AtMost, Ascending, SortedSet;
    var all := SortedSet(s);
    SortedSetAscends(s);
    SortedSetOnce(s);
    assert multiset(all)[a] == 1 && multiset(all)[b] == 1;
    var i :| 0 <= i < |all| && all[i] == a;
    var j :| 0 <= j < |all| && all[j] == b;
    if j < i {
      AscendingFar(all, j, i);
      AtMostBoth(a, b);
    }
  }
}
