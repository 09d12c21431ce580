/** `bytes.find`, and the offline scan the console's waits are held against. */
module Search {
  import opened Common

  ghost predicate OccursAt(s: Bytes, needle: Bytes, i: nat) {
    i + |needle| <= |s| && s[i..i + |needle|] == needle
  }

  ghost predicate Occurs(s: Bytes, needle: Bytes) {
    exists i :: OccursAt(s, needle, i)
  }

  /** `s.find(needle, from)`, `None` for -1. */
  function Find(s: Bytes, needle: Bytes, from: nat): (r: Option<nat>)
    ensures r.Some? ==> from <= r.value && r.value + |needle| <= |s|
    decreases |s| - from
  {
    if from + |needle| > |s| then None
    else if s[from..from + |needle|] == needle then Some(from)
    else Find(s, needle, from + 1)
  }

  /** `Find` is the first occurrence at or after `from`, or there is none. */
  lemma {:induction false} FindIsFirst(s: Bytes, needle: Bytes, from: nat)
    ensures Find(s, needle, from).Some? ==> OccursAt(s, needle, Find(s, needle, from).value)
    ensures forall i: nat :: from <= i && OccursAt(s, needle, i) ==>
              Find(s, needle, from).Some? && Find(s, needle, from).value <= i
    decreases |s| - from
  {
    if from + |needle| <= |s| {
      if s[from..from + |needle|] != needle {
        FindIsFirst(s, needle, from + 1);
      }
    }
  }

  lemma FindOccurs(s: Bytes, needle: Bytes)
    ensures Find(s, needle, 0).Some? <==> Occurs(s, needle)
  {
    FindIsFirst(s, needle, 0);
  }

  /** An occurrence stays one as the stream grows, and none appears before its end. */
  lemma OccursInPrefix(s: Bytes, longer: Bytes, needle: Bytes, i: nat)
    requires s <= longer && i + |needle| <= |s|
    ensures OccursAt(longer, needle, i) <==> OccursAt(s, needle, i)
  {
    assert longer[i..i + |needle|] == s[i..i + |needle|];
  }

  /** What a snapshot finds is what the whole stream has first. */
  lemma FindInPrefix(s: Bytes, longer: Bytes, needle: Bytes, from: nat)
    requires s <= longer && Find(s, needle, from).Some?
    ensures Find(longer, needle, from) == Find(s, needle, from)
  {
    var at := Find(s, needle, from).value;
    FindIsFirst(s, needle, from);
    FindIsFirst(longer, needle, from);
    OccursInPrefix(s, longer, needle, at);
    var first := Find(longer, needle, from).value;
    OccursInPrefix(s, longer, needle, first);
  }

  // --- the offline scan -----------------------------------------------------------

  /** The leftmost non-overlapping occurrences of `needle` from `from` on. */
  function Scan(s: Bytes, needle: Bytes, from: nat): seq<nat>
    requires needle != []
    decreases |s| - from
  {
    match Find(s, needle, from)
    case None => []
    case Some(at) => [at] + Scan(s, needle, at + |needle|)
  }

  /** Where a scan that has taken its first `k` occurrences goes on from. */
  function After(s: Bytes, needle: Bytes, from: nat, k: nat): nat
    requires needle != [] && k <= |Scan(s, needle, from)|
  {
    if k == 0 then from else Scan(s, needle, from)[k - 1] + |needle|
  }

  /** That place is within the stream. */
  lemma AfterIsWithin(s: Bytes, needle: Bytes, from: nat, k: nat)
    requires needle != [] && k <= |Scan(s, needle, from)| && from <= |s|
    ensures from <= After(s, needle, from, k) <= |s|
  {
    ScanIsGreedy(s, needle, from);
    hide Scan;
    if k > 0 {
      assert OccursAt(s, needle, Scan(s, needle, from)[k - 1]);
    }
  }

  /** From there `Find` meets the next occurrence of the scan, or its end. */
  lemma {:induction false} FindNext(s: Bytes, needle: Bytes, from: nat, k: nat)
    requires needle != [] && k <= |Scan(s, needle, from)|
    ensures Find(s, needle, After(s, needle, from, k)) ==
            if k < |Scan(s, needle, from)| then Some(Scan(s, needle, from)[k]) else None
    decreases k
  {
    if k > 0 {
      var at := Find(s, needle, from).value;
      var rest := Scan(s, needle, at + |needle|);
      assert Scan(s, needle, from) == [at] + rest;
      FindNext(s, needle, at + |needle|, k - 1);
      assert After(s, needle, from, k) == After(s, needle, at + |needle|, k - 1);
    }
  }

  /** A scan of the stream so far is the start of the scan of the whole stream. */
  lemma {:induction false} ScanInPrefix(s: Bytes, longer: Bytes, needle: Bytes, from: nat)
    requires needle != [] && s <= longer
    ensures Scan(s, needle, from) <= Scan(longer, needle, from)
    decreases |s| - from
  {
    if Find(s, needle, from).Some? {
      FindInPrefix(s, longer, needle, from);
      ScanInPrefix(s, longer, needle, Find(s, needle, from).value + |needle|);
    }
  }

  /** `i` lies within one of the `width` wide stretches that start at `starts`. */
  ghost predicate Covered(starts: seq<nat>, width: nat, i: nat) {
    exists k :: 0 <= k < |starts| && starts[k] <= i < starts[k] + width
  }

  /** Occurrences from `from` on that do not overlap, every other one within them. */
  ghost predicate Greedy(starts: seq<nat>, s: Bytes, needle: Bytes, from: nat) {
    && (forall k :: 0 <= k < |starts| ==> from <= starts[k] && OccursAt(s, needle, starts[k]))
    && Apart(starts, |needle|)
    && (forall i: nat :: from <= i && OccursAt(s, needle, i) ==> Covered(starts, |needle|, i))
  }

  ghost predicate Apart(starts: seq<nat>, width: nat) {
    forall j, k :: 0 <= j < k < |starts| ==> starts[j] + width <= starts[k]
  }

  lemma CoveredCons(at: nat, rest: seq<nat>, width: nat, i: nat)
    requires at <= i < at + width || Covered(rest, width, i)
    ensures Covered([at] + rest, width, i)
  {
    var all := [at] + rest;
    if at <= i < at + width {
      assert all[0] == at;
    } else {
      var k :| 0 <= k < |rest| && rest[k] <= i < rest[k] + width;
      assert all[k + 1] == rest[k];
    }
  }

  lemma GreedyCons(s: Bytes, needle: Bytes, from: nat, rest: seq<nat>)
    requires needle != [] && Find(s, needle, from).Some?
    requires Greedy(rest, s, needle, Find(s, needle, from).value + |needle|)
    ensures Greedy([Find(s, needle, from).value] + rest, s, needle, from)
  {
    FindIsFirst(s, needle, from);
    var at := Find(s, needle, from).value;
    hide OccursAt, Find, Covered;
    forall i: nat | from <= i && OccursAt(s, needle, i) ensures Covered([at] + rest, |needle|, i) {
      CoveredCons(at, rest, |needle|, i);
    }
  }

  /** The scan is what its name says, and nothing else is. */
  lemma {:induction false} ScanIsGreedy(s: Bytes, needle: Bytes, from: nat)
    requires needle != []
    ensures Greedy(Scan(s, needle, from), s, needle, from)
    decreases |s| - from
  {
    hide Greedy, OccursAt;
    match Find(s, needle, from)
    case None =>
      FindIsFirst(s, needle, from);
      NothingGreedy(s, needle, from);
    case Some(at) =>
      ScanIsGreedy(s, needle, at + |needle|);
      GreedyCons(s, needle, from, Scan(s, needle, at + |needle|));
  }

  lemma NothingGreedy(s: Bytes, needle: Bytes, from: nat)
    requires forall i: nat :: from <= i ==> !OccursAt(s, needle, i)
    ensures Greedy([], s, needle, from)
  {
  }

  // --- what the scan passes over -----------------------------------------------------

  ghost predicate ListsAll(s: Bytes, needle: Bytes, from: nat)
    requires needle != []
  {
    forall i: nat :: from <= i && OccursAt(s, needle, i) ==> i in Scan(s, needle, from)
  }

  ghost predicate NoneOverlap(s: Bytes, needle: Bytes, from: nat) {
    forall i: nat, j: nat :: from <= i < j && OccursAt(s, needle, i) && OccursAt(s, needle, j) ==> i + |needle| <= j
  }

  lemma ListedAreApart(s: Bytes, needle: Bytes, from: nat)
    requires needle != [] && ListsAll(s, needle, from)
    ensures NoneOverlap(s, needle, from)
  {
    hide OccursAt, Scan, Covered;
    ScanIsGreedy(s, needle, from);
    var starts := Scan(s, needle, from);
    forall i: nat, j: nat | from <= i < j && OccursAt(s, needle, i) && OccursAt(s, needle, j)
      ensures i + |needle| <= j
    {
      var a :| 0 <= a < |starts| && starts[a] == i;
      var b :| 0 <= b < |starts| && starts[b] == j;
      assert a < b;
    }
  }

  lemma ApartAreListed(s: Bytes, needle: Bytes, from: nat)
    requires needle != [] && NoneOverlap(s, needle, from)
    ensures ListsAll(s, needle, from)
  {
    hide OccursAt, Scan, Apart;
    ScanIsGreedy(s, needle, from);
    var starts := Scan(s, needle, from);
    forall i: nat | from <= i && OccursAt(s, needle, i) ensures i in starts {
      var k :| 0 <= k < |starts| && starts[k] <= i < starts[k] + |needle|;
      assert starts[k] == i;
    }
  }

  /** The scan lists every occurrence exactly when no two of them overlap. */
  lemma ListsAllIff(s: Bytes, needle: Bytes, from: nat)
    requires needle != []
    ensures ListsAll(s, needle, from) <==> NoneOverlap(s, needle, from)
  {
    hide *;
    if ListsAll(s, needle, from) {
      ListedAreApart(s, needle, from);
    }
    if NoneOverlap(s, needle, from) {
      ApartAreListed(s, needle, from);
    }
  }

  lemma CoveredIsListed(starts: seq<nat>, all: seq<nat>, width: nat, p: nat)
    requires starts <= all && Apart(all, width) && Covered(starts, width, p) && p in all
    ensures p in starts
  {
    var i :| 0 <= i < |all| && all[i] == p;
    var k :| 0 <= k < |starts| && starts[k] <= p < starts[k] + width;
    assert all[k] == starts[k] && i <= k;
  }

  /** An occurrence the scan of the stream so far passes over is not listed later. */
  lemma ListedInPrefix(s: Bytes, longer: Bytes, needle: Bytes, p: nat)
    requires needle != [] && s <= longer && OccursAt(s, needle, p)
    requires p in Scan(longer, needle, 0)
    ensures p in Scan(s, needle, 0)
  {
    hide OccursAt, Scan, Covered, Apart;
    ScanInPrefix(s, longer, needle, 0);
    ScanIsGreedy(s, needle, 0);
    ScanIsGreedy(longer, needle, 0);
    CoveredIsListed(Scan(s, needle, 0), Scan(longer, needle, 0), |needle|, p);
  }

  /** A proper part of the needle both starts and ends it. */
  ghost predicate Bordered(needle: Bytes) {
    exists k :: 0 < k < |needle| && needle[k..] == needle[..|needle| - k]
  }

  /** So it does in every stream exactly for a needle without such a part. */
  lemma ListsAllAlwaysIff(needle: Bytes)
    requires needle != []
    ensures (forall s: Bytes :: ListsAll(s, needle, 0)) <==> !Bordered(needle)
  {
    if Bordered(needle) {
      var k :| 0 < k < |needle| && needle[k..] == needle[..|needle| - k];
      var s := needle[..k] + needle;
      assert s[..|needle|] == needle[..k] + needle[..|needle| - k] == needle[..k] + needle[k..] == needle;
      assert OccursAt(s, needle, 0) && OccursAt(s, needle, k);
      ListsAllIff(s, needle, 0);
      assert !ListsAll(s, needle, 0);
    } else {
      forall s: Bytes ensures ListsAll(s, needle, 0) {
        OverlapIsBorder(s, needle);
        ListsAllIff(s, needle, 0);
      }
    }
  }

  lemma OverlapIsBorder(s: Bytes, needle: Bytes)
    ensures !NoneOverlap(s, needle, 0) ==> Bordered(needle)
  {
    if !NoneOverlap(s, needle, 0) {
      var i: nat, j: nat :| i < j && OccursAt(s, needle, i) && OccursAt(s, needle, j) && j < i + |needle|;
      var k := j - i;
      assert needle[k..] == s[j..i + |needle|];
      assert needle[..|needle| - k] == s[j..i + |needle|];
    }
  }

  /** Two appearances of such a prompt, of which the scan lists the first. */
  lemma OverlappingPrompts()
    ensures var s, prompt: Bytes := [1, 1, 1], [1, 1];
            OccursAt(s, prompt, 0) && OccursAt(s, prompt, 1) && Scan(s, prompt, 0) == [0]
  {
    var s, prompt: Bytes := [1, 1, 1], [1, 1];
    assert OccursAt(s, prompt, 0) && OccursAt(s, prompt, 1);
    assert Find(s, prompt, 0) == Some(0);
    assert Scan(s, prompt, 2) == [];
  }
}
