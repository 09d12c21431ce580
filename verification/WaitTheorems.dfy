/** What a wait on the console promises, whatever the chunks the stream came in
    and whenever the polls were made. */
module WaitTheorems {
  import opened Common
  import opened Search
  import opened Waiting
  import opened QemuVm

  // --- matching ----------------------------------------------------------------------------------

  /** A match is the whole stream's: the text from the cursor through the first
      occurrence of the needle, in any stream that goes on from this snapshot. */
  lemma MatchIsTheStreams(w: Wait, n: nat, r: Outcome, whole: Bytes)
    requires WaitOk(w) && EndsAt(w, n, r) && r.Matched?
    requires Seen(w, n + 1) <= whole
    ensures w.cursor <= |whole| && Find(whole, w.needle, w.cursor).Some?
    ensures r.text == whole[w.cursor..Find(whole, w.needle, w.cursor).value + |w.needle|]
  {
    hide ClockOk, IdleAt, StuckAt, FirstFailure, Find;
    var s := Seen(w, n + 1);
    FirstInStream(s, whole, w.cursor, w.needle);
  }

  lemma FirstInStream(s: Bytes, whole: Bytes, cursor: nat, needle: Bytes)
    requires s <= whole && cursor <= |s| && Find(s[cursor..], needle, 0).Some?
    ensures var at := Find(s[cursor..], needle, 0).value;
            && Find(whole, needle, cursor) == Some(cursor + at)
            && s[cursor..][..at + |needle|] == whole[cursor..cursor + at + |needle|]
  {
    hide Find;
    FindShift(s, needle, cursor, 0);
    FindInPrefix(s, whole, needle, cursor);
    SameSlice(s, whole, cursor, Find(s[cursor..], needle, 0).value + |needle|);
  }

  lemma SameSlice(s: Bytes, whole: Bytes, cursor: nat, n: nat)
    requires s <= whole && cursor + n <= |s|
    ensures s[cursor..][..n] == whole[cursor..cursor + n]
  {
    assert s[cursor..][..n] == s[cursor..cursor + n];
  }

  /** Two waits for one needle from one cursor of one stream match the same text,
      however the stream was cut into chunks and polled. */
  lemma MatchIgnoresChunks(w: Wait, n: nat, r: Outcome, v: Wait, m: nat, q: Outcome, whole: Bytes)
    requires WaitOk(w) && EndsAt(w, n, r) && r.Matched? && Seen(w, n + 1) <= whole
    requires WaitOk(v) && EndsAt(v, m, q) && q.Matched? && Seen(v, m + 1) <= whole
    requires w.cursor == v.cursor && w.needle == v.needle
    ensures r == q
  {
    MatchIsTheStreams(w, n, r, whole);
    MatchIsTheStreams(v, m, q, whole);
  }

  /** A wait that ends any other way does not have its needle in hand, though a
      hang is decided before the snapshot is searched. */
  lemma RaisesWithoutTheNeedle(w: Wait, n: nat, r: Outcome)
    requires WaitOk(w) && w.needle != [] && EndsAt(w, n, r) && !r.Matched?
    ensures !Occurs(Snapshot(w, n), w.needle)
  {
    FindOccurs(Snapshot(w, n), w.needle);
    if Hang(w, n).Some? {
      assert !Grew(w, n);
      if n > 0 {
        SnapshotGrows(w, n - 1);
        assert Snapshot(w, n) == Snapshot(w, n - 1);
        assert Verdict(w, n - 1) == None;
      }
    }
  }

  /** With an empty needle the search always succeeds, and the one way not to get
      to it is a first poll that is idle already. So a wait raises with its needle
      in hand exactly when the needle is empty and the first poll idle. */
  lemma RaisesWithTheNeedleIff(w: Wait, n: nat, r: Outcome)
    requires WaitOk(w) && EndsAt(w, n, r)
    ensures !r.Matched? && Occurs(Snapshot(w, n), w.needle) <==> w.needle == [] && IdleAt(w, 0)
  {
    FindOccurs(Snapshot(w, n), w.needle);
    if w.needle != [] {
      if !r.Matched? {
        RaisesWithoutTheNeedle(w, n, r);
      }
    } else {
      EmptyNeedleFound(Snapshot(w, n));
      EmptyNeedleFound(Snapshot(w, 0));
      assert !StuckAt(w, 0) by {
        assert Spin(w, 0) == [0];
      }
      assert Verdict(w, 0).Some?;
    }
  }

  lemma EmptyNeedleFound(s: Bytes)
    ensures Find(s, [], 0) == Some(0) && Occurs(s, [])
  {
    assert s[0..0] == [];
    FindOccurs(s, []);
  }

  lemma IdleAtOnce(w: Wait)
    requires w.read == [] && w.cursor == 0 && w.env(0).chunk == [] && w.begin == w.env(0).now && w.idle == 0.0
    ensures IdleAt(w, 0)
  {
    assert Stream(w.env, 0) == [] && Seen(w, 1) == [];
  }

  /** Such a wait: nothing printed yet and an idle time of zero. */
  lemma EmptyNeedleCanHang(env: nat -> Poll)
    requires ClockOk(env) && env(0).chunk == [] && 0.0 <= env(0).now
    ensures var w := Wait(env, [], env(0).now, 0, 0.0, [], 1.0, [], [], 0.0);
            WaitOk(w) && EndsAt(w, 0, HungIdle) && Occurs(Snapshot(w, 0), w.needle)
  {
    hide IdleAt, StuckAt, Reading, Aftermath, Snapshot, Occurs;
    var w := Wait(env, [], env(0).now, 0, 0.0, [], 1.0, [], [], 0.0);
    IdleAtOnce(w);
    EmptyNeedleFound(Snapshot(w, 0));
  }

  // --- the needle and the failure patterns -------------------------------------------------------

  lemma {:induction false} FirstFailureFinds(failures: seq<Bytes>, s: Bytes)
    ensures match FirstFailure(failures, s)
            case Some(f) => f in failures && Occurs(s, f)
            case None => forall f :: f in failures ==> !Occurs(s, f)
  {
    if failures != [] {
      FindOccurs(s, failures[0]);
      FirstFailureFinds(failures[1..], s);
    }
  }

  /** Between the two, the first snapshot that has either decides, and the needle
      wins within it alone. */
  lemma NeedleWinsWithinASnapshot(w: Wait, n: nat, r: Outcome)
    requires EndsAt(w, n, r) && (r.Matched? || r.PanicPrinted?)
    ensures r.Matched? <==> Occurs(Snapshot(w, n), w.needle)
    ensures r.PanicPrinted? ==> r.pattern in w.failures && Occurs(Snapshot(w, n), r.pattern)
    ensures forall i :: 0 <= i < n ==>
              !Occurs(Snapshot(w, i), w.needle) && forall f :: f in w.failures ==> !Occurs(Snapshot(w, i), f)
  {
    FindOccurs(Snapshot(w, n), w.needle);
    FirstFailureFinds(w.failures, Snapshot(w, n));
    forall i | 0 <= i < n
      ensures !Occurs(Snapshot(w, i), w.needle) && forall f :: f in w.failures ==> !Occurs(Snapshot(w, i), f)
    {
      assert Verdict(w, i) == None;
      FindOccurs(Snapshot(w, i), w.needle);
      FirstFailureFinds(w.failures, Snapshot(w, i));
    }
  }

  /** A wait for the byte 2 with the byte 1 a failure, from the first poll on. */
  ghost function Race(env: nat -> Poll): Wait {
    Wait(env, [], env(0).now, 0, 0.0, [2], 1.0, [[1]], [], 90.0)
  }

  lemma RaceInOneChunk(env: nat -> Poll)
    requires Stream(env, 1) == [1, 2]
    ensures EndsAt(Race(env), 0, Matched([1, 2]))
  {
    var s: Bytes := [1, 2];
    assert Seen(Race(env), 1) == s && Snapshot(Race(env), 0) == s;
    assert s[0..1][0] == 1 && s[1..2] == [2];
    assert Find(s, [2], 1) == Some(1);
    assert s[..2] == s;
  }

  lemma RaceInTwoChunks(env: nat -> Poll)
    requires Stream(env, 1) == [1]
    ensures EndsAt(Race(env), 0, PanicPrinted([1]))
  {
    var s: Bytes := [1];
    assert Seen(Race(env), 1) == s && Snapshot(Race(env), 0) == s;
    assert s[0..1] == [1] && Find(s, [1], 0) == Some(0);
    assert s[0..1][0] == 1 && Find(s, [2], 0) == None;
    assert FirstFailure([[1]], s) == Some([1]);
  }

  /** One stream, a failure pattern before the needle: in one chunk a match, in
      two a panic. */
  lemma ChunksDecideTheRace(env: nat -> Poll, split: nat -> Poll)
    requires env(0).chunk == [1, 2] && split(0).chunk == [1] && split(1).chunk == [2]
    ensures Stream(env, 1) == Stream(split, 2)
    ensures EndsAt(Race(env), 0, Matched([1, 2]))
    ensures EndsAt(Race(split), 0, PanicPrinted([1]))
  {
    hide EndsAt;
    assert Stream(env, 0) == [] && Stream(split, 0) == [];
    assert Stream(env, 1) == [1, 2] && Stream(split, 1) == [1] && Stream(split, 2) == [1, 2];
    RaceInOneChunk(env);
    RaceInTwoChunks(split);
  }

  // --- the deadline --------------------------------------------------------------------------------

  /** A wait makes at most two polls more than sleeps fit into its timeout. */
  lemma WaitIsBounded(w: Wait, n: nat, r: Outcome)
    requires WaitOk(w) && EndsAt(w, n, r)
    ensures n <= MaxPolls(w.timeout)
  {
    if n > 0 {
      PollsAreBounded(w, n - 1);
    }
  }

  /** The deadline is the last resort: a wait that times out ran its timeout to the
      end, and over all its polls printed neither needle nor failure pattern, QEMU
      alive and no question for the run state answered with a panic. */
  lemma TimeoutIsLastResort(w: Wait, n: nat)
    requires WaitOk(w) && EndsAt(w, n, TimedOut)
    ensures w.env(n).late >= w.begin + w.timeout
    ensures forall i :: 0 <= i < n ==> w.env(i).late < w.begin + w.timeout
    ensures forall i :: 0 <= i <= n ==>
              && !Occurs(Snapshot(w, i), w.needle)
              && (forall f :: f in w.failures ==> !Occurs(Snapshot(w, i), f))
              && !w.env(i).exited && !(Checks(w, i) && w.env(i).panicked)
  {
    hide ClockOk, Hang, Snapshot, Checks, Find, FirstFailure;
    forall i | 0 <= i <= n
      ensures !Occurs(Snapshot(w, i), w.needle)
      ensures forall f :: f in w.failures ==> !Occurs(Snapshot(w, i), f)
      ensures !w.env(i).exited && !(Checks(w, i) && w.env(i).panicked)
      ensures i < n ==> w.env(i).late < w.begin + w.timeout
    {
      assert Verdict(w, i) == (if i < n then None else Some(TimedOut));
      HangsAreHangs(w, i);
      FindOccurs(Snapshot(w, i), w.needle);
      FirstFailureFinds(w.failures, Snapshot(w, i));
    }
    HangsAreHangs(w, n);
  }

  lemma HangsAreHangs(w: Wait, i: nat)
    ensures Hang(w, i).Some? ==> Hang(w, i).value.HungIdle? || Hang(w, i).value.HungStuck?
  {
  }

  /** The run state is never older than STATUS_INTERVAL when a poll of a live QEMU
      is over, and it is asked for no more often than that. */
  lemma RunStateIsFresh(w: Wait, i: nat)
    requires WaitOk(w) && !w.env(i).exited
    ensures 0.0 <= w.env(i).checked - LastCheck(w, i + 1) < STATUS_INTERVAL
    ensures Checks(w, i) ==> LastCheck(w, i + 1) - LastCheck(w, i) >= STATUS_INTERVAL
  {
    LastCheckBehind(w, i);
  }

  lemma {:induction false} LastCheckBehind(w: Wait, i: nat)
    requires WaitOk(w)
    ensures LastCheck(w, i) <= w.env(i).now
    decreases i
  {
    if i > 0 {
      LastCheckBehind(w, i - 1);
    }
  }

  // --- hangs -----------------------------------------------------------------------------------------

  /** Nothing arrived in the polls after `since`, up to `i`. */
  ghost predicate Silent(w: Wait, since: Option<nat>, i: nat) {
    && (since.Some? ==> since.value <= i)
    && forall k :: 0 <= k <= i && (since.Some? ==> since.value < k) ==> w.env(k).chunk == []
  }

  lemma {:induction false} QuietSinceGrowth(w: Wait, i: nat)
    requires WaitOk(w)
    ensures Silent(w, LastGrowth(w, i), i)
    decreases i
  {
    if !Grew(w, i) {
      assert Seen(w, i + 1) == Seen(w, i) + w.env(i).chunk;
      if i > 0 {
        QuietSinceGrowth(w, i - 1);
      }
    }
  }

  /** Only the hang detector calls a hang. */
  lemma HangDecides(w: Wait, n: nat, r: Outcome)
    requires Verdict(w, n) == Some(r) && (r.HungIdle? || r.HungStuck?)
    ensures Hang(w, n) == Some(r)
  {
    hide Hang, Snapshot, Find, FirstFailure, Checks;
  }

  /** An idle verdict: no byte arrived for `idle`, counted from the poll that saw
      the last one or from the call. */
  lemma IdleIsSound(w: Wait, n: nat)
    requires WaitOk(w) && Verdict(w, n) == Some(HungIdle)
    ensures Silent(w, LastGrowth(w, n), n)
    ensures w.env(n).now - (match LastGrowth(w, n) case Some(g) => w.env(g).now case None => w.begin) >= w.idle
  {
    hide Verdict, WaitOk, Silent, LastGrowth, Grew, StuckAt;
    HangDecides(w, n, HungIdle);
    QuietSinceGrowth(w, n);
  }

  lemma {:induction false} SameGrowth(w: Wait, i: nat, j: nat)
    requires LastProbe(w, i) == Some(j)
    ensures j < i && Probes(w, j)
    ensures LastGrowth(w, j) == LastGrowth(w, i)
    ensures Sampled(w, i) == w.env(j).now
    ensures forall k :: j < k < i ==> !Probes(w, k)
    decreases i
  {
    if i > 0 && !Probes(w, i - 1) {
      SameGrowth(w, i - 1, j);
    }
  }

  /** Poll `p` asked, the guest as silent as at poll `i`, and heard the same. */
  ghost predicate Alike(w: Wait, p: nat, i: nat) {
    && p <= i && Probes(w, p)
    && w.env(p).addresses == w.env(i).addresses
    && LastGrowth(w, p) == LastGrowth(w, i)
  }

  ghost predicate SpacedOut(w: Wait, polls: seq<nat>) {
    forall k :: 0 < k < |polls| ==> w.env(polls[k]).now - w.env(polls[k - 1]).now >= STUCK_SAMPLE
  }

  /** The polls of a spin: all alike, spaced out, and every one that asked. */
  ghost predicate SpinOk(w: Wait, polls: seq<nat>, i: nat) {
    && polls != [] && polls[|polls| - 1] == i
    && (forall p :: p in polls ==> Alike(w, p, i))
    && SpacedOut(w, polls)
    && (forall p: nat :: polls[0] <= p <= i && Probes(w, p) ==> p in polls)
  }

  lemma SpinExtends(w: Wait, polls: seq<nat>, j: nat, i: nat)
    requires SpinOk(w, polls, j) && Probes(w, i) && LastProbe(w, i) == Some(j)
    requires w.env(j).addresses == w.env(i).addresses
    ensures SpinOk(w, polls + [i], i)
  {
    hide ClockOk, LastProbe, LastGrowth, Sampled;
    SameGrowth(w, i, j);
    assert SpacedOut(w, polls + [i]);
  }

  lemma {:induction false} SpinIsOk(w: Wait, i: nat)
    requires Probes(w, i)
    ensures SpinOk(w, Spin(w, i), i)
    decreases i
  {
    hide SpinOk;
    match LastProbe(w, i)
    case Some(j) =>
      SameGrowth(w, i, j);
      if w.env(j).addresses == w.env(i).addresses {
        SpinIsOk(w, j);
        SpinExtends(w, Spin(w, j), j, i);
      } else {
        LoneProbe(w, i);
      }
    case None =>
      LoneProbe(w, i);
  }

  lemma LoneProbe(w: Wait, i: nat)
    requires Probes(w, i)
    ensures SpinOk(w, [i], i)
  {
  }

  /** A stuck verdict: nothing printed for STUCK_AFTER and STUCK_FOR together, and
      the monitor asked at least twice, over STUCK_FOR, STUCK_SAMPLE apart or
      more, every answer of that time the same CPUs at the same addresses. */
  lemma StuckIsSound(w: Wait, n: nat, addresses: map<nat, string>)
    requires WaitOk(w) && Verdict(w, n) == Some(HungStuck(addresses))
    ensures addresses != map[] && addresses == w.env(n).addresses
    ensures SpinOk(w, Spin(w, n), n) && |Spin(w, n)| >= 2
    ensures w.env(n).now - w.env(Spin(w, n)[0]).now >= STUCK_FOR
    ensures Silent(w, LastGrowth(w, n), n)
    ensures Silence(w, n) >= STUCK_AFTER + STUCK_FOR
  {
    hide Verdict, WaitOk, Silent, LastGrowth, Spin, IdleAt, Grew, Sampled, SpacedOut;
    HangDecides(w, n, HungStuck(addresses));
    SpinIsOk(w, n);
    QuietSinceGrowth(w, n);
    var first := Spin(w, n)[0];
    assert first in Spin(w, n);
    assert Alike(w, first, n);
  }

  lemma {:induction false} GrowthBounds(w: Wait, i: nat, m: nat)
    requires m <= i && (match LastGrowth(w, i) case Some(g) => g < m case None => true)
    ensures !Grew(w, m)
    decreases i
  {
    hide Grew;
    if m < i {
      GrowthBounds(w, i - 1, m);
    }
  }

  lemma {:induction false} LastGrowthBefore(w: Wait, i: nat)
    ensures LastGrowth(w, i).Some? ==> LastGrowth(w, i).value <= i
  {
    hide Grew;
    if !Grew(w, i) && i > 0 {
      LastGrowthBefore(w, i - 1);
    }
  }

  /** Every probe from poll `j` to poll `i`, the guest silent throughout, heard the same. */
  ghost predicate SteadySince(w: Wait, j: nat, i: nat) {
    && j <= i && Probes(w, j) && LastGrowth(w, j) == LastGrowth(w, i)
    && forall p: nat :: j <= p <= i && Probes(w, p) ==> w.env(p).addresses == w.env(i).addresses
  }

  lemma {:induction false} LastProbeFrom(w: Wait, i: nat, j: nat)
    requires j < i && Probes(w, j) && LastGrowth(w, j) == LastGrowth(w, i)
    ensures LastProbe(w, i).Some? && j <= LastProbe(w, i).value < i
    decreases i
  {
    hide Grew, Probes;
    LastGrowthBefore(w, j);
    GrowthBounds(w, i, i);
    if !Probes(w, i - 1) {
      LastProbeFrom(w, i - 1, j);
    }
  }

  lemma {:induction false} SpinReachesBack(w: Wait, i: nat, j: nat)
    requires Probes(w, i) && SteadySince(w, j, i)
    ensures Spin(w, i)[0] <= j
    decreases i
  {
    hide Grew, Probes, LastGrowth;
    if j < i {
      LastProbeFrom(w, i, j);
      var k := LastProbe(w, i).value;
      SameGrowth(w, i, k);
      SpinReachesBack(w, k, j);
    }
  }

  lemma ClockForward(w: Wait, j: nat, i: nat)
    requires WaitOk(w) && j <= i
    ensures w.env(j).now <= w.env(i).now
  {
  }

  /** Both ways: a poll that asks finds the guest stuck exactly when some earlier
      one did, STUCK_FOR ago or more, and since then every answer was the same. */
  lemma StuckIff(w: Wait, n: nat)
    requires WaitOk(w) && Probes(w, n) && w.env(n).addresses != map[]
    ensures StuckAt(w, n) <==>
            exists j :: SteadySince(w, j, n) && w.env(n).now - w.env(j).now >= STUCK_FOR
  {
    hide ClockOk, Probes, LastGrowth, Spin;
    if StuckAt(w, n) {
      SpinIsOk(w, n);
      var j := Spin(w, n)[0];
      assert j in Spin(w, n);
      assert SteadySince(w, j, n);
    }
    if j :| SteadySince(w, j, n) && w.env(n).now - w.env(j).now >= STUCK_FOR {
      SpinReachesBack(w, n, j);
      ClockForward(w, Spin(w, n)[0], j);
    }
  }

  // --- answers ---------------------------------------------------------------------------------------

  /** Where the answers to one prompt stand. */
  function Positions(rs: seq<Reply>, prompt: Bytes): seq<nat> {
    if rs == [] then []
    else
      Positions(rs[..|rs| - 1], prompt) +
        if rs[|rs| - 1].prompt == prompt then [rs[|rs| - 1].at] else []
  }

  lemma {:induction false} PositionsConcat(a: seq<Reply>, b: seq<Reply>, prompt: Bytes)
    ensures Positions(a + b, prompt) == Positions(a, prompt) + Positions(b, prompt)
    decreases |b|
  {
    if b == [] {
      assert a + b == a;
    } else {
      assert (a + b)[..|a + b| - 1] == a + b[..|b| - 1];
      PositionsConcat(a, b[..|b| - 1], prompt);
    }
  }

  /** One poll answers a prompt at its scan's next occurrence or not at all. */
  lemma {:induction false} PollPositions(s: Bytes, answers: seq<Answer>, counts: seq<nat>, k: nat, i: nat)
    requires PromptsOk(answers) && k <= |answers| == |counts| && i < |answers|
    ensures Positions(PollReplies(s, answers, counts, k), answers[i].prompt) ==
            var found := Scan(s, answers[i].prompt, 0);
            if i < k && counts[i] < |found| then [found[counts[i]]] else []
    decreases k
  {
    hide Scan, Positions;
    if k == 0 {
      NoPositions(answers[i].prompt);
    } else {
      PollPositions(s, answers, counts, k - 1, i);
      var a, before := answers[k - 1], PollReplies(s, answers, counts, k - 1);
      var found := Scan(s, a.prompt, 0);
      assert before + [] == before;
      if counts[k - 1] < |found| {
        PositionsSnoc(before, Reply(a.prompt, a.reply, found[counts[k - 1]]), answers[i].prompt);
      }
    }
  }

  lemma NoPositions(prompt: Bytes)
    ensures Positions([], prompt) == []
  {
  }

  lemma PositionsSnoc(rs: seq<Reply>, r: Reply, prompt: Bytes)
    ensures Positions(rs + [r], prompt) == Positions(rs, prompt) + if r.prompt == prompt then [r.at] else []
  {
    assert (rs + [r])[..|rs|] == rs;
  }

  /** The answers a wait has sent for a prompt stand at the first occurrences of
      it in the offline scan of the whole stream from the cursor: the k-th answer
      at the k-th, none twice, none passed over. */
  lemma {:induction false} AnswersFollowTheScan(w: Wait, n: nat, i: nat, whole: Bytes)
    requires WaitOk(w) && i < |w.answers|
    requires w.cursor <= |whole| && Seen(w, n) <= whole
    ensures var prompt := w.answers[i].prompt;
            var found, count := Scan(whole[w.cursor..], prompt, 0), Answered(w, prompt, n);
            count <= |found| && Positions(Replies(w, n), prompt) == found[..count]
    decreases n
  {
    hide Scan, ClockOk, PollReplies, Stream, Seen, Snapshot, Positions;
    var prompt := w.answers[i].prompt;
    NoPositions(prompt);
    if n > 0 {
      var s, rest := Snapshot(w, n - 1), whole[w.cursor..];
      SnapshotIn(w, n - 1, whole);
      ScanInPrefix(s, rest, prompt, 0);
      SeenGrows(w, n - 1, n);
      AnswersFollowTheScan(w, n - 1, i, whole);
      AnsweredWithin(w, prompt, n - 1);
      PollPositions(s, w.answers, Counts(w, n - 1), |w.answers|, i);
      assert Counts(w, n - 1)[i] == Answered(w, prompt, n - 1);
      PositionsConcat(Replies(w, n - 1), PollReplies(s, w.answers, Counts(w, n - 1), |w.answers|), prompt);
    }
  }

  lemma SnapshotIn(w: Wait, n: nat, whole: Bytes)
    requires w.cursor <= |w.read| && Seen(w, n + 1) <= whole
    ensures w.cursor <= |whole| && Snapshot(w, n) <= whole[w.cursor..]
  {
  }

  /** No answer is for an occurrence that is not in the snapshot yet. */
  lemma {:induction false} AnsweredWithin(w: Wait, prompt: Bytes, n: nat)
    requires WaitOk(w) && prompt != []
    ensures Answered(w, prompt, n) <= |Scan(Snapshot(w, n), prompt, 0)|
    decreases n
  {
    hide Scan, ClockOk, Snapshot;
    if n > 0 {
      AnsweredWithin(w, prompt, n - 1);
      SnapshotGrows(w, n - 1);
      ScanInPrefix(Snapshot(w, n - 1), Snapshot(w, n), prompt, 0);
    }
  }

  /** While the wait goes on, every occurrence the scan of a snapshot lists is
      answered within as many polls. */
  lemma {:induction false} EveryOccurrenceIsAnswered(w: Wait, prompt: Bytes, m: nat, turns: nat)
    requires WaitOk(w) && prompt != []
    ensures Answered(w, prompt, m + turns) >= Min(turns, |Scan(Snapshot(w, m), prompt, 0)|)
    decreases turns
  {
    hide Scan, ClockOk, Snapshot, Stream;
    if turns > 0 {
      EveryOccurrenceIsAnswered(w, prompt, m, turns - 1);
      SnapshotsGrow(w, m, m + turns - 1);
      ScanInPrefix(Snapshot(w, m), Snapshot(w, m + turns - 1), prompt, 0);
    }
  }

  lemma SnapshotsGrow(w: Wait, m: nat, n: nat)
    requires WaitOk(w) && m <= n
    ensures Snapshot(w, m) <= Snapshot(w, n)
  {
    SeenGrows(w, m + 1, n + 1);
  }

  /** Once per appearance: every appearance of a prompt in a snapshot is answered,
      with as many polls to answer in, exactly when no two of them overlap. */
  lemma AppearancesAreAnsweredIff(w: Wait, i: nat, m: nat, n: nat)
    requires WaitOk(w) && i < |w.answers|
    requires m + |Scan(Snapshot(w, m), w.answers[i].prompt, 0)| <= n
    ensures var prompt := w.answers[i].prompt;
            (forall p: nat :: OccursAt(Snapshot(w, m), prompt, p) ==> p in Positions(Replies(w, n), prompt))
            <==> NoneOverlap(Snapshot(w, m), prompt, 0)
  {
    hide Scan, OccursAt, ClockOk, Snapshot, Seen, Stream, Positions, Replies, Answered, NoneOverlap;
    var prompt, s := w.answers[i].prompt, Snapshot(w, m);
    var whole := Seen(w, n + 1);
    SeenGrows(w, n, n + 1);
    SnapshotIn(w, n, whole);
    SnapshotsGrow(w, m, n);
    var rest := whole[w.cursor..];
    AnswersFollowTheScan(w, n, i, whole);
    EveryOccurrenceIsAnswered(w, prompt, m, n - m);
    ScanInPrefix(s, rest, prompt, 0);
    var at := Positions(Replies(w, n), prompt);
    assert Scan(s, prompt, 0) <= at;
    forall p: nat | OccursAt(s, prompt, p) ensures p in at <==> p in Scan(s, prompt, 0) {
      if p in at {
        ListedInPrefix(s, rest, prompt, p);
      }
    }
    ListsAllIff(s, prompt, 0);
  }
}
