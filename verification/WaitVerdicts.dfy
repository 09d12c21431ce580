/** Exactly when a poll ends its wait and how, told by what the guest printed and
    the clocks alone. */
module WaitVerdicts {
  import opened Common
  import opened Search
  import opened Waiting
  import opened QemuVm
  import opened WaitTheorems

  // --- silence -----------------------------------------------------------------------------------

  /** Poll `i` is the first to see some byte behind the cursor. */
  ghost predicate Heard(w: Wait, i: nat) {
    w.env(i).chunk != [] || (i == 0 && w.cursor < |w.read|)
  }

  /** `since` is the clock of the last poll up to `i` that heard something, or the
      clock of the call. */
  ghost predicate SilentSince(w: Wait, i: nat, since: real) {
    || (since == w.begin && forall k: nat :: k <= i ==> !Heard(w, k))
    || exists g: nat :: g <= i && Heard(w, g) && since == w.env(g).now && forall k: nat :: g < k <= i ==> !Heard(w, k)
  }

  lemma GrewIsHeard(w: Wait, i: nat)
    requires WaitOk(w)
    ensures Grew(w, i) <==> Heard(w, i)
  {
    assert Seen(w, i + 1) == Seen(w, i) + w.env(i).chunk;
    assert Seen(w, 0) == w.read;
    SeenGrows(w, 0, i);
  }

  lemma {:induction false} LastSeenIs(w: Wait, i: nat, since: real)
    requires WaitOk(w) && SilentSince(w, i, since)
    ensures LastSeen(w, i) == since
    decreases i
  {
    hide ClockOk, Grew;
    GrewIsHeard(w, i);
    if !Heard(w, i) && i > 0 {
      assert SilentSince(w, i - 1, since);
      LastSeenIs(w, i - 1, since);
    }
  }

  /** A poll calls the guest idle exactly when it heard nothing and its clock is
      `idle` or more past that of the last poll that did, or of the call. */
  lemma IdleIff(w: Wait, n: nat, since: real)
    requires WaitOk(w) && SilentSince(w, n, since)
    ensures Verdict(w, n) == Some(HungIdle) <==> !Heard(w, n) && w.env(n).now - since >= w.idle
  {
    hide WaitOk, SilentSince, Grew, Heard, StuckAt, Reading, Aftermath, LastSeen;
    GrewIsHeard(w, n);
    LastSeenIs(w, n, since);
    if Verdict(w, n) == Some(HungIdle) {
      HangDecides(w, n, HungIdle);
    }
  }

  /** So no call goes on past a poll that finds `idle` of silence, nor ends there
      any other way. */
  lemma NoCallOutlastsItsIdle(w: Wait, m: nat, r: Outcome, n: nat, since: real)
    requires WaitOk(w) && EndsAt(w, m, r) && n <= m && SilentSince(w, n, since)
    requires !Heard(w, n) && w.env(n).now - since >= w.idle
    ensures n == m && r == HungIdle
  {
    hide WaitOk, SilentSince, Heard, Verdict;
    IdleIff(w, n, since);
  }

  // --- CPUs spinning in place ----------------------------------------------------------------------

  lemma {:induction false} SampledLast(w: Wait, i: nat)
    requires WaitOk(w)
    ensures w.begin <= Sampled(w, i)
    ensures forall j: nat :: j < i && Probes(w, j) ==> w.env(j).now <= Sampled(w, i)
    ensures Sampled(w, i) == w.begin || exists j: nat :: j < i && Probes(w, j) && Sampled(w, i) == w.env(j).now
    decreases i
  {
    hide ClockOk, WaitOk, Grew, IdleAt, Silence;
    if i > 0 {
      SampledLast(w, i - 1);
      ClockForward(w, 0, i - 1);
      BeginFirst(w);
      forall j: nat | j < i ensures w.env(j).now <= w.env(i - 1).now {
        ClockForward(w, j, i - 1);
      }
    }
  }

  lemma BeginFirst(w: Wait)
    requires WaitOk(w)
    ensures w.begin <= w.env(0).now
  {
  }

  /** The monitor is asked exactly at a silent poll, not idle yet but 30 seconds
      in, two seconds or more after the call and after every time it was asked. */
  lemma ProbesIff(w: Wait, i: nat, since: real)
    requires WaitOk(w) && SilentSince(w, i, since)
    ensures Probes(w, i) <==>
            && !Heard(w, i) && 30.0 <= w.env(i).now - since < w.idle
            && w.env(i).now - w.begin >= 2.0
            && forall j: nat :: j < i && Probes(w, j) ==> w.env(i).now - w.env(j).now >= 2.0
  {
    hide WaitOk, SilentSince, Grew, Heard, LastSeen, Sampled;
    GrewIsHeard(w, i);
    LastSeenIs(w, i, since);
    SampledLast(w, i);
  }

  lemma {:induction false} SameGrowthIff(w: Wait, j: nat, i: nat)
    requires WaitOk(w) && j <= i
    ensures LastGrowth(w, j) == LastGrowth(w, i) <==> forall k: nat :: j < k <= i ==> !Heard(w, k)
    decreases i
  {
    hide WaitOk, Grew, Heard;
    LastGrowthBefore(w, j);
    if j < i {
      GrewIsHeard(w, i);
      SameGrowthIff(w, j, i - 1);
    }
  }

  /** From probe `j` to poll `i` the guest was silent, and every answer the same. */
  ghost predicate SameAnswers(w: Wait, j: nat, i: nat) {
    && j <= i && Probes(w, j) && (forall k: nat :: j < k <= i ==> !Heard(w, k))
    && forall p: nat :: j <= p <= i && Probes(w, p) ==> w.env(p).addresses == w.env(i).addresses
  }

  lemma SteadyIff(w: Wait, j: nat, i: nat)
    requires WaitOk(w)
    ensures SameAnswers(w, j, i) <==> SteadySince(w, j, i)
  {
    hide WaitOk, Probes, Heard, LastGrowth;
    if j <= i {
      SameGrowthIff(w, j, i);
    }
  }

  /** A poll calls the CPUs stuck exactly when it asks, hears of some, and a probe
      20 seconds ago or more and all since heard the same, the guest silent. */
  lemma StuckVerdictIff(w: Wait, n: nat, addresses: map<nat, string>)
    requires WaitOk(w)
    ensures Verdict(w, n) == Some(HungStuck(addresses)) <==>
            && Probes(w, n) && addresses == w.env(n).addresses && addresses != map[]
            && exists j: nat :: SameAnswers(w, j, n) && w.env(n).now - w.env(j).now >= 20.0
  {
    hide WaitOk, SameAnswers, SteadySince, Reading, Aftermath, Spin, Grew, Silence, Sampled;
    if Verdict(w, n) == Some(HungStuck(addresses)) {
      HangDecides(w, n, HungStuck(addresses));
    }
    if Probes(w, n) && w.env(n).addresses != map[] {
      StuckIff(w, n);
      forall j: nat ensures SameAnswers(w, j, n) <==> SteadySince(w, j, n) {
        SteadyIff(w, j, n);
      }
    }
  }

  // --- the rest of a poll ------------------------------------------------------------------------------

  lemma {:induction false} LastCheckLast(w: Wait, i: nat)
    requires WaitOk(w)
    ensures w.lastCheck <= LastCheck(w, i)
    ensures forall j: nat :: j < i && Checks(w, j) ==> w.env(j).checked <= LastCheck(w, i)
    ensures LastCheck(w, i) == w.lastCheck
         || exists j: nat :: j < i && Checks(w, j) && LastCheck(w, i) == w.env(j).checked
    decreases i
  {
    if i > 0 {
      LastCheckLast(w, i - 1);
    }
  }

  /** The run state is asked for exactly while QEMU lives and a second or more after
      it was last asked for, by an earlier call or in this one. */
  lemma ChecksIff(w: Wait, i: nat)
    requires WaitOk(w)
    ensures Checks(w, i) <==>
            && !w.env(i).exited && w.env(i).checked - w.lastCheck >= 1.0
            && forall j: nat :: j < i && Checks(w, j) ==> w.env(i).checked - w.env(j).checked >= 1.0
  {
    hide WaitOk, LastCheck;
    LastCheckLast(w, i);
  }

  lemma {:induction false} FailureIsFirst(failures: seq<Bytes>, s: Bytes, k: nat)
    requires k < |failures| && Occurs(s, failures[k]) && forall j :: 0 <= j < k ==> !Occurs(s, failures[j])
    ensures FirstFailure(failures, s) == Some(failures[k])
  {
    FindOccurs(s, failures[0]);
    if k > 0 {
      FailureIsFirst(failures[1..], s, k - 1);
    }
  }

  /** A poll that calls no hang and has its needle matches up to the end of the
      first occurrence. */
  lemma NeedleDecides(w: Wait, n: nat, at: nat)
    requires Hang(w, n) == None && OccursAt(Snapshot(w, n), w.needle, at)
    requires forall i: nat :: i < at ==> !OccursAt(Snapshot(w, n), w.needle, i)
    ensures Verdict(w, n) == Some(Matched(Snapshot(w, n)[..at + |w.needle|]))
  {
    hide Hang, Snapshot, Find, FirstFailure;
    FindIsFirst(Snapshot(w, n), w.needle, 0);
  }

  /** Without the needle the first failure pattern listed that is there decides. */
  lemma FailureDecides(w: Wait, n: nat, k: nat)
    requires Hang(w, n) == None && !Occurs(Snapshot(w, n), w.needle)
    requires k < |w.failures| && Occurs(Snapshot(w, n), w.failures[k])
    requires forall j :: 0 <= j < k ==> !Occurs(Snapshot(w, n), w.failures[j])
    ensures Verdict(w, n) == Some(PanicPrinted(w.failures[k]))
  {
    hide Hang, Snapshot, Find, FirstFailure;
    FindOccurs(Snapshot(w, n), w.needle);
    FailureIsFirst(w.failures, Snapshot(w, n), k);
  }

  /** With neither, QEMU's exit does, then its panic, then the deadline. */
  lemma OtherwiseQemuDecides(w: Wait, n: nat)
    requires Hang(w, n) == None && !Occurs(Snapshot(w, n), w.needle)
    requires forall f :: f in w.failures ==> !Occurs(Snapshot(w, n), f)
    ensures w.env(n).exited ==> Verdict(w, n) == Some(Exited)
    ensures Checks(w, n) && w.env(n).panicked ==> Verdict(w, n) == Some(PanicState)
    ensures !w.env(n).exited && !(Checks(w, n) && w.env(n).panicked) ==>
              Verdict(w, n) == if w.env(n).late >= w.begin + w.timeout then Some(TimedOut) else None
  {
    hide Hang, Snapshot, LastCheck, Find, FirstFailure;
    FindOccurs(Snapshot(w, n), w.needle);
    FirstFailureFinds(w.failures, Snapshot(w, n));
  }

  // --- what is sent ------------------------------------------------------------------------------------

  /** `replies` are those to the prompts `ks`, in order: of the first `k` all whose
      scan has another occurrence than the `counts` answered, that one answered. */
  ghost predicate TurnOk(s: Bytes, answers: seq<Answer>, counts: seq<nat>, k: nat, ks: seq<nat>, replies: seq<Reply>)
    requires PromptsOk(answers) && k <= |answers| == |counts|
  {
    && |ks| == |replies|
    && (forall i, j :: 0 <= i < j < |ks| ==> ks[i] < ks[j])
    && (forall i :: 0 <= i < |ks| ==> Answers(s, answers, counts, k, ks[i], replies[i]))
    && forall j: nat :: j < k && counts[j] < |Scan(s, answers[j].prompt, 0)| ==> j in ks
  }

  ghost predicate Answers(s: Bytes, answers: seq<Answer>, counts: seq<nat>, k: nat, j: nat, reply: Reply)
    requires PromptsOk(answers) && k <= |answers| == |counts|
  {
    && j < k && counts[j] < |Scan(s, answers[j].prompt, 0)|
    && reply == Reply(answers[j].prompt, answers[j].reply, Scan(s, answers[j].prompt, 0)[counts[j]])
  }

  lemma TurnGoesOn(s: Bytes, answers: seq<Answer>, counts: seq<nat>, k: nat, ks: seq<nat>, replies: seq<Reply>)
    requires PromptsOk(answers) && k < |answers| == |counts| && TurnOk(s, answers, counts, k, ks, replies)
    ensures counts[k] >= |Scan(s, answers[k].prompt, 0)| ==> TurnOk(s, answers, counts, k + 1, ks, replies)
    ensures forall reply :: Answers(s, answers, counts, k + 1, k, reply) ==>
              TurnOk(s, answers, counts, k + 1, ks + [k], replies + [reply])
  {
    hide Scan, PromptsOk;
    forall i | 0 <= i < |ks| ensures ks[i] < k && Answers(s, answers, counts, k + 1, ks[i], replies[i]) {
      assert Answers(s, answers, counts, k, ks[i], replies[i]);
    }
  }

  /** One turn answers, in the prompts' order, exactly those whose scan has another
      occurrence, each with its own reply. */
  lemma {:induction false} TurnAnswers(s: Bytes, answers: seq<Answer>, counts: seq<nat>, k: nat) returns (ks: seq<nat>)
    requires PromptsOk(answers) && k <= |answers| == |counts|
    ensures TurnOk(s, answers, counts, k, ks, PollReplies(s, answers, counts, k))
    decreases k
  {
    ks := [];
    if k > 0 {
      hide Scan, TurnOk;
      ks := TurnAnswers(s, answers, counts, k - 1);
      var before := PollReplies(s, answers, counts, k - 1);
      TurnGoesOn(s, answers, counts, k - 1, ks, before);
      if counts[k - 1] < |Scan(s, answers[k - 1].prompt, 0)| {
        ks := ks + [k - 1];
      } else {
        assert before + [] == before;
      }
    }
  }

  /** Nothing but the replies goes out, each for its own prompt. */
  lemma {:induction false} RepliesAreAnswers(w: Wait, n: nat)
    requires WaitOk(w)
    ensures forall r :: r in Replies(w, n) ==> Answer(r.prompt, r.reply) in w.answers
    ensures forall i :: 0 <= i < |Replies(w, n)| ==> Texts(Replies(w, n))[i] == Replies(w, n)[i].reply
    decreases n
  {
    hide ClockOk, Snapshot, Counts, PollReplies;
    if n > 0 {
      RepliesAreAnswers(w, n - 1);
      var s, counts := Snapshot(w, n - 1), Counts(w, n - 1);
      var turn := PollReplies(s, w.answers, counts, |w.answers|);
      var ks := TurnAnswers(s, w.answers, counts, |w.answers|);
      forall r | r in turn ensures Answer(r.prompt, r.reply) in w.answers {
        var i :| 0 <= i < |turn| && turn[i] == r;
        assert Answers(s, w.answers, counts, |w.answers|, ks[i], turn[i]);
        assert w.answers[ks[i]] == Answer(r.prompt, r.reply);
      }
    }
  }

  /** The last poll of a call answers too, unless it hangs up on a hang, the needle
      or a failure pattern. */
  lemma LastPollAnswers(w: Wait, n: nat, r: Outcome)
    requires WaitOk(w) && EndsAt(w, n, r)
    ensures var s := Snapshot(w, n);
            AllReplies(w, n, r) ==
            if Hang(w, n) == None && !Occurs(s, w.needle) && (forall f :: f in w.failures ==> !Occurs(s, f))
            then Replies(w, n + 1) else Replies(w, n)
  {
    hide ClockOk, Hang, Snapshot, Checks, Find, FirstFailure, Replies;
    FindOccurs(Snapshot(w, n), w.needle);
    FirstFailureFinds(w.failures, Snapshot(w, n));
    HangsAreHangs(w, n);
  }
}
