/** The console of one QEMU: the capture, the cursor, and the wait that moves it. */
module QemuVm {
  import opened Common
  import opened Search
  import opened Waiting

  // --- the offline cut of a stream by what was waited for ------------------------------------

  /** The pieces `needles` cut `s` into, each up to the end of the first
      occurrence of its needle, and where the last one ends. */
  datatype Cuts = Cuts(pieces: seq<Bytes>, end: nat)

  function Cut(s: Bytes, needles: seq<Bytes>): (r: Option<Cuts>)
    ensures r.Some? ==> r.value.end <= |s|
  {
    if needles == [] then Some(Cuts([], 0))
    else
      var needle := needles[|needles| - 1];
      match Cut(s, needles[..|needles| - 1])
      case None => None
      case Some(c) =>
        match Find(s, needle, c.end)
        case None => None
        case Some(at) => Some(Cuts(c.pieces + [s[c.end..at + |needle|]], at + |needle|))
  }

  function Flatten(pieces: seq<Bytes>): Bytes {
    if pieces == [] then [] else Flatten(pieces[..|pieces| - 1]) + pieces[|pieces| - 1]
  }

  /** Nothing is lost or told twice: the pieces are the stream up to the cursor. */
  lemma {:induction false} CutConserves(s: Bytes, needles: seq<Bytes>)
    requires Cut(s, needles).Some?
    ensures Flatten(Cut(s, needles).value.pieces) == s[..Cut(s, needles).value.end]
  {
    if needles != [] {
      CutConserves(s, needles[..|needles| - 1]);
      var c, d := Cut(s, needles[..|needles| - 1]).value, Cut(s, needles).value;
      assert d.pieces[..|d.pieces| - 1] == c.pieces;
      assert s[..d.end] == s[..c.end] + s[c.end..d.end];
    }
  }

  /** What was cut stays cut as the stream grows. */
  lemma {:induction false} CutInPrefix(s: Bytes, longer: Bytes, needles: seq<Bytes>)
    requires s <= longer && Cut(s, needles).Some?
    ensures Cut(longer, needles) == Cut(s, needles)
  {
    hide Find;
    if needles != [] {
      var init, needle := needles[..|needles| - 1], needles[|needles| - 1];
      CutInPrefix(s, longer, init);
      var c := Cut(s, init).value;
      FindInPrefix(s, longer, needle, c.end);
      var at := Find(s, needle, c.end).value;
      assert longer[c.end..at + |needle|] == s[c.end..at + |needle|];
    }
  }

  /** Two captures of one stream, whatever their chunks, are cut alike. */
  lemma CutIgnoresChunks(s: Bytes, t: Bytes, whole: Bytes, needles: seq<Bytes>)
    requires s <= whole && t <= whole && Cut(s, needles).Some? && Cut(t, needles).Some?
    ensures Cut(s, needles) == Cut(t, needles)
  {
    CutInPrefix(s, whole, needles);
    CutInPrefix(t, whole, needles);
  }

  lemma {:induction false} FindShift(s: Bytes, needle: Bytes, cut: nat, from: nat)
    requires cut <= |s|
    ensures Find(s[cut..], needle, from) ==
            match Find(s, needle, cut + from) case Some(at) => Some(at - cut) case None => None
    decreases |s| - from
  {
    if cut + from + |needle| <= |s| {
      assert s[cut..][from..from + |needle|] == s[cut + from..cut + from + |needle|];
      FindShift(s, needle, cut, from + 1);
    }
  }

  lemma FirstFailureSkips(failures: seq<Bytes>, s: Bytes, i: nat)
    requires i < |failures| && Find(s, failures[i], 0).None?
    ensures FirstFailure(failures[i..], s) == FirstFailure(failures[i + 1..], s)
  {
    assert failures[i..][1..] == failures[i + 1..];
  }

  method FailureIn(failures: seq<Bytes>, buf: Bytes) returns (r: Option<Bytes>)
    ensures r == FirstFailure(failures, buf)
  {
    assert failures[0..] == failures;
    for i := 0 to |failures|
      invariant FirstFailure(failures, buf) == FirstFailure(failures[i..], buf)
    {
      if Find(buf, failures[i], 0).Some? {
        return Some(failures[i]);
      }
      FirstFailureSkips(failures, buf, i);
    }
    return None;
  }

  // --- the clock ---------------------------------------------------------------------------------

  /** Every poll comes a sleep after the one before. */
  lemma {:induction false} ClockAdvances(w: Wait, i: nat)
    requires WaitOk(w)
    ensures w.begin + SLEEP * i as real <= w.env(i).now
    decreases i
  {
    if i > 0 {
      ClockAdvances(w, i - 1);
    }
  }

  /** More polls than sleeps fit into `timeout`. */
  ghost function MaxPolls(timeout: real): nat {
    if timeout < 0.0 then 0 else (timeout / SLEEP).Floor + 1
  }

  /** A poll that does not end the wait came before the deadline. */
  lemma PollsAreBounded(w: Wait, i: nat)
    requires WaitOk(w) && Verdict(w, i) == None
    ensures SLEEP * i as real < w.timeout
    ensures i < MaxPolls(w.timeout)
  {
    hide Hang, Reading, Checks;
    ClockAdvances(w, i);
    assert w.env(i).late < w.begin + w.timeout;
  }

  // --- the hang detector ----------------------------------------------------------------------

  /** The locals the hang detector keeps from poll to poll. */
  datatype Watch = Watch(seen: nat, lastSeen: real, stuck: map<nat, string>, stuckSince: real, sampled: real)

  /** The last poll before `i` that asked the monitor, the guest silent since. */
  ghost function Asked(w: Wait, i: nat): Option<nat> {
    if i == 0 then None
    else if Probes(w, i - 1) then Some(i - 1)
    else LastProbe(w, i - 1)
  }

  /** The locals before poll `i`: `stuckSince` means something only while `stuck`
      holds an address, the output that clears `stuck` leaves it behind. */
  ghost predicate WatchOk(w: Wait, i: nat, watch: Watch) {
    && watch.seen == (if i == 0 then 0 else |Snapshot(w, i - 1)|)
    && watch.lastSeen == (if i == 0 then w.begin else LastSeen(w, i - 1))
    && watch.sampled == Sampled(w, i)
    && match Asked(w, i)
       case None => watch.stuck == map[]
       case Some(j) =>
         && j < i && watch.stuck == w.env(j).addresses
         && (watch.stuck != map[] ==> watch.stuckSince == w.env(Spin(w, j)[0]).now)
  }

  lemma AskedIsLastProbe(w: Wait, i: nat)
    requires !Grew(w, i)
    ensures LastProbe(w, i) == Asked(w, i)
  {
  }

  /** One turn of the hang detector, on the snapshot's length and the poll's clock. */
  method WatchSilence(ghost w: Wait, ghost i: nat, poll: Poll, size: nat, idle: real, watch: Watch)
    returns (r: Option<Outcome>, next: Watch)
    requires poll == w.env(i) && idle == w.idle
    requires size == |Snapshot(w, i)| && WatchOk(w, i, watch)
    ensures r == Hang(w, i)
    ensures r == None ==> WatchOk(w, i + 1, next)
  {
    var now := poll.now;
    next := watch;
    hide Snapshot;
    if size != watch.seen {
      next := next.(seen := size, lastSeen := now, stuck := map[]);
      assert Grew(w, i) && !Probes(w, i);
    } else if now - watch.lastSeen >= idle {
      return Some(HungIdle), next;
    } else if now - watch.lastSeen >= STUCK_AFTER && now - watch.sampled >= STUCK_SAMPLE {
      assert Probes(w, i);
      AskedIsLastProbe(w, i);
      next := next.(sampled := now);
      var addresses := poll.addresses;
      if addresses == map[] || addresses != watch.stuck {
        next := next.(stuck := addresses, stuckSince := now);
      } else if now - watch.stuckSince >= STUCK_FOR {
        return Some(HungStuck(watch.stuck)), next;
      }
    } else {
      assert !Probes(w, i);
      AskedIsLastProbe(w, i);
    }
    r := None;
  }

  /** The search for `prompt` goes on behind the first `count` occurrences of the
      scan, so never before the cursor nor past the buffer. */
  ghost predicate Resumes(cursor: nat, buf: Bytes, prompt: Bytes, answered: map<Bytes, nat>, count: nat)
    requires prompt != []
  {
    && prompt in answered && count <= |Scan(buf, prompt, 0)|
    && answered[prompt] == cursor + After(buf, prompt, 0, count)
  }

  /** Every prompt's search does before poll `i`. */
  ghost predicate Ready(cursor: nat, w: Wait, i: nat, answered: map<Bytes, nat>)
    requires PromptsOk(w.answers)
  {
    forall k :: 0 <= k < |w.answers| ==>
      Resumes(cursor, Snapshot(w, i), w.answers[k].prompt, answered, Answered(w, w.answers[k].prompt, i))
  }

  // --- one poll of a wait ------------------------------------------------------------------------

  lemma SnapshotGrows(w: Wait, n: nat)
    requires WaitOk(w)
    ensures Snapshot(w, n) <= Snapshot(w, n + 1)
  {
    SeenGrows(w, n + 1, n + 2);
  }

  lemma SnapshotOf(w: Wait, n: nat, s: Bytes)
    requires WaitOk(w) && s == Seen(w, n) + w.env(n).chunk
    ensures s == Seen(w, n + 1) && s[w.cursor..] == Snapshot(w, n)
  {
  }

  lemma ClockNext(w: Wait, n: nat)
    requires WaitOk(w)
    ensures w.env(n).now <= w.env(n).checked <= w.env(n).late <= w.env(n + 1).now
  {
  }

  lemma HangEnds(w: Wait, n: nat)
    requires Hang(w, n).Some?
    ensures Verdict(w, n) == Hang(w, n) && !AnswersFirst(Hang(w, n).value) && !Hang(w, n).value.Matched?
  {
  }

  lemma ReadingEnds(w: Wait, n: nat)
    requires Hang(w, n) == None && Reading(w, n).Some?
    ensures Verdict(w, n) == Reading(w, n) && !AnswersFirst(Reading(w, n).value)
  {
  }

  lemma AftermathEnds(w: Wait, n: nat)
    requires Hang(w, n) == None && Reading(w, n) == None
    ensures Verdict(w, n) == Aftermath(w, n)
  {
  }

  lemma LastCheckNext(w: Wait, n: nat)
    ensures LastCheck(w, n + 1) == if Checks(w, n) then w.env(n).checked else LastCheck(w, n)
  {
  }

  lemma RepliesNext(w: Wait, n: nat)
    requires WaitOk(w)
    ensures Texts(Replies(w, n + 1)) ==
            Texts(Replies(w, n)) + Texts(PollReplies(Snapshot(w, n), w.answers, Counts(w, n), |w.answers|))
  {
  }

  lemma SentTogether(a: seq<Bytes>, b: seq<Bytes>, ab: seq<Bytes>, c: seq<Bytes>)
    requires ab == a + b
    ensures ab + c == a + (b + c)
  {
  }

  lemma NothingSent(s: Bytes, answers: seq<Answer>, counts: seq<nat>)
    requires |answers| == |counts| && PromptsOk(answers)
    ensures Texts(PollReplies(s, answers, counts, 0)) == []
  {
  }

  /** Answering prompt `i` leaves the places of the other prompts alone. */
  lemma OthersResume(cursor: nat, buf: Bytes, answers: seq<Answer>, before: map<Bytes, nat>, after: map<Bytes, nat>,
        i: nat)
    requires PromptsOk(answers) && i < |answers|
    requires forall p :: p != answers[i].prompt && p in before ==> p in after && after[p] == before[p]
    ensures forall k, count: nat {:trigger Resumes(cursor, buf, answers[k].prompt, before, count)}
              {:trigger Resumes(cursor, buf, answers[k].prompt, after, count)} ::
              0 <= k < |answers| && k != i && Resumes(cursor, buf, answers[k].prompt, before, count) ==>
                Resumes(cursor, buf, answers[k].prompt, after, count)
  {
  }

  lemma PollRepliesNext(s: Bytes, answers: seq<Answer>, counts: seq<nat>, i: nat)
    requires i < |answers| == |counts| && PromptsOk(answers)
    ensures Texts(PollReplies(s, answers, counts, i + 1)) ==
            Texts(PollReplies(s, answers, counts, i)) +
              if counts[i] < |Scan(s, answers[i].prompt, 0)| then [answers[i].reply] else []
  {
  }

  lemma CutOneMore(s: Bytes, needles: seq<Bytes>, c: Cuts, needle: Bytes, at: nat)
    requires Cut(s, needles) == Some(c) && Find(s[c.end..], needle, 0) == Some(at)
    ensures c.end + at + |needle| <= |s|
    ensures Cut(s, needles + [needle]) ==
            Some(Cuts(c.pieces + [s[c.end..][..at + |needle|]], c.end + at + |needle|))
  {
    FindShift(s, needle, c.end, 0);
    hide Find;
    assert (needles + [needle])[..|needles|] == needles;
    assert s[c.end..][..at + |needle|] == s[c.end..c.end + at + |needle|];
  }

  class QemuVm {
    var serialBuf: Bytes
    var cursor: nat
    var lastStatusCheck: real

    /** Everything written to the console. */
    var sent: seq<Bytes>

    /** The clock when the object last read it. */
    ghost var clock: real

    /** What was waited for with success, and what those waits returned. */
    ghost var needles: seq<Bytes>
    ghost var returned: seq<Bytes>

    ghost predicate Valid()
      reads this
    {
      && lastStatusCheck <= clock
      && Cut(serialBuf, needles) == Some(Cuts(returned, cursor))
    }

    constructor ()
      ensures Valid() && clock == 0.0
      ensures serialBuf == [] && cursor == 0 && sent == [] && needles == [] && returned == []
    {
      serialBuf, cursor, lastStatusCheck, sent := [], 0, 0.0, [];
      clock, needles, returned := 0.0, [], [];
    }

    /** Over any sequence of waits, what they returned is the capture up to the cursor. */
    lemma ReturnedIsTheCapture()
      requires Valid()
      ensures cursor <= |serialBuf| && Flatten(returned) == serialBuf[..cursor]
    {
      CutConserves(serialBuf, needles);
    }

    method Capture() returns (text: Bytes)
      requires Valid()
      ensures text == serialBuf && Flatten(returned) <= text
    {
      ReturnedIsTheCapture();
      text := serialBuf;
    }

    method Send(data: Bytes)
      modifies `sent
      ensures sent == old(sent) + [data]
    {
      sent := sent + [data];
    }

    /** The reader's part of a poll. */
    method Receive(chunk: Bytes)
      requires Valid()
      modifies `serialBuf
      ensures Valid() && serialBuf == old(serialBuf) + chunk
    {
      serialBuf := serialBuf + chunk;
      CutInPrefix(old(serialBuf), serialBuf, needles);
    }

    /** `_check_alive`, which asks for the run state once a second at most. */
    method CheckAlive(poll: Poll) returns (r: Option<Outcome>)
      modifies `lastStatusCheck
      ensures var due := !poll.exited && poll.checked - old(lastStatusCheck) >= STATUS_INTERVAL;
              && lastStatusCheck == (if due then poll.checked else old(lastStatusCheck))
              && r == if poll.exited then Some(Exited)
                      else if due && poll.panicked then Some(PanicState)
                      else None
    {
      if poll.exited {
        return Some(Exited);
      }
      var now := poll.checked;
      if now - lastStatusCheck < STATUS_INTERVAL {
        return None;
      }
      lastStatusCheck := now;
      return if poll.panicked then Some(PanicState) else None;
    }

    /** Answers one prompt if the snapshot has another occurrence of it. */
    method AnswerPrompt(buf: Bytes, a: Answer, answered: map<Bytes, nat>, ghost count: nat)
      returns (after: map<Bytes, nat>)
      requires a.prompt != [] && Resumes(cursor, buf, a.prompt, answered, count)
      modifies `sent
      ensures Resumes(cursor, buf, a.prompt, after, Next(buf, a.prompt, count))
      ensures forall p :: p != a.prompt && p in answered ==> p in after && after[p] == answered[p]
      ensures sent == old(sent) + if count < |Scan(buf, a.prompt, 0)| then [a.reply] else []
    {
      after := answered;
      AfterIsWithin(buf, a.prompt, 0, count);
      assert cursor <= answered[a.prompt] <= cursor + |buf|;
      FindNext(buf, a.prompt, 0, count);
      hide Find, Scan;
      var at := Find(buf, a.prompt, answered[a.prompt] - cursor);
      if at.Some? {
        Send(a.reply);
        after := after[a.prompt := cursor + at.value + |a.prompt|];
      }
    }

    /** One turn of the answers: `answered` is where each prompt's search goes on
        from, `counts` how often each was answered before. */
    method AnswerPrompts(buf: Bytes, answers: seq<Answer>, answered: map<Bytes, nat>, ghost counts: seq<nat>)
      returns (after: map<Bytes, nat>)
      requires PromptsOk(answers) && |counts| == |answers|
      requires forall k :: 0 <= k < |answers| ==> Resumes(cursor, buf, answers[k].prompt, answered, counts[k])
      modifies `sent
      ensures forall k :: 0 <= k < |answers| ==>
                Resumes(cursor, buf, answers[k].prompt, after, Next(buf, answers[k].prompt, counts[k]))
      ensures sent == old(sent) + Texts(PollReplies(buf, answers, counts, |answers|))
    {
      hide Scan, Next, PollReplies, Resumes, Texts;
      after := answered;
      NothingSent(buf, answers, counts);
      for i := 0 to |answers|
        invariant forall k :: 0 <= k < i ==>
                  Resumes(cursor, buf, answers[k].prompt, after, Next(buf, answers[k].prompt, counts[k]))
        invariant forall k :: i <= k < |answers| ==> Resumes(cursor, buf, answers[k].prompt, after, counts[k])
        invariant sent == old(sent) + Texts(PollReplies(buf, answers, counts, i))
      {
        PollRepliesNext(buf, answers, counts, i);
        ghost var before := after;
        after := AnswerPrompt(buf, answers[i], after, counts[i]);
        OthersResume(cursor, buf, answers, before, after, i);
      }
    }

    /** What holds before poll `i` of the wait `w`. */
    ghost predicate Waiting(w: Wait, i: nat, answered: map<Bytes, nat>)
      reads this
    {
      && WaitOk(w) && serialBuf == Seen(w, i) && cursor == w.cursor
      && lastStatusCheck == LastCheck(w, i) && clock <= w.env(i).now
      && Ready(cursor, w, i, answered)
    }

    /** Waits for `needle` after the cursor. `env` are the polls of this call, which
        may follow on any other call at once. The outcome is the verdict of the
        first poll that has one; `w` is this call and `n` that poll. */
    method Expect(
        env: nat -> Poll, begin: real,
        needle: Bytes, timeout: real, failures: seq<Bytes>, answers: seq<Answer>, idle: real)
      returns (r: Outcome, ghost w: Wait, ghost n: nat)
      requires Valid() && PromptsOk(answers)
      requires ClockOk(env) && clock <= begin <= env(0).now
      modifies this
      ensures Valid() && clock == env(n).late
      ensures w == Wait(env, old(serialBuf), begin, old(cursor), old(lastStatusCheck),
                        needle, timeout, failures, answers, idle)
      ensures WaitOk(w) && EndsAt(w, n, r) && serialBuf == Seen(w, n + 1)
      ensures r.Matched? ==>
                && cursor == old(cursor) + |r.text|
                && needles == old(needles) + [needle] && returned == old(returned) + [r.text]
      ensures !r.Matched? ==> cursor == old(cursor) && needles == old(needles) && returned == old(returned)
      ensures sent == old(sent) + Texts(AllReplies(w, n, r))
      ensures lastStatusCheck == LastCheck(w, if AnswersFirst(r) then n + 1 else n)
    {
      hide ClockOk, Resumes, Verdict, WatchOk, Replies, LastCheck, Stream, Seen, Cut, Hang, Reading, Aftermath,
        PollReplies, Counts, Texts, MaxPolls, Snapshot, Answered, Checks, Scan, Find, Valid, Ready;
      w := Wait(env, serialBuf, begin, cursor, lastStatusCheck, needle, timeout, failures, answers, idle);
      var deadline := begin + timeout;
      var watch := Watch(0, begin, map[], begin, begin);
      var answered := map k | 0 <= k < |answers| :: answers[k].prompt := cursor;
      var i := 0;
      FirstPoll(w, watch, answered);
      while true
        invariant Valid() && Waiting(w, i, answered) && WatchOk(w, i, watch)
        invariant forall j :: 0 <= j < i ==> Verdict(w, j) == None
        invariant sent == old(sent) + Texts(Replies(w, i))
        invariant i <= MaxPolls(timeout)
        invariant needles == old(needles) && returned == old(returned)
        decreases MaxPolls(timeout) - i
      {
        n := i;
        RepliesNext(w, n);
        LastCheckNext(w, n);
        ClockNext(w, n);
        var end, buf, next := Look(w, n, env(i), needle, failures, idle, watch);
        if end.Some? {
          return end.value, w, n;
        }
        watch := next;
        ghost var before := sent;
        end, answered := Respond(w, n, env(i), buf, deadline, answers, answered);
        SentTogether(old(sent), Texts(Replies(w, n)), before,
          Texts(PollReplies(buf, answers, Counts(w, n), |answers|)));
        if end.Some? {
          return end.value, w, n;
        }
        PollsAreBounded(w, n);
        i := i + 1;
      }
    }

    /** The first half of a poll: what the reader appended, the hang detector and
        the snapshot. */
    method Look(ghost w: Wait, ghost n: nat, poll: Poll, needle: Bytes, failures: seq<Bytes>, idle: real, watch: Watch)
      returns (r: Option<Outcome>, buf: Bytes, next: Watch)
      requires Valid() && WaitOk(w) && poll == w.env(n) && serialBuf == Seen(w, n) && cursor == w.cursor
      requires needle == w.needle && failures == w.failures && idle == w.idle && WatchOk(w, n, watch)
      requires clock <= poll.late
      modifies `serialBuf, `clock, `cursor, `needles, `returned
      ensures Valid() && clock == poll.late && serialBuf == Seen(w, n + 1) && buf == Snapshot(w, n)
      ensures r.Some? ==> Verdict(w, n) == r && !AnswersFirst(r.value)
      ensures r == None ==> Hang(w, n) == None && Reading(w, n) == None && WatchOk(w, n + 1, next)
      ensures match r
              case Some(Matched(text)) =>
                && cursor == old(cursor) + |text|
                && needles == old(needles) + [needle] && returned == old(returned) + [text]
              case _ => cursor == old(cursor) && needles == old(needles) && returned == old(returned)
    {
      hide ClockOk, Verdict, WatchOk, Hang, Stream, Seen, Cut, Find, FirstFailure, Snapshot;
      clock := poll.late;
      Receive(poll.chunk);
      SnapshotOf(w, n, serialBuf);
      buf := serialBuf[cursor..];
      r, next := WatchSilence(w, n, poll, |buf|, idle, watch);
      if r.Some? {
        HangEnds(w, n);
        return;
      }
      var at := Find(buf, needle, 0);
      if at.Some? {
        ReadingEnds(w, n);
        var text := Advance(needle, at.value);
        return Some(Matched(text)), buf, next;
      }
      var failure := FailureIn(failures, buf);
      if failure.Some? {
        ReadingEnds(w, n);
        return Some(PanicPrinted(failure.value)), buf, next;
      }
    }

    /** The second half: the prompts, QEMU's state and the deadline. */
    method Respond(
        ghost w: Wait, ghost n: nat, poll: Poll, buf: Bytes, deadline: real,
        answers: seq<Answer>, answered: map<Bytes, nat>)
      returns (r: Option<Outcome>, after: map<Bytes, nat>)
      requires Valid() && WaitOk(w) && poll == w.env(n) && clock == poll.late
      requires cursor == w.cursor && lastStatusCheck == LastCheck(w, n)
      requires answers == w.answers && deadline == w.begin + w.timeout && buf == Snapshot(w, n)
      requires Hang(w, n) == None && Reading(w, n) == None
      requires Ready(cursor, w, n, answered)
      modifies `sent, `lastStatusCheck
      ensures Valid()
      ensures Verdict(w, n) == r
      ensures r.Some? ==> AnswersFirst(r.value)
      ensures sent == old(sent) + Texts(PollReplies(buf, answers, Counts(w, n), |answers|))
      ensures lastStatusCheck == if Checks(w, n) then poll.checked else LastCheck(w, n)
      ensures Ready(cursor, w, n + 1, after)
    {
      hide ClockOk, Resumes, LastCheck, Snapshot, PollReplies, Texts, Verdict, Hang, Reading, Cut, Stream;
      ClockNext(w, n);
      after := AnswerPrompts(buf, answers, answered, Counts(w, n));
      AnsweredNext(w, n, after);
      AftermathEnds(w, n);
      r := CheckAlive(poll);
      if r == None && poll.late >= deadline {
        return Some(TimedOut), after;
      }
    }

    /** Moves the cursor behind `needle`, found at `at` from the cursor on. */
    method Advance(needle: Bytes, at: nat) returns (text: Bytes)
      requires Valid() && Find(serialBuf[cursor..], needle, 0) == Some(at)
      modifies `cursor, `needles, `returned
      ensures Valid()
      ensures text == old(serialBuf[cursor..])[..at + |needle|] && cursor == old(cursor) + at + |needle|
      ensures needles == old(needles) + [needle] && returned == old(returned) + [text]
    {
      hide Cut, Find, Stream;
      CutOneMore(serialBuf, needles, Cuts(returned, cursor), needle, at);
      var end := at + |needle|;
      text := serialBuf[cursor..][..end];
      cursor := cursor + end;
      needles, returned := needles + [needle], returned + [text];
    }

    lemma FirstPoll(w: Wait, watch: Watch, answered: map<Bytes, nat>)
      requires Valid() && serialBuf == w.read && cursor == w.cursor && lastStatusCheck == w.lastCheck
      requires PromptsOk(w.answers) && ClockOk(w.env) && clock <= w.begin <= w.env(0).now
      requires watch == Watch(0, w.begin, map[], w.begin, w.begin)
      requires forall k :: 0 <= k < |w.answers| ==>
                 w.answers[k].prompt in answered && answered[w.answers[k].prompt] == cursor
      ensures WaitOk(w) && WatchOk(w, 0, watch) && Waiting(w, 0, answered)
      ensures Texts(Replies(w, 0)) == []
    {
      assert Seen(w, 0) == w.read;
    }

    lemma AnsweredNext(w: Wait, n: nat, answered: map<Bytes, nat>)
      requires WaitOk(w) && cursor == w.cursor
      requires forall k :: 0 <= k < |w.answers| ==>
                 Resumes(cursor, Snapshot(w, n), w.answers[k].prompt, answered,
                         Next(Snapshot(w, n), w.answers[k].prompt, Counts(w, n)[k]))
      ensures forall k :: 0 <= k < |w.answers| ==>
                Resumes(cursor, Snapshot(w, n + 1), w.answers[k].prompt, answered,
                        Answered(w, w.answers[k].prompt, n + 1))
    {
      SnapshotGrows(w, n);
      forall k | 0 <= k < |w.answers|
        ensures Resumes(cursor, Snapshot(w, n + 1), w.answers[k].prompt, answered,
                        Answered(w, w.answers[k].prompt, n + 1))
      {
        ScanInPrefix(Snapshot(w, n), Snapshot(w, n + 1), w.answers[k].prompt, 0);
      }
    }
  }
}
