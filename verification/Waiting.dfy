/** What a wait on the serial console is, told over the whole history of its
    polls: which poll ends it and how, and what it has answered by then. */
module Waiting {
  import opened Common
  import opened Search

  const STUCK_AFTER := 30.0
  const STUCK_FOR := 20.0
  const STUCK_SAMPLE := 2.0
  const STATUS_INTERVAL := 1.0
  const SLEEP := 0.05

  /** One turn of the wait, as its surroundings have it: the bytes the reader
      appended since the last snapshot, the clock after the snapshot, what the
      monitor would say of the CPUs that run, whether QEMU is gone, the clock and
      the run state at the status check, the clock at the deadline check. */
  datatype Poll = Poll(
    chunk: Bytes, now: real, addresses: map<nat, string>, exited: bool,
    checked: real, panicked: bool, late: real)

  datatype Answer = Answer(prompt: Bytes, reply: Bytes)

  /** One call of `expect`: the polls it may make, a sleep between any two of them,
      the clock and the state of the VM object when it is called, `read` the bytes
      it has already, and its arguments. */
  datatype Wait = Wait(
    env: nat -> Poll, read: Bytes, begin: real, cursor: nat, lastCheck: real,
    needle: Bytes, timeout: real, failures: seq<Bytes>, answers: seq<Answer>, idle: real)

  datatype Outcome =
    | Matched(text: Bytes)
    | HungIdle                                // GuestHung, nothing printed for `idle`
    | HungStuck(addresses: map<nat, string>)  // GuestHung, every CPU spinning in place
    | PanicPrinted(pattern: Bytes)            // GuestPanicked, a failure pattern
    | Exited                                  // QemuExited
    | PanicState                              // GuestPanicked, the run state
    | TimedOut                                // TimeoutError

  /** The bytes that arrived in the first `n` polls. */
  function Stream(env: nat -> Poll, n: nat): Bytes {
    if n == 0 then [] else Stream(env, n - 1) + env(n - 1).chunk
  }

  /** Everything the guest has printed by the time `n` polls of the call were made. */
  function Seen(w: Wait, n: nat): Bytes {
    w.read + Stream(w.env, n)
  }

  /** Within a call the clock never runs back, and between two polls there is a sleep. */
  ghost predicate ClockOk(env: nat -> Poll) {
    && (forall i: nat :: env(i).now <= env(i).checked <= env(i).late)
    && forall i: nat, j: nat :: i < j ==> env(i).late + SLEEP <= env(j).now
  }

  ghost predicate PromptsOk(answers: seq<Answer>) {
    && (forall k :: 0 <= k < |answers| ==> answers[k].prompt != [])
    && (forall j, k :: 0 <= j < k < |answers| ==> answers[j].prompt != answers[k].prompt)
  }

  ghost predicate WaitOk(w: Wait) {
    && w.cursor <= |w.read|
    && ClockOk(w.env) && w.lastCheck <= w.begin <= w.env(0).now
    && PromptsOk(w.answers)
  }

  lemma {:induction false} StreamGrows(env: nat -> Poll, m: nat, n: nat)
    requires m <= n
    ensures Stream(env, m) <= Stream(env, n)
    decreases n
  {
    if m < n {
      StreamGrows(env, m, n - 1);
    }
  }

  lemma SeenGrows(w: Wait, m: nat, n: nat)
    requires m <= n
    ensures w.read <= Seen(w, m) <= Seen(w, n)
  {
    StreamGrows(w.env, m, n);
  }

  /** The snapshot poll `i` takes. */
  function Snapshot(w: Wait, i: nat): Bytes {
    var s := Seen(w, i + 1);
    s[Min(w.cursor, |s|)..]
  }

  // --- silence --------------------------------------------------------------------

  predicate Grew(w: Wait, i: nat) {
    |Snapshot(w, i)| != if i == 0 then 0 else |Snapshot(w, i - 1)|
  }

  /** The last poll up to `i` whose snapshot had grown. */
  function LastGrowth(w: Wait, i: nat): Option<nat> {
    if Grew(w, i) then Some(i)
    else if i == 0 then None
    else LastGrowth(w, i - 1)
  }

  function LastSeen(w: Wait, i: nat): real {
    match LastGrowth(w, i) case Some(g) => w.env(g).now case None => w.begin
  }

  function Silence(w: Wait, i: nat): real {
    w.env(i).now - LastSeen(w, i)
  }

  predicate IdleAt(w: Wait, i: nat) {
    !Grew(w, i) && Silence(w, i) >= w.idle
  }

  // --- CPUs spinning in place --------------------------------------------------------

  /** Whether poll `i` asks the monitor where the CPUs are. */
  predicate Probes(w: Wait, i: nat)
    decreases i, 1
  {
    && !Grew(w, i) && !IdleAt(w, i)
    && Silence(w, i) >= STUCK_AFTER
    && w.env(i).now - Sampled(w, i) >= STUCK_SAMPLE
  }

  /** When the monitor was last asked before poll `i`. */
  function Sampled(w: Wait, i: nat): real
    decreases i, 0
  {
    if i == 0 then w.begin
    else if Probes(w, i - 1) then w.env(i - 1).now
    else Sampled(w, i - 1)
  }

  /** The last poll before `i` that asked, unless the guest printed since. */
  function LastProbe(w: Wait, i: nat): Option<nat>
    decreases i
  {
    if Grew(w, i) || i == 0 then None
    else if Probes(w, i - 1) then Some(i - 1)
    else LastProbe(w, i - 1)
  }

  /** The polls up to `i` that asked, one after the other, and heard the same. */
  function Spin(w: Wait, i: nat): (polls: seq<nat>)
    ensures polls != [] && polls[|polls| - 1] == i
    ensures forall k :: 0 <= k < |polls| ==> polls[k] <= i
    decreases i
  {
    match LastProbe(w, i)
    case Some(j) =>
      if j < i && w.env(j).addresses == w.env(i).addresses then Spin(w, j) + [i] else [i]
    case None => [i]
  }

  predicate StuckAt(w: Wait, i: nat) {
    && Probes(w, i) && w.env(i).addresses != map[]
    && w.env(i).now - w.env(Spin(w, i)[0]).now >= STUCK_FOR
  }

  // --- QEMU's own state ----------------------------------------------------------------

  predicate Checks(w: Wait, i: nat)
    decreases i, 1
  {
    !w.env(i).exited && w.env(i).checked - LastCheck(w, i) >= STATUS_INTERVAL
  }

  function LastCheck(w: Wait, i: nat): real
    decreases i, 0
  {
    if i == 0 then w.lastCheck
    else if Checks(w, i - 1) then w.env(i - 1).checked
    else LastCheck(w, i - 1)
  }

  // --- how poll `i` ends the wait, if it does ---------------------------------------------

  function FirstFailure(failures: seq<Bytes>, s: Bytes): Option<Bytes> {
    if failures == [] then None
    else if Find(s, failures[0], 0).Some? then Some(failures[0])
    else FirstFailure(failures[1..], s)
  }

  function Hang(w: Wait, i: nat): Option<Outcome> {
    if IdleAt(w, i) then Some(HungIdle)
    else if StuckAt(w, i) then Some(HungStuck(w.env(i).addresses))
    else None
  }

  /** What the snapshot itself decides. */
  function Reading(w: Wait, i: nat): Option<Outcome> {
    var s := Snapshot(w, i);
    match Find(s, w.needle, 0)
    case Some(at) => Some(Matched(s[..at + |w.needle|]))
    case None =>
      match FirstFailure(w.failures, s)
      case Some(f) => Some(PanicPrinted(f))
      case None => None
  }

  /** What is left once the prompts are answered. */
  function Aftermath(w: Wait, i: nat): Option<Outcome> {
    if w.env(i).exited then Some(Exited)
    else if Checks(w, i) && w.env(i).panicked then Some(PanicState)
    else if w.env(i).late >= w.begin + w.timeout then Some(TimedOut)
    else None
  }

  /** Hangs first, then the snapshot, then the rest. */
  function Verdict(w: Wait, i: nat): Option<Outcome> {
    if Hang(w, i).Some? then Hang(w, i)
    else if Reading(w, i).Some? then Reading(w, i)
    else Aftermath(w, i)
  }

  /** Poll `n` is the one that ends the wait. */
  ghost predicate EndsAt(w: Wait, n: nat, r: Outcome) {
    && Verdict(w, n) == Some(r)
    && forall i :: 0 <= i < n ==> Verdict(w, i) == None
  }

  // --- what the wait answers --------------------------------------------------------------

  /** A prompt answered, and where in the snapshot it stands. */
  datatype Reply = Reply(prompt: Bytes, reply: Bytes, at: nat)

  /** One answer a poll at most, while the scan of the snapshot has another. */
  function Next(s: Bytes, prompt: Bytes, count: nat): nat
    requires prompt != []
  {
    if count < |Scan(s, prompt, 0)| then count + 1 else count
  }

  /** How many times `prompt` was answered before poll `i`. */
  function Answered(w: Wait, prompt: Bytes, i: nat): nat
    requires prompt != []
    decreases i
  {
    if i == 0 then 0 else Next(Snapshot(w, i - 1), prompt, Answered(w, prompt, i - 1))
  }

  function Counts(w: Wait, i: nat): (counts: seq<nat>)
    requires forall k :: 0 <= k < |w.answers| ==> w.answers[k].prompt != []
    ensures |counts| == |w.answers|
  {
    seq(|w.answers|, k requires 0 <= k < |w.answers| => Answered(w, w.answers[k].prompt, i))
  }

  /** The replies of one poll to the first `k` prompts. */
  function PollReplies(s: Bytes, answers: seq<Answer>, counts: seq<nat>, k: nat): seq<Reply>
    requires k <= |answers| == |counts|
    requires forall j :: 0 <= j < |answers| ==> answers[j].prompt != []
  {
    if k == 0 then []
    else
      var a, found := answers[k - 1], Scan(s, answers[k - 1].prompt, 0);
      PollReplies(s, answers, counts, k - 1) +
        if counts[k - 1] < |found| then [Reply(a.prompt, a.reply, found[counts[k - 1]])] else []
  }

  /** The replies of the polls before poll `n`. */
  function Replies(w: Wait, n: nat): seq<Reply>
    requires forall k :: 0 <= k < |w.answers| ==> w.answers[k].prompt != []
    decreases n
  {
    if n == 0 then []
    else Replies(w, n - 1) + PollReplies(Snapshot(w, n - 1), w.answers, Counts(w, n - 1), |w.answers|)
  }

  function Texts(rs: seq<Reply>): seq<Bytes> {
    seq(|rs|, i requires 0 <= i < |rs| => rs[i].reply)
  }

  /** Whether the poll that ends with `r` got as far as answering. */
  predicate AnswersFirst(r: Outcome) {
    r.Exited? || r.PanicState? || r.TimedOut?
  }

  /** The replies of a wait that poll `n` ends with `r`. */
  function AllReplies(w: Wait, n: nat, r: Outcome): seq<Reply>
    requires forall k :: 0 <= k < |w.answers| ==> w.answers[k].prompt != []
  {
    Replies(w, if AnswersFirst(r) then n + 1 else n)
  }
}
